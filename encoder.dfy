/**
  Encoding (huffman.py:59-63): the codewords of the text's symbols, in text
  order, appended one after another to a growing bit string.
 */
module Encoder {
  import opened Base
  import opened Codewords

  /** Every symbol of the text has a codeword. */
  predicate Covered(data: seq<Symbol>, table: CodewordTable) {
    forall i :: 0 <= i < |data| ==> data[i] in table
  }

  /** The in-order concatenation of the codewords of data. */
  function Concat(data: seq<Symbol>, table: CodewordTable): BitString
    requires Covered(data, table)
  {
    if data == [] then [] else table[data[0]] + Concat(data[1..], table)
  }

  /** Encoding distributes over concatenation of texts. */
  lemma {:induction false} ConcatAppend(a: seq<Symbol>, b: seq<Symbol>, table: CodewordTable)
    requires Covered(a, table) && Covered(b, table)
    ensures Covered(a + b, table)
    ensures Concat(a + b, table) == Concat(a, table) + Concat(b, table)
  {
    if a == [] {
      assert a + b == b;
    } else {
      assert (a + b)[1..] == a[1..] + b;
      ConcatAppend(a[1..], b, table);
    }
  }

  /** The sum, over the text, of the lengths of its symbols' codewords. */
  function CodeLength(data: seq<Symbol>, table: CodewordTable): nat
    requires Covered(data, table)
  {
    if data == [] then 0 else |table[data[0]]| + CodeLength(data[1..], table)
  }

  /** The encoding is as long as the codewords of the text put together. */
  lemma {:induction false} ConcatLength(data: seq<Symbol>, table: CodewordTable)
    requires Covered(data, table)
    ensures |Concat(data, table)| == CodeLength(data, table)
  {
    if data != [] {
      ConcatLength(data[1..], table);
    }
  }

  /**
    The encoding is a bit string when the codewords are; it is empty exactly
    when the codeword of every symbol of the text is empty, and at least as
    long as the text when no codeword is empty.
   */
  lemma {:induction false} ConcatShape(data: seq<Symbol>, table: CodewordTable)
    requires Covered(data, table)
    requires forall c :: c in table ==> IsBits(table[c])
    ensures IsBits(Concat(data, table))
    ensures (forall c :: c in table ==> table[c] != []) ==> |Concat(data, table)| >= |data|
    ensures (forall c :: c in table ==> table[c] == []) ==> Concat(data, table) == []
    ensures Concat(data, table) == [] <==> forall i :: 0 <= i < |data| ==> table[data[i]] == []
  {
    if data != [] {
      ConcatShape(data[1..], table);
      var w, rest := table[data[0]], Concat(data[1..], table);
      assert forall i :: 0 <= i < |w + rest| ==> (w + rest)[i] == if i < |w| then w[i] else rest[i - |w|];
      assert forall i :: 1 <= i < |data| ==> data[i] == data[1..][i - 1];
    }
  }

  /**
    encode of huffman.py:59-63. It fails on the first symbol that has no
    codeword (the KeyError of codeword_table[char]); otherwise the result is the
    in-order concatenation of the codewords.
   */
  method Encode(data: seq<Symbol>, table: CodewordTable) returns (r: Result<BitString>)
    ensures Covered(data, table) ==> r == Success(Concat(data, table))
    ensures !Covered(data, table) ==> r.Failure? && r.error.MissingCodeword?
    ensures r.Failure? ==> exists i :: 0 <= i < |data| && Covered(data[..i], table) &&
                                       data[i] !in table && r.error == MissingCodeword(data[i])
  {
    var encoded: BitString := [];
    var i := 0;
    while i < |data|
      invariant 0 <= i <= |data|
      invariant Covered(data[..i], table)
      invariant encoded == Concat(data[..i], table)
    {
      var c := data[i];
      if c !in table {
        return Failure(MissingCodeword(c));
      }
      assert data[..i + 1] == data[..i] + [c];
      ConcatAppend(data[..i], [c], table);
      assert Concat([c], table) == table[c] + Concat([], table);
      encoded := encoded + table[c];
      i := i + 1;
    }
    assert data[..i] == data;
    r := Success(encoded);
  }
}
