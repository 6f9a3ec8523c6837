/**
  The two entry points of huffman.py: compress (lines 71-95) and decompress
  (lines 97-130), with the files replaced by the text and the byte list they
  hold. Decompress is given the tree that compress built; the source instead
  rebuilds a tree from the bits it reads (line 112), modelled separately by
  DecompressAsWritten.
 */
module Pipeline {
  import opened Base
  import opened HuffmanTree
  import opened Frequency
  import opened TreeBuilder
  import opened Codewords
  import opened Encoder
  import opened Decoder
  import opened BitPacking

  /** What compress produces: the bytes it writes, and the tree it built them with. */
  datatype Compressed = Compressed(tree: Tree, bytes: seq<Byte>)

  /** The text holds at least two different symbols. */
  predicate TwoSymbols(data: seq<Symbol>) {
    exists i, j :: 0 <= i < |data| && 0 <= j < |data| && data[i] != data[j]
  }

  /** A table keyed by the symbols of a text has two keys exactly when the text has two different symbols. */
  lemma TwoKeysIffTwoSymbols(table: FrequencyTable, data: seq<Symbol>)
    requires forall c :: c in table <==> c in data
    ensures |table| >= 2 <==> TwoSymbols(data)
  {
    if |table| >= 2 {
      var a :| a in table;
      assert |table.Keys - {a}| >= 1;
      var b :| b in table.Keys - {a};
      var i :| 0 <= i < |data| && data[i] == a;
      var j :| 0 <= j < |data| && data[j] == b;
      assert data[i] != data[j];
    }
    if TwoSymbols(data) {
      var i, j :| 0 <= i < |data| && 0 <= j < |data| && data[i] != data[j];
      var a, b := data[i], data[j];
      assert {a, b} <= table.Keys;
      assert |{a, b}| == 2;
      SubsetSize({a, b}, table.Keys);
    }
  }

  lemma {:induction false} SubsetSize(a: set<Symbol>, b: set<Symbol>)
    requires a <= b
    ensures |a| <= |b|
    decreases |a|
  {
    if a != {} {
      var x :| x in a;
      SubsetSize(a - {x}, b - {x});
    }
  }

  /** The text that decompress recovers from the bytes, decoding with the given tree. */
  function Decompressed(bytes: seq<Byte>, root: Tree): Result<seq<Symbol>> {
    var bits :- StripPadding(Unpack(bytes));
    Decode(root, bits)
  }

  /**
    compress of huffman.py:71-95. It fails exactly on the empty text (the
    tree builder pops from an empty queue). Otherwise the tree's leaves are
    the text's symbols, each once, weighted by its number of occurrences, the
    root weighs the length of the text, and the bytes are the packed, padded
    encoding of the text. Decompressing the bytes with that tree gives the
    text back when it has two different symbols, and the empty text when it
    has only one.
   */
  method Compress(data: seq<Symbol>) returns (r: Result<Compressed>)
    ensures r.Failure? <==> data == []
    ensures r.Failure? ==> r.error == EmptyQueue
    ensures r.Success? ==>
      var t := r.value.tree;
      WellWeighted(t) && LeavesFrom(t, Histogram(data)) && Distinct(t) &&
      (forall c :: c in Syms(t) <==> c in data) && t.freq == |data|
    ensures r.Success? ==>
      Covered(data, BuildCodewordTable(r.value.tree)) &&
      r.value.bytes == Pack(Pad(Concat(data, BuildCodewordTable(r.value.tree))))
    ensures r.Success? ==> (r.value.tree.Node? <==> TwoSymbols(data))
    ensures r.Success? && TwoSymbols(data) ==> Decompressed(r.value.bytes, r.value.tree) == Success(data)
    ensures r.Success? && !TwoSymbols(data) ==> Decompressed(r.value.bytes, r.value.tree) == Success([])
  {
    var table := BuildFrequencyTable(data);
    if data != [] {
      assert data[0] in table;
    }
    var root :- BuildTree(table);
    BuiltTree(data, table, root);
    var codewords := ComputeCodewordTable(root);
    DecompressCompressed(root, data);
    var encoding := Encode(data, codewords);
    var encoded := encoding.value;
    var padded := Pad(encoded);
    var bytes := Pack(padded);
    r := Success(Compressed(root, bytes));
  }

  /**
    The tree built from the frequency table of a text has the text's symbols
    as its leaves, each once, weighted by their counts; it is more than a
    single leaf exactly when the text has two different symbols.
   */
  lemma BuiltTree(data: seq<Symbol>, table: FrequencyTable, root: Tree)
    requires forall c :: c in table <==> c in data
    requires forall c :: c in table ==> table[c] == Count(data, c)
    requires SumValues(table) == |data|
    requires WellWeighted(root) && LeavesFrom(root, table)
    requires Syms(root) == multiset(table.Keys) && root.freq == SumValues(table)
    ensures WellWeighted(root) && LeavesFrom(root, Histogram(data)) && Distinct(root)
    ensures forall c :: c in Syms(root) <==> c in data
    ensures forall i :: 0 <= i < |data| ==> data[i] in Syms(root)
    ensures root.freq == |data|
    ensures root.Node? <==> TwoSymbols(data)
  {
    HistogramExt(table, data);
    var histogram := Histogram(data);
    assert histogram == table;
    assert LeavesFrom(root, histogram);
    KeysAreDistinct(root, table);
    RootIsNodeIffTwoSymbols(root, table);
    TwoKeysIffTwoSymbols(table, data);
  }

  /**
    Decompressing, with the same tree, the bytes that compress writes for a
    text whose symbols are leaves of the tree: the text itself when the tree
    has two leaves or more, the empty text when it is a single leaf.
   */
  lemma DecompressCompressed(root: Tree, data: seq<Symbol>)
    requires Distinct(root) && forall i :: 0 <= i < |data| ==> data[i] in Syms(root)
    ensures Covered(data, BuildCodewordTable(root))
    ensures var bytes := Pack(Pad(Concat(data, BuildCodewordTable(root))));
            Decompressed(bytes, root) == Success(if root.Node? then data else [])
  {
    var cw := BuildCodewordTable(root);
    if root.Node? {
      RoundTrip(root, data);
    } else {
      SingleLeafLosesText(root.sym, root.freq, data);
    }
    EncodedIsBits(root, data);
    var encoded := Concat(data, cw);
    ReadBack(encoded);
    assert Decompressed(Pack(Pad(encoded)), root) == Decode(root, encoded);
  }

  /** The encoding of a text under a tree's codeword table is a '0'/'1' string. */
  lemma EncodedIsBits(root: Tree, data: seq<Symbol>)
    requires Distinct(root) && Covered(data, BuildCodewordTable(root))
    ensures IsBits(Concat(data, BuildCodewordTable(root)))
  {
    CodewordTableSpec(root);
    ConcatShape(data, BuildCodewordTable(root));
  }

  /**
    decompress of huffman.py:97-130 given the tree that compress built: the
    bytes become a bit string, the padding is stripped, and the walk decodes
    the rest.
   */
  method Decompress(bytes: seq<Byte>, root: Tree) returns (r: Result<seq<Symbol>>)
    ensures r == Decompressed(bytes, root)
  {
    var bits := Unpack(bytes);
    var stripped :- StripPadding(bits);
    r := DecodeWalk(root, stripped);
  }

  /**
    decompress as huffman.py:97-130 writes it: the tree is rebuilt
    from the frequencies of the stripped bit string itself (line 112), so its
    leaves are '0' and '1' and everything it decodes is made of those two
    characters. No bits at all after the strip make the rebuild fail. Bits
    that are all the same rebuild a single leaf, which has no child to step
    to: the walk fails at its first bit, as the source's None.char does.
   */
  method DecompressAsWritten(bytes: seq<Byte>) returns (r: Result<seq<Symbol>>)
    ensures bytes == [] ==> r == Failure(EmptyHeader)
    ensures StripPadding(Unpack(bytes)) == Success([]) ==> r == Failure(EmptyQueue)
    ensures (var s := StripPadding(Unpack(bytes));
             s.Success? && s.value != [] && forall i :: 0 <= i < |s.value| ==> s.value[i] == s.value[0])
            ==> r == Failure(NoChild)
    ensures r.Success? ==> IsBits(r.value)
  {
    var bits := Unpack(bytes);
    var stripped :- StripPadding(bits);
    var table := BuildFrequencyTable(stripped);
    var root :- BuildTree(table);
    r := DecodeWalk(root, stripped);
    if stripped != [] && forall i :: 0 <= i < |stripped| ==> stripped[i] == stripped[0] {
      TwoKeysIffTwoSymbols(table, stripped);
      RootIsNodeIffTwoSymbols(root, table);
      assert root.Leaf?;
    }
    if r.Success? {
      var res := Run(root, Cursor([], root), stripped).value;
      RunEmitsLeafSymbols(root, [], root, [], stripped, res);
      forall i | 0 <= i < |r.value| ensures IsBit(r.value[i]) {
        assert r.value[i] in Syms(root);
        var k :| 0 <= k < |stripped| && stripped[k] == r.value[i];
      }
    }
  }

  /**
    The script at huffman.py:147-151 as written: compress, then decompress
    with the rebuilt tree. A text holding any character other than '0' and
    '1' never comes back, and an empty text fails.
   */
  method CompressThenDecompressAsWritten(data: seq<Symbol>) returns (r: Result<seq<Symbol>>)
    ensures data == [] ==> r.Failure?
    ensures (exists i :: 0 <= i < |data| && !IsBit(data[i])) ==> r != Success(data)
  {
    var c :- Compress(data);
    r := DecompressAsWritten(c.bytes);
  }

  /**
    Compress, then decompress with the tree compress built: a text with two
    different symbols comes back unchanged; a non-empty text of one repeated
    symbol comes back empty, because its only codeword is empty.
   */
  method CompressThenDecompress(data: seq<Symbol>) returns (r: Result<seq<Symbol>>)
    ensures data == [] ==> r == Failure(EmptyQueue)
    ensures TwoSymbols(data) ==> r == Success(data)
    ensures data != [] && !TwoSymbols(data) ==> r == Success([])
  {
    var c :- Compress(data);
    r := Decompress(c.bytes, c.tree);
  }
}
