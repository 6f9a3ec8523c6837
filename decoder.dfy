/**
  Decoding (huffman.py:115-124): walk the tree one bit at a time, '0' to the
  left child and anything else to the right child; on reaching a leaf, emit
  its symbol and go back to the root.
 */
module Decoder {
  import opened Base
  import opened HuffmanTree
  import opened Codewords
  import opened Encoder

  /** The decoder's state: the symbols emitted so far and the current node. */
  datatype Cursor = Cursor(out: seq<Symbol>, node: Tree)

  /**
    One bit of the walk. A leaf has no children: stepping from one fails, as
    the source's None.char does when the root itself is a leaf.
   */
  function Step(root: Tree, st: Cursor, bit: char): Result<Cursor> {
    if st.node.Leaf? then Failure(NoChild)
    else
      var next := Child(st.node, bit);
      if next.Leaf? then Success(Cursor(st.out + [next.sym], root))
      else Success(Cursor(st.out, next))
  }

  /** The walk over a whole bit string, from a given state. */
  function Run(root: Tree, st: Cursor, bits: BitString): (r: Result<Cursor>)
    ensures r.Success? ==> |st.out| <= |r.value.out| <= |st.out| + |bits|
    ensures r.Success? ==> r.value.out[..|st.out|] == st.out
    decreases bits
  {
    if bits == [] then Success(st)
    else
      var next :- Step(root, st, bits[0]);
      Run(root, next, bits[1..])
  }

  /** The decoded text: the symbols the walk emits from the root. */
  function Decode(root: Tree, bits: BitString): (r: Result<seq<Symbol>>)
    ensures r.Success? ==> |r.value| <= |bits|
  {
    var st :- Run(root, Cursor([], root), bits);
    Success(st.out)
  }

  /**
    The decoding loop of huffman.py:115-124. A bit string that ends part-way
    down the tree is not an error: the symbols decoded so far are returned.
   */
  method DecodeWalk(root: Tree, bits: BitString) returns (r: Result<seq<Symbol>>)
    ensures r == Decode(root, bits)
  {
    var decoded: seq<Symbol> := [];
    var current := root;
    var i := 0;
    while i < |bits|
      invariant 0 <= i <= |bits|
      invariant Run(root, Cursor([], root), bits) == Run(root, Cursor(decoded, current), bits[i..])
    {
      assert bits[i..][1..] == bits[i + 1..];
      if current.Leaf? {
        return Failure(NoChild);
      }
      if bits[i] == '0' {
        current := current.left;
      } else {
        current := current.right;
      }
      if current.Leaf? {
        decoded := decoded + [current.sym];
        current := root;
      }
      i := i + 1;
    }
    r := Success(decoded);
  }

  /**
    Walking a codeword from an inner node down to its leaf emits that leaf's
    symbol and resets the walk to the root; the rest of the bits are then
    decoded from the root.
   */
  lemma {:induction false} WalkCodeword(root: Tree, n: Tree, p: BitString, c: Symbol,
                                        out: seq<Symbol>, rest: BitString)
    requires n.Node? && ReachesLeaf(n, p, c)
    ensures Run(root, Cursor(out, n), p + rest) == Run(root, Cursor(out + [c], root), rest)
    decreases p
  {
    assert p != [];
    var next := Child(n, p[0]);
    assert (p + rest)[0] == p[0];
    assert (p + rest)[1..] == p[1..] + rest;
    assert Descend(n, p) == Descend(next, p[1..]);
    if next.Leaf? {
      assert Descend(next, p[1..]).Some?;
    } else {
      WalkCodeword(root, next, p[1..], c, out, rest);
    }
  }

  /**
    Walking the encoding of a text from the root of a tree with at least two
    leaves emits exactly that text and finishes back at the root.
   */
  lemma {:induction false} RunEncoded(root: Tree, data: seq<Symbol>, out: seq<Symbol>)
    requires root.Node? && Distinct(root)
    requires Covered(data, BuildCodewordTable(root))
    ensures Run(root, Cursor(out, root), Concat(data, BuildCodewordTable(root)))
            == Success(Cursor(out + data, root))
    decreases data
  {
    var cw := BuildCodewordTable(root);
    if data == [] {
      assert out + data == out;
    } else {
      CodewordTableSpec(root);
      WalkCodeword(root, root, cw[data[0]], data[0], out, Concat(data[1..], cw));
      RunEncoded(root, data[1..], out + [data[0]]);
      assert out + [data[0]] + data[1..] == out + data;
    }
  }

  /**
    The round trip: decoding, with the same tree, the encoding of a text
    whose symbols are all leaves of a tree with at least two leaves gives the
    text back.
   */
  lemma RoundTrip(root: Tree, data: seq<Symbol>)
    requires root.Node? && Distinct(root)
    requires forall i :: 0 <= i < |data| ==> data[i] in Syms(root)
    ensures Covered(data, BuildCodewordTable(root))
    ensures Decode(root, Concat(data, BuildCodewordTable(root))) == Success(data)
  {
    CodewordTableSpec(root);
    RunEncoded(root, data, []);
    assert [] + data == data;
  }

  /**
    The converse: a walk that starts at the node reached by path q and ends
    back at the root has read exactly the codewords of the symbols it emitted
    (q included in the first one).
   */
  lemma {:induction false} RunEndsAtRoot(root: Tree, q: BitString, n: Tree, out: seq<Symbol>,
                                         bits: BitString, res: Cursor)
    requires root.Node? && Distinct(root) && IsBits(q) && IsBits(bits)
    requires Descend(root, q) == Some(n) && n.Node?
    requires Run(root, Cursor(out, n), bits) == Success(res) && res.node == root
    ensures |out| <= |res.out| && res.out[..|out|] == out
    ensures Covered(res.out[|out|..], BuildCodewordTable(root))
    ensures q + bits == Concat(res.out[|out|..], BuildCodewordTable(root))
    decreases bits, 0
  {
    if bits == [] {
      if q != [] {
        DescendShrinks(root, q);
      }
      assert res.out[|out|..] == [];
    } else {
      var b := bits[0];
      var child := Child(n, b);
      DescendStep(root, q, b);
      assert IsBits(bits[1..]);
      assert IsBits(q + [b]);
      assert q + bits == (q + [b]) + bits[1..];
      if child.Leaf? {
        EndAtLeaf(root, q + [b], child, out, bits[1..], res);
      } else {
        RunEndsAtRoot(root, q + [b], child, out, bits[1..], res);
      }
    }
  }

  /** The step of RunEndsAtRoot that completes a codeword: path p leads to a leaf. */
  lemma {:induction false} EndAtLeaf(root: Tree, p: BitString, leaf: Tree, out: seq<Symbol>,
                                     bits: BitString, res: Cursor)
    requires root.Node? && Distinct(root) && IsBits(p) && IsBits(bits)
    requires Descend(root, p) == Some(leaf) && leaf.Leaf?
    requires Run(root, Cursor(out + [leaf.sym], root), bits) == Success(res) && res.node == root
    ensures |out| <= |res.out| && res.out[..|out|] == out
    ensures Covered(res.out[|out|..], BuildCodewordTable(root))
    ensures p + bits == Concat(res.out[|out|..], BuildCodewordTable(root))
    decreases bits, 1
  {
    var cw := BuildCodewordTable(root);
    var c := leaf.sym;
    assert c in cw && cw[c] == p by {
      CodewordTableSpec(root);
      assert ReachesLeaf(root, p, c);
    }
    RunEndsAtRoot(root, [], root, out + [c], bits, res);
    assert |out| <= |res.out| && res.out[..|out|] == out by {
      assert res.out[..|out| + 1][..|out|] == res.out[..|out|];
    }
    var tail := res.out[|out| + 1..];
    assert Covered(tail, cw) && bits == Concat(tail, cw) by {
      assert [] + bits == bits;
    }
    var whole := res.out[|out|..];
    assert whole == [c] + tail && whole[1..] == tail;
    assert Concat(whole, cw) == p + bits;
  }

  /**
    For a tree with at least two leaves, the walk over a bit string ends back
    at the root exactly when the bit string is a concatenation of whole
    codewords; the text it then decodes is the one whose codewords they are.
   */
  lemma EndsAtRootIffWholeCodewords(root: Tree, bits: BitString)
    requires root.Node? && Distinct(root) && IsBits(bits)
    ensures (var r := Run(root, Cursor([], root), bits); r.Success? && r.value.node == root)
            <==> (exists data :: Covered(data, BuildCodewordTable(root)) &&
                                 Concat(data, BuildCodewordTable(root)) == bits)
  {
    var cw := BuildCodewordTable(root);
    var r := Run(root, Cursor([], root), bits);
    if r.Success? && r.value.node == root {
      RunEndsAtRoot(root, [], root, [], bits, r.value);
      assert r.value.out[0..] == r.value.out;
    }
    if data :| Covered(data, cw) && Concat(data, cw) == bits {
      RunEncoded(root, data, []);
    }
  }

  /**
    Every symbol the walk emits labels a leaf of the tree, whatever the bits
    and whatever the tree.
   */
  lemma {:induction false} RunEmitsLeafSymbols(root: Tree, q: BitString, n: Tree, out: seq<Symbol>,
                                               bits: BitString, res: Cursor)
    requires Descend(root, q) == Some(n)
    requires Run(root, Cursor(out, n), bits) == Success(res)
    ensures |out| <= |res.out| && res.out[..|out|] == out
    ensures forall i :: |out| <= i < |res.out| ==> res.out[i] in Syms(root)
    decreases bits, 0
  {
    if bits != [] {
      var step := Step(root, Cursor(out, n), bits[0]);
      assert step.Success?;
      assert Run(root, Cursor(out, n), bits) == Run(root, step.value, bits[1..]);
      DescendStep(root, q, bits[0]);
      if Child(n, bits[0]).Leaf? {
        EmitLeaf(root, q + [bits[0]], Child(n, bits[0]), out, bits[1..], res);
      } else {
        RunEmitsLeafSymbols(root, q + [bits[0]], Child(n, bits[0]), out, bits[1..], res);
      }
    }
  }

  /** The step of RunEmitsLeafSymbols that lands on a leaf and emits its symbol. */
  lemma {:induction false} EmitLeaf(root: Tree, p: BitString, leaf: Tree, out: seq<Symbol>,
                                    bits: BitString, res: Cursor)
    requires Descend(root, p) == Some(leaf) && leaf.Leaf?
    requires Run(root, Cursor(out + [leaf.sym], root), bits) == Success(res)
    ensures |out| <= |res.out| && res.out[..|out|] == out
    ensures forall i :: |out| <= i < |res.out| ==> res.out[i] in Syms(root)
    decreases bits, 1
  {
    DescendSyms(root, p, leaf.sym);
    RunEmitsLeafSymbols(root, [], root, out + [leaf.sym], bits, res);
    assert res.out[..|out| + 1][..|out|] == res.out[..|out|];
    assert res.out[|out|] == (out + [leaf.sym])[|out|];
  }

  /**
    A tree that is a single leaf: the codeword of its symbol is empty, so a
    text of that one symbol encodes to no bits at all, and decoding no bits
    gives the empty text, not the original one.
   */
  lemma SingleLeafLosesText(c: Symbol, w: nat, data: seq<Symbol>)
    requires forall i :: 0 <= i < |data| ==> data[i] == c
    ensures Covered(data, BuildCodewordTable(Leaf(c, w)))
    ensures Concat(data, BuildCodewordTable(Leaf(c, w))) == []
    ensures Decode(Leaf(c, w), Concat(data, BuildCodewordTable(Leaf(c, w)))) == Success([])
  {
  }
}
