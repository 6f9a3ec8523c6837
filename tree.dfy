/**
  The Huffman tree node. A leaf carries a symbol and its frequency; a merged
  node carries no symbol, exactly two children and a combined frequency.
 */
module HuffmanTree {
  import opened Base

  datatype Tree =
    | Leaf(sym: Symbol, freq: nat)
    | Node(freq: nat, left: Tree, right: Tree)

  /** The multiset of leaf symbols of a tree. */
  function Syms(t: Tree): multiset<Symbol> {
    match t
    case Leaf(c, _) => multiset{c}
    case Node(_, l, r) => Syms(l) + Syms(r)
  }

  /** No symbol labels two leaves. */
  ghost predicate Distinct(t: Tree) {
    forall c :: Syms(t)[c] <= 1
  }

  /** Every merged node weighs the sum of its children (huffman.py:38). */
  predicate WellWeighted(t: Tree) {
    match t
    case Leaf(_, _) => true
    case Node(w, l, r) => w == l.freq + r.freq && WellWeighted(l) && WellWeighted(r)
  }

  /** Every leaf carries the frequency the table gives its symbol (huffman.py:31). */
  predicate LeavesFrom(t: Tree, table: map<Symbol, nat>) {
    match t
    case Leaf(c, w) => c in table && w == table[c]
    case Node(_, l, r) => LeavesFrom(l, table) && LeavesFrom(r, table)
  }

  function Size(t: Tree): nat {
    match t
    case Leaf(_, _) => 1
    case Node(_, l, r) => 1 + Size(l) + Size(r)
  }

  /** The child a bit selects: '0' goes left, anything else right (huffman.py:118-121). */
  function Child(t: Tree, bit: char): Tree
    requires t.Node?
  {
    if bit == '0' then t.left else t.right
  }

  /** The subtree reached from t by following path p, if the path stays inside the tree. */
  function Descend(t: Tree, p: BitString): Option<Tree>
    decreases p
  {
    if p == [] then Some(t)
    else match t
      case Leaf(_, _) => None
      case Node(_, _, _) => Descend(Child(t, p[0]), p[1..])
  }

  datatype Option<+T> = None | Some(value: T)

  /** Following p from the root of t ends on the leaf labelled c. */
  ghost predicate ReachesLeaf(t: Tree, p: BitString, c: Symbol) {
    var d := Descend(t, p);
    d.Some? && d.value.Leaf? && d.value.sym == c
  }

  /** The root-to-leaf path of symbol c: the left subtree is searched first. */
  function PathTo(t: Tree, c: Symbol): (p: BitString)
    requires c in Syms(t)
    ensures IsBits(p) && ReachesLeaf(t, p, c)
  {
    match t
    case Leaf(_, _) => []
    case Node(_, l, r) =>
      if c in Syms(l) then "0" + PathTo(l, c) else "1" + PathTo(r, c)
  }

  /** In a tree whose symbols are distinct, the bit path to a symbol's leaf is unique. */
  lemma {:induction false} PathUnique(t: Tree, p: BitString, c: Symbol)
    requires Distinct(t) && IsBits(p) && ReachesLeaf(t, p, c)
    ensures c in Syms(t) && p == PathTo(t, c)
  {
    match t
    case Leaf(_, _) =>
    case Node(_, l, r) =>
      DistinctChildren(t);
      assert p != [];
      var child := Child(t, p[0]);
      assert Descend(t, p) == Descend(child, p[1..]);
      assert IsBits(p[1..]);
      PathUnique(child, p[1..], c);
      if p[0] == '0' {
        assert p == "0" + p[1..];
      } else {
        assert p[0] == '1';
        assert c !in Syms(l);
        assert p == "1" + p[1..];
      }
  }

  lemma DistinctChildren(t: Tree)
    requires t.Node? && Distinct(t)
    ensures Distinct(t.left) && Distinct(t.right)
    ensures forall c :: c in Syms(t.left) ==> c !in Syms(t.right)
  {
    forall c ensures Syms(t.left)[c] <= 1 && Syms(t.right)[c] <= 1 {
      assert Syms(t)[c] == Syms(t.left)[c] + Syms(t.right)[c];
    }
    forall c | c in Syms(t.left) ensures c !in Syms(t.right) {
      assert Syms(t)[c] == Syms(t.left)[c] + Syms(t.right)[c];
    }
  }

  /** A path that ends on a leaf cannot be extended: leaves have no children. */
  lemma {:induction false} LeafPathIsMaximal(t: Tree, p: BitString, q: BitString)
    requires Descend(t, p).Some? && Descend(t, p).value.Leaf?
    requires |p| < |q| && q[..|p|] == p
    ensures Descend(t, q) == None
  {
    if p != [] {
      match t
      case Leaf(_, _) =>
      case Node(_, _, _) =>
        assert q[0] == p[0];
        assert q[1..][..|p| - 1] == p[1..];
        LeafPathIsMaximal(Child(t, p[0]), p[1..], q[1..]);
    }
  }

  /**
    Prefix-freedom of the paths to leaves: a path to a leaf that is a prefix
    of a path to another leaf is that very path, to that very leaf.
   */
  lemma LeafPathsPrefixFree(t: Tree, p: BitString, c: Symbol, q: BitString, d: Symbol)
    requires ReachesLeaf(t, p, c) && ReachesLeaf(t, q, d) && p <= q
    ensures p == q && c == d
  {
    if |p| < |q| {
      LeafPathIsMaximal(t, p, q);
    } else {
      assert p == q[..|p|] == q;
    }
  }

  /** A non-empty path lands strictly inside the tree. */
  lemma {:induction false} DescendShrinks(t: Tree, p: BitString)
    requires p != [] && Descend(t, p).Some?
    ensures Size(Descend(t, p).value) < Size(t)
  {
    match t
    case Leaf(_, _) =>
    case Node(_, _, _) =>
      if p[1..] != [] {
        DescendShrinks(Child(t, p[0]), p[1..]);
      }
  }

  /** The leaves below a node reached from the root are leaves of the whole tree. */
  lemma {:induction false} DescendSyms(t: Tree, p: BitString, c: Symbol)
    requires Descend(t, p).Some? && c in Syms(Descend(t, p).value)
    ensures c in Syms(t)
    decreases p
  {
    if p != [] && t.Node? {
      DescendSyms(Child(t, p[0]), p[1..], c);
    }
  }

  /** One more step down from a merged node reached by p. */
  lemma {:induction false} DescendStep(t: Tree, p: BitString, b: char)
    requires Descend(t, p).Some? && Descend(t, p).value.Node?
    ensures Descend(t, p + [b]) == Some(Child(Descend(t, p).value, b))
  {
    if p != [] {
      match t
      case Leaf(_, _) =>
      case Node(_, _, _) =>
        assert (p + [b])[0] == p[0];
        assert (p + [b])[1..] == p[1..] + [b];
        DescendStep(Child(t, p[0]), p[1..], b);
    }
  }
}
