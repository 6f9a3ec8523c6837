/**
  Codeword derivation (huffman.py:46-57): a depth-first walk that records the
  root-to-leaf path of every leaf, '0' for a left step and '1' for a right
  step. The source writes into a dictionary of the enclosing scope; here the
  dictionary is threaded through the walk, left subtree before right subtree,
  so that a later write overrides an earlier one exactly as in the source.
 */
module Codewords {
  import opened Base
  import opened HuffmanTree

  type CodewordTable = map<Symbol, BitString>

  /** traverse(node, code) of huffman.py:49-54, starting from the dictionary so far. */
  function Traverse(t: Tree, code: BitString, table: CodewordTable): CodewordTable {
    match t
    case Leaf(c, _) => table[c := code]
    case Node(_, l, r) => Traverse(r, code + "1", Traverse(l, code + "0", table))
  }

  /** build_codeword_table of huffman.py:46-57. */
  function BuildCodewordTable(root: Tree): CodewordTable {
    Traverse(root, "", map[])
  }

  /**
    traverse as the source runs it: a recursive walk that writes each leaf's
    code into the one dictionary, left subtree first. Every leaf symbol gets
    an entry and every other entry is kept; with distinct leaf symbols, a
    leaf's entry is the code so far followed by its path from t.
    Traverse is the value the walk computes, the one the lemmas below reason
    about; this method is the walk itself, proved to compute it.
   */
  method TraverseInto(t: Tree, code: BitString, table: CodewordTable) returns (result: CodewordTable)
    ensures result == Traverse(t, code, table)
    ensures forall c :: c in result <==> c in table || c in Syms(t)
    ensures forall c :: c in table && c !in Syms(t) ==> result[c] == table[c]
    ensures Distinct(t) ==> forall c :: c in Syms(t) ==> result[c] == code + PathTo(t, c)
    decreases t
  {
    match t {
      case Leaf(c, _) =>
        result := table[c := code];
      case Node(_, l, r) =>
        result := TraverseInto(l, code + "0", table);
        result := TraverseInto(r, code + "1", result);
    }
    forall c ensures c in result <==> c in table || c in Syms(t)
      ensures c in table && c !in Syms(t) ==> result[c] == table[c]
    {
      TraverseKeeps(t, code, table, c);
    }
    if Distinct(t) {
      forall c | c in Syms(t) ensures result[c] == code + PathTo(t, c) {
        TraversePath(t, code, table, c);
      }
    }
  }

  /**
    build_codeword_table of huffman.py:46-57, run from an empty dictionary.
    The keys are exactly the leaf symbols; with distinct leaf symbols each
    codeword is the '0'/'1' path to its leaf, a tree that is a single leaf
    gives the empty codeword, and a larger tree gives no empty codeword,
    whether or not its leaf symbols are distinct.
   */
  method ComputeCodewordTable(root: Tree) returns (table: CodewordTable)
    ensures table == BuildCodewordTable(root)
    ensures forall c :: c in table <==> c in Syms(root)
    ensures Distinct(root) ==> forall c :: c in table ==>
      table[c] == PathTo(root, c) && IsBits(table[c]) && ReachesLeaf(root, table[c], c)
    ensures root.Leaf? ==> table == map[root.sym := []]
    ensures root.Node? ==> forall c :: c in table ==> table[c] != []
  {
    table := TraverseInto(root, "", map[]);
    NodeCodewordsNonEmpty(root);
    if Distinct(root) {
      CodewordTableSpec(root);
      assert forall c :: c in Syms(root) ==> "" + PathTo(root, c) == PathTo(root, c);
    }
  }

  /**
    The walk only writes codes that extend the code it starts from, so when
    the entries so far and that code are all at least k bits long, so is
    every entry afterwards.
   */
  lemma {:induction false} TraverseLonger(t: Tree, code: BitString, table: CodewordTable, k: nat)
    requires |code| >= k
    requires forall c :: c in table ==> |table[c]| >= k
    ensures forall c :: c in Traverse(t, code, table) ==> |Traverse(t, code, table)[c]| >= k
    decreases t
  {
    match t {
      case Leaf(_, _) =>
      case Node(_, l, r) =>
        TraverseLonger(l, code + "0", table, k);
        TraverseLonger(r, code + "1", Traverse(l, code + "0", table), k);
    }
  }

  /** Under a merged root every leaf is at least one step down, so no codeword is empty. */
  lemma NodeCodewordsNonEmpty(root: Tree)
    ensures root.Node? ==> forall c :: c in BuildCodewordTable(root) ==> BuildCodewordTable(root)[c] != []
  {
    if root.Node? {
      var code: BitString := "";
      TraverseLonger(root.left, code + "0", map[], 1);
      var after := Traverse(root.right, code + "1", Traverse(root.left, code + "0", map[]));
      TraverseLonger(root.right, code + "1", Traverse(root.left, code + "0", map[]), 1);
      assert BuildCodewordTable(root) == after;
      forall c | c in after ensures after[c] != [] {
        assert |after[c]| >= 1;
      }
    }
  }

  /** The walk adds an entry for every leaf symbol and keeps the entries of all other symbols. */
  lemma {:induction false} TraverseKeeps(t: Tree, code: BitString, table: CodewordTable, c: Symbol)
    ensures c in Traverse(t, code, table) <==> c in table || c in Syms(t)
    ensures c in table && c !in Syms(t) ==> Traverse(t, code, table)[c] == table[c]
  {
    match t
    case Leaf(_, _) =>
    case Node(_, l, r) =>
      TraverseKeeps(l, code + "0", table, c);
      TraverseKeeps(r, code + "1", Traverse(l, code + "0", table), c);
  }

  /**
    When the leaf symbols are distinct, a leaf's entry is the prefix so far
    followed by the path to that leaf: the right subtree never overwrites an
    entry of the left one.
   */
  lemma {:induction false} TraversePath(t: Tree, code: BitString, table: CodewordTable, c: Symbol)
    requires Distinct(t) && c in Syms(t)
    ensures c in Traverse(t, code, table) && Traverse(t, code, table)[c] == code + PathTo(t, c)
    decreases t, 1
  {
    if t.Leaf? {
      assert code + [] == code;
    } else if c in Syms(t.left) {
      TraverseLeft(t, code, table, c);
    } else {
      TraverseRight(t, code, table, c);
    }
  }

  /** The entry of a symbol of the left subtree: the right walk does not touch it. */
  lemma {:induction false} TraverseLeft(t: Tree, code: BitString, table: CodewordTable, c: Symbol)
    requires t.Node? && Distinct(t) && c in Syms(t.left)
    ensures c in Traverse(t, code, table) && Traverse(t, code, table)[c] == code + PathTo(t, c)
    decreases t, 0
  {
    var mid := Traverse(t.left, code + "0", table);
    DistinctChildren(t);
    TraversePath(t.left, code + "0", table, c);
    TraverseKeeps(t.right, code + "1", mid, c);
    assert code + "0" + PathTo(t.left, c) == code + ("0" + PathTo(t.left, c));
  }

  /** The entry of a symbol of the right subtree is the one the right walk writes. */
  lemma {:induction false} TraverseRight(t: Tree, code: BitString, table: CodewordTable, c: Symbol)
    requires t.Node? && Distinct(t) && c in Syms(t) && c !in Syms(t.left)
    ensures c in Traverse(t, code, table) && Traverse(t, code, table)[c] == code + PathTo(t, c)
    decreases t, 0
  {
    var mid := Traverse(t.left, code + "0", table);
    DistinctChildren(t);
    TraversePath(t.right, code + "1", mid, c);
    assert code + "1" + PathTo(t.right, c) == code + ("1" + PathTo(t.right, c));
  }

  /**
    The codeword table of a tree with distinct leaf symbols has an entry for
    exactly the leaf symbols; each entry is a string of '0'/'1' that leads from
    the root to that symbol's leaf, and it is the only such string. A tree that
    is a single leaf gives its symbol the empty codeword; otherwise no codeword
    is empty.
   */
  lemma CodewordTableSpec(root: Tree)
    requires Distinct(root)
    ensures forall c :: c in BuildCodewordTable(root) <==> c in Syms(root)
    ensures forall c :: c in BuildCodewordTable(root) ==>
      var w := BuildCodewordTable(root)[c];
      IsBits(w) && ReachesLeaf(root, w, c)
    ensures forall c, p :: IsBits(p) && ReachesLeaf(root, p, c) ==>
      c in BuildCodewordTable(root) && BuildCodewordTable(root)[c] == p
    ensures root.Leaf? ==> BuildCodewordTable(root) == map[root.sym := []]
    ensures root.Node? ==> forall c :: c in BuildCodewordTable(root) ==> BuildCodewordTable(root)[c] != []
  {
    forall c ensures c in BuildCodewordTable(root) <==> c in Syms(root) {
      TraverseKeeps(root, "", map[], c);
    }
    forall c | c in Syms(root) ensures BuildCodewordTable(root)[c] == PathTo(root, c) {
      TraversePath(root, "", map[], c);
      assert "" + PathTo(root, c) == PathTo(root, c);
    }
    forall c, p | IsBits(p) && ReachesLeaf(root, p, c)
      ensures c in BuildCodewordTable(root) && BuildCodewordTable(root)[c] == p
    {
      PathUnique(root, p, c);
    }
  }

  /** No codeword of one symbol is a prefix of the codeword of another symbol. */
  lemma PrefixFree(root: Tree, c: Symbol, d: Symbol)
    requires Distinct(root)
    requires c in BuildCodewordTable(root) && d in BuildCodewordTable(root) && c != d
    ensures !(BuildCodewordTable(root)[c] <= BuildCodewordTable(root)[d])
  {
    var cw := BuildCodewordTable(root);
    CodewordTableSpec(root);
    if cw[c] <= cw[d] {
      LeafPathsPrefixFree(root, cw[c], c, cw[d], d);
    }
  }
}
