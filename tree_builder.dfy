/**
  Tree construction (huffman.py:30-44): a greedy merge over a priority queue.
  The heap of the source is abstracted to a sequence of trees together with a
  "find a minimum-weight node" scan; which of several equally light nodes is
  taken is left to the scan (the first one in queue order).
 */
module TreeBuilder {
  import opened Base
  import opened HuffmanTree
  import opened Frequency

  /** The sum of the weights of the queued trees. */
  function SumFreqs(q: seq<Tree>): nat {
    if q == [] then 0 else q[0].freq + SumFreqs(q[1..])
  }

  /** All leaf symbols of all queued trees. */
  function AllSyms(q: seq<Tree>): multiset<Symbol> {
    if q == [] then multiset{} else Syms(q[0]) + AllSyms(q[1..])
  }

  /** Each queued tree is a well-formed piece of the final tree for table. */
  ghost predicate Fragments(q: seq<Tree>, table: FrequencyTable) {
    forall i :: 0 <= i < |q| ==> WellWeighted(q[i]) && LeavesFrom(q[i], table)
  }

  lemma {:induction false} QueueConcat(a: seq<Tree>, b: seq<Tree>)
    ensures SumFreqs(a + b) == SumFreqs(a) + SumFreqs(b)
    ensures AllSyms(a + b) == AllSyms(a) + AllSyms(b)
  {
    if a != [] {
      assert (a + b)[1..] == a[1..] + b;
      QueueConcat(a[1..], b);
    } else {
      assert a + b == b;
    }
  }

  /** Taking the i-th tree out of the queue removes exactly its weight and its leaves. */
  lemma RemoveAt(q: seq<Tree>, i: nat)
    requires i < |q|
    ensures SumFreqs(q) == SumFreqs(q[..i] + q[i + 1..]) + q[i].freq
    ensures AllSyms(q) == AllSyms(q[..i] + q[i + 1..]) + Syms(q[i])
  {
    var before, x, after := q[..i], q[i], q[i + 1..];
    assert q == before + ([x] + after);
    QueueConcat([x], after);
    QueueConcat(before, [x] + after);
    QueueConcat(before, after);
    assert [x][1..] == [];
  }

  lemma {:induction false} SymsNonEmpty(t: Tree)
    ensures |Syms(t)| >= 1
    ensures t.Node? ==> |Syms(t)| >= 2
  {
    match t
    case Leaf(_, _) =>
    case Node(_, l, r) =>
      SymsNonEmpty(l);
      SymsNonEmpty(r);
  }

  /**
    heappop's choice: an index of a queued tree of least weight (huffman.py:35-36,
    with the ordering of HuffmanNode.__lt__ at huffman.py:18-19).
   */
  method MinIndex(q: seq<Tree>) returns (m: nat)
    requires q != []
    ensures m < |q|
    ensures forall j :: 0 <= j < |q| ==> q[m].freq <= q[j].freq
    ensures forall t :: t in q ==> q[m].freq <= t.freq
  {
    m := 0;
    var j := 1;
    while j < |q|
      invariant 1 <= j <= |q| && m < j
      invariant forall k :: 0 <= k < j ==> q[m].freq <= q[k].freq
    {
      if q[j].freq < q[m].freq {
        m := j;
      }
      j := j + 1;
    }
  }

  /** What the queue keeps while trees are merged: the leaves and the total weight. */
  ghost predicate QueueInv(q: seq<Tree>, table: FrequencyTable) {
    && Fragments(q, table)
    && AllSyms(q) == multiset(table.Keys)
    && SumFreqs(q) == SumValues(table)
  }

  /** The queue without its i-th tree (heappop). */
  function Without(q: seq<Tree>, i: nat): (q': seq<Tree>)
    requires i < |q|
    ensures |q'| == |q| - 1
    ensures multiset(q') + multiset{q[i]} == multiset(q)
    ensures forall t :: t in q' ==> t in q
  {
    assert q == q[..i] + [q[i]] + q[i + 1..];
    q[..i] + q[i + 1..]
  }

  lemma FragmentsWithout(q: seq<Tree>, i: nat, table: FrequencyTable)
    requires i < |q| && Fragments(q, table)
    ensures Fragments(Without(q, i), table)
  {
  }

  /** Every queued tree is a bare leaf carrying its symbol's count. */
  predicate LeafQueue(q: seq<Tree>, table: FrequencyTable) {
    forall i :: 0 <= i < |q| ==> q[i].Leaf? && q[i].sym in table && q[i].freq == table[q[i].sym]
  }

  /** Adding a leaf for key c of the remaining table keeps the accounting of InitialQueue. */
  lemma AddLeafStep(q: seq<Tree>, rest: FrequencyTable, table: FrequencyTable, c: Symbol)
    requires c in rest && c in table && rest[c] == table[c]
    requires Fragments(q, table) && LeafQueue(q, table)
    requires AllSyms(q) + multiset(rest.Keys) == multiset(table.Keys)
    requires SumFreqs(q) + SumValues(rest) == SumValues(table)
    ensures Fragments(q + [Leaf(c, rest[c])], table) && LeafQueue(q + [Leaf(c, rest[c])], table)
    ensures AllSyms(q + [Leaf(c, rest[c])]) + multiset((rest - {c}).Keys) == multiset(table.Keys)
    ensures SumFreqs(q + [Leaf(c, rest[c])]) + SumValues(rest - {c}) == SumValues(table)
  {
    var leaf := Leaf(c, rest[c]);
    SumValuesRemove(rest, c);
    QueueConcat(q, [leaf]);
    assert AllSyms([leaf]) == multiset{c};
    assert SumFreqs([leaf]) == rest[c];
    assert (rest - {c}).Keys == rest.Keys - {c};
    assert multiset(rest.Keys) == multiset(rest.Keys - {c}) + multiset{c};
    var q' := q + [leaf];
    forall k | 0 <= k < |q'| ensures WellWeighted(q'[k]) && LeavesFrom(q'[k], table) {
      if k < |q| { assert q'[k] == q[k]; }
    }
  }

  /**
    The initial queue of huffman.py:31: one leaf per table entry, carrying that
    entry's count, in the (unspecified) iteration order of the table.
   */
  method InitialQueue(table: FrequencyTable) returns (q: seq<Tree>)
    ensures |q| == |table|
    ensures LeafQueue(q, table)
    ensures QueueInv(q, table)
  {
    q := [];
    var rest := table;
    while rest != map[]
      invariant forall k :: k in rest ==> k in table && rest[k] == table[k]
      invariant |q| + |rest| == |table|
      invariant LeafQueue(q, table)
      invariant Fragments(q, table)
      invariant AllSyms(q) + multiset(rest.Keys) == multiset(table.Keys)
      invariant SumFreqs(q) + SumValues(rest) == SumValues(table)
      decreases |rest|
    {
      var c :| c in rest;
      AddLeafStep(q, rest, table, c);
      assert (rest - {c}).Keys == rest.Keys - {c};
      q := q + [Leaf(c, rest[c])];
      rest := rest - {c};
    }
    assert rest == map[];
  }

  /** Pushing a tree onto the queue adds its weight and its leaves. */
  lemma Push(q: seq<Tree>, t: Tree, table: FrequencyTable)
    requires Fragments(q, table) && WellWeighted(t) && LeavesFrom(t, table)
    ensures Fragments(q + [t], table)
    ensures SumFreqs(q + [t]) == SumFreqs(q) + t.freq
    ensures AllSyms(q + [t]) == AllSyms(q) + Syms(t)
  {
    QueueConcat(q, [t]);
    assert AllSyms([t]) == Syms(t);
    assert SumFreqs([t]) == t.freq;
    var q' := q + [t];
    forall k | 0 <= k < |q'| ensures WellWeighted(q'[k]) && LeavesFrom(q'[k], table) {
      if k < |q| { assert q'[k] == q[k]; }
    }
  }

  /** Popping the i-th tree keeps the rest of the queue and removes its weight and leaves. */
  lemma Pop(q: seq<Tree>, i: nat, table: FrequencyTable)
    requires i < |q| && Fragments(q, table)
    ensures Fragments(Without(q, i), table)
    ensures WellWeighted(q[i]) && LeavesFrom(q[i], table)
    ensures SumFreqs(q) == SumFreqs(Without(q, i)) + q[i].freq
    ensures AllSyms(q) == AllSyms(Without(q, i)) + Syms(q[i])
  {
    RemoveAt(q, i);
    FragmentsWithout(q, i, table);
  }

  /**
    Merging two popped trees and pushing the result back keeps the queue's
    leaves and total weight (huffman.py:35-42).
   */
  lemma MergeStep(q: seq<Tree>, i: nat, j: nat, left: Tree, right: Tree, rest: seq<Tree>, table: FrequencyTable)
    requires i < |q| && j < |q| - 1
    requires left == q[i] && right == Without(q, i)[j] && rest == Without(Without(q, i), j)
    requires QueueInv(q, table)
    ensures QueueInv(rest + [Node(left.freq + right.freq, left, right)], table)
  {
    var q1 := Without(q, i);
    Pop(q, i, table);
    Pop(q1, j, table);
    Push(rest, Node(left.freq + right.freq, left, right), table);
    MergeAccounting(AllSyms(q), AllSyms(q1), AllSyms(rest), Syms(left), Syms(right));
  }

  lemma MergeAccounting(all: multiset<Symbol>, all1: multiset<Symbol>, all2: multiset<Symbol>,
                        a: multiset<Symbol>, b: multiset<Symbol>)
    requires all == all1 + a && all1 == all2 + b
    ensures all2 + (a + b) == all
  {
  }

  /**
    Builds the Huffman tree of huffman.py:30-44. An empty table leaves the
    queue empty and fails where the source indexes priority_queue[0]. Otherwise
    the root is well weighted, its leaves are exactly the table's symbols, each
    once and with its own count, and its weight is the sum of all counts.
   */
  method BuildTree(table: FrequencyTable) returns (r: Result<Tree>)
    ensures r.Failure? <==> table == map[]
    ensures r.Failure? ==> r.error == EmptyQueue
    ensures r.Success? ==> WellWeighted(r.value) && LeavesFrom(r.value, table)
    ensures r.Success? ==> Syms(r.value) == multiset(table.Keys)
    ensures r.Success? ==> r.value.freq == SumValues(table)
  {
    var q := InitialQueue(table);
    while |q| > 1
      invariant QueueInv(q, table)
      decreases |q|
    {
      ghost var i, j;
      var left, right, rest;
      left, right, rest, i, j := PopTwoLightest(q);
      MergeStep(q, i, j, left, right, rest, table);
      q := rest + [Node(left.freq + right.freq, left, right)];
    }
    LastTree(q, table);
    if |q| == 0 {
      return Failure(EmptyQueue);
    }
    r := Success(q[0]);
  }

  /**
    One round of the loop of huffman.py:35-36: pop the lightest tree, then the
    lightest of the rest (ghost i and j are their positions).
   */
  method PopTwoLightest(q: seq<Tree>) returns (left: Tree, right: Tree, rest: seq<Tree>, ghost i: nat, ghost j: nat)
    requires |q| > 1
    ensures i < |q| && j < |q| - 1
    ensures left == q[i] && right == Without(q, i)[j] && rest == Without(Without(q, i), j)
    ensures |rest| == |q| - 2
    ensures multiset(rest) + multiset{left, right} == multiset(q)
    ensures left.freq <= right.freq
    ensures forall t :: t in rest ==> right.freq <= t.freq
  {
    var m := MinIndex(q);
    left := q[m];
    var q1 := Without(q, m);
    var n := MinIndex(q1);
    right := q1[n];
    rest := Without(q1, n);
    i, j := m, n;
    assert left.freq <= right.freq by {
      assert right in q1;
    }
    assert multiset{left, right} == multiset{right} + multiset{left};
  }

  /** When at most one tree is left, the queue is empty exactly when the table is. */
  lemma LastTree(q: seq<Tree>, table: FrequencyTable)
    requires |q| <= 1 && QueueInv(q, table)
    ensures |q| == 0 <==> table == map[]
    ensures |q| == 1 ==> WellWeighted(q[0]) && LeavesFrom(q[0], table)
    ensures |q| == 1 ==> Syms(q[0]) == multiset(table.Keys) && q[0].freq == SumValues(table)
  {
    if |q| == 0 {
      assert table.Keys == {};
    } else {
      assert q == [q[0]];
      assert AllSyms(q) == Syms(q[0]) + AllSyms([]);
      assert SumFreqs(q) == q[0].freq + SumFreqs([]);
      SymsNonEmpty(q[0]);
      assert table != map[] by {
        assert |multiset(table.Keys)| >= 1;
      }
    }
  }

  /** Each table key labels exactly one leaf of the built tree. */
  lemma KeysAreDistinct(t: Tree, table: FrequencyTable)
    requires Syms(t) == multiset(table.Keys)
    ensures Distinct(t)
    ensures forall c :: c in Syms(t) <==> c in table
  {
  }

  /** The root is a merged node exactly when the table has two or more symbols. */
  lemma RootIsNodeIffTwoSymbols(t: Tree, table: FrequencyTable)
    requires Syms(t) == multiset(table.Keys)
    ensures t.Node? <==> |table| >= 2
  {
    SymsNonEmpty(t);
    assert |multiset(table.Keys)| == |table.Keys| == |table|;
  }
}
