/**
  Frequency counting (huffman.py:21-28): one pass over the text, updating a
  dictionary from symbol to occurrence count in place.
 */
module Frequency {
  import opened Base

  type FrequencyTable = map<Symbol, nat>

  /** The number of occurrences of c in data. */
  function Count(data: seq<Symbol>, c: Symbol): nat {
    multiset(data)[c]
  }

  /** The table that counting data should produce. */
  ghost function Histogram(data: seq<Symbol>): FrequencyTable {
    map c | c in data :: Count(data, c)
  }

  /** A table with the keys and counts of data is the histogram of data. */
  lemma HistogramExt(table: FrequencyTable, data: seq<Symbol>)
    requires forall c :: c in table <==> c in data
    requires forall c :: c in table ==> table[c] == Count(data, c)
    ensures table == Histogram(data)
  {
  }

  /** The sum of all counts of a table. */
  ghost function SumValues(m: FrequencyTable): nat
    decreases |m|
  {
    if m == map[] then 0
    else
      var k :| k in m;
      m[k] + SumValues(m - {k})
  }

  /** The sum can be split at any key, not just the one SumValues happens to pick. */
  lemma {:induction false} SumValuesRemove(m: FrequencyTable, k: Symbol)
    requires k in m
    ensures SumValues(m) == m[k] + SumValues(m - {k})
    decreases |m|
  {
    var j :| j in m && SumValues(m) == m[j] + SumValues(m - {j});
    if j != k {
      assert k in m - {j};
      assert j in m - {k};
      SumValuesRemove(m - {j}, k);
      SumValuesRemove(m - {k}, j);
      assert (m - {j}) - {k} == (m - {k}) - {j};
    }
  }

  /** Setting one key's count changes the sum by the difference. */
  lemma SumValuesUpdate(m: FrequencyTable, k: Symbol, v: nat)
    ensures k in m ==> SumValues(m[k := v]) + m[k] == SumValues(m) + v
    ensures k !in m ==> SumValues(m[k := v]) == SumValues(m) + v
  {
    SumValuesRemove(m[k := v], k);
    assert m[k := v] - {k} == m - {k};
    if k in m {
      SumValuesRemove(m, k);
    } else {
      assert m - {k} == m;
    }
  }

  /** The table holds the count of every symbol of text, and nothing else. */
  ghost predicate Tallies(table: FrequencyTable, text: seq<Symbol>) {
    && (forall c :: c in table <==> c in text)
    && (forall c :: c in table ==> table[c] == Count(text, c))
    && SumValues(table) == |text|
  }

  /** Counting one more symbol: its entry goes up by one, or is created with count 1. */
  lemma TallyStep(table: FrequencyTable, text: seq<Symbol>, c: Symbol)
    requires Tallies(table, text)
    ensures Tallies(table[c := if c in table then table[c] + 1 else 1], text + [c])
  {
    var next := if c in table then table[c] + 1 else 1;
    SumValuesUpdate(table, c, next);
    assert forall d :: Count(text + [c], d) == Count(text, d) + (if d == c then 1 else 0);
  }

  /**
    Builds the table of huffman.py:21-28: a symbol is a key exactly when it
    occurs in the text, its value is its number of occurrences, and so the
    counts add up to the length of the text.
   */
  method BuildFrequencyTable(data: seq<Symbol>) returns (table: FrequencyTable)
    ensures forall c :: c in table <==> c in data
    ensures forall c :: c in table ==> table[c] == Count(data, c)
    ensures SumValues(table) == |data|
  {
    table := map[];
    var i := 0;
    while i < |data|
      invariant 0 <= i <= |data|
      invariant Tallies(table, data[..i])
    {
      var c := data[i];
      TallyStep(table, data[..i], c);
      assert data[..i + 1] == data[..i] + [c];
      if c in table {
        table := table[c := table[c] + 1];
      } else {
        table := table[c := 1];
      }
      i := i + 1;
    }
    assert data[..i] == data;
  }
}
