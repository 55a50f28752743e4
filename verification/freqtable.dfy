/** The frequency table the motif census accumulates into (`barry::FreqTable`,
    used by `DEFM::motif_census`, defm-meat.hpp lines 336-355): one entry per
    distinct tuple, in the order tuples are first added, each with the number
    of times it was added. */
module FreqTable {
  import Flat

  datatype Entry = Entry(tuple: seq<int>, count: nat)

  /** The tuples of the entries, in table order. */
  function Keys(table: seq<Entry>): (ks: seq<seq<int>>)
    ensures |ks| == |table|
    ensures forall a :: 0 <= a < |table| ==> ks[a] == table[a].tuple
  {
    seq(|table|, a requires 0 <= a < |table| => table[a].tuple)
  }

  /** No tuple has two entries. */
  ghost predicate DistinctKeys(table: seq<Entry>) {
    forall a, b :: 0 <= a < |table| && 0 <= b < |table| && table[a].tuple == table[b].tuple ==> a == b
  }

  /** Position of the entry for `t`, or `|table|` when there is none. */
  function Find(table: seq<Entry>, t: seq<int>): (k: nat)
    ensures k <= |table|
    ensures k < |table| ==> table[k].tuple == t
    ensures forall a :: 0 <= a < k ==> table[a].tuple != t
    ensures k == |table| ==> t !in Keys(table)
    decreases |table|
  {
    if |table| == 0 then 0
    else if table[0].tuple == t then 0
    else
      var k := Find(table[1..], t);
      assert Keys(table) == [table[0].tuple] + Keys(table[1..]);
      k + 1
  }

  /** `add`: count one more occurrence of `t`, opening a new entry at the end
      when `t` has none yet. */
  function Add(table: seq<Entry>, t: seq<int>): seq<Entry> {
    var k := Find(table, t);
    if k < |table| then table[k := Entry(t, table[k].count + 1)]
    else table + [Entry(t, 1)]
  }

  /** The table after adding `ts` one by one, first tuple first. */
  function Tabulate(ts: seq<seq<int>>): seq<Entry>
    decreases |ts|
  {
    if |ts| == 0 then [] else Add(Tabulate(ts[..|ts| - 1]), ts[|ts| - 1])
  }

  /** Sum of the counts. */
  function Total(table: seq<Entry>): nat
    decreases |table|
  {
    if |table| == 0 then 0 else Total(table[..|table| - 1]) + table[|table| - 1].count
  }

  /** The table is an exact tally of `ts`: one entry per distinct tuple, every
      tuple of `ts` has an entry, and each count is the tuple's multiplicity. */
  ghost predicate Tallies(table: seq<Entry>, ts: seq<seq<int>>) {
    && DistinctKeys(table)
    && (forall t :: t in Keys(table) <==> t in ts)
    && (forall a :: 0 <= a < |table| ==> table[a].count == multiset(ts)[table[a].tuple])
  }

  /** The tally is exact, and the counts add up to the number of tuples. */
  lemma {:induction false} TabulateTallies(ts: seq<seq<int>>)
    ensures Tallies(Tabulate(ts), ts)
    ensures Total(Tabulate(ts)) == |ts|
    decreases |ts|
  {
    if |ts| > 0 {
      var pre, t := ts[..|ts| - 1], ts[|ts| - 1];
      assert ts == pre + [t];
      TabulateTallies(pre);
      AddTallies(Tabulate(pre), pre, t);
    }
  }

  /** Adding `t` to a tally of `pre` gives a tally of `pre + [t]` one larger. */
  lemma AddTallies(table: seq<Entry>, pre: seq<seq<int>>, t: seq<int>)
    requires Tallies(table, pre) && Total(table) == |pre|
    ensures Tallies(Add(table, t), pre + [t])
    ensures Total(Add(table, t)) == |pre| + 1
  {
    if Find(table, t) < |table| {
      AddExisting(table, pre, t);
    } else {
      AddNew(table, pre, t);
    }
  }

  /** A tuple already in the table: its count goes up by one. */
  lemma AddExisting(table: seq<Entry>, pre: seq<seq<int>>, t: seq<int>)
    requires Tallies(table, pre) && Total(table) == |pre|
    requires Find(table, t) < |table|
    ensures Tallies(Add(table, t), pre + [t])
    ensures Total(Add(table, t)) == |pre| + 1
  {
    var k := Find(table, t);
    var e := Entry(t, table[k].count + 1);
    assert Add(table, t) == table[k := e];
    TotalUpdate(table, k, e);
    UpdateKeepsKeys(table, k, e);
    assert t in pre by { assert Keys(table)[k] == t; }
    ExistingCounts(table, pre, t, k);
  }

  /** Replacing an entry by one with the same tuple keeps the keys. */
  lemma UpdateKeepsKeys(table: seq<Entry>, k: nat, e: Entry)
    requires DistinctKeys(table) && k < |table| && e.tuple == table[k].tuple
    ensures Keys(table[k := e]) == Keys(table)
    ensures DistinctKeys(table[k := e])
  {
    var table' := table[k := e];
    forall a, b | 0 <= a < |table'| && 0 <= b < |table'| && table'[a].tuple == table'[b].tuple
      ensures a == b
    {
      assert table[a].tuple == table'[a].tuple && table[b].tuple == table'[b].tuple;
    }
  }

  /** The counts after adding `t` at its entry `k`. */
  lemma ExistingCounts(table: seq<Entry>, pre: seq<seq<int>>, t: seq<int>, k: nat)
    requires Tallies(table, pre) && k < |table| && table[k].tuple == t
    ensures forall a :: 0 <= a < |table| ==>
      table[k := Entry(t, table[k].count + 1)][a].count == multiset(pre + [t])[table[a].tuple]
  {
    assert multiset(pre + [t]) == multiset(pre) + multiset{t};
    forall a | 0 <= a < |table|
      ensures table[k := Entry(t, table[k].count + 1)][a].count == multiset(pre + [t])[table[a].tuple]
    {
      if a != k {
        assert table[a].tuple != t;
      }
    }
  }

  /** A tuple not yet in the table: a new entry with count 1 at the end. */
  lemma AddNew(table: seq<Entry>, pre: seq<seq<int>>, t: seq<int>)
    requires Tallies(table, pre) && Total(table) == |pre|
    requires Find(table, t) == |table|
    ensures Tallies(Add(table, t), pre + [t])
    ensures Total(Add(table, t)) == |pre| + 1
  {
    var ts := pre + [t];
    assert multiset(ts) == multiset(pre) + multiset{t};
    var table' := table + [Entry(t, 1)];
    assert Add(table, t) == table';
    assert t !in pre;
    assert table'[..|table'| - 1] == table;
    assert Keys(table') == Keys(table) + [t];
    forall a | 0 <= a < |table'|
      ensures table'[a].count == multiset(ts)[table'[a].tuple]
    {
      if a < |table| {
        assert table[a].tuple in Keys(table);
        assert table[a].tuple != t;
      }
    }
  }

  /** A tally of tuples of one width has keys of that width. */
  lemma TalliedWidth(table: seq<Entry>, ts: seq<seq<int>>, width: nat)
    requires Tallies(table, ts)
    requires forall w :: 0 <= w < |ts| ==> |ts[w]| == width
    ensures forall a :: 0 <= a < |table| ==> |table[a].tuple| == width
  {
    forall a | 0 <= a < |table|
      ensures |table[a].tuple| == width
    {
      assert table[a].tuple in Keys(table);
      assert table[a].tuple in ts;
    }
  }

  /** Replacing entry `k` changes the total by the difference of the counts. */
  lemma {:induction false} TotalUpdate(table: seq<Entry>, k: nat, e: Entry)
    requires k < |table|
    ensures Total(table[k := e]) == Total(table) - table[k].count + e.count
    decreases |table|
  {
    var n := |table|;
    var t' := table[k := e];
    if k < n - 1 {
      assert t'[..n - 1] == table[..n - 1][k := e];
      TotalUpdate(table[..n - 1], k, e);
    } else {
      assert t'[..n - 1] == table[..n - 1];
    }
  }

  /** `get_data`: the entries one after the other, each as its count followed
      by its tuple. */
  function Data(table: seq<Entry>): seq<int> {
    Flat.Flatten(Rows(table))
  }

  /** Entry `a` as the row `[count] + tuple`. */
  function Rows(table: seq<Entry>): (rows: seq<seq<int>>)
    ensures |rows| == |table|
  {
    seq(|table|, a requires 0 <= a < |table| => [table[a].count as int] + table[a].tuple)
  }
}
