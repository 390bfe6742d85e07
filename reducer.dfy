/** The result reducer of the `pure` and `tokio` variants: a task that receives
    each worker's table and folds it, entry by entry, into the global table. */
module Reducer {
  import opened Stats
  import opened Records

  /** The global table the reducer task owns. */
  class Results {
    var results: Table

    constructor ()
      ensures results == map[]
    {
      results := map[];
    }

    /** One received table: every incoming entry is merged into the global
        entry of its key, created as the identity entry when the key is new. */
    method Receive(newResults: Table)
      modifies this
      ensures results == MergeTables(old(results), newResults)
    {
      ghost var g := results;
      var remaining := newResults.Keys;
      ghost var done: set<Key> := {};
      while remaining != {}
        invariant remaining + done == newResults.Keys && remaining !! done
        invariant results.Keys == g.Keys + done
        invariant forall k :: k in done ==> results[k] == Merge(Lookup(g, k), newResults[k])
        invariant forall k :: k in g && k !in done ==> results[k] == g[k]
        decreases remaining
      {
        var key :| key in remaining;
        var entry := Lookup(results, key);
        assert entry == Lookup(g, key);
        results := results[key := Merge(entry, newResults[key])];
        remaining := remaining - {key};
        done := done + {key};
      }
      assert results == MergeTables(g, newResults);
    }
  }

  /** The global table after receiving `ts` in order. */
  function ReduceAll(g: Table, ts: seq<Table>): Table
  {
    if |ts| == 0 then g else MergeTables(ReduceAll(g, ts[..|ts| - 1]), ts[|ts| - 1])
  }

  /** All parsed records of several chunks, in order. */
  function Concat(pss: seq<seq<(Key, Value)>>): seq<(Key, Value)>
  {
    if |pss| == 0 then [] else Concat(pss[..|pss| - 1]) + pss[|pss| - 1]
  }

  /** The tables of the chunks, one per chunk. */
  function Tables(pss: seq<seq<(Key, Value)>>): (ts: seq<Table>)
    ensures |ts| == |pss|
  {
    if |pss| == 0 then [] else Tables(pss[..|pss| - 1]) + [Tabulate(pss[|pss| - 1])]
  }

  /** Reducing the workers' tables from an empty global table gives the table
      of all their records taken together, however the parsed records are
      grouped into tables. */
  lemma {:induction false} ReduceTabulated(pss: seq<seq<(Key, Value)>>)
    ensures ReduceAll(map[], Tables(pss)) == Tabulate(Concat(pss))
  {
    if |pss| > 0 {
      var init := pss[..|pss| - 1];
      var ts := Tables(pss);
      assert ts[..|ts| - 1] == Tables(init);
      ReduceTabulated(init);
      MergeTabulated(Concat(init), pss[|pss| - 1]);
    }
  }

  /** The order in which two tables arrive does not matter. */
  lemma ReceiveOrderFree(g: Table, a: Table, b: Table)
    ensures MergeTables(MergeTables(g, a), b) == MergeTables(MergeTables(g, b), a)
  {
    var l, r := MergeTables(MergeTables(g, a), b), MergeTables(MergeTables(g, b), a);
    forall k | k in l ensures l[k] == r[k] {
      if k in a && k in b {
        MergeAssociates(Lookup(g, k), a[k], b[k]);
        MergeAssociates(Lookup(g, k), b[k], a[k]);
        MergeCommutes(a[k], b[k]);
      }
    }
  }
}
