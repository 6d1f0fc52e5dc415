/**
  The `queue_items` table as the handlers query it: a row scan in table
  order, `WHERE` as a filter over the scan, `ORDER BY` as a sort on a rank,
  and the statements a request issues, any of which may fail.
*/
module QueueTable {
  import opened Wrappers
  import opened Models
  import opened Seqs

  /**
    `scan` lists every row id of the table once, in the order a query
    without `ORDER BY` returns the rows.
  */
  ghost predicate IsScan(store: Store, scan: seq<string>) {
    Distinct(scan) && forall k :: k in scan <==> k in store
  }

  /** The rows with the given ids, in order; an id with no row contributes nothing (an inner join). */
  function RowsOf(store: Store, ids: seq<string>): seq<Item> {
    if |ids| == 0 then [] else (if ids[0] in store then [store[ids[0]]] else []) + RowsOf(store, ids[1..])
  }

  /** When every id has a row, the join has one row per id, in the same order. */
  lemma {:induction false} RowsOfInStore(store: Store, ids: seq<string>)
    requires forall k :: k in ids ==> k in store
    ensures |RowsOf(store, ids)| == |ids|
    ensures forall i :: 0 <= i < |ids| ==> RowsOf(store, ids)[i] == store[ids[i]]
  {
    if |ids| > 0 {
      assert ids[0] in ids;
      RowsOfInStore(store, ids[1..]);
      var r := RowsOf(store, ids);
      assert r == [store[ids[0]]] + RowsOf(store, ids[1..]);
      forall i | 0 < i < |ids|
        ensures r[i] == store[ids[i]]
      {
        assert ids[1..][i - 1] == ids[i];
      }
    }
  }

  /** Joining a concatenation is concatenating the joins. */
  lemma {:induction false} RowsOfAppend(store: Store, a: seq<string>, b: seq<string>)
    ensures RowsOf(store, a) + RowsOf(store, b) == RowsOf(store, a + b)
  {
    if |a| == 0 {
      assert a + b == b;
    } else {
      assert (a + b)[0] == a[0];
      assert (a + b)[1..] == a[1..] + b;
      RowsOfAppend(store, a[1..], b);
    }
  }

  /** The `WHERE` test on an id. */
  function Where(store: Store, p: Item -> bool): string -> bool {
    k => k in store && p(store[k])
  }

  /** `SELECT id … WHERE p`: the ids of the rows satisfying `p`, in scan order. */
  function Select(store: Store, scan: seq<string>, p: Item -> bool): (r: seq<string>)
    ensures forall k :: k in r <==> k in scan && k in store && p(store[k])
    ensures IsScan(store, scan) ==> Distinct(r)
  {
    var r := Filter(scan, Where(store, p));
    assert IsScan(store, scan) ==> Distinct(r) by {
      if IsScan(store, scan) {
        FilterDistinct(scan, Where(store, p));
      }
    }
    r
  }

  /** `ORDER BY` on a rank computed from the row. */
  function OrderBy(store: Store, ids: seq<string>, key: Item -> Rank): (r: seq<string>)
    ensures multiset(r) == multiset(ids)
    ensures forall i, j :: 0 <= i < j < |r| && r[i] in store && r[j] in store ==>
      RankLe(key(store[r[i]]), key(store[r[j]]))
  {
    SortBy(ids, k => if k in store then key(store[k]) else Rank(0, 0))
  }

  /** The number of rows of the table satisfying `p`. */
  function CountWhere(store: Store, p: Item -> bool): nat {
    |set k | k in store && p(store[k])|
  }

  /** On a proper scan, a selection has one id per matching row. */
  lemma SelectCount(store: Store, scan: seq<string>, p: Item -> bool)
    requires IsScan(store, scan)
    ensures |Select(store, scan, p)| == CountWhere(store, p)
  {
    var q := Where(store, p);
    FilterCount(scan, q);
    assert Select(store, scan, p) == Filter(scan, q);
    forall x
      ensures (x in scan && q(x)) <==> (x in store && p(store[x]))
    {
      assert q(x) == (x in store && p(store[x]));
    }
    var a := Passing(scan, q);
    var b := set k | k in store && p(store[k]);
    assert a == b;
    assert |Filter(scan, q)| == |a|;
    assert CountWhere(store, p) == |b|;
  }

  /** The statement of a request that fails, counted from 0, with the driver's message. */
  datatype Fault = Fault(step: nat, detail: string)

  predicate FailsAt(f: Option<Fault>, step: nat) {
    f.Some? && f.value.step == step
  }
}
