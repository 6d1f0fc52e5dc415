/**
  The two places that feed the worker pool without a request: the startup
  pass that resets interrupted downloads and resubmits pending items, and the
  once-a-minute tick that submits scheduled items whose time has come.
  Timestamps are compared as numbers.
*/
module Startup {
  import opened Wrappers
  import opened Models
  import opened Seqs
  import opened QueueTable

  /** `status = 'downloading'`. */
  function Interrupted(): Item -> bool {
    (it: Item) => it.status == Downloading
  }

  /** Queued and either unscheduled or due. */
  function Resumable(now: int): Item -> bool {
    (it: Item) => it.status == Queued && (it.scheduledAt.None? || it.scheduledAt.value <= now)
  }

  /** Queued, scheduled, and due. */
  function Due(now: int): Item -> bool {
    (it: Item) => it.status == Queued && it.scheduledAt.Some? && it.scheduledAt.value <= now
  }

  /** `ORDER BY added_at ASC`. */
  function AddedRank(it: Item): Rank {
    Rank(it.addedAt, 0)
  }

  /** The columns the startup reset writes. */
  function ResetRow(it: Item): Item {
    it.(status := Queued, startedAt := None, progress := 0.0)
  }

  /**
    One reset per id, in order; `resetOk(id)` says whether that update
    succeeded. A failed update is skipped.
  */
  function ResetEach(store: Store, ids: seq<string>, resetOk: string -> bool): (r: Store)
    ensures r.Keys == store.Keys
    ensures forall k :: k in store ==>
      r[k] == if k in ids && resetOk(k) then ResetRow(store[k]) else store[k]
  {
    if |ids| == 0 then store
    else
      var id := ids[0];
      var head := if resetOk(id) && id in store then store[id := ResetRow(store[id])] else store;
      var r := ResetEach(head, ids[1..], resetOk);
      assert forall k :: k in store ==>
        r[k] == if k in ids && resetOk(k) then ResetRow(store[k]) else store[k] by {
        forall k | k in store
          ensures r[k] == if k in ids && resetOk(k) then ResetRow(store[k]) else store[k]
        {
          assert k in ids <==> k == id || k in ids[1..];
        }
      }
      r
  }

  /** The `StatusChange … queued` announcements, one per successful reset, in order. */
  function Announce(ids: seq<string>): (r: seq<Event>)
    ensures |r| == |ids|
    ensures forall i :: 0 <= i < |ids| ==> r[i] == StatusChange(ids[i], Queued)
  {
    seq(|ids|, i requires 0 <= i < |ids| => StatusChange(ids[i], Queued))
  }

  /** The second query: queued rows that are unscheduled or due, oldest first. */
  function ResumeOrder(store: Store, scan: seq<string>, now: int): (ids: seq<string>)
    requires IsScan(store, scan)
    ensures forall k :: k in ids <==> k in store && Resumable(now)(store[k])
    ensures Distinct(ids)
    ensures forall i, j :: 0 <= i < j < |ids| ==> store[ids[i]].addedAt <= store[ids[j]].addedAt
  {
    var sel := Select(store, scan, Resumable(now));
    var ids := OrderBy(store, sel, AddedRank);
    assert forall k :: k in ids <==> k in store && Resumable(now)(store[k]) by {
      PermutationKeepsMembers(sel, ids);
    }
    assert Distinct(ids) by {
      PermutationDistinct(sel, ids);
    }
    forall i, j | 0 <= i < j < |ids|
      ensures store[ids[i]].addedAt <= store[ids[j]].addedAt
    {
      assert ids[i] in ids && ids[j] in ids;
      assert RankLe(AddedRank(store[ids[i]]), AddedRank(store[ids[j]]));
    }
    ids
  }

  /** The first query and its resets: the rows announced are exactly the interrupted ones whose reset succeeded. */
  lemma ResetPass(store: Store, scan: seq<string>, resetOk: string -> bool)
    requires IsScan(store, scan)
    ensures var interrupted := Select(store, scan, Interrupted());
      var events := Announce(Filter(interrupted, resetOk));
      (forall e :: e in events ==> e.StatusChange? && e.status == Queued)
      && (forall k :: StatusChange(k, Queued) in events <==> k in store && store[k].status == Downloading && resetOk(k))
      && (forall k :: k in store ==>
           ResetEach(store, interrupted, resetOk)[k]
             == if store[k].status == Downloading && resetOk(k) then ResetRow(store[k]) else store[k])
  {
    var interrupted := Select(store, scan, Interrupted());
    var passed := Filter(interrupted, resetOk);
    var events := Announce(passed);
    forall k
      ensures StatusChange(k, Queued) in events <==> k in passed
    {
      if k in passed {
        var i :| 0 <= i < |passed| && passed[i] == k;
        assert events[i] == StatusChange(k, Queued);
      }
    }
  }

  datatype Resumed = Resumed(store: Store, events: seq<Event>, submitted: seq<string>)

  /**
    `requeue_interrupted`. `firstOk` and `secondOk` say whether the two
    queries succeeded; a failed query ends the pass.
  */
  function RequeueInterrupted(store: Store, scan: seq<string>, now: int, firstOk: bool, resetOk: string -> bool, secondOk: bool): (r: Resumed)
    requires IsScan(store, scan)
    ensures !firstOk ==> r == Resumed(store, [], [])
    ensures r.store.Keys == store.Keys
    ensures firstOk ==> forall k :: k in store ==>
      r.store[k] == if store[k].status == Downloading && resetOk(k) then ResetRow(store[k]) else store[k]
    ensures forall e :: e in r.events ==> e.StatusChange? && e.status == Queued
    ensures forall k :: StatusChange(k, Queued) in r.events <==>
      firstOk && k in store && store[k].status == Downloading && resetOk(k)
    ensures !secondOk ==> r.submitted == []
    ensures firstOk && secondOk ==> forall k :: k in r.submitted <==> k in r.store && Resumable(now)(r.store[k])
    ensures Distinct(r.submitted)
    ensures forall i, j :: 0 <= i < j < |r.submitted| ==> r.store[r.submitted[i]].addedAt <= r.store[r.submitted[j]].addedAt
  {
    if !firstOk then Resumed(store, [], [])
    else
      var interrupted := Select(store, scan, Interrupted());
      var s1 := ResetEach(store, interrupted, resetOk);
      var events := Announce(Filter(interrupted, resetOk));
      ResetPass(store, scan, resetOk);
      assert IsScan(s1, scan);
      Resumed(s1, events, if secondOk then ResumeOrder(s1, scan, now) else [])
  }

  /**
    With every reset succeeding, no row is left downloading and every
    interrupted row that is unscheduled or due is resubmitted.
  */
  lemma RestartLeavesNothingDownloading(store: Store, scan: seq<string>, now: int, resetOk: string -> bool)
    requires IsScan(store, scan)
    requires forall k :: resetOk(k)
    ensures var r := RequeueInterrupted(store, scan, now, true, resetOk, true);
      (forall k :: k in r.store ==> r.store[k].status != Downloading)
      && (forall k :: k in store && store[k].status == Downloading && (store[k].scheduledAt.None? || store[k].scheduledAt.value <= now)
            ==> k in r.submitted)
  {
  }

  /** A row whose reset fails stays `downloading` and is not resubmitted: nothing picks it up again. */
  lemma FailedResetIsStuck(store: Store, scan: seq<string>, now: int, resetOk: string -> bool, k: string)
    requires IsScan(store, scan)
    requires k in store && store[k].status == Downloading && !resetOk(k)
    ensures var r := RequeueInterrupted(store, scan, now, true, resetOk, true);
      r.store[k].status == Downloading && k !in r.submitted
      && k !in EnqueueScheduled(r.store, scan, now, true)
  {
  }

  /** `enqueue_scheduled`: a failed query submits nothing. */
  function EnqueueScheduled(store: Store, scan: seq<string>, now: int, queryOk: bool): (r: seq<string>)
    ensures forall k :: k in r <==> queryOk && k in scan && k in store && Due(now)(store[k])
    ensures IsScan(store, scan) ==> Distinct(r)
  {
    if queryOk then Select(store, scan, Due(now)) else []
  }

  /**
    The tick does not record what it has submitted: a due row that is still
    queued a minute later (waiting for a free worker) is submitted again.
  */
  lemma TickResubmits(store: Store, scan: seq<string>, t1: int, t2: int, k: string)
    requires IsScan(store, scan)
    requires t1 <= t2
    requires k in EnqueueScheduled(store, scan, t1, true)
    ensures k in EnqueueScheduled(store, scan, t2, true)
  {
  }

  /**
    The startup pass also submits due scheduled rows. A tick taken at the
    restart's own time `now` submits exactly the scheduled rows the restart
    submitted, so each of them is submitted a second time. (A tick at a
    later time may also submit rows that have fallen due since.)
  */
  lemma StartupAndTickOverlap(store: Store, scan: seq<string>, now: int, resetOk: string -> bool)
    requires IsScan(store, scan)
    ensures var r := RequeueInterrupted(store, scan, now, true, resetOk, true);
      forall k :: k in EnqueueScheduled(r.store, scan, now, true) ==> k in r.submitted
    ensures var r := RequeueInterrupted(store, scan, now, true, resetOk, true);
      forall k :: k in r.submitted && r.store[k].scheduledAt.Some?
        ==> k in EnqueueScheduled(r.store, scan, now, true)
  {
    var r := RequeueInterrupted(store, scan, now, true, resetOk, true);
    assert IsScan(r.store, scan);
  }

  /** A queued row scheduled after the restart is left to the tick that finds it due. */
  lemma LaterTickSubmitsNewlyDue(store: Store, scan: seq<string>, now: int, resetOk: string -> bool, k: string, t: int)
    requires IsScan(store, scan)
    requires k in store && store[k].status == Queued && store[k].scheduledAt == Some(t) && now < t
    ensures var r := RequeueInterrupted(store, scan, now, true, resetOk, true);
      k !in r.submitted && k in EnqueueScheduled(r.store, scan, t, true)
  {
    var r := RequeueInterrupted(store, scan, now, true, resetOk, true);
    assert r.store[k] == store[k];
    assert !Resumable(now)(r.store[k]) && Due(t)(r.store[k]);
    assert k in scan;
  }
}
