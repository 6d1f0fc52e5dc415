/**
  How the handlers, the startup pass, the tick and the worker meet on one
  row: what a user's retry, cancel or scheduled add leads to once the worker
  (or the tick) acts on the row the handler left behind.
*/
module Scenarios {
  import opened Wrappers
  import opened Models
  import opened Seqs
  import opened QueueTable
  import opened QueueRoutes
  import opened Startup
  import opened Worker

  /** Every write before a retry succeeds. */
  function AllWritten(n: nat): RetryWrites {
    RetryWrites(true, true)
  }

  /**
    The worker's view of a table in which every read and the mark succeed,
    the retry ceiling is the default of three, and the writes before each
    retry and the final write go as `wr` and `finishOk` say.
  */
  function Env(store: Store, dl: nat -> DownloadResult, wr: nat -> RetryWrites, recheck: Option<DownloadStatus>, finishOk: bool): WorkerEnv {
    WorkerEnv(store, true, true, map[], true, 3, dl, wr, 0, 1, recheck, finishOk)
  }

  /** The worker's view of a table in which every statement succeeds. */
  function CalmEnv(store: Store, dl: nat -> DownloadResult, recheck: Option<DownloadStatus>): WorkerEnv {
    Env(store, dl, AllWritten, recheck, true)
  }

  /**
    A retry of a finished item changes nothing in the row but still submits
    it, and the worker, which only skips cancelled rows, downloads it again.
  */
  lemma RetryOfDoneItemDownloadsAgain(store: Store, id: string, dl: nat -> DownloadResult)
    requires id in store && store[id].status == Done
    ensures var r := Retry(store, id, None);
      r.store == store && r.submitted == [id]
      && Starts(id, CalmEnv(r.store, dl, None))
      && |Invocations(RunDownload(id, CalmEnv(r.store, dl, None)))| >= 1
  {
    var env := CalmEnv(store, dl, None);
    InvocationCount(id, env);
  }

  /**
    A row that is submitted twice (by the tick and by the startup pass, say)
    is downloaded twice: the second task finds it downloading or done, not
    cancelled, and starts over.
  */
  lemma SecondSubmissionDownloadsAgain(store: Store, id: string, dl: nat -> DownloadResult)
    requires id in store && store[id].status == Queued
    ensures var first := Apply(store, id, RunDownload(id, CalmEnv(store, dl, None)));
      Starts(id, CalmEnv(first, dl, None))
  {
    var env := CalmEnv(store, dl, None);
    FinalRow(id, env);
  }

  /**
    Cancelling a running download: the handler marks the row cancelled and
    keeps it. When the download then succeeds the task sees the cancellation,
    deletes the output file and leaves the row cancelled.
  */
  lemma CancelThenSuccessStaysCancelled(store: Store, id: string, path: string)
    requires id in store && store[id].status == Downloading
    ensures var r := RemoveFromQueue(store, id, None);
      var env := CalmEnv(r.store, _ => Downloaded(path), Some(Cancelled));
      var tail := Finish(id, Downloaded(path), env);
      r.result.Ok? && id in r.store && r.store[id].status == Cancelled
      && ApplyAll(r.store[id], tail) == r.store[id]
      && (RemoveFile(path) in tail <==> path != "")
  {
    var r := RemoveFromQueue(store, id, None);
    var env := CalmEnv(r.store, _ => Downloaded(path), Some(Cancelled));
    FinishRow(r.store[id], id, Downloaded(path), env);
  }

  /**
    The failure path has no re-check: a download cancelled while it runs
    and then failing ends with the row marked failed, not cancelled.
  */
  lemma CancelThenFailureBecomesFailed(store: Store, id: string, message: string)
    requires id in store && store[id].status == Downloading
    ensures var r := RemoveFromQueue(store, id, None);
      var env := CalmEnv(r.store, _ => DownloadError(message), Some(Cancelled));
      r.store[id].status == Cancelled
      && ApplyAll(r.store[id], Finish(id, DownloadError(message), env)).status == Failed
  {
    var r := RemoveFromQueue(store, id, None);
    var env := CalmEnv(r.store, _ => DownloadError(message), Some(Cancelled));
    FinishRow(r.store[id], id, DownloadError(message), env);
  }

  /** Removing a running item keeps its row (cancelled); removing it again deletes it. */
  lemma RemoveTwiceDeletes(store: Store, id: string)
    requires id in store && store[id].status == Downloading
    ensures var r1 := RemoveFromQueue(store, id, None);
      var r2 := RemoveFromQueue(r1.store, id, None);
      id in r1.store && r2.result.Ok? && id !in r2.store
  {
  }

  /**
    A scheduled add is not submitted by the handler; the first tick at or
    after its time submits it.
  */
  lemma ScheduledAddIsPickedUpByTick(store: Store, scan: seq<string>, req: AddQueueItemRequest, u: string, id: string, added: int, now: int)
    requires IsScan(store, scan)
    requires req.scheduledAt.Some? && req.scheduledAt.value <= now
    requires AddToQueue(store, req, u, id, added, None).result.Ok?
    ensures var r := AddToQueue(store, req, u, id, added, None);
      r.submitted == []
      && IsScan(r.store, scan + [id])
      && id in EnqueueScheduled(r.store, scan + [id], now, true)
  {
    var r := AddToQueue(store, req, u, id, added, None);
    assert id !in scan;
    assert IsScan(r.store, scan + [id]);
    assert (scan + [id])[|scan|] == id;
  }
  /** A downloader that fails on its first two calls and then succeeds. */
  function FailsTwice(k: nat): DownloadResult {
    if k < 2 then DownloadError("timeout") else Downloaded("/downloads/a.mp4")
  }

  /**
    With the default ceiling of three retries and a downloader that fails
    twice: three calls, sleeps of 2 and 4 seconds, and subscribers see four
    status changes (downloading three times, then done) with the two retry
    errors between them, whichever writes succeed. The row ends done with no
    error when the done write succeeds; when it fails the row stays marked
    downloading although "done" was announced.
  */
  lemma FailTwiceThenSucceed(store: Store, id: string, wr: nat -> RetryWrites, finishOk: bool)
    requires id in store && store[id].status == Queued
    ensures var tr := RunDownload(id, Env(store, FailsTwice, wr, None, finishOk));
      var row := Apply(store, id, tr)[id];
      Invocations(tr) == [0, 1, 2] && Sleeps(tr) == [2, 4]
      && Published(tr) == [StatusChange(id, Downloading),
                           Event.Error(id, RetryMessage(1, 3, "timeout")), StatusChange(id, Downloading),
                           Event.Error(id, RetryMessage(2, 3, "timeout")), StatusChange(id, Downloading),
                           StatusChange(id, Done)]
      && (finishOk ==> row.status == Done && row.error == None)
      && (!finishOk ==> row.status == Downloading)
  {
    var env := Env(store, FailsTwice, wr, None, finishOk);
    assert Ceiling(env) == 3;
    var l2 := RetryLoop(id, 2, 3, FailsTwice, wr);
    var l1 := RetryLoop(id, 1, 3, FailsTwice, wr);
    var l0 := RetryLoop(id, 0, 3, FailsTwice, wr);
    var s1 := RetrySteps(id, 1, 3, "timeout", wr(1));
    var s2 := RetrySteps(id, 2, 3, "timeout", wr(2));
    assert l2 == LoopResult([Invoke(2)], Downloaded("/downloads/a.mp4"));
    assert l1 == LoopResult([Invoke(1)] + s2 + l2.trace, l2.final);
    assert l0 == LoopResult([Invoke(0)] + s1 + l1.trace, l1.final);
    Decompose(id, env);
    LoopCalls(id, 0, 3, FailsTwice, wr);
    BackoffDelayValues(1);
    BackoffDelayValues(2);
    RetryStepsProjections(id, 1, 3, "timeout", wr(1));
    RetryStepsProjections(id, 2, 3, "timeout", wr(2));
    Cons(Invoke(0), s1);
    Cons(Invoke(1), s2);
    Cons(Invoke(2), []);
    PublishedAppend([Invoke(0)] + s1, l1.trace);
    PublishedAppend([Invoke(1)] + s2, l2.trace);
    FinalRow(id, env);
  }
}
