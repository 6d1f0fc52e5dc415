/**
  One download task of the worker pool (`run_download`): fetch the item,
  skip it if it was cancelled, mark it downloading, call the downloader with
  exponential-backoff retries, re-check for a cancellation after success and
  finish as done or failed.

  The task is a pure function from its environment to the trace of effects
  it performs in order: row writes, published events, downloader calls,
  sleeps and file removals. Everything another task could change meanwhile
  (the row as fetched, whether a write succeeds, the status seen at the
  re-check, the outcome of each downloader call) is an input.
*/
module Worker {
  import opened Wrappers
  import opened Text
  import opened Models
  import Settings

  /** The outcome of one downloader call: the output path, or the error's text. */
  datatype DownloadResult = Downloaded(path: string) | DownloadError(message: string)

  /**
    What the task does, in order. Writes are `UPDATE … WHERE id = ?` on the
    task's own row. The task ignores the result of every write but the first;
    `applied` says whether that statement succeeded, and a failed one leaves
    the row as it was.
  */
  datatype Effect =
    | WriteDownloading(startedAt: int)
    | Publish(event: Event)
    | Invoke(attempt: nat)
    | WriteError(message: string, applied: bool)
    | ClearError(applied: bool)
    | Sleep(seconds: nat)
    | WriteDone(completedAt: int, outputPath: Option<string>, applied: bool)
    | WriteFailed(completedAt: int, message: string, applied: bool)
    | RemoveFile(path: string)

  /** The downloader calls of a trace, by attempt number. */
  function Invocations(tr: seq<Effect>): seq<nat> {
    if |tr| == 0 then []
    else (if tr[0].Invoke? then [tr[0].attempt] else []) + Invocations(tr[1..])
  }

  /** The sleeps of a trace, in seconds. */
  function Sleeps(tr: seq<Effect>): seq<nat> {
    if |tr| == 0 then []
    else (if tr[0].Sleep? then [tr[0].seconds] else []) + Sleeps(tr[1..])
  }

  /** The events a trace publishes. */
  function Published(tr: seq<Effect>): seq<Event> {
    if |tr| == 0 then []
    else (if tr[0].Publish? then [tr[0].event] else []) + Published(tr[1..])
  }

  lemma {:induction false} InvocationsAppend(a: seq<Effect>, b: seq<Effect>)
    ensures Invocations(a + b) == Invocations(a) + Invocations(b)
  {
    if |a| > 0 {
      assert (a + b)[1..] == a[1..] + b;
      assert (a + b)[0] == a[0];
      InvocationsAppend(a[1..], b);
    } else {
      assert a + b == b;
    }
  }

  lemma {:induction false} SleepsAppend(a: seq<Effect>, b: seq<Effect>)
    ensures Sleeps(a + b) == Sleeps(a) + Sleeps(b)
  {
    if |a| > 0 {
      assert (a + b)[1..] == a[1..] + b;
      assert (a + b)[0] == a[0];
      SleepsAppend(a[1..], b);
    } else {
      assert a + b == b;
    }
  }

  lemma {:induction false} PublishedAppend(a: seq<Effect>, b: seq<Effect>)
    ensures Published(a + b) == Published(a) + Published(b)
  {
    if |a| > 0 {
      assert (a + b)[1..] == a[1..] + b;
      assert (a + b)[0] == a[0];
      PublishedAppend(a[1..], b);
    } else {
      assert a + b == b;
    }
  }

  /** The three projections of a trace that starts with `e`. */
  lemma Cons(e: Effect, tr: seq<Effect>)
    ensures Invocations([e] + tr) == (if e.Invoke? then [e.attempt] else []) + Invocations(tr)
    ensures Sleeps([e] + tr) == (if e.Sleep? then [e.seconds] else []) + Sleeps(tr)
    ensures Published([e] + tr) == (if e.Publish? then [e.event] else []) + Published(tr)
  {
    assert ([e] + tr)[1..] == tr;
  }

  function Pow2(n: nat): (r: nat)
    ensures r >= 1
  {
    if n == 0 then 1 else 2 * Pow2(n - 1)
  }

  const U64_MODULUS: nat := 0x1_0000_0000_0000_0000

  lemma {:induction false} Pow2Add(a: nat, b: nat)
    ensures Pow2(a + b) == Pow2(a) * Pow2(b)
    decreases a
  {
    if a > 0 {
      Pow2Add(a - 1, b);
    }
  }

  lemma Pow2Of64()
    ensures Pow2(64) == U64_MODULUS
  {
    assert Pow2(4) == 16;
    Pow2Square(4, 16);
    Pow2Square(8, 0x100);
    Pow2Square(16, 0x1_0000);
    Pow2Square(32, 0x1_0000_0000);
  }

  lemma Pow2Square(a: nat, v: nat)
    requires Pow2(a) == v
    ensures Pow2(a + a) == v * v
  {
    Pow2Add(a, a);
  }

  lemma {:induction false} Pow2Grows(n: nat)
    requires n >= 64
    ensures Pow2(n) % U64_MODULUS == 0
  {
    Pow2Add(64, n - 64);
    Pow2Of64();
  }

  /**
    `2u64.pow(n)` with a release build's wrapping multiplication: the true
    power of two below 64, zero from 64 on (a debug build panics there).
  */
  function BackoffDelay(n: nat): (d: nat)
    ensures d < U64_MODULUS
  {
    Pow2(n) % U64_MODULUS
  }

  lemma Pow2Small(n: nat)
    requires n < 64
    ensures Pow2(n) < U64_MODULUS
  {
    Pow2Add(n, 64 - n);
    Pow2Of64();
  }

  /** Below 64 the delay doubles with each retry, starting at 2 s; from 64 on it is 0. */
  lemma BackoffDelayValues(n: nat)
    ensures n < 64 ==> BackoffDelay(n) == Pow2(n)
    ensures 1 <= n < 64 ==> BackoffDelay(n) == 2 * Pow2(n - 1)
    ensures n >= 64 ==> BackoffDelay(n) == 0
  {
    if n < 64 {
      Pow2Small(n);
    } else {
      Pow2Grows(n);
    }
  }

  const RetriesKey := "max_download_retries"

  /**
    The retry ceiling: the `max_download_retries` setting when the row can be
    read and its value parses as a u32, otherwise the configured fallback.
  */
  function RetryCeiling(settings: Settings.Table, readOk: bool, fallback: nat): (r: nat)
    requires fallback <= U32_MAX
    ensures r <= U32_MAX
    ensures !readOk || RetriesKey !in settings ==> r == fallback
  {
    if readOk && RetriesKey in settings then
      ParseU32(settings[RetriesKey].value).GetOr(fallback)
    else fallback
  }

  /** Storing a decimal number as the setting makes it the ceiling, whatever was there before. */
  lemma CeilingAfterSet(t: Settings.Table, n: nat, now: int, fallback: nat)
    requires n <= U32_MAX && fallback <= U32_MAX
    ensures RetryCeiling(Settings.SetSetting(t, RetriesKey, NatToString(n), now, None).table, true, fallback) == n
  {
    ParseU32OfNat(n);
  }

  /** A value that is not a u32 (a negative number, say) falls back to the configuration. */
  lemma CeilingIgnoresNegative(t: Settings.Table, v: string, now: int, fallback: nat)
    requires fallback <= U32_MAX && '-' in v
    ensures RetryCeiling(Settings.SetSetting(t, RetriesKey, v, now, None).table, true, fallback) == fallback
  {
    var i :| 0 <= i < |v| && v[i] == '-';
  }

  /** The text written to `error` and published before retry `n` of at most `ceiling`. */
  function RetryMessage(n: nat, ceiling: nat, e: string): string {
    "Attempt " + NatToString(n) + "/" + NatToString(ceiling) + " failed: " + e
      + ". Retrying in " + NatToString(BackoffDelay(n)) + "s…"
  }

  /** The loop's trace and the result it breaks out with. */
  datatype LoopResult = LoopResult(trace: seq<Effect>, final: DownloadResult)

  /** Whether the two writes before retry `n` (the error text, then its clearing) succeed. */
  datatype RetryWrites = RetryWrites(errorOk: bool, clearOk: bool)

  /** The steps after failed attempt `n - 1`, before attempt `n`. */
  function RetrySteps(id: string, n: nat, ceiling: nat, e: string, w: RetryWrites): seq<Effect> {
    var msg := RetryMessage(n, ceiling, e);
    [WriteError(msg, w.errorOk), Publish(Event.Error(id, msg)), Sleep(BackoffDelay(n)), ClearError(w.clearOk),
     Publish(StatusChange(id, Downloading))]
  }

  lemma RetryStepsProjections(id: string, n: nat, ceiling: nat, e: string, w: RetryWrites)
    ensures var msg := RetryMessage(n, ceiling, e);
      var steps := RetrySteps(id, n, ceiling, e, w);
      Invocations(steps) == [] && Sleeps(steps) == [BackoffDelay(n)]
      && Published(steps) == [Event.Error(id, msg), StatusChange(id, Downloading)]
  {
    var msg := RetryMessage(n, ceiling, e);
    var e5 := Publish(StatusChange(id, Downloading));
    Cons(e5, []);
    var c := ClearError(w.clearOk);
    Cons(c, [e5]);
    Cons(Sleep(BackoffDelay(n)), [c, e5]);
    Cons(Publish(Event.Error(id, msg)), [Sleep(BackoffDelay(n)), c, e5]);
    Cons(WriteError(msg, w.errorOk), [Publish(Event.Error(id, msg)), Sleep(BackoffDelay(n)), c, e5]);
  }

  /**
    The download loop from attempt counter `attempt`: `dl(k)` is the outcome
    of the call made while the counter is `k`, and `wr(n)` the outcome of the
    writes before retry `n`. The loop calls the downloader
    for consecutive counters, stops at the first success, and gives up after
    the call at `ceiling`; between calls it sleeps 2^n seconds before call n.
  */
  function RetryLoop(id: string, attempt: nat, ceiling: nat, dl: nat -> DownloadResult, wr: nat -> RetryWrites): (r: LoopResult)
    requires attempt <= ceiling
    ensures |r.trace| > 0 && r.trace[0] == Invoke(attempt)
    decreases ceiling - attempt
  {
    var res := dl(attempt);
    if res.Downloaded? || attempt >= ceiling then
      LoopResult([Invoke(attempt)], res)
    else
      LoopResult([Invoke(attempt)] + RetrySteps(id, attempt + 1, ceiling, res.message, wr(attempt + 1))
                   + RetryLoop(id, attempt + 1, ceiling, dl, wr).trace,
                 RetryLoop(id, attempt + 1, ceiling, dl, wr).final)
  }

  /**
    The loop calls the downloader for consecutive counters from `attempt`,
    every call but the last failed, it stops at the first success and gives
    up after the call at `ceiling`; it sleeps once before each call but the
    first, 2^n seconds before call n.
  */
  lemma LoopCalls(id: string, attempt: nat, ceiling: nat, dl: nat -> DownloadResult, wr: nat -> RetryWrites)
    requires attempt <= ceiling
    ensures var r := RetryLoop(id, attempt, ceiling, dl, wr);
      var inv := Invocations(r.trace);
      1 <= |inv| <= ceiling - attempt + 1
      && (forall j :: 0 <= j < |inv| ==> inv[j] == attempt + j)
      && (forall j :: attempt <= j < attempt + |inv| - 1 ==> dl(j).DownloadError?)
      && r.final == dl(attempt + |inv| - 1)
      && (r.final.DownloadError? ==> |inv| == ceiling - attempt + 1)
      && |Sleeps(r.trace)| == |inv| - 1
      && (forall j :: 0 <= j < |Sleeps(r.trace)| ==> Sleeps(r.trace)[j] == BackoffDelay(attempt + 1 + j))
  {
    LoopInvocations(id, attempt, ceiling, dl, wr);
    LoopSleeps(id, attempt, ceiling, dl, wr);
  }

  /** The calls of the loop: consecutive counters, all failed but the last, as many as allowed on failure. */
  predicate CallsOutcome(inv: seq<nat>, final: DownloadResult, attempt: nat, ceiling: nat, dl: nat -> DownloadResult) {
    1 <= |inv| <= ceiling - attempt + 1
    && (forall j :: 0 <= j < |inv| ==> inv[j] == attempt + j)
    && (forall j :: attempt <= j < attempt + |inv| - 1 ==> dl(j).DownloadError?)
    && final == dl(attempt + |inv| - 1)
    && (final.DownloadError? ==> |inv| == ceiling - attempt + 1)
  }

  lemma {:induction false} LoopInvocations(id: string, attempt: nat, ceiling: nat, dl: nat -> DownloadResult, wr: nat -> RetryWrites)
    requires attempt <= ceiling
    ensures var r := RetryLoop(id, attempt, ceiling, dl, wr);
      CallsOutcome(Invocations(r.trace), r.final, attempt, ceiling, dl)
    decreases ceiling - attempt
  {
    var res := dl(attempt);
    if res.Downloaded? || attempt >= ceiling {
      Cons(Invoke(attempt), []);
    } else {
      var rest := RetryLoop(id, attempt + 1, ceiling, dl, wr);
      LoopInvocations(id, attempt + 1, ceiling, dl, wr);
      LoopStep(id, attempt, ceiling, res.message, wr(attempt + 1), rest.trace);
      var r := RetryLoop(id, attempt, ceiling, dl, wr);
      assert r.final == rest.final;
      assert Invocations(r.trace) == [attempt] + Invocations(rest.trace);
      CallsOutcomeCons(Invocations(rest.trace), rest.final, attempt, ceiling, dl);
    }
  }

  /** A failed call below the ceiling, in front of the calls of the next attempts. */
  lemma CallsOutcomeCons(tail: seq<nat>, final: DownloadResult, attempt: nat, ceiling: nat, dl: nat -> DownloadResult)
    requires attempt < ceiling && dl(attempt).DownloadError?
    requires CallsOutcome(tail, final, attempt + 1, ceiling, dl)
    ensures CallsOutcome([attempt] + tail, final, attempt, ceiling, dl)
  {
    var inv := [attempt] + tail;
    forall j | 0 <= j < |inv|
      ensures inv[j] == attempt + j
    {
      if j > 0 {
        assert inv[j] == tail[j - 1];
      }
    }
  }

  /** The sleeps of the loop: one before each call but the first, 2^n seconds before call n. */
  lemma {:induction false} LoopSleeps(id: string, attempt: nat, ceiling: nat, dl: nat -> DownloadResult, wr: nat -> RetryWrites)
    requires attempt <= ceiling
    ensures var r := RetryLoop(id, attempt, ceiling, dl, wr);
      |Sleeps(r.trace)| == |Invocations(r.trace)| - 1
      && (forall j :: 0 <= j < |Sleeps(r.trace)| ==> Sleeps(r.trace)[j] == BackoffDelay(attempt + 1 + j))
    decreases ceiling - attempt
  {
    var res := dl(attempt);
    if res.Downloaded? || attempt >= ceiling {
      Cons(Invoke(attempt), []);
    } else {
      var rest := RetryLoop(id, attempt + 1, ceiling, dl, wr);
      LoopSleeps(id, attempt + 1, ceiling, dl, wr);
      LoopStep(id, attempt, ceiling, res.message, wr(attempt + 1), rest.trace);
    }
  }

  /** A failed call followed by its retry steps adds one call and one sleep in front of the rest. */
  lemma LoopStep(id: string, attempt: nat, ceiling: nat, e: string, w: RetryWrites, rest: seq<Effect>)
    ensures var tr := [Invoke(attempt)] + RetrySteps(id, attempt + 1, ceiling, e, w) + rest;
      Invocations(tr) == [attempt] + Invocations(rest)
      && Sleeps(tr) == [BackoffDelay(attempt + 1)] + Sleeps(rest)
      && tr[0] == Invoke(attempt)
  {
    var steps := [Invoke(attempt)] + RetrySteps(id, attempt + 1, ceiling, e, w);
    RetryStepsProjections(id, attempt + 1, ceiling, e, w);
    Cons(Invoke(attempt), RetrySteps(id, attempt + 1, ceiling, e, w));
    InvocationsAppend(steps, rest);
    SleepsAppend(steps, rest);
  }

  /**
    Everything the task reads, as it turns out: the row table, whether the
    fetch, the mark and the settings read succeed, the downloader's outcomes,
    whether the writes before each retry succeed (`retryWrites`), the clock,
    the status seen at the re-check and whether the done or failed write
    succeeds (`finishOk`).
  */
  datatype WorkerEnv = WorkerEnv(
    store: Store,
    readOk: bool,
    markOk: bool,
    settings: Settings.Table,
    settingsReadOk: bool,
    fallbackRetries: nat,
    downloader: nat -> DownloadResult,
    retryWrites: nat -> RetryWrites,
    startedAt: int,
    completedAt: int,
    statusAtRecheck: Option<DownloadStatus>,
    finishOk: bool)

  /** The row as fetched: a read error counts as a missing row. */
  function Fetched(id: string, env: WorkerEnv): (r: Option<Item>)
    ensures r.Some? <==> env.readOk && id in env.store
    ensures r.Some? ==> r.value == env.store[id]
  {
    if env.readOk && id in env.store then Some(env.store[id]) else None
  }

  /** The end of the task once the loop has its result. */
  function Finish(id: string, final: DownloadResult, env: WorkerEnv): (r: seq<Effect>)
    ensures final.Downloaded? && env.statusAtRecheck == Some(Cancelled) ==>
      r == (if final.path == "" then [] else [RemoveFile(final.path)])
    ensures final.Downloaded? && env.statusAtRecheck != Some(Cancelled) ==>
      Published(r) == [StatusChange(id, Done)]
    ensures final.DownloadError? ==>
      Published(r) == [Event.Error(id, final.message), StatusChange(id, Failed)]
    ensures Invocations(r) == [] && Sleeps(r) == []
  {
    match final
    case Downloaded(path) =>
      if env.statusAtRecheck == Some(Cancelled) then
        if path == "" then [] else (Cons(RemoveFile(path), []); [RemoveFile(path)])
      else
        var done := Publish(StatusChange(id, Done));
        var write := WriteDone(env.completedAt, if path == "" then None else Some(path), env.finishOk);
        Cons(done, []);
        Cons(write, [done]);
        [write, done]
    case DownloadError(e) =>
      var failed := Publish(StatusChange(id, Failed));
      var err := Publish(Event.Error(id, e));
      var write := WriteFailed(env.completedAt, e, env.finishOk);
      Cons(failed, []);
      Cons(err, [failed]);
      Cons(write, [err, failed]);
      [write, err, failed]
  }

  /** Whether the task gets as far as the downloader. */
  predicate Starts(id: string, env: WorkerEnv) {
    Fetched(id, env).Some? && Fetched(id, env).value.status != Cancelled && env.markOk
  }

  /** `run_download(id, …)`. */
  function RunDownload(id: string, env: WorkerEnv): (r: seq<Effect>)
    requires env.fallbackRetries <= U32_MAX
    ensures r == [] <==> !Starts(id, env)
    ensures Starts(id, env) ==>
      |r| >= 3 && r[0] == WriteDownloading(env.startedAt) && r[1] == Publish(StatusChange(id, Downloading))
      && r[2] == Invoke(0)
  {
    match Fetched(id, env)
    case None => []
    case Some(item) =>
      if item.status == Cancelled then []
      else if !env.markOk then []
      else
        var ceiling := RetryCeiling(env.settings, env.settingsReadOk, env.fallbackRetries);
        var loop := RetryLoop(id, 0, ceiling, env.downloader, env.retryWrites);
        [WriteDownloading(env.startedAt), Publish(StatusChange(id, Downloading))]
          + loop.trace + Finish(id, loop.final, env)
  }

  function Ceiling(env: WorkerEnv): nat
    requires env.fallbackRetries <= U32_MAX
  {
    RetryCeiling(env.settings, env.settingsReadOk, env.fallbackRetries)
  }

  /** The two effects that open every started task. */
  function Opening(id: string, env: WorkerEnv): seq<Effect> {
    [WriteDownloading(env.startedAt), Publish(StatusChange(id, Downloading))]
  }

  /** A started task is its opening, the loop and the finish; the three projections split accordingly. */
  lemma Decompose(id: string, env: WorkerEnv)
    requires env.fallbackRetries <= U32_MAX && Starts(id, env)
    ensures var loop := RetryLoop(id, 0, Ceiling(env), env.downloader, env.retryWrites);
      var tail := Finish(id, loop.final, env);
      var tr := RunDownload(id, env);
      tr == Opening(id, env) + loop.trace + tail
      && Invocations(tr) == Invocations(loop.trace)
      && Sleeps(tr) == Sleeps(loop.trace)
      && Published(tr) == [StatusChange(id, Downloading)] + Published(loop.trace) + Published(tail)
  {
    var loop := RetryLoop(id, 0, Ceiling(env), env.downloader, env.retryWrites);
    var head := Opening(id, env);
    var tail := Finish(id, loop.final, env);
    var e1 := Publish(StatusChange(id, Downloading));
    Cons(e1, []);
    Cons(WriteDownloading(env.startedAt), [e1]);
    InvocationsAppend(head, loop.trace);
    InvocationsAppend(head + loop.trace, tail);
    SleepsAppend(head, loop.trace);
    SleepsAppend(head + loop.trace, tail);
    PublishedAppend(head, loop.trace);
    PublishedAppend(head + loop.trace, tail);
  }

  /** The number of downloader calls a task makes, and which calls failed. */
  lemma InvocationCount(id: string, env: WorkerEnv)
    requires env.fallbackRetries <= U32_MAX && Starts(id, env)
    ensures var n := |Invocations(RunDownload(id, env))|;
      1 <= n <= Ceiling(env) + 1
      && (forall j :: 0 <= j < n ==> Invocations(RunDownload(id, env))[j] == j)
      && (forall j :: 0 <= j < n - 1 ==> env.downloader(j).DownloadError?)
      && ((forall k :: 0 <= k <= Ceiling(env) ==> env.downloader(k).DownloadError?) ==> n == Ceiling(env) + 1)
      && (forall k :: 0 <= k < n - 1 ==> env.downloader(k).DownloadError?)
  {
    Decompose(id, env);
    LoopCalls(id, 0, Ceiling(env), env.downloader, env.retryWrites);
  }

  /** The downloader is never called again once a call has succeeded. */
  lemma NoCallAfterSuccess(id: string, env: WorkerEnv, k: nat)
    requires env.fallbackRetries <= U32_MAX && Starts(id, env)
    requires env.downloader(k).Downloaded?
    ensures forall j :: j in Invocations(RunDownload(id, env)) ==> j <= k
  {
    InvocationCount(id, env);
    var inv := Invocations(RunDownload(id, env));
    forall j | j in inv
      ensures j <= k
    {
      var i :| 0 <= i < |inv| && inv[i] == j;
      assert inv[i] == i;
    }
  }

  /** The waits between calls are 2, 4, 8, … seconds, one before each retry. */
  lemma SleepSchedule(id: string, env: WorkerEnv)
    requires env.fallbackRetries <= U32_MAX && Starts(id, env)
    ensures |Sleeps(RunDownload(id, env))| == |Invocations(RunDownload(id, env))| - 1
    ensures forall j :: 0 <= j < |Sleeps(RunDownload(id, env))| ==> Sleeps(RunDownload(id, env))[j] == BackoffDelay(j + 1)
  {
    Decompose(id, env);
    LoopCalls(id, 0, Ceiling(env), env.downloader, env.retryWrites);
  }

  /** One retry: record the error, publish it, wait, clear it, announce the new attempt. */
  lemma RetryStepOrder(id: string, n: nat, ceiling: nat, dl: nat -> DownloadResult, wr: nat -> RetryWrites)
    requires n < ceiling && dl(n).DownloadError?
    ensures RetryLoop(id, n, ceiling, dl, wr).trace[..6] ==
      [Invoke(n), WriteError(RetryMessage(n + 1, ceiling, dl(n).message), wr(n + 1).errorOk),
       Publish(Event.Error(id, RetryMessage(n + 1, ceiling, dl(n).message))),
       Sleep(BackoffDelay(n + 1)), ClearError(wr(n + 1).clearOk), Publish(StatusChange(id, Downloading))]
    ensures RetryLoop(id, n, ceiling, dl, wr).trace[6] == Invoke(n + 1)
  {
  }

  /**
    `UPDATE queue_items SET … WHERE id = ?` on the task's row for one effect;
    a write that failed, and every other effect, writes nothing.
  */
  function ApplyRow(it: Item, e: Effect): Item {
    match e
    case WriteDownloading(t) => it.(status := Downloading, startedAt := Some(t), progress := 0.0)
    case WriteError(m, ok) => if ok then it.(error := Some(m)) else it
    case ClearError(ok) => if ok then it.(error := None) else it
    case WriteDone(t, p, ok) =>
      if ok then it.(status := Done, completedAt := Some(t), progress := 100.0, outputPath := p, error := None) else it
    case WriteFailed(t, m, ok) => if ok then it.(status := Failed, completedAt := Some(t), error := Some(m)) else it
    case _ => it
  }

  function ApplyAll(it: Item, tr: seq<Effect>): Item
    decreases |tr|
  {
    if |tr| == 0 then it else ApplyAll(ApplyRow(it, tr[0]), tr[1..])
  }

  /** The table after a trace: only the task's own row changes, and only if it still exists. */
  function Apply(s: Store, id: string, tr: seq<Effect>): (r: Store)
    ensures r.Keys == s.Keys
    ensures forall k :: k in s && k != id ==> r[k] == s[k]
  {
    if id in s then s[id := ApplyAll(s[id], tr)] else s
  }

  lemma {:induction false} ApplyAllAppend(it: Item, a: seq<Effect>, b: seq<Effect>)
    ensures ApplyAll(it, a + b) == ApplyAll(ApplyAll(it, a), b)
    decreases |a|
  {
    if |a| > 0 {
      assert (a + b)[1..] == a[1..] + b;
      assert (a + b)[0] == a[0];
      ApplyAllAppend(ApplyRow(it, a[0]), a[1..], b);
    } else {
      assert a + b == b;
    }
  }

  lemma ApplyAllCons(it: Item, e: Effect, tr: seq<Effect>)
    ensures ApplyAll(it, [e] + tr) == ApplyAll(ApplyRow(it, e), tr)
  {
    assert ([e] + tr)[1..] == tr;
  }

  /** The error column after the writes before a retry: cleared, else the retry's message, else as it was. */
  function ErrorAfterRetry(before: Option<string>, msg: string, w: RetryWrites): Option<string> {
    if w.clearOk then None else if w.errorOk then Some(msg) else before
  }

  /**
    The writes between two calls touch only the error column, and leave it
    cleared when the clearing succeeds.
  */
  lemma ApplyRetrySteps(it: Item, id: string, n: nat, ceiling: nat, e: string, w: RetryWrites)
    ensures ApplyAll(it, RetrySteps(id, n, ceiling, e, w))
         == it.(error := ErrorAfterRetry(it.error, RetryMessage(n, ceiling, e), w))
  {
    var msg := RetryMessage(n, ceiling, e);
    var e5 := Publish(StatusChange(id, Downloading));
    var c := ClearError(w.clearOk);
    var it1 := ApplyRow(it, WriteError(msg, w.errorOk));
    ApplyAllCons(it, WriteError(msg, w.errorOk), [Publish(Event.Error(id, msg)), Sleep(BackoffDelay(n)), c, e5]);
    ApplyAllCons(it1, Publish(Event.Error(id, msg)), [Sleep(BackoffDelay(n)), c, e5]);
    ApplyAllCons(it1, Sleep(BackoffDelay(n)), [c, e5]);
    ApplyAllCons(it1, c, [e5]);
    ApplyAllCons(ApplyRow(it1, c), e5, []);
  }

  /**
    Marking an item downloading sets only status, start time and progress:
    the completion time, error and output path of an earlier run survive.
  */
  lemma MarkKeepsStaleFields(s: Store, id: string, t: int)
    requires id in s
    ensures var it := Apply(s, id, [WriteDownloading(t)])[id];
      it.status == Downloading && it.startedAt == Some(t) && it.progress == 0.0
      && it.completedAt == s[id].completedAt && it.error == s[id].error
      && it.outputPath == s[id].outputPath && it.priority == s[id].priority
  {
    assert [WriteDownloading(t)][1..] == [];
    assert ApplyAll(s[id], [WriteDownloading(t)]) == ApplyRow(s[id], WriteDownloading(t));
  }

  /** The row fields that describe the outcome of a run. */
  predicate Settled(it: Item, status: DownloadStatus, completedAt: int) {
    it.status == status && it.completedAt == Some(completedAt)
  }

  /**
    The loop's writes touch only the error column, whichever of them
    succeed: the status and completion time of the row stay as they were.
  */
  lemma {:induction false} LoopKeepsStatus(it: Item, id: string, n: nat, ceiling: nat, dl: nat -> DownloadResult, wr: nat -> RetryWrites)
    requires n <= ceiling
    ensures ApplyAll(it, RetryLoop(id, n, ceiling, dl, wr).trace)
         == it.(error := ApplyAll(it, RetryLoop(id, n, ceiling, dl, wr).trace).error)
    ensures ApplyAll(it, RetryLoop(id, n, ceiling, dl, wr).trace).status == it.status
    ensures ApplyAll(it, RetryLoop(id, n, ceiling, dl, wr).trace).completedAt == it.completedAt
    decreases ceiling - n
  {
    var res := dl(n);
    if res.Downloaded? || n >= ceiling {
      ApplyAllCons(it, Invoke(n), []);
    } else {
      var w := wr(n + 1);
      var steps := [Invoke(n)] + RetrySteps(id, n + 1, ceiling, res.message, w);
      var rest := RetryLoop(id, n + 1, ceiling, dl, wr);
      ApplyAllAppend(it, steps, rest.trace);
      ApplyAllCons(it, Invoke(n), RetrySteps(id, n + 1, ceiling, res.message, w));
      ApplyRetrySteps(it, id, n + 1, ceiling, res.message, w);
      LoopKeepsStatus(it.(error := ErrorAfterRetry(it.error, RetryMessage(n + 1, ceiling, res.message), w)), id, n + 1, ceiling, dl, wr);
    }
  }

  /**
    What the finish writes into the row it finds: done or failed when the
    final write succeeds, nothing when it fails or when the re-check after a
    success saw the row cancelled.
  */
  lemma FinishRow(it: Item, id: string, final: DownloadResult, env: WorkerEnv)
    ensures var row := ApplyAll(it, Finish(id, final, env));
      (final.Downloaded? && env.statusAtRecheck != Some(Cancelled) && env.finishOk ==>
         Settled(row, Done, env.completedAt) && row.progress == 100.0 && row.error == None
         && row.outputPath == (if final.path == "" then None else Some(final.path)))
      && (final.Downloaded? && env.statusAtRecheck == Some(Cancelled) ==> row == it)
      && (final.DownloadError? && env.finishOk ==> Settled(row, Failed, env.completedAt) && row.error == Some(final.message))
      && (!env.finishOk ==> row == it)
  {
    var tr := Finish(id, final, env);
    match final
    case Downloaded(p) =>
      if env.statusAtRecheck == Some(Cancelled) {
        if p != "" {
          assert ApplyAll(it, tr) == ApplyAll(it, tr[1..]);
        }
      } else {
        var it1 := ApplyRow(it, tr[0]);
        assert ApplyAll(it, tr) == ApplyAll(it1, tr[1..]);
        assert ApplyAll(it1, tr[1..]) == ApplyAll(it1, tr[2..]);
      }
    case DownloadError(e) =>
      var it1 := ApplyRow(it, tr[0]);
      assert ApplyAll(it, tr) == ApplyAll(it1, tr[1..]);
      assert ApplyAll(it1, tr[1..]) == ApplyAll(it1, tr[2..]);
      assert ApplyAll(it1, tr[2..]) == ApplyAll(it1, tr[3..]);
  }

  /**
    The row a task's own writes leave behind. When the final write succeeds:
    done after a success, failed with the last error after the final failure,
    whichever of the loop's writes succeeded. When it fails the row stays
    marked downloading with this run's start time (until a restart resets
    it). After a success whose re-check saw a cancellation the task writes
    nothing more, so the row stays as the cancel left it.
  */
  lemma FinalRow(id: string, env: WorkerEnv)
    requires env.fallbackRetries <= U32_MAX && Starts(id, env)
    ensures var loop := RetryLoop(id, 0, Ceiling(env), env.downloader, env.retryWrites);
      var row := Apply(env.store, id, RunDownload(id, env))[id];
      (loop.final.Downloaded? && env.statusAtRecheck != Some(Cancelled) && env.finishOk ==>
         Settled(row, Done, env.completedAt) && row.progress == 100.0 && row.error == None
         && row.outputPath == (if loop.final.path == "" then None else Some(loop.final.path)))
      && (loop.final.DownloadError? && env.finishOk ==>
         Settled(row, Failed, env.completedAt) && row.error == Some(loop.final.message))
      && (!env.finishOk && !(loop.final.Downloaded? && env.statusAtRecheck == Some(Cancelled)) ==>
         row.status == Downloading && row.startedAt == Some(env.startedAt)
         && row.completedAt == env.store[id].completedAt)
      && (loop.final.Downloaded? && env.statusAtRecheck == Some(Cancelled) ==>
         forall it :: ApplyAll(it, Finish(id, loop.final, env)) == it)
  {
    var loop := RetryLoop(id, 0, Ceiling(env), env.downloader, env.retryWrites);
    var head := Opening(id, env);
    var tail := Finish(id, loop.final, env);
    Decompose(id, env);
    var it0 := env.store[id];
    ApplyAllAppend(it0, head, loop.trace);
    ApplyAllAppend(it0, head + loop.trace, tail);
    var it1 := ApplyRow(it0, WriteDownloading(env.startedAt));
    assert ApplyAll(it0, head) == ApplyAll(it1, head[1..]);
    assert ApplyAll(it1, head[1..]) == ApplyAll(it1, head[2..]);
    LoopKeepsStatus(it1, id, 0, Ceiling(env), env.downloader, env.retryWrites);
    FinishRow(ApplyAll(it1, loop.trace), id, loop.final, env);
    if loop.final.Downloaded? && env.statusAtRecheck == Some(Cancelled) {
      forall it
        ensures ApplyAll(it, Finish(id, loop.final, env)) == it
      {
        FinishRow(it, id, loop.final, env);
      }
    }
  }

  /** The events of a whole task: downloading first, then one terminal announcement. */
  lemma PublishedEvents(id: string, env: WorkerEnv)
    requires env.fallbackRetries <= U32_MAX && Starts(id, env)
    ensures var ev := Published(RunDownload(id, env));
      var loop := RetryLoop(id, 0, Ceiling(env), env.downloader, env.retryWrites);
      |ev| >= 1 && ev[0] == StatusChange(id, Downloading)
      && (loop.final.Downloaded? && env.statusAtRecheck != Some(Cancelled) ==> ev[|ev| - 1] == StatusChange(id, Done))
      && (loop.final.DownloadError? ==>
            |ev| >= 2 && ev[|ev| - 2] == Event.Error(id, loop.final.message) && ev[|ev| - 1] == StatusChange(id, Failed))
  {
    Decompose(id, env);
  }
}
