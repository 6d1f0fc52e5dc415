/**
  The queue's HTTP handlers: the paginated listing, add, remove (cancel),
  retry and reorder. Each handler is a function from the table (and the
  request) to a `Reply`: its result, the table afterwards, the events it
  published, the ids it submitted to the worker pool and the files it deleted.
*/
module QueueRoutes {
  import opened Wrappers
  import opened Models
  import opened Errors
  import opened Seqs
  import opened QueueTable

  datatype Reply<T> = Reply(
    result: Result<T, AppError>,
    store: Store,
    events: seq<Event>,
    submitted: seq<string>,
    deleted: seq<string>)

  /** An error before anything was written. */
  function Rejected<T>(store: Store, e: AppError): (r: Reply<T>)
    ensures r.result == Err(e) && r.store == store
    ensures r.events == [] && r.submitted == [] && r.deleted == []
  {
    Reply(Err(e), store, [], [], [])
  }

  /** The status code of the handlers that answer without a body. */
  const NoContent := 204

  // ---------------------------------------------------------------------------
  // GET /api/queue

  const I64_MIN: int := -0x8000_0000_0000_0000
  const I64_MAX: int := 0x7FFF_FFFF_FFFF_FFFF
  const U64_SPAN: int := 0x1_0000_0000_0000_0000

  predicate IsI64(x: int) {
    I64_MIN <= x <= I64_MAX
  }

  /** Two's-complement wrap-around of a 64-bit signed result (release-build arithmetic). */
  function WrapI64(x: int): (r: int)
    ensures IsI64(r)
    ensures IsI64(x) ==> r == x
    ensures (r - x) % U64_SPAN == 0
  {
    (x - I64_MIN) % U64_SPAN + I64_MIN
  }

  /** The query string; `page` and `per_page` are i64. */
  datatype QueueQuery = QueueQuery(status: Option<string>, page: Option<int>, perPage: Option<int>)

  predicate ValidQuery(q: QueueQuery) {
    (q.page.Some? ==> IsI64(q.page.value)) && (q.perPage.Some? ==> IsI64(q.perPage.value))
  }

  /** The response body `PaginatedResponse`. */
  datatype ItemPage = ItemPage(data: seq<Item>, total: int, page: int, perPage: int)

  /** `page.unwrap_or(1).max(1)`. */
  function EffectivePage(q: QueueQuery): (p: int)
    ensures p >= 1
    ensures q.page.Some? && q.page.value >= 1 ==> p == q.page.value
    ensures q.page.None? || q.page.value < 1 ==> p == 1
  {
    var p := q.page.GetOr(1);
    if p < 1 then 1 else p
  }

  /** `per_page.unwrap_or(25).clamp(1, 100)`. */
  function EffectivePerPage(q: QueueQuery): (n: int)
    ensures 1 <= n <= 100
    ensures q.perPage.None? ==> n == 25
    ensures q.perPage.Some? && 1 <= q.perPage.value <= 100 ==> n == q.perPage.value
    ensures q.perPage.Some? && q.perPage.value < 1 ==> n == 1
    ensures q.perPage.Some? && q.perPage.value > 100 ==> n == 100
  {
    var n := q.perPage.GetOr(25);
    if n < 1 then 1 else if n > 100 then 100 else n
  }

  /** `WHERE status = ?` when a status is given: the stored text must match exactly. */
  function StatusFilter(status: Option<string>): Item -> bool {
    (it: Item) => status.None? || Display(it.status) == status.value
  }

  /** `ORDER BY priority ASC, added_at ASC`. */
  function ListRank(it: Item): Rank {
    Rank(it.priority, it.addedAt)
  }

  /** `LIMIT limit OFFSET offset` in SQLite, where a negative offset counts as zero. */
  function Window<T>(rows: seq<T>, limit: nat, offset: int): seq<T> {
    var o := if offset < 0 then 0 else offset;
    if o >= |rows| then [] else rows[o..if o + limit < |rows| then o + limit else |rows|]
  }

  /** A window holds `limit` rows, or fewer at the end, and they are the rows from the offset on. */
  lemma WindowFacts<T>(rows: seq<T>, limit: nat, offset: int)
    ensures var o := if offset < 0 then 0 else offset;
      |Window(rows, limit, offset)| == if o >= |rows| then 0 else if |rows| - o < limit then |rows| - o else limit
    ensures var o := if offset < 0 then 0 else offset;
      forall i :: 0 <= i < |Window(rows, limit, offset)| ==> o + i < |rows| && Window(rows, limit, offset)[i] == rows[o + i]
  {
  }

  /** Two adjacent windows of one size make the window of twice the size. */
  lemma WindowSplit<T>(rows: seq<T>, n: nat, o: nat)
    ensures Window(rows, n, o) + Window(rows, n, o + n) == Window(rows, 2 * n, o)
  {
    var a, b, c := Window(rows, n, o), Window(rows, n, o + n), Window(rows, 2 * n, o);
    WindowFacts(rows, n, o);
    WindowFacts(rows, n, o + n);
    WindowFacts(rows, 2 * n, o);
    assert |a + b| == |c|;
    forall i | 0 <= i < |c|
      ensures (a + b)[i] == c[i]
    {
      if i < |a| {
        assert (a + b)[i] == a[i];
      } else {
        assert (a + b)[i] == b[i - |a|];
      }
    }
  }

  /** Every row is a row of the table that passes the status filter. */
  predicate AllMatch(store: Store, status: Option<string>, rows: seq<Item>) {
    forall it :: it in rows ==> it in store.Values && StatusFilter(status)(it)
  }

  /** Sorted by priority, then added time. */
  predicate InListOrder(rows: seq<Item>) {
    forall i, j :: 0 <= i < j < |rows| ==> RankLe(ListRank(rows[i]), ListRank(rows[j]))
  }

  /** A window of sorted matching ids gives sorted matching rows. */
  lemma PageRows(store: Store, status: Option<string>, ids: seq<string>, n: nat, offset: int)
    requires forall k :: k in ids ==> k in store && StatusFilter(status)(store[k])
    requires forall i, j :: 0 <= i < j < |ids| ==> RankLe(ListRank(store[ids[i]]), ListRank(store[ids[j]]))
    ensures var w := Window(ids, n, offset);
      |RowsOf(store, w)| == |w|
      && AllMatch(store, status, RowsOf(store, w))
      && InListOrder(RowsOf(store, w))
  {
    var o := if offset < 0 then 0 else offset;
    var w := Window(ids, n, offset);
    WindowFacts(ids, n, offset);
    assert forall i :: 0 <= i < |w| ==> w[i] == ids[o + i];
    assert forall k :: k in w ==> k in ids;
    RowsOfInStore(store, w);
    MatchingRows(store, status, w);
    OrderedRows(store, ids, w, o);
  }

  /** The rows of matching ids match. */
  lemma MatchingRows(store: Store, status: Option<string>, w: seq<string>)
    requires forall k :: k in w ==> k in store && StatusFilter(status)(store[k])
    requires |RowsOf(store, w)| == |w|
    requires forall i :: 0 <= i < |w| ==> RowsOf(store, w)[i] == store[w[i]]
    ensures AllMatch(store, status, RowsOf(store, w))
  {
    var rows := RowsOf(store, w);
    forall it | it in rows
      ensures it in store.Values && StatusFilter(status)(it)
    {
      var i :| 0 <= i < |rows| && rows[i] == it;
      assert w[i] in w;
    }
  }

  /** The rows of a window of sorted ids are sorted. */
  lemma OrderedRows(store: Store, ids: seq<string>, w: seq<string>, o: nat)
    requires forall k :: k in ids ==> k in store
    requires forall i, j :: 0 <= i < j < |ids| ==> RankLe(ListRank(store[ids[i]]), ListRank(store[ids[j]]))
    requires |w| == 0 || o + |w| <= |ids|
    requires forall i :: 0 <= i < |w| ==> w[i] == ids[o + i]
    requires |RowsOf(store, w)| == |w|
    requires forall i :: 0 <= i < |w| ==> RowsOf(store, w)[i] == store[w[i]]
    ensures InListOrder(RowsOf(store, w))
  {
    var rows := RowsOf(store, w);
    forall i, j | 0 <= i < j < |rows|
      ensures RankLe(ListRank(rows[i]), ListRank(rows[j]))
    {
      assert w[i] == ids[o + i] && w[j] == ids[o + j];
      assert ids[o + i] in ids && ids[o + j] in ids;
      assert rows[i] == store[ids[o + i]];
      assert rows[j] == store[ids[o + j]];
    }
  }

  /** The ids of the matching rows in listing order: every matching row once. */
  function Listing(store: Store, scan: seq<string>, status: Option<string>): (ids: seq<string>)
    requires IsScan(store, scan)
    ensures forall k :: k in ids <==> k in store && StatusFilter(status)(store[k])
    ensures Distinct(ids)
    ensures forall i, j :: 0 <= i < j < |ids| ==> RankLe(ListRank(store[ids[i]]), ListRank(store[ids[j]]))
    ensures |ids| == CountWhere(store, StatusFilter(status))
  {
    var sel := Select(store, scan, StatusFilter(status));
    SelectCount(store, scan, StatusFilter(status));
    var ids := OrderBy(store, sel, ListRank);
    PermutationKeepsMembers(sel, ids);
    PermutationDistinct(sel, ids);
    ids
  }

  /** The listing for a given offset; the two handlers below differ only in how they compute it. */
  function ListAt(store: Store, scan: seq<string>, q: QueueQuery, offset: int, fault: Option<string>): (r: Result<ItemPage, AppError>)
    requires IsScan(store, scan)
  {
    match fault
    case Some(e) => Err(Db(e))
    case None =>
      var ids := Listing(store, scan, q.status);
      var perPage := EffectivePerPage(q);
      Ok(ItemPage(RowsOf(store, Window(ids, perPage, offset)), |ids|, EffectivePage(q), perPage))
  }

  /** The offset as the handler computes it: `(page - 1) * per_page` in wrapping i64 arithmetic. */
  function WrappedOffset(q: QueueQuery): int {
    WrapI64(Skipped(EffectivePage(q), EffectivePerPage(q)))
  }

  /**
    `list_queue` as written: the offset wraps for pages beyond `i64::MAX / per_page`.
    The metadata and the ordering of the rows do not depend on the offset.
  */
  function ListQueueAsWritten(store: Store, scan: seq<string>, q: QueueQuery, fault: Option<string>): (r: Result<ItemPage, AppError>)
    requires IsScan(store, scan) && ValidQuery(q)
    ensures fault.Some? ==> r == Err(Db(fault.value))
    ensures fault.None? ==> r.Ok?
    ensures r.Ok? ==> r.value.page == EffectivePage(q) && r.value.perPage == EffectivePerPage(q)
    ensures r.Ok? ==> r.value.total == CountWhere(store, StatusFilter(q.status))
    ensures r.Ok? ==> AllMatch(store, q.status, r.value.data) && InListOrder(r.value.data)
    ensures r.Ok? ==> |r.value.data| <= r.value.perPage
  {
    var ids := Listing(store, scan, q.status);
    PageRows(store, q.status, ids, EffectivePerPage(q), WrappedOffset(q));
    WindowFacts(ids, EffectivePerPage(q), WrappedOffset(q));
    ListAt(store, scan, q, WrappedOffset(q), fault)
  }

  /** Whenever `(page - 1) * per_page` fits in an i64, the handler as written is the corrected one. */
  lemma AsWrittenAgreesWithoutWrap(store: Store, scan: seq<string>, q: QueueQuery, fault: Option<string>)
    requires IsScan(store, scan) && ValidQuery(q)
    requires IsI64(Skipped(EffectivePage(q), EffectivePerPage(q)))
    ensures ListQueueAsWritten(store, scan, q, fault) == ListQueue(store, scan, q, fault)
  {
    assert WrappedOffset(q) == Skipped(EffectivePage(q), EffectivePerPage(q));
  }

  /**
    When the offset wraps to a negative number, SQLite starts at row 0: the
    handler as written returns the rows of the first page, whichever page
    was asked for, while still reporting the page asked for.
  */
  lemma NegativeWrapIsFirstPage(store: Store, scan: seq<string>, q: QueueQuery)
    requires IsScan(store, scan) && ValidQuery(q)
    requires WrappedOffset(q) < 0
    ensures EffectivePage(q) > 1
    ensures ListQueueAsWritten(store, scan, q, None).value.data
         == ListQueue(store, scan, q.(page := Some(1)), None).value.data
    ensures ListQueueAsWritten(store, scan, q, None).value.page == EffectivePage(q)
  {
    FirstPageDoesNotWrap(q);
    var n := EffectivePerPage(q);
    var ids := Listing(store, scan, q.status);
    AsWrittenData(store, scan, q);
    assert Window(ids, n, WrappedOffset(q)) == Window(ids, n, 0);
    PageData(store, scan, q, 1);
  }

  /** The first page's offset is 0, which needs no wrapping. */
  lemma FirstPageDoesNotWrap(q: QueueQuery)
    requires ValidQuery(q)
    ensures EffectivePage(q) == 1 ==> WrappedOffset(q) == 0
  {
    if EffectivePage(q) == 1 {
      assert Skipped(1, EffectivePerPage(q)) == 0;
    }
  }

  /** The rows the handler as written returns: the listing's window at the wrapped offset. */
  lemma AsWrittenData(store: Store, scan: seq<string>, q: QueueQuery)
    requires IsScan(store, scan) && ValidQuery(q)
    ensures ListQueueAsWritten(store, scan, q, None).value.data
         == RowsOf(store, Window(Listing(store, scan, q.status), EffectivePerPage(q), WrappedOffset(q)))
  {
  }

  /**
    `list_queue` with the offset computed without overflow: a page of at most
    `per_page` matching rows, sorted by priority then added time, preceded in
    the listing by exactly `(page - 1) * per_page` rows.
  */
  function ListQueue(store: Store, scan: seq<string>, q: QueueQuery, fault: Option<string>): (r: Result<ItemPage, AppError>)
    requires IsScan(store, scan) && ValidQuery(q)
    ensures fault.Some? ==> r == Err(Db(fault.value))
    ensures fault.None? ==> r.Ok?
    ensures r.Ok? ==> r.value.page == EffectivePage(q) && r.value.perPage == EffectivePerPage(q)
    ensures r.Ok? ==> r.value.total == CountWhere(store, StatusFilter(q.status))
    ensures r.Ok? ==> AllMatch(store, q.status, r.value.data)
    ensures r.Ok? ==> InListOrder(r.value.data)
    ensures r.Ok? ==> var skip := Skipped(r.value.page, r.value.perPage);
      |r.value.data| == (if skip >= r.value.total then 0
                         else if r.value.total - skip < r.value.perPage then r.value.total - skip
                         else r.value.perPage)
  {
    var n := EffectivePerPage(q);
    var offset := Skipped(EffectivePage(q), n);
    var ids := Listing(store, scan, q.status);
    PageRows(store, q.status, ids, n, offset);
    WindowFacts(ids, n, offset);
    ListAt(store, scan, q, offset, fault)
  }

  /** The number of rows before page `page`. */
  function Skipped(page: int, perPage: int): (r: int)
    requires page >= 1 && perPage >= 1
    ensures r >= 0
  {
    (page - 1) * perPage
  }

  /** The rows of page `p`: the window of the ordered listing that starts after `(p - 1) * per_page` rows. */
  lemma PageData(store: Store, scan: seq<string>, q: QueueQuery, p: int)
    requires IsScan(store, scan) && ValidQuery(q) && p >= 1 && IsI64(p)
    ensures var n := EffectivePerPage(q);
      ListQueue(store, scan, q.(page := Some(p)), None).value.data
        == RowsOf(store, Window(Listing(store, scan, q.status), n, Skipped(p, n)))
  {
    var q1 := q.(page := Some(p));
    assert EffectivePerPage(q1) == EffectivePerPage(q) && EffectivePage(q1) == p;
  }

  /**
    Pages tile the listing: the rows of page `p` followed by those of page
    `p + 1` are the double-size window at page `p`'s offset, so no row is
    skipped or repeated between them (with `PageData`, for `ListQueue`).
  */
  lemma ConsecutivePages(store: Store, ids: seq<string>, n: int, p: int)
    requires p >= 1 && n >= 1
    ensures RowsOf(store, Window(ids, n, Skipped(p, n))) + RowsOf(store, Window(ids, n, Skipped(p + 1, n)))
      == RowsOf(store, Window(ids, 2 * n, Skipped(p, n)))
  {
    var a := Window(ids, n, Skipped(p, n));
    var b := Window(ids, n, Skipped(p + 1, n));
    SkippedNext(p, n);
    WindowSplit(ids, n, Skipped(p, n));
    RowsOfAppend(store, a, b);
  }

  lemma SkippedNext(p: int, n: int)
    requires p >= 1 && n >= 1
    ensures Skipped(p + 1, n) == Skipped(p, n) + n
  {
  }

  /** A one-row table. */
  function Single(it: Item): Store {
    map[it.id := it]
  }

  /**
    The wrap-around: page 2^62 with 4 rows per page computes the offset
    (2^62 - 1) * 4 = 2^64 - 4, which wraps to -4; SQLite reads a negative
    offset as 0, so the handler returns the first page instead of an empty one.
  */
  lemma OffsetWrapReturnsFirstPage(it: Item)
    ensures var q := QueueQuery(None, Some(0x4000_0000_0000_0000), Some(4));
      WrappedOffset(q) == -4
      && ListQueueAsWritten(Single(it), [it.id], q, None).value.data == [it]
      && ListQueue(Single(it), [it.id], q, None).value.data == []
  {
    var q := QueueQuery(None, Some(0x4000_0000_0000_0000), Some(4));
    assert Skipped(EffectivePage(q), EffectivePerPage(q)) == 0xFFFF_FFFF_FFFF_FFFC;
    assert WrappedOffset(q) == -4;
    var ids := Listing(Single(it), [it.id], None);
    assert it.id in ids;
    assert |ids| == 1;
    assert ids == [it.id];
    assert Window(ids, 4, -4) == ids;
    assert RowsOf(Single(it), ids) == [it] + RowsOf(Single(it), []);
    assert Window(ids, 4, 0xFFFF_FFFF_FFFF_FFFC) == [];
  }

  // ---------------------------------------------------------------------------
  // POST /api/queue

  /** An existing item with the same pid that is queued or downloading blocks a new one. */
  predicate Blocks(it: Item, pid: string) {
    it.pid == pid && (it.status == Queued || it.status == Downloading)
  }

  predicate PidActive(store: Store, pid: string) {
    exists k :: k in store && Blocks(store[k], pid)
  }

  /** The row `add_to_queue` inserts; columns it does not bind take their NULL / zero defaults. */
  function NewItem(req: AddQueueItemRequest, id: string, userId: string, now: int): Item {
    Item(id, req.pid, req.title, req.series, req.episode, req.channel, req.mediaType,
         req.thumbnailUrl, now, req.scheduledAt, req.priority, Queued, None, None, None,
         None, 0.0, None, None, None, req.quality, req.subtitles, "{}", userId)
  }

  const UniqueViolation := "UNIQUE constraint failed: queue_items.id"

  /**
    `add_to_queue`. Statements: 0 the duplicate check, 1 the insert (which
    also fails when `newId` is taken), 2 the read-back.
  */
  function AddToQueue(store: Store, req: AddQueueItemRequest, userId: string, newId: string, now: int, fault: Option<Fault>): (r: Reply<Item>)
    ensures r.result == Err(Conflict("PID " + req.pid + " is already queued"))
        <==> !FailsAt(fault, 0) && PidActive(store, req.pid)
    ensures r.result.Ok? <==>
      !FailsAt(fault, 0) && !FailsAt(fault, 1) && !FailsAt(fault, 2) && !PidActive(store, req.pid) && newId !in store
    ensures r.result.Ok? ==>
      var it := r.result.value;
      it.id == newId && it.pid == req.pid && it.status == Queued && it.addedAt == now
      && it.scheduledAt == req.scheduledAt && it.priority == req.priority && it.userId == userId
      && it.startedAt.None? && it.completedAt.None? && it.error.None? && it.outputPath.None?
      && r.store == store[newId := it]
      && r.events == [ItemAdded(it)]
      && (r.submitted == [newId] <==> req.scheduledAt.None?)
      && (r.submitted == [] <==> req.scheduledAt.Some?)
    ensures r.result.Err? ==> r.events == [] && r.submitted == []
    ensures r.result.Err? && !FailsAt(fault, 2) ==> r.store == store
    ensures r.deleted == []
  {
    if FailsAt(fault, 0) then Rejected(store, Db(fault.value.detail))
    else if PidActive(store, req.pid) then Rejected(store, Conflict("PID " + req.pid + " is already queued"))
    else if FailsAt(fault, 1) then Rejected(store, Db(fault.value.detail))
    else if newId in store then Rejected(store, Db(UniqueViolation))
    else
      var it := NewItem(req, newId, userId, now);
      var after := store[newId := it];
      if FailsAt(fault, 2) then Reply(Err(Db(fault.value.detail)), after, [], [], [])
      else Reply(Ok(it), after, [ItemAdded(it)], if req.scheduledAt.None? then [newId] else [], [])
  }

  /** Adding the same pid twice in a row: the second request is a conflict. */
  lemma AddTwiceConflicts(store: Store, req: AddQueueItemRequest, u: string, id1: string, id2: string, now1: int, now2: int)
    requires AddToQueue(store, req, u, id1, now1, None).result.Ok?
    ensures var s1 := AddToQueue(store, req, u, id1, now1, None).store;
      AddToQueue(s1, req, u, id2, now2, None).result == Err(Conflict("PID " + req.pid + " is already queued"))
  {
    var s1 := AddToQueue(store, req, u, id1, now1, None).store;
    assert Blocks(s1[id1], req.pid);
  }

  /** Items with the pid that are done, failed or cancelled do not block a new request. */
  lemma FinishedItemsDoNotBlock(store: Store, req: AddQueueItemRequest, u: string, id: string, now: int)
    requires forall k :: k in store && store[k].pid == req.pid ==> store[k].status in {Done, Failed, Cancelled}
    requires id !in store
    ensures AddToQueue(store, req, u, id, now, None).result.Ok?
  {
  }

  // ---------------------------------------------------------------------------
  // DELETE /api/queue/:id

  /** The output file a removal deletes: a present, non-empty path. */
  function OutputFile(it: Item): seq<string> {
    if it.outputPath.Some? && it.outputPath.value != "" then [it.outputPath.value] else []
  }

  /**
    `remove_from_queue`. Statements: 0 the read, 1 the update (downloading)
    or the delete (anything else); the output file goes before the delete.
  */
  function RemoveFromQueue(store: Store, id: string, fault: Option<Fault>): (r: Reply<int>)
    ensures !FailsAt(fault, 0) && id !in store ==> r == Rejected(store, NotFound)
    ensures r.result.Ok? <==> !FailsAt(fault, 0) && !FailsAt(fault, 1) && id in store
    ensures r.result.Ok? ==> r.result.value == NoContent && r.events == [ItemRemoved(id)] && r.submitted == []
    ensures r.result.Ok? && store[id].status == Downloading ==>
      r.store == store[id := store[id].(status := Cancelled)] && r.deleted == []
    ensures r.result.Ok? && store[id].status != Downloading ==>
      r.store == store - {id} && r.deleted == OutputFile(store[id])
    ensures r.result.Err? ==> r.store == store && r.events == []
  {
    if FailsAt(fault, 0) then Rejected(store, Db(fault.value.detail))
    else if id !in store then Rejected(store, NotFound)
    else
      var it := store[id];
      if it.status == Downloading then
        if FailsAt(fault, 1) then Rejected(store, Db(fault.value.detail))
        else Reply(Ok(NoContent), store[id := it.(status := Cancelled)], [ItemRemoved(id)], [], [])
      else
        if FailsAt(fault, 1) then Reply(Err(Db(fault.value.detail)), store, [], [], OutputFile(it))
        else Reply(Ok(NoContent), store - {id}, [ItemRemoved(id)], [], OutputFile(it))
  }

  // ---------------------------------------------------------------------------
  // POST /api/queue/:id/retry

  /** The columns a retry resets. */
  function ResetForRetry(it: Item): Item {
    it.(status := Queued, error := None, progress := 0.0, startedAt := None, completedAt := None)
  }

  /**
    `retry_queue_item`. Statements: 0 the conditional reset (only failed or
    cancelled rows), 1 the read-back. Any existing item is submitted, reset or not.
  */
  function Retry(store: Store, id: string, fault: Option<Fault>): (r: Reply<Item>)
    ensures r.result.Ok? <==> !FailsAt(fault, 0) && !FailsAt(fault, 1) && id in store
    ensures !FailsAt(fault, 0) && !FailsAt(fault, 1) && id !in store ==> r.result == Err(NotFound)
    ensures r.result.Ok? ==> r.submitted == [id] && id in r.store && r.result.value == r.store[id]
    ensures r.result.Err? ==> r.submitted == []
    ensures r.events == [] && r.deleted == []
    ensures !FailsAt(fault, 0) && id in store && store[id].status in {Failed, Cancelled} ==>
      r.store == store[id := ResetForRetry(store[id])]
    ensures FailsAt(fault, 0) || id !in store || store[id].status !in {Failed, Cancelled} ==> r.store == store
  {
    if FailsAt(fault, 0) then Rejected(store, Db(fault.value.detail))
    else
      var after := if id in store && store[id].status in {Failed, Cancelled} then store[id := ResetForRetry(store[id])] else store;
      if FailsAt(fault, 1) then Reply(Err(Db(fault.value.detail)), after, [], [], [])
      else if id !in after then Reply(Err(NotFound), after, [], [], [])
      else Reply(Ok(after[id]), after, [], [id], [])
  }

  // ---------------------------------------------------------------------------
  // POST /api/queue/reorder

  datatype ReorderEntry = ReorderEntry(id: string, priority: int)

  /** One `UPDATE queue_items SET priority=? WHERE id=?`: a no-op for an unknown id. */
  function SetPriority(store: Store, e: ReorderEntry): (r: Store)
    ensures r.Keys == store.Keys
  {
    if e.id in store then store[e.id := store[e.id].(priority := e.priority)] else store
  }

  /** The updates applied in list order. */
  function ApplyReorder(store: Store, entries: seq<ReorderEntry>): (r: Store)
    ensures r.Keys == store.Keys
  {
    if |entries| == 0 then store else ApplyReorder(SetPriority(store, entries[0]), entries[1..])
  }

  /** The priority the last entry for `id` asks for, if any: the reference for what a reorder does. */
  function LastPriority(entries: seq<ReorderEntry>, id: string): Option<int> {
    if |entries| == 0 then None
    else if entries[|entries| - 1].id == id then Some(entries[|entries| - 1].priority)
    else LastPriority(entries[..|entries| - 1], id)
  }

  lemma {:induction false} LastPriorityCons(e: ReorderEntry, rest: seq<ReorderEntry>, id: string)
    ensures LastPriority([e] + rest, id) ==
      if LastPriority(rest, id).Some? then LastPriority(rest, id)
      else if e.id == id then Some(e.priority) else None
    decreases |rest|
  {
    if |rest| > 0 {
      assert ([e] + rest)[..|rest|] == [e] + rest[..|rest| - 1];
      LastPriorityCons(e, rest[..|rest| - 1], id);
    } else {
      assert [e] + rest == [e];
    }
  }

  /**
    A reorder sets each listed row's priority to the last value given for it;
    unknown ids and unlisted rows are untouched, and nothing but the priority changes.
  */
  lemma {:induction false} ReorderLastWins(store: Store, entries: seq<ReorderEntry>)
    ensures forall k :: k in store ==>
      ApplyReorder(store, entries)[k] ==
        if LastPriority(entries, k).Some? then store[k].(priority := LastPriority(entries, k).value) else store[k]
    decreases |entries|
  {
    if |entries| > 0 {
      var e := entries[0];
      var rest := entries[1..];
      assert entries == [e] + rest;
      ReorderLastWins(SetPriority(store, e), rest);
      forall k | k in store
        ensures ApplyReorder(store, entries)[k] ==
          if LastPriority(entries, k).Some? then store[k].(priority := LastPriority(entries, k).value) else store[k]
      {
        LastPriorityCons(e, rest, k);
      }
    }
  }

  /**
    `reorder_queue`: statement `k` is the update for entry `k`. A failure
    stops the loop; the updates before it stay applied.
  */
  function Reorder(store: Store, entries: seq<ReorderEntry>, fault: Option<Fault>): (r: Reply<int>)
    ensures fault.None? || fault.value.step >= |entries| ==> r.result == Ok(NoContent) && r.store == ApplyReorder(store, entries)
    ensures fault.Some? && fault.value.step < |entries| ==>
      r.result == Err(Db(fault.value.detail)) && r.store == ApplyReorder(store, entries[..fault.value.step])
    ensures r.events == [] && r.submitted == [] && r.deleted == []
  {
    if fault.Some? && fault.value.step < |entries| then
      Reply(Err(Db(fault.value.detail)), ApplyReorder(store, entries[..fault.value.step]), [], [], [])
    else Reply(Ok(NoContent), ApplyReorder(store, entries), [], [], [])
  }
}
