/**
  The `settings` table (key → value with an update time) and its four
  handlers: list ordered by key, get, upsert, and bulk upsert.
*/
module Settings {
  import opened Wrappers
  import opened Text
  import opened Errors
  import opened QueueTable

  datatype Setting = Setting(key: string, value: string, updatedAt: int)

  /** The table, keyed by its primary key. */
  type Table = map<string, Setting>

  /** Every row is stored under its own key (the primary-key constraint). */
  ghost predicate WellKeyed(t: Table) {
    forall k :: k in t ==> t[k].key == k
  }

  /** A handler's result together with the table it leaves behind. */
  datatype Outcome<T> = Outcome(result: Result<T, AppError>, table: Table)

  /** `INSERT … ON CONFLICT(key) DO UPDATE`: the row for `key` is (re)written, no other row changes. */
  function Upsert(t: Table, key: string, value: string, now: int): (r: Table)
    ensures key in r && r[key] == Setting(key, value, now)
    ensures r.Keys == t.Keys + {key}
    ensures forall k :: k in t && k != key ==> r[k] == t[k]
    ensures WellKeyed(t) ==> WellKeyed(r)
  {
    t[key := Setting(key, value, now)]
  }

  /**
    `GET /api/settings/:key`. `readError` is the driver's message when the
    SELECT itself fails, which the handler's `?` turns into a database error.
  */
  function GetSetting(t: Table, key: string, readError: Option<string>): (r: Result<Setting, AppError>)
    ensures readError.Some? ==> r == Err(Db(readError.value))
    ensures readError.None? ==> (r.Err? <==> key !in t)
    ensures readError.None? && r.Err? ==> r.error == NotFound
    ensures r.Ok? ==> key in t && r.value == t[key]
  {
    match readError
    case Some(e) => Err(Db(e))
    case None => if key in t then Ok(t[key]) else Err(NotFound)
  }

  /**
    `PUT /api/settings/:key`: upsert (statement 0), then read the row back
    (statement 1). A failed upsert leaves the table as it was; a failed
    read-back still leaves the upserted row behind. Either becomes a
    database error.
  */
  function SetSetting(t: Table, key: string, value: string, now: int, fault: Option<Fault>): (r: Outcome<Setting>)
    ensures FailsAt(fault, 0) ==> r == Outcome(Err(Db(fault.value.detail)), t)
    ensures !FailsAt(fault, 0) ==> r.table == Upsert(t, key, value, now)
    ensures FailsAt(fault, 1) ==> r.result == Err(Db(fault.value.detail))
    ensures r.result.Ok? <==> !FailsAt(fault, 0) && !FailsAt(fault, 1)
    ensures r.result.Ok? ==> r.result.value == Setting(key, value, now)
    ensures !FailsAt(fault, 0) ==> GetSetting(r.table, key, None) == Ok(Setting(key, value, now))
    ensures !FailsAt(fault, 0) ==> forall k :: k != key ==> GetSetting(r.table, k, None) == GetSetting(t, k, None)
  {
    if FailsAt(fault, 0) then Outcome(Err(Db(fault.value.detail)), t)
    else
      var t' := Upsert(t, key, value, now);
      Outcome(GetSetting(t', key, if FailsAt(fault, 1) then Some(fault.value.detail) else None), t')
  }

  /** Setting a key twice keeps only the second write. */
  lemma SetSettingLastWins(t: Table, key: string, v1: string, v2: string, n1: int, n2: int)
    ensures SetSetting(SetSetting(t, key, v1, n1, None).table, key, v2, n2, None)
         == SetSetting(t, key, v2, n2, None)
  {
    assert Upsert(Upsert(t, key, v1, n1), key, v2, n2) == Upsert(t, key, v2, n2);
  }

  /**
    The table after every key of `updates` has been upserted, all with the
    same time: an independent statement of what the bulk handler computes.
  */
  function UpsertAll(t: Table, updates: map<string, string>, now: int): (r: Table)
    ensures r.Keys == t.Keys + updates.Keys
  {
    map k | k in t.Keys + updates.Keys :: if k in updates then Setting(k, updates[k], now) else t[k]
  }

  /** The part of `updates` whose keys are among `keys`. */
  function Restrict(updates: map<string, string>, keys: seq<string>): (r: map<string, string>)
    ensures forall k :: k in r <==> k in updates && k in keys
    ensures forall k :: k in r ==> r[k] == updates[k]
  {
    map k | k in updates && k in keys :: updates[k]
  }

  /**
    `PATCH /api/settings`: one upsert per entry of the body, in the map's
    iteration order `order`. Statement `failAt` (if any) fails and returns
    the error; the upserts before it stay applied.
  */
  method BulkUpdate(t: Table, updates: map<string, string>, order: seq<string>, now: int, failAt: nat, dbError: string)
    returns (result: Result<int, AppError>, r: Table)
    requires forall k :: k in updates <==> k in order
    ensures failAt >= |order| ==> result == Ok(204) && r == UpsertAll(t, updates, now)
    ensures failAt < |order| ==> result == Err(Db(dbError)) && r == UpsertAll(t, Restrict(updates, order[..failAt]), now)
    ensures WellKeyed(t) ==> WellKeyed(r)
  {
    r := t;
    var i := 0;
    while i < |order| && i != failAt
      invariant 0 <= i <= |order|
      invariant i <= failAt
      invariant r == UpsertAll(t, Restrict(updates, order[..i]), now)
    {
      var k := order[i];
      BulkStep(t, updates, order, i, now);
      r := Upsert(r, k, updates[k], now);
      i := i + 1;
    }
    if i < |order| {
      result := Err(Db(dbError));
    } else {
      RestrictToAll(updates, order);
      result := Ok(204);
    }
    UpsertAllWellKeyed(t, Restrict(updates, order[..i]), now);
  }

  /** One more statement of the bulk update. */
  lemma BulkStep(t: Table, updates: map<string, string>, order: seq<string>, i: nat, now: int)
    requires i < |order| && order[i] in updates
    ensures UpsertAll(t, Restrict(updates, order[..i + 1]), now)
         == Upsert(UpsertAll(t, Restrict(updates, order[..i]), now), order[i], updates[order[i]], now)
  {
    var k := order[i];
    RestrictStep(updates, order[..i], k);
    assert order[..i + 1] == order[..i] + [k];
    UpsertAllStep(t, Restrict(updates, order[..i]), k, updates[k], now);
  }

  lemma RestrictToAll(updates: map<string, string>, order: seq<string>)
    requires forall k :: k in updates <==> k in order
    ensures Restrict(updates, order[..|order|]) == updates
  {
    assert order[..|order|] == order;
  }

  lemma UpsertAllWellKeyed(t: Table, updates: map<string, string>, now: int)
    ensures WellKeyed(t) ==> WellKeyed(UpsertAll(t, updates, now))
  {
  }

  lemma RestrictStep(updates: map<string, string>, keys: seq<string>, k: string)
    requires k in updates
    ensures Restrict(updates, keys + [k]) == Restrict(updates, keys)[k := updates[k]]
  {
  }

  lemma UpsertAllStep(t: Table, m: map<string, string>, k: string, v: string, now: int)
    ensures UpsertAll(t, m[k := v], now) == Upsert(UpsertAll(t, m, now), k, v, now)
  {
  }

  /** The bulk update writes every key of the body and leaves the other rows alone. */
  lemma UpsertAllFrame(t: Table, updates: map<string, string>, now: int)
    ensures forall k :: k in updates ==> GetSetting(UpsertAll(t, updates, now), k, None) == Ok(Setting(k, updates[k], now))
    ensures forall k :: k !in updates ==> GetSetting(UpsertAll(t, updates, now), k, None) == GetSetting(t, k, None)
  {
  }

  /** The smallest key of a non-empty set. */
  method MinKey(keys: set<string>) returns (m: string)
    requires keys != {}
    ensures m in keys
    ensures forall k :: k in keys && k != m ==> LexLess(m, k)
  {
    m :| m in keys;
    var rest := keys - {m};
    while rest != {}
      invariant m in keys && m !in rest && rest <= keys
      invariant forall k :: k in keys && k !in rest && k != m ==> LexLess(m, k)
      decreases |rest|
    {
      var k :| k in rest;
      if LexLess(k, m) {
        forall o | o in keys && o !in rest && o != m
          ensures LexLess(k, o)
        {
          LexLessTransitive(k, m, o);
        }
        m := k;
      } else {
        LexLessTotal(k, m);
      }
      rest := rest - {k};
    }
  }

  /**
    `GET /api/settings`: every row exactly once, ordered by key, or a
    database error when the SELECT fails (`readError`).
  */
  method ListSettings(t: Table, readError: Option<string>) returns (r: Result<seq<Setting>, AppError>)
    requires WellKeyed(t)
    ensures readError.Some? ==> r == Err(Db(readError.value))
    ensures readError.None? ==> r.Ok?
    ensures r.Ok? ==> |r.value| == |t|
    ensures r.Ok? ==> forall i, j :: 0 <= i < j < |r.value| ==> LexLess(r.value[i].key, r.value[j].key)
    ensures r.Ok? ==> forall s :: s in r.value <==> s in t.Values
  {
    if readError.Some? {
      r := Err(Db(readError.value));
    } else {
      var rows := KeyOrder(t);
      r := Ok(rows);
    }
  }

  /** `ORDER BY key` over the whole table: every row exactly once, ordered by key. */
  method KeyOrder(t: Table) returns (rows: seq<Setting>)
    requires WellKeyed(t)
    ensures |rows| == |t|
    ensures forall i, j :: 0 <= i < j < |rows| ==> LexLess(rows[i].key, rows[j].key)
    ensures forall s :: s in rows <==> s in t.Values
  {
    var left := t.Keys;
    rows := [];
    while left != {}
      invariant left <= t.Keys
      invariant |rows| + |left| == |t.Keys|
      invariant forall i :: 0 <= i < |rows| ==> rows[i].key in t && rows[i] == t[rows[i].key] && rows[i].key !in left
      invariant forall i, j :: 0 <= i < j < |rows| ==> LexLess(rows[i].key, rows[j].key)
      invariant forall i, k :: 0 <= i < |rows| && k in left ==> LexLess(rows[i].key, k)
      invariant forall k :: k in t.Keys - left ==> exists i :: 0 <= i < |rows| && rows[i].key == k
      decreases |left|
    {
      var k := MinKey(left);
      ghost var prev, prevLeft := rows, left;
      rows := rows + [t[k]];
      left := left - {k};
      forall o | o in t.Keys - left
        ensures exists i :: 0 <= i < |rows| && rows[i].key == o
      {
        if o == k {
          assert rows[|rows| - 1].key == o;
        } else {
          assert o in t.Keys - prevLeft;
          var i :| 0 <= i < |prev| && prev[i].key == o;
          assert rows[i].key == o;
        }
      }
    }
    assert |t| == |t.Keys|;
    forall s | s in t.Values
      ensures s in rows
    {
      var k :| k in t && t[k] == s;
      assert k in t.Keys - left;
      var i :| 0 <= i < |rows| && rows[i].key == k;
    }
  }
}
