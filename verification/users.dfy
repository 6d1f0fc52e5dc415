/**
  The user-management handlers: create, delete, change password, and the
  public view of a user. The users table is a sequence of rows in table
  order; password hashing is a parameter (its outcome), as are the
  statements that may fail.
*/
module Users {
  import opened Wrappers
  import opened Text
  import opened Errors
  import opened Models
  import opened Seqs
  import opened QueueTable
  import opened Auth

  /** `UserView`: what the API shows of a user. */
  datatype UserView = UserView(id: string, username: string, createdAt: int)

  function View(u: User): (v: UserView)
    ensures v.id == u.id && v.username == u.username && v.createdAt == u.createdAt
  {
    UserView(u.id, u.username, u.createdAt)
  }

  /** The view never depends on the password hash (or the update time). */
  lemma ViewHidesPassword(u: User, password: string, updatedAt: int)
    ensures View(u.(password := password, updatedAt := updatedAt)) == View(u)
  {
  }

  /**
    `GET /api/users`: every user's view, oldest first, or a database error
    when the SELECT fails (`readError`).
  */
  function ListUsers(users: seq<User>, readError: Option<string>): (r: Result<seq<UserView>, AppError>)
    ensures readError.Some? ==> r == Err(Db(readError.value))
    ensures readError.None? ==> r.Ok?
    ensures r.Ok? ==> |r.value| == |users|
    ensures r.Ok? ==> forall i, j :: 0 <= i < j < |r.value| ==> r.value[i].createdAt <= r.value[j].createdAt
    ensures r.Ok? ==> multiset(r.value) == multiset(seq(|users|, i requires 0 <= i < |users| => View(users[i])))
  {
    match readError
    case Some(e) => Err(Db(e))
    case None => Ok(ByAge(users))
  }

  /** `ORDER BY created_at` over the views: a permutation sorted by creation time. */
  function ByAge(users: seq<User>): (r: seq<UserView>)
    ensures |r| == |users|
    ensures forall i, j :: 0 <= i < j < |r| ==> r[i].createdAt <= r[j].createdAt
    ensures multiset(r) == multiset(seq(|users|, i requires 0 <= i < |users| => View(users[i])))
  {
    var views := seq(|users|, i requires 0 <= i < |users| => View(users[i]));
    var sorted := SortBy(views, CreatedRank);
    assert |multiset(sorted)| == |multiset(views)|;
    assert forall i, j :: 0 <= i < j < |sorted| ==> RankLe(CreatedRank(sorted[i]), CreatedRank(sorted[j]));
    sorted
  }

  function CreatedRank(v: UserView): Rank {
    Rank(v.createdAt, 0)
  }

  const MinPasswordBytes := 8
  const EmptyUsername := "username cannot be empty"
  const ShortPassword := "password must be at least 8 characters"

  datatype CreateUserRequest = CreateUserRequest(username: string, password: string)

  /** A handler's result with the table it leaves. */
  datatype Outcome<T> = Outcome(result: Result<T, AppError>, users: seq<User>)

  const Created := 201
  const NoContent := 204

  /**
    `create_user`. `hash` is the outcome of hashing the password; statements:
    0 the duplicate check, 1 the insert, 2 the read-back.
  */
  function CreateUser(users: seq<User>, req: CreateUserRequest, newId: string, hash: Result<string, string>, now: int, fault: Option<Fault>): (r: Outcome<(int, UserView)>)
    ensures Trim(req.username) == "" ==> r == Outcome(Err(BadRequest(EmptyUsername)), users)
    ensures Trim(req.username) != "" && Utf8Len(req.password) < MinPasswordBytes ==>
      r == Outcome(Err(BadRequest(ShortPassword)), users)
    ensures r.result.Err? && r.result.error.Conflict? <==>
      Trim(req.username) != "" && Utf8Len(req.password) >= MinPasswordBytes && !FailsAt(fault, 0)
      && FindUser(users, WithName(req.username)).Some?
    ensures r.result.Err? && r.result.error.Conflict? ==>
      r.result.error.message == "username '" + req.username + "' already exists" && r.users == users
    ensures r.result.Ok? ==>
      hash.Ok? && r.result.value == (Created, UserView(newId, req.username, now))
      && r.users == users + [User(newId, req.username, hash.value, now, now)]
    ensures r.result.Ok? <==>
      Trim(req.username) != "" && Utf8Len(req.password) >= MinPasswordBytes
      && FindUser(users, WithName(req.username)).None? && hash.Ok?
      && !FailsAt(fault, 0) && !FailsAt(fault, 1) && !FailsAt(fault, 2)
  {
    if Trim(req.username) == "" then Outcome(Err(BadRequest(EmptyUsername)), users)
    else if Utf8Len(req.password) < MinPasswordBytes then Outcome(Err(BadRequest(ShortPassword)), users)
    else if FailsAt(fault, 0) then Outcome(Err(Db(fault.value.detail)), users)
    else if FindUser(users, WithName(req.username)).Some? then
      Outcome(Err(Conflict("username '" + req.username + "' already exists")), users)
    else match hash
      case Err(m) => Outcome(Err(Internal(m)), users)
      case Ok(h) =>
        if FailsAt(fault, 1) then Outcome(Err(Db(fault.value.detail)), users)
        else
          var u := User(newId, req.username, h, now, now);
          var after := users + [u];
          if FailsAt(fault, 2) then Outcome(Err(Db(fault.value.detail)), after)
          else Outcome(Ok((Created, View(u))), after)
  }

  /** A created user can log in with the name exactly as given (it is not trimmed). */
  lemma CreatedUserIsFound(users: seq<User>, req: CreateUserRequest, newId: string, hash: Result<string, string>, now: int)
    requires CreateUser(users, req, newId, hash, now, None).result.Ok?
    ensures FindUser(CreateUser(users, req, newId, hash, now, None).users, WithName(req.username))
         == Some(User(newId, req.username, hash.value, now, now))
  {
    var after := CreateUser(users, req, newId, hash, now, None).users;
    FindAppended(users, User(newId, req.username, hash.value, now, now), WithName(req.username));
  }

  lemma {:induction false} FindAppended(users: seq<User>, u: User, f: User -> bool)
    requires FindUser(users, f).None? && f(u)
    ensures FindUser(users + [u], f) == Some(u)
  {
    if |users| > 0 {
      assert (users + [u])[1..] == users[1..] + [u];
      assert (users + [u])[0] == users[0];
      FindAppended(users[1..], u, f);
    } else {
      assert users + [u] == [u];
    }
  }

  /** Deleting a row by id; the result counts the rows deleted. */
  function DeleteWhere(users: seq<User>, id: string): (r: seq<User>)
    ensures forall u :: u in r <==> u in users && u.id != id
  {
    Filter(users, (u: User) => u.id != id)
  }

  /** `delete_user`. Statement 0 is the delete. */
  function DeleteUser(users: seq<User>, caller: User, id: string, fault: Option<Fault>): (r: Outcome<int>)
    ensures caller.id == id ==> r == Outcome(Err(BadRequest("cannot delete yourself")), users)
    ensures caller.id != id && !FailsAt(fault, 0) && FindUser(users, WithId(id)).None? ==>
      r == Outcome(Err(NotFound), users)
    ensures r.result.Ok? <==> caller.id != id && !FailsAt(fault, 0) && FindUser(users, WithId(id)).Some?
    ensures r.result.Ok? ==> r.result.value == NoContent && r.users == DeleteWhere(users, id)
    ensures forall u :: u in r.users ==> u in users
    ensures r.result.Ok? ==> FindUser(r.users, WithId(id)).None?
  {
    if caller.id == id then Outcome(Err(BadRequest("cannot delete yourself")), users)
    else if FailsAt(fault, 0) then Outcome(Err(Db(fault.value.detail)), users)
    else
      var after := DeleteWhere(users, id);
      if |after| == |users| then
        NothingDeleted(users, id);
        Outcome(Err(NotFound), users)
      else
        SomethingDeleted(users, id);
        Outcome(Ok(NoContent), after)
  }

  lemma NothingDeleted(users: seq<User>, id: string)
    requires |DeleteWhere(users, id)| == |users|
    ensures FindUser(users, WithId(id)).None?
  {
    var after := DeleteWhere(users, id);
    if FindUser(users, WithId(id)).Some? {
      FilterDropsFailing(users, (u: User) => u.id != id);
    }
  }

  lemma SomethingDeleted(users: seq<User>, id: string)
    requires |DeleteWhere(users, id)| != |users|
    ensures FindUser(users, WithId(id)).Some?
  {
    if FindUser(users, WithId(id)).None? {
      FilterKeepsAll(users, (u: User) => u.id != id);
    }
  }

  /** A filter that rejects some element is shorter than its input. */
  lemma {:induction false} FilterDropsFailing(s: seq<User>, p: User -> bool)
    requires exists i :: 0 <= i < |s| && !p(s[i])
    ensures |Filter(s, p)| < |s|
  {
    if p(s[0]) {
      var i :| 0 <= i < |s| && !p(s[i]);
      assert s[1..][i - 1] == s[i];
      FilterDropsFailing(s[1..], p);
    } else {
      assert |Filter(s[1..], p)| <= |s[1..]|;
    }
  }

  /** A filter that accepts every element is the identity on length. */
  lemma {:induction false} FilterKeepsAll(s: seq<User>, p: User -> bool)
    requires forall i :: 0 <= i < |s| ==> p(s[i])
    ensures |Filter(s, p)| == |s|
  {
    if |s| > 0 {
      assert forall i :: 0 <= i < |s[1..]| ==> s[1..][i] == s[i + 1];
      FilterKeepsAll(s[1..], p);
    }
  }

  /** Setting a user's password hash by id; other rows are untouched. */
  function SetPassword(users: seq<User>, id: string, hash: string, now: int): (r: seq<User>)
    ensures |r| == |users|
    ensures forall i :: 0 <= i < |users| ==>
      r[i] == if users[i].id == id then users[i].(password := hash, updatedAt := now) else users[i]
  {
    seq(|users|, i requires 0 <= i < |users| =>
      if users[i].id == id then users[i].(password := hash, updatedAt := now) else users[i])
  }

  /**
    `change_password`: only for oneself (checked first), then the length
    check, the hash (`hash` is its outcome) and statement 0, the update. A
    vanished row is not an error.
  */
  function ChangePassword(users: seq<User>, caller: User, id: string, newPassword: string, hash: Result<string, string>, now: int, fault: Option<Fault>): (r: Outcome<int>)
    ensures caller.id != id ==> r == Outcome(Err(Forbidden), users)
    ensures caller.id == id && Utf8Len(newPassword) < MinPasswordBytes ==> r == Outcome(Err(BadRequest(ShortPassword)), users)
    ensures r.result.Ok? <==> caller.id == id && Utf8Len(newPassword) >= MinPasswordBytes && hash.Ok? && !FailsAt(fault, 0)
    ensures r.result.Ok? ==> r.result.value == NoContent && r.users == SetPassword(users, id, hash.value, now)
    ensures r.result.Err? ==> r.users == users
  {
    if caller.id != id then Outcome(Err(Forbidden), users)
    else if Utf8Len(newPassword) < MinPasswordBytes then Outcome(Err(BadRequest(ShortPassword)), users)
    else match hash
      case Err(m) => Outcome(Err(Internal(m)), users)
      case Ok(h) =>
        if FailsAt(fault, 0) then Outcome(Err(Db(fault.value.detail)), users)
        else Outcome(Ok(NoContent), SetPassword(users, id, h, now))
  }

  /** Changing a password leaves every user's view as it was. */
  lemma ChangePasswordKeepsViews(users: seq<User>, caller: User, id: string, pw: string, hash: Result<string, string>, now: int, fault: Option<Fault>)
    ensures var r := ChangePassword(users, caller, id, pw, hash, now, fault);
      |r.users| == |users| && forall i :: 0 <= i < |users| ==> View(r.users[i]) == View(users[i])
  {
  }

  /**
    The length rule counts UTF-8 bytes, not characters: once the name is
    non-blank, `create_user` refuses the password as short exactly when its
    encoding has fewer than eight bytes. Such a password has fewer than
    eight characters, and for ASCII text the two counts agree.
  */
  lemma LengthCountsBytes(users: seq<User>, req: CreateUserRequest, newId: string, hash: Result<string, string>, now: int, fault: Option<Fault>)
    requires Trim(req.username) != ""
    ensures CreateUser(users, req, newId, hash, now, fault).result == Err(BadRequest(ShortPassword))
        <==> Utf8Len(req.password) < MinPasswordBytes
    ensures CreateUser(users, req, newId, hash, now, fault).result == Err(BadRequest(ShortPassword))
        ==> |req.password| < MinPasswordBytes
    ensures (forall i :: 0 <= i < |req.password| ==> (req.password[i] as int) < 0x80) ==>
      (CreateUser(users, req, newId, hash, now, fault).result == Err(BadRequest(ShortPassword))
       <==> |req.password| < MinPasswordBytes)
  {
    Utf8LenIsCountIffAscii(req.password);
  }

  /** Four two-byte characters make an eight-byte password, which the rule accepts. */
  lemma FourTwoByteChars()
    ensures Utf8Len("éééé") == MinPasswordBytes
  {
    assert Utf8Len("é") == 2;
    assert "éé"[..1] == "é";
    assert Utf8Len("éé") == 4;
    assert "ééé"[..2] == "éé";
    assert Utf8Len("ééé") == 6;
    assert "éééé"[..3] == "ééé";
  }
}
