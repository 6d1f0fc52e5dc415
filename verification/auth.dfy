/**
  Session tokens and request authentication. A token is the Base64 text of
  `user_id:timestamp:mac`, where `mac` is the hex SHA-256 of
  `secret:user_id:timestamp` (a plain keyed hash, not the HMAC construction
  of RFC 2104). SHA-256 and Base64 (section 4 of RFC 4648) are given as
  function values; Argon2 password checking is a parameter of the login.
*/
module Auth {
  import opened Wrappers
  import opened Text
  import opened Errors
  import opened Models

  /** The hash and codec the tokens rely on. Decoding includes the UTF-8 check of the decoded bytes. */
  datatype Primitives = Primitives(
    sha256Hex: string -> string,
    b64Encode: string -> string,
    b64Decode: string -> Option<string>)

  /** The Base64 alphabet with padding. */
  predicate Base64Char(c: char) {
    ('A' <= c <= 'Z') || ('a' <= c <= 'z') || ('0' <= c <= '9') || c == '+' || c == '/' || c == '='
  }

  /** What the model assumes of the primitives: decoding undoes encoding, and encodings use the Base64 alphabet. */
  ghost predicate Lawful(p: Primitives) {
    (forall t :: p.b64Decode(p.b64Encode(t)) == Some(t))
    && (forall t :: forall i :: 0 <= i < |p.b64Encode(t)| ==> Base64Char(p.b64Encode(t)[i]))
  }

  /** `hmac_sha256(secret, data)`: SHA-256 of `secret:data`, hex-encoded. */
  function KeyedHash(p: Primitives, secret: string, data: string): string {
    p.sha256Hex(secret + ":" + data)
  }

  /** The text inside a token: `uid:ts:mac` with the mac computed over `uid:ts`. */
  function TokenText(p: Primitives, secret: string, uid: string, ts: string): string {
    uid + ":" + ts + ":" + KeyedHash(p, secret, uid + ":" + ts)
  }

  /** `make_token`: `now` is the Unix time in seconds. */
  function MakeToken(p: Primitives, uid: string, secret: string, now: int): string {
    p.b64Encode(TokenText(p, secret, uid, IntToString(now)))
  }

  /** The decoded text is a token for `uid` signed with `secret`, for some colon-free timestamp text. */
  ghost predicate SignedFor(p: Primitives, secret: string, s: string, uid: string) {
    ':' !in uid && exists ts :: ':' !in ts && s == TokenText(p, secret, uid, ts)
  }

  lemma JoinThree(parts: seq<string>)
    requires |parts| == 3
    ensures Join(parts, ":") == parts[0] + ":" + parts[1] + ":" + parts[2]
  {
    assert Join(parts[1..], ":") == parts[1] + ":" + Join(parts[2..], ":");
    assert Join(parts[2..], ":") == parts[2];
  }

  /** `verify_token`: the user id of a well-formed token whose mac matches; the timestamp is never examined. */
  function VerifyToken(p: Primitives, token: string, secret: string): (r: Option<string>)
    ensures p.b64Decode(token).None? ==> r.None?
    ensures p.b64Decode(token).Some? && CountChar(p.b64Decode(token).value, ':') < 2 ==> r.None?
    ensures r.Some? ==> SignedFor(p, secret, p.b64Decode(token).value, r.value)
  {
    match p.b64Decode(token)
    case None => None
    case Some(s) =>
      var parts := SplitN(s, 3, ':');
      if |parts| != 3 then
        SplitNLength(s, 3, ':');
        None
      else if parts[2] != KeyedHash(p, secret, parts[0] + ":" + parts[1]) then None
      else
        JoinThree(parts);
        assert ':' !in parts[0] && ':' !in parts[1];
        assert s == TokenText(p, secret, parts[0], parts[1]);
        Some(parts[0])
  }

  /** Any signed text is accepted, whatever its timestamp: tokens do not expire. */
  lemma SignedTextAccepted(p: Primitives, secret: string, token: string, uid: string, ts: string)
    requires ':' !in uid && ':' !in ts
    requires p.b64Decode(token) == Some(TokenText(p, secret, uid, ts))
    ensures VerifyToken(p, token, secret) == Some(uid)
  {
    var mac := KeyedHash(p, secret, uid + ":" + ts);
    assert TokenText(p, secret, uid, ts) == uid + [':'] + ts + [':'] + mac;
    SplitNThree(uid, ts, mac, ':');
  }

  /** Verification accepts exactly the signed texts, and yields their user id. */
  lemma VerifyTokenExactly(p: Primitives, token: string, secret: string, uid: string)
    ensures VerifyToken(p, token, secret) == Some(uid)
        <==> p.b64Decode(token).Some? && SignedFor(p, secret, p.b64Decode(token).value, uid)
  {
    if p.b64Decode(token).Some? && SignedFor(p, secret, p.b64Decode(token).value, uid) {
      var ts :| ':' !in ts && p.b64Decode(token).value == TokenText(p, secret, uid, ts);
      SignedTextAccepted(p, secret, token, uid, ts);
    }
  }

  /** A token made for a colon-free user id verifies back to it under the same secret. */
  lemma TokenRoundTrip(p: Primitives, uid: string, secret: string, now: int)
    requires Lawful(p) && ':' !in uid
    ensures VerifyToken(p, MakeToken(p, uid, secret, now), secret) == Some(uid)
  {
    SignedTextAccepted(p, secret, MakeToken(p, uid, secret, now), uid, IntToString(now));
  }

  /** A user id with a colon cannot come back: verification cuts the id at its first colon. */
  lemma ColonInIdIsCut(p: Primitives, a: string, b: string, secret: string, now: int)
    requires Lawful(p) && ':' !in a
    ensures VerifyToken(p, MakeToken(p, a + ":" + b, secret, now), secret) != Some(a + ":" + b)
  {
  }

  // ---------------------------------------------------------------------------
  // Headers

  /** Header names are lower-case; a value is its raw bytes. */
  type Headers = map<string, seq<int>>

  /** The bytes `HeaderValue::to_str` accepts: visible ASCII and tab. */
  predicate Visible(b: int) {
    b == 9 || 32 <= b < 127
  }

  /** `HeaderValue::to_str`. */
  function HeaderText(v: seq<int>): (r: Option<string>)
    ensures r.Some? <==> forall i :: 0 <= i < |v| ==> Visible(v[i])
    ensures r.Some? ==> |r.value| == |v| && forall i :: 0 <= i < |v| ==> r.value[i] as int == v[i]
  {
    if forall i :: 0 <= i < |v| ==> Visible(v[i]) then
      Some(seq(|v|, i requires 0 <= i < |v| && Visible(v[i]) => v[i] as char))
    else None
  }

  /** The bytes of an ASCII text. */
  function Bytes(s: string): (r: seq<int>)
    ensures |r| == |s| && forall i :: 0 <= i < |s| ==> r[i] == s[i] as int
  {
    seq(|s|, i requires 0 <= i < |s| => s[i] as int)
  }

  /** Visible text survives the trip through header bytes. */
  lemma HeaderTextOfBytes(s: string)
    requires forall i :: 0 <= i < |s| ==> Visible(s[i] as int)
    ensures HeaderText(Bytes(s)) == Some(s)
  {
    var r := HeaderText(Bytes(s));
    assert r.Some?;
    forall i | 0 <= i < |s|
      ensures r.value[i] == s[i]
    {
      assert r.value[i] as int == s[i] as int;
    }
    assert r.value == s;
  }

  const BearerPrefix := "Bearer "

  /** `extract_bearer`: the text after an exact, case-sensitive `Bearer ` prefix of the Authorization header. */
  function ExtractBearer(h: Headers): (r: Option<string>)
    ensures r.Some? <==>
      "authorization" in h && HeaderText(h["authorization"]).Some?
      && |HeaderText(h["authorization"]).value| >= |BearerPrefix|
      && HeaderText(h["authorization"]).value[..|BearerPrefix|] == BearerPrefix
    ensures r.Some? ==> BearerPrefix + r.value == HeaderText(h["authorization"]).value
  {
    if "authorization" !in h then None
    else match HeaderText(h["authorization"])
      case None => None
      case Some(v) =>
        if |v| >= |BearerPrefix| && v[..|BearerPrefix|] == BearerPrefix then
          assert v == v[..|BearerPrefix|] + v[|BearerPrefix|..];
          Some(v[|BearerPrefix|..])
        else None
  }

  /** The token a request carries: the bearer token, else the `x-auth-token` header. */
  function TokenFromHeaders(h: Headers): (r: Option<string>)
    ensures ExtractBearer(h).Some? ==> r == ExtractBearer(h)
    ensures ExtractBearer(h).None? && "x-auth-token" in h ==> r == HeaderText(h["x-auth-token"])
    ensures ExtractBearer(h).None? && "x-auth-token" !in h ==> r.None?
  {
    match ExtractBearer(h)
    case Some(t) => Some(t)
    case None => if "x-auth-token" in h then HeaderText(h["x-auth-token"]) else None
  }

  /** A lower-case `bearer` scheme is not recognised; the request falls back to `x-auth-token`. */
  lemma LowercaseBearerFallsBack(t1: string, t2: string)
    requires forall i :: 0 <= i < |t2| ==> Visible(t2[i] as int)
    ensures var h := map["authorization" := Bytes("bearer " + t1), "x-auth-token" := Bytes(t2)];
      TokenFromHeaders(h) == Some(t2)
  {
    var h := map["authorization" := Bytes("bearer " + t1), "x-auth-token" := Bytes(t2)];
    var a := HeaderText(h["authorization"]);
    if a.Some? && |a.value| >= |BearerPrefix| {
      assert a.value[0] as int == 'b' as int;
      assert a.value[..|BearerPrefix|][0] != BearerPrefix[0];
    }
    HeaderTextOfBytes(t2);
  }

  /** The first row (in table order) satisfying `f`, as `fetch_optional` returns it. */
  function FindUser(users: seq<User>, f: User -> bool): (r: Option<User>)
    ensures r.Some? ==> r.value in users && f(r.value)
    ensures r.None? <==> forall i :: 0 <= i < |users| ==> !f(users[i])
    ensures r.Some? ==> exists i :: 0 <= i < |users| && users[i] == r.value && FirstMatch(users, f, i)
  {
    if |users| == 0 then None
    else if f(users[0]) then Some(users[0])
    else
      var r := FindUser(users[1..], f);
      assert forall i :: 1 <= i < |users| ==> users[i] == users[1..][i - 1];
      FirstMatchShift(users, f, r);
      r
  }

  /** Row `i` is the first row satisfying `f`. */
  predicate FirstMatch(users: seq<User>, f: User -> bool, i: int)
    requires 0 <= i < |users|
  {
    f(users[i]) && forall j :: 0 <= j < i ==> !f(users[j])
  }

  /** A first match after a non-matching head row is the first match of the whole table. */
  lemma FirstMatchShift(users: seq<User>, f: User -> bool, r: Option<User>)
    requires |users| > 0 && !f(users[0])
    requires r.Some? ==> exists i :: 0 <= i < |users| - 1 && users[1..][i] == r.value && FirstMatch(users[1..], f, i)
    ensures r.Some? ==> exists i :: 0 <= i < |users| && users[i] == r.value && FirstMatch(users, f, i)
  {
    if r.Some? {
      var i :| 0 <= i < |users| - 1 && users[1..][i] == r.value && FirstMatch(users[1..], f, i);
      assert users[i + 1] == r.value;
      forall j | 0 <= j < i + 1
        ensures !f(users[j])
      {
        if j > 0 {
          assert users[j] == users[1..][j - 1];
        }
      }
      assert FirstMatch(users, f, i + 1);
    }
  }

  function WithId(id: string): User -> bool {
    (u: User) => u.id == id
  }

  function WithName(name: string): User -> bool {
    (u: User) => u.username == name
  }

  /** The primary key: no two rows share an id. */
  ghost predicate UniqueIds(users: seq<User>) {
    forall i, j :: 0 <= i < |users| && 0 <= j < |users| && users[i].id == users[j].id ==> i == j
  }

  lemma FindUniqueId(users: seq<User>, u: User)
    requires UniqueIds(users) && u in users
    ensures FindUser(users, WithId(u.id)) == Some(u)
  {
    var j :| 0 <= j < |users| && users[j] == u;
    var r := FindUser(users, WithId(u.id));
    assert r.Some?;
    var i :| 0 <= i < |users| && users[i] == r.value;
  }

  /**
    The `AuthUser` extractor: token from the headers, verified, then the user
    row by id. `lookupOk` says whether that query succeeded. `None` is the
    401 rejection.
  */
  function Authenticate(p: Primitives, secret: string, h: Headers, users: seq<User>, lookupOk: bool): (r: Option<User>)
    ensures r.Some? <==>
      TokenFromHeaders(h).Some? && VerifyToken(p, TokenFromHeaders(h).value, secret).Some? && lookupOk
      && FindUser(users, WithId(VerifyToken(p, TokenFromHeaders(h).value, secret).value)).Some?
    ensures r.Some? ==> r.value in users && SignedFor(p, secret, p.b64Decode(TokenFromHeaders(h).value).value, r.value.id)
  {
    match TokenFromHeaders(h)
    case None => None
    case Some(token) =>
      match VerifyToken(p, token, secret)
      case None => None
      case Some(uid) => if lookupOk then FindUser(users, WithId(uid)) else None
  }

  datatype LoginRequest = LoginRequest(username: string, password: string)

  datatype LoginResponse = LoginResponse(token: string, userId: string, username: string)

  /**
    `login_handler`. `verify(password, hash)` is the Argon2 check: an error
    for an unparseable stored hash, else whether the password matches.
  */
  function Login(p: Primitives, secret: string, now: int, users: seq<User>, req: LoginRequest,
                 verify: (string, string) -> Result<bool, string>, readError: Option<string>): (r: Result<LoginResponse, AppError>)
    ensures readError.Some? ==> r == Err(Db(readError.value))
    ensures readError.None? && FindUser(users, WithName(req.username)).None? ==> r == Err(Unauthorized)
    ensures readError.None? && FindUser(users, WithName(req.username)).Some? ==>
      var u := FindUser(users, WithName(req.username)).value;
      (verify(req.password, u.password) == Ok(false) ==> r == Err(Unauthorized))
      && (verify(req.password, u.password).Err? ==> r == Err(Internal(verify(req.password, u.password).error)))
      && (verify(req.password, u.password) == Ok(true) ==>
            r == Ok(LoginResponse(MakeToken(p, u.id, secret, now), u.id, req.username)))
  {
    if readError.Some? then Err(Db(readError.value))
    else match FindUser(users, WithName(req.username))
      case None => Err(Unauthorized)
      case Some(u) =>
        match verify(req.password, u.password)
        case Err(m) => Err(Internal(m))
        case Ok(valid) =>
          if !valid then Err(Unauthorized)
          else Ok(LoginResponse(MakeToken(p, u.id, secret, now), u.id, u.username))
  }

  /** An unknown username and a wrong password produce the same response. */
  lemma LoginDoesNotRevealUsernames(p: Primitives, secret: string, now: int, users: seq<User>, req: LoginRequest,
                                    verify: (string, string) -> Result<bool, string>, other: seq<User>)
    requires FindUser(users, WithName(req.username)).None?
    requires FindUser(other, WithName(req.username)).Some?
    requires verify(req.password, FindUser(other, WithName(req.username)).value.password) == Ok(false)
    ensures IntoResponse(Login(p, secret, now, users, req, verify, None).error)
         == IntoResponse(Login(p, secret, now, other, req, verify, None).error)
  {
  }

  /**
    A token from a successful login, sent back as `Authorization: Bearer …`,
    authenticates the same user.
  */
  lemma LoginThenAuthenticate(p: Primitives, secret: string, now: int, users: seq<User>, req: LoginRequest,
                              verify: (string, string) -> Result<bool, string>)
    requires Lawful(p) && UniqueIds(users)
    requires forall u :: u in users ==> ':' !in u.id
    requires Login(p, secret, now, users, req, verify, None).Ok?
    ensures var resp := Login(p, secret, now, users, req, verify, None).value;
      var h := map["authorization" := Bytes(BearerPrefix + resp.token)];
      Authenticate(p, secret, h, users, true) == FindUser(users, WithName(req.username))
  {
    var u := FindUser(users, WithName(req.username)).value;
    var token := MakeToken(p, u.id, secret, now);
    assert Login(p, secret, now, users, req, verify, None).value.token == token;
    var h := map["authorization" := Bytes(BearerPrefix + token)];
    assert TokenFromHeaders(h) == Some(token) by {
      EncodedIsBase64(p, TokenText(p, secret, u.id, IntToString(now)));
      BearerOfToken(token);
    }
    TokenRoundTrip(p, u.id, secret, now);
    FindUniqueId(users, u);
  }

  lemma EncodedIsBase64(p: Primitives, t: string)
    requires Lawful(p)
    ensures forall i :: 0 <= i < |p.b64Encode(t)| ==> Base64Char(p.b64Encode(t)[i])
  {
  }

  /** A Base64 token sent as `Bearer <token>` is read back from the header. */
  lemma BearerOfToken(token: string)
    requires forall i :: 0 <= i < |token| ==> Base64Char(token[i])
    ensures ExtractBearer(map["authorization" := Bytes(BearerPrefix + token)]) == Some(token)
  {
    var text := BearerPrefix + token;
    forall i | 0 <= i < |text|
      ensures Visible(text[i] as int)
    {
      if i >= |BearerPrefix| {
        assert text[i] == token[i - |BearerPrefix|];
      }
    }
    HeaderTextOfBytes(text);
    assert text[..|BearerPrefix|] == BearerPrefix;
    assert text[|BearerPrefix|..] == token;
  }
}
