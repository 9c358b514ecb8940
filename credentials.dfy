/**
 * The read-only and pure part of the credential service: the user record and
 * its public projection, the queries over the user table, OTP generation,
 * token-pair issuance and the guard chains of email confirmation, login and
 * token refresh. The user table is the relational store, keyed by id.
 */
module Credentials {
  import opened Wrappers
  import opened Tokens

  const OtpMin := 100000
  const OtpMax := 999999

  /** The role `confirmEmail` assigns. */
  const UserRole := "USER"

  datatype User = User(
    id: int,
    email: string,
    username: string,
    password: string,      // the stored hash
    emailVerified: bool,
    role: string,
    otp: int,
    otpSentTime: int)      // milliseconds since the epoch

  /** The `userDtoFields` selection: everything but the password hash and the OTP challenge. */
  datatype UserDto = UserDto(id: int, username: string, email: string, emailVerified: bool, role: string)

  datatype LoginResponse = LoginResponse(user: UserDto, tokens: TokenDto)

  /** What the service throws. `Failure` is a plain `Error` with its message. */
  datatype ServiceError =
    | EmailRegisteredYet(email: string)
    | InvalidCredentials(detail: Option<string>)    // None: the error class's default message
    | NotFound(entity: string, id: int)
    | Failure(message: string)

  /** The password provider: `hashPassword` and `comparePassword(plain, hash)`, both opaque. */
  datatype Crypto = Crypto(hash: string -> string, compare: (string, string) -> bool)

  type Table = map<int, User>

  /** Each row is stored under its own primary key. */
  ghost predicate WellKeyed(users: Table) {
    forall id :: id in users ==> users[id].id == id
  }

  /** The unique constraint on `email`. */
  ghost predicate EmailsUnique(users: Table) {
    forall i, j :: i in users && j in users && users[i].email == users[j].email ==> i == j
  }

  ghost predicate HasEmail(users: Table, email: string) {
    exists id :: id in users && users[id].email == email
  }

  function Project(u: User): UserDto {
    UserDto(u.id, u.username, u.email, u.emailVerified, u.role)
  }

  /** The projection never depends on the password hash or the OTP challenge. */
  lemma ProjectionHidesSecrets(u: User, password: string, otp: int, otpSentTime: int)
    ensures Project(u.(password := password, otp := otp, otpSentTime := otpSentTime)) == Project(u)
  {
  }

  lemma {:induction false} MinExists(ks: set<int>)
    requires ks != {}
    ensures exists m :: m in ks && forall k :: k in ks ==> m <= k
    decreases |ks|
  {
    if forall y :: y !in ks { assert false; }
    var x :| x in ks;
    var rest := ks - {x};
    assert forall k :: k in ks ==> k == x || k in rest;
    if rest == {} {
      assert forall k :: k in ks ==> x <= k;
    } else {
      assert |rest| < |ks|;
      MinExists(rest);
      var m :| m in rest && forall k :: k in rest ==> m <= k;
      var least := if x < m then x else m;
      assert forall k :: k in ks ==> least <= k;
      assert least in ks;
    }
  }

  /** The least key of a non-empty key set. */
  function MinOf(ks: set<int>): (m: int)
    requires ks != {}
    ensures m in ks && forall k :: k in ks ==> m <= k
  {
    MinExists(ks);
    var m :| m in ks && forall k :: k in ks ==> m <= k;
    m
  }

  ghost predicate Increasing(s: seq<int>) {
    forall i, j :: 0 <= i < j < |s| ==> s[i] < s[j]
  }

  lemma PrependIncreasing(m: int, s: seq<int>)
    requires Increasing(s)
    requires forall k :: k in s ==> m < k
    ensures Increasing([m] + s)
  {
    var r := [m] + s;
    forall i, j | 0 <= i < j < |r| ensures r[i] < r[j] {
      assert r[j] == s[j - 1];
      if i > 0 {
        assert r[i] == s[i - 1];
      } else {
        assert s[j - 1] in s;
      }
    }
  }

  /** The primary keys in ascending order (`orderBy: { id: "asc" }`). */
  function SortedIds(ks: set<int>): (r: seq<int>)
    ensures forall k :: k in r <==> k in ks
    ensures Increasing(r)
    decreases ks
  {
    if ks == {} then []
    else
      var m := MinOf(ks);
      var rest := SortedIds(ks - {m});
      PrependIncreasing(m, rest);
      [m] + rest
  }

  function FirstWithEmail(users: Table, ids: seq<int>, email: string): (r: Option<User>)
    requires forall i :: 0 <= i < |ids| ==> ids[i] in users
    ensures r.Some? ==> exists i :: 0 <= i < |ids| && users[ids[i]] == r.value && r.value.email == email
    ensures r.None? ==> forall i :: 0 <= i < |ids| ==> users[ids[i]].email != email
  {
    if ids == [] then None
    else if users[ids[0]].email == email then Some(users[ids[0]])
    else FirstWithEmail(users, ids[1..], email)
  }

  /** `findUnique` / `findFirst` with `where: { email }`: the first row in id order with that email. */
  function FindByEmail(users: Table, email: string): (r: Option<User>)
    requires WellKeyed(users)
    ensures r.Some? ==> r.value.id in users && users[r.value.id] == r.value && r.value.email == email
    ensures r.None? <==> !HasEmail(users, email)
  {
    FirstWithEmail(users, SortedIds(users.Keys), email)
  }

  /** Under the unique constraint the lookup finds exactly the row with that email. */
  lemma FindByEmailUnique(users: Table, id: int)
    requires WellKeyed(users) && EmailsUnique(users) && id in users
    ensures FindByEmail(users, users[id].email) == Some(users[id])
  {
  }

  /** `findUser`, i.e. `findFirst` with `where: { id }`. */
  function FindUser(users: Table, id: int): (r: Option<User>)
    requires WellKeyed(users)
    ensures r.Some? <==> id in users
    ensures r.Some? ==> r.value.id == id && r.value == users[id]
  {
    if id in users then Some(users[id]) else None
  }

  /** The ids of a list of projections, in order. */
  function IdsOf(r: seq<UserDto>): (ids: seq<int>)
    ensures |ids| == |r| && forall i :: 0 <= i < |r| ==> ids[i] == r[i].id
  {
    seq(|r|, i requires 0 <= i < |r| => r[i].id)
  }

  /** The DTOs of the rows with the given ids, in the same order (the `select` of a listing query). */
  function ProjectRows(users: Table, ids: seq<int>): (r: seq<UserDto>)
    requires WellKeyed(users)
    requires forall i :: 0 <= i < |ids| ==> ids[i] in users
    ensures IdsOf(r) == ids
    ensures forall i :: 0 <= i < |r| ==> r[i] == Project(users[ids[i]])
  {
    var r := seq(|ids|, i requires 0 <= i < |ids| => Project(users[ids[i]]));
    forall i | 0 <= i < |r| ensures r[i].id == ids[i] {
      assert users[ids[i]].id == ids[i];
    }
    r
  }

  /** `getAllUsers`: every row, projected, in ascending id order. */
  function GetAllUsers(users: Table): (r: seq<UserDto>)
    requires WellKeyed(users)
    ensures forall i :: 0 <= i < |r| ==> r[i].id in users && r[i] == Project(users[r[i].id])
    ensures forall id :: id in users ==> Project(users[id]) in r
    ensures Increasing(IdsOf(r))
  {
    var ids := SortedIds(users.Keys);
    var r := ProjectRows(users, ids);
    assert forall i :: 0 <= i < |r| ==> r[i].id == ids[i];
    forall id | id in users ensures Project(users[id]) in r {
      var i :| 0 <= i < |ids| && ids[i] == id;
      assert r[i] == Project(users[id]);
    }
    r
  }

  /** Prisma's `contains` filter: `part` is a prefix of some suffix of `s`. */
  predicate Contains(s: string, part: string)
    decreases |s|
  {
    part <= s || (|s| > 0 && Contains(s[1..], part))
  }

  /** `part` occurs in `s` starting at offset `i`. */
  predicate OccursAt(s: string, part: string, i: int) {
    0 <= i <= |s| - |part| && s[i..i + |part|] == part
  }

  /** `Contains` means an occurrence of `part` at some offset of `s`. */
  lemma {:induction false} ContainsIffOccurs(s: string, part: string)
    ensures Contains(s, part) <==> exists i :: OccursAt(s, part, i)
    decreases |s|
  {
    if part <= s {
      assert OccursAt(s, part, 0);
    } else if |s| > 0 {
      ContainsIffOccurs(s[1..], part);
      if exists i :: OccursAt(s, part, i) {
        var i :| OccursAt(s, part, i);
        assert i != 0;
        assert s[1..][i - 1..i - 1 + |part|] == s[i..i + |part|];
        assert OccursAt(s[1..], part, i - 1);
      }
      if Contains(s[1..], part) {
        var i :| OccursAt(s[1..], part, i);
        assert s[1..][i..i + |part|] == s[i + 1..i + 1 + |part|];
        assert OccursAt(s, part, i + 1);
      }
    } else {
      assert forall i :: !OccursAt(s, part, i);
    }
  }

  /** The `where` of `suggestUsers`: username or email contains the query, and not the caller. */
  predicate Suggested(u: User, name: string, currentUserId: int) {
    (Contains(u.username, name) || Contains(u.email, name)) && u.id != currentUserId
  }

  /** The ids among `ids` whose rows the `where` of `suggestUsers` selects, in the order of `ids`. */
  function SelectSuggested(users: Table, ids: seq<int>, name: string, currentUserId: int): (r: seq<int>)
    requires forall i :: 0 <= i < |ids| ==> ids[i] in users
    requires Increasing(ids)
    ensures forall k :: k in r <==> k in ids && Suggested(users[k], name, currentUserId)
    ensures Increasing(r)
  {
    if ids == [] then []
    else
      var tail := ids[1..];
      assert forall k :: k in tail ==> ids[0] < k;
      var rest := SelectSuggested(users, tail, name, currentUserId);
      if Suggested(users[ids[0]], name, currentUserId) then
        PrependIncreasing(ids[0], rest);
        [ids[0]] + rest
      else
        rest
  }

  /**
   * `suggestUsers`: exactly the projections of the rows that match the query
   * and are not the caller, each once. The query has no `orderBy`, so the
   * contract fixes no order; the model happens to list them in id order.
   */
  function SuggestUsers(users: Table, name: string, currentUserId: int): (r: seq<UserDto>)
    requires WellKeyed(users)
    ensures forall i :: 0 <= i < |r| ==> r[i].id in users && r[i] == Project(users[r[i].id]) && Suggested(users[r[i].id], name, currentUserId)
    ensures forall id :: id in users && Suggested(users[id], name, currentUserId) ==> Project(users[id]) in r
    ensures forall i, j :: 0 <= i < j < |r| ==> r[i].id != r[j].id
  {
    var ids := SelectSuggested(users, SortedIds(users.Keys), name, currentUserId);
    var r := ProjectRows(users, ids);
    assert forall i :: 0 <= i < |r| ==> r[i].id == ids[i];
    forall id | id in users && Suggested(users[id], name, currentUserId) ensures Project(users[id]) in r {
      var i :| 0 <= i < |ids| && ids[i] == id;
      assert r[i] == Project(users[id]);
    }
    r
  }

  /** The caller never appears among the suggestions. */
  lemma SuggestionsExcludeCaller(users: Table, name: string, currentUserId: int)
    requires WellKeyed(users)
    ensures forall d :: d in SuggestUsers(users, name, currentUserId) ==> d.id != currentUserId
  {
  }

  /**
   * `generateOtp`: `floor(random * 900000) + 100000`, with the draw
   * `floor(random * 900000)` given as `k`.
   */
  function GenerateOtp(k: int): (otp: int)
    requires 0 <= k < OtpMax - OtpMin + 1
    ensures OtpMin <= otp <= OtpMax
  {
    k + OtpMin
  }

  /** Every six-digit code is the result of exactly one draw, so the codes are as uniform as the draws. */
  lemma OtpDrawIsBijective(k: int, code: int)
    requires 0 <= k < OtpMax - OtpMin + 1
    requires OtpMin <= code <= OtpMax
    ensures GenerateOtp(code - OtpMin) == code
    ensures GenerateOtp(k) == code <==> k == code - OtpMin
  {
  }

  function ClaimsOf(u: User): Claims {
    Claims(u.id, u.role)
  }

  /** `generateTokens` at instant `now`: an access and a refresh token for the same subject and claims. */
  function GenerateTokens(p: TokenProvider, u: User, now: int): TokenDto {
    TokenDto(
      p.generate(Access, u.email, ClaimsOf(u), now),
      p.expiration(Access),
      p.generate(Refresh, u.email, ClaimsOf(u), now),
      p.expiration(Refresh))
  }

  /**
   * Under the provider assumption, a pair issued at `issued` and checked at
   * `at`: the access token verifies only as ACCESS and the refresh token only
   * as REFRESH, each while its lifetime lasts, both with subject `u.email`
   * and claims `{ id, role }` of `u`; the expirations are those of the
   * matching type.
   */
  lemma TokensVerifyAsIssued(p: TokenProvider, u: User, issued: int, at: int)
    requires TypeIsolated(p)
    ensures var t := GenerateTokens(p, u, issued);
      var payload := Payload(u.email, Claims(u.id, u.role));
      && p.verify(t.accessToken, Access, at) == (if at < issued + p.expiration(Access) then Some(payload) else None)
      && p.verify(t.refreshToken, Refresh, at) == (if at < issued + p.expiration(Refresh) then Some(payload) else None)
      && p.verify(t.accessToken, Refresh, at) == None
      && p.verify(t.refreshToken, Access, at) == None
      && t.accessTokenExpiration == p.expiration(Access)
      && t.refreshTokenExpiration == p.expiration(Refresh)
  {
  }

  /**
   * The guard chain of `confirmEmail`: the email must be known, then the code
   * must match, then the challenge must not have expired. On success it yields
   * the record as read, before the update.
   */
  function CheckConfirmation(users: Table, email: string, otp: int, now: int, expirationSeconds: int): (r: Result<User, ServiceError>)
    requires WellKeyed(users)
    ensures !HasEmail(users, email) ==> r == Err(Failure("email " + email + " not found"))
    ensures r.Err? ==> r.error.Failure?
    ensures r.Ok? ==> && r.value.id in users && users[r.value.id] == r.value && r.value.email == email
                      && r.value.otp == otp && now - r.value.otpSentTime <= expirationSeconds * 1000
  {
    match FindByEmail(users, email)
    case None => Err(Failure("email " + email + " not found"))
    case Some(u) =>
      if u.otp != otp then Err(Failure("invalid otp"))
      else if now - u.otpSentTime > expirationSeconds * 1000 then Err(Failure("OTP has expired"))
      else Ok(u)
  }

  /**
   * For a registered email the confirmation succeeds iff the code matches and
   * at most the window has passed; a wrong code is reported as such even when
   * the challenge has also expired; a matching code that is too late is
   * reported as expired.
   */
  lemma ConfirmationOutcome(users: Table, id: int, otp: int, now: int, expirationSeconds: int)
    requires WellKeyed(users) && EmailsUnique(users) && id in users
    ensures var u := users[id];
      var r := CheckConfirmation(users, u.email, otp, now, expirationSeconds);
      && (r.Ok? <==> otp == u.otp && now - u.otpSentTime <= expirationSeconds * 1000)
      && (r.Ok? ==> r.value == u)
      && (otp != u.otp ==> r == Err(Failure("invalid otp")))
      && (otp == u.otp && now - u.otpSentTime > expirationSeconds * 1000 ==> r == Err(Failure("OTP has expired")))
  {
    FindByEmailUnique(users, id);
  }

  /** Exactly at the end of the window the code is still accepted; one millisecond later it is not. */
  lemma ConfirmationWindowBoundary(users: Table, id: int, expirationSeconds: int)
    requires WellKeyed(users) && EmailsUnique(users) && id in users
    ensures var u := users[id];
      && CheckConfirmation(users, u.email, u.otp, u.otpSentTime + expirationSeconds * 1000, expirationSeconds) == Ok(u)
      && CheckConfirmation(users, u.email, u.otp, u.otpSentTime + expirationSeconds * 1000 + 1, expirationSeconds)
         == Err(Failure("OTP has expired"))
  {
    ConfirmationOutcome(users, id, users[id].otp, users[id].otpSentTime + expirationSeconds * 1000, expirationSeconds);
    ConfirmationOutcome(users, id, users[id].otp, users[id].otpSentTime + expirationSeconds * 1000 + 1, expirationSeconds);
  }

  /** The record after a successful confirmation. */
  function Confirmed(u: User): (v: User)
    ensures v.emailVerified && v.role == UserRole
    ensures v.(emailVerified := u.emailVerified, role := u.role) == u
  {
    u.(emailVerified := true, role := UserRole)
  }

  /**
   * `login`: unknown email, then unverified email, then wrong password, each an
   * `InvalidCredentialsError`; on success the projection and a token pair.
   */
  function Login(users: Table, crypto: Crypto, p: TokenProvider, email: string, password: string, now: int): (r: Result<LoginResponse, ServiceError>)
    requires WellKeyed(users)
    ensures r.Err? ==> r.error.InvalidCredentials?
    ensures !HasEmail(users, email) ==> r == Err(InvalidCredentials(None))
    ensures r.Ok? ==> exists id :: && id in users && users[id].email == email && users[id].emailVerified
                                   && crypto.compare(password, users[id].password)
                                   && r.value == LoginResponse(Project(users[id]), GenerateTokens(p, users[id], now))
  {
    match FindByEmail(users, email)
    case None => Err(InvalidCredentials(None))
    case Some(u) =>
      if !u.emailVerified then Err(InvalidCredentials(Some("email not verified")))
      else if !crypto.compare(password, u.password) then Err(InvalidCredentials(None))
      else Ok(LoginResponse(Project(u), GenerateTokens(p, u, now)))
  }

  /** The three failures of `login` in their order, and its success, for a registered email. */
  lemma LoginOutcome(users: Table, crypto: Crypto, p: TokenProvider, id: int, password: string, now: int)
    requires WellKeyed(users) && EmailsUnique(users) && id in users
    ensures var u := users[id];
      var r := Login(users, crypto, p, u.email, password, now);
      && (!u.emailVerified ==> r == Err(InvalidCredentials(Some("email not verified"))))
      && (u.emailVerified && !crypto.compare(password, u.password) ==> r == Err(InvalidCredentials(None)))
      && (u.emailVerified && crypto.compare(password, u.password) ==>
            r == Ok(LoginResponse(Project(u), GenerateTokens(p, u, now))))
  {
    FindByEmailUnique(users, id);
  }

  /**
   * `refreshToken` at instant `now`: every failure (a token rejected as
   * REFRESH, a subject with no user) becomes the same
   * `InvalidCredentialsError`; success issues a pair for the subject's user,
   * issued at `now`.
   */
  function RefreshToken(users: Table, p: TokenProvider, token: string, now: int): (r: Result<TokenDto, ServiceError>)
    requires WellKeyed(users)
    ensures r.Err? ==> r == Err(InvalidCredentials(None))
    ensures r.Ok? <==> p.verify(token, Refresh, now).Some? && HasEmail(users, p.verify(token, Refresh, now).value.sub)
    ensures r.Ok? ==> exists id :: && id in users && users[id].email == p.verify(token, Refresh, now).value.sub
                                   && r.value == GenerateTokens(p, users[id], now)
  {
    match p.verify(token, Refresh, now)
    case None => Err(InvalidCredentials(None))
    case Some(payload) =>
      match FindByEmail(users, payload.sub)
      case None => Err(InvalidCredentials(None))
      case Some(u) => Ok(GenerateTokens(p, u, now))
  }

  /** An access token handed to `refreshToken` is refused with the generic error. */
  lemma RefreshRejectsAccessToken(users: Table, p: TokenProvider, u: User, issued: int, now: int)
    requires WellKeyed(users) && TypeIsolated(p)
    ensures RefreshToken(users, p, GenerateTokens(p, u, issued).accessToken, now) == Err(InvalidCredentials(None))
  {
    TokensVerifyAsIssued(p, u, issued, now);
  }

  /** A refresh token whose lifetime is over is refused with the generic error, even for a stored user. */
  lemma RefreshRejectsExpired(users: Table, p: TokenProvider, u: User, issued: int, now: int)
    requires WellKeyed(users) && TypeIsolated(p)
    requires now >= issued + p.expiration(Refresh)
    ensures RefreshToken(users, p, GenerateTokens(p, u, issued).refreshToken, now) == Err(InvalidCredentials(None))
  {
    TokensVerifyAsIssued(p, u, issued, now);
  }

  /** A live refresh token of a stored user buys the pair issued to that same user at the time of the refresh. */
  lemma RefreshRotatesPair(users: Table, p: TokenProvider, id: int, issued: int, now: int)
    requires WellKeyed(users) && EmailsUnique(users) && TypeIsolated(p) && id in users
    requires now < issued + p.expiration(Refresh)
    ensures RefreshToken(users, p, GenerateTokens(p, users[id], issued).refreshToken, now) == Ok(GenerateTokens(p, users[id], now))
  {
    TokensVerifyAsIssued(p, users[id], issued, now);
    FindByEmailUnique(users, id);
  }

  /**
   * A refresh made after the old pair was issued but while its refresh token
   * still lives yields a refresh token that outlives it: at the old token's
   * end the new one still verifies and the old one does not, so the two differ.
   */
  lemma RefreshedTokenOutlivesOld(users: Table, p: TokenProvider, id: int, issued: int, now: int)
    requires WellKeyed(users) && EmailsUnique(users) && TypeIsolated(p) && id in users
    requires issued < now < issued + p.expiration(Refresh)
    ensures var presented := GenerateTokens(p, users[id], issued).refreshToken;
      var r := RefreshToken(users, p, presented, now);
      var end := issued + p.expiration(Refresh);
      && r.Ok?
      && p.verify(presented, Refresh, end) == None
      && p.verify(r.value.refreshToken, Refresh, end) == Some(Payload(users[id].email, ClaimsOf(users[id])))
      && r.value.refreshToken != presented
  {
    var end := issued + p.expiration(Refresh);
    RefreshRotatesPair(users, p, id, issued, now);
    TokensVerifyAsIssued(p, users[id], issued, end);
    TokensVerifyAsIssued(p, users[id], now, end);
  }

  /** Once the subject's row is gone (or never existed), its refresh token no longer works. */
  lemma RefreshForUnknownSubject(users: Table, p: TokenProvider, u: User, issued: int, now: int)
    requires WellKeyed(users) && TypeIsolated(p) && !HasEmail(users, u.email)
    ensures RefreshToken(users, p, GenerateTokens(p, u, issued).refreshToken, now) == Err(InvalidCredentials(None))
  {
    TokensVerifyAsIssued(p, u, issued, now);
  }

  /** Where an account stands: no row, a row awaiting its OTP, or a verified row. */
  datatype AccountState = Unregistered | PendingVerification | Verified

  function StateOf(users: Table, email: string): (s: AccountState)
    requires WellKeyed(users)
    ensures s == Unregistered <==> !HasEmail(users, email)
  {
    match FindByEmail(users, email)
    case None => Unregistered
    case Some(u) => if u.emailVerified then Verified else PendingVerification
  }

  /** A new row with an unused key and an unused email keeps the table invariants and is found by its email. */
  lemma InsertRow(users: Table, u: User)
    requires WellKeyed(users) && EmailsUnique(users)
    requires u.id !in users && !HasEmail(users, u.email)
    ensures WellKeyed(users[u.id := u]) && EmailsUnique(users[u.id := u])
    ensures FindByEmail(users[u.id := u], u.email) == Some(u)
  {
    var after := users[u.id := u];
    assert after[u.id] == u;
    FindByEmailUnique(after, u.id);
  }

  /** Rewriting a row without changing its email keeps the table invariants and is found by that email. */
  lemma UpdateRow(users: Table, u: User)
    requires WellKeyed(users) && EmailsUnique(users)
    requires u.id in users && users[u.id].email == u.email
    ensures WellKeyed(users[u.id := u]) && EmailsUnique(users[u.id := u])
    ensures FindByEmail(users[u.id := u], u.email) == Some(u)
  {
    var after := users[u.id := u];
    assert after[u.id] == u;
    FindByEmailUnique(after, u.id);
  }

  /** Under the unique constraint, the lookup of `email` is unaffected by writing a row with another email. */
  lemma FindByEmailAfterOtherWrite(users: Table, u: User, email: string)
    requires WellKeyed(users) && EmailsUnique(users)
    requires WellKeyed(users[u.id := u]) && EmailsUnique(users[u.id := u])
    requires u.email != email
    requires u.id in users ==> users[u.id].email != email
    ensures FindByEmail(users[u.id := u], email) == FindByEmail(users, email)
  {
    var after := users[u.id := u];
    if HasEmail(users, email) {
      var id :| id in users && users[id].email == email;
      assert id != u.id;
      FindByEmailUnique(users, id);
      FindByEmailUnique(after, id);
    } else {
      assert !HasEmail(after, email);
    }
  }

  /**
   * Registration's new row takes an unregistered email to pending
   * verification and leaves every other email where it was.
   */
  lemma RegisterMakesPending(users: Table, u: User, other: string)
    requires WellKeyed(users) && EmailsUnique(users)
    requires u.id !in users && !u.emailVerified && !HasEmail(users, u.email)
    requires other != u.email
    ensures WellKeyed(users[u.id := u]) && EmailsUnique(users[u.id := u])
    ensures StateOf(users[u.id := u], u.email) == PendingVerification
    ensures StateOf(users[u.id := u], other) == StateOf(users, other)
  {
    InsertRow(users, u);
    FindByEmailAfterOtherWrite(users, u, other);
  }

  /**
   * Confirmation at `now` takes the account to verified and leaves every
   * other email where it was; the access token it returns carries the role
   * read before the update, while the access token of a login at `later`
   * carries "USER". Each is checked at its own issue instant.
   */
  lemma ConfirmMakesVerified(users: Table, crypto: Crypto, p: TokenProvider, id: int, password: string, other: string, now: int, later: int)
    requires WellKeyed(users) && EmailsUnique(users) && TypeIsolated(p) && id in users
    requires other != users[id].email
    ensures var u := users[id];
      var after := users[id := Confirmed(u)];
      var live := 0 < p.expiration(Access);
      && WellKeyed(after) && EmailsUnique(after)
      && StateOf(after, u.email) == Verified
      && StateOf(after, other) == StateOf(users, other)
      && p.verify(GenerateTokens(p, u, now).accessToken, Access, now)
         == (if live then Some(Payload(u.email, Claims(id, u.role))) else None)
      && (crypto.compare(password, u.password) ==>
            && Login(after, crypto, p, u.email, password, later)
               == Ok(LoginResponse(Project(Confirmed(u)), GenerateTokens(p, Confirmed(u), later)))
            && p.verify(GenerateTokens(p, Confirmed(u), later).accessToken, Access, later)
               == (if live then Some(Payload(u.email, Claims(id, UserRole))) else None))
  {
    var u := users[id];
    var after := users[id := Confirmed(u)];
    UpdateRow(users, Confirmed(u));
    FindByEmailUnique(after, id);
    FindByEmailAfterOtherWrite(users, Confirmed(u), other);
    TokensVerifyAsIssued(p, u, now, now);
    TokensVerifyAsIssued(p, Confirmed(u), later, later);
    LoginOutcome(after, crypto, p, id, password, later);
  }
}
