/**
 * The state-changing part of the credential service: registration, email
 * confirmation, username edits and deletion, each a lookup, a guard and then
 * a create or update on the user table.
 */
module Accounts {
  import opened Wrappers
  import opened Tokens
  import opened Credentials

  /** An OTP handed to the mail collaborator (`sendOtp(otp, email)`). */
  datatype OtpMail = OtpMail(otp: int, email: string)

  class UserService {
    /** The user table, keyed by primary key. */
    var users: Table
    /** The next value of the autoincrement id sequence. */
    var nextId: int
    /** Every OTP dispatched so far, oldest first. */
    var outbox: seq<OtpMail>
    /** The column default of `role` for a freshly created row. */
    const defaultRole: string
    /** `OTP_EXPIRATION_SECONDS` from the environment configuration. */
    const otpExpirationSeconds: int

    ghost predicate Valid()
      reads this
    {
      && WellKeyed(users)
      && EmailsUnique(users)
      && forall id :: id in users ==> id < nextId
    }

    constructor (defaultRole: string, otpExpirationSeconds: int)
      ensures Valid()
      ensures users == map[] && nextId == 1 && outbox == []
      ensures this.defaultRole == defaultRole && this.otpExpirationSeconds == otpExpirationSeconds
    {
      users := map[];
      nextId := 1;
      outbox := [];
      this.defaultRole := defaultRole;
      this.otpExpirationSeconds := otpExpirationSeconds;
    }

    /** `prisma.user.create`: the row takes the next id of the sequence. */
    method Create(row: User)
      requires Valid()
      requires row.id == nextId && !HasEmail(users, row.email)
      modifies this`users, this`nextId
      ensures Valid()
      ensures users == old(users)[row.id := row] && nextId == old(nextId) + 1
    {
      assert row.id !in users;
      InsertRow(users, row);
      var after := users[row.id := row];
      assert forall id :: id in after ==> id < nextId + 1;
      users, nextId := after, nextId + 1;
    }

    /** `prisma.user.update` of a row whose email stays the same. */
    method Update(row: User)
      requires Valid()
      requires row.id in users && users[row.id].email == row.email
      modifies this`users
      ensures Valid()
      ensures users == old(users)[row.id := row]
    {
      UpdateRow(users, row);
      users := users[row.id := row];
    }

    /**
     * `register`. `k` is the random draw of `generateOtp`, `sentTime` what
     * `sendOtp` resolves to. A taken email is refused before any OTP is sent
     * or any row written; otherwise exactly one unverified row is added.
     */
    method Register(email: string, username: string, password: string, crypto: Crypto, k: int, sentTime: int)
      returns (r: Result<UserDto, ServiceError>)
      requires Valid()
      requires 0 <= k < OtpMax - OtpMin + 1
      modifies this
      ensures Valid()
      ensures HasEmail(old(users), email) ==>
        && r == Err(EmailRegisteredYet(email))
        && users == old(users) && nextId == old(nextId) && outbox == old(outbox)
      ensures !HasEmail(old(users), email) ==>
        var row := User(old(nextId), email, username, crypto.hash(password), false, defaultRole, GenerateOtp(k), sentTime);
        && users == old(users)[old(nextId) := row]
        && old(nextId) !in old(users)
        && nextId == old(nextId) + 1
        && outbox == old(outbox) + [OtpMail(GenerateOtp(k), email)]
        && r == Ok(Project(row))
    {
      var existing := FindByEmail(users, email);
      if existing.Some? {
        return Err(EmailRegisteredYet(email));
      }
      var otp := GenerateOtp(k);
      outbox := outbox + [OtpMail(otp, email)];
      var row := User(nextId, email, username, crypto.hash(password), false, defaultRole, otp, sentTime);
      Create(row);
      r := Ok(Project(row));
    }

    /**
     * `confirmEmail` at time `now`: the checks of `CheckConfirmation`, then
     * `emailVerified` and `role` are set on that row alone. The tokens are
     * generated at `now` from the row as read before the update.
     */
    method ConfirmEmail(email: string, otp: int, now: int, p: TokenProvider)
      returns (r: Result<TokenDto, ServiceError>)
      requires Valid()
      modifies this`users
      ensures Valid()
      ensures var check := CheckConfirmation(old(users), email, otp, now, otpExpirationSeconds);
        && (check.Err? ==> r == Err(check.error) && users == old(users))
        && (check.Ok? ==>
              && users == old(users)[check.value.id := Confirmed(check.value)]
              && r == Ok(GenerateTokens(p, check.value, now)))
    {
      var found := FindByEmail(users, email);
      if found.None? {
        return Err(Failure("email " + email + " not found"));
      }
      var user := found.value;
      if user.otp != otp {
        return Err(Failure("invalid otp"));
      }
      var otpExpirationTime := otpExpirationSeconds * 1000;
      if now - user.otpSentTime > otpExpirationTime {
        return Err(Failure("OTP has expired"));
      }
      Update(Confirmed(user));
      r := Ok(GenerateTokens(p, user, now));
    }

    /** `editUsername`: `NotFoundError` for an unknown id; otherwise only that row's username changes. */
    method EditUsername(id: int, username: string) returns (r: Result<UserDto, ServiceError>)
      requires Valid()
      modifies this`users
      ensures Valid()
      ensures id !in old(users) ==> r == Err(NotFound("user", id)) && users == old(users)
      ensures id in old(users) ==>
        && users == old(users)[id := old(users)[id].(username := username)]
        && r == Ok(Project(users[id]))
        && r.value.username == username
    {
      if id !in users {
        return Err(NotFound("user", id));
      }
      var updated := users[id].(username := username);
      Update(updated);
      r := Ok(Project(updated));
    }

    /**
     * `deleteUser`: the delete query is built and dropped without being
     * awaited. A Prisma query is sent only once it is awaited or chained, so
     * the row stays where it was and the call changes nothing.
     */
    method DeleteUser(id: int)
      requires Valid()
      modifies this`users
      ensures Valid()
      ensures users == old(users)
    {
    }
  }

  /**
   * A registration followed by two confirmation attempts with the right code:
   * one a second after the window has closed, refused as expired, and one a
   * second after the code was sent, which verifies the account and gives it
   * the role "USER".
   */
  method ConfirmationTimeline(crypto: Crypto, p: TokenProvider, sentTime: int, windowSeconds: int)
    returns (registered: Result<UserDto, ServiceError>, late: Result<TokenDto, ServiceError>,
             onTime: Result<TokenDto, ServiceError>, account: UserDto)
    requires windowSeconds >= 1
    ensures registered == Ok(UserDto(1, "alice", "a@x.com", false, "GUEST"))
    ensures late == Err(Failure("OTP has expired"))
    ensures onTime.Ok? && onTime.value.refreshTokenExpiration == p.expiration(Refresh)
    ensures account == UserDto(1, "alice", "a@x.com", true, UserRole)
  {
    var service := new UserService("GUEST", windowSeconds);
    registered := service.Register("a@x.com", "alice", "pw1", crypto, 23456, sentTime);
    assert service.users[1].otp == 123456;
    FindByEmailUnique(service.users, 1);
    late := service.ConfirmEmail("a@x.com", 123456, sentTime + windowSeconds * 1000 + 1000, p);
    onTime := service.ConfirmEmail("a@x.com", 123456, sentTime + 1000, p);
    account := Project(service.users[1]);
  }
}
