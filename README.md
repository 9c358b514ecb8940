# Credential service and presence registry

A Dafny model of two services of a messaging backend.

- **The credential service** (`src/service/user.service.ts`). Users register, confirm their email with a six-digit one-time code (OTP), log in, refresh their token pair, rename themselves, look each other up and ask to be deleted.
  - The relational user store becomes a `map<int, User>` keyed by primary key. The model keeps two invariants on it: each row sits under its own id, and emails are unique.
  - Lookups by email scan the rows in ascending id order and take the first match.
  - The operations that write rows (`register`, `confirmEmail`, `editUsername`, `deleteUser`) are methods of the class `Accounts.UserService`. Its fields are the table, the next value of the id sequence and the OTP mails sent so far.
  - Read-only guard chains and queries are functions in `Credentials` over the table: `login`, `refreshToken`, the confirmation checks, `getAllUsers`, `suggestUsers` and `findUser`. Because they are functions, `login` and `refreshToken` cannot change the store.
- **The presence registry** (`src/service/user-status.service.ts`). The ids of online users are stored under the key `"online-users"` as their decimal text, in one Redis set.
  - `UserStatus.PresenceRegistry` holds the Redis keyspace and the service log.
  - `setOnline` and `setOffline` catch a store failure and log it. `getAllOnlineUsers` lets a failure reach the caller, and parses every member back to a number.
  - `Decimal` models `Number.prototype.toString()` on integers and unary `+` on decimal numerals, and proves that the two round-trip.

Outside inputs are parameters:

| Input | Parameter |
|---|---|
| Current time | `now`, in milliseconds |
| OTP random draw | `k`, with `0 <= k < 900000` |
| Time `sendOtp` resolves to | `sentTime` |
| A store failure | `failure: Option<string>` |

The token provider is the value `Tokens.TokenProvider`: generate, verify and expiration-by-type, all uninterpreted. A token is generated at an issue instant and verified at an instant, and the expiration of a type is read as the lifetime of its tokens. The password hash and compare are the value `Credentials.Crypto`, also uninterpreted. The only thing assumed about tokens is the predicate `Tokens.TypeIsolated`. It says a token verifies, with the subject and claims it was issued for, exactly when it is checked as the type it was issued as and before its issue instant plus that type's lifetime. Every lemma that relies on it names it in its `requires`.

Three behaviours of the code a reader may not expect:

- `confirmEmail` throws plain `Error`s with the messages "email … not found", "invalid otp" and "OTP has expired", not typed not-found, invalid-OTP and expired errors (`ServiceError.Failure`).
- An unverified login fails with an `InvalidCredentialsError` that carries the message "email not verified", so a caller can tell it apart from the other login failures.
- The token pair that `confirmEmail` returns is built from the record as read before the update, so its role claim is the old role, not "USER".

## Model

| member | source | states |
|---|---|---|
| Credentials.ProjectionHidesSecrets | src/service/user.service.ts:24-30 | The user projection keeps id, username, email, emailVerified and role, and never depends on the password hash or the OTP fields |
| Credentials.SortedIds | src/service/user.service.ts:134-136 | The primary keys, each exactly once, in strictly ascending order |
| Credentials.FindByEmail | src/service/user.service.ts:35-37 | A lookup by email returns a stored row with that email, or none exactly when no row has that email |
| Credentials.FindByEmailUnique | src/service/user.service.ts:35-37 | Under the unique constraint on email, the lookup of a row's email returns that row |
| Credentials.FindUser | src/service/user.service.ts:162-164 | Returns a row exactly when the id is stored, and then it is the row under that id |
| Credentials.ProjectRows | src/service/user.service.ts:133 | The `select: userDtoFields` of a listing: one projection per id, in the same order, carrying that id |
| Credentials.GetAllUsers | src/service/user.service.ts:131-138 | Every row's projection appears, nothing else does, and ids strictly ascend, so each row appears once |
| Credentials.Contains | src/service/user.service.ts:174-181 | Prisma's `contains` on one field: the query is a prefix of the field or of one of its suffixes; it has no contract of its own, and `ContainsIffOccurs` ties it to an occurrence at an offset |
| Credentials.Suggested | src/service/user.service.ts:171-189 | The `where` of `suggestUsers`: username or email contains the query, and the id is not the caller's; it has no contract of its own, and `SelectSuggested` and `SuggestUsers` state what filtering by it yields |
| Credentials.ContainsIffOccurs | src/service/user.service.ts:174-181 | The `contains` filter holds exactly when the query occurs at some offset of the field |
| Credentials.SelectSuggested | src/service/user.service.ts:171-189 | Keeps exactly the ids whose rows match the `where` (username or email contains the query, id is not the caller's), in their original order |
| Credentials.SuggestUsers | src/service/user.service.ts:166-192 | Exactly the projections of rows that match the query and are not the caller's, with no id listed twice |
| Credentials.SuggestionsExcludeCaller | src/service/user.service.ts:184-188 | The caller's own id never appears among the suggestions |
| Credentials.GenerateOtp | src/service/user.service.ts:194-201 | The code lies in [100000, 999999] |
| Credentials.OtpDrawIsBijective | src/service/user.service.ts:198 | Each six-digit code comes from exactly one draw, so the codes are as uniform as the draw |
| Credentials.Project | src/service/user.service.ts:24-30 | The `userDtoFields` selection; it has no contract of its own, and `ProjectionHidesSecrets` states what it keeps and drops |
| Credentials.GenerateTokens | src/service/user.service.ts:203-216 | An access and a refresh token for the user's email and claims {id, role}, issued at the given instant; it has no contract of its own, and `TokensVerifyAsIssued` states what the pair promises |
| Credentials.TokensVerifyAsIssued | src/service/user.service.ts:203-216 | Under the provider assumption, the access token verifies only as ACCESS and the refresh token only as REFRESH, each before its issue instant plus its type's lifetime, both with subject email and claims {id, role}; the expirations are those of the matching type |
| Credentials.CheckConfirmation | src/service/user.service.ts:63-81 | An unknown email fails with "email … not found"; every failure is a plain error; success yields the stored row for that email, with a matching code and no more than the window elapsed |
| Credentials.ConfirmationOutcome | src/service/user.service.ts:67-81 | For a registered email: success iff the code matches and at most the window has passed; a wrong code reports "invalid otp" even when the code has also expired; a matching late code reports "OTP has expired" |
| Credentials.ConfirmationWindowBoundary | src/service/user.service.ts:75-81 | Exactly at the end of the window the code is accepted; one millisecond later it is refused as expired |
| Credentials.Confirmed | src/service/user.service.ts:83-89 | The updated row has emailVerified true and role "USER", and every other field as before |
| Credentials.Login | src/service/user.service.ts:96-114 | Every failure is an InvalidCredentialsError, an unknown email gives the default message, and success means a stored verified row whose password compares equal, answered with its projection and its token pair |
| Credentials.LoginOutcome | src/service/user.service.ts:101-113 | For a registered email the checks run in order: unverified gives "email not verified", then a wrong password gives the default error, otherwise the projection and token pair |
| Credentials.RefreshToken | src/service/user.service.ts:116-130 | Every failure is the same InvalidCredentialsError; success iff the token verifies as REFRESH at the refresh instant and its subject names a stored user, whose pair issued at that instant is returned |
| Credentials.RefreshRejectsAccessToken | src/service/user.service.ts:118 | Under the provider assumption, an access token handed to refresh is refused with the generic error |
| Credentials.RefreshRejectsExpired | src/service/user.service.ts:118-128 | Under the provider assumption, a refresh token past its lifetime is refused with the generic error, even for a stored user |
| Credentials.RefreshRotatesPair | src/service/user.service.ts:118-125 | Under the provider assumption, a live refresh token of a stored user returns the pair issued to that same user at the refresh instant |
| Credentials.RefreshedTokenOutlivesOld | src/service/user.service.ts:118-125 | Under the provider assumption, a refresh after issue leaves a refresh token that still verifies when the presented one has expired, so the two differ |
| Credentials.RefreshForUnknownSubject | src/service/user.service.ts:119-123 | Under the provider assumption, a refresh token whose subject has no row is refused with the generic error |
| Credentials.StateOf | src/service/user.service.ts:34-93 | An account is unregistered exactly when no row has its email |
| Credentials.InsertRow | src/service/user.service.ts:46-55 | A new row with an unused key and unused email keeps both table invariants and is found by its email |
| Credentials.UpdateRow | src/service/user.service.ts:83-89 | Rewriting a row without changing its email keeps both table invariants and is found by its email |
| Credentials.FindByEmailAfterOtherWrite | src/service/user.service.ts:83-89 | Writing a row with another email does not change the lookup of an email |
| Credentials.RegisterMakesPending | src/service/user.service.ts:43-55 | Registration takes an unregistered email to pending verification and leaves every other email's state as it was |
| Credentials.ConfirmMakesVerified | src/service/user.service.ts:83-93 | Confirmation makes the account verified and leaves others' states alone; its access token carries the pre-update role, while a later successful login's access token carries "USER" |
| Accounts.UserService.Create | src/service/user.service.ts:46-55 | Inserts the row under the next id and advances the sequence, keeping the invariants |
| Accounts.UserService.Update | src/service/user.service.ts:83-89 | Replaces one row with the same email, keeping the invariants |
| Accounts.UserService.Register | src/service/user.service.ts:34-58 | A taken email fails with EmailRegisteredYetError before any mail or row; otherwise exactly one unverified row is added, carrying the email, username, hashed password, default role, the generated OTP and its sent time, one OTP mail goes out, and the row's projection is returned |
| Accounts.UserService.ConfirmEmail | src/service/user.service.ts:60-94 | On any failed check nothing changes; on success only that row is updated (verified, role "USER") and the tokens are those of the row as read before the update |
| Accounts.UserService.EditUsername | src/service/user.service.ts:140-156 | An unknown id fails with NotFoundError("user", id) and nothing changes; otherwise only that row's username changes and its projection is returned |
| Accounts.UserService.DeleteUser | src/service/user.service.ts:158-160 | The table is left as it was: the delete query is never awaited, and a Prisma query is sent only once it is awaited or chained |
| Accounts.ConfirmationTimeline | src/service/user.service.ts:34-94 | Register "a@x.com"/"alice"/"pw1" with code 123456: a confirmation one second after the window fails as expired, and one a second after sending succeeds and leaves the account verified with role "USER" |
| Decimal.ToDecimal | src/service/user-status.service.ts:9-22 | `userId.toString()`: a leading minus for a negative id, then the shortest decimal numeral; its contract says the text is never empty, and `ParseToDecimal` and `ToDecimalInjective` state the rest |
| Decimal.ParseNumber | src/service/user-status.service.ts:26 | Unary `+s` on an optionally signed decimal numeral, none for any other text; it has no contract of its own, and `ParseToDecimal` states that it reads back every `toString()` of an integer |
| Decimal.DigitsRoundTrip | src/service/user-status.service.ts:26 | Reading the digits of a natural number gives back the number |
| Decimal.ParseToDecimal | src/service/user-status.service.ts:26 | `+(id.toString()) == id` for every integer id |
| Decimal.ToDecimalInjective | src/service/user-status.service.ts:9 | Distinct ids are stored as distinct members |
| UserStatus.Members | src/service/user-status.service.ts:26 | `SMEMBERS` on a key: the set stored there, or the empty set for a missing key; it has no contract of its own, and `Added`, `Removed` and `SMembers` are stated with it |
| UserStatus.Added | src/service/user-status.service.ts:9 | `SADD` adds the member to the set under the key and leaves every other key alone |
| UserStatus.Removed | src/service/user-status.service.ts:18 | `SREM` removes the member, drops a set that becomes empty, and leaves every other key alone |
| UserStatus.AddedIdempotent | src/service/user-status.service.ts:9 | A second `SADD` of the same member changes nothing |
| UserStatus.RemovedAbsentIsNoOp | src/service/user-status.service.ts:18 | `SREM` of a member that is not there changes nothing |
| UserStatus.ToNumbers | src/service/user-status.service.ts:26 | Each parsed id prints back as the member it came from |
| UserStatus.ToNumbersReversesToDecimal | src/service/user-status.service.ts:26 | An id is among the parsed members exactly when its decimal text is a member |
| UserStatus.PresenceRegistry.SetOnline | src/service/user-status.service.ts:7-14 | On success the id is online and the info line is logged; on a store failure the keyspace is unchanged, the error line is logged and nothing propagates; no other id changes its status |
| UserStatus.PresenceRegistry.SetOffline | src/service/user-status.service.ts:16-23 | On success the id is offline, an id that was not online leaves the keyspace unchanged, and the info line is logged; on a store failure the keyspace is unchanged and the error line is logged; no other id changes its status |
| UserStatus.PresenceRegistry.SMembers | src/service/user-status.service.ts:26 | The members of the set, each exactly once |
| UserStatus.PresenceRegistry.GetAllOnlineUsers | src/service/user-status.service.ts:25-27 | A read failure reaches the caller; otherwise exactly the online ids, each once |
| UserStatus.SetOnlineTwice | src/service/user-status.service.ts:7-27 | Two `setOnline` calls for an id and a `setOffline` of an absent id: the read lists the id exactly once and not the absent one |
| UserStatus.DistinctCountsOnce | src/service/user-status.service.ts:26 | In a listing without repeats, a listed id occurs once |

## Left out

- Token signing and verification are not modelled (`src/provider/jwt` is not part of this model). `TypeIsolated` is an assumption about the provider, not a proved fact. Reading `getExpirationByType` as a lifetime measured from the issue instant is part of that assumption. `GenerateTokens` has no contract of its own; `TokensVerifyAsIssued` states what it promises under that assumption. The assumption also fixes millisecond resolution for issue and expiry instants: tokens issued at different milliseconds are different, whereas a provider whose `iat` and `exp` are whole seconds may return the same token twice within one second.
- Hashing and comparing passwords are uninterpreted functions, and salting is not modelled.
- `sendOtp` is modelled as appending to the outbox and returning a given timestamp. A failing `sendOtp` is not modelled.
- `sendGreeting` is fire-and-forget and nobody observes it, so the model leaves it out.
- Logging inside `refreshToken` is not modelled.
- The mapper `mapUserToDto` is not part of this model. It is taken to select the same five fields as `userDtoFields`.
- The schema and the environment are not part of this model. The default `role` of a new row and `OTP_EXPIRATION_SECONDS` are therefore constructor parameters of `UserService`. The constructor's empty table and an id sequence starting at 1 are assumptions about a fresh database, not code of the service.
- Credentials.SuggestUsers: the query has no `orderBy`, so the store's order is unspecified. The model lists the matches in id order, but its contract promises only which rows appear and that none appears twice.
- Credentials.Contains: exact, case-sensitive matching. Whether Prisma's `contains` ignores case depends on the database collation, which is not part of this model (PostgreSQL's default matches case, MySQL's default collation does not). The same collation decides email equality in every lookup by email (`FindByEmail`, `HasEmail`) and the unique constraint that `EmailsUnique` models. The model compares emails exactly, so under a case-insensitive collation `register` would also refuse "A@x.com" once "a@x.com" exists, while the model accepts it.
- Accounts.UserService.DeleteUser: Prisma's lazy query promise is not modelled, only its consequence here: the dropped, unawaited delete never reaches the database, so the model's delete changes nothing. A client library that started queries eagerly would delete the row at some later, unobserved time.
- Decimal numbers are unbounded integers. JavaScript numbers are doubles, so `ToDecimal` agrees with `toString()` only for ids of magnitude at most 2^53 (`(2**60).toString()` is "1152921504606847000", not the exact digits), and non-integer ids and exponent notation are not modelled. `ParseNumber` answers none for every string that is not an optionally signed decimal numeral, whereas unary `+` also reads other text: `+""` is 0, `+"1."` is 1, `+"1e3"` is 1000, and whitespace, hexadecimal and `+`-signed text have values too. No property depends on either gap: every member read back is canonical `toString()` output, and ids of a Prisma `Int` column stay below 2^31.
- Failures of the store and of the password provider are not modelled in any operation, nor are races between concurrent requests. In the code such a failure rejects with its own error: a failed query in `register`, `confirmEmail`, `login`, `editUsername`, `getAllUsers`, `suggestUsers` or `findUser`, a rejected `comparePassword` in `login`, and a rejected `hashPassword` in `register` after the OTP mail has gone out. So `Login`'s promise that every failure is an `InvalidCredentialsError` holds only for the failures modelled. `refreshToken` is the exception, because its `catch` turns these failures into `InvalidCredentialsError` as well.
- Redis connection lifecycle, concurrency between gateway instances, socket binding, the realtime gateway, the routers, the file service, process start-up, middleware and environment typing are outside this model.
