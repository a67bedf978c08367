# Student management backend: a Dafny model

The system is a Spring Boot backend for managing student records. It has two
generations of code side by side:

- an older flat package with its own `AuthController`, `JwtService`, `JwtAuthFilter`
  and `StudentController`;
- a newer layered design:
  - `auth/`: registration, login and refresh-token rotation;
  - `security/`: a JWT service, a fixed-window rate limiter and its servlet filter;
  - `student/`: the entity, the service, the filter specification and the update DTO;
  - `user/`: the refresh-token repository;
  - `common/exception/`: the global exception handler.

This project models the request-handling core of both generations and proves what
that core promises:

- the rate limiter's bound and window reset;
- single-use rotation of refresh tokens, bulk revocation at login, and revocation
  that never comes undone;
- the claim sets of access and refresh tokens and the access-validity rule;
- the fail-open authentication filter of the older package;
- e-mail normalisation and duplicate detection in both packages;
- the student service's normalisation, the date rule, and uniqueness of e-mail and
  code;
- the entity's lifecycle timestamps;
- the list filter and the sort parameters;
- the bean-validation rules of the request bodies;
- the exception-to-status mapping, including the first-message-per-field validation
  map.

Several things are parameters instead of being modelled inside the project:

- **The clock.** `now` is a parameter: seconds for tokens, milliseconds for the rate
  limiter, epoch days for dates.
- **The password encoder and authentication manager.** These are oracles.
- **The JWT library.** It is an oracle too: a pair of functions `encode` and `decode`
  that round-trip under the key used to sign and reject any other key
  (`Jwt.ValidCodec`). This is a JWS of RFC 7519, signed as in section 3.2 of RFC 7518.
- **Repositories.** Each becomes a class holding its table: a sequence of rows in
  insertion order, or a map from the generated id.

Every `@Transactional` method of `AuthService` rolls back on its unchecked exceptions.
So the committed state after an error is the state before the call. The model's
`RollBack` step restores exactly that snapshot.

Modules, one per file:

| file | module | models |
|---|---|---|
| wrappers.dfy | Wrappers | Option / Result |
| text.dfy | Text | `trim`, `isBlank`, ASCII case mapping, lengths, `Long.toString` digits |
| users.dfy | Users | `AppUser`, `Role` of the layered package |
| errors.dfy | Errors | exception kinds, `GlobalExceptionHandler` |
| jwt.dfy | Jwt | `security/JwtService` |
| token_store.dfy | TokenStore | `RefreshTokenRepository` |
| auth_service.dfy | AuthService | `AuthService` with both repositories |
| auth_properties.dfy | AuthProperties | invariants and scenarios of `AuthService` |
| register_request.dfy | RegisterRequestRules | `auth/dto/RegisterRequest` constraints |
| rate_limit.dfy | RateLimit | `AuthRateLimitService` |
| rate_limit_filter.dfy | RateLimitFilter | `AuthRateLimitFilter` |
| legacy_auth.dfy | LegacyAuth | older `AuthController`, token issuing of the older `JwtService` |
| legacy_gate.dfy | LegacyGate | older `JwtAuthFilter` |
| legacy_students.dfy | LegacyStudents | older `StudentController` |
| student.dfy | StudentModel | `student/model/Student` |
| student_request.dfy | StudentRequestRules | `student/dto/StudentUpdateRequest` constraints |
| student_filter.dfy | StudentFilter | `student/specification/StudentSpecification` |
| student_service.dfy | StudentService | `student/service/StudentService` |
| student_properties.dfy | StudentProperties | invariants of `StudentService` |

## Model

| member | source | states |
|---|---|---|
| Text.TrimIdempotent | src/main/java/com/hyrup/studentmanagement/auth/service/AuthService.java:140-142 | trimming a trimmed string changes nothing |
| Text.TrimEmptyIff | src/main/java/com/hyrup/studentmanagement/student/service/StudentService.java:220-227 | `trim()` is empty exactly when every character is at most U+0020 |
| Text.ToLowerIdempotent | src/main/java/com/hyrup/studentmanagement/auth/service/AuthService.java:140-142 | lower-casing a lower-cased string changes nothing |
| Text.ToUpperIdempotent | src/main/java/com/hyrup/studentmanagement/student/service/StudentService.java:154-156 | upper-casing an upper-cased string changes nothing |
| Text.TrimCommutesWithCase | src/main/java/com/hyrup/studentmanagement/auth/service/AuthService.java:140-142 | trimming and (ASCII) case mapping commute, both for lower and upper case |
| Text.NormalizeEmailIdempotent | src/main/java/com/hyrup/studentmanagement/auth/service/AuthService.java:140-142 | normalising a normalised e-mail gives it back unchanged |
| Text.NormalizeEmailIgnoresCase | src/main/java/com/hyrup/studentmanagement/AuthController.java:33 | e-mails equal up to case after trimming normalise to the same value |
| Text.JavaLength | src/main/java/com/hyrup/studentmanagement/auth/dto/RegisterRequest.java:10 | `String.length()` counts UTF-16 units: between one and two per character |
| Text.Utf8Length | src/main/java/com/hyrup/studentmanagement/security/JwtService.java:31-37 | the UTF-8 byte count lies between one and four bytes per character |
| Text.Utf8LengthAscii | src/main/java/com/hyrup/studentmanagement/security/JwtService.java:31-37 | for ASCII text the UTF-8 byte count equals the character count |
| Text.JavaLengthBmp | src/main/java/com/hyrup/studentmanagement/auth/dto/RegisterRequest.java:10 | without supplementary characters the UTF-16 length is the character count |
| Text.NatToDigits | src/main/java/com/hyrup/studentmanagement/student/service/StudentService.java:74 | the decimal rendering is non-empty, all digits, and has no leading zero |
| Text.DigitsValueOfNatToDigits | src/main/java/com/hyrup/studentmanagement/security/JwtService.java:72-81 | reading back the decimal rendering of a number gives the number |
| Text.IntToStringInjective | src/main/java/com/hyrup/studentmanagement/student/service/StudentService.java:74 | distinct ids render to distinct strings, so "not found" messages name the id unambiguously |
| Text.NatToDigitsInjective | src/main/java/com/hyrup/studentmanagement/security/JwtService.java:72-81 | distinct naturals have distinct decimal renderings |
| Errors.StatusOf | src/main/java/com/hyrup/studentmanagement/common/exception/GlobalExceptionHandler.java:22-78 | every kind maps to one of 400/401/403/404/409/500; 500 exactly for unexpected exceptions and ResponseStatusException, 400 exactly for the three validation/bad-request kinds, 401 exactly for Unauthorized/BadCredentials |
| Errors.Handle | src/main/java/com/hyrup/studentmanagement/common/exception/GlobalExceptionHandler.java:22-89 | the body's status is the handler's status with its reason phrase and the request path; it carries a validation map exactly for field-validation failures; a 500 always says "Unexpected server error" |
| Errors.HandleIntended | src/main/java/com/hyrup/studentmanagement/common/exception/GlobalExceptionHandler.java:71-78 | corrected handling: a ResponseStatusException answers with its own status and reason; every other kind is handled as written |
| Errors.ResponseStatusBecomes500 | src/main/java/com/hyrup/studentmanagement/common/exception/GlobalExceptionHandler.java:71-78 | as written, every ResponseStatusException becomes a 500 with the generic message, which differs from the intended status whenever that status is not 500 |
| Errors.HandlerMessages | src/main/java/com/hyrup/studentmanagement/common/exception/GlobalExceptionHandler.java:37-67 | the non-generic handlers pass the exception message through; the generic one never reveals it; validation answers "Validation failed" |
| Errors.ValidationErrors | src/main/java/com/hyrup/studentmanagement/common/exception/GlobalExceptionHandler.java:22-32 | the putIfAbsent loop builds the first-message map, whose keys are pairwise distinct |
| Errors.FirstIndex | src/main/java/com/hyrup/studentmanagement/common/exception/GlobalExceptionHandler.java:26-28 | the position of a field's first error: it names that field and no earlier error does |
| Errors.FirstMessagesDistinct | src/main/java/com/hyrup/studentmanagement/common/exception/GlobalExceptionHandler.java:25-28 | the validation map has one entry per field |
| Errors.FirstMessagesKeys | src/main/java/com/hyrup/studentmanagement/common/exception/GlobalExceptionHandler.java:25-28 | every key of the map is a reported field |
| Errors.FirstMessagesCovers | src/main/java/com/hyrup/studentmanagement/common/exception/GlobalExceptionHandler.java:25-28 | every reported field has an entry |
| Errors.FirstMessagesFirst | src/main/java/com/hyrup/studentmanagement/common/exception/GlobalExceptionHandler.java:27 | each entry holds the message of its field's first error |
| Errors.FirstMessagesOrder | src/main/java/com/hyrup/studentmanagement/common/exception/GlobalExceptionHandler.java:25-28 | entries appear in order of first occurrence of their fields |
| Errors.NotReportedWithoutEntry | src/main/java/com/hyrup/studentmanagement/common/exception/GlobalExceptionHandler.java:25-28 | a field without an entry was never reported |
| Jwt.LongValue | src/main/java/com/hyrup/studentmanagement/security/JwtService.java:72-81 | `longValue()` is in the long range, is the identity on it, and agrees with its argument modulo 2^64 |
| Jwt.SigningKeyFor | src/main/java/com/hyrup/studentmanagement/security/JwtService.java:31-37 | a key is made only from the secret itself; otherwise the fixed HS256 message |
| Jwt.AsciiSecretGuard | src/main/java/com/hyrup/studentmanagement/security/JwtService.java:31-37 | for an ASCII secret, the guard passes exactly at 32 characters or more |
| Jwt.SecretGuardCountsBytes | src/main/java/com/hyrup/studentmanagement/security/JwtService.java:31-37 | the guard counts bytes: under 8 characters always fails, 32 or more always passes |
| Jwt.JwtService.constructor | src/main/java/com/hyrup/studentmanagement/security/JwtService.java:25-29 | the service starts with its properties and no key |
| Jwt.JwtService.Init | src/main/java/com/hyrup/studentmanagement/security/JwtService.java:31-37 | init installs the key for a long enough secret, and otherwise fails with the message and leaves the key unset |
| Jwt.ParseLong | src/main/java/com/hyrup/studentmanagement/security/JwtService.java:78-80 | `Long.parseLong` yields a long or a NumberFormatException naming the text |
| Jwt.ParseLongOfToString | src/main/java/com/hyrup/studentmanagement/security/JwtService.java:78-80 | parsing the decimal rendering of a long gives the long back |
| Jwt.ParseLongRejects | src/main/java/com/hyrup/studentmanagement/security/JwtService.java:78-80 | empty text, a bare sign, or any non-digit after the first character is rejected |
| Jwt.UserIdClaimCases | src/main/java/com/hyrup/studentmanagement/security/JwtService.java:72-81 | extractUserId: null without uid, the number for a numeric uid, the parsed value for a decimal string |
| Jwt.IsTokenExpiredNeverTrue | src/main/java/com/hyrup/studentmanagement/security/JwtService.java:101-103 | isTokenExpired never answers true: parsing rejects an expired token first, so it throws or answers false |
| Jwt.AccessTokenValidIff | src/main/java/com/hyrup/studentmanagement/security/JwtService.java:57-62 | an access token is valid exactly when it parses, names the user, has type "access" and has not expired — both directions |
| Jwt.IssuedAccessToken | src/test/java/com/hyrup/studentmanagement/security/JwtServiceTest.java:38-41 | a fresh access token reads back its e-mail, uid, type and exp, and is valid for its user until exp |
| Jwt.AccessTokenClaimSet | src/main/java/com/hyrup/studentmanagement/security/JwtService.java:39-47 | an access token carries exactly uid, email, role and type, with subject, issuer, iat and exp = iat + access TTL |
| Jwt.RefreshTokenClaimSet | src/main/java/com/hyrup/studentmanagement/security/JwtService.java:49-55 | a refresh token carries exactly uid and type "refresh", with exp = iat + refresh TTL, and reads them back |
| Jwt.RefreshTokenNeverAccess | src/main/java/com/hyrup/studentmanagement/security/JwtService.java:57-62 | a refresh token is never a valid access token, under any key |
| Jwt.ExpiredAccessTokenThrows | src/main/java/com/hyrup/studentmanagement/security/JwtService.java:93-99 | after exp an access token makes validation throw, not answer false |
| Jwt.ForeignKeyRejected | src/main/java/com/hyrup/studentmanagement/security/JwtService.java:93-99 | a token signed with another key fails the signature check |
| TokenStore.FindByToken | src/main/java/com/hyrup/studentmanagement/user/repository/RefreshTokenRepository.java:13 | the unique row with exactly that text; none exactly when no row has it; several reported as such |
| TokenStore.RevokedFor | src/main/java/com/hyrup/studentmanagement/user/repository/RefreshTokenRepository.java:15-17 | the bulk update keeps the number of rows |
| TokenStore.RefreshTokenRepository.constructor | src/main/java/com/hyrup/studentmanagement/user/repository/RefreshTokenRepository.java:11 | the table starts empty |
| TokenStore.RefreshTokenRepository.Insert | src/main/java/com/hyrup/studentmanagement/auth/service/AuthService.java:121-128 | save of a new row appends it |
| TokenStore.RefreshTokenRepository.Update | src/main/java/com/hyrup/studentmanagement/auth/service/AuthService.java:113-115 | save of a stored row rewrites that row only |
| TokenStore.RefreshTokenRepository.RevokeActiveTokensForUser | src/main/java/com/hyrup/studentmanagement/user/repository/RefreshTokenRepository.java:15-17 | the table becomes the bulk-updated one and the count is the number of rows selected |
| TokenStore.RevokeLeavesNoneActive | src/main/java/com/hyrup/studentmanagement/user/repository/RefreshTokenRepository.java:15-17 | afterwards the user has no unrevoked row |
| TokenStore.RevokeFrame | src/main/java/com/hyrup/studentmanagement/user/repository/RefreshTokenRepository.java:16 | only the user's unrevoked rows change, only in their flag; text, owner and expiry stay |
| TokenStore.RevokeIdempotent | src/main/java/com/hyrup/studentmanagement/user/repository/RefreshTokenRepository.java:16 | a second bulk update changes nothing and counts zero |
| TokenStore.NoneActiveCountsZero | src/main/java/com/hyrup/studentmanagement/user/repository/RefreshTokenRepository.java:15-17 | with no row selected, the update count is zero |
| TokenStore.ActiveCountIsCardinality | src/main/java/com/hyrup/studentmanagement/user/repository/RefreshTokenRepository.java:15-17 | the update count equals the number of the user's unrevoked rows |
| TokenStore.FindAfterInsert | src/main/java/com/hyrup/studentmanagement/user/repository/RefreshTokenRepository.java:13 | an insert changes only the lookup of its own text: unknown becomes found, known becomes ambiguous |
| TokenStore.FindAfterRevoke | src/main/java/com/hyrup/studentmanagement/user/repository/RefreshTokenRepository.java:13-17 | revocation never changes a lookup |
| TokenStore.SameTokensSameLookup | src/main/java/com/hyrup/studentmanagement/user/repository/RefreshTokenRepository.java:13 | lookups depend only on the token texts |
| AuthService.FindUserIndex | src/main/java/com/hyrup/studentmanagement/auth/service/AuthService.java:78-79 | findByEmail finds a user with exactly that e-mail, and none exactly when no user has it |
| AuthService.AppUserRepository.constructor | src/main/java/com/hyrup/studentmanagement/auth/service/AuthService.java:39-49 | the user table starts empty |
| AuthService.AppUserRepository.Save | src/main/java/com/hyrup/studentmanagement/auth/service/AuthService.java:62 | save assigns the next id and appends |
| AuthService.AuthService.constructor | src/main/java/com/hyrup/studentmanagement/auth/service/AuthService.java:39-49 | the service holds its collaborators |
| AuthService.AuthService.RollBack | src/main/java/com/hyrup/studentmanagement/auth/service/AuthService.java:50 | the rollback restores both tables to the snapshot |
| AuthService.AuthService.IssueTokens | src/main/java/com/hyrup/studentmanagement/auth/service/AuthService.java:121-139 | generate both tokens, store the refresh row, answer, or roll back |
| AuthService.AuthService.Register | src/main/java/com/hyrup/studentmanagement/auth/service/AuthService.java:51-67 | the result and committed tables are those of RegisterSpec, whose properties are proved in AuthProperties |
| AuthService.AuthService.Login | src/main/java/com/hyrup/studentmanagement/auth/service/AuthService.java:69-86 | the result and committed tables are those of LoginSpec |
| AuthService.AuthService.Refresh | src/main/java/com/hyrup/studentmanagement/auth/service/AuthService.java:88-120 | the result and committed tables are those of RefreshSpec |
| AuthProperties.IssueShape | src/main/java/com/hyrup/studentmanagement/auth/service/AuthService.java:121-139 | the tail rolls back, or keeps the users and appends one unrevoked row for the user holding the answered refresh token; the answer is Bearer with the access TTL and the user's id, e-mail and role |
| AuthProperties.IssueSucceeds | src/main/java/com/hyrup/studentmanagement/auth/service/AuthService.java:121-128 | with a sound library the tail succeeds and the stored row has expiresAt = the refresh token's exp |
| AuthProperties.IssueOk | src/main/java/com/hyrup/studentmanagement/auth/service/AuthService.java:121-139 | with a sound library the tail never fails |
| AuthProperties.RegisterErrorChangesNothing | src/main/java/com/hyrup/studentmanagement/auth/service/AuthService.java:51-67 | a failed register leaves both tables unchanged |
| AuthProperties.LoginErrorChangesNothing | src/main/java/com/hyrup/studentmanagement/auth/service/AuthService.java:69-86 | a failed login leaves both tables unchanged |
| AuthProperties.RefreshErrorChangesNothing | src/main/java/com/hyrup/studentmanagement/auth/service/AuthService.java:88-120 | a failed refresh leaves both tables unchanged, including the rolled-back revocations |
| AuthProperties.RegisterConflictIff | src/main/java/com/hyrup/studentmanagement/auth/service/AuthService.java:52-56 | Conflict exactly when the normalised e-mail is taken, and then nothing is written |
| AuthProperties.RegisterCreatesUser | src/test/java/com/hyrup/studentmanagement/auth/service/AuthServiceTest.java:72-82 | a successful register stores one user: next id, trimmed name, normalised e-mail, encoded password, USER; and one unrevoked token row |
| AuthProperties.LoginFailuresAlike | src/main/java/com/hyrup/studentmanagement/auth/service/AuthService.java:71-77 | unknown e-mail and wrong password give the same 401 and change nothing |
| AuthProperties.LoginNeverNotFound | src/main/java/com/hyrup/studentmanagement/auth/service/AuthService.java:78-79 | the "User does not exist" branch cannot be reached |
| AuthProperties.LoginRevokesEarlierRows | src/main/java/com/hyrup/studentmanagement/auth/service/AuthService.java:81-85 | after login every earlier row of the user is revoked, other rows are unchanged, and the new row is the user's only active one |
| AuthProperties.RevokeThenAppend | src/main/java/com/hyrup/studentmanagement/auth/service/AuthService.java:81-85 | bulk revoke then insert leaves the new row as the user's only active row |
| AuthProperties.RefreshFailuresAreUnauthorized | src/main/java/com/hyrup/studentmanagement/auth/service/AuthService.java:88-112 | under the invariant every refresh failure is a 401 with one of five fixed messages, unless the lookup is ambiguous |
| AuthProperties.RefreshRejectsUnknownOrRevoked | src/main/java/com/hyrup/studentmanagement/auth/service/AuthService.java:89-94 | an unknown or revoked token fails 401 and changes nothing |
| AuthProperties.RefreshSuccessIsIssue | src/main/java/com/hyrup/studentmanagement/auth/service/AuthService.java:88-120 | a successful refresh passed every check and is the tail for the owner with the row revoked |
| AuthProperties.RefreshRotates | src/main/java/com/hyrup/studentmanagement/auth/service/AuthService.java:113-119 | a successful refresh revokes exactly the presented row and appends one unrevoked row for the same owner |
| AuthProperties.RefreshSingleUse | src/main/java/com/hyrup/studentmanagement/auth/service/AuthService.java:92-94 | presenting the same refresh token again fails |
| AuthProperties.RegisterEvolves | src/main/java/com/hyrup/studentmanagement/auth/service/AuthService.java:51-67 | register only appends users and token rows; no revoked row is unrevoked |
| AuthProperties.LoginEvolves | src/main/java/com/hyrup/studentmanagement/auth/service/AuthService.java:69-86 | login only revokes and appends token rows |
| AuthProperties.RevokeEvolves | src/main/java/com/hyrup/studentmanagement/user/repository/RefreshTokenRepository.java:15-17 | the bulk update only sets flags |
| AuthProperties.AppendEvolves | src/main/java/com/hyrup/studentmanagement/auth/service/AuthService.java:121-128 | an insert after revocations is still monotone |
| AuthProperties.RefreshEvolves | src/main/java/com/hyrup/studentmanagement/auth/service/AuthService.java:88-120 | refresh only revokes and appends token rows |
| AuthProperties.RefreshTailEvolves | src/main/java/com/hyrup/studentmanagement/auth/service/AuthService.java:113-119 | rotating a row and issuing is monotone |
| AuthProperties.RegisterKeepsValid | src/main/java/com/hyrup/studentmanagement/auth/service/AuthService.java:51-67 | register keeps ids = positions, unique e-mails, well-issued rows and at most one active row per user |
| AuthProperties.NewUserKeepsValid | src/main/java/com/hyrup/studentmanagement/auth/service/AuthService.java:57-65 | a new user with the next id and a free e-mail, plus its row, keeps the invariant |
| AuthProperties.LoginKeepsValid | src/main/java/com/hyrup/studentmanagement/auth/service/AuthService.java:69-86 | login keeps the invariant |
| AuthProperties.LoginTailKeepsValid | src/main/java/com/hyrup/studentmanagement/auth/service/AuthService.java:81-85 | revoke-then-issue for a stored user keeps the invariant |
| AuthProperties.RefreshKeepsValid | src/main/java/com/hyrup/studentmanagement/auth/service/AuthService.java:88-120 | refresh keeps the invariant |
| AuthProperties.RefreshTailKeepsValid | src/main/java/com/hyrup/studentmanagement/auth/service/AuthService.java:113-119 | rotating an active row and issuing to its owner keeps the invariant |
| AuthProperties.RefreshSucceeded | src/main/java/com/hyrup/studentmanagement/auth/service/AuthService.java:88-120 | a successful refresh found one unrevoked row whose owner exists |
| AuthProperties.IssueKeepsValid | src/main/java/com/hyrup/studentmanagement/auth/service/AuthService.java:121-128 | issuing to a stored user without active rows keeps the invariant |
| AuthProperties.UsersAppend | src/main/java/com/hyrup/studentmanagement/auth/service/AuthService.java:54-62 | a user with the next id and a free e-mail keeps the user table valid |
| AuthProperties.RowsAppend | src/main/java/com/hyrup/studentmanagement/auth/service/AuthService.java:121-128 | a well-issued row of an existing user keeps the rows valid |
| AuthProperties.RowsRevoke | src/main/java/com/hyrup/studentmanagement/user/repository/RefreshTokenRepository.java:15-17 | the bulk update keeps the rows valid |
| AuthProperties.RowsRotate | src/main/java/com/hyrup/studentmanagement/auth/service/AuthService.java:113-115 | revoking one row keeps the rows valid |
| AuthProperties.AppendFirstActive | src/main/java/com/hyrup/studentmanagement/auth/service/AuthService.java:121-128 | appending the user's first active row keeps at most one active row per user |
| AuthProperties.RotateLeavesNoneActive | src/main/java/com/hyrup/studentmanagement/auth/service/AuthService.java:113-115 | revoking a user's active row leaves that user none |
| AuthProperties.FreshUserTokenIsNew | src/main/java/com/hyrup/studentmanagement/auth/service/AuthService.java:63-65 | a new user's refresh token matches no stored row |
| AuthProperties.RefreshSucceedsWhen | src/main/java/com/hyrup/studentmanagement/auth/service/AuthService.java:88-120 | when every check passes, refresh succeeds |
| AuthProperties.RefreshOwnNewToken | src/main/java/com/hyrup/studentmanagement/auth/service/AuthService.java:88-128 | a just-issued refresh token is accepted before it expires |
| AuthProperties.RegisterThenRefresh | src/main/java/com/hyrup/studentmanagement/auth/service/AuthService.java:51-120 | register, then refresh with its token before expiry, succeeds |
| AuthProperties.SameSecondRefreshDuplicates | src/main/java/com/hyrup/studentmanagement/auth/service/AuthService.java:116-128 | a refresh in the token's own second re-issues the identical text, after which lookups are ambiguous |
| RegisterRequestRules.PatternIgnoresPositions | src/main/java/com/hyrup/studentmanagement/auth/dto/RegisterRequest.java:17-20 | the pattern holds exactly for a non-empty single line containing each of the four classes somewhere |
| RegisterRequestRules.SpecialAndDigitClasses | src/main/java/com/hyrup/studentmanagement/auth/dto/RegisterRequest.java:18 | blanks and non-ASCII count as special; only 0-9 is a digit |
| RegisterRequestRules.NoAsciiDigitRejected | src/main/java/com/hyrup/studentmanagement/auth/dto/RegisterRequest.java:18 | a password without an ASCII digit never matches |
| RegisterRequestRules.PatternImpliesNotBlank | src/main/java/com/hyrup/studentmanagement/auth/dto/RegisterRequest.java:15-20 | the pattern subsumes @NotBlank |
| RegisterRequestRules.Validated | src/main/java/com/hyrup/studentmanagement/auth/dto/RegisterRequest.java:9-21 | a request passes exactly when every constraint holds, and then carries the bound fields |
| RegisterRequestRules.PasswordValidIff | src/main/java/com/hyrup/studentmanagement/auth/dto/RegisterRequest.java:15-21 | the password is valid exactly for 8..72 UTF-16 units matching the pattern |
| RegisterRequestRules.MissingFieldInvalid | src/main/java/com/hyrup/studentmanagement/auth/dto/RegisterRequest.java:9-21 | a missing field is always a violation |
| RegisterRequestRules.ValidRequestStoresNonEmpty | src/main/java/com/hyrup/studentmanagement/auth/dto/RegisterRequest.java:9-14 | a valid request stores a non-empty trimmed name and normalised e-mail |
| RateLimit.AuthRateLimitService.constructor | src/main/java/com/hyrup/studentmanagement/security/AuthRateLimitService.java:15-20 | an empty table with the configured limit |
| RateLimit.AuthRateLimitService.IsAllowed | src/main/java/com/hyrup/studentmanagement/security/AuthRateLimitService.java:22-42 | the answer and the new table are those of Step, and the bound is kept |
| RateLimit.AuthRateLimitService.CleanupIfNeeded | src/main/java/com/hyrup/studentmanagement/security/AuthRateLimitService.java:44-50 | the table becomes the swept one |
| RateLimit.SweepKeeps | src/main/java/com/hyrup/studentmanagement/security/AuthRateLimitService.java:44-50 | below 2000 keys nothing goes; otherwise exactly entries older than five minutes go, and kept entries are unchanged |
| RateLimit.StepKeepsBound | src/main/java/com/hyrup/studentmanagement/security/AuthRateLimitService.java:33-37 | no counter ever exceeds the limit |
| RateLimit.FirstSeenAllowed | src/main/java/com/hyrup/studentmanagement/security/AuthRateLimitService.java:25-37 | a new key is allowed and counted once from now |
| RateLimit.RejectedIff | src/main/java/com/hyrup/studentmanagement/security/AuthRateLimitService.java:28-35 | refused exactly inside an open window at the limit, and a refusal changes nothing |
| RateLimit.WindowResets | src/main/java/com/hyrup/studentmanagement/security/AuthRateLimitService.java:28-31 | after the window runs out the counter restarts at now and the call is allowed |
| RateLimit.AllowedKeySurvives | src/main/java/com/hyrup/studentmanagement/security/AuthRateLimitService.java:28-49 | the key just allowed is never swept in the same call |
| RateLimit.OtherKeysUntouched | src/main/java/com/hyrup/studentmanagement/security/AuthRateLimitService.java:25-50 | another key's entry is kept as it was, or swept by an allowed call at the threshold when older than five minutes |
| RateLimit.Decisions | src/main/java/com/hyrup/studentmanagement/security/AuthRateLimitService.java:22-42 | successive calls give one answer each |
| RateLimit.BurstWithinWindow | src/main/java/com/hyrup/studentmanagement/security/AuthRateLimitService.java:28-37 | inside one window, the i-th further call is allowed exactly while used + i is below the limit |
| RateLimit.FreshKeyBurst | src/main/java/com/hyrup/studentmanagement/security/AuthRateLimitService.java:25-37 | a fresh key gets exactly `limit` calls in its first window |
| RateLimitFilter.TooManyRequestsBody | src/main/java/com/hyrup/studentmanagement/security/AuthRateLimitFilter.java:46-51 | the refusal body has status 429, its reason phrase, the retry message and the request path |
| RateLimitFilter.AuthRateLimitFilter.constructor | src/main/java/com/hyrup/studentmanagement/security/AuthRateLimitFilter.java:26-33 | the filter holds its limiter |
| RateLimitFilter.AuthRateLimitFilter.DoFilter | src/main/java/com/hyrup/studentmanagement/security/AuthRateLimitFilter.java:35-60 | unmetered requests pass once with the table unchanged; metered ones follow Step: pass once, or 429 JSON without invoking the chain |
| RateLimitFilter.MeteredIff | src/main/java/com/hyrup/studentmanagement/security/AuthRateLimitFilter.java:21-38 | metered exactly for a POST in any case to the login or register path |
| RateLimitFilter.RefreshNeverMetered | src/main/java/com/hyrup/studentmanagement/security/AuthRateLimitFilter.java:35-38 | the refresh path bypasses the limiter |
| RateLimitFilter.MeteredKeysDistinct | src/main/java/com/hyrup/studentmanagement/security/AuthRateLimitFilter.java:43 | two metered requests share a counter exactly when address and path agree |
| LegacyAuth.FindByEmail | src/main/java/com/hyrup/studentmanagement/AppUserRepository.java:10 | a user with exactly that e-mail; none exactly when no user has it |
| LegacyAuth.LegacyUserRepository.constructor | src/main/java/com/hyrup/studentmanagement/AppUserRepository.java:6 | the table starts empty |
| LegacyAuth.LegacyUserRepository.Save | src/main/java/com/hyrup/studentmanagement/AuthController.java:44 | save assigns the next id and appends |
| LegacyAuth.GenerateToken | src/main/java/com/hyrup/studentmanagement/JwtService.java:23-37 | fails exactly for a secret under 32 UTF-8 bytes; otherwise signs the userId/email/role claims |
| LegacyAuth.LegacyAuthController.constructor | src/main/java/com/hyrup/studentmanagement/AuthController.java:24-28 | the controller holds its collaborators |
| LegacyAuth.LegacyAuthController.Register | src/main/java/com/hyrup/studentmanagement/AuthController.java:30-47 | result and user table are those of RegisterSpec |
| LegacyAuth.LegacyAuthController.Login | src/main/java/com/hyrup/studentmanagement/AuthController.java:49-61 | login writes nothing and answers LoginSpec |
| LegacyAuth.RegisterConflictIff | src/main/java/com/hyrup/studentmanagement/AuthController.java:33-36 | 409 exactly when the normalised e-mail is taken, then nothing is written |
| LegacyAuth.RegisterSavesOne | src/main/java/com/hyrup/studentmanagement/AuthController.java:38-46 | otherwise one user is saved (even if token issuing then fails); success answers Bearer with the configured lifetime |
| LegacyAuth.LoginIgnoresCaseAndBlanks | src/main/java/com/hyrup/studentmanagement/AuthController.java:51 | login ignores case and surrounding blanks of the e-mail |
| LegacyAuth.LoginFailuresAlike | src/main/java/com/hyrup/studentmanagement/AuthController.java:52-57 | unknown e-mail and wrong password give the identical 401 |
| LegacyAuth.LoginSuccess | src/main/java/com/hyrup/studentmanagement/AuthController.java:59-60 | success answers a token for the stored user, Bearer, configured lifetime |
| LegacyAuth.IssuedTokenClaims | src/main/java/com/hyrup/studentmanagement/JwtService.java:23-37 | the issued token reads back its claim set before it expires |
| LegacyAuth.RequestPasswordRules | src/main/java/com/hyrup/studentmanagement/AuthController.java:63-74 | a valid register request is a valid login request with 8..128 units of password; a blank or missing password fails both |
| LegacyAuth.ErrorsAnsweredAs500 | src/main/java/com/hyrup/studentmanagement/common/exception/GlobalExceptionHandler.java:71-78 | as written, a duplicate registration and a failed login reach the client as 500 |
| LegacyAuth.ErrorsAnsweredAsIntended | src/main/java/com/hyrup/studentmanagement/AuthController.java:35-56 | with the corrected handler they answer 409 and 401 with their reasons |
| LegacyGate.SecurityContext.constructor | src/main/java/com/hyrup/studentmanagement/JwtAuthFilter.java:42 | the context starts without authentication |
| LegacyGate.Parse | src/main/java/com/hyrup/studentmanagement/JwtService.java:52-62 | parse succeeds only for a valid secret and then gives the library's claims |
| LegacyGate.JwtAuthFilter.constructor | src/main/java/com/hyrup/studentmanagement/JwtAuthFilter.java:20-25 | the filter holds its collaborators |
| LegacyGate.JwtAuthFilter.DoFilterInternal | src/main/java/com/hyrup/studentmanagement/JwtAuthFilter.java:27-60 | the chain runs exactly once and the context becomes GateSpec of the old one |
| LegacyGate.NoBearerUntouched | src/main/java/com/hyrup/studentmanagement/JwtAuthFilter.java:33-37 | without "Bearer " the context is untouched |
| LegacyGate.InstallsIff | src/main/java/com/hyrup/studentmanagement/JwtAuthFilter.java:39-51 | an authentication is installed exactly when the token parses, names a stored user and is before exp; it is that e-mail with ROLE_ + role |
| LegacyGate.NeverReplaces | src/main/java/com/hyrup/studentmanagement/JwtAuthFilter.java:42 | a present authentication stays, or is cleared by an exception |
| LegacyGate.ExceptionClears | src/main/java/com/hyrup/studentmanagement/JwtAuthFilter.java:55-57 | any exception clears the context |
| LegacyGate.ParseIssued | src/main/java/com/hyrup/studentmanagement/JwtService.java:23-58 | an issued token parses to its claims up to exp and throws after |
| LegacyGate.GateOnUserToken | src/main/java/com/hyrup/studentmanagement/JwtAuthFilter.java:39-51 | a parsed token of a stored user authenticates iff before exp, otherwise nothing |
| LegacyGate.IssuedTokenLifetime | src/main/java/com/hyrup/studentmanagement/JwtService.java:43-46 | an issued token authenticates strictly before exp; at and after exp nothing is installed |
| LegacyGate.ExpiredTokenClears | src/main/java/com/hyrup/studentmanagement/JwtAuthFilter.java:55-57 | after exp even a present authentication is cleared |
| LegacyGate.ForeignTokenClears | src/main/java/com/hyrup/studentmanagement/JwtAuthFilter.java:55-57 | a token under another secret clears the context |
| LegacyStudents.GpaBoundsIff | src/main/java/com/hyrup/studentmanagement/StudentController.java:134 | gpa bounds are the closed interval [0, 4] on its value |
| LegacyStudents.Apply | src/main/java/com/hyrup/studentmanagement/StudentController.java:91-105 | the row gets the id and the normalised e-mail |
| LegacyStudents.ApplyCopiesVerbatim | src/main/java/com/hyrup/studentmanagement/StudentController.java:91-105 | every other field is copied as sent, untrimmed |
| LegacyStudents.IndexOf | src/main/java/com/hyrup/studentmanagement/StudentController.java:68-69 | findById finds a row with that id, or none has it |
| LegacyStudents.Without | src/main/java/com/hyrup/studentmanagement/StudentController.java:88 | deleteById keeps exactly the rows with any other id |
| LegacyStudents.LegacyStudentRepository.constructor | src/main/java/com/hyrup/studentmanagement/StudentRepository.java:5 | the table starts empty with next id 1 |
| LegacyStudents.GetByIdSpec | src/main/java/com/hyrup/studentmanagement/StudentController.java:44-49 | the stored row, or 404 "Student not found" |
| LegacyStudents.LegacyStudentController.constructor | src/main/java/com/hyrup/studentmanagement/StudentController.java:35-37 | the controller holds its repository |
| LegacyStudents.LegacyStudentController.GetAll | src/main/java/com/hyrup/studentmanagement/StudentController.java:39-42 | one response per stored row, in order |
| LegacyStudents.LegacyStudentController.GetById | src/main/java/com/hyrup/studentmanagement/StudentController.java:44-49 | answers GetByIdSpec |
| LegacyStudents.LegacyStudentController.Create | src/main/java/com/hyrup/studentmanagement/StudentController.java:51-64 | result and table are those of CreateSpec |
| LegacyStudents.LegacyStudentController.Update | src/main/java/com/hyrup/studentmanagement/StudentController.java:66-80 | result and table are those of UpdateSpec |
| LegacyStudents.LegacyStudentController.Delete | src/main/java/com/hyrup/studentmanagement/StudentController.java:82-89 | result and table are those of DeleteSpec |
| LegacyStudents.CreateCheckOrder | src/main/java/com/hyrup/studentmanagement/StudentController.java:54-63 | studentId conflict first, then e-mail; a 409 saves nothing; otherwise one row under the next id |
| LegacyStudents.CreateKeepsValid | src/main/java/com/hyrup/studentmanagement/StudentController.java:51-64 | create keeps ids and studentIds unique |
| LegacyStudents.AppendKeepsValid | src/main/java/com/hyrup/studentmanagement/StudentController.java:61-63 | a row under the next id with a free studentId keeps the store valid |
| LegacyStudents.UpdateUnknownNotFound | src/main/java/com/hyrup/studentmanagement/StudentController.java:68-69 | an unknown id is 404 before any conflict check |
| LegacyStudents.UpdateIgnoresSelf | src/main/java/com/hyrup/studentmanagement/StudentController.java:71-79 | the checks skip the updated row; success rewrites that row alone |
| LegacyStudents.UpdateKeepsValid | src/main/java/com/hyrup/studentmanagement/StudentController.java:66-80 | update keeps ids and studentIds unique |
| LegacyStudents.ReplaceKeepsValid | src/main/java/com/hyrup/studentmanagement/StudentController.java:78-79 | rewriting a row under its id with a free studentId keeps the store valid |
| LegacyStudents.DeleteExact | src/main/java/com/hyrup/studentmanagement/StudentController.java:84-89 | unknown id is 404 with the store unchanged; otherwise exactly that row goes |
| LegacyStudents.CreateAdmitsCaseVariant | src/main/java/com/hyrup/studentmanagement/StudentController.java:57-95 | as written, a case variant of a stored e-mail passes and two rows share the e-mail |
| LegacyStudents.CaseVariantWitness | src/main/java/com/hyrup/studentmanagement/StudentController.java:57-95 | stored "a" and requested "A" give two rows with e-mail "a" |
| LegacyStudents.CreateIntendedKeepsEmailsUnique | src/main/java/com/hyrup/studentmanagement/StudentController.java:57-95 | with the check on the stored value, create keeps e-mails unique |
| LegacyStudents.UpdateIntendedKeepsEmailsUnique | src/main/java/com/hyrup/studentmanagement/StudentController.java:74-95 | with the check on the stored value, update keeps e-mails unique |
| LegacyStudents.CreateIntendedRejectsCaseVariant | src/main/java/com/hyrup/studentmanagement/StudentController.java:57-95 | the corrected create rejects the case variant with 409 and saves nothing |
| StudentModel.Pow10 | src/main/java/com/hyrup/studentmanagement/student/model/Student.java:90-91 | powers of ten are positive |
| StudentModel.Persisted | src/main/java/com/hyrup/studentmanagement/student/model/Student.java:109-114 | prePersist sets both timestamps to the same instant and nothing else |
| StudentModel.Touched | src/main/java/com/hyrup/studentmanagement/student/model/Student.java:116-119 | preUpdate changes only updatedAt |
| StudentModel.HistoryOrdered | src/main/java/com/hyrup/studentmanagement/student/model/Student.java:109-119 | with a monotone clock, createdAt stays, updatedAt is the latest instant, createdAt <= updatedAt, other columns untouched |
| StudentModel.Student.constructor | src/main/java/com/hyrup/studentmanagement/student/model/Student.java:20 | a new Student has every field null |
| StudentModel.Student.Of | src/main/java/com/hyrup/studentmanagement/student/model/Student.java:20-107 | the loaded entity holds the stored row |
| StudentModel.Student.PrePersist | src/main/java/com/hyrup/studentmanagement/student/model/Student.java:109-114 | the entity becomes Persisted of itself |
| StudentModel.Student.PreUpdate | src/main/java/com/hyrup/studentmanagement/student/model/Student.java:116-119 | the entity becomes Touched of itself |
| StudentModel.Student.SetId | src/main/java/com/hyrup/studentmanagement/student/model/Student.java:125-127 | only id changes, to the value set |
| StudentModel.Student.SetStudentCode | src/main/java/com/hyrup/studentmanagement/student/model/Student.java:133-135 | only studentCode changes |
| StudentModel.Student.SetFirstName | src/main/java/com/hyrup/studentmanagement/student/model/Student.java:141-143 | only firstName changes |
| StudentModel.Student.SetLastName | src/main/java/com/hyrup/studentmanagement/student/model/Student.java:149-151 | only lastName changes |
| StudentModel.Student.SetEmail | src/main/java/com/hyrup/studentmanagement/student/model/Student.java:157-159 | only email changes |
| StudentModel.Student.SetPhone | src/main/java/com/hyrup/studentmanagement/student/model/Student.java:165-167 | only phone changes |
| StudentModel.Student.SetDateOfBirth | src/main/java/com/hyrup/studentmanagement/student/model/Student.java:173-175 | only dateOfBirth changes |
| StudentModel.Student.SetGender | src/main/java/com/hyrup/studentmanagement/student/model/Student.java:181-183 | only gender changes |
| StudentModel.Student.SetAddressLine1 | src/main/java/com/hyrup/studentmanagement/student/model/Student.java:189-191 | only addressLine1 changes |
| StudentModel.Student.SetAddressLine2 | src/main/java/com/hyrup/studentmanagement/student/model/Student.java:197-199 | only addressLine2 changes |
| StudentModel.Student.SetCity | src/main/java/com/hyrup/studentmanagement/student/model/Student.java:205-207 | only city changes |
| StudentModel.Student.SetState | src/main/java/com/hyrup/studentmanagement/student/model/Student.java:213-215 | only state changes |
| StudentModel.Student.SetPostalCode | src/main/java/com/hyrup/studentmanagement/student/model/Student.java:221-223 | only postalCode changes |
| StudentModel.Student.SetCountry | src/main/java/com/hyrup/studentmanagement/student/model/Student.java:229-231 | only country changes |
| StudentModel.Student.SetEmergencyContactName | src/main/java/com/hyrup/studentmanagement/student/model/Student.java:237-239 | only emergencyContactName changes |
| StudentModel.Student.SetEmergencyContactPhone | src/main/java/com/hyrup/studentmanagement/student/model/Student.java:245-247 | only emergencyContactPhone changes |
| StudentModel.Student.SetEmergencyContactRelation | src/main/java/com/hyrup/studentmanagement/student/model/Student.java:253-255 | only emergencyContactRelation changes |
| StudentModel.Student.SetCourseName | src/main/java/com/hyrup/studentmanagement/student/model/Student.java:261-263 | only courseName changes |
| StudentModel.Student.SetMajor | src/main/java/com/hyrup/studentmanagement/student/model/Student.java:269-271 | only major changes |
| StudentModel.Student.SetAcademicYear | src/main/java/com/hyrup/studentmanagement/student/model/Student.java:277-279 | only academicYear changes |
| StudentModel.Student.SetEnrollmentDate | src/main/java/com/hyrup/studentmanagement/student/model/Student.java:285-287 | only enrollmentDate changes |
| StudentModel.Student.SetExpectedGraduationDate | src/main/java/com/hyrup/studentmanagement/student/model/Student.java:293-295 | only expectedGraduationDate changes |
| StudentModel.Student.SetGpa | src/main/java/com/hyrup/studentmanagement/student/model/Student.java:301-303 | only gpa changes |
| StudentModel.Student.SetCreditsCompleted | src/main/java/com/hyrup/studentmanagement/student/model/Student.java:309-311 | only creditsCompleted changes |
| StudentModel.Student.SetStatus | src/main/java/com/hyrup/studentmanagement/student/model/Student.java:317-319 | only status changes |
| StudentModel.Student.SetNotes | src/main/java/com/hyrup/studentmanagement/student/model/Student.java:325-327 | only notes changes |
| StudentModel.Student.SetCreatedAt | src/main/java/com/hyrup/studentmanagement/student/model/Student.java:333-335 | only createdAt changes |
| StudentModel.Student.SetUpdatedAt | src/main/java/com/hyrup/studentmanagement/student/model/Student.java:341-343 | only updatedAt changes |
| StudentRequestRules.NumDigits | src/main/java/com/hyrup/studentmanagement/student/dto/StudentUpdateRequest.java:94 | a number has at least one digit |
| StudentRequestRules.DigitsBelow | src/main/java/com/hyrup/studentmanagement/student/dto/StudentUpdateRequest.java:94 | a number below 10^k has at most k digits |
| StudentRequestRules.GpaValidIff | src/main/java/com/hyrup/studentmanagement/student/dto/StudentUpdateRequest.java:92-95 | gpa is valid exactly in [0, 4] with at most two decimals |
| StudentRequestRules.PhoneValidShape | src/main/java/com/hyrup/studentmanagement/student/dto/StudentUpdateRequest.java:39-69 | a valid phone is empty or has 7..30 units and no letters |
| StudentRequestRules.JavaLengthOfNarrow | src/main/java/com/hyrup/studentmanagement/student/dto/StudentUpdateRequest.java:39 | narrow characters have UTF-16 length one each |
| StudentRequestRules.ValidHasRequired | src/main/java/com/hyrup/studentmanagement/student/dto/StudentUpdateRequest.java:23-101 | a valid form has every required field, with non-blank code, names, e-mail and course |
| StudentRequestRules.MissingRequiredInvalid | src/main/java/com/hyrup/studentmanagement/student/dto/StudentUpdateRequest.java:23-101 | a missing required field makes the form invalid |
| StudentFilter.ShortValue | src/main/java/com/hyrup/studentmanagement/student/specification/StudentSpecification.java:57 | `shortValue()` is in the 16-bit range and agrees with its argument modulo 2^16 |
| StudentFilter.Select | src/main/java/com/hyrup/studentmanagement/student/specification/StudentSpecification.java:12-20 | the selected rows are exactly the stored rows the filter accepts |
| StudentFilter.NoFiltersMatchAll | src/main/java/com/hyrup/studentmanagement/student/specification/StudentSpecification.java:16-65 | with no parameter every student matches |
| StudentFilter.BlankIsAbsent | src/main/java/com/hyrup/studentmanagement/student/specification/StudentSpecification.java:24-44 | a blank search or course is the same as none |
| StudentFilter.ExtraFilterNarrows | src/main/java/com/hyrup/studentmanagement/student/specification/StudentSpecification.java:16-19 | adding any parameter never adds a match |
| StudentFilter.SearchIgnoresCase | src/main/java/com/hyrup/studentmanagement/student/specification/StudentSpecification.java:28-36 | the search ignores the case of its term |
| StudentFilter.CourseIgnoresCase | src/main/java/com/hyrup/studentmanagement/student/specification/StudentSpecification.java:45-48 | the course matches by case-insensitive equality with only the parameter trimmed |
| StudentFilter.YearFilterWraps | src/main/java/com/hyrup/studentmanagement/student/specification/StudentSpecification.java:57 | a year out of 16-bit range wraps: 65537 selects year 1 |
| StudentFilter.ToUpperBlank | src/main/java/com/hyrup/studentmanagement/student/specification/StudentSpecification.java:24 | case mapping keeps blankness |
| StudentFilter.LowerOfUpper | src/main/java/com/hyrup/studentmanagement/student/specification/StudentSpecification.java:28 | lower-casing after upper-casing is plain lower-casing |
| StudentService.SanitizeSortBy | src/main/java/com/hyrup/studentmanagement/student/service/StudentService.java:143-148 | always an allowed column: the request when allowed, createdAt otherwise |
| StudentService.AllowedColumnsNotBlank | src/main/java/com/hyrup/studentmanagement/student/service/StudentService.java:28-41 | no allowed column is blank |
| StudentService.SanitizeIdempotent | src/main/java/com/hyrup/studentmanagement/student/service/StudentService.java:143-148 | sanitising twice is sanitising once |
| StudentService.SortDirectionIff | src/main/java/com/hyrup/studentmanagement/student/service/StudentService.java:89 | ASC exactly for "asc" in any case; anything else, null included, is DESC |
| StudentService.NormalizeCodeIdempotent | src/main/java/com/hyrup/studentmanagement/student/service/StudentService.java:154-156 | normalising a code twice is normalising once |
| StudentService.NormalizeCodeIgnoresCase | src/main/java/com/hyrup/studentmanagement/student/service/StudentService.java:154-156 | codes equal up to case and blanks normalise alike |
| StudentService.TrimToNull | src/main/java/com/hyrup/studentmanagement/student/service/StudentService.java:220-227 | null exactly for null or blank-after-trim; otherwise the non-empty trimmed text |
| StudentService.TrimToNullIdempotent | src/main/java/com/hyrup/studentmanagement/student/service/StudentService.java:220-227 | trimToNull is idempotent |
| StudentService.DateRuleIff | src/main/java/com/hyrup/studentmanagement/student/service/StudentService.java:229-233 | rejected exactly for a graduation date strictly before enrollment, with a 400; equal dates pass |
| StudentService.Applied | src/main/java/com/hyrup/studentmanagement/student/service/StudentService.java:158-218 | applying a request keeps id and timestamps and stores the given e-mail and code |
| StudentService.AppliedIsTidy | src/main/java/com/hyrup/studentmanagement/student/service/StudentService.java:158-218 | every optional text column is null or a non-empty trimmed string |
| StudentService.TrimToNullTidy | src/main/java/com/hyrup/studentmanagement/student/service/StudentService.java:220-227 | trimToNull is always tidy |
| StudentService.StudentRepository.constructor | src/main/java/com/hyrup/studentmanagement/student/repository/StudentRepository.java:7 | the table starts empty, next id 1 |
| StudentService.StudentRepository.ExistsByEmail | src/main/java/com/hyrup/studentmanagement/student/repository/StudentRepository.java:9-11 | true exactly when another row holds the e-mail |
| StudentService.StudentRepository.ExistsByStudentCode | src/main/java/com/hyrup/studentmanagement/student/repository/StudentRepository.java:13-15 | true exactly when another row holds the code |
| StudentService.StudentRepository.FindById | src/main/java/com/hyrup/studentmanagement/student/service/StudentService.java:73 | a fresh entity holding the row exactly when the id is stored |
| StudentService.StudentRepository.Insert | src/main/java/com/hyrup/studentmanagement/student/service/StudentService.java:67 | the entity gets the next id and prePersist runs; the row is stored |
| StudentService.StudentRepository.Flush | src/main/java/com/hyrup/studentmanagement/student/service/StudentService.java:111-133 | the commit's flush runs preUpdate and stores the row |
| StudentService.StudentRepository.DeleteById | src/main/java/com/hyrup/studentmanagement/student/service/StudentService.java:140 | exactly that row goes |
| StudentService.NewRow | src/main/java/com/hyrup/studentmanagement/student/service/StudentService.java:64-67 | the created row has the next id, equal timestamps, and normalised e-mail and code |
| StudentService.UpdatedRow | src/main/java/com/hyrup/studentmanagement/student/service/StudentService.java:127-131 | the updated entity keeps id and timestamps with normalised e-mail and code |
| StudentService.CreateAccepted | src/main/java/com/hyrup/studentmanagement/student/service/StudentService.java:54-67 | past the three checks, create inserts NewRow under the next id |
| StudentService.GetByIdSpec | src/main/java/com/hyrup/studentmanagement/student/service/StudentService.java:71-77 | the stored row exactly when the id is stored, otherwise NotFound naming the id |
| StudentService.ListSpec | src/main/java/com/hyrup/studentmanagement/student/service/StudentService.java:79-96 | an allowed sort column, and the stored ids whose rows the filter accepts |
| StudentService.ListFilters | src/main/java/com/hyrup/studentmanagement/student/service/StudentService.java:88-96 | without parameters every stored id is listed; adding a course filter only removes ids |
| StudentService.StudentService.constructor | src/main/java/com/hyrup/studentmanagement/student/service/StudentService.java:45-47 | the service holds its repository |
| StudentService.StudentService.ApplyData | src/main/java/com/hyrup/studentmanagement/student/service/StudentService.java:158-218 | the setters leave the entity as Applied of its old state |
| StudentService.StudentService.Create | src/main/java/com/hyrup/studentmanagement/student/service/StudentService.java:49-69 | result and store are those of CreateSpec |
| StudentService.StudentService.GetById | src/main/java/com/hyrup/studentmanagement/student/service/StudentService.java:71-77 | answers GetByIdSpec |
| StudentService.StudentService.Update | src/main/java/com/hyrup/studentmanagement/student/service/StudentService.java:111-133 | result and store are those of UpdateSpec |
| StudentService.StudentService.List | src/main/java/com/hyrup/studentmanagement/student/service/StudentService.java:79-96 | answers ListSpec and writes nothing |
| StudentService.StudentService.Delete | src/main/java/com/hyrup/studentmanagement/student/service/StudentService.java:135-141 | result and store are those of DeleteSpec |
| StudentProperties.CreateCheckOrder | src/main/java/com/hyrup/studentmanagement/student/service/StudentService.java:54-62 | e-mail conflict, then code conflict, then the date rule; any error leaves the store unchanged |
| StudentProperties.CreateStoresNormalised | src/main/java/com/hyrup/studentmanagement/student/service/StudentService.java:51-67 | a created student has the next id, normalised e-mail and code, equal timestamps; no other row changes |
| StudentProperties.CreateSucceeded | src/main/java/com/hyrup/studentmanagement/student/service/StudentService.java:54-62 | a successful create passed all three checks |
| StudentProperties.CreateRejectsCaseVariant | src/main/java/com/hyrup/studentmanagement/student/service/StudentService.java:51-56 | an e-mail equal to a stored one up to case and blanks is a conflict |
| StudentProperties.CreateKeepsValid | src/main/java/com/hyrup/studentmanagement/student/service/StudentService.java:49-69 | create keeps rows keyed by id and e-mails and codes unique |
| StudentProperties.InsertKeepsValid | src/main/java/com/hyrup/studentmanagement/student/service/StudentService.java:64-67 | inserting under the next id with free e-mail and code keeps the store valid |
| StudentProperties.GetAndDelete | src/main/java/com/hyrup/studentmanagement/student/service/StudentService.java:71-141 | getById fails exactly for unknown ids; delete removes exactly that row or is 404 with the store unchanged |
| StudentProperties.DeleteKeepsValid | src/main/java/com/hyrup/studentmanagement/student/service/StudentService.java:135-141 | delete keeps the store valid |
| StudentProperties.UpdateUnknownNotFound | src/main/java/com/hyrup/studentmanagement/student/service/StudentService.java:113-114 | an unknown id is 404 before any conflict check |
| StudentProperties.UpdateIgnoresSelf | src/main/java/com/hyrup/studentmanagement/student/service/StudentService.java:116-125 | resubmitting one's own e-mail and code is no conflict |
| StudentProperties.UpdateFrame | src/main/java/com/hyrup/studentmanagement/student/service/StudentService.java:111-133 | success rewrites only its own row, keeps id and createdAt, stamps updatedAt; the response carries the old updatedAt; failure changes nothing |
| StudentProperties.UpdateSucceeded | src/main/java/com/hyrup/studentmanagement/student/service/StudentService.java:113-127 | a successful update found the id and passed the three checks |
| StudentProperties.UpdateKeepsValid | src/main/java/com/hyrup/studentmanagement/student/service/StudentService.java:111-133 | update keeps the store valid |
| StudentProperties.ReplaceKeepsValid | src/main/java/com/hyrup/studentmanagement/student/service/StudentService.java:127-131 | replacing a row by one with its id and free e-mail and code keeps the store valid |
| StudentProperties.ValidIsComplete | src/main/java/com/hyrup/studentmanagement/student/dto/StudentUpdateRequest.java:23-101 | a form that passed @Valid has every field the service dereferences |

## Left out

- Concurrency: the `ConcurrentHashMap` and the `synchronized` block of the rate limiter, and transaction isolation, are modelled as sequential calls.
- RateLimit.AuthRateLimitService.IsAllowed: the `WindowCounter` object is a value in the table, so the reset and the increment are written back as one update of the key, not as field writes on an object shared by reference.
- The clock is a parameter (`now`); `Instant.now()` and `System.currentTimeMillis()` are not modelled. Token times are whole seconds; sub-second `Date` precision is left out.
- JWT signing and parsing are an oracle (`Jwt.Codec` under `Jwt.ValidCodec`); HMAC unforgeability cannot be stated here.
- Password hashing and the authentication manager are oracles; `CustomUserDetailsService` is folded into `AuthService.Authenticates`.
- Case mapping is ASCII only; the locale-dependent Unicode mappings of `toLowerCase`/`toUpperCase` and of SQL `lower()` are left out.
- Jwt.ParseLong: `Long.parseLong` also accepts non-ASCII Unicode digits; the model accepts ASCII digits only.
- The `@Email` syntax check in both packages is not modelled; the e-mail fields are only required to be non-blank.
- `@Past` and `@PastOrPresent` compare with a caller-supplied `today` rather than the clock.
- SQL `LIKE` wildcards (`%`, `_`) inside a search term and SQL NULL comparison details are not modelled; the search is a substring test.
- StudentService.ListSpec: paging, the sort order of the returned page and the `PagedResponse` fields are left out; the model keeps the chosen sort column, direction and the set of matching ids.
- `toResponse` in both student controllers/services is a field-by-field copy; responses are the stored records.
- `StudentCreateRequest` is not part of this model; create is given the same form as update (`StudentRequestRules.StudentForm`).
- The DTO setters of `StudentUpdateRequest` and `RegisterRequest` are datatype fields of the bound request, not separate methods.
- BigDecimal is `unscaled / 10^scale` with a non-negative scale; negative scales are not modelled.
- The older `StudentRequest` record's null fields are not modelled (every field is `@NotNull` or `@NotBlank`, so nulls never reach the controller); `LegacyStudents.RequestValid` is the validity predicate.
- The older `Student` and `AppUser` entities are not part of this model; the rows hold the fields the controllers set.
- LegacyStudents.Apply: `applyRequest` writes the older `Student` through its setters; since that entity is not part of this model, the row is built as a value.
- StudentService.StudentService.Create, StudentService.StudentService.Update: they require `Complete(f)` (the fields the service dereferences are present) instead of modelling the null dereference a caller could provoke without `@Valid`; `ValidIsComplete` shows every validated form meets it.
- StudentService.StudentRepository.Flush: `@PreUpdate` is assumed to run on every successful update; Hibernate skips it when no column changed, which the model does not distinguish.
- The older package's `findAll` is modelled in insertion order.
- AuthService.AuthService.Refresh: the expired, invalid and wrong-type paths revoke and save the row before throwing; the rollback undoes that write, so the committed store is unchanged and the model states only the committed result.
- A refresh in the same second as the presented token's issue re-creates the identical token text, after which `findByToken` matches two rows (`AuthProperties.SameSecondRefreshDuplicates`); the model answers such a lookup with an unexpected error (500) instead of Spring's `IncorrectResultSizeDataAccessException` details.
- Tokens of the older `JwtService` always carry `exp`; a token without it (a null dereference in `isValid`) is not modelled.
- JSON serialisation through `ObjectMapper` and the `timestamp` field of `ApiError` are not modelled.
- HTTP/servlet plumbing (`student/controller/StudentController`, `auth/controller/AuthController`, `RestAuthenticationEntryPoint`, `StudentManagementApplication`) is not part of this model.
- `JwtProperties` and `SecurityProperties` appear only as their validation predicates (`Jwt.ValidProperties`, the limit of at least 1).

## Findings

| source | as written | input that shows it | evidently intended | confidence | as-written member | corrected member |
|---|---|---|---|---|---|---|
| src/main/java/com/hyrup/studentmanagement/common/exception/GlobalExceptionHandler.java:71-78 | the catch-all `@ExceptionHandler(Exception.class)` also catches the `ResponseStatusException`s of the older controllers | a register in the older package with an e-mail already registered: 500 "Unexpected server error" instead of 409 "Email already registered"; likewise a failed older login gives 500, not 401 | a `ResponseStatusException` answers with its own status and reason | medium, not executed | Errors.ResponseStatusBecomes500, LegacyAuth.ErrorsAnsweredAs500 | Errors.HandleIntended, LegacyAuth.ErrorsAnsweredAsIntended |
| src/main/java/com/hyrup/studentmanagement/StudentController.java:57 | the older create (and update, line 74) checks `existsByEmail(request.email())` on the e-mail as sent, while line 95 stores it trimmed and lower-cased | a stored student with e-mail "a" and a create request for "A" with a new studentId: both rows hold "a" | the duplicate check looks up the normalised e-mail it stores | low, not executed | LegacyStudents.CreateAdmitsCaseVariant, LegacyStudents.CaseVariantWitness | LegacyStudents.CreateIntendedKeepsEmailsUnique, LegacyStudents.UpdateIntendedKeepsEmailsUnique, LegacyStudents.CreateIntendedRejectsCaseVariant |
