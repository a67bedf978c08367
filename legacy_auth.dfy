/** The older flat package's AuthController (/api/auth) with its AppUserRepository and
    the token issuing of its JwtService. Nothing here is transactional: a user saved
    before a later step throws stays saved. Errors are ResponseStatusExceptions. The
    password encoder is the same oracle as in AuthService; the clock is `now`, in
    seconds. */
module LegacyAuth {
  import opened Wrappers
  import opened Text
  import opened Errors
  import opened Jwt
  import AuthService

  /** The older package's AppUser; the role is a plain string (AppUser.java of that
      package is not part of this model; these are the fields the controller sets). */
  datatype LegacyUser = LegacyUser(id: int, name: string, email: string, passwordHash: string, role: string)

  /** The older JwtService's configuration and the two oracles. */
  datatype LegacyEnv = LegacyEnv(secret: string, expirationSeconds: int, codec: Codec,
                                 encoder: AuthService.PasswordEncoder)

  datatype RegisterRequest = RegisterRequest(name: string, email: string, password: string)
  datatype LoginRequest = LoginRequest(email: string, password: string)
  datatype TokenResponse = TokenResponse(token: string, tokenType: string, expiresInSeconds: int)

  const CONFLICT: int := 409
  const UNAUTHORIZED: int := 401
  const EMAIL_REGISTERED: string := "Email already registered"
  const INVALID_CREDENTIALS: string := "Invalid credentials"

  // ---- the user table ----

  /** findByEmail: the position of the user with exactly this e-mail. */
  function FindByEmail(users: seq<LegacyUser>, email: string): (r: Option<nat>)
    ensures r.Some? ==> r.value < |users| && users[r.value].email == email
    ensures r.None? <==> forall i :: 0 <= i < |users| ==> users[i].email != email
    decreases |users|
  {
    if users == [] then None
    else if users[0].email == email then Some(0)
    else match FindByEmail(users[1..], email)
      case None => None
      case Some(i) => Some(i + 1)
  }

  predicate ExistsByEmail(users: seq<LegacyUser>, email: string)
  {
    FindByEmail(users, email).Some?
  }

  class LegacyUserRepository {
    var users: seq<LegacyUser>

    constructor ()
      ensures users == []
    {
      users := [];
    }

    /** save() of a new user: the database assigns the next id. */
    method Save(user: LegacyUser) returns (saved: LegacyUser)
      modifies this
      ensures saved == user.(id := |old(users)| + 1)
      ensures users == old(users) + [saved]
    {
      saved := user.(id := |users| + 1);
      users := users + [saved];
    }
  }

  // ---- the token ----

  /** generateToken's claim set: userId, email and role, subject the e-mail, no issuer,
      iat = now and exp = now + expirationSeconds. */
  function LegacyClaims(env: LegacyEnv, user: LegacyUser, now: int): Claims
  {
    Claims(Some(user.email), None, now, now + env.expirationSeconds,
           map["userId" := Num(user.id), "email" := Str(user.email), "role" := Str(user.role)])
  }

  /** generateToken: Keys.hmacShaKeyFor rejects a secret shorter than 32 UTF-8 bytes with a
      WeakKeyException, on every call (this JwtService has no start-up check). */
  function GenerateToken(env: LegacyEnv, user: LegacyUser, now: int): (r: Result<string, ApiException>)
    ensures SigningKeyFor(env.secret).Err? <==> r.Err?
    ensures r.Err? ==> r.error.Unexpected?
    ensures r.Ok? ==> r.value == env.codec.encode(LegacyClaims(env, user, now), Key(env.secret))
  {
    match SigningKeyFor(env.secret)
    case Err(_) => Err(Unexpected("WeakKeyException"))
    case Ok(key) => Ok(env.codec.encode(LegacyClaims(env, user, now), key))
  }

  function Answer(env: LegacyEnv, token: Result<string, ApiException>): Result<TokenResponse, ApiException>
  {
    match token
    case Err(e) => Err(e)
    case Ok(t) => Ok(TokenResponse(t, "Bearer", env.expirationSeconds))
  }

  // ---- what each endpoint does ----

  /** register: the result and the user table afterwards. */
  function RegisterSpec(env: LegacyEnv, users: seq<LegacyUser>, request: RegisterRequest, now: int)
    : (Result<TokenResponse, ApiException>, seq<LegacyUser>)
  {
    if ExistsByEmail(users, NormalizeEmail(request.email)) then (Err(ResponseStatus(CONFLICT, EMAIL_REGISTERED)), users)
    else
      var saved := NewUser(env, users, request);
      (Answer(env, GenerateToken(env, saved, now)), users + [saved])
  }

  /** The user register saves: the next id, the trimmed name, the normalised e-mail, the
      encoded password and role USER. */
  function NewUser(env: LegacyEnv, users: seq<LegacyUser>, request: RegisterRequest): LegacyUser
  {
    LegacyUser(|users| + 1, Trim(request.name), NormalizeEmail(request.email), env.encoder.encode(request.password), "USER")
  }

  /** login: read-only. */
  function LoginSpec(env: LegacyEnv, users: seq<LegacyUser>, request: LoginRequest, now: int)
    : Result<TokenResponse, ApiException>
  {
    match FindByEmail(users, NormalizeEmail(request.email))
    case None => Err(ResponseStatus(UNAUTHORIZED, INVALID_CREDENTIALS))
    case Some(i) =>
      if !env.encoder.matches(request.password, users[i].passwordHash) then
        Err(ResponseStatus(UNAUTHORIZED, INVALID_CREDENTIALS))
      else Answer(env, GenerateToken(env, users[i], now))
  }

  class LegacyAuthController {
    const env: LegacyEnv
    const appUserRepository: LegacyUserRepository

    constructor (env: LegacyEnv, appUserRepository: LegacyUserRepository)
      ensures this.env == env && this.appUserRepository == appUserRepository
    {
      this.env := env;
      this.appUserRepository := appUserRepository;
    }

    method Register(request: RegisterRequest, now: int) returns (result: Result<TokenResponse, ApiException>)
      modifies appUserRepository
      ensures (result, appUserRepository.users) == RegisterSpec(env, old(appUserRepository.users), request, now)
    {
      var email := NormalizeEmail(request.email);
      if ExistsByEmail(appUserRepository.users, email) {
        return Err(ResponseStatus(CONFLICT, EMAIL_REGISTERED));
      }
      ghost var expected := NewUser(env, appUserRepository.users, request);
      var user := LegacyUser(0, Trim(request.name), email, env.encoder.encode(request.password), "USER");
      var saved := appUserRepository.Save(user);
      assert saved == expected;
      var token := GenerateToken(env, saved, now);
      result := Answer(env, token);
    }

    /** login may not write: the user table is outside its frame. */
    method Login(request: LoginRequest, now: int) returns (result: Result<TokenResponse, ApiException>)
      ensures result == LoginSpec(env, appUserRepository.users, request, now)
    {
      var email := NormalizeEmail(request.email);
      var found := FindByEmail(appUserRepository.users, email);
      if found.None? {
        return Err(ResponseStatus(UNAUTHORIZED, INVALID_CREDENTIALS));
      }
      var user := appUserRepository.users[found.value];
      if !env.encoder.matches(request.password, user.passwordHash) {
        return Err(ResponseStatus(UNAUTHORIZED, INVALID_CREDENTIALS));
      }
      var token := GenerateToken(env, user, now);
      if token.Err? {
        return Err(token.error);
      }
      result := Ok(TokenResponse(token.value, "Bearer", env.expirationSeconds));
    }
  }

  // ---- the request records ----

  /** RegisterRequest: @NotBlank name, e-mail and password, @Size(min = 8, max = 128) on
      the password (the @Email syntax is not modelled). A missing field is None. */
  predicate RegisterRequestValid(name: Option<string>, email: Option<string>, password: Option<string>)
  {
    name.Some? && NotBlank(name.value) && email.Some? && NotBlank(email.value)
    && password.Some? && NotBlank(password.value) && 8 <= JavaLength(password.value) <= 128
  }

  predicate LoginRequestValid(email: Option<string>, password: Option<string>)
  {
    email.Some? && NotBlank(email.value) && password.Some? && NotBlank(password.value)
  }

  // ---- properties ----

  /** register refuses exactly when the normalised e-mail is taken, and then writes
      nothing. */
  lemma RegisterConflictIff(env: LegacyEnv, users: seq<LegacyUser>, request: RegisterRequest, now: int)
    ensures var (r, after) := RegisterSpec(env, users, request, now);
      (r == Err(ResponseStatus(CONFLICT, EMAIL_REGISTERED)) <==> ExistsByEmail(users, NormalizeEmail(request.email)))
      && (ExistsByEmail(users, NormalizeEmail(request.email)) ==> after == users)
  {
  }

  /** Otherwise register saves exactly one user (next id, trimmed name, normalised
      e-mail, encoded password, role USER), even when issuing the token then fails; on
      success the answer carries a token for that user, type Bearer and the configured
      lifetime. */
  lemma RegisterSavesOne(env: LegacyEnv, users: seq<LegacyUser>, request: RegisterRequest, now: int)
    requires !ExistsByEmail(users, NormalizeEmail(request.email))
    ensures var (r, after) := RegisterSpec(env, users, request, now);
      var saved := LegacyUser(|users| + 1, Trim(request.name), NormalizeEmail(request.email),
                              env.encoder.encode(request.password), "USER");
      && after == users + [saved]
      && (r.Ok? <==> SigningKeyFor(env.secret).Ok?)
      && (r.Ok? ==> r.value == TokenResponse(env.codec.encode(LegacyClaims(env, saved, now), Key(env.secret)),
                                             "Bearer", env.expirationSeconds))
  {
  }

  /** login looks users up by the normalised e-mail, so letter case and surrounding blanks
      in the e-mail it is given do not matter. */
  lemma LoginIgnoresCaseAndBlanks(env: LegacyEnv, users: seq<LegacyUser>, a: LoginRequest, b: LoginRequest, now: int)
    requires a.password == b.password && EqualsIgnoreCase(Trim(a.email), Trim(b.email))
    ensures LoginSpec(env, users, a, now) == LoginSpec(env, users, b, now)
  {
    NormalizeEmailIgnoresCase(a.email, b.email);
    assert FindByEmail(users, NormalizeEmail(a.email)) == FindByEmail(users, NormalizeEmail(b.email));
  }

  /** An unknown e-mail and a wrong password give the identical error. */
  lemma LoginFailuresAlike(env: LegacyEnv, users: seq<LegacyUser>, request: LoginRequest, now: int)
    requires var found := FindByEmail(users, NormalizeEmail(request.email));
      found.None? || !env.encoder.matches(request.password, users[found.value].passwordHash)
    ensures LoginSpec(env, users, request, now) == Err(ResponseStatus(UNAUTHORIZED, INVALID_CREDENTIALS))
  {
  }

  /** A successful login answers with a token for the stored user, type Bearer and the
      configured lifetime. */
  lemma LoginSuccess(env: LegacyEnv, users: seq<LegacyUser>, request: LoginRequest, now: int)
    requires LoginSpec(env, users, request, now).Ok?
    ensures var i := FindByEmail(users, NormalizeEmail(request.email));
      && i.Some? && env.encoder.matches(request.password, users[i.value].passwordHash)
      && LoginSpec(env, users, request, now).value
           == TokenResponse(env.codec.encode(LegacyClaims(env, users[i.value], now), Key(env.secret)),
                            "Bearer", env.expirationSeconds)
  {
  }

  /** What the token of a successful register or login says, read back under the same
      secret before it expires. */
  lemma IssuedTokenClaims(env: LegacyEnv, user: LegacyUser, now: int, later: int)
    requires ValidCodec(env.codec) && GenerateToken(env, user, now).Ok?
    requires now <= later <= now + env.expirationSeconds
    ensures ExtractAllClaims(env.codec, Key(env.secret), GenerateToken(env, user, now).value, later)
      == Ok(LegacyClaims(env, user, now))
  {
    var c := LegacyClaims(env, user, now);
    assert env.codec.decode(env.codec.encode(c, Key(env.secret)), Key(env.secret)) == Ok(c);
  }

  /** Both request records reject a blank or missing password; the register record also
      bounds its length in UTF-16 code units. */
  lemma RequestPasswordRules(name: Option<string>, email: Option<string>, password: Option<string>)
    ensures RegisterRequestValid(name, email, password) ==>
      LoginRequestValid(email, password) && 8 <= JavaLength(password.value) <= 128
    ensures password.None? || !NotBlank(password.value) ==>
      !RegisterRequestValid(name, email, password) && !LoginRequestValid(email, password)
  {
  }

  // ---- how the errors reach the client ----

  /** As written, the catch-all handler of GlobalExceptionHandler also catches these
      ResponseStatusExceptions: a duplicate registration and a failed login both reach
      the client as 500 "Unexpected server error". */
  lemma ErrorsAnsweredAs500(env: LegacyEnv, users: seq<LegacyUser>, r: RegisterRequest, l: LoginRequest,
                            now: int, path: string)
    requires ExistsByEmail(users, NormalizeEmail(r.email))
    requires FindByEmail(users, NormalizeEmail(l.email)).None?
    ensures Handle(RegisterSpec(env, users, r, now).0.error, path).status == 500
    ensures Handle(LoginSpec(env, users, l, now).error, path).status == 500
    ensures Handle(LoginSpec(env, users, l, now).error, path).message == "Unexpected server error"
  {
  }

  /** With the intended handling the same calls answer 409 and 401 with their reasons. */
  lemma ErrorsAnsweredAsIntended(env: LegacyEnv, users: seq<LegacyUser>, r: RegisterRequest, l: LoginRequest,
                                 now: int, path: string)
    requires ExistsByEmail(users, NormalizeEmail(r.email))
    requires var found := FindByEmail(users, NormalizeEmail(l.email));
      found.None? || !env.encoder.matches(l.password, users[found.value].passwordHash)
    ensures HandleIntended(RegisterSpec(env, users, r, now).0.error, path)
      == BuildError(409, EMAIL_REGISTERED, path, None)
    ensures HandleIntended(LoginSpec(env, users, l, now).error, path)
      == BuildError(401, INVALID_CREDENTIALS, path, None)
  {
  }
}
