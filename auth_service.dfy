/** auth/service/AuthService: register, login and refresh over the user table and the
    refresh-token table. Each public method is @Transactional and every exception it
    throws is unchecked, so an error rolls back whatever the method wrote: committed state
    is unchanged on every error path. The password encoder and the authentication manager
    are oracles; the clock is the parameter `now`, in seconds. */
module AuthService {
  import opened Wrappers
  import opened Text
  import opened Users
  import opened Errors
  import opened Jwt
  import opened TokenStore

  /** PasswordEncoder: encode a raw password, and test a raw password against a hash. */
  datatype PasswordEncoder = PasswordEncoder(encode: string -> string, matches: (string, string) -> bool)

  /** The collaborators AuthService is built with, apart from the two repositories. */
  datatype Env = Env(props: JwtProperties, key: Key, codec: Codec, encoder: PasswordEncoder)

  datatype RegisterRequest = RegisterRequest(fullName: string, email: string, password: string)
  datatype LoginRequest = LoginRequest(email: string, password: string)
  datatype TokenRefreshRequest = TokenRefreshRequest(refreshToken: string)

  datatype AuthResponse = AuthResponse(accessToken: string, refreshToken: string, tokenType: string,
                                       expiresInSeconds: int, userId: int, email: string, role: string)

  /** The committed contents of both tables. */
  datatype Store = Store(users: seq<AppUser>, tokens: seq<RefreshToken>)

  /** What a call returns or throws, and the committed tables afterwards. */
  datatype Outcome = Outcome(result: Result<AuthResponse, ApiException>, store: Store)

  const EMAIL_TAKEN: string := "Email is already registered"
  const BAD_LOGIN: string := "Invalid email or password"
  const NO_SUCH_USER: string := "User does not exist"
  const UNKNOWN_REFRESH: string := "Invalid refresh token"
  const REVOKED_REFRESH: string := "Refresh token has been revoked"
  const EXPIRED_REFRESH: string := "Refresh token has expired"
  const INVALID_REFRESH: string := "Refresh token is invalid"
  const WRONG_TYPE_REFRESH: string := "Token type is invalid for refresh"

  // ---- the user table (user/repository/AppUserRepository) ----

  /** findByEmail: the position of the first user with exactly this e-mail. */
  function FindUserIndex(users: seq<AppUser>, email: string): (r: Option<nat>)
    ensures r.Some? ==> r.value < |users| && users[r.value].email == email
    ensures r.None? <==> forall i :: 0 <= i < |users| ==> users[i].email != email
    decreases |users|
  {
    if users == [] then None
    else if users[0].email == email then Some(0)
    else match FindUserIndex(users[1..], email)
      case None => None
      case Some(i) => Some(i + 1)
  }

  predicate ExistsByEmail(users: seq<AppUser>, email: string)
  {
    FindUserIndex(users, email).Some?
  }

  /** The owner of a token row (the RefreshToken.user association): ids are 1, 2, ... */
  function UserById(users: seq<AppUser>, id: int): Option<AppUser>
  {
    if 1 <= id <= |users| then Some(users[id - 1]) else None
  }

  /** authenticationManager.authenticate with a DaoAuthenticationProvider over
      CustomUserDetailsService: an unknown e-mail and a wrong password both fail with
      BadCredentialsException. */
  predicate Authenticates(encoder: PasswordEncoder, users: seq<AppUser>, email: string, password: string)
  {
    match FindUserIndex(users, email)
    case None => false
    case Some(i) => encoder.matches(password, users[i].passwordHash)
  }

  // ---- what each operation does ----

  /** buildAuthResponse. */
  function BuildAuthResponse(props: JwtProperties, user: AppUser, accessToken: string, refreshToken: string): AuthResponse
  {
    AuthResponse(accessToken, refreshToken, "Bearer", props.accessTokenExpirationSeconds,
                 user.id, user.email, RoleName(user.role))
  }

  /** The tail shared by all three operations: generate both tokens, store the refresh
      token (storeRefreshToken) and answer. If reading back the expiry throws, the
      transaction rolls back to `before`. */
  function Issue(env: Env, users: seq<AppUser>, tokens: seq<RefreshToken>, user: AppUser, now: int,
                 before: Store): Outcome
  {
    var accessToken := GenerateAccessToken(env.props, env.key, env.codec, user, now);
    var refreshToken := GenerateRefreshToken(env.props, env.key, env.codec, user, now);
    match ExtractExpiration(env.codec, env.key, refreshToken, now)
    case Err(_) => Outcome(Err(Unexpected("refresh token expiry unreadable")), before)
    case Ok(expiresAt) =>
      Outcome(Ok(BuildAuthResponse(env.props, user, accessToken, refreshToken)),
              Store(users, tokens + [RefreshToken(refreshToken, user.id, expiresAt, false)]))
  }

  function RegisterSpec(env: Env, s: Store, request: RegisterRequest, now: int): Outcome
  {
    var normalizedEmail := NormalizeEmail(request.email);
    if ExistsByEmail(s.users, normalizedEmail) then Outcome(Err(Conflict(EMAIL_TAKEN)), s)
    else
      var user := AppUser(|s.users| + 1, Trim(request.fullName), normalizedEmail,
                          env.encoder.encode(request.password), USER);
      Issue(env, s.users + [user], s.tokens, user, now, s)
  }

  function LoginSpec(env: Env, s: Store, request: LoginRequest, now: int): Outcome
  {
    var normalizedEmail := NormalizeEmail(request.email);
    if !Authenticates(env.encoder, s.users, normalizedEmail, request.password) then
      Outcome(Err(Unauthorized(BAD_LOGIN)), s)
    else match FindUserIndex(s.users, normalizedEmail)
      case None => Outcome(Err(NotFound(NO_SUCH_USER)), s)
      case Some(i) =>
        var user := s.users[i];
        Issue(env, s.users, RevokedFor(s.tokens, user.id), user, now, s)
  }

  function RefreshSpec(env: Env, s: Store, request: TokenRefreshRequest, now: int): Outcome
  {
    match FindByToken(s.tokens, request.refreshToken)
    case Absent => Outcome(Err(Unauthorized(UNKNOWN_REFRESH)), s)
    case Ambiguous => Outcome(Err(Unexpected("findByToken matched several rows")), s)
    case Found(i) =>
      var storedToken := s.tokens[i];
      if storedToken.revoked then Outcome(Err(Unauthorized(REVOKED_REFRESH)), s)
      else if storedToken.expiresAt < now then Outcome(Err(Unauthorized(EXPIRED_REFRESH)), s)
      else match ExtractTokenType(env.codec, env.key, storedToken.token, now)
        case Err(_) => Outcome(Err(Unauthorized(INVALID_REFRESH)), s)
        case Ok(tokenType) =>
          if tokenType != Some("refresh") then Outcome(Err(Unauthorized(WRONG_TYPE_REFRESH)), s)
          else match UserById(s.users, storedToken.userId)
            case None => Outcome(Err(Unexpected("token owner missing")), s)
            case Some(user) =>
              Issue(env, s.users, s.tokens[i := storedToken.(revoked := true)], user, now, s)
  }

  // ---- the service ----

  /** AppUserRepository (layered package): users in insertion order, ids generated 1, 2, ... */
  class AppUserRepository {
    var users: seq<AppUser>

    constructor ()
      ensures users == []
    {
      users := [];
    }

    /** save() of a new user: the database assigns the next id. */
    method Save(user: AppUser) returns (saved: AppUser)
      modifies this
      ensures saved == user.(id := |old(users)| + 1)
      ensures users == old(users) + [saved]
    {
      saved := user.(id := |users| + 1);
      users := users + [saved];
    }
  }

  class AuthService {
    const env: Env
    const appUserRepository: AppUserRepository
    const refreshTokenRepository: RefreshTokenRepository

    constructor (env: Env, appUserRepository: AppUserRepository, refreshTokenRepository: RefreshTokenRepository)
      ensures this.env == env && this.appUserRepository == appUserRepository
      ensures this.refreshTokenRepository == refreshTokenRepository
    {
      this.env := env;
      this.appUserRepository := appUserRepository;
      this.refreshTokenRepository := refreshTokenRepository;
    }

    function Committed(): Store
      reads this, appUserRepository, refreshTokenRepository
    {
      Store(appUserRepository.users, refreshTokenRepository.rows)
    }

    /** The transaction's rollback: both tables return to their contents at its start. */
    method RollBack(snapshot: Store)
      modifies appUserRepository, refreshTokenRepository
      ensures Committed() == snapshot
    {
      appUserRepository.users := snapshot.users;
      refreshTokenRepository.rows := snapshot.tokens;
    }

    /** Generate both tokens, storeRefreshToken, buildAuthResponse. */
    method IssueTokens(user: AppUser, now: int, snapshot: Store) returns (result: Result<AuthResponse, ApiException>)
      modifies appUserRepository, refreshTokenRepository
      ensures Outcome(result, Committed()) ==
        Issue(env, old(appUserRepository.users), old(refreshTokenRepository.rows), user, now, snapshot)
    {
      var accessToken := GenerateAccessToken(env.props, env.key, env.codec, user, now);
      var refreshToken := GenerateRefreshToken(env.props, env.key, env.codec, user, now);
      var expiration := ExtractExpiration(env.codec, env.key, refreshToken, now);
      if expiration.Err? {
        RollBack(snapshot);
        return Err(Unexpected("refresh token expiry unreadable"));
      }
      refreshTokenRepository.Insert(RefreshToken(refreshToken, user.id, expiration.value, false));
      result := Ok(BuildAuthResponse(env.props, user, accessToken, refreshToken));
    }

    method Register(request: RegisterRequest, now: int) returns (result: Result<AuthResponse, ApiException>)
      modifies appUserRepository, refreshTokenRepository
      ensures Outcome(result, Committed()) == RegisterSpec(env, old(Committed()), request, now)
    {
      var snapshot := Committed();
      var normalizedEmail := NormalizeEmail(request.email);
      if ExistsByEmail(appUserRepository.users, normalizedEmail) {
        return Err(Conflict(EMAIL_TAKEN));
      }
      var user := AppUser(0, Trim(request.fullName), normalizedEmail, env.encoder.encode(request.password), USER);
      var savedUser := appUserRepository.Save(user);
      result := IssueTokens(savedUser, now, snapshot);
    }

    method Login(request: LoginRequest, now: int) returns (result: Result<AuthResponse, ApiException>)
      modifies appUserRepository, refreshTokenRepository
      ensures Outcome(result, Committed()) == LoginSpec(env, old(Committed()), request, now)
    {
      var snapshot := Committed();
      var normalizedEmail := NormalizeEmail(request.email);
      if !Authenticates(env.encoder, appUserRepository.users, normalizedEmail, request.password) {
        return Err(Unauthorized(BAD_LOGIN));
      }
      var found := FindUserIndex(appUserRepository.users, normalizedEmail);
      if found.None? {
        return Err(NotFound(NO_SUCH_USER));
      }
      var user := appUserRepository.users[found.value];
      var _ := refreshTokenRepository.RevokeActiveTokensForUser(user.id);
      result := IssueTokens(user, now, snapshot);
    }

    method Refresh(request: TokenRefreshRequest, now: int) returns (result: Result<AuthResponse, ApiException>)
      modifies appUserRepository, refreshTokenRepository
      ensures Outcome(result, Committed()) == RefreshSpec(env, old(Committed()), request, now)
    {
      var snapshot := Committed();
      var lookup := FindByToken(refreshTokenRepository.rows, request.refreshToken);
      if lookup.Absent? {
        return Err(Unauthorized(UNKNOWN_REFRESH));
      }
      if lookup.Ambiguous? {
        return Err(Unexpected("findByToken matched several rows"));
      }
      var i := lookup.index;
      var storedToken := refreshTokenRepository.rows[i];
      if storedToken.revoked {
        return Err(Unauthorized(REVOKED_REFRESH));
      }
      if storedToken.expiresAt < now {
        refreshTokenRepository.Update(i, storedToken.(revoked := true));
        RollBack(snapshot);
        return Err(Unauthorized(EXPIRED_REFRESH));
      }
      var tokenType := ExtractTokenType(env.codec, env.key, storedToken.token, now);
      if tokenType.Err? {
        refreshTokenRepository.Update(i, storedToken.(revoked := true));
        RollBack(snapshot);
        return Err(Unauthorized(INVALID_REFRESH));
      }
      if tokenType.value != Some("refresh") {
        refreshTokenRepository.Update(i, storedToken.(revoked := true));
        RollBack(snapshot);
        return Err(Unauthorized(WRONG_TYPE_REFRESH));
      }
      var owner := UserById(appUserRepository.users, storedToken.userId);
      if owner.None? {
        return Err(Unexpected("token owner missing"));
      }
      refreshTokenRepository.Update(i, storedToken.(revoked := true));
      result := IssueTokens(owner.value, now, snapshot);
    }
  }
}
