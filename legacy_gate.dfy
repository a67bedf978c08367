/** The older package's JwtAuthFilter: reads an `Authorization: Bearer` header (section
    2.1 of RFC 6750), and installs an authentication in the security context when the
    token checks out. The filter is fail-open: it never rejects a request and always
    passes it down the chain exactly once. Any exception while reading the token clears
    the context. */
module LegacyGate {
  import opened Wrappers
  import opened Text
  import opened Jwt
  import opened LegacyAuth

  const BEARER_PREFIX: string := "Bearer "

  /** A UsernamePasswordAuthenticationToken: principal and authorities (the request
      details are not modelled). */
  datatype Authentication = Authentication(principal: string, authorities: seq<string>)

  /** SecurityContextHolder's context for the current request. */
  class SecurityContext {
    var authentication: Option<Authentication>

    constructor ()
      ensures authentication == None
    {
      authentication := None;
    }
  }

  /** parse(token) of the older JwtService: None stands for any exception it throws
      (a weak secret, a malformed or foreign token, an expired one). */
  function Parse(codec: Codec, secret: string, token: string, now: int): (r: Option<Claims>)
    ensures r.Some? ==>
      SigningKeyFor(secret).Ok? && ExtractAllClaims(codec, Key(secret), token, now) == Ok(r.value)
  {
    match SigningKeyFor(secret)
    case Err(_) => None
    case Ok(key) =>
      match ExtractAllClaims(codec, key, token, now)
      case Err(_) => None
      case Ok(c) => Some(c)
  }

  /** isValid: parse again, then the subject is the user's e-mail and exp is strictly
      after now. */
  function IsValid(codec: Codec, secret: string, token: string, user: LegacyUser, now: int): Option<bool>
  {
    match Parse(codec, secret, token, now)
    case None => None
    case Some(c) => Some(c.subject == Some(user.email) && c.expiration > now)
  }

  function AuthenticationFor(user: LegacyUser): Authentication
  {
    Authentication(user.email, ["ROLE_" + user.role])
  }

  /** The context's authentication after the filter, from the one before it. */
  function GateSpec(codec: Codec, secret: string, users: seq<LegacyUser>, header: Option<string>,
                    before: Option<Authentication>, now: int): Option<Authentication>
  {
    if header.None? || !StartsWith(header.value, BEARER_PREFIX) then before
    else
      var token := header.value[|BEARER_PREFIX|..];
      match Parse(codec, secret, token, now)
      case None => None
      case Some(c) =>
        if c.subject.None? || before.Some? then before
        else match FindByEmail(users, c.subject.value)
          case None => before
          case Some(i) =>
            match IsValid(codec, secret, token, users[i], now)
            case None => None
            case Some(valid) => if valid then Some(AuthenticationFor(users[i])) else before
  }

  class JwtAuthFilter {
    const codec: Codec
    const secret: string
    const appUserRepository: LegacyUserRepository
    const context: SecurityContext

    constructor (codec: Codec, secret: string, appUserRepository: LegacyUserRepository, context: SecurityContext)
      ensures this.codec == codec && this.secret == secret
      ensures this.appUserRepository == appUserRepository && this.context == context
    {
      this.codec := codec;
      this.secret := secret;
      this.appUserRepository := appUserRepository;
      this.context := context;
    }

    /** doFilterInternal: returns how often it invoked the rest of the chain. */
    method DoFilterInternal(header: Option<string>, now: int) returns (chainInvocations: nat)
      modifies context
      ensures chainInvocations == 1
      ensures context.authentication ==
        GateSpec(codec, secret, appUserRepository.users, header, old(context.authentication), now)
    {
      if header.None? || !StartsWith(header.value, BEARER_PREFIX) {
        return 1;
      }
      var token := header.value[7..];
      var claims := Parse(codec, secret, token, now);
      if claims.None? {
        context.authentication := None;
        return 1;
      }
      var email := claims.value.subject;
      if email.Some? && context.authentication.None? {
        var found := FindByEmail(appUserRepository.users, email.value);
        if found.Some? {
          var user := appUserRepository.users[found.value];
          var valid := IsValid(codec, secret, token, user, now);
          if valid == Some(true) {
            context.authentication := Some(AuthenticationFor(user));
          }
        }
      }
      return 1;
    }
  }

  // ---- properties ----

  /** Without a header that starts with exactly "Bearer " the context is left alone. */
  lemma NoBearerUntouched(codec: Codec, secret: string, users: seq<LegacyUser>, header: Option<string>,
                          before: Option<Authentication>, now: int)
    requires header.None? || !StartsWith(header.value, BEARER_PREFIX)
    ensures GateSpec(codec, secret, users, header, before, now) == before
  {
  }

  /** An authentication is installed exactly when none was present, the header carries a
      token that parses, its subject names a stored user, and it has not yet reached its
      exp; it is that user's e-mail with the single authority ROLE_ + role. */
  lemma InstallsIff(codec: Codec, secret: string, users: seq<LegacyUser>, header: Option<string>, now: int)
    ensures var after := GateSpec(codec, secret, users, header, None, now);
      after.Some? <==>
        && header.Some? && StartsWith(header.value, BEARER_PREFIX)
        && var c := Parse(codec, secret, header.value[7..], now);
           c.Some? && c.value.subject.Some? && FindByEmail(users, c.value.subject.value).Some?
           && c.value.expiration > now
    ensures var after := GateSpec(codec, secret, users, header, None, now);
      after.Some? ==>
        var c := Parse(codec, secret, header.value[7..], now).value;
        var user := users[FindByEmail(users, c.subject.value).value];
        after.value == Authentication(c.subject.value, ["ROLE_" + user.role])
  {
  }

  /** An authentication already present is never replaced: it stays, or it is cleared
      because reading the token threw. */
  lemma NeverReplaces(codec: Codec, secret: string, users: seq<LegacyUser>, header: Option<string>,
                      present: Authentication, now: int)
    ensures var after := GateSpec(codec, secret, users, header, Some(present), now);
      after == Some(present)
      || (after.None? && header.Some? && Parse(codec, secret, header.value[7..], now).None?)
  {
  }

  /** Any exception while reading the token clears the context, even an authentication
      installed earlier. */
  lemma ExceptionClears(codec: Codec, secret: string, users: seq<LegacyUser>, header: string,
                        before: Option<Authentication>, now: int)
    requires StartsWith(header, BEARER_PREFIX) && Parse(codec, secret, header[7..], now).None?
    ensures GateSpec(codec, secret, users, Some(header), before, now) == None
  {
  }

  /** What parse gives for a token the older JwtService issued at `now`: its claims up
      to and including exp, an exception after it. */
  lemma ParseIssued(env: LegacyEnv, user: LegacyUser, now: int, later: int)
    requires ValidCodec(env.codec) && GenerateToken(env, user, now).Ok?
    ensures var p := Parse(env.codec, env.secret, GenerateToken(env, user, now).value, later);
      if later > now + env.expirationSeconds then p.None? else p == Some(LegacyClaims(env, user, now))
  {
    var c := LegacyClaims(env, user, now);
    assert env.codec.decode(env.codec.encode(c, Key(env.secret)), Key(env.secret)) == Ok(c);
  }

  /** The filter on a parsed token whose subject is a stored user and no earlier
      authentication: that user exactly when exp is still ahead. */
  lemma GateOnUserToken(codec: Codec, secret: string, users: seq<LegacyUser>, token: string, i: nat, now: int)
    requires i < |users| && FindByEmail(users, users[i].email) == Some(i)
    requires Parse(codec, secret, token, now).Some?
    requires Parse(codec, secret, token, now).value.subject == Some(users[i].email)
    ensures GateSpec(codec, secret, users, Some(BEARER_PREFIX + token), None, now) ==
      if Parse(codec, secret, token, now).value.expiration > now then Some(AuthenticationFor(users[i])) else None
  {
    assert (BEARER_PREFIX + token)[7..] == token;
  }

  /** A token issued by register or login authenticates its user, from issue until just
      before its exp. At exp itself parsing still succeeds but isValid fails, so nothing is
      installed. After exp parsing throws and the context is cleared. */
  lemma IssuedTokenLifetime(env: LegacyEnv, users: seq<LegacyUser>, i: nat, now: int, later: int)
    requires ValidCodec(env.codec) && i < |users| && FindByEmail(users, users[i].email) == Some(i)
    requires GenerateToken(env, users[i], now).Ok?
    ensures var header := Some(BEARER_PREFIX + GenerateToken(env, users[i], now).value);
      GateSpec(env.codec, env.secret, users, header, None, later) ==
        if later < now + env.expirationSeconds then Some(AuthenticationFor(users[i])) else None
  {
    var token := GenerateToken(env, users[i], now).value;
    ParseIssued(env, users[i], now, later);
    if later <= now + env.expirationSeconds {
      GateOnUserToken(env.codec, env.secret, users, token, i, later);
    } else {
      assert (BEARER_PREFIX + token)[7..] == token;
    }
  }

  /** After exp any authentication present is cleared as well. */
  lemma ExpiredTokenClears(env: LegacyEnv, users: seq<LegacyUser>, user: LegacyUser, now: int, later: int,
                           before: Option<Authentication>)
    requires ValidCodec(env.codec) && GenerateToken(env, user, now).Ok?
    requires later > now + env.expirationSeconds
    ensures GateSpec(env.codec, env.secret, users, Some(BEARER_PREFIX + GenerateToken(env, user, now).value),
                     before, later) == None
  {
    var token := GenerateToken(env, user, now).value;
    ParseIssued(env, user, now, later);
    assert (BEARER_PREFIX + token)[7..] == token;
  }

  /** A token signed under another secret makes parsing throw, so the context is
      cleared. */
  lemma ForeignTokenClears(env: LegacyEnv, other: string, users: seq<LegacyUser>, user: LegacyUser,
                           now: int, later: int, before: Option<Authentication>)
    requires ValidCodec(env.codec) && other != env.secret && SigningKeyFor(other).Ok?
    ensures var token := env.codec.encode(LegacyClaims(env, user, now), Key(other));
      GateSpec(env.codec, env.secret, users, Some(BEARER_PREFIX + token), before, later) == None
  {
    var token := env.codec.encode(LegacyClaims(env, user, now), Key(other));
    assert (BEARER_PREFIX + token)[7..] == token;
    assert Key(other) != Key(env.secret);
  }
}
