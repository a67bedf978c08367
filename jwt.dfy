/** security/JwtService: the key-length guard of init, the claim sets of access and
    refresh tokens, and the rules applied to a parsed token. Signing and parsing (jjwt,
    a JWS of RFC 7519 signed with HS256 as in section 3.2 of RFC 7518) are an oracle:
    a pair of functions `encode` and `decode` that round-trip under the same key and
    reject a token signed with another key. Times are whole seconds. */
module Jwt {
  import opened Wrappers
  import opened Text
  import opened Users

  // ---- Java's long ----

  const LONG_MIN: int := -0x8000_0000_0000_0000
  const LONG_MAX: int := 0x7FFF_FFFF_FFFF_FFFF

  predicate IsLong(n: int) { LONG_MIN <= n <= LONG_MAX }

  /** Number.longValue() of an integral JSON number: its low 64 bits, two's complement. */
  function LongValue(n: int): (r: int)
    ensures IsLong(r)
    ensures IsLong(n) ==> r == n
    ensures (r - n) % 0x1_0000_0000_0000_0000 == 0
  {
    (n - LONG_MIN) % 0x1_0000_0000_0000_0000 + LONG_MIN
  }

  // ---- configuration, claims, keys ----

  /** config/JwtProperties; ValidProperties is its bean validation. */
  datatype JwtProperties = JwtProperties(secret: string, accessTokenExpirationSeconds: int,
                                         refreshTokenExpirationSeconds: int, issuer: string)

  predicate ValidProperties(p: JwtProperties)
  {
    NotBlank(p.secret) && p.accessTokenExpirationSeconds >= 60
    && p.refreshTokenExpirationSeconds >= 300 && NotBlank(p.issuer)
  }

  /** A custom claim as the JSON parser hands it back: an integral number or a string. */
  datatype ClaimValue = Num(n: int) | Str(s: string)

  /** A JWT claim set: the registered claims sub, iss, iat, exp and the custom ones. */
  datatype Claims = Claims(subject: Option<string>, issuer: Option<string>, issuedAt: int,
                           expiration: int, custom: map<string, ClaimValue>)

  /** Keys.hmacShaKeyFor of the UTF-8 bytes of the secret. */
  datatype Key = Key(secret: string)

  /** Why parsing or reading a claim fails. NullSubject and NumberFormat are Java's
      NullPointerException and NumberFormatException; the others are JwtExceptions. */
  datatype JwtError = Malformed | BadSignature | Expired | RequiredType(claim: string)
                    | NumberFormat(text: string) | NullSubject

  /** The signing library: compact serialisation with a key, and signature-checked parsing. */
  datatype Codec = Codec(encode: (Claims, Key) -> string, decode: (string, Key) -> Result<Claims, JwtError>)

  /** What is assumed of the library: a token parses back to its claims under the key that
      signed it, fails the signature check under any other key, and parsing fails only for
      a malformed token or a bad signature (expiry is checked separately below). */
  ghost predicate ValidCodec(codec: Codec)
  {
    (forall c, k :: codec.decode(codec.encode(c, k), k) == Ok(c))
    && (forall c, k1, k2 :: k1 != k2 ==> codec.decode(codec.encode(c, k1), k2) == Err(BadSignature))
    && (forall t, k :: codec.decode(t, k).Err? ==> codec.decode(t, k).error in {Malformed, BadSignature})
  }

  // ---- init ----

  const WEAK_SECRET_MESSAGE: string := "JWT secret must be at least 32 bytes long for HS256"

  /** The guard of init: a key is made only from a secret of at least 32 UTF-8 bytes. */
  function SigningKeyFor(secret: string): (r: Result<Key, string>)
    ensures r.Ok? ==> r.value == Key(secret)
    ensures r.Err? ==> r.error == WEAK_SECRET_MESSAGE
  {
    if Utf8Length(secret) < 32 then Err(WEAK_SECRET_MESSAGE) else Ok(Key(secret))
  }

  /** For an ASCII secret the guard is a character count. */
  lemma AsciiSecretGuard(secret: string)
    requires IsAscii(secret)
    ensures SigningKeyFor(secret).Ok? <==> |secret| >= 32
  {
    Utf8LengthAscii(secret);
  }

  /** The guard counts bytes, not characters: any secret of 8 or more characters fits
      when each of them needs four bytes, and no secret shorter than 8 characters does. */
  lemma SecretGuardCountsBytes(secret: string)
    ensures |secret| < 8 ==> SigningKeyFor(secret).Err?
    ensures |secret| >= 32 ==> SigningKeyFor(secret).Ok?
  {
  }

  /** The service object: its properties and the key init installs. */
  class JwtService {
    const properties: JwtProperties
    var signingKey: Option<Key>

    constructor (properties: JwtProperties)
      ensures this.properties == properties && signingKey == None
    {
      this.properties := properties;
      signingKey := None;
    }

    /** init (@PostConstruct): throws IllegalStateException and leaves the key unset for
        a short secret, and otherwise installs the key. */
    method Init() returns (r: Result<(), string>)
      modifies this
      ensures SigningKeyFor(properties.secret).Ok? ==>
        r.Ok? && signingKey == Some(SigningKeyFor(properties.secret).value)
      ensures SigningKeyFor(properties.secret).Err? ==>
        r == Err(WEAK_SECRET_MESSAGE) && signingKey == old(signingKey)
    {
      var keyBytes := Utf8Length(properties.secret);
      if keyBytes < 32 {
        return Err(WEAK_SECRET_MESSAGE);
      }
      signingKey := Some(Key(properties.secret));
      r := Ok(());
    }
  }

  // ---- issuing ----

  /** buildToken's claim set: the custom claims, then subject, issuer, iat = now and
      exp = now + the time to live. */
  function BuildClaims(p: JwtProperties, custom: map<string, ClaimValue>, subject: string,
                       ttl: int, now: int): Claims
  {
    Claims(Some(subject), Some(p.issuer), now, now + ttl, custom)
  }

  function AccessClaims(p: JwtProperties, user: AppUser, now: int): Claims
  {
    BuildClaims(p, map["uid" := Num(user.id), "email" := Str(user.email),
                       "role" := Str(RoleName(user.role)), "type" := Str("access")],
                user.email, p.accessTokenExpirationSeconds, now)
  }

  function RefreshClaims(p: JwtProperties, user: AppUser, now: int): Claims
  {
    BuildClaims(p, map["uid" := Num(user.id), "type" := Str("refresh")],
                user.email, p.refreshTokenExpirationSeconds, now)
  }

  function GenerateAccessToken(p: JwtProperties, k: Key, codec: Codec, user: AppUser, now: int): string
  {
    codec.encode(AccessClaims(p, user, now), k)
  }

  function GenerateRefreshToken(p: JwtProperties, k: Key, codec: Codec, user: AppUser, now: int): string
  {
    codec.encode(RefreshClaims(p, user, now), k)
  }

  // ---- reading ----

  /** extractAllClaims: parse with the signing key; jjwt rejects a token whose exp is
      before now. */
  function ExtractAllClaims(codec: Codec, k: Key, token: string, now: int): Result<Claims, JwtError>
  {
    match codec.decode(token, k)
    case Err(e) => Err(e)
    case Ok(c) => if c.expiration < now then Err(Expired) else Ok(c)
  }

  function ExtractUsername(codec: Codec, k: Key, token: string, now: int): Result<Option<string>, JwtError>
  {
    match ExtractAllClaims(codec, k, token, now)
    case Err(e) => Err(e)
    case Ok(c) => Ok(c.subject)
  }

  /** claims.get("type", String.class): null when absent, RequiredTypeException when not a string. */
  function TypeClaim(c: Claims): Result<Option<string>, JwtError>
  {
    if "type" !in c.custom then Ok(None)
    else match c.custom["type"]
      case Str(s) => Ok(Some(s))
      case Num(_) => Err(RequiredType("type"))
  }

  function ExtractTokenType(codec: Codec, k: Key, token: string, now: int): Result<Option<string>, JwtError>
  {
    match ExtractAllClaims(codec, k, token, now)
    case Err(e) => Err(e)
    case Ok(c) => TypeClaim(c)
  }

  /** Long.parseLong: an optional sign, at least one ASCII digit, and a value in range. */
  function ParseLong(s: string): (r: Result<int, JwtError>)
    ensures r.Ok? ==> IsLong(r.value)
    ensures r.Err? ==> r.error == NumberFormat(s)
  {
    var signed := s != [] && (s[0] == '-' || s[0] == '+');
    var digits := if signed then s[1..] else s;
    if digits == [] || !AllDigits(digits) then Err(NumberFormat(s))
    else
      var v: int := if s[0] == '-' then -(DigitsValue(digits) as int) else DigitsValue(digits);
      if IsLong(v) then Ok(v) else Err(NumberFormat(s))
  }

  /** Long.parseLong reads back what Long.toString wrote. */
  lemma ParseLongOfToString(n: int)
    requires IsLong(n)
    ensures ParseLong(IntToString(n)) == Ok(n)
  {
    if n < 0 {
      assert IntToString(n)[1..] == NatToDigits(-n);
      DigitsValueOfNatToDigits(-n);
    } else {
      DigitsValueOfNatToDigits(n);
    }
  }

  /** A sign with no digits, or any character that is not a digit, is rejected. */
  lemma ParseLongRejects(s: string)
    ensures s == [] || s == "-" || s == "+" ==> ParseLong(s).Err?
    ensures (exists k :: 1 <= k < |s| && !IsAsciiDigit(s[k])) ==> ParseLong(s).Err?
  {
    if exists k :: 1 <= k < |s| && !IsAsciiDigit(s[k]) {
      var k :| 1 <= k < |s| && !IsAsciiDigit(s[k]);
      var signed := s[0] == '-' || s[0] == '+';
      var digits := if signed then s[1..] else s;
      if signed {
        assert digits[k - 1] == s[k];
      } else {
        assert digits[k] == s[k];
      }
    }
  }

  /** extractUserId's resolver: null when uid is absent, longValue() of a number, and
      Long.parseLong of anything else's text. */
  function UserIdClaim(c: Claims): Result<Option<int>, JwtError>
  {
    if "uid" !in c.custom then Ok(None)
    else match c.custom["uid"]
      case Num(n) => Ok(Some(LongValue(n)))
      case Str(s) =>
        match ParseLong(s)
        case Ok(v) => Ok(Some(v))
        case Err(e) => Err(e)
  }

  function ExtractUserId(codec: Codec, k: Key, token: string, now: int): Result<Option<int>, JwtError>
  {
    match ExtractAllClaims(codec, k, token, now)
    case Err(e) => Err(e)
    case Ok(c) => UserIdClaim(c)
  }

  /** The three outcomes of extractUserId on a parsed claim set. */
  lemma UserIdClaimCases(c: Claims)
    ensures "uid" !in c.custom ==> UserIdClaim(c) == Ok(None)
    ensures "uid" in c.custom && c.custom["uid"].Num? && IsLong(c.custom["uid"].n) ==>
      UserIdClaim(c) == Ok(Some(c.custom["uid"].n))
    ensures forall n :: IsLong(n) && "uid" in c.custom && c.custom["uid"] == Str(IntToString(n)) ==>
      UserIdClaim(c) == Ok(Some(n))
  {
    forall n | IsLong(n) && "uid" in c.custom && c.custom["uid"] == Str(IntToString(n))
      ensures UserIdClaim(c) == Ok(Some(n))
    {
      ParseLongOfToString(n);
    }
  }

  function ExtractExpiration(codec: Codec, k: Key, token: string, now: int): Result<int, JwtError>
  {
    match ExtractAllClaims(codec, k, token, now)
    case Err(e) => Err(e)
    case Ok(c) => Ok(c.expiration)
  }

  /** isTokenExpired: exp before now. */
  function IsTokenExpired(codec: Codec, k: Key, token: string, now: int): Result<bool, JwtError>
  {
    match ExtractExpiration(codec, k, token, now)
    case Err(e) => Err(e)
    case Ok(exp) => Ok(exp < now)
  }

  /** isAccessTokenValid: parse for the subject, parse for the type, then compare; a null
      subject throws on `username.equals`, and the expiry test runs only after both
      comparisons succeed. */
  function IsAccessTokenValid(codec: Codec, k: Key, token: string, username: string, now: int): Result<bool, JwtError>
  {
    match ExtractUsername(codec, k, token, now)
    case Err(e) => Err(e)
    case Ok(subject) =>
      match ExtractTokenType(codec, k, token, now)
      case Err(e) => Err(e)
      case Ok(tokenType) =>
        if subject.None? then Err(NullSubject)
        else if subject.value != username || tokenType != Some("access") then Ok(false)
        else
          match IsTokenExpired(codec, k, token, now)
          case Err(e) => Err(e)
          case Ok(expired) => Ok(!expired)
  }

  // ---- properties ----

  /** isTokenExpired can never answer true: parsing already rejects an expired token, so
      the method either throws or answers false. */
  lemma IsTokenExpiredNeverTrue(codec: Codec, k: Key, token: string, now: int)
    ensures IsTokenExpired(codec, k, token, now) != Ok(true)
    ensures IsTokenExpired(codec, k, token, now).Err? <==> ExtractAllClaims(codec, k, token, now).Err?
  {
  }

  /** An access token is valid exactly when it parses under the key, is not expired, names
      the user as subject and has the string type claim "access". */
  lemma AccessTokenValidIff(codec: Codec, k: Key, token: string, username: string, now: int)
    ensures IsAccessTokenValid(codec, k, token, username, now) == Ok(true) <==>
      (codec.decode(token, k).Ok?
       && var c := codec.decode(token, k).value;
          c.subject == Some(username) && "type" in c.custom && c.custom["type"] == Str("access")
          && now <= c.expiration)
  {
  }

  /** A freshly issued access token reads back its claims and is valid for its user from
      the moment it is issued until its exp. */
  lemma IssuedAccessToken(p: JwtProperties, k: Key, codec: Codec, user: AppUser, issued: int, now: int)
    requires ValidCodec(codec) && ValidProperties(p) && IsLong(user.id)
    requires issued <= now <= issued + p.accessTokenExpirationSeconds
    ensures var token := GenerateAccessToken(p, k, codec, user, issued);
      && ExtractUsername(codec, k, token, now) == Ok(Some(user.email))
      && ExtractUserId(codec, k, token, now) == Ok(Some(user.id))
      && ExtractTokenType(codec, k, token, now) == Ok(Some("access"))
      && ExtractExpiration(codec, k, token, now) == Ok(issued + p.accessTokenExpirationSeconds)
      && IsAccessTokenValid(codec, k, token, user.email, now) == Ok(true)
  {
    var c := AccessClaims(p, user, issued);
    assert codec.decode(codec.encode(c, k), k) == Ok(c);
  }

  /** The claim set of an access token: exactly uid, email, role and type besides the
      registered claims, with the configured issuer and exp = iat + the access TTL. */
  lemma AccessTokenClaimSet(p: JwtProperties, k: Key, codec: Codec, user: AppUser, issued: int)
    requires ValidCodec(codec) && ValidProperties(p)
    ensures var r := ExtractAllClaims(codec, k, GenerateAccessToken(p, k, codec, user, issued), issued);
      && r.Ok?
      && r.value.custom.Keys == {"uid", "email", "role", "type"}
      && r.value.custom["email"] == Str(user.email)
      && r.value.custom["role"] == Str(RoleName(user.role))
      && r.value.subject == Some(user.email) && r.value.issuer == Some(p.issuer)
      && r.value.issuedAt == issued
      && r.value.expiration == r.value.issuedAt + p.accessTokenExpirationSeconds
  {
    var c := AccessClaims(p, user, issued);
    assert codec.decode(codec.encode(c, k), k) == Ok(c);
  }

  /** The claim set of a refresh token: uid and type "refresh" only, with no e-mail or
      role claim, subject the e-mail and exp = iat + the refresh TTL. */
  lemma RefreshTokenClaimSet(p: JwtProperties, k: Key, codec: Codec, user: AppUser, issued: int, now: int)
    requires ValidCodec(codec) && ValidProperties(p) && IsLong(user.id)
    requires issued <= now <= issued + p.refreshTokenExpirationSeconds
    ensures var token := GenerateRefreshToken(p, k, codec, user, issued);
      var r := ExtractAllClaims(codec, k, token, now);
      && r.Ok?
      && r.value.custom.Keys == {"uid", "type"}
      && r.value.subject == Some(user.email) && r.value.issuer == Some(p.issuer)
      && r.value.expiration == r.value.issuedAt + p.refreshTokenExpirationSeconds
      && ExtractTokenType(codec, k, token, now) == Ok(Some("refresh"))
      && ExtractUserId(codec, k, token, now) == Ok(Some(user.id))
      && ExtractExpiration(codec, k, token, now) == Ok(issued + p.refreshTokenExpirationSeconds)
  {
    var c := RefreshClaims(p, user, issued);
    assert codec.decode(codec.encode(c, k), k) == Ok(c);
  }

  /** A refresh token is never accepted as an access token. */
  lemma RefreshTokenNeverAccess(p: JwtProperties, k: Key, k2: Key, codec: Codec, user: AppUser,
                                issued: int, username: string, now: int)
    requires ValidCodec(codec)
    ensures IsAccessTokenValid(codec, k2, GenerateRefreshToken(p, k, codec, user, issued), username, now) != Ok(true)
  {
    var c := RefreshClaims(p, user, issued);
    if k2 == k {
      assert codec.decode(codec.encode(c, k), k) == Ok(c);
    } else {
      assert codec.decode(codec.encode(c, k), k2) == Err(BadSignature);
    }
  }

  /** After its exp an issued token is rejected with an exception, not a false answer. */
  lemma ExpiredAccessTokenThrows(p: JwtProperties, k: Key, codec: Codec, user: AppUser, issued: int, now: int)
    requires ValidCodec(codec)
    requires now > issued + p.accessTokenExpirationSeconds
    ensures IsAccessTokenValid(codec, k, GenerateAccessToken(p, k, codec, user, issued), user.email, now) == Err(Expired)
  {
    var c := AccessClaims(p, user, issued);
    assert codec.decode(codec.encode(c, k), k) == Ok(c);
  }

  /** A token signed with another key fails the signature check. */
  lemma ForeignKeyRejected(p: JwtProperties, k: Key, k2: Key, codec: Codec, user: AppUser, issued: int, now: int)
    requires ValidCodec(codec) && k != k2
    ensures IsAccessTokenValid(codec, k2, GenerateAccessToken(p, k, codec, user, issued), user.email, now) == Err(BadSignature)
    ensures ExtractTokenType(codec, k2, GenerateRefreshToken(p, k, codec, user, issued), now) == Err(BadSignature)
  {
    assert codec.decode(codec.encode(AccessClaims(p, user, issued), k), k2) == Err(BadSignature);
    assert codec.decode(codec.encode(RefreshClaims(p, user, issued), k), k2) == Err(BadSignature);
  }
}
