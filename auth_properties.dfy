/** What register, login and refresh guarantee about the two tables: the state invariant
    they keep, revocation that never comes undone, bulk revocation at login, single-use
    rotation at refresh, and failures that reveal little and change nothing. */
module AuthProperties {
  import opened Wrappers
  import opened Text
  import opened Users
  import opened Errors
  import opened Jwt
  import opened TokenStore
  import opened AuthService

  /** A token row as storeRefreshToken writes it: its text parses under the service key to
      a refresh claim set naming the row's owner and the row's expiry. */
  predicate IssuedFor(env: Env, row: RefreshToken)
  {
    env.codec.decode(row.token, env.key).Ok?
    && var c := env.codec.decode(row.token, env.key).value;
       "uid" in c.custom && c.custom["uid"] == Num(row.userId)
       && c.expiration == row.expiresAt && TypeClaim(c) == Ok(Some("refresh"))
  }

  /** The user table's invariant: ids are positions + 1 and e-mails are unique. */
  predicate UsersValid(users: seq<AppUser>)
  {
    (forall i :: 0 <= i < |users| ==> users[i].id == i + 1)
    && (forall i, j :: 0 <= i < j < |users| ==> users[i].email != users[j].email)
  }

  /** Every row belongs to one of the first `userCount` users and was written by
      storeRefreshToken. */
  predicate RowsValid(env: Env, userCount: int, tokens: seq<RefreshToken>)
  {
    forall i :: 0 <= i < |tokens| ==> 1 <= tokens[i].userId <= userCount && IssuedFor(env, tokens[i])
  }

  /** No user has two unrevoked rows. */
  predicate AtMostOneActive(tokens: seq<RefreshToken>)
  {
    forall i, j :: 0 <= i < j < |tokens| && tokens[i].userId == tokens[j].userId ==>
      tokens[i].revoked || tokens[j].revoked
  }

  /** The invariant of the two tables. */
  predicate StoreValid(env: Env, s: Store)
  {
    UsersValid(s.users) && RowsValid(env, |s.users|, s.tokens) && AtMostOneActive(s.tokens)
  }

  ghost predicate Sound(env: Env)
  {
    ValidCodec(env.codec) && ValidProperties(env.props)
  }


  // ---- the shared tail ----

  /** Whatever the library does, the tail either rolls back to `before` or keeps the users
      and appends exactly one unrevoked row for the user, holding the refresh token it
      answers with; the answer carries type Bearer, the access TTL and the user's id,
      e-mail and role name. */
  lemma IssueShape(env: Env, users: seq<AppUser>, tokens: seq<RefreshToken>, user: AppUser, now: int, before: Store)
    ensures var o := Issue(env, users, tokens, user, now, before);
      && (o.result.Err? ==> o.store == before)
      && (o.result.Ok? ==>
            && o.result.value.tokenType == "Bearer"
            && o.result.value.expiresInSeconds == env.props.accessTokenExpirationSeconds
            && o.result.value.userId == user.id && o.result.value.email == user.email
            && o.result.value.role == RoleName(user.role)
            && o.store.users == users
            && o.store.tokens == tokens + [o.store.tokens[|tokens|]]
            && o.store.tokens[|tokens|].token == o.result.value.refreshToken
            && o.store.tokens[|tokens|].userId == user.id
            && !o.store.tokens[|tokens|].revoked)
  {
  }

  /** With a sound library the tail always succeeds, and the row it adds holds the new
      refresh token with its exp claim. */
  lemma IssueSucceeds(env: Env, users: seq<AppUser>, tokens: seq<RefreshToken>, user: AppUser, now: int, before: Store)
    requires Sound(env)
    ensures var refreshToken := GenerateRefreshToken(env.props, env.key, env.codec, user, now);
      var row := RefreshToken(refreshToken, user.id, now + env.props.refreshTokenExpirationSeconds, false);
      && Issue(env, users, tokens, user, now, before)
           == Outcome(Ok(BuildAuthResponse(env.props, user,
                                           GenerateAccessToken(env.props, env.key, env.codec, user, now),
                                           refreshToken)),
                      Store(users, tokens + [row]))
      && IssuedFor(env, row)
  {
    var c := RefreshClaims(env.props, user, now);
    assert env.codec.decode(env.codec.encode(c, env.key), env.key) == Ok(c);
  }

  lemma IssueOk(env: Env, users: seq<AppUser>, tokens: seq<RefreshToken>, user: AppUser, now: int, before: Store)
    requires Sound(env)
    ensures Issue(env, users, tokens, user, now, before).result.Ok?
  {
    IssueSucceeds(env, users, tokens, user, now, before);
  }

  // ---- failures change nothing ----

  lemma RegisterErrorChangesNothing(env: Env, s: Store, request: RegisterRequest, now: int)
    ensures RegisterSpec(env, s, request, now).result.Err? ==> RegisterSpec(env, s, request, now).store == s
  {
    if !ExistsByEmail(s.users, NormalizeEmail(request.email)) {
      var user := AppUser(|s.users| + 1, Trim(request.fullName), NormalizeEmail(request.email),
                          env.encoder.encode(request.password), USER);
      IssueShape(env, s.users + [user], s.tokens, user, now, s);
    }
  }

  lemma LoginErrorChangesNothing(env: Env, s: Store, request: LoginRequest, now: int)
    ensures LoginSpec(env, s, request, now).result.Err? ==> LoginSpec(env, s, request, now).store == s
  {
    var found := FindUserIndex(s.users, NormalizeEmail(request.email));
    if Authenticates(env.encoder, s.users, NormalizeEmail(request.email), request.password) {
      var user := s.users[found.value];
      IssueShape(env, s.users, RevokedFor(s.tokens, user.id), user, now, s);
    }
  }

  lemma RefreshErrorChangesNothing(env: Env, s: Store, request: TokenRefreshRequest, now: int)
    ensures RefreshSpec(env, s, request, now).result.Err? ==> RefreshSpec(env, s, request, now).store == s
  {
    var l := FindByToken(s.tokens, request.refreshToken);
    if l.Found? && UserById(s.users, s.tokens[l.index].userId).Some? {
      var row := s.tokens[l.index];
      IssueShape(env, s.users, s.tokens[l.index := row.(revoked := true)],
                 UserById(s.users, row.userId).value, now, s);
    }
  }

  // ---- register ----

  /** register answers Conflict exactly when the normalised e-mail is taken, and then
      writes nothing. */
  lemma RegisterConflictIff(env: Env, s: Store, request: RegisterRequest, now: int)
    ensures RegisterSpec(env, s, request, now).result == Err(Conflict(EMAIL_TAKEN)) <==>
      ExistsByEmail(s.users, NormalizeEmail(request.email))
    ensures ExistsByEmail(s.users, NormalizeEmail(request.email)) ==> RegisterSpec(env, s, request, now).store == s
  {
    if !ExistsByEmail(s.users, NormalizeEmail(request.email)) {
      var user := AppUser(|s.users| + 1, Trim(request.fullName), NormalizeEmail(request.email),
                          env.encoder.encode(request.password), USER);
      IssueShape(env, s.users + [user], s.tokens, user, now, s);
    }
  }

  /** A successful register stores exactly one user (next id, trimmed name, normalised
      e-mail, encoded password, role USER) and exactly one unrevoked token row for it. */
  lemma RegisterCreatesUser(env: Env, s: Store, request: RegisterRequest, now: int)
    requires Sound(env) && !ExistsByEmail(s.users, NormalizeEmail(request.email))
    ensures var o := RegisterSpec(env, s, request, now);
      var user := AppUser(|s.users| + 1, Trim(request.fullName), NormalizeEmail(request.email),
                          env.encoder.encode(request.password), USER);
      && o.result.Ok?
      && o.store.users == s.users + [user]
      && o.store.tokens == s.tokens + [RefreshToken(o.result.value.refreshToken, user.id,
                                                    now + env.props.refreshTokenExpirationSeconds, false)]
      && o.result.value.userId == user.id && o.result.value.email == user.email
      && o.result.value.role == "USER" && o.result.value.tokenType == "Bearer"
      && o.result.value.expiresInSeconds == env.props.accessTokenExpirationSeconds
  {
    var user := AppUser(|s.users| + 1, Trim(request.fullName), NormalizeEmail(request.email),
                        env.encoder.encode(request.password), USER);
    IssueSucceeds(env, s.users + [user], s.tokens, user, now, s);
  }

  // ---- login ----

  /** An unknown e-mail and a wrong password fail alike, with the same message, and
      change nothing. */
  lemma LoginFailuresAlike(env: Env, s: Store, request: LoginRequest, now: int)
    requires var found := FindUserIndex(s.users, NormalizeEmail(request.email));
      found.None? || !env.encoder.matches(request.password, s.users[found.value].passwordHash)
    ensures LoginSpec(env, s, request, now) == Outcome(Err(Unauthorized(BAD_LOGIN)), s)
  {
  }

  /** The "User does not exist" branch is dead: authentication already looked the user up
      in the same table. */
  lemma LoginNeverNotFound(env: Env, s: Store, request: LoginRequest, now: int)
    ensures LoginSpec(env, s, request, now).result != Err(NotFound(NO_SUCH_USER))
  {
    var found := FindUserIndex(s.users, NormalizeEmail(request.email));
    if Authenticates(env.encoder, s.users, NormalizeEmail(request.email), request.password) {
      var user := s.users[found.value];
      IssueShape(env, s.users, RevokedFor(s.tokens, user.id), user, now, s);
    }
  }

  /** After a successful login every earlier row of the user is revoked, other users'
      rows are as they were, and the one new row is the user's only unrevoked row. */
  lemma LoginRevokesEarlierRows(env: Env, s: Store, request: LoginRequest, now: int)
    requires Sound(env)
    requires Authenticates(env.encoder, s.users, NormalizeEmail(request.email), request.password)
    ensures var user := s.users[FindUserIndex(s.users, NormalizeEmail(request.email)).value];
      var o := LoginSpec(env, s, request, now);
      && o.result.Ok? && o.result.value.userId == user.id
      && o.store.users == s.users
      && |o.store.tokens| == |s.tokens| + 1
      && (forall i :: 0 <= i < |s.tokens| && s.tokens[i].userId == user.id ==> o.store.tokens[i].revoked)
      && (forall i :: 0 <= i < |s.tokens| && s.tokens[i].userId != user.id ==> o.store.tokens[i] == s.tokens[i])
      && o.store.tokens[|s.tokens|] == RefreshToken(o.result.value.refreshToken, user.id,
                                                     now + env.props.refreshTokenExpirationSeconds, false)
      && ActiveRows(o.store.tokens, user.id) == {|s.tokens|}
  {
    var user := s.users[FindUserIndex(s.users, NormalizeEmail(request.email)).value];
    var revoked := RevokedFor(s.tokens, user.id);
    IssueSucceeds(env, s.users, revoked, user, now, s);
    assert LoginSpec(env, s, request, now) == Issue(env, s.users, revoked, user, now, s);
    var row := RefreshToken(GenerateRefreshToken(env.props, env.key, env.codec, user, now), user.id,
                            now + env.props.refreshTokenExpirationSeconds, false);
    RevokeThenAppend(s.tokens, user.id, row);
  }

  /** The bulk update followed by the insert of a new unrevoked row for the same user. */
  lemma RevokeThenAppend(tokens: seq<RefreshToken>, userId: int, row: RefreshToken)
    requires row.userId == userId && !row.revoked
    ensures var t := RevokedFor(tokens, userId) + [row];
      && |t| == |tokens| + 1
      && (forall i :: 0 <= i < |tokens| && tokens[i].userId == userId ==> t[i].revoked)
      && (forall i :: 0 <= i < |tokens| && tokens[i].userId != userId ==> t[i] == tokens[i])
      && t[|tokens|] == row
      && ActiveRows(t, userId) == {|tokens|}
  {
    var t := RevokedFor(tokens, userId) + [row];
    RevokeLeavesNoneActive(tokens, userId);
    assert ActiveRows(t, userId) == ActiveRows(RevokedFor(tokens, userId), userId) + {|tokens|};
  }

  // ---- refresh ----

  /** Under the invariant and a sound library every refresh failure is a 401 with one of
      five fixed messages, except a lookup that matches several rows (a 500). */
  lemma RefreshFailuresAreUnauthorized(env: Env, s: Store, request: TokenRefreshRequest, now: int)
    requires Sound(env) && StoreValid(env, s)
    ensures var r := RefreshSpec(env, s, request, now).result;
      r.Err? ==>
        (r.error.Unauthorized?
         && r.error.message in {UNKNOWN_REFRESH, REVOKED_REFRESH, EXPIRED_REFRESH, INVALID_REFRESH, WRONG_TYPE_REFRESH})
        || FindByToken(s.tokens, request.refreshToken).Ambiguous?
  {
    var l := FindByToken(s.tokens, request.refreshToken);
    if l.Found? {
      var row := s.tokens[l.index];
      assert 1 <= row.userId <= |s.users|;
      IssueOk(env, s.users, s.tokens[l.index := row.(revoked := true)], s.users[row.userId - 1], now, s);
    }
  }

  /** Presenting an unknown value or a revoked row fails Unauthorized and changes nothing. */
  lemma RefreshRejectsUnknownOrRevoked(env: Env, s: Store, request: TokenRefreshRequest, now: int)
    ensures FindByToken(s.tokens, request.refreshToken).Absent? ==>
      RefreshSpec(env, s, request, now) == Outcome(Err(Unauthorized(UNKNOWN_REFRESH)), s)
    ensures var l := FindByToken(s.tokens, request.refreshToken);
      l.Found? && s.tokens[l.index].revoked ==>
        RefreshSpec(env, s, request, now) == Outcome(Err(Unauthorized(REVOKED_REFRESH)), s)
  {
  }

  /** A successful refresh went through every check: the value matched one unrevoked,
      unexpired row of type refresh whose owner exists, and the answer is the tail's for
      that owner with the row revoked. */
  lemma RefreshSuccessIsIssue(env: Env, s: Store, request: TokenRefreshRequest, now: int)
    requires RefreshSpec(env, s, request, now).result.Ok?
    ensures var l := FindByToken(s.tokens, request.refreshToken);
      && l.Found? && !s.tokens[l.index].revoked && now <= s.tokens[l.index].expiresAt
      && ExtractTokenType(env.codec, env.key, s.tokens[l.index].token, now) == Ok(Some("refresh"))
      && UserById(s.users, s.tokens[l.index].userId).Some?
      && RefreshSpec(env, s, request, now)
           == Issue(env, s.users, s.tokens[l.index := s.tokens[l.index].(revoked := true)],
                    UserById(s.users, s.tokens[l.index].userId).value, now, s)
  {
  }

  /** A successful refresh revokes exactly the presented row and appends one unrevoked row
      for the same owner holding the new refresh token. */
  lemma RefreshRotates(env: Env, s: Store, request: TokenRefreshRequest, now: int)
    requires UsersValid(s.users) && RefreshSpec(env, s, request, now).result.Ok?
    ensures var l := FindByToken(s.tokens, request.refreshToken);
      var o := RefreshSpec(env, s, request, now);
      && l.Found? && !s.tokens[l.index].revoked && now <= s.tokens[l.index].expiresAt
      && o.store.users == s.users
      && o.store.tokens == s.tokens[l.index := s.tokens[l.index].(revoked := true)] + [o.store.tokens[|s.tokens|]]
      && o.store.tokens[|s.tokens|].token == o.result.value.refreshToken
      && o.store.tokens[|s.tokens|].userId == s.tokens[l.index].userId
      && !o.store.tokens[|s.tokens|].revoked
  {
    RefreshSuccessIsIssue(env, s, request, now);
    var l := FindByToken(s.tokens, request.refreshToken);
    var row := s.tokens[l.index];
    var owner := UserById(s.users, row.userId).value;
    IssueShape(env, s.users, s.tokens[l.index := row.(revoked := true)], owner, now, s);
  }

  /** A refresh token works once: after a successful refresh, presenting the same value
      again fails at any later time. Usually the old row is found revoked; if the new token
      came out identical (same user, same second) the value now matches two rows. */
  lemma RefreshSingleUse(env: Env, s: Store, request: TokenRefreshRequest, now: int, later: int)
    requires RefreshSpec(env, s, request, now).result.Ok?
    ensures RefreshSpec(env, RefreshSpec(env, s, request, now).store, request, later).result.Err?
  {
    RefreshSuccessIsIssue(env, s, request, now);
    var l := FindByToken(s.tokens, request.refreshToken);
    IssueShape(env, s.users, s.tokens[l.index := s.tokens[l.index].(revoked := true)],
               UserById(s.users, s.tokens[l.index].userId).value, now, s);
    var i := FindByToken(s.tokens, request.refreshToken).index;
    var o := RefreshSpec(env, s, request, now);
    var rotated := s.tokens[i := s.tokens[i].(revoked := true)];
    var row := o.store.tokens[|s.tokens|];
    SameTokensSameLookup(s.tokens, rotated, request.refreshToken);
    FindAfterInsert(rotated, row, request.refreshToken);
  }

  // ---- revocation is permanent ----

  /** `b` is `a` after inserts and revocations only: rows keep their place, text, owner
      and expiry, and a revoked row stays revoked. */
  predicate Evolves(a: seq<RefreshToken>, b: seq<RefreshToken>)
  {
    |a| <= |b|
    && forall i :: 0 <= i < |a| ==>
      b[i].token == a[i].token && b[i].userId == a[i].userId && b[i].expiresAt == a[i].expiresAt
      && (a[i].revoked ==> b[i].revoked)
  }

  lemma RegisterEvolves(env: Env, s: Store, request: RegisterRequest, now: int)
    ensures Evolves(s.tokens, RegisterSpec(env, s, request, now).store.tokens)
    ensures s.users <= RegisterSpec(env, s, request, now).store.users
  {
    if !ExistsByEmail(s.users, NormalizeEmail(request.email)) {
      var user := AppUser(|s.users| + 1, Trim(request.fullName), NormalizeEmail(request.email),
                          env.encoder.encode(request.password), USER);
      IssueShape(env, s.users + [user], s.tokens, user, now, s);
      var o := RegisterSpec(env, s, request, now);
      if o.result.Ok? {
        AppendEvolves(s.tokens, s.tokens, o.store.tokens[|s.tokens|]);
      }
    }
  }

  lemma LoginEvolves(env: Env, s: Store, request: LoginRequest, now: int)
    ensures Evolves(s.tokens, LoginSpec(env, s, request, now).store.tokens)
    ensures LoginSpec(env, s, request, now).store.users == s.users
  {
    var found := FindUserIndex(s.users, NormalizeEmail(request.email));
    if Authenticates(env.encoder, s.users, NormalizeEmail(request.email), request.password) {
      var user := s.users[found.value];
      var revoked := RevokedFor(s.tokens, user.id);
      IssueShape(env, s.users, revoked, user, now, s);
      RevokeEvolves(s.tokens, user.id);
      var o := LoginSpec(env, s, request, now);
      if o.result.Ok? {
        AppendEvolves(s.tokens, revoked, o.store.tokens[|revoked|]);
      }
    }
  }

  /** The bulk revoke only sets flags. */
  lemma RevokeEvolves(tokens: seq<RefreshToken>, userId: int)
    ensures Evolves(tokens, RevokedFor(tokens, userId))
  {
    forall i | 0 <= i < |tokens|
      ensures RevokedFor(tokens, userId)[i].token == tokens[i].token
      ensures RevokedFor(tokens, userId)[i].userId == tokens[i].userId
      ensures RevokedFor(tokens, userId)[i].expiresAt == tokens[i].expiresAt
      ensures tokens[i].revoked ==> RevokedFor(tokens, userId)[i].revoked
    {
      RevokeFrame(tokens, userId, i);
    }
  }

  /** An insert after an evolution is still one. */
  lemma AppendEvolves(a: seq<RefreshToken>, b: seq<RefreshToken>, row: RefreshToken)
    requires Evolves(a, b)
    ensures Evolves(a, b + [row])
  {
    assert forall i :: 0 <= i < |b| ==> (b + [row])[i] == b[i];
  }

  lemma RefreshEvolves(env: Env, s: Store, request: TokenRefreshRequest, now: int)
    ensures Evolves(s.tokens, RefreshSpec(env, s, request, now).store.tokens)
    ensures RefreshSpec(env, s, request, now).store.users == s.users
  {
    if RefreshSpec(env, s, request, now).result.Ok? {
      RefreshSucceeded(env, s, request, now);
      RefreshTailEvolves(env, s, FindByToken(s.tokens, request.refreshToken).index, now);
    } else {
      RefreshErrorChangesNothing(env, s, request, now);
    }
  }

  lemma RefreshTailEvolves(env: Env, s: Store, i: nat, now: int)
    requires i < |s.tokens| && 1 <= s.tokens[i].userId <= |s.users|
    ensures var o := Issue(env, s.users, s.tokens[i := s.tokens[i].(revoked := true)],
                           s.users[s.tokens[i].userId - 1], now, s);
      Evolves(s.tokens, o.store.tokens) && o.store.users == s.users
  {
    var rotated := s.tokens[i := s.tokens[i].(revoked := true)];
    var o := Issue(env, s.users, rotated, s.users[s.tokens[i].userId - 1], now, s);
    IssueShape(env, s.users, rotated, s.users[s.tokens[i].userId - 1], now, s);
    assert Evolves(s.tokens, rotated);
    if o.result.Ok? {
      AppendEvolves(s.tokens, rotated, o.store.tokens[|rotated|]);
    }
  }

  // ---- the invariant ----

  lemma RegisterKeepsValid(env: Env, s: Store, request: RegisterRequest, now: int)
    requires Sound(env) && StoreValid(env, s)
    ensures StoreValid(env, RegisterSpec(env, s, request, now).store)
  {
    var email := NormalizeEmail(request.email);
    if !ExistsByEmail(s.users, email) {
      var user := AppUser(|s.users| + 1, Trim(request.fullName), email, env.encoder.encode(request.password), USER);
      RegisterCreatesUser(env, s, request, now);
      IssueSucceeds(env, s.users + [user], s.tokens, user, now, s);
      NewUserKeepsValid(env, s, user, now);
    }
  }

  /** The tables after storing a new user with the next id and an unused e-mail, and its
      first refresh token. */
  lemma NewUserKeepsValid(env: Env, s: Store, user: AppUser, now: int)
    requires Sound(env) && StoreValid(env, s)
    requires user.id == |s.users| + 1 && !ExistsByEmail(s.users, user.email)
    ensures var row := RefreshToken(GenerateRefreshToken(env.props, env.key, env.codec, user, now), user.id,
                                    now + env.props.refreshTokenExpirationSeconds, false);
      StoreValid(env, Store(s.users + [user], s.tokens + [row]))
  {
    var row := RefreshToken(GenerateRefreshToken(env.props, env.key, env.codec, user, now), user.id,
                            now + env.props.refreshTokenExpirationSeconds, false);
    IssueSucceeds(env, s.users + [user], s.tokens, user, now, s);
    UsersAppend(s.users, user);
    RowsAppend(env, |s.users|, s.tokens, row);
    AppendFirstActive(s.tokens, row);
  }

  lemma LoginKeepsValid(env: Env, s: Store, request: LoginRequest, now: int)
    requires Sound(env) && StoreValid(env, s)
    ensures StoreValid(env, LoginSpec(env, s, request, now).store)
  {
    if Authenticates(env.encoder, s.users, NormalizeEmail(request.email), request.password) {
      var k := FindUserIndex(s.users, NormalizeEmail(request.email)).value;
      LoginTailKeepsValid(env, s, k, now);
    }
  }

  /** Login's tail for the user at position k: revoke that user's rows, then issue. */
  lemma LoginTailKeepsValid(env: Env, s: Store, k: nat, now: int)
    requires Sound(env) && StoreValid(env, s) && k < |s.users|
    ensures var user := s.users[k];
      StoreValid(env, Issue(env, s.users, RevokedFor(s.tokens, user.id), user, now, s).store)
  {
    var user := s.users[k];
    RowsRevoke(env, |s.users|, s.tokens, user.id);
    RevokeLeavesNoneActive(s.tokens, user.id);
    IssueKeepsValid(env, s.users, RevokedFor(s.tokens, user.id), user, now, s);
  }

  lemma RefreshKeepsValid(env: Env, s: Store, request: TokenRefreshRequest, now: int)
    requires Sound(env) && StoreValid(env, s)
    ensures StoreValid(env, RefreshSpec(env, s, request, now).store)
  {
    if RefreshSpec(env, s, request, now).result.Ok? {
      RefreshSucceeded(env, s, request, now);
      RefreshTailKeepsValid(env, s, FindByToken(s.tokens, request.refreshToken).index, now);
    } else {
      RefreshErrorChangesNothing(env, s, request, now);
    }
  }

  /** Refresh's tail for the unrevoked row i: rotate it, then issue to its owner. */
  lemma RefreshTailKeepsValid(env: Env, s: Store, i: nat, now: int)
    requires Sound(env) && StoreValid(env, s) && i < |s.tokens| && !s.tokens[i].revoked
    ensures 1 <= s.tokens[i].userId <= |s.users|
    ensures StoreValid(env, Issue(env, s.users, s.tokens[i := s.tokens[i].(revoked := true)],
                                  s.users[s.tokens[i].userId - 1], now, s).store)
  {
    var owner := s.users[s.tokens[i].userId - 1];
    var rotated := s.tokens[i := s.tokens[i].(revoked := true)];
    RowsRotate(env, |s.users|, s.tokens, i);
    RotateLeavesNoneActive(s.tokens, i);
    IssueKeepsValid(env, s.users, rotated, owner, now, s);
  }

  /** The branch a successful refresh took: a unique unrevoked row whose owner exists,
      rotated before the tail runs. */
  lemma RefreshSucceeded(env: Env, s: Store, request: TokenRefreshRequest, now: int)
    requires RefreshSpec(env, s, request, now).result.Ok?
    ensures FindByToken(s.tokens, request.refreshToken).Found?
    ensures var i := FindByToken(s.tokens, request.refreshToken).index;
      && !s.tokens[i].revoked && 1 <= s.tokens[i].userId <= |s.users|
      && RefreshSpec(env, s, request, now)
           == Issue(env, s.users, s.tokens[i := s.tokens[i].(revoked := true)], s.users[s.tokens[i].userId - 1], now, s)
  {
  }

  /** The shared tail keeps the invariant when the user is stored and has no active row
      left. */
  lemma IssueKeepsValid(env: Env, users: seq<AppUser>, tokens: seq<RefreshToken>, user: AppUser, now: int, before: Store)
    requires Sound(env) && UsersValid(users) && RowsValid(env, |users|, tokens) && AtMostOneActive(tokens)
    requires 1 <= user.id <= |users|
    requires forall i :: 0 <= i < |tokens| ==> !IsActiveFor(tokens[i], user.id)
    ensures StoreValid(env, Issue(env, users, tokens, user, now, before).store)
  {
    var row := RefreshToken(GenerateRefreshToken(env.props, env.key, env.codec, user, now), user.id,
                            now + env.props.refreshTokenExpirationSeconds, false);
    IssueSucceeds(env, users, tokens, user, now, before);
    RowsAppend(env, |users|, tokens, row);
    AppendFirstActive(tokens, row);
  }

  lemma UsersAppend(users: seq<AppUser>, user: AppUser)
    requires UsersValid(users) && user.id == |users| + 1 && !ExistsByEmail(users, user.email)
    ensures UsersValid(users + [user])
  {
  }

  lemma RowsAppend(env: Env, userCount: int, tokens: seq<RefreshToken>, row: RefreshToken)
    requires RowsValid(env, userCount, tokens) && 1 <= row.userId <= userCount + 1 && IssuedFor(env, row)
    ensures RowsValid(env, userCount + 1, tokens + [row])
    ensures row.userId <= userCount ==> RowsValid(env, userCount, tokens + [row])
  {
  }

  lemma RowsRevoke(env: Env, userCount: int, tokens: seq<RefreshToken>, userId: int)
    requires RowsValid(env, userCount, tokens)
    ensures RowsValid(env, userCount, RevokedFor(tokens, userId))
  {
    forall i | 0 <= i < |tokens| ensures RevokedFor(tokens, userId)[i].token == tokens[i].token {
      RevokeFrame(tokens, userId, i);
    }
  }

  lemma RowsRotate(env: Env, userCount: int, tokens: seq<RefreshToken>, i: nat)
    requires RowsValid(env, userCount, tokens) && i < |tokens|
    ensures RowsValid(env, userCount, tokens[i := tokens[i].(revoked := true)])
  {
  }

  /** Appending an unrevoked row keeps at most one active row per user when its owner has
      none so far. */
  lemma AppendFirstActive(tokens: seq<RefreshToken>, row: RefreshToken)
    requires AtMostOneActive(tokens)
    requires forall i :: 0 <= i < |tokens| ==> !IsActiveFor(tokens[i], row.userId)
    ensures AtMostOneActive(tokens + [row])
  {
  }

  lemma RotateLeavesNoneActive(tokens: seq<RefreshToken>, i: nat)
    requires AtMostOneActive(tokens) && i < |tokens| && !tokens[i].revoked
    ensures var rotated := tokens[i := tokens[i].(revoked := true)];
      AtMostOneActive(rotated)
      && forall j :: 0 <= j < |rotated| ==> !IsActiveFor(rotated[j], tokens[i].userId)
  {
    var rotated := tokens[i := tokens[i].(revoked := true)];
    forall j | 0 <= j < |rotated| ensures !IsActiveFor(rotated[j], tokens[i].userId) {
      if j < i {
        assert tokens[j].userId == tokens[i].userId ==> tokens[j].revoked;
      } else if j > i {
        assert tokens[i].userId == tokens[j].userId ==> tokens[j].revoked;
      }
    }
  }

  // ---- scenarios ----

  /** The refresh token issued to a user with a new id cannot collide with a stored one:
      every stored text names an existing user as its owner. */
  lemma FreshUserTokenIsNew(env: Env, s: Store, user: AppUser, now: int)
    requires Sound(env) && StoreValid(env, s) && user.id > |s.users|
    ensures FindByToken(s.tokens, GenerateRefreshToken(env.props, env.key, env.codec, user, now)).Absent?
  {
    var c := RefreshClaims(env.props, user, now);
    assert env.codec.decode(env.codec.encode(c, env.key), env.key) == Ok(c);
    forall j | 0 <= j < |s.tokens| ensures s.tokens[j].token != env.codec.encode(c, env.key) {
      assert IssuedFor(env, s.tokens[j]);
    }
  }

  /** The checks refresh makes, met one by one, and a sound library: the refresh
      succeeds. */
  lemma RefreshSucceedsWhen(env: Env, s: Store, token: string, i: nat, owner: AppUser, now: int)
    requires Sound(env)
    requires FindByToken(s.tokens, token) == Found(i)
    requires !s.tokens[i].revoked && now <= s.tokens[i].expiresAt
    requires ExtractTokenType(env.codec, env.key, s.tokens[i].token, now) == Ok(Some("refresh"))
    requires UserById(s.users, s.tokens[i].userId) == Some(owner)
    ensures RefreshSpec(env, s, TokenRefreshRequest(token), now).result.Ok?
  {
    IssueOk(env, s.users, s.tokens[i := s.tokens[i].(revoked := true)], owner, now, s);
  }

  /** A refresh token just stored by the tail, presented before it expires, is accepted,
      provided its text matches no older row. */
  lemma RefreshOwnNewToken(env: Env, users: seq<AppUser>, tokens: seq<RefreshToken>, user: AppUser,
                           now: int, later: int)
    requires Sound(env) && UserById(users, user.id) == Some(user)
    requires FindByToken(tokens, GenerateRefreshToken(env.props, env.key, env.codec, user, now)).Absent?
    requires now <= later <= now + env.props.refreshTokenExpirationSeconds
    ensures var token := GenerateRefreshToken(env.props, env.key, env.codec, user, now);
      var s := Store(users, tokens + [RefreshToken(token, user.id, now + env.props.refreshTokenExpirationSeconds, false)]);
      RefreshSpec(env, s, TokenRefreshRequest(token), later).result.Ok?
  {
    var token := GenerateRefreshToken(env.props, env.key, env.codec, user, now);
    var row := RefreshToken(token, user.id, now + env.props.refreshTokenExpirationSeconds, false);
    FindAfterInsert(tokens, row, token);
    var c := RefreshClaims(env.props, user, now);
    assert env.codec.decode(token, env.key) == Ok(c);
    RefreshSucceedsWhen(env, Store(users, tokens + [row]), token, |tokens|, user, later);
  }

  /** Register, then refresh with the refresh token it returned, at any time up to that
      token's expiry: the refresh succeeds. */
  lemma RegisterThenRefresh(env: Env, s: Store, request: RegisterRequest, now: int, later: int)
    requires Sound(env) && StoreValid(env, s)
    requires !ExistsByEmail(s.users, NormalizeEmail(request.email))
    requires now <= later <= now + env.props.refreshTokenExpirationSeconds
    ensures var o := RegisterSpec(env, s, request, now);
      o.result.Ok? && RefreshSpec(env, o.store, TokenRefreshRequest(o.result.value.refreshToken), later).result.Ok?
  {
    var user := AppUser(|s.users| + 1, Trim(request.fullName), NormalizeEmail(request.email),
                        env.encoder.encode(request.password), USER);
    FreshUserTokenIsNew(env, s, user, now);
    RegisterCreatesUser(env, s, request, now);
    IssueSucceeds(env, s.users + [user], s.tokens, user, now, s);
    RefreshOwnNewToken(env, s.users + [user], s.tokens, user, now, later);
  }

  /** Refreshing in the same second the presented token was issued yields the very same
      token text again (the claims, iat included, are identical and HS256 is
      deterministic), so the table then holds that text twice and any further refresh with
      it ends in a 500 rather than the 401 for a revoked token. */
  lemma SameSecondRefreshDuplicates(env: Env, s: Store, request: TokenRefreshRequest, now: int, later: int)
    requires RefreshSpec(env, s, request, now).result.Ok?
    requires var i := FindByToken(s.tokens, request.refreshToken).index;
      request.refreshToken == GenerateRefreshToken(env.props, env.key, env.codec, s.users[s.tokens[i].userId - 1], now)
    ensures var o := RefreshSpec(env, s, request, now);
      && o.result.value.refreshToken == request.refreshToken
      && FindByToken(o.store.tokens, request.refreshToken).Ambiguous?
      && RefreshSpec(env, o.store, request, later).result == Err(Unexpected("findByToken matched several rows"))
  {
    RefreshSuccessIsIssue(env, s, request, now);
    var l := FindByToken(s.tokens, request.refreshToken);
    IssueShape(env, s.users, s.tokens[l.index := s.tokens[l.index].(revoked := true)],
               UserById(s.users, s.tokens[l.index].userId).value, now, s);
    var i := FindByToken(s.tokens, request.refreshToken).index;
    var o := RefreshSpec(env, s, request, now);
    var rotated := s.tokens[i := s.tokens[i].(revoked := true)];
    SameTokensSameLookup(s.tokens, rotated, request.refreshToken);
    FindAfterInsert(rotated, o.store.tokens[|s.tokens|], request.refreshToken);
  }
}
