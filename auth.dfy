/**
 * AuthService: login with a stored refresh token, access-token refresh,
 * logout and the activity log, as a small state machine over the user,
 * refresh-token and activity-log tables of an `IdentityDb`. The clock is a
 * parameter (`now`, in seconds).
 */
module Auth {
  import opened Errors
  import opened Lists
  import opened Crypto
  import opened Identity

  /** The configuration values the service reads. An unset or empty value is
      `""` / `None`; `moduleSecret` is the secret the JWT module was registered
      with, used whenever a call passes no secret of its own. */
  datatype AuthConfig = AuthConfig(
    moduleSecret: string, jwtSecret: string, refreshTokenSecret: string,
    accessTokenExpiresIn: Option<nat>, refreshTokenExpiresIn: Option<nat>)

  /** `REFRESH_TOKEN_SECRET || JWT_SECRET`, the same expression for signing and verifying. */
  function RefreshSecret(cfg: AuthConfig): string {
    if cfg.refreshTokenSecret != "" then cfg.refreshTokenSecret
    else if cfg.jwtSecret != "" then cfg.jwtSecret
    else cfg.moduleSecret
  }

  /** `ACCESS_TOKEN_EXPIRES_IN || '1h'`. */
  function AccessTtl(cfg: AuthConfig): nat { cfg.accessTokenExpiresIn.GetOr(ONE_HOUR) }

  /** `REFRESH_TOKEN_EXPIRES_IN || '7d'`. */
  function RefreshTtl(cfg: AuthConfig): nat { cfg.refreshTokenExpiresIn.GetOr(SEVEN_DAYS) }

  function AccessToken(cfg: AuthConfig, userId: int, now: int): TokenString {
    Sign(userId, cfg.moduleSecret, AccessTtl(cfg), now)
  }

  function RefreshTokenFor(cfg: AuthConfig, userId: int, now: int): TokenString {
    Sign(userId, RefreshSecret(cfg), RefreshTtl(cfg), now)
  }

  /** The user part of a login result: no password hash. */
  datatype UserSummary = UserSummary(id: int, username: string, email: string, roles: seq<string>)
  datatype Tokens = Tokens(accessToken: TokenString, refreshToken: TokenString)
  datatype LoginResult = LoginResult(user: UserSummary, tokens: Tokens)

  const DISABLED_MESSAGE := "Invalid credentials or account is disabled"
  const CREDENTIALS_MESSAGE := "Invalid credentials"
  const REFRESH_MESSAGE := "Invalid or expired refresh token"
  const LOGOUT_MESSAGE := "Logged out successfully"

  function TokenIs(tok: TokenString): RefreshToken -> bool {
    (k: RefreshToken) => k.token == tok
  }

  predicate Stored(rows: seq<RefreshToken>, tok: TokenString) {
    exists k :: k in rows && k.token == tok
  }

  /** The credentials check of `loginUser`: a user with that username that is
      active and whose hash accepts the password. */
  predicate CredentialsValid(t: Tables, username: string, password: string) {
    exists u :: u in t.users && u.username == username && u.isActive && Compare(password, u.passwordHash)
  }

  /** The credentials are valid and the refresh token this login would sign is not stored yet. */
  predicate CanLogin(t: Tables, cfg: AuthConfig, username: string, password: string, now: int) {
    exists u :: && u in t.users && u.username == username && u.isActive && Compare(password, u.passwordHash)
                && !Stored(t.refreshTokens, RefreshTokenFor(cfg, u.id, now))
  }

  /** `loginUser(username, password)` at clock `now`: the result and the new
      refresh-token table. The only write is the insert after every check; the
      token column is unique, so inserting a token already stored fails with P2002. */
  function LoginUserOutcome(t: Tables, cfg: AuthConfig, username: string, password: string, now: int)
    : (r: (Result<LoginResult>, seq<RefreshToken>))
    requires Unique(t.users, Username)
    ensures r.0.Err? ==> r.1 == t.refreshTokens
    ensures r.0.Ok? <==> CanLogin(t, cfg, username, password, now)
    ensures r.0.Ok? ==> r.1 == t.refreshTokens + [RefreshToken(r.0.value.tokens.refreshToken, r.0.value.user.id)]
  {
    match FindUserByUsername(t.users, username)
    case None => (Err(Unauthorized(DISABLED_MESSAGE)), t.refreshTokens)
    case Some(u) =>
      SameUsernameSameUser(t, u, username);
      if !u.isActive then (Err(Unauthorized(DISABLED_MESSAGE)), t.refreshTokens)
      else if !Compare(password, u.passwordHash) then (Err(Unauthorized(CREDENTIALS_MESSAGE)), t.refreshTokens)
      else
        var access := AccessToken(cfg, u.id, now);
        var refresh := RefreshTokenFor(cfg, u.id, now);
        if Find(t.refreshTokens, TokenIs(refresh)).Some? then (Err(UniqueViolation(["token"])), t.refreshTokens)
        else
          var summary := UserSummary(u.id, u.username, u.email, RoleNames(t.roles, AssignedRoleIds(t.userRoles, u.id)));
          (Ok(LoginResult(summary, Tokens(access, refresh))), t.refreshTokens + [RefreshToken(refresh, u.id)])
  }

  lemma SameUsernameSameUser(t: Tables, u: User, username: string)
    requires Unique(t.users, Username) && u in t.users && u.username == username
    ensures forall v :: v in t.users && v.username == username ==> v == u
  {
    forall v | v in t.users && v.username == username ensures v == u {
      UniqueKeyMember(t.users, Username, u, v);
    }
  }

  lemma SameIdSameUser(t: Tables, u: User, id: int)
    requires Unique(t.users, UserId) && u in t.users && u.id == id
    ensures forall v :: v in t.users && v.id == id ==> v == u
  {
    forall v | v in t.users && v.id == id ensures v == u {
      UniqueKeyMember(t.users, UserId, u, v);
    }
  }

  /** `login(dto)`: every failure of `loginUser` becomes the same exception. */
  function LoginOutcome(t: Tables, cfg: AuthConfig, username: string, password: string, now: int)
    : (r: (Result<LoginResult>, seq<RefreshToken>))
    requires Unique(t.users, Username)
    ensures r.0.Err? ==> r.0.error == Unauthorized(CREDENTIALS_MESSAGE) && r.1 == t.refreshTokens
    ensures r.0.Ok? ==> r == LoginUserOutcome(t, cfg, username, password, now)
  {
    var (res, rows) := LoginUserOutcome(t, cfg, username, password, now);
    if res.Err? then (Err(Unauthorized(CREDENTIALS_MESSAGE)), rows) else (res, rows)
  }

  /** `refreshAccessToken(token)`: the stored-token check comes first, then
      verification with the refresh secret, then the user's state; every
      failure gives the same exception. */
  function RefreshOutcome(t: Tables, cfg: AuthConfig, token: TokenString, now: int): (r: Result<TokenString>)
    requires Unique(t.users, UserId)
    ensures r.Err? ==> r.error == Unauthorized(REFRESH_MESSAGE)
    ensures !Stored(t.refreshTokens, token) ==> r.Err?
    ensures r.Ok? <==>
      && Stored(t.refreshTokens, token)
      && Verify(token, RefreshSecret(cfg), now).Some?
      && exists u :: u in t.users && u.id == Verify(token, RefreshSecret(cfg), now).value && u.isActive
    ensures r.Ok? ==> r.value == AccessToken(cfg, Verify(token, RefreshSecret(cfg), now).value, now)
  {
    if Find(t.refreshTokens, TokenIs(token)).None? then Err(Unauthorized(REFRESH_MESSAGE))
    else match Verify(token, RefreshSecret(cfg), now)
      case None => Err(Unauthorized(REFRESH_MESSAGE))
      case Some(userId) =>
        match FindUserById(t.users, userId)
        case None => Err(Unauthorized(REFRESH_MESSAGE))
        case Some(u) =>
          SameIdSameUser(t, u, userId);
          if !u.isActive then Err(Unauthorized(REFRESH_MESSAGE))
          else Ok(AccessToken(cfg, u.id, now))
  }

  /** The refresh-token table after `deleteMany({where: {token}})`. */
  function WithoutToken(rows: seq<RefreshToken>, tok: TokenString): (r: seq<RefreshToken>)
    ensures forall k :: k in r <==> k in rows && k.token != tok
    ensures !Stored(r, tok)
  {
    Filter(rows, (k: RefreshToken) => k.token != tok)
  }

  /** `if (token)`: undefined and the empty string skip the delete. */
  predicate Truthy(token: Option<TokenString>) {
    token.Some? && token.value != Raw("")
  }

  class AuthService {
    const db: IdentityDb
    const config: AuthConfig

    constructor(db: IdentityDb, config: AuthConfig)
      ensures this.db == db && this.config == config
    {
      this.db := db;
      this.config := config;
    }

    /** `loginUser`: the refresh-token table is the only one written. */
    method LoginUser(username: string, password: string, now: int) returns (r: Result<LoginResult>)
      requires db.Valid()
      modifies db`refreshTokens
      ensures db.Valid()
      ensures (r, db.refreshTokens) == LoginUserOutcome(old(db.State()), config, username, password, now)
    {
      var user := FindUserByUsername(db.users, username);
      if user.None? || !user.value.isActive {
        return Err(Unauthorized(DISABLED_MESSAGE));
      }
      var u := user.value;
      if !Compare(password, u.passwordHash) {
        return Err(Unauthorized(CREDENTIALS_MESSAGE));
      }
      var access := AccessToken(config, u.id, now);
      var refresh := RefreshTokenFor(config, u.id, now);
      if Find(db.refreshTokens, TokenIs(refresh)).Some? {
        return Err(UniqueViolation(["token"]));
      }
      UniqueAppend(db.refreshTokens, Identity.RefreshToken(refresh, u.id), TokenOf);
      db.refreshTokens := db.refreshTokens + [Identity.RefreshToken(refresh, u.id)];
      var roles := RoleNames(db.roles, AssignedRoleIds(db.userRoles, u.id));
      r := Ok(LoginResult(UserSummary(u.id, u.username, u.email, roles), Tokens(access, refresh)));
    }

    /** `login`: the wrapper that hides why `loginUser` failed. */
    method Login(username: string, password: string, now: int) returns (r: Result<LoginResult>)
      requires db.Valid()
      modifies db`refreshTokens
      ensures db.Valid()
      ensures (r, db.refreshTokens) == LoginOutcome(old(db.State()), config, username, password, now)
    {
      r := LoginUser(username, password, now);
      if r.Err? {
        r := Err(Unauthorized(CREDENTIALS_MESSAGE));
      }
    }

    /** `refreshAccessToken`: reads the tables, writes nothing. */
    method RefreshAccessToken(token: TokenString, now: int) returns (r: Result<TokenString>)
      requires db.Valid()
      ensures r == RefreshOutcome(db.State(), config, token, now)
    {
      if Find(db.refreshTokens, TokenIs(token)).None? {
        return Err(Unauthorized(REFRESH_MESSAGE));
      }
      var payload := Verify(token, RefreshSecret(config), now);
      if payload.None? {
        return Err(Unauthorized(REFRESH_MESSAGE));
      }
      var user := FindUserById(db.users, payload.value);
      if user.None? || !user.value.isActive {
        return Err(Unauthorized(REFRESH_MESSAGE));
      }
      r := Ok(AccessToken(config, user.value.id, now));
    }

    /** `refreshToken`: rethrows whatever `refreshAccessToken` throws. */
    method RefreshToken(token: TokenString, now: int) returns (r: Result<TokenString>)
      requires db.Valid()
      ensures r == RefreshOutcome(db.State(), config, token, now)
    {
      r := RefreshAccessToken(token, now);
    }

    /** `logoutUser(token?)`. `dbFails` stands for a failing database call, which
        throws and changes nothing. */
    method LogoutUser(token: Option<TokenString>, dbFails: bool) returns (r: Result<()>)
      requires db.Valid()
      modifies db`refreshTokens
      ensures db.Valid()
      ensures !Truthy(token) ==> r.Ok? && db.refreshTokens == old(db.refreshTokens)
      ensures Truthy(token) && dbFails ==> r.Err? && db.refreshTokens == old(db.refreshTokens)
      ensures Truthy(token) && !dbFails ==> r.Ok? && db.refreshTokens == WithoutToken(old(db.refreshTokens), token.value)
    {
      if Truthy(token) {
        if dbFails {
          return Err(PlainError("Can't reach database server"));
        }
        FilterUnique(db.refreshTokens, (k: RefreshToken) => k.token != token.value, TokenOf);
        db.refreshTokens := WithoutToken(db.refreshTokens, token.value);
      }
      r := Ok(());
    }

    /** `logout`: the same message whatever `logoutUser` did. */
    method Logout(token: Option<TokenString>, dbFails: bool) returns (message: string)
      requires db.Valid()
      modifies db`refreshTokens
      ensures db.Valid()
      ensures message == LOGOUT_MESSAGE
      ensures Truthy(token) && !dbFails ==> db.refreshTokens == WithoutToken(old(db.refreshTokens), token.value)
      ensures !Truthy(token) || dbFails ==> db.refreshTokens == old(db.refreshTokens)
    {
      var _ := LogoutUser(token, dbFails);
      message := LOGOUT_MESSAGE;
    }

    /** `logActivity`: one row appended, carrying the arguments unchanged. */
    method LogActivity(userId: int, action: string, tableName: string, recordId: Option<int>,
                       changes: Option<string>, ipAddress: Option<string>, userAgent: Option<string>, now: int)
      returns (entry: ActivityLog)
      requires db.Valid()
      modifies db`activityLogs, db`nextLogId
      ensures db.Valid()
      ensures entry == ActivityLog(old(db.nextLogId), userId, action, tableName, recordId, changes, ipAddress, userAgent, now)
      ensures db.activityLogs == old(db.activityLogs) + [entry]
      ensures db.nextLogId == old(db.nextLogId) + 1
    {
      entry := ActivityLog(db.nextLogId, userId, action, tableName, recordId, changes, ipAddress, userAgent, now);
      db.activityLogs := db.activityLogs + [entry];
      db.nextLogId := db.nextLogId + 1;
    }
  }

  /** An unknown username and an inactive account fail with the same message,
      before the password is looked at, and write nothing. */
  lemma LoginRejectsUnknownOrInactive(t: Tables, cfg: AuthConfig, username: string, password: string, now: int)
    requires Unique(t.users, Username)
    requires forall u :: u in t.users && u.username == username ==> !u.isActive
    ensures LoginUserOutcome(t, cfg, username, password, now) == (Err(Unauthorized(DISABLED_MESSAGE)), t.refreshTokens)
  {
  }

  /** A wrong password for an active user fails with 'Invalid credentials' and writes nothing. */
  lemma LoginRejectsWrongPassword(t: Tables, cfg: AuthConfig, u: User, password: string, now: int)
    requires Unique(t.users, Username)
    requires u in t.users && u.isActive && !Compare(password, u.passwordHash)
    ensures LoginUserOutcome(t, cfg, u.username, password, now) == (Err(Unauthorized(CREDENTIALS_MESSAGE)), t.refreshTokens)
  {
    SameUsernameSameUser(t, u, u.username);
  }

  /** A successful login returns the stored user's id, username, email and role
      names in assignment order, and both tokens carry only that user's id. */
  lemma LoginSuccessShape(t: Tables, cfg: AuthConfig, username: string, password: string, now: int)
    requires Unique(t.users, Username)
    requires LoginUserOutcome(t, cfg, username, password, now).0.Ok?
    ensures var res := LoginUserOutcome(t, cfg, username, password, now).0.value;
      && (exists u :: u in t.users && u.username == username && u.isActive
            && res.user == UserSummary(u.id, u.username, u.email, RoleNames(t.roles, AssignedRoleIds(t.userRoles, u.id))))
      && res.tokens.accessToken == AccessToken(cfg, res.user.id, now)
      && res.tokens.refreshToken == RefreshTokenFor(cfg, res.user.id, now)
  {
  }

  /** Through `login`, an unknown user, an inactive user and a wrong password
      are indistinguishable: any two failures are the same failure. */
  lemma LoginFailuresIndistinguishable(t: Tables, cfg: AuthConfig, u1: string, p1: string, u2: string, p2: string, now: int)
    requires Unique(t.users, Username)
    requires LoginOutcome(t, cfg, u1, p1, now).0.Err? && LoginOutcome(t, cfg, u2, p2, now).0.Err?
    ensures LoginOutcome(t, cfg, u1, p1, now) == LoginOutcome(t, cfg, u2, p2, now)
  {
  }

  /** A token issued by a login can be refreshed until it expires, as long as
      the user stays active; refreshing writes nothing, so it can be repeated. */
  lemma LoginThenRefresh(t: Tables, cfg: AuthConfig, username: string, password: string, now: int, later: int)
    requires Unique(t.users, Username) && Unique(t.users, UserId)
    requires LoginUserOutcome(t, cfg, username, password, now).0.Ok?
    requires now <= later < now + RefreshTtl(cfg)
    ensures var (res, rows) := LoginUserOutcome(t, cfg, username, password, now);
      RefreshOutcome(t.(refreshTokens := rows), cfg, res.value.tokens.refreshToken, later)
        == Ok(AccessToken(cfg, res.value.user.id, later))
  {
    var (res, rows) := LoginUserOutcome(t, cfg, username, password, now);
    var t2 := t.(refreshTokens := rows);
    assert RefreshToken(res.value.tokens.refreshToken, res.value.user.id) in rows;
    SignVerify(res.value.user.id, RefreshSecret(cfg), RefreshTtl(cfg), now, later);
    var u :| u in t.users && u.username == username && u.isActive && res.value.user.id == u.id;
    SameIdSameUser(t, u, u.id);
  }

  /** After a logout with the token, refreshing with it fails. */
  lemma LogoutThenRefreshFails(t: Tables, cfg: AuthConfig, token: TokenString, now: int)
    requires Unique(t.users, UserId)
    ensures RefreshOutcome(t.(refreshTokens := WithoutToken(t.refreshTokens, token)), cfg, token, now).Err?
  {
  }

  /** Logging out twice is logging out once. */
  lemma {:induction false} LogoutIdempotent(rows: seq<RefreshToken>, tok: TokenString)
    ensures WithoutToken(WithoutToken(rows, tok), tok) == WithoutToken(rows, tok)
  {
    FilterAllPass(WithoutToken(rows, tok), (k: RefreshToken) => k.token != tok);
  }

  /** Two logins of the same user within the same second sign the same refresh
      token; the second insert violates the unique token column, and `login`
      reports it as 'Invalid credentials' although the credentials are valid. */
  lemma SameSecondLoginFails(t: Tables, cfg: AuthConfig, username: string, password: string, now: int)
    requires Unique(t.users, Username)
    requires LoginOutcome(t, cfg, username, password, now).0.Ok?
    ensures var t2 := t.(refreshTokens := LoginOutcome(t, cfg, username, password, now).1);
      && CredentialsValid(t2, username, password)
      && LoginOutcome(t2, cfg, username, password, now).0 == Err(Unauthorized(CREDENTIALS_MESSAGE))
  {
    var (res, rows) := LoginUserOutcome(t, cfg, username, password, now);
    var t2 := t.(refreshTokens := rows);
    assert RefreshToken(res.value.tokens.refreshToken, res.value.user.id) in rows;
    var u :| u in t.users && u.username == username && u.isActive && res.value.user.id == u.id;
    SameUsernameSameUser(t, u, username);
  }

  /** `loginUser` with the insert written as an upsert on the token: a token
      already stored for this login is kept instead of inserted twice. */
  function LoginUserUpsertOutcome(t: Tables, cfg: AuthConfig, username: string, password: string, now: int)
    : (r: (Result<LoginResult>, seq<RefreshToken>))
    requires Unique(t.users, Username)
    ensures r.0.Err? ==> r.1 == t.refreshTokens
    ensures r.0.Ok? ==> Stored(r.1, r.0.value.tokens.refreshToken)
  {
    match FindUserByUsername(t.users, username)
    case None => (Err(Unauthorized(DISABLED_MESSAGE)), t.refreshTokens)
    case Some(u) =>
      if !u.isActive then (Err(Unauthorized(DISABLED_MESSAGE)), t.refreshTokens)
      else if !Compare(password, u.passwordHash) then (Err(Unauthorized(CREDENTIALS_MESSAGE)), t.refreshTokens)
      else
        var refresh := RefreshTokenFor(cfg, u.id, now);
        var summary := UserSummary(u.id, u.username, u.email, RoleNames(t.roles, AssignedRoleIds(t.userRoles, u.id)));
        var rows := if Find(t.refreshTokens, TokenIs(refresh)).Some? then t.refreshTokens
                    else t.refreshTokens + [RefreshToken(refresh, u.id)];
        assert RefreshToken(refresh, u.id) in rows || Find(t.refreshTokens, TokenIs(refresh)).Some?;
        (Ok(LoginResult(summary, Tokens(AccessToken(cfg, u.id, now), refresh))), rows)
  }

  /** With the upsert, login succeeds exactly when the credentials are valid,
      however recently the same user logged in. */
  lemma UpsertLoginSucceedsIffCredentials(t: Tables, cfg: AuthConfig, username: string, password: string, now: int)
    requires Unique(t.users, Username)
    ensures LoginUserUpsertOutcome(t, cfg, username, password, now).0.Ok? <==> CredentialsValid(t, username, password)
  {
    if CredentialsValid(t, username, password) {
      var u :| u in t.users && u.username == username && u.isActive && Compare(password, u.passwordHash);
      SameUsernameSameUser(t, u, username);
    }
  }
}
