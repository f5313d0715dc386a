/**
 * The authentication endpoints (src/auth/auth.controller.ts): registration,
 * login with password check and token issuance, and refresh-token rotation.
 *
 * The refresh guard that runs before `refreshToken` is not part of this model:
 * a `RefreshRequest` is what that guard leaves behind, the claims it decoded
 * from the presented token and the raw token itself.
 */
module AuthController {
  import opened Wrappers
  import opened Failures
  import opened Schema
  import opened Crypto
  import opened UsersService
  import opened AuthService

  datatype LoginDto = LoginDto(email: string, password: string)

  /** The four `process.env` settings the endpoints read; lifetimes in seconds. */
  datatype JwtConfig = JwtConfig(secret: string, expiresIn: int, refreshSecret: string, refreshExpiresIn: int)

  datatype TokenPair = TokenPair(accessToken: string, refreshToken: string)

  /** `IRequestWithRefresh`: the decoded claims (`req.user`) and the raw token (`req.refresh`). */
  datatype RefreshRequest = RefreshRequest(user: Claims, refresh: string)

  const USER_EXISTS := Custom("User already exists", CONFLICT, "AC-r-1")
  const UNKNOWN_EMAIL := Custom("Invalid credentials!!!!", UNAUTHORIZED, "AC-l-1")
  const WRONG_PASSWORD := Custom("Invalid credentials", UNAUTHORIZED, "AC-l-2")
  const WRONG_REFRESH := Custom("Wrong refreshToken", UNAUTHORIZED, "AC-g-refresh")
  /** Destructuring `{ token }` out of a `null` lookup result. */
  const NO_STORED_TOKEN := RuntimeError("Cannot destructure property 'token' of null")
  /** `bcrypt.compare(undefined, hash)` when the token has no third segment. */
  const MISSING_SIGNATURE := RuntimeError("data and hash arguments required")

  /** The payload `{sub: user.id, email: user.email, role: user.role}`. */
  function ClaimsOf(u: UserRow): (c: Claims)
    ensures c.sub == u.id && c.email == u.email && c.role == u.role
  {
    Claims(u.id, u.email, u.role)
  }

  // -------------------------------------------------------------- register

  /** The DTO once `register` has overwritten its password with the bcrypt hash. */
  function WithHashedPassword(dto: UserData, salt: Salt): (h: UserData)
    ensures h.firstname == dto.firstname && h.lastname == dto.lastname && h.email == dto.email
    ensures h.password != dto.password
    ensures forall candidate :: Compare(candidate, h.password) <==> candidate == dto.password
  {
    HashIsNotSecret(dto.password, salt);
    forall candidate ensures Compare(candidate, Hash(dto.password, salt)) <==> candidate == dto.password {
      CompareHash(candidate, dto.password, salt);
    }
    dto.(password := Hash(dto.password, salt))
  }

  /** `register(registerDto)`. */
  method Register(db: Database, dto: UserData, salt: Salt, now: int) returns (r: Result<UserRow, Failure>)
    requires db.Valid()
    modifies db
    ensures db.Valid()
    ensures db.posts == old(db.posts) && db.likes == old(db.likes) && db.tokens == old(db.tokens)
    ensures db.nextPostId == old(db.nextPostId)
    ensures EmailTaken(old(db.users), dto.email) ==>
      && r == Err(USER_EXISTS)
      && db.users == old(db.users) && db.nextUserId == old(db.nextUserId)
    ensures !EmailTaken(old(db.users), dto.email) ==>
      && r == Ok(NewRow(old(db.nextUserId), WithHashedPassword(dto, salt), now))
      && db.users == old(db.users) + [r.value]
      && db.nextUserId == old(db.nextUserId) + 1
  {
    var user := FindOneByEmail(db.users, dto.email);
    if user.Some? {
      return Err(USER_EXISTS);
    }
    var hashed := WithHashedPassword(dto, salt);
    r := UsersService.Create(db, hashed, now);
  }

  // ----------------------------------------------------------------- login

  /** `login`'s credential checks: the user with that email, if the password matches its hash. */
  function Authenticate(users: seq<UserRow>, dto: LoginDto): (r: Result<UserRow, Failure>)
    ensures r.Ok? || r == Err(UNKNOWN_EMAIL) || r == Err(WRONG_PASSWORD)
    ensures r == Err(UNKNOWN_EMAIL) <==> !EmailTaken(users, dto.email)
    ensures r.Ok? ==> r.value in users && r.value.email == dto.email && Compare(dto.password, r.value.password)
    ensures UniqueUsers(users) ==>
      (r.Ok? <==> exists u :: u in users && u.email == dto.email && Compare(dto.password, u.password))
  {
    match FindOneByEmail(users, dto.email)
    case None => Err(UNKNOWN_EMAIL)
    case Some(user) =>
      if !Compare(dto.password, user.password) then Err(WRONG_PASSWORD) else Ok(user)
  }

  /** The token pair `login` and `refreshToken` issue: the same claims, under the two secrets. */
  function IssuePair(claims: Claims, cfg: JwtConfig, now: int): (pair: TokenPair)
  {
    TokenPair(CreateJwt(claims, cfg.secret, cfg.expiresIn, now),
              CreateJwt(claims, cfg.refreshSecret, cfg.refreshExpiresIn, now))
  }

  /** What is stored for an issued refresh token: the bcrypt hash of its signature segment. */
  function StoredDigest(refresh: string, salt: Salt): (h: string)
    requires SignatureSegment(refresh).Some?
    ensures forall presented :: SignatureSegment(presented).Some? ==>
              (Compare(SignatureSegment(presented).value, h) <==> SignatureSegment(presented) == SignatureSegment(refresh))
  {
    var signature := SignatureSegment(refresh).value;
    forall presented | SignatureSegment(presented).Some?
      ensures Compare(SignatureSegment(presented).value, Hash(signature, salt)) <==> SignatureSegment(presented) == SignatureSegment(refresh)
    {
      CompareHash(SignatureSegment(presented).value, signature, salt);
    }
    Hash(signature, salt)
  }

  /** `login(loginDto)` at the instant `now`, with `salt` drawn for the stored hash. */
  method Login(db: Database, dto: LoginDto, cfg: JwtConfig, now: int, salt: Salt) returns (r: Result<TokenPair, Failure>)
    requires db.Valid()
    modifies db
    ensures db.Valid()
    ensures db.users == old(db.users) && db.posts == old(db.posts) && db.likes == old(db.likes)
    ensures db.nextUserId == old(db.nextUserId) && db.nextPostId == old(db.nextPostId)
    ensures Authenticate(old(db.users), dto).Err? ==>
      r == Err(Authenticate(old(db.users), dto).error) && db.tokens == old(db.tokens)
    ensures Authenticate(old(db.users), dto).Ok? ==>
      var user := Authenticate(old(db.users), dto).value;
      && r == Ok(IssuePair(ClaimsOf(user), cfg, now))
      && db.tokens == Upserted(old(db.tokens), user.id, StoredDigest(r.value.refreshToken, salt), Refresh)
  {
    var auth := Authenticate(db.users, dto);
    if auth.Err? {
      return Err(auth.error);
    }
    var user := auth.value;
    var pair := IssuePair(ClaimsOf(user), cfg, now);
    var _ := UpsertToken(db, user.id, StoredDigest(pair.refreshToken, salt), Refresh);
    r := Ok(pair);
  }

  // --------------------------------------------------------------- refresh

  /** The checks a presented refresh token must pass against the stored hash of its signature. */
  function RefreshCheck(tokens: map<TokenKey, TokenRecord>, sub: int, presented: string): (r: Result<(), Failure>)
    ensures Key(sub, Refresh) !in tokens ==> r == Err(NO_STORED_TOKEN)
    ensures Key(sub, Refresh) in tokens && SignatureSegment(presented).None? ==> r == Err(MISSING_SIGNATURE)
    ensures (Key(sub, Refresh) in tokens && SignatureSegment(presented).Some?
             && !Compare(SignatureSegment(presented).value, tokens[Key(sub, Refresh)].token)) ==> r == Err(WRONG_REFRESH)
    ensures r.Ok? <==>
      && Key(sub, Refresh) in tokens && SignatureSegment(presented).Some?
      && Compare(SignatureSegment(presented).value, tokens[Key(sub, Refresh)].token)
  {
    match GetByUnique(tokens, sub, Refresh)
    case None => Err(NO_STORED_TOKEN)
    case Some(record) =>
      match SignatureSegment(presented)
      case None => Err(MISSING_SIGNATURE)
      case Some(signature) =>
        if !Compare(signature, record.token) then Err(WRONG_REFRESH) else Ok(())
  }

  /** `refreshToken(req)` at the instant `now`, with `salt` drawn for the stored hash. */
  method RefreshToken(db: Database, req: RefreshRequest, cfg: JwtConfig, now: int, salt: Salt) returns (r: Result<TokenPair, Failure>)
    requires db.Valid()
    modifies db
    ensures db.Valid()
    ensures db.users == old(db.users) && db.posts == old(db.posts) && db.likes == old(db.likes)
    ensures db.nextUserId == old(db.nextUserId) && db.nextPostId == old(db.nextPostId)
    ensures RefreshCheck(old(db.tokens), req.user.sub, req.refresh).Err? ==>
      r == Err(RefreshCheck(old(db.tokens), req.user.sub, req.refresh).error) && db.tokens == old(db.tokens)
    ensures RefreshCheck(old(db.tokens), req.user.sub, req.refresh).Ok? ==>
      && r == Ok(IssuePair(req.user, cfg, now))
      && db.tokens == Upserted(old(db.tokens), req.user.sub, StoredDigest(r.value.refreshToken, salt), Refresh)
  {
    var check := RefreshCheck(db.tokens, req.user.sub, req.refresh);
    if check.Err? {
      return Err(check.error);
    }
    var pair := IssuePair(req.user, cfg, now);
    var _ := UpsertToken(db, req.user.sub, StoredDigest(pair.refreshToken, salt), Refresh);
    r := Ok(pair);
  }

  // ------------------------------------------------------------ properties

  /**
   * Rotation: once a refresh has stored the digest of a new token whose signature
   * differs from the presented one, the presented token is refused and the new
   * one is accepted.
   */
  lemma RotationRejectsPreviousToken(tokens: map<TokenKey, TokenRecord>, claims: Claims, cfg: JwtConfig, now: int, salt: Salt, presented: string)
    requires RefreshCheck(tokens, claims.sub, presented).Ok?
    requires SignatureSegment(IssuePair(claims, cfg, now).refreshToken) != SignatureSegment(presented)
    ensures var issued := IssuePair(claims, cfg, now).refreshToken;
      var rotated := Upserted(tokens, claims.sub, StoredDigest(issued, salt), Refresh);
      && RefreshCheck(rotated, claims.sub, presented) == Err(WRONG_REFRESH)
      && RefreshCheck(rotated, claims.sub, issued) == Ok(())
  {
  }

  /**
   * The hypothesis above is needed: a refresh within the same second as the login
   * that issued the presented token signs the very same token, so replaying it
   * is accepted again.
   */
  lemma SameSecondRefreshReissuesPresentedToken(tokens: map<TokenKey, TokenRecord>, user: UserRow, cfg: JwtConfig, loginAt: int, refreshAt: int, salt: Salt)
    requires IssuedAt(loginAt) == IssuedAt(refreshAt)
    ensures var presented := IssuePair(ClaimsOf(user), cfg, loginAt).refreshToken;
      var rotated := Upserted(tokens, user.id, StoredDigest(IssuePair(ClaimsOf(user), cfg, refreshAt).refreshToken, salt), Refresh);
      RefreshCheck(rotated, user.id, presented) == Ok(())
  {
  }

  /** A refresh token straight from login passes the refresh check. */
  lemma LoginTokenPassesRefreshCheck(tokens: map<TokenKey, TokenRecord>, user: UserRow, cfg: JwtConfig, now: int, salt: Salt)
    ensures var pair := IssuePair(ClaimsOf(user), cfg, now);
      RefreshCheck(Upserted(tokens, user.id, StoredDigest(pair.refreshToken, salt), Refresh), user.id, pair.refreshToken) == Ok(())
  {
  }

  /** A user who has just registered can log in with the password given at registration. */
  lemma RegisterThenLogin(users: seq<UserRow>, dto: UserData, id: int, now: int, salt: Salt)
    requires !EmailTaken(users, dto.email)
    ensures var row := NewRow(id, WithHashedPassword(dto, salt), now);
      Authenticate(users + [row], LoginDto(dto.email, dto.password)) == Ok(row)
  {
    var row := NewRow(id, WithHashedPassword(dto, salt), now);
    FindAppendedEmail(users, row);
  }

  /**
   * The whole session: log in, refresh with the token login issued, then replay
   * that same token; the replay is refused when the two signatures differ.
   */
  method ReplayAfterRotation(db: Database, dto: LoginDto, cfg: JwtConfig, loginAt: int, refreshAt: int, replayAt: int, salts: (Salt, Salt, Salt))
      returns (login: Result<TokenPair, Failure>, refresh: Result<TokenPair, Failure>, replay: Result<TokenPair, Failure>)
    requires db.Valid()
    modifies db
    ensures login.Ok? ==> refresh.Ok?
    ensures login.Ok? && SignatureSegment(refresh.value.refreshToken) != SignatureSegment(login.value.refreshToken) ==>
      replay == Err(WRONG_REFRESH)
  {
    var auth := Authenticate(db.users, dto);
    login := Login(db, dto, cfg, loginAt, salts.0);
    if login.Err? {
      return login, login, login;
    }
    var user := auth.value;
    var req := RefreshRequest(ClaimsOf(user), login.value.refreshToken);
    LoginTokenPassesRefreshCheck(old(db.tokens), user, cfg, loginAt, salts.0);
    ghost var afterLogin := db.tokens;
    refresh := RefreshToken(db, req, cfg, refreshAt, salts.1);
    if SignatureSegment(refresh.value.refreshToken) != SignatureSegment(login.value.refreshToken) {
      RotationRejectsPreviousToken(afterLogin, req.user, cfg, refreshAt, salts.1, req.refresh);
    }
    replay := RefreshToken(db, req, cfg, replayAt, salts.2);
  }
}
