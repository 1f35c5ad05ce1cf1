/**
  The identity handlers of `src/controllers/user.controller.js`: the decision procedures of
  registration, login and token refresh as pure functions, and the user collection as a class whose
  methods are the handlers that write to it. A guarded handler receives `caller`, the id that
  `AuthGuard.Authenticate` put in `req.user`.
*/
module UserController {
  import opened Wrappers
  import opened Text
  import opened Errors
  import opened Collaborators
  import opened UserModel

  // ----- Requests and responses -----

  /** What the media store answers for an upload: a result carrying a URL (possibly empty), or
      nothing at all (`uploadOnCloudinary` returns null when it fails). */
  datatype Upload = Uploaded(url: string) | UploadFailed

  /** The body of a registration request; None is a field left out of the form. `avatar` and
      `coverImage` are None when no file was attached, otherwise what uploading it gave. */
  datatype RegisterRequest = RegisterRequest(
    username: Option<string>,
    email: Option<string>,
    fullName: Option<string>,
    password: Option<string>,
    confirmPassword: Option<string>,
    avatar: Option<Upload>,
    coverImage: Option<Upload>)

  datatype LoginRequest = LoginRequest(email: Option<string>, username: Option<string>, password: Option<string>)

  datatype TokenPair = TokenPair(accessToken: string, refreshToken: string)

  datatype LoginResponse = LoginResponse(user: PublicUser, accessToken: string, refreshToken: string)

  /** The string a present field holds, and "" for an absent one. */
  function FieldValue(f: Option<string>): string {
    match f
    case Some(s) => s
    case None => ""
  }

  // ----- Uniqueness of the stored keys -----

  predicate EmailInUse(users: map<Id, User>, email: string) {
    exists id :: id in users && users[id].email == email
  }

  predicate UsernameInUse(users: map<Id, User>, username: string) {
    exists id :: id in users && users[id].username == username
  }

  /** The `unique` indexes on username and email. */
  predicate UniqueKeys(users: map<Id, User>) {
    forall a, b :: a in users && b in users && a != b ==>
      users[a].email != users[b].email && users[a].username != users[b].username
  }

  // ----- The controller's password pattern -----

  predicate IsPatternSymbol(c: char) {
    c == '@' || c == '$' || c == '!' || c == '%' || c == '*' || c == '?' || c == '&'
  }

  /** `/^(?=.*[a-z])(?=.*[A-Z])(?=.*\d)(?=.*[@$!%*?&])[A-Za-z\d@$!%*?&]{8,}$/`. */
  predicate MatchesPasswordPattern(p: string) {
    && |p| >= 8
    && (forall i :: 0 <= i < |p| ==> IsLetter(p[i]) || IsDigit(p[i]) || IsPatternSymbol(p[i]))
    && (exists i :: 0 <= i < |p| && IsLowerLetter(p[i]))
    && (exists i :: 0 <= i < |p| && IsUpperLetter(p[i]))
    && (exists i :: 0 <= i < |p| && IsDigit(p[i]))
    && (exists i :: 0 <= i < |p| && IsPatternSymbol(p[i]))
  }

  /** A password the controller lets through is stored exactly as typed (it has no white space for
      the `trim` setter to remove) and passes the schema's strong-password rule. */
  lemma PatternImpliesSchema(p: string)
    requires MatchesPasswordPattern(p)
    ensures Trim(p) == p
    ensures StrongPassword(p)
  {
    assert !IsSpace(p[0]) && !IsSpace(p[|p| - 1]);
    TrimOfTrimmed(p);
    var k :| 0 <= k < |p| && IsPatternSymbol(p[k]);
    PatternSymbolIsSymbol(p[k]);
  }

  /** Every special character of the controller's pattern is a symbol for validator. */
  lemma PatternSymbolIsSymbol(c: char)
    requires IsPatternSymbol(c)
    ensures IsSymbol(c)
  {
    var symbols := "-#!$@\U{A3}%^&*()_+|~=`{}[]:\";'<>?,./\\ ";
    if c == '@' { assert symbols[4] == c; }
    else if c == '$' { assert symbols[3] == c; }
    else if c == '!' { assert symbols[2] == c; }
    else if c == '%' { assert symbols[6] == c; }
    else if c == '*' { assert symbols[9] == c; }
    else if c == '?' { assert symbols[28] == c; }
    else { assert symbols[8] == c; }
  }

  // ----- registerUser -----

  /** The URL of the avatar upload, "" when there is none. */
  function AvatarUrl(req: RegisterRequest): string {
    match req.avatar
    case Some(Uploaded(url)) => url
    case _ => ""
  }

  /** `coverImage?.url || ""`: "" when no cover was attached or its upload gave nothing. */
  function CoverUrl(req: RegisterRequest): string {
    match req.coverImage
    case Some(Uploaded(url)) => url
    case _ => ""
  }

  /** The document `User.create` is asked to store, its setters applied: username and email
      trimmed and lower-cased, fullName and password trimmed, no refresh token, empty history. */
  function NewRecord(req: RegisterRequest, id: Id): User {
    User(id, Normalize(FieldValue(req.username)), Normalize(FieldValue(req.email)),
         Trim(FieldValue(req.fullName)), AvatarUrl(req), Some(CoverUrl(req)), [],
         Trim(FieldValue(req.password)), None)
  }

  predicate AnyBlank(req: RegisterRequest) {
    || IsBlank(req.username) || IsBlank(req.email) || IsBlank(req.fullName)
    || IsBlank(req.password) || IsBlank(req.confirmPassword)
  }

  /** The number of checks `registerUser` makes before a record is stored. */
  const RegisterCheckCount := 10

  /** The error the k-th check raises. */
  function RegisterError(k: nat): Error
    requires k < RegisterCheckCount
  {
    match k
    case 0 => FieldsRequired
    case 1 => InvalidEmail
    case 2 => FullNameLength
    case 3 => WeakPassword
    case 4 => PasswordsDiffer
    case 5 => EmailRegistered
    case 6 => UsernameTaken
    case 7 => AvatarFileMissing
    case 8 => AvatarNotUploaded
    case _ => RecordRejected
  }

  /** Each check raises its own error. */
  lemma RegisterErrorsDistinct(k: nat, m: nat)
    requires k < RegisterCheckCount && m < RegisterCheckCount
    ensures RegisterError(k) == RegisterError(m) <==> k == m
  {
    if k == 0 { } else if k == 1 { } else if k == 2 { } else if k == 3 { } else if k == 4 { }
    else if k == 5 { } else if k == 6 { } else if k == 7 { } else if k == 8 { } else { }
  }

  /** The k-th check of `registerUser`, in the order the handler makes them. The uniqueness lookups
      go through `findOne`, whose filter values pass the schema's setters; the last check is the
      schema's validators, run by `User.create`. */
  predicate RegisterCheck(k: nat, users: map<Id, User>, req: RegisterRequest, isEmail: string -> bool, id: Id)
    requires k < RegisterCheckCount
  {
    match k
    case 0 => !AnyBlank(req)
    case 1 => isEmail(FieldValue(req.email))
    case 2 => 3 <= |FieldValue(req.fullName)| <= 20
    case 3 => MatchesPasswordPattern(FieldValue(req.password))
    case 4 => FieldValue(req.password) == FieldValue(req.confirmPassword)
    case 5 => !EmailInUse(users, Normalize(FieldValue(req.email)))
    case 6 => !UsernameInUse(users, Normalize(FieldValue(req.username)))
    case 7 => req.avatar.Some?
    case 8 => req.avatar != Some(UploadFailed)
    case _ => SchemaAccepts(NewRecord(req, id), isEmail)
  }

  /** The index of the first check from `from` on that fails, or RegisterCheckCount when none
      does: the check table read in order. */
  function FirstFailedCheck(users: map<Id, User>, req: RegisterRequest, isEmail: string -> bool, id: Id, from: nat)
    : (m: nat)
    requires from <= RegisterCheckCount
    ensures from <= m <= RegisterCheckCount
    ensures forall j :: from <= j < m ==> RegisterCheck(j, users, req, isEmail, id)
    ensures m < RegisterCheckCount ==> !RegisterCheck(m, users, req, isEmail, id)
    decreases RegisterCheckCount - from
  {
    if from == RegisterCheckCount then from
    else if !RegisterCheck(from, users, req, isEmail, id) then from
    else FirstFailedCheck(users, req, isEmail, id, from + 1)
  }

  /** What `registerUser` decides for a request, `id` being the id the new record would get: the
      record `User.create` stores, or the error of the first check that fails. */
  function RegisterDecision(users: map<Id, User>, req: RegisterRequest, isEmail: string -> bool, id: Id)
    : (r: Result<User, Error>)
    ensures r.Ok? ==> r.value.id == id && !AnyBlank(req) && SchemaAccepts(r.value, isEmail)
    ensures r.Err? ==> Status(r.error) in {400, 403, 409, 500}
  {
    if AnyBlank(req) then Err(FieldsRequired)
    else if !isEmail(FieldValue(req.email)) then Err(InvalidEmail)
    else if !(3 <= |FieldValue(req.fullName)| <= 20) then Err(FullNameLength)
    else if !MatchesPasswordPattern(FieldValue(req.password)) then Err(WeakPassword)
    else if FieldValue(req.password) != FieldValue(req.confirmPassword) then Err(PasswordsDiffer)
    else if EmailInUse(users, Normalize(FieldValue(req.email))) then Err(EmailRegistered)
    else if UsernameInUse(users, Normalize(FieldValue(req.username))) then Err(UsernameTaken)
    else if req.avatar.None? then Err(AvatarFileMissing)
    else if req.avatar == Some(UploadFailed) then Err(AvatarNotUploaded)
    else if !SchemaAccepts(NewRecord(req, id), isEmail) then Err(RecordRejected)
    else Ok(NewRecord(req, id))
  }

  /** A record registration accepts is well formed as stored (whatever `isEmail` is), collides with
      no stored username or email, keeps the password exactly as typed for the pre-save hook to
      hash, has no refresh token and no history, and has "" as cover image when none was uploaded. */
  lemma RegisteredRecordWellFormed(users: map<Id, User>, req: RegisterRequest, isEmail: string -> bool, id: Id)
    requires RegisterDecision(users, req, isEmail, id).Ok?
    ensures var u := RegisterDecision(users, req, isEmail, id).value;
            && StoredRecord(u, isEmail)
            && StrongPassword(u.password)
            && u.password == FieldValue(req.password)
            && !EmailInUse(users, u.email)
            && !UsernameInUse(users, u.username)
            && u.refreshToken == None
            && u.watchHistory == []
            && u.coverImage == Some(CoverUrl(req))
  {
    RegisterFollowsCheckTable(users, req, isEmail, id);
    assert RegisterDecision(users, req, isEmail, id).value == NewRecord(req, id);
    assert RegisterCheck(3, users, req, isEmail, id);
    assert RegisterCheck(5, users, req, isEmail, id);
    assert RegisterCheck(6, users, req, isEmail, id);
    PatternImpliesSchema(FieldValue(req.password));
    NormalizeIsNormalized(FieldValue(req.username));
    NormalizeIsNormalized(FieldValue(req.email));
    TrimIsTrimmed(FieldValue(req.fullName));
  }

  /** The handler's chain of `if`s is the check table read in order: it stores the new record when
      every check passes, and otherwise raises the error of the first check that fails. */
  lemma RegisterFollowsCheckTable(users: map<Id, User>, req: RegisterRequest, isEmail: string -> bool, id: Id)
    ensures var m := FirstFailedCheck(users, req, isEmail, id, 0);
            RegisterDecision(users, req, isEmail, id)
            == if m < RegisterCheckCount then Err(RegisterError(m)) else Ok(NewRecord(req, id))
  {
    var m := FirstFailedCheck(users, req, isEmail, id, 0);
    if AnyBlank(req) { assert m == 0; }
    else if !isEmail(FieldValue(req.email)) { assert RegisterCheck(0, users, req, isEmail, id); assert m == 1; }
    else if !(3 <= |FieldValue(req.fullName)| <= 20) { assert m == 2; }
    else if !MatchesPasswordPattern(FieldValue(req.password)) { assert m == 3; }
    else if FieldValue(req.password) != FieldValue(req.confirmPassword) { assert m == 4; }
    else if EmailInUse(users, Normalize(FieldValue(req.email))) { assert m == 5; }
    else if UsernameInUse(users, Normalize(FieldValue(req.username))) { assert m == 6; }
    else if req.avatar.None? { assert m == 7; }
    else if req.avatar == Some(UploadFailed) { assert m == 8; }
    else if !SchemaAccepts(NewRecord(req, id), isEmail) { assert m == 9; }
    else { assert m == 10; }
  }

  /** The first failing check wins: the request is refused with the k-th check's error exactly when
      every check before it passes and the k-th fails; it is accepted exactly when all pass. */
  lemma RegisterFirstFailureWins(users: map<Id, User>, req: RegisterRequest, isEmail: string -> bool, id: Id, k: nat)
    requires k < RegisterCheckCount
    ensures RegisterDecision(users, req, isEmail, id) == Err(RegisterError(k))
            <==> (forall j :: 0 <= j < k ==> RegisterCheck(j, users, req, isEmail, id)) && !RegisterCheck(k, users, req, isEmail, id)
    ensures RegisterDecision(users, req, isEmail, id).Ok?
            <==> forall j :: 0 <= j < RegisterCheckCount ==> RegisterCheck(j, users, req, isEmail, id)
  {
    var m := FirstFailedCheck(users, req, isEmail, id, 0);
    RegisterFollowsCheckTable(users, req, isEmail, id);
    if m < RegisterCheckCount {
      RegisterErrorsDistinct(k, m);
    }
  }

  // ----- loginUser -----

  /** `(!email && !username) || !password`. */
  predicate LoginMissing(req: LoginRequest) {
    (!Truthy(req.email) && !Truthy(req.username)) || !Truthy(req.password)
  }

  /** A record matched by `findOne({$or: [{email}, {username}]})`: a present identifier is compared
      after the schema's setters; an absent one matches nothing. */
  predicate MatchesIdentifier(u: User, req: LoginRequest) {
    || (req.email.Some? && u.email == Normalize(req.email.value))
    || (req.username.Some? && u.username == Normalize(req.username.value))
  }

  function LoginMatches(users: map<Id, User>, req: LoginRequest): (ids: set<Id>)
    ensures ids <= users.Keys
  {
    set id | id in users && MatchesIdentifier(users[id], req)
  }

  /** With unique keys at most two records match a login: one by email, one by username. */
  lemma LoginMatchesAtMostTwo(users: map<Id, User>, req: LoginRequest, a: Id, b: Id, c: Id)
    requires UniqueKeys(users)
    requires a in LoginMatches(users, req) && b in LoginMatches(users, req) && c in LoginMatches(users, req)
    ensures a == b || b == c || a == c
  {
  }

  // ----- refreshAccessToken -----

  /** `req.cookies.refreshToken || req.body.refreshToken`. */
  function PresentedRefreshToken(cookie: Option<string>, body: Option<string>): (t: Option<string>) {
    if Truthy(cookie) then cookie else body
  }

  /** The checks of `refreshAccessToken` before it issues new tokens: the presented token must be
      non-empty, verify under the refresh secret, name a stored user and equal that user's stored
      token exactly. Every failure is a 401. */
  function CheckRefresh(users: map<Id, User>, jwt: Jwt<Claims>, cfg: TokenConfig,
                        cookie: Option<string>, body: Option<string>, now: int): (r: Result<Id, Error>)
    ensures r.Err? ==> Status(r.error) == 401
    ensures var t := PresentedRefreshToken(cookie, body);
            r.Ok? <==>
              && Truthy(t)
              && jwt.verify(cfg.refreshSecret, t.value, now).Some?
              && jwt.verify(cfg.refreshSecret, t.value, now).value.id in users
              && users[jwt.verify(cfg.refreshSecret, t.value, now).value.id].refreshToken == t
    ensures var t := PresentedRefreshToken(cookie, body);
            r.Ok? ==> r.value in users && users[r.value].refreshToken == t && t.value != ""
                      && jwt.verify(cfg.refreshSecret, t.value, now).value.id == r.value
  {
    var t := PresentedRefreshToken(cookie, body);
    if !Truthy(t) then Err(RefreshTokenMissing)
    else
      match jwt.verify(cfg.refreshSecret, t.value, now)
      case None => Err(RefreshTokenInvalid)
      case Some(claims) =>
        if claims.id !in users then Err(RefreshUserUnknown)
        else if users[claims.id].refreshToken != t then Err(RefreshTokenReused)
        else Ok(claims.id)
  }

  /** Once a user's stored token is "" (after `logout`), no refresh succeeds for that user, whatever
      is presented and however it verifies. */
  lemma NoRefreshAfterLogout(users: map<Id, User>, jwt: Jwt<Claims>, cfg: TokenConfig,
                             cookie: Option<string>, body: Option<string>, now: int, u: Id)
    requires u in users && users[u].refreshToken == Some("")
    ensures CheckRefresh(users, jwt, cfg, cookie, body, now) != Ok(u)
  {
  }

  /** The token a user was last issued, and only a token equal to it, refreshes that user, until it
      expires. */
  lemma IssuedRefreshTokenAccepted(users: map<Id, User>, jwt: Jwt<Claims>, cfg: TokenConfig,
                                   u: Id, issuedAt: int, now: int, body: Option<string>)
    requires JwtSound(jwt)
    requires u in users && users[u].id == u
    requires var t := GenerateRefreshToken(users[u], jwt, cfg, issuedAt);
             t != "" && users[u].refreshToken == Some(t)
    ensures var t := GenerateRefreshToken(users[u], jwt, cfg, issuedAt);
            CheckRefresh(users, jwt, cfg, Some(t), body, now)
            == if now < issuedAt + RefreshLifetime(cfg) then Ok(u) else Err(RefreshTokenInvalid)
  {
    RefreshTokenClaims(users[u], jwt, cfg, issuedAt, now);
  }

  /** A refresh token signed for `u` that is no longer the stored one (a later login or refresh
      overwrote it, or a logout cleared it) is refused as used while it is unexpired, and as
      invalid afterwards. */
  lemma SupersededRefreshTokenRejected(users: map<Id, User>, jwt: Jwt<Claims>, cfg: TokenConfig,
                                       u: Id, issuedAt: int, now: int, body: Option<string>)
    requires JwtSound(jwt)
    requires u in users && users[u].id == u
    requires var t := GenerateRefreshToken(users[u], jwt, cfg, issuedAt);
             t != "" && users[u].refreshToken != Some(t)
    ensures var t := GenerateRefreshToken(users[u], jwt, cfg, issuedAt);
            CheckRefresh(users, jwt, cfg, Some(t), body, now)
            == if now < issuedAt + RefreshLifetime(cfg) then Err(RefreshTokenReused) else Err(RefreshTokenInvalid)
  {
    RefreshTokenClaims(users[u], jwt, cfg, issuedAt, now);
  }

  /** What a rotation of `u`'s refresh token at time `now` leaves in the collection. */
  function Rotated(users: map<Id, User>, jwt: Jwt<Claims>, cfg: TokenConfig, u: Id, now: int): map<Id, User>
    requires u in users
  {
    users[u := users[u].(refreshToken := Some(GenerateRefreshToken(users[u], jwt, cfg, now)))]
  }

  /** Rotation is not use-once within a second: the refresh token carries only `_id` and an expiry
      counted in seconds, so a token issued at `now` and refreshed during that same second is
      rotated into itself, and presenting it again succeeds again. */
  lemma SameSecondReplay(users: map<Id, User>, jwt: Jwt<Claims>, cfg: TokenConfig, u: Id, now: int)
    requires JwtSound(jwt)
    requires RefreshLifetime(cfg) > 0
    requires u in users && users[u].id == u
    requires var t := GenerateRefreshToken(users[u], jwt, cfg, now);
             t != "" && users[u].refreshToken == Some(t)
    ensures var t := GenerateRefreshToken(users[u], jwt, cfg, now);
            && CheckRefresh(users, jwt, cfg, Some(t), None, now) == Ok(u)
            && CheckRefresh(Rotated(users, jwt, cfg, u, now), jwt, cfg, Some(t), None, now) == Ok(u)
  {
    var t := GenerateRefreshToken(users[u], jwt, cfg, now);
    IssuedRefreshTokenAccepted(users, jwt, cfg, u, now, now, None);
    assert Rotated(users, jwt, cfg, u, now) == users;
  }

  // ----- Reads of one record -----

  /** `getCurrentUser`: the caller's public view; a caller with no record makes the handler
      dereference null, a 500. */
  function CurrentUser(users: map<Id, User>, caller: Id): (r: Result<PublicUser, Error>)
    ensures r.Ok? <==> caller in users
    ensures r.Ok? ==> r.value == Sanitize(users[caller])
    ensures r.Err? ==> r.error == UserRecordMissing && Status(r.error) == 500
  {
    if caller in users then Ok(Sanitize(users[caller])) else Err(UserRecordMissing)
  }

  // ----- Media ids -----

  /** `url.split("/").pop().split(".")[0]`: the public id of a hosted file, the last `/`-segment up
      to its first `.`. */
  function MediaPublicId(url: string): (id: string)
    ensures '/' !in id && '.' !in id
  {
    BeforeFirst(AfterLast(url, '/'), '.')
  }

  /** For a URL whose last segment is `id` followed by an extension, the public id is `id`. */
  lemma MediaPublicIdOf(prefix: string, id: string, extension: string)
    requires prefix == [] || prefix[|prefix| - 1] == '/'
    requires '/' !in id && '.' !in id && '/' !in extension
    requires extension == [] || extension[0] == '.'
    ensures MediaPublicId(prefix + id + extension) == id
  {
    var t := id + extension;
    assert '/' !in t by {
      forall i | 0 <= i < |t| ensures t[i] != '/' {
        if i < |id| { assert t[i] == id[i]; } else { assert t[i] == extension[i - |id|]; }
      }
    }
    assert prefix + id + extension == prefix + t;
    AfterLastOfSuffix(prefix, t, '/');
    BeforeFirstOfPrefix(id, extension, '.');
  }

  // ----- The user collection -----

  /** The invariant of the `users` collection: every record is keyed by its own id, which was
      allocated (below `nextId`), went through the setters and validators, and no two records share
      a username or an email. */
  ghost predicate ValidUsers(users: map<Id, User>, nextId: nat, isEmail: string -> bool) {
    && (forall id :: id in users ==> users[id].id == id && id.n < nextId && StoredRecord(users[id], isEmail))
    && UniqueKeys(users)
  }

  /** Writing a well-formed, allocated record whose keys collide with no other record keeps the
      invariant. */
  lemma ValidAfterWrite(users: map<Id, User>, nextId: nat, isEmail: string -> bool, v: User)
    requires ValidUsers(users, nextId, isEmail)
    requires v.id.n < nextId && StoredRecord(v, isEmail)
    requires forall id :: id in users && id != v.id ==> users[id].email != v.email && users[id].username != v.username
    ensures ValidUsers(users[v.id := v], nextId, isEmail)
  {
  }

  /** Adding a well-formed record under the next id, with a username and an email no record has,
      keeps the invariant once the counter moves on. */
  lemma ValidAfterInsert(users: map<Id, User>, nextId: nat, isEmail: string -> bool, v: User)
    requires ValidUsers(users, nextId, isEmail)
    requires v.id == ObjectId(nextId) && StoredRecord(v, isEmail)
    requires !EmailInUse(users, v.email) && !UsernameInUse(users, v.username)
    ensures v.id !in users
    ensures ValidUsers(users[v.id := v], nextId + 1, isEmail)
  {
  }

  /** Rewriting a record without touching its username, email, fullName or avatar keeps the
      invariant. */
  lemma ValidAfterKeepingKeys(users: map<Id, User>, nextId: nat, isEmail: string -> bool, v: User)
    requires ValidUsers(users, nextId, isEmail)
    requires v.id in users
    requires var u := users[v.id];
             v.username == u.username && v.email == u.email && v.fullName == u.fullName && v.avatar == u.avatar
    ensures ValidUsers(users[v.id := v], nextId, isEmail)
  {
    ValidAfterWrite(users, nextId, isEmail, v);
  }


  /** The `users` collection together with the libraries and configuration the handlers use. New
      records get ids from a counter: ObjectId generation is not modelled beyond freshness. */
  class UserStore {
    const deps: Deps
    const cfg: TokenConfig
    var users: map<Id, User>
    var nextId: nat

    /** Every record is keyed by its own id, was allocated, went through the setters and validators,
        and no two records share a username or an email. */
    ghost predicate Valid()
      reads this
    {
      ValidUsers(users, nextId, deps.isEmail)
    }

    constructor (deps: Deps, cfg: TokenConfig)
      ensures Valid()
      ensures this.deps == deps && this.cfg == cfg && users == map[] && nextId == 0
    {
      this.deps := deps;
      this.cfg := cfg;
      users := map[];
      nextId := 0;
    }

    /** `doc.save()`: the pre-save hook runs, then the document is written back. */
    method Save(doc: UserDocument)
      modifies this`users, doc
      ensures old(doc.passwordModified) ==> doc.record == old(doc.record).(password := deps.bcrypt.hash(old(doc.record).password))
      ensures !old(doc.passwordModified) ==> doc.record == old(doc.record)
      ensures !doc.passwordModified
      ensures users == old(users)[doc.record.id := doc.record]
    {
      doc.PreSave(deps.bcrypt);
      users := users[doc.record.id := doc.record];
      doc.MarkSaved();
    }

    /** `generateAccessAndRefreshToken`: both tokens are signed for the stored record, and the
        refresh token overwrites the stored one, which afterwards is exactly the token returned.
        The save does not re-hash the password, because its path was not modified. An id with no
        record is the 500 of the `catch`. */
    method GenerateTokens(id: Id, now: int) returns (r: Result<TokenPair, Error>)
      requires Valid()
      modifies this`users
      ensures Valid()
      ensures id !in old(users) ==> r == Err(TokenGenerationFailed) && users == old(users)
      ensures id in old(users) ==>
                var u := old(users)[id];
                && r == Ok(TokenPair(GenerateAccessToken(u, deps.jwt, cfg, now), GenerateRefreshToken(u, deps.jwt, cfg, now)))
                && users == old(users)[id := u.(refreshToken := Some(r.value.refreshToken))]
    {
      if id !in users {
        return Err(TokenGenerationFailed);
      }
      var accessToken := GenerateAccessToken(users[id], deps.jwt, cfg, now);
      var refreshToken := GenerateRefreshToken(users[id], deps.jwt, cfg, now);
      SaveRefreshToken(id, refreshToken);
      r := Ok(TokenPair(accessToken, refreshToken));
    }

    /** Loading a document, assigning its refresh token and saving it without validation: the
        password path is not modified, so the hook leaves the hash alone. */
    method SaveRefreshToken(id: Id, t: string)
      requires Valid() && id in users
      modifies this`users
      ensures Valid()
      ensures users == old(users)[id := old(users)[id].(refreshToken := Some(t))]
    {
      ValidAfterKeepingKeys(users, nextId, deps.isEmail, users[id].(refreshToken := Some(t)));
      var doc := new UserDocument.Hydrate(users[id]);
      doc.SetRefreshToken(t);
      Save(doc);
    }

    /** `User.create(v)`: a new document is saved under the next id, so the pre-save hook hashes
        its password; the counter moves on. */
    method Create(v: User) returns (stored: User)
      requires Valid()
      requires v.id == ObjectId(nextId) && StoredRecord(v, deps.isEmail)
      requires !EmailInUse(users, v.email) && !UsernameInUse(users, v.username)
      modifies this`users, this`nextId
      ensures Valid()
      ensures stored == v.(password := deps.bcrypt.hash(v.password))
      ensures v.id !in old(users) && users == old(users)[v.id := stored] && nextId == old(nextId) + 1
    {
      ValidAfterInsert(users, nextId, deps.isEmail, v.(password := deps.bcrypt.hash(v.password)));
      var doc := new UserDocument.New(v);
      Save(doc);
      nextId := nextId + 1;
      stored := doc.record;
    }

    /** `registerUser`: the record the decision accepts is created under a fresh id with its
        password hashed, and its public view is returned; a refused request changes nothing. */
    method Register(req: RegisterRequest) returns (r: Result<PublicUser, Error>)
      requires Valid()
      modifies this`users, this`nextId
      ensures Valid()
      ensures var d := RegisterDecision(old(users), req, deps.isEmail, ObjectId(old(nextId)));
              && (d.Err? ==> r == Err(d.error) && users == old(users) && nextId == old(nextId))
              && (d.Ok? ==>
                    var stored := d.value.(password := deps.bcrypt.hash(d.value.password));
                    && d.value.id !in old(users)
                    && users == old(users)[d.value.id := stored]
                    && nextId == old(nextId) + 1
                    && r == Ok(Sanitize(stored)))
    {
      var d := RegisterDecision(users, req, deps.isEmail, ObjectId(nextId));
      if d.Err? {
        return Err(d.error);
      }
      RegisteredRecordWellFormed(users, req, deps.isEmail, ObjectId(nextId));
      var stored := Create(d.value);
      r := Ok(Sanitize(stored));
    }

    /** `loginUser`: the credentials are checked against one record matching the email or the
        username (which one, when two different records match, is up to the database), and only
        then are tokens issued; the record's stored refresh token becomes the one returned. */
    method Login(req: LoginRequest, now: int) returns (r: Result<LoginResponse, Error>)
      requires Valid()
      modifies this`users
      ensures Valid()
      ensures r.Err? ==> users == old(users)
      ensures r == Err(CredentialsRequired) <==> LoginMissing(req)
      ensures r == Err(UserNotRegistered) <==> !LoginMissing(req) && LoginMatches(old(users), req) == {}
      ensures !LoginMissing(req) && LoginMatches(old(users), req) != {} ==> r.Ok? || r == Err(InvalidCredentials)
      ensures !LoginMissing(req) && LoginMatches(old(users), req) != {}
              && (forall id :: id in LoginMatches(old(users), req) ==> IsPasswordCorrect(old(users)[id], deps.bcrypt, req.password.value))
              ==> r.Ok?
      ensures r == Err(InvalidCredentials) ==>
                !LoginMissing(req)
                && exists id :: id in LoginMatches(old(users), req) && !IsPasswordCorrect(old(users)[id], deps.bcrypt, req.password.value)
      ensures r.Err? ==> r.error in {CredentialsRequired, UserNotRegistered, InvalidCredentials}
      ensures r.Ok? ==>
                && !LoginMissing(req)
                && var id := r.value.user.id;
                && id in LoginMatches(old(users), req)
                && IsPasswordCorrect(old(users)[id], deps.bcrypt, req.password.value)
                && r.value.user == Sanitize(old(users)[id])
                && r.value.accessToken == GenerateAccessToken(old(users)[id], deps.jwt, cfg, now)
                && r.value.refreshToken == GenerateRefreshToken(old(users)[id], deps.jwt, cfg, now)
                && users == old(users)[id := old(users)[id].(refreshToken := Some(r.value.refreshToken))]
    {
      if LoginMissing(req) {
        return Err(CredentialsRequired);
      }
      var matches := LoginMatches(users, req);
      if matches == {} {
        return Err(UserNotRegistered);
      }
      var id :| id in matches;
      var found := users[id];
      if !IsPasswordCorrect(found, deps.bcrypt, req.password.value) {
        return Err(InvalidCredentials);
      }
      var tokens := GenerateTokens(id, now);
      r := Ok(LoginResponse(Sanitize(found), tokens.value.accessToken, tokens.value.refreshToken));
    }

    /** `logout`: the caller's stored refresh token becomes ""; nothing else changes, and an id
        with no record is a no-op. */
    method Logout(caller: Id)
      requires Valid()
      modifies this`users
      ensures Valid()
      ensures caller in old(users) ==> users == old(users)[caller := old(users)[caller].(refreshToken := Some(""))]
      ensures caller !in old(users) ==> users == old(users)
    {
      if caller in users {
        ValidAfterKeepingKeys(users, nextId, deps.isEmail, users[caller].(refreshToken := Some("")));
        users := users[caller := users[caller].(refreshToken := Some(""))];
      }
    }

    /** `refreshAccessToken`: when `CheckRefresh` accepts, new tokens are issued for the user exactly
        as at login and the stored token becomes the new refresh token; otherwise nothing changes
        and the answer is a 401. Issuing cannot fail here, since the user was just found. */
    method RefreshAccessToken(cookie: Option<string>, body: Option<string>, now: int)
      returns (r: Result<TokenPair, Error>)
      requires Valid()
      modifies this`users
      ensures Valid()
      ensures r.Err? ==> Status(r.error) == 401
      ensures var c := CheckRefresh(old(users), deps.jwt, cfg, cookie, body, now);
              && (c.Err? ==> r == Err(c.error) && users == old(users))
              && (c.Ok? ==>
                    var u := old(users)[c.value];
                    && r == Ok(TokenPair(GenerateAccessToken(u, deps.jwt, cfg, now), GenerateRefreshToken(u, deps.jwt, cfg, now)))
                    && users == old(users)[c.value := u.(refreshToken := Some(r.value.refreshToken))])
    {
      var c := CheckRefresh(users, deps.jwt, cfg, cookie, body, now);
      if c.Err? {
        return Err(c.error);
      }
      r := GenerateTokens(c.value, now);
    }

    /** `doc.password = p; doc.save()` on a document loaded from the store: the `trim` setter
        runs, and the pre-save hook hashes the value only if it differs from the stored one. */
    method SavePassword(doc: UserDocument, p: string)
      requires Valid()
      requires doc.record.id in users && doc.record == users[doc.record.id] && !doc.passwordModified
      modifies this`users, doc
      ensures Valid()
      ensures var u := old(doc.record);
              var q := Trim(p);
              users == old(users)[u.id := u.(password := if q != u.password then deps.bcrypt.hash(q) else q)]
    {
      ghost var u := doc.record;
      ghost var q := Trim(p);
      ValidAfterKeepingKeys(users, nextId, deps.isEmail, u.(password := if q != u.password then deps.bcrypt.hash(q) else q));
      doc.SetPassword(p);
      Save(doc);
    }

    /** `changeCurentPassword`: the old password must compare equal to the stored hash; the new one
        goes through the `trim` setter and the schema's validators (a 500 when they refuse it), and
        is hashed by the pre-save hook only if it differs from the stored value. Only the password
        changes. */
    method ChangeCurrentPassword(caller: Id, oldPassword: Option<string>, newPassword: Option<string>)
      returns (r: Result<(), Error>)
      requires Valid()
      modifies this`users
      ensures Valid()
      ensures r.Err? ==> users == old(users)
      ensures caller !in old(users) ==> r == Err(UserRecordMissing)
      ensures caller in old(users) && oldPassword.None? ==> r == Err(PasswordArgumentMissing)
      ensures caller in old(users) && oldPassword.Some? ==>
                (r == Err(WrongOldPassword) <==> !IsPasswordCorrect(old(users)[caller], deps.bcrypt, oldPassword.value))
      ensures caller in old(users) && oldPassword.Some? && IsPasswordCorrect(old(users)[caller], deps.bcrypt, oldPassword.value) ==>
                && (r.Ok? <==> newPassword.Some? && StrongPassword(Trim(newPassword.value)))
                && (r.Err? ==> r == Err(PasswordRejected))
      ensures r.Ok? ==>
                && caller in old(users) && newPassword.Some?
                && var u := old(users)[caller];
                && var q := Trim(newPassword.value);
                && users == old(users)[caller := u.(password := if q != u.password then deps.bcrypt.hash(q) else q)]
    {
      if caller !in users {
        return Err(UserRecordMissing);
      }
      if oldPassword.None? {
        return Err(PasswordArgumentMissing);
      }
      var doc := new UserDocument.Hydrate(users[caller]);
      if !IsPasswordCorrect(doc.record, deps.bcrypt, oldPassword.value) {
        return Err(WrongOldPassword);
      }
      if newPassword.None? || !StrongPassword(Trim(newPassword.value)) {
        return Err(PasswordRejected);
      }
      SavePassword(doc, newPassword.value);
      r := Ok(());
    }

    /** `updateAccountDetails`: both fields must be present and non-empty (400); the update's
        setters and validators then apply to fullName and email (500 when they refuse), the unique
        index on email refuses another record's address (500), and only those two fields change. An
        id with no record answers with no user and changes nothing. */
    method UpdateAccountDetails(caller: Id, fullName: Option<string>, email: Option<string>)
      returns (r: Result<Option<PublicUser>, Error>)
      requires Valid()
      modifies this`users
      ensures Valid()
      ensures r.Err? ==> users == old(users)
      ensures r == Err(DetailsRequired) <==> !Truthy(fullName) || !Truthy(email)
      ensures r == Ok(None) ==> users == old(users)
      ensures Truthy(fullName) && Truthy(email) ==>
                var f := Trim(fullName.value);
                var e := Normalize(email.value);
                var valid := NameRule(f) && e != "" && deps.isEmail(e);
                && (r == Err(DetailsRejected) <==> !valid)
                && (r == Err(DuplicateKey) <==>
                      valid && caller in old(users) && exists id :: id in old(users) && id != caller && old(users)[id].email == e)
                && (r == Ok(None) <==> valid && caller !in old(users))
                && (r.Ok? && r.value.Some? <==>
                      valid && caller in old(users) && !exists id :: id in old(users) && id != caller && old(users)[id].email == e)
                && (r.Ok? && r.value.Some? ==>
                      && caller in old(users)
                      && users == old(users)[caller := old(users)[caller].(fullName := f, email := e)]
                      && r.value.value == Sanitize(users[caller]))
    {
      if !Truthy(fullName) || !Truthy(email) {
        return Err(DetailsRequired);
      }
      var f := Trim(fullName.value);
      var e := Normalize(email.value);
      if !(NameRule(f) && e != "" && deps.isEmail(e)) {
        return Err(DetailsRejected);
      }
      if caller !in users {
        return Ok(None);
      }
      if exists id :: id in users && id != caller && users[id].email == e {
        return Err(DuplicateKey);
      }
      NormalizeIsNormalized(email.value);
      TrimIsTrimmed(fullName.value);
      WriteDetails(caller, f, e);
      r := Ok(Some(Sanitize(users[caller])));
    }

    /** The `$set` of fullName and email on an existing record, the values already through the
        setters and validators and the email unused by any other record. */
    method WriteDetails(caller: Id, f: string, e: string)
      requires Valid()
      requires caller in users && NameRule(f) && Trimmed(f) && e != "" && deps.isEmail(e) && Normalized(e)
      requires forall id :: id in users && id != caller ==> users[id].email != e
      modifies this`users
      ensures Valid()
      ensures users == old(users)[caller := old(users)[caller].(fullName := f, email := e)]
    {
      ValidAfterWrite(users, nextId, deps.isEmail, users[caller].(fullName := f, email := e));
      users := users[caller := users[caller].(fullName := f, email := e)];
    }

    /** Loading the caller's document, assigning a new avatar URL and saving it: the password is
        not re-hashed and only the avatar changes. */
    method SaveAvatar(caller: Id, url: string)
      requires Valid() && caller in users && url != ""
      modifies this`users
      ensures Valid()
      ensures users == old(users)[caller := old(users)[caller].(avatar := url)]
    {
      ValidAfterWrite(users, nextId, deps.isEmail, users[caller].(avatar := url));
      var doc := new UserDocument.Hydrate(users[caller]);
      doc.SetAvatar(url);
      Save(doc);
    }

    /** Loading the caller's document, assigning a new cover URL and saving it: the password is
        not re-hashed and only the cover image changes. */
    method SaveCoverImage(caller: Id, url: string)
      requires Valid() && caller in users
      modifies this`users
      ensures Valid()
      ensures users == old(users)[caller := old(users)[caller].(coverImage := Some(url))]
    {
      ValidAfterKeepingKeys(users, nextId, deps.isEmail, users[caller].(coverImage := Some(url)));
      var doc := new UserDocument.Hydrate(users[caller]);
      doc.SetCoverImage(url);
      Save(doc);
    }

    /** `updateuserAvatar`: with a file and a record, the old avatar's media id is deleted first
        (`deleted`), then the upload must give a URL, which becomes the avatar; nothing else
        changes. The deletion happens even when the upload then fails. */
    method UpdateAvatar(caller: Id, file: Option<Upload>) returns (r: Result<PublicUser, Error>, deleted: Option<string>)
      requires Valid()
      modifies this`users
      ensures Valid()
      ensures r.Err? ==> users == old(users)
      ensures file.None? ==> r == Err(MediaFileMissing) && deleted == None
      ensures file.Some? && caller !in old(users) ==> r == Err(UserNotFound) && deleted == None
      ensures file.Some? && caller in old(users) ==>
                && deleted == (if old(users)[caller].avatar != "" then Some(MediaPublicId(old(users)[caller].avatar)) else None)
                && (file == Some(UploadFailed) ==> r == Err(UploadCrashed))
                && (file == Some(Uploaded("")) ==> r == Err(UploadWithoutUrl))
                && (file.value.Uploaded? && file.value.url != "" ==> r.Ok?)
      ensures r.Ok? ==>
                && caller in old(users) && file.Some? && file.value.Uploaded? && file.value.url != ""
                && users == old(users)[caller := old(users)[caller].(avatar := file.value.url)]
                && r.value == Sanitize(users[caller])
    {
      deleted := None;
      if file.None? {
        return Err(MediaFileMissing), deleted;
      }
      if caller !in users {
        return Err(UserNotFound), deleted;
      }
      if users[caller].avatar != "" {
        deleted := Some(MediaPublicId(users[caller].avatar));
      }
      match file.value {
        case UploadFailed =>
          return Err(UploadCrashed), deleted;
        case Uploaded(url) =>
          if url == "" {
            return Err(UploadWithoutUrl), deleted;
          }
          SaveAvatar(caller, url);
          r := Ok(Sanitize(users[caller]));
      }
    }

    /** `updateuserCoverImage`: as for the avatar, for the optional cover image, whose old media is
        deleted only when a non-empty URL was stored. */
    method UpdateCoverImage(caller: Id, file: Option<Upload>) returns (r: Result<PublicUser, Error>, deleted: Option<string>)
      requires Valid()
      modifies this`users
      ensures Valid()
      ensures r.Err? ==> users == old(users)
      ensures file.None? ==> r == Err(MediaFileMissing) && deleted == None
      ensures file.Some? && caller !in old(users) ==> r == Err(UserNotFound) && deleted == None
      ensures file.Some? && caller in old(users) ==>
                && deleted == (if Truthy(old(users)[caller].coverImage) then Some(MediaPublicId(old(users)[caller].coverImage.value)) else None)
                && (file == Some(UploadFailed) ==> r == Err(UploadCrashed))
                && (file == Some(Uploaded("")) ==> r == Err(UploadWithoutUrl))
                && (file.value.Uploaded? && file.value.url != "" ==> r.Ok?)
      ensures r.Ok? ==>
                && caller in old(users) && file.Some? && file.value.Uploaded? && file.value.url != ""
                && users == old(users)[caller := old(users)[caller].(coverImage := Some(file.value.url))]
                && r.value == Sanitize(users[caller])
    {
      deleted := None;
      if file.None? {
        return Err(MediaFileMissing), deleted;
      }
      if caller !in users {
        return Err(UserNotFound), deleted;
      }
      if Truthy(users[caller].coverImage) {
        deleted := Some(MediaPublicId(users[caller].coverImage.value));
      }
      match file.value {
        case UploadFailed =>
          return Err(UploadCrashed), deleted;
        case Uploaded(url) =>
          if url == "" {
            return Err(UploadWithoutUrl), deleted;
          }
          SaveCoverImage(caller, url);
          r := Ok(Sanitize(users[caller]));
      }
    }
  }
}
