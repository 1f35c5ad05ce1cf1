/**
  The session guard of `src/middlewares/authentication.middleware.js`: it picks the access token
  from the cookie or the Authorization header, verifies it under the access secret, and hands the
  caller's id to the next handler. It reads no stored state.
*/
module AuthGuard {
  import opened Wrappers
  import opened Text
  import opened Errors
  import opened Collaborators
  import opened UserModel

  const BearerPrefix := "Bearer "

  /** `req.cookies?.accessToken || req.header("Authorization")?.replace("Bearer ", "")`;
      None stands for `undefined`. */
  function SelectAccessToken(cookie: Option<string>, authorization: Option<string>): (t: Option<string>)
    ensures Truthy(cookie) ==> t == cookie
    ensures !Truthy(cookie) ==> (t.Some? <==> authorization.Some?)
  {
    if Truthy(cookie) then cookie
    else
      match authorization
      case None => None
      case Some(header) => Some(RemoveFirst(header, BearerPrefix))
  }

  /** `isAuthenticated`: Ok(id) is `req.user = {id: decoded._id}` followed by one call of `next`;
      every failure is a 401 and `next` is not called. No refresh is attempted. */
  function Authenticate(jwt: Jwt<Claims>, cfg: TokenConfig, cookie: Option<string>,
                        authorization: Option<string>, now: int): (r: Result<Id, Error>)
    ensures r.Err? ==> Status(r.error) == 401
    ensures var t := SelectAccessToken(cookie, authorization);
            !Truthy(t) ==> r == Err(AccessTokenMissing)
    ensures var t := SelectAccessToken(cookie, authorization);
            r.Ok? <==> Truthy(t) && jwt.verify(cfg.accessSecret, t.value, now).Some?
    ensures var t := SelectAccessToken(cookie, authorization);
            r.Ok? ==> r.value == jwt.verify(cfg.accessSecret, t.value, now).value.id
  {
    var token := SelectAccessToken(cookie, authorization);
    if !Truthy(token) then Err(AccessTokenMissing)
    else
      match jwt.verify(cfg.accessSecret, token.value, now)
      case None => Err(AccessTokenInvalid)
      case Some(claims) => Ok(claims.id)
  }

  /** A non-empty cookie wins: the header is not looked at. */
  lemma CookieWins(cookie: string, authorization: Option<string>, other: Option<string>)
    requires cookie != ""
    ensures SelectAccessToken(Some(cookie), authorization) == Some(cookie)
    ensures SelectAccessToken(Some(cookie), authorization) == SelectAccessToken(Some(cookie), other)
  {
  }

  /** Without a cookie, a header "Bearer t" yields t; a header that does not contain "Bearer " is used
      as it is; otherwise the first "Bearer " found anywhere in the header is cut out. */
  lemma HeaderToken(cookie: Option<string>, header: string, t: string, i: nat)
    requires !Truthy(cookie)
    ensures SelectAccessToken(cookie, Some(BearerPrefix + t)) == Some(t)
    ensures (forall j: nat :: !OccursAt(header, BearerPrefix, j)) ==> SelectAccessToken(cookie, Some(header)) == Some(header)
    ensures OccursAt(header, BearerPrefix, i) && (forall j: nat :: j < i ==> !OccursAt(header, BearerPrefix, j))
            ==> SelectAccessToken(cookie, Some(header)) == Some(header[..i] + header[i + 7..])
    ensures SelectAccessToken(cookie, None) == None
  {
    assert (BearerPrefix + t)[..|BearerPrefix|] == BearerPrefix;
    assert (BearerPrefix + t)[|BearerPrefix|..] == t;
    if forall j: nat :: !OccursAt(header, BearerPrefix, j) {
      RemoveFirstAbsent(header, BearerPrefix);
    }
    if OccursAt(header, BearerPrefix, i) && (forall j: nat :: j < i ==> !OccursAt(header, BearerPrefix, j)) {
      RemoveFirstAt(header, BearerPrefix, i);
    }
  }

  /** An access token issued for `u` at `issuedAt` and presented in the cookie lets `u` through
      exactly until it expires; after that it is a 401. The guard takes no store, so nothing done to
      the stored record meanwhile (a logout included) changes this. */
  lemma IssuedAccessTokenAccepted(u: User, jwt: Jwt<Claims>, cfg: TokenConfig, issuedAt: int, now: int,
                                  authorization: Option<string>)
    requires JwtSound(jwt)
    requires GenerateAccessToken(u, jwt, cfg, issuedAt) != ""
    ensures Authenticate(jwt, cfg, Some(GenerateAccessToken(u, jwt, cfg, issuedAt)), authorization, now)
            == if now < issuedAt + AccessLifetime(cfg) then Ok(u.id) else Err(AccessTokenInvalid)
  {
    AccessTokenClaims(u, jwt, cfg, issuedAt, now);
  }

  /** The same token sent as "Authorization: Bearer <token>" without a cookie is treated alike. */
  lemma IssuedAccessTokenAcceptedFromHeader(u: User, jwt: Jwt<Claims>, cfg: TokenConfig, issuedAt: int,
                                            now: int, cookie: Option<string>)
    requires JwtSound(jwt)
    requires !Truthy(cookie)
    requires GenerateAccessToken(u, jwt, cfg, issuedAt) != ""
    ensures var t := GenerateAccessToken(u, jwt, cfg, issuedAt);
            Authenticate(jwt, cfg, cookie, Some(BearerPrefix + t), now)
            == if now < issuedAt + AccessLifetime(cfg) then Ok(u.id) else Err(AccessTokenInvalid)
  {
    var t := GenerateAccessToken(u, jwt, cfg, issuedAt);
    HeaderToken(cookie, "", t, 0);
    AccessTokenClaims(u, jwt, cfg, issuedAt, now);
  }
}
