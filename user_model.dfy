/**
  The user record of `src/models/user.model.js`: its fields, the schema's constraints, the
  `pre("save")` hook that hashes a changed password, `isPasswordCorrect`, and the two token
  generators.
*/
module UserModel {
  import opened Wrappers
  import opened Text
  import opened Collaborators

  /** A MongoDB ObjectId; only identity matters. */
  datatype Id = ObjectId(n: nat)

  /** A stored user document. `password` holds the bcrypt hash once the document has been saved;
      `coverImage` and `refreshToken` are optional strings. */
  datatype User = User(
    id: Id,
    username: string,
    email: string,
    fullName: string,
    avatar: string,
    coverImage: Option<string>,
    watchHistory: seq<Id>,
    password: string,
    refreshToken: Option<string>)

  /** What the handlers hand out: the record without `password` and `refreshToken`. */
  datatype PublicUser = PublicUser(
    id: Id,
    username: string,
    email: string,
    fullName: string,
    avatar: string,
    coverImage: Option<string>,
    watchHistory: seq<Id>)

  /** `toObject()` followed by deleting `password` and `refreshToken`. */
  function Sanitize(u: User): (p: PublicUser) {
    PublicUser(u.id, u.username, u.email, u.fullName, u.avatar, u.coverImage, u.watchHistory)
  }

  /** The public view does not depend on the password hash or the refresh token at all, and keeps
      every other field. */
  lemma SanitizeHidesSecrets(u: User, password: string, refreshToken: Option<string>)
    ensures Sanitize(u.(password := password, refreshToken := refreshToken)) == Sanitize(u)
    ensures var p := Sanitize(u);
            p.id == u.id && p.username == u.username && p.email == u.email
            && p.fullName == u.fullName && p.avatar == u.avatar && p.coverImage == u.coverImage
            && p.watchHistory == u.watchHistory
  {
  }

  // ----- Schema constraints -----

  /** `minlength: 3`, `maxlength: 15` and `match: /^[a-zA-Z\s]+$/`, the rule of both username and
      fullName. */
  predicate NameRule(s: string) {
    3 <= |s| <= 15 && forall i :: 0 <= i < |s| ==> IsLetter(s[i]) || IsSpace(s[i])
  }

  /** The characters validator.isStrongPassword counts as symbols. */
  predicate IsSymbol(c: char) {
    c in "-#!$@\U{A3}%^&*()_+|~=`{}[]:\";'<>?,./\\ "
  }

  /** `validator.isStrongPassword(p, {minLength: 8, minLowercase: 1, minUppercase: 1,
      minNumbers: 1, minSymbols: 1})`; it implies the field's `required` and `minlength: 8`. */
  predicate StrongPassword(p: string) {
    && |p| >= 8
    && (exists i :: 0 <= i < |p| && IsLowerLetter(p[i]))
    && (exists i :: 0 <= i < |p| && IsUpperLetter(p[i]))
    && (exists i :: 0 <= i < |p| && IsDigit(p[i]))
    && (exists i :: 0 <= i < |p| && IsSymbol(p[i]))
  }

  /** What the schema's validators accept of a document about to be saved, its setters (`trim`,
      `lowercase`) already applied and its password still in plain text: `required` on username,
      email, fullName, avatar and password, the length and pattern rules, `validator.isEmail`, and the
      strong-password rule. */
  predicate SchemaAccepts(u: User, isEmail: string -> bool) {
    && NameRule(u.username)
    && u.email != "" && isEmail(u.email)
    && NameRule(u.fullName)
    && u.avatar != ""
    && StrongPassword(u.password)
  }

  /** What holds of every stored record: the username and email went through the `lowercase` and
      `trim` setters, the fullName through `trim`, and all of them through the validators. */
  predicate StoredRecord(u: User, isEmail: string -> bool) {
    && NameRule(u.username) && Normalized(u.username)
    && u.email != "" && isEmail(u.email) && Normalized(u.email)
    && NameRule(u.fullName) && Trimmed(u.fullName)
    && u.avatar != ""
  }

  // ----- Passwords -----

  /** `isPasswordCorrect(password)`: bcrypt's comparison of the plaintext with the stored hash. */
  function IsPasswordCorrect(u: User, bcrypt: Hasher, password: string): (correct: bool) {
    bcrypt.compare(password, u.password)
  }

  /** Once a record stores the hash of `q`, `q` is accepted as its password. */
  lemma PasswordCorrectAfterHash(u: User, bcrypt: Hasher, q: string)
    requires HasherSound(bcrypt)
    ensures IsPasswordCorrect(u.(password := bcrypt.hash(q)), bcrypt, q)
  {
  }

  // ----- Tokens -----

  /** The claims of the two tokens: the access token carries `_id`, `email` and `username`, the
      refresh token only `_id`. */
  datatype Claims = AccessClaims(id: Id, email: string, username: string) | RefreshClaims(id: Id)

  /** The environment's ACCESS/REFRESH_TOKEN_SECRET and ACCESS/REFRESH_TOKEN_EXPIRY (in seconds;
      None when the variable is unset or empty). */
  datatype TokenConfig = TokenConfig(
    accessSecret: string,
    refreshSecret: string,
    accessExpiry: Option<nat>,
    refreshExpiry: Option<nat>)

  /** The libraries the model consumes: bcrypt, jsonwebtoken over these claims, validator.isEmail. */
  datatype Deps = Deps(bcrypt: Hasher, jwt: Jwt<Claims>, isEmail: string -> bool)

  const DefaultAccessLifetime: nat := 6 * 60 * 60        // "6h"
  const DefaultRefreshLifetime: nat := 10 * 24 * 60 * 60 // "10d"

  function AccessLifetime(cfg: TokenConfig): nat {
    match cfg.accessExpiry
    case Some(seconds) => seconds
    case None => DefaultAccessLifetime
  }

  function RefreshLifetime(cfg: TokenConfig): nat {
    match cfg.refreshExpiry
    case Some(seconds) => seconds
    case None => DefaultRefreshLifetime
  }

  /** `generateAccessToken()` at time `now`. */
  function GenerateAccessToken(u: User, jwt: Jwt<Claims>, cfg: TokenConfig, now: int): (token: string) {
    jwt.sign(cfg.accessSecret, AccessClaims(u.id, u.email, u.username), now + AccessLifetime(cfg))
  }

  /** `generateRefreshToken()` at time `now`. */
  function GenerateRefreshToken(u: User, jwt: Jwt<Claims>, cfg: TokenConfig, now: int): (token: string) {
    jwt.sign(cfg.refreshSecret, RefreshClaims(u.id), now + RefreshLifetime(cfg))
  }

  /** An access token verifies under the access secret, giving back {_id, email, username}, until
      its lifetime (6 hours unless configured) has passed. */
  lemma AccessTokenClaims(u: User, jwt: Jwt<Claims>, cfg: TokenConfig, issuedAt: int, now: int)
    requires JwtSound(jwt)
    ensures jwt.verify(cfg.accessSecret, GenerateAccessToken(u, jwt, cfg, issuedAt), now)
            == if now < issuedAt + AccessLifetime(cfg) then Some(AccessClaims(u.id, u.email, u.username)) else None
    ensures cfg.accessExpiry.None? ==> AccessLifetime(cfg) == 21600
  {
  }

  /** A refresh token verifies under the refresh secret, giving back only {_id}, until its lifetime
      (10 days unless configured) has passed. */
  lemma RefreshTokenClaims(u: User, jwt: Jwt<Claims>, cfg: TokenConfig, issuedAt: int, now: int)
    requires JwtSound(jwt)
    ensures jwt.verify(cfg.refreshSecret, GenerateRefreshToken(u, jwt, cfg, issuedAt), now)
            == if now < issuedAt + RefreshLifetime(cfg) then Some(RefreshClaims(u.id)) else None
    ensures cfg.refreshExpiry.None? ==> RefreshLifetime(cfg) == 864000
  {
  }

  // ----- The document and its pre-save hook -----

  /** A Mongoose document: the record being edited and whether its password path was modified. */
  class UserDocument {
    var record: User
    var passwordModified: bool

    /** A document loaded from the store: nothing is modified yet. */
    constructor Hydrate(u: User)
      ensures record == u && !passwordModified
    {
      record := u;
      passwordModified := false;
    }

    /** A new document (`User.create`): every path it was given counts as modified. */
    constructor New(u: User)
      ensures record == u && passwordModified
    {
      record := u;
      passwordModified := true;
    }

    /** `doc.password = p`: the `trim` setter runs, and the path is marked modified unless the
        value stays the same. */
    method SetPassword(p: string)
      modifies this
      ensures record == old(record).(password := Trim(p))
      ensures passwordModified == (old(passwordModified) || Trim(p) != old(record).password)
    {
      var v := Trim(p);
      if v != record.password {
        passwordModified := true;
      }
      record := record.(password := v);
    }

    /** `doc.refreshToken = t`. */
    method SetRefreshToken(t: string)
      modifies this
      ensures record == old(record).(refreshToken := Some(t))
      ensures passwordModified == old(passwordModified)
    {
      record := record.(refreshToken := Some(t));
    }

    /** `doc.avatar = url`. */
    method SetAvatar(url: string)
      modifies this
      ensures record == old(record).(avatar := url)
      ensures passwordModified == old(passwordModified)
    {
      record := record.(avatar := url);
    }

    /** `doc.coverImage = url`. */
    method SetCoverImage(url: string)
      modifies this
      ensures record == old(record).(coverImage := Some(url))
      ensures passwordModified == old(passwordModified)
    {
      record := record.(coverImage := Some(url));
    }

    /** The `pre("save")` hook: hash the password if and only if the password path was modified;
        every other field is left as it is. */
    method PreSave(bcrypt: Hasher)
      modifies this
      ensures old(passwordModified) ==> record == old(record).(password := bcrypt.hash(old(record).password))
      ensures !old(passwordModified) ==> record == old(record)
      ensures passwordModified == old(passwordModified)
    {
      if !passwordModified {
        return;
      }
      record := record.(password := bcrypt.hash(record.password));
    }

    /** After a save Mongoose forgets which paths were modified. */
    method MarkSaved()
      modifies this
      ensures record == old(record) && !passwordModified
    {
      passwordModified := false;
    }
  }
}
