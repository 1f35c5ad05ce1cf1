# User identity and sessions of a video-sharing backend, in Dafny

This project models the user side of an Express/Mongoose video-sharing backend. It covers:

- **The user record** (`src/models/user.model.js`):
  - the schema's setters and validators;
  - the `pre("save")` hook that hashes a modified password;
  - `isPasswordCorrect`;
  - the access-token and refresh-token generators.
- **The session guard** `isAuthenticated` (`src/middlewares/authentication.middleware.js`). It picks the access token from the cookie or the `Authorization` header and verifies it.
- **The user controller** (`src/controllers/user.controller.js`):
  - registration, login, logout, token refresh;
  - password change, account-details update, avatar and cover-image replacement;
  - the current-user read;
  - the two read-only aggregations: the channel profile and the watch history.

## Modules

| file | module | what it holds |
|---|---|---|
| `wrappers.dfy` | `Wrappers` | `Option` and `Result`. |
| `errors.dfy` | `Errors` | One constructor per failure branch, and the HTTP status it is answered with. |
| `text.dfy` | `Text` | The JavaScript string operations the code relies on: `trim`, ASCII `toLowerCase`, truthiness, `replace`, `split`. |
| `collaborators.dfy` | `Collaborators` | bcrypt and jsonwebtoken as records of functions. The only facts assumed about them are stated as ghost predicates (`HasherSound`, `JwtSound`). |
| `user_model.dfy` | `UserModel` | The record, the schema predicates (`SchemaAccepts`, `StoredRecord`), `Sanitize`, the tokens, and the class `UserDocument` with the pre-save hook. |
| `auth_guard.dfy` | `AuthGuard` | `isAuthenticated`, as a pure function returning the caller's id or a 401. |
| `user_controller.dfy` | `UserController` | The decision procedures as functions (`RegisterDecision`, `CheckRefresh`, ...). The class `UserStore` holds the `users` map, and its methods are the handlers that write to it. |
| `channel_reads.dfy` | `ChannelReads` | `getUserChannelprofile` and `getWatchHistory`, as functions over sequences of users, subscriptions and videos. |

## Modelling conventions

**Collaborators.**
- Cryptography, e-mail validation, time and the media host are inputs.
- bcrypt, jsonwebtoken and `validator.isEmail` are function values inside `Deps`.
- The current time is an `int` parameter, in seconds.
- An upload is the `Upload` value the media host answered with.
- A deletion of old media is reported as the `deleted` media id that the avatar and cover-image handlers return.

**The store.**
- The store is the class `UserStore`. Its invariant `Valid()` says that:
  - every record is keyed by its own id;
  - every record went through the setters and validators;
  - no two records share a username or an email (the `unique` indexes).
- `Save` runs the pre-save hook and writes the document back.

**Mongoose behaviours that the model follows:**
- `findOne` filter values pass through the schema's `lowercase`/`trim` setters.
- So do `$set` values under `runValidators`.
- An aggregation `$match` does not: the handler only lower-cases.
- `isModified("password")` is false after setting the same value again.
- A document loaded with `select("-password -refreshToken")` and then saved keeps the stored password and refresh token.

**Failure statuses.**
- A handler's failure is the `Error` it throws.
- Exceptions that are not `ApiError`s are answered with status 500. These are: a null dereference, a validation error, a duplicate key, and bcrypt rejecting an undefined argument.

**Places where the code and its documentation differ; the model follows the code:**
- **fullName length.** The controller accepts a fullName of 3..20 characters (`user.controller.js:51`), but the schema allows 3..15. The controller measures the name as sent, and the schema measures it after the `trim` setter. So a name of 3..20 characters whose trimmed length exceeds 15 (or falls below 3) passes every controller check and is refused by `User.create`. That is the `RecordRejected` error, a 500. A name such as "abc" followed by 13 spaces passes both.
- **The `validateBeforeSave: false` comment** (`user.controller.js:19`). The comment says the flag avoids re-hashing. It does not: only `isModified("password")` governs the hash. The flag only skips validation, and `Save` models that.
- **Guarded routes.** Every route except register, login and refresh runs after `isAuthenticated`. In the model, these handlers take the `caller` id that `AuthGuard.Authenticate` produced.

## Model

| member | source | states |
|---|---|---|
| Text.TrimStartSpec | src/models/user.model.js:14 | `trimStart` yields the longest suffix that does not start with white space, and everything it removed is white space. |
| Text.TrimEndSpec | src/models/user.model.js:14 | `trimEnd` yields the longest prefix that does not end with white space, and everything it removed is white space. |
| Text.Trim | src/models/user.model.js:14 | The `trim` setter; its result is never longer than its input. `TrimIsSlice` states what it keeps. |
| Text.TrimIsSlice | src/models/user.model.js:14 | `trim` returns a slice of its input with only white space outside it, and the slice neither starts nor ends with white space. |
| Text.BlankIffAllSpace | src/controllers/user.controller.js:33-38 | `!s?.trim()` holds for a present string exactly when all its characters are white space. |
| Text.TrimOfTrimmed | src/models/user.model.js:57 | A string with no white space at either end is its own trim. |
| Text.TrimmedIff | src/models/user.model.js:14 | The strings that `trim` leaves unchanged are exactly those with no white space at either end. |
| Text.NoUpperIff | src/models/user.model.js:13 | The strings that `toLowerCase` leaves unchanged are exactly those without upper-case letters. |
| Text.NormalizedIff | src/models/user.model.js:13-14 | A normalized string is a fixed point of both the `lowercase` and the `trim` setter. |
| Text.NormalizeIsNormalized | src/models/user.model.js:13-14 | The value the two setters store is trimmed and has no upper-case letter, and it is as long as the trimmed input. |
| Text.TrimIsTrimmed | src/models/user.model.js:34 | The value the `trim` setter stores has no white space at either end. |
| Text.LowerKeepsSpace | src/models/user.model.js:13 | Lower-casing neither creates nor removes white space. |
| Text.LowerChar | src/controllers/user.controller.js:422 | A lower-cased character is never an upper-case letter. |
| Text.Lower | src/controllers/user.controller.js:422 | `toLowerCase` keeps the length. |
| Text.RemoveFirst | src/middlewares/authentication.middleware.js:9 | `String.prototype.replace` with a string pattern and `""`. The result is never longer than the input. `RemoveFirstAbsent` and `RemoveFirstAt` state what it removes. |
| Text.RemoveFirstAbsent | src/middlewares/authentication.middleware.js:9 | `replace("Bearer ", "")` returns a header without the prefix unchanged. |
| Text.RemoveFirstAt | src/middlewares/authentication.middleware.js:9 | `replace` cuts out exactly the first occurrence of the pattern and keeps everything around it. |
| Text.OccursInTail | src/middlewares/authentication.middleware.js:9 | An occurrence in the tail of a string is an occurrence in the string one position later, and the reverse. |
| Text.AfterLast | src/controllers/user.controller.js:344 | `split("/").pop()` is a suffix with no `/`, preceded by a `/` or by nothing. |
| Text.BeforeFirst | src/controllers/user.controller.js:344 | `split(".")[0]` is a prefix with no `.`, followed by a `.` or by nothing. |
| Text.AfterLastOfSuffix | src/controllers/user.controller.js:344 | The text after a final separator is what `split(sep).pop()` returns. |
| Text.BeforeFirstOfPrefix | src/controllers/user.controller.js:344 | The text before a first separator is what `split(sep)[0]` returns. |
| UserModel.SchemaAccepts | src/models/user.model.js:7-75 | The schema's validators: username and fullName pass `NameRule`, the email is non-empty and valid, the avatar is non-empty, and the password is strong. `RegisterDecision` checks it before a record is created, and `RegisteredRecordWellFormed` relies on it. |
| UserModel.StoredRecord | src/models/user.model.js:7-47 | The invariant every stored record keeps: the validators hold, username and email went through `lowercase` and `trim`, and fullName through `trim`. `ValidAfterWrite` and the `UserStore` methods preserve it. |
| UserModel.Sanitize | src/controllers/user.controller.js:163-167 | `toObject()` with `password` and `refreshToken` deleted, as `sanitizeUser` does and as registration does inline at lines 121-123. `SanitizeHidesSecrets` states what it keeps and hides. |
| UserModel.SanitizeHidesSecrets | src/controllers/user.controller.js:121-123 | The public view depends neither on the password hash nor on the refresh token, and keeps every other field. |
| UserModel.IsPasswordCorrect | src/models/user.model.js:83-85 | bcrypt's comparison of the plaintext with the stored hash. `PasswordCorrectAfterHash` states when it holds. |
| UserModel.PasswordCorrectAfterHash | src/models/user.model.js:79-85 | After the hook stores `hash(q)`, `isPasswordCorrect(q)` holds, assuming only `compare(p, hash(p))`. |
| UserModel.GenerateAccessToken | src/models/user.model.js:88-94 | Signs {_id, email, username} with the access secret and lifetime. `AccessTokenClaims` states what verifying it yields. |
| UserModel.GenerateRefreshToken | src/models/user.model.js:97-103 | Signs {_id} with the refresh secret and lifetime. `RefreshTokenClaims` states what verifying it yields. |
| UserModel.AccessTokenClaims | src/models/user.model.js:88-94 | An access token verifies under the access secret as {_id, email, username} until its lifetime has passed. The default lifetime is 6 h, i.e. 21600 s. |
| UserModel.RefreshTokenClaims | src/models/user.model.js:97-103 | A refresh token verifies under the refresh secret as {_id} only, until its lifetime has passed. The default lifetime is 10 d, i.e. 864000 s. |
| UserModel.UserDocument.Hydrate | src/controllers/user.controller.js:15 | A loaded document has nothing modified. |
| UserModel.UserDocument.New | src/controllers/user.controller.js:108-115 | A created document counts its password as modified. |
| UserModel.UserDocument.SetPassword | src/models/user.model.js:54-57 | Assigning the password stores the trimmed value. It marks the path modified exactly when the value changes. |
| UserModel.UserDocument.SetRefreshToken | src/controllers/user.controller.js:18 | Assigning the refresh token changes only that field and does not mark the password modified. |
| UserModel.UserDocument.SetAvatar | src/controllers/user.controller.js:363 | Assigning the avatar changes only that field and does not mark the password modified. |
| UserModel.UserDocument.SetCoverImage | src/controllers/user.controller.js:403 | Assigning the cover image changes only that field and does not mark the password modified. |
| UserModel.UserDocument.PreSave | src/models/user.model.js:77-81 | The hook replaces the password with its hash if and only if the password path was modified. Every other field, and an unmodified password, are kept. |
| UserModel.UserDocument.MarkSaved | src/models/user.model.js:77-81 | After a save no path counts as modified. |
| AuthGuard.SelectAccessToken | src/middlewares/authentication.middleware.js:7-9 | A non-empty cookie is taken as it is. Without one, a token is selected exactly when an Authorization header is present. |
| AuthGuard.Authenticate | src/middlewares/authentication.middleware.js:7-21 | The result is Ok exactly when the selected token is non-empty and verifies under the access secret, and then it is the decoded `_id`. A missing token is `AccessTokenMissing`. Every failure is a 401. |
| AuthGuard.CookieWins | src/middlewares/authentication.middleware.js:8 | A non-empty cookie is used as it is, and the header is ignored. |
| AuthGuard.HeaderToken | src/middlewares/authentication.middleware.js:9 | Without a cookie, "Bearer t" gives t, a header without "Bearer " is used unchanged, and otherwise the first "Bearer " is cut out. No header and no cookie gives no token. |
| AuthGuard.IssuedAccessTokenAccepted | src/middlewares/authentication.middleware.js:14-21 | An issued access token presented as a cookie admits exactly its user until it expires, and is a 401 afterwards. The guard reads no stored state, so a logout does not revoke it. |
| AuthGuard.IssuedAccessTokenAcceptedFromHeader | src/middlewares/authentication.middleware.js:9-21 | The same holds for the token presented as "Authorization: Bearer &lt;token&gt;". |
| UserController.MatchesPasswordPattern | src/controllers/user.controller.js:54-58 | The controller's password pattern: at least 8 characters, each a letter, a digit or one of `@$!%*?&`, with at least one lower-case letter, one upper-case letter, one digit and one such symbol. `PatternImpliesSchema` relates it to the schema. |
| UserController.PatternImpliesSchema | src/controllers/user.controller.js:54-64 | A password that the controller's pattern accepts has no white space to trim, and it passes the schema's strong-password rule. |
| UserController.PatternSymbolIsSymbol | src/models/user.model.js:60-66 | Each special character `@$!%*?&` of the controller's pattern counts as a symbol for `isStrongPassword`. |
| UserController.RegisterErrorsDistinct | src/controllers/user.controller.js:33-115 | Each registration check raises its own error. |
| UserController.FirstFailedCheck | src/controllers/user.controller.js:33-115 | Every check before the returned index passes, and the check at that index fails, unless all checks pass. |
| UserController.RegisterDecision | src/controllers/user.controller.js:33-115 | An accepted record has the allocated id, no blank field, and passes the schema. Every refusal is a 400, 403, 409 or 500. |
| UserController.RegisteredRecordWellFormed | src/controllers/user.controller.js:81-115 | An accepted record has these properties: it is a well-formed stored record; its password is strong and exactly as typed; its email and username are not in use; it has no refresh token and an empty history; and its cover image is "" when none was uploaded. |
| UserController.RegisterFollowsCheckTable | src/controllers/user.controller.js:33-115 | The handler's chain of `if`s equals the check table read in order: the first failing check's error, or the new record. |
| UserController.RegisterFirstFailureWins | src/controllers/user.controller.js:33-115 | Registration fails with check k's error if and only if checks 0..k-1 pass and check k fails. It succeeds if and only if all ten checks pass. |
| UserController.LoginMissing | src/controllers/user.controller.js:136-138 | The 400 condition of login: both identifiers are missing or empty, or the password is. `UserStore.Login` returns `CredentialsRequired` exactly when it holds. |
| UserController.LoginMatches | src/controllers/user.controller.js:141-143 | The stored records that `findOne` with the `$or` of email and username may return: only ids of stored records. |
| UserController.LoginMatchesAtMostTwo | src/controllers/user.controller.js:141-143 | Under the unique indexes, at most two records match the `$or` of email and username. |
| UserController.PresentedRefreshToken | src/controllers/user.controller.js:226 | The cookie when it is non-empty, otherwise the body field. `CheckRefresh` states what is accepted. |
| UserController.CheckRefresh | src/controllers/user.controller.js:226-244 | The result is Ok exactly when the presented token is non-empty, verifies under the refresh secret, names a stored user, and equals that user's stored token. Every failure is a 401. |
| UserController.NoRefreshAfterLogout | src/controllers/user.controller.js:197-208 | Once the stored token is "", no refresh succeeds for that user, whatever is presented. |
| UserController.IssuedRefreshTokenAccepted | src/controllers/user.controller.js:232-244 | The stored, last-issued refresh token refreshes its user until it expires, and is refused as invalid afterwards. |
| UserController.SupersededRefreshTokenRejected | src/controllers/user.controller.js:242-244 | A refresh token signed for the user but no longer stored is refused as used until it expires, and as invalid afterwards. |
| UserController.SameSecondReplay | src/controllers/user.controller.js:245-247 | A refresh within the second of issue rotates the token into itself, so the same token is accepted again. |
| UserController.CurrentUser | src/controllers/user.controller.js:293-300 | The result is the caller's sanitized record exactly when the caller has a record. Otherwise it is a 500. |
| UserController.MediaPublicId | src/controllers/user.controller.js:344 | The media id contains neither `/` nor `.`. |
| UserController.MediaPublicIdOf | src/controllers/user.controller.js:343-346 | For ".../id.ext", the media id is `id`: the last `/`-segment up to its first `.`. |
| UserController.ValidAfterWrite | src/models/user.model.js:12-30 | Writing a well-formed record whose keys collide with no other record keeps the collection invariant. |
| UserController.ValidAfterInsert | src/controllers/user.controller.js:108-115 | A well-formed record with fresh keys, inserted under the next id, keeps the invariant, and that id was unused. |
| UserController.ValidAfterKeepingKeys | src/controllers/user.controller.js:18 | Rewriting a record without touching its username, email, fullName or avatar keeps the invariant. |
| UserController.UserStore.constructor | src/models/user.model.js:106 | An empty collection satisfies the invariant. |
| UserController.UserStore.Save | src/controllers/user.controller.js:19 | The hook runs, the document is written back under its id, and nothing is modified afterwards. |
| UserController.UserStore.GenerateTokens | src/controllers/user.controller.js:13-28 | Both tokens are signed for the stored record, and the stored refresh token becomes exactly the one returned. Nothing else changes. A missing record is a 500. |
| UserController.UserStore.SaveRefreshToken | src/controllers/user.controller.js:15-19 | Assigning and saving the refresh token changes only that field. The password hash is left alone and the invariant is kept. |
| UserController.UserStore.Create | src/controllers/user.controller.js:108-115 | The record is stored under a fresh id with its password hashed, and the counter moves on. |
| UserController.UserStore.Register | src/controllers/user.controller.js:30-131 | The result follows `RegisterDecision`. An accepted record is added under a fresh id with its password hashed, the id counter advances, and the record is returned sanitized. A refusal changes neither the records nor the counter. |
| UserController.UserStore.Login | src/controllers/user.controller.js:133-168 | The result is the 400 exactly when credentials are missing, and the 404 exactly when they are present and no record matches. Otherwise it is a 401 or a success: success when every match accepts the password, and a 401 only when some match refuses it. Tokens are issued only after the password check. The stored refresh token becomes the returned one, and nothing else changes. |
| UserController.UserStore.Logout | src/controllers/user.controller.js:197-208 | The caller's stored refresh token becomes "" and nothing else changes. A caller with no record is a no-op. |
| UserController.UserStore.RefreshAccessToken | src/controllers/user.controller.js:225-276 | On an accepted token, new tokens are issued as at login and the stored token becomes the new refresh token. On a refused token nothing changes. Every failure is a 401. |
| UserController.UserStore.SavePassword | src/controllers/user.controller.js:286-287 | The trimmed new password is stored, hashed exactly when it differs from the stored value. |
| UserController.UserStore.ChangeCurrentPassword | src/controllers/user.controller.js:278-291 | A missing record or old password is a 500. A wrong old password is a 400, exactly. After a correct old password, the result is a success exactly when the schema accepts the trimmed new password, and otherwise it is `PasswordRejected`, a 500. A success changes only the password. |
| UserController.UserStore.UpdateAccountDetails | src/controllers/user.controller.js:308-327 | The 400 comes exactly when a field is missing or empty. Invalid values or another record's email are 500s, each exactly in its case. A caller with no record gets no user, and the store is unchanged. Otherwise the update succeeds, and it changes only fullName and email, to their setter-applied values. |
| UserController.UserStore.WriteDetails | src/controllers/user.controller.js:313-322 | The `$set` replaces only fullName and email, and keeps the invariant when the email is unused elsewhere. |
| UserController.UserStore.UpdateAvatar | src/controllers/user.controller.js:330-368 | The old avatar's media id is deleted first. A failed upload is a 500, and an upload without a URL is a 400. An upload with a URL for an existing caller succeeds and changes only the avatar. |
| UserController.UserStore.SaveAvatar | src/controllers/user.controller.js:363-364 | Saving a non-empty avatar URL changes only the avatar and keeps the invariant. |
| UserController.UserStore.UpdateCoverImage | src/controllers/user.controller.js:371-408 | The same holds for the cover image, whose old media is deleted only when a non-empty URL was stored. An upload with a URL succeeds and changes only the cover image. |
| UserController.UserStore.SaveCoverImage | src/controllers/user.controller.js:403-404 | Saving a cover URL changes only the cover image and keeps the invariant. |
| ChannelReads.EdgesWhere | src/controllers/user.controller.js:426-441 | A lookup returns at most the edges it was given. |
| ChannelReads.EdgesWhereMembers | src/controllers/user.controller.js:426-441 | A lookup keeps exactly the edges whose channel (or subscriber) is the user. |
| ChannelReads.EdgesWhereCount | src/controllers/user.controller.js:443-445 | `$size` of a lookup is the number of matching edges, duplicates included. |
| ChannelReads.SubscriberIds | src/controllers/user.controller.js:449 | An id is in `"$subscribers.subscriber"`, which `$in` searches, exactly when it is the subscriber of one of the edges. |
| ChannelReads.SubscriberCountBounds | src/controllers/user.controller.js:444 | `subscribersCount` is at least the number of distinct subscribers, and equal to it when no pair is stored twice. |
| ChannelReads.DuplicateSubscriptionCountsTwice | src/models/subscription.model.js:3-16 | A subscription stored twice is counted twice although only one user subscribes. |
| ChannelReads.Profile | src/controllers/user.controller.js:426-468 | The `$lookup`, `$addFields` and `$project` stages for one matched user. `ProfileCounts` states its counts and `isSubscribed`. |
| ChannelReads.ProfileCounts | src/controllers/user.controller.js:443-467 | The counts are the numbers of edges into and out of the channel. `isSubscribed` holds exactly when the viewer-to-channel edge exists. |
| ChannelReads.UsersNamed | src/controllers/user.controller.js:419-425 | `$match` keeps exactly the users with that username. |
| ChannelReads.GetUserChannelProfile | src/controllers/user.controller.js:412-475 | A blank username is a 400. The result is a 404 exactly when no user has the lower-cased username. Otherwise it is the profile of a user with that username. |
| ChannelReads.ChannelProfileFacts | src/controllers/user.controller.js:419-474 | A found profile has the lower-cased username and reports the channel's edge counts and the viewer's subscription. |
| ChannelReads.FindById | src/controllers/user.controller.js:478-483 | The lookup by id finds a user exactly when one has that id, and the user found has it. |
| ChannelReads.HistoryEntries | src/controllers/user.controller.js:485-489 | The joined history has at most as many entries as there are videos. |
| ChannelReads.HistoryEntriesMembers | src/controllers/user.controller.js:485-516 | An entry is present exactly when it is a stored video whose id is in the history, paired with its publisher's projection. |
| ChannelReads.EmptyHistory | src/controllers/user.controller.js:485-489 | An empty history list joins to nothing. |
| ChannelReads.PublisherOf | src/controllers/user.controller.js:492-513 | The inner `$lookup` on users followed by `$first`, projected to fullName, username and avatar. `PublisherPresent` states when it exists and what it holds. |
| ChannelReads.PublisherPresent | src/controllers/user.controller.js:492-513 | The publisher projection exists exactly when the video names a stored user. It is then that user's name, username and avatar. |
| ChannelReads.GetWatchHistory | src/controllers/user.controller.js:477-522 | A caller with no record gets `[]`. For a caller with a record, an entry is present exactly when it is a stored video named in the caller's history, paired with its publisher's projection. |
| ChannelReads.NoHistoryNoEntries | src/controllers/user.controller.js:521 | A caller with no history gets `[]`, not an error. |
| ChannelReads.TwoWatchedVideos | src/models/video.model.js:35-38 | Two watched videos by one stored publisher come back as two entries, each carrying the publisher's projection, in the order the model gives lookups (the videos collection's order). |

## Left out

- **Media host** (`src/utils/cloudinary.js`, `fs.unlinkSync`). It is foreign I/O.
  - An upload is an input `Upload` value.
  - A deletion is returned as the media id it targets, with no effect on the store.
  - Uploading the cover image at registration is the request's `coverImage` field.
  - The controller imports `deleteMediaFromCloudinary`, which `src/utils/cloudinary.js` does not export. As written, loading the controller would fail. The model treats deletion as the effect the handlers intend.
- **bcrypt, jsonwebtoken and validator.** They are function values with only the stated axioms.
  - Not modelled: the hash's cost and salt, token encoding, clock skew, and the algorithm of `validator.isEmail`.
  - Expiry strings such as "6h" and "10d" are seconds: `accessExpiry` and `refreshExpiry` of `TokenConfig`.
  - Nothing is assumed about a rotated token differing from the old one.
- **Unicode.** `toLowerCase` is modelled on ASCII letters only.
  - Lengths are counted in Unicode scalar values, one per Dafny `char`.
  - `NameRule` and `StrongPassword` therefore differ from the source on characters outside the Basic Multilingual Plane. In the source, Mongoose's `minlength`/`maxlength` and `isStrongPassword`'s `password.length` count UTF-16 code units, so a surrogate pair counts twice there.
  - `RegisterCheck`'s fullName length also differs from `validator.isLength` in the source, which does not count U+FE0E and U+FE0F.
- **MongoDB and Mongoose mechanics.**
  - Connection handling, ObjectId casting and creation (ids come from a counter), and timestamps are not modelled.
  - `findOne`'s choice among several matches is not modelled: `UserStore.Login` picks any match.
  - The database promises no order for `$lookup` results. As a modelling choice, the model lists them in the order of the collection looked up. For the watch history that is the videos collection's order, not the history's. Only `ChannelReads.TwoWatchedVideos` depends on this order; the other contracts state membership and counts.
  - A login field that is absent is assumed to match no record.
- **HTTP wiring.** Left out: cookies and their lifetimes, `ApiResponse` envelopes, status 201, the routes, multer, and `asyncHandler`.
- **Concurrency.** The read-compare-write race between two refreshes is not modelled; calls are sequential.
- **GetWatchHistory.** It does not reproduce a runtime failure. `getWatchHistory` refers to `mongoose`, which the controller does not import (`user.controller.js:481`), so as written every call throws. The model gives the pipeline's intended result.
- **ChannelReads.Profile.** `isSubscribed` compares ids by identity. The handler compares the caller's id as a string with ObjectIds (`user.controller.js:449`), which would always give false.
- UserController.CheckRefresh, UserController.UserStore.RefreshAccessToken and UserController.UserStore.Login: the model assumes the configuration is valid and that writes succeed.
  - A valid configuration means both secrets are set and both expiry strings parse.
  - Under that assumption, issuing tokens for a user who has been found cannot fail.
  - In the source, `jwt.sign` throws on an unset secret or a malformed expiry, and `save` can fail (`user.controller.js:13-28`). `loginUser` then answers 500, and `refreshAccessToken` answers 401.
  - The model's Login therefore never returns `TokenGenerationFailed`. `GenerateTokens` returns it only for a missing record.
  - `RefreshAccessToken` still states that every failure it returns is a 401.
- **Non-string request fields.** Request fields are `Option<string>`: a field is absent or a string. The app parses JSON and `urlencoded({extended: true})` bodies, so a field can also be an object or an array. Two consequences are not modelled:
  - In login's `findOne` (`user.controller.js:141-143`), an object such as `email[$ne]=` becomes a query operator.
  - In `registerUser`, calling `.trim` on a non-string throws, giving a 500.
- **Commented-out code.** The commented-out alternative implementations in the controller are not modelled.
