/**
  The failure branches of the user controller and the authentication middleware, one constructor per
  place that throws. Most are `ApiError`s carrying an explicit status; the ones marked "500" are
  exceptions that are not `ApiError`s (a null dereference, a Mongoose validation or duplicate-key
  error, bcrypt rejecting an undefined argument), which the HTTP layer answers with status 500.
*/
module Errors {

  datatype Error =
    // registerUser
    | FieldsRequired          // a blank field, 400
    | InvalidEmail            // validator.isEmail fails, 403
    | FullNameLength          // fullName outside 3..20 characters, 403
    | WeakPassword            // password does not match the controller's pattern, 400
    | PasswordsDiffer         // password !== confirmPassword, 403
    | EmailRegistered         // 409
    | UsernameTaken           // 409
    | AvatarFileMissing       // no avatar file in the request, 400
    | AvatarNotUploaded       // the media store returned nothing for the avatar, 400
    | RecordRejected          // the schema's validators refuse the new document, 500
    // loginUser
    | CredentialsRequired     // 400
    | UserNotRegistered       // 404
    | InvalidCredentials      // 401
    // generateAccessAndRefreshToken
    | TokenGenerationFailed   // 500
    // refreshAccessToken: all of them 401
    | RefreshTokenMissing
    | RefreshTokenInvalid
    | RefreshUserUnknown
    | RefreshTokenReused
    // isAuthenticated: both 401
    | AccessTokenMissing
    | AccessTokenInvalid
    // profile operations
    | UserRecordMissing       // findById returned null and the handler dereferences it, 500
    | PasswordArgumentMissing // bcrypt.compare rejects an undefined plaintext, 500
    | WrongOldPassword        // 400
    | PasswordRejected        // the schema's password validators refuse the new password, 500
    | DetailsRequired         // 400
    | DetailsRejected         // update validators refuse fullName or email, 500
    | DuplicateKey            // the unique index on email refuses the update, 500
    | MediaFileMissing        // 400
    | UserNotFound            // 404
    | UploadWithoutUrl        // the media store answered without a URL, 400
    | UploadCrashed           // the media store answered nothing and the handler reads `.url` of it, 500
    // getUserChannelprofile
    | UsernameRequired        // 400
    | ChannelNotFound         // 404

  /** The HTTP status each failure is answered with. */
  function Status(e: Error): nat {
    match e
    case FieldsRequired | WeakPassword | AvatarFileMissing | AvatarNotUploaded
       | CredentialsRequired | WrongOldPassword | DetailsRequired | MediaFileMissing
       | UploadWithoutUrl | UsernameRequired => 400
    case InvalidCredentials | RefreshTokenMissing | RefreshTokenInvalid | RefreshUserUnknown
       | RefreshTokenReused | AccessTokenMissing | AccessTokenInvalid => 401
    case InvalidEmail | FullNameLength | PasswordsDiffer => 403
    case UserNotRegistered | UserNotFound | ChannelNotFound => 404
    case EmailRegistered | UsernameTaken => 409
    case RecordRejected | TokenGenerationFailed | UserRecordMissing | PasswordArgumentMissing
       | PasswordRejected | DetailsRejected | DuplicateKey | UploadCrashed => 500
  }
}
