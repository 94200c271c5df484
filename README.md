# Monter-RestApi account and OTP state machine, in Dafny

This project models the account-authentication core of the Monter REST API: the
two Express controllers that register an account, confirm it with a one-time
passcode (OTP), record a freshly issued refresh token, change the password and
patch the profile. The MongoDB collections are an in-memory store (`Store.Db`):
a table of user records keyed by document id, and the OTP records in creation
order. One counter stamps every new document with its id and its `createdAt`.

Each controller that changes the store appears twice:

- as a function `…Step(s, inputs)` that returns the store afterwards and the
  answer (an `ApiError` with its status code, or the reply). The lemmas are
  about these functions.
- as a method on a `Db` that checks the same guards in the same order and
  then updates the fields in place. Each method's `ensures` ties the new
  state and its answer to the `…Step` function.

`getCurrentUser` changes nothing and appears only as the function
`UserController.GetCurrentUser`.

Request-body fields are JavaScript values (`Json.JValue`: undefined, null,
boolean, number, string, array, object), as the JSON and extended urlencoded
body parsers of src/app.js:14-15 deliver them. This lets the model follow the
code's own tests:

- `field?.trim() === ""`, where an absent field passes and a number, boolean,
  array or object throws;
- strict `!==` on the OTP, where the number 1234 and the string "1234" differ;
- truthiness in the profile patch, where `0` and `""` count as absent and any
  array or object, even an empty one, counts as present.

The module `Sessions` runs any sequence of these operations. Over a run it
proves:

- emails stay unique;
- a consumed OTP record never comes back;
- starting from an empty store, every account holds at most one OTP record,
  so a verified code cannot be replayed;
- only token issuing changes which refresh token the store honours.

Modelling choices:

- `Math.random()` is an input `rand` in [0, 1), computed with exact reals.
  The code is `Floor(1000 + rand * 9000)`.
- Password hashing is symbolic. The stored credential is `Hashed(secret)`, and
  `isPasswordCorrect(c)` holds exactly when the stored value is `Hashed(c)`.
- JWT minting is an input `minted: Option<TokenPair>`. `None` stands for the
  library throwing.
- An exception that is not an `ApiError` gives status 500. Two are modelled:
  the TypeError from `trim` on a number, boolean, array or object, and the TypeError from
  calling a method on a `null` user. No error middleware is installed in
  `src/app.js`, so Express's default handler answers these with 500.
- `User.findOneAndUpdate({ email })` is modelled as updating every record with
  that email. Under the store invariant (unique emails) that is at most one.
- `findByIdAndUpdate` for an id that matches no record returns `null`. The
  model then replies 201 with no data (`None`) and leaves the store unchanged.

## Model

| member | source | states |
|---|---|---|
| `Json.Truthy` | src/controllers/user.controller.js:34-47 | JavaScript truthiness: `undefined`, `null`, `false`, `0` and `""` are falsy; every other value, including every array and object, is truthy. |
| `Json.IsJsWhitespace` | src/controllers/auth.controller.js:30 | The characters `trim` strips: ECMAScript WhiteSpace and LineTerminator. |
| `Json.Trim` | src/controllers/auth.controller.js:30 | `trim` removes only whitespace, and only from the two ends. The result neither starts nor ends with whitespace. |
| `Json.TrimEmptyIff` | src/controllers/auth.controller.js:30 | A string trims to `""` exactly when all of its characters are whitespace. |
| `Json.TestField` | src/controllers/auth.controller.js:30 | `field?.trim() === ""` is true exactly for an all-whitespace string. A number, boolean, array or object throws. An absent or null field passes. |
| `Json.SomeBlank` | src/controllers/auth.controller.js:30 | `.some` over the fields: the result is "not blank" only if every field passes. Otherwise the first field that does not pass decides, whether it is blank or throws. |
| `Json.SomeBlankPair` | src/controllers/auth.controller.js:30 | The password is tested only when the email passes. |
| `Store.IsPasswordCorrect` | src/controllers/user.controller.js:10 | `user.isPasswordCorrect(candidate)`: the candidate opens the account exactly when the stored credential is its hash. |
| `Store.HasEmail` | src/controllers/auth.controller.js:34-38 | `User.findOne({ $or: [{ email }] })` finds a record exactly when some user holds that email. |
| `Store.Redact` | src/controllers/user.controller.js:51 | `.select("-password -refreshToken")`: the view keeps id, email, verification flag and profile fields, and drops the credentials. |
| `Store.Db.constructor` | src/controllers/auth.controller.js:34-55 | The two collections the controllers use, users by id and OTP records in creation order, start empty and valid. |
| `Store.NewUser` | src/controllers/auth.controller.js:43-46 | A new account is unverified, has no refresh token and no profile fields, and accepts the registered password. |
| `Store.Newest` | src/controllers/auth.controller.js:89 | `None` exactly when no record has the email. Otherwise it returns a record with that email and the greatest `createdAt`. |
| `Store.NewestIsLast` | src/controllers/auth.controller.js:89 | In a store that keeps the invariant, the newest record for an email is the last one in creation order with that email (both directions). |
| `Store.DeleteById` | src/controllers/auth.controller.js:100 | Deleting by id keeps only records that were already present. With no record of that id, nothing changes. With one, exactly one record fewer remains. |
| `Store.DeleteByIdAt` | src/controllers/auth.controller.js:100 | With distinct ids, deleting by the id of record `i` removes record `i` and keeps every other record in order. |
| `Store.RemovalKeepsOrdered` | src/controllers/auth.controller.js:100 | Deleting one OTP record leaves the others in creation order, with ids and stamps below the counter. |
| `Store.AddUserKeepsUnique` | src/controllers/auth.controller.js:34-46 | Creating a user under an email no account holds, as registration does after its lookup, keeps emails unique. |
| `Store.AppendKeepsOrdered` | src/controllers/auth.controller.js:52-55 | Appending an OTP record stamped with the counter, and advancing the counter, keeps the records in creation order. |
| `Store.RedactDropsExactlyCredentials` | src/controllers/user.controller.js:51 | Two records have the same redacted view exactly when they differ at most in password and refresh token. |
| `AuthController.OtpFromRandom` | src/controllers/auth.controller.js:49 | The OTP drawn is between 1000 and 9999. |
| `AuthController.EveryCodeDrawable` | src/controllers/auth.controller.js:49 | Every code from 1000 to 9999 can be drawn. |
| `AuthController.RegisterStep` | src/controllers/auth.controller.js:27-56 | Any error leaves the store unchanged. The model states exactly when each error happens: 500 when `trim` throws; 401 "All fields are required" when the first field that does not pass is blank; 401 "already exists" when the email is taken. It succeeds exactly when both fields pass and the email is unused. On success it adds one unverified user under a fresh id and changes no other user. It also appends one OTP record for the email, whose code is the one returned and lies in 1000..9999. |
| `AuthController.RegisterKeepsInv` | src/controllers/auth.controller.js:34-55 | Registration keeps the store invariant. The new user and OTP record take fresh ids below the counter, the OTP record is the newest, and the email was not in use, so emails stay unique. |
| `AuthController.RegisterUser` | src/controllers/auth.controller.js:27-56 | The in-place registration leaves exactly the store and answer of `RegisterStep`, and keeps the store valid. |
| `AuthController.RegisterRejectsBlank` | src/controllers/auth.controller.js:30-32 | An email that trims to `""`, whatever the password, or a password that trims to `""` after an email that passes, gives 401 and the store is unchanged. |
| `AuthController.AbsentFieldsPassBlankCheck` | src/controllers/auth.controller.js:30-32 | Absent email and password are not caught by the blank check. Registration succeeds if no stored user has an absent email. |
| `AuthController.SecondRegisterConflicts` | src/controllers/auth.controller.js:34-40 | After a successful registration, registering the same email again, with a second password that is a non-blank string, absent or null, gives 401 "already exists" and changes nothing. A blank second password gets 401 "All fields are required" instead, and a second password that makes `trim` throw gets 500. |
| `AuthController.MarkVerified` | src/controllers/auth.controller.js:97 | Every user with the email becomes verified, every other user keeps its flag, and nothing else about any record changes. With unique emails, at most one record changes. |
| `AuthController.VerifyOtpStep` | src/controllers/auth.controller.js:86-105 | Success happens exactly when a record exists for the email and the newest one's code strictly equals the supplied value. Any failure is 400 "Invalid OTP" and the store is unchanged. On success, the users with that email become verified and nothing else about any user changes. Only the matched record is removed from the OTP sequence. |
| `AuthController.VerifyKeepsInv` | src/controllers/auth.controller.js:97-100 | Verification keeps the store invariant: accounts keep their emails, and the remaining OTP records stay in creation order. |
| `AuthController.VerifyOtp` | src/controllers/auth.controller.js:86-105 | The in-place verification leaves exactly the store and answer of `VerifyOtpStep`, and keeps the store valid. |
| `AuthController.OlderMatchIgnored` | src/controllers/auth.controller.js:89-94 | An older record with the supplied code is not accepted when the newest record for the email has a different code. No store reached from the empty store by the modelled operations has two records for one email (`Sessions.ReachableIsHealthy`), so this covers only a store seeded otherwise. |
| `AuthController.ConsumedRecordGone` | src/controllers/auth.controller.js:100 | After a successful verification, no remaining record carries the consumed record's id. |
| `AuthController.FreshCodeVerifies` | src/controllers/auth.controller.js:49-55 | After a successful registration, sending back the mailed code as the number it was stored as verifies the email, and the new account becomes verified (with the OTP stored as a number; see Left out). |
| `AuthController.TextCodeRefused` | src/controllers/auth.controller.js:92 | After a successful registration, any string sent as the code is refused with 400 and nothing changes, because the code is stored as a number and compared with `!==` (with the OTP stored as a number; see Left out). Under this storage a client posting urlencoded data, which the parser at src/app.js:15 delivers only as strings, can never verify. |
| `AuthController.TokensStep` | src/controllers/auth.controller.js:9-25 | An unknown user or a minting failure gives 500 with the store unchanged. On success the user's stored refresh token is replaced by the issued one, and the same pair is returned. Nothing else changes. |
| `AuthController.GenerateAccessAndRefreshTokens` | src/controllers/auth.controller.js:9-25 | The in-place version leaves exactly the store and answer of `TokensStep`. |
| `AuthController.IssueRevokesEarlierRefresh` | src/controllers/auth.controller.js:15-16 | After issuing, the store honours a refresh token for that user exactly when it is the one just returned. |
| `UserController.ChangePasswordStep` | src/controllers/user.controller.js:6-22 | A missing user gives 500. A wrong old password gives 401 "Invalid old password" with nothing changed. It succeeds exactly when the user exists and the old password is correct. On success only that user's password changes, and the new password matches it. |
| `UserController.ChangeCurrentPassword` | src/controllers/user.controller.js:6-22 | The in-place change leaves exactly the store and answer of `ChangePasswordStep`. |
| `UserController.OldPasswordRetired` | src/controllers/user.controller.js:10-17 | After a change, a further change that presents the previous password succeeds exactly when the previous and new passwords were equal. The "only if" rests on the symbolic hash being injective; a real hash with collisions or input truncation would not give it. |
| `UserController.PasswordChangeKeepsSessions` | src/controllers/user.controller.js:16-17 | A password change does not change which refresh tokens are honoured. |
| `UserController.PatchOf` | src/controllers/user.controller.js:44-48 | A field goes into the `$set` document exactly when the request's value for it is truthy, and it carries that value. |
| `UserController.ApplyPatch` | src/controllers/user.controller.js:41-50 | A field present in the patch takes the patch's value, an absent one keeps the old value, and nothing outside location, age and workDetails is touched. An empty patch changes nothing. |
| `UserController.ApplyPatchIdempotent` | src/controllers/user.controller.js:41-50 | Applying the same patch twice equals applying it once. |
| `UserController.UpdateAccountStep` | src/controllers/user.controller.js:30-57 | It fails exactly when no field is truthy, with 401 and the store unchanged. Otherwise only the truthy fields are overwritten. Email, password, `isVerified`, refresh token and all other users are unchanged. The reply carries the redacted updated record, or no data for an unknown id. |
| `UserController.UpdateAccountDetails` | src/controllers/user.controller.js:30-57 | The in-place `$set` leaves exactly the store and answer of `UpdateAccountStep`. |
| `UserController.UpdateIdempotent` | src/controllers/user.controller.js:41-50 | Sending the same update twice gives the same store and the same reply as sending it once. |
| `UserController.GetCurrentUser` | src/controllers/user.controller.js:24-28 | Replies 201 with the request's user, unchanged. |
| `Sessions.Exec` | src/controllers/auth.controller.js:27-105 | Every single operation keeps the store invariant. |
| `Sessions.Run` | src/controllers/auth.controller.js:34-46 | Any sequence of operations keeps the invariant, in particular unique emails. The counter never goes back. |
| `Sessions.ExecStampsFresh` | src/controllers/auth.controller.js:52-55 | Every OTP record after an operation was already present, or carries an id the counter had not yet issued. |
| `Sessions.AbsentIdStaysAbsent` | src/controllers/auth.controller.js:100 | An id already issued but absent from the OTP records stays absent after any sequence of operations. |
| `Sessions.ConsumedNeverMatchesAgain` | src/controllers/auth.controller.js:97-100 | The record consumed by a successful verification is absent after any later sequence of operations, so it can never be matched again. |
| `Sessions.ExecKeepsOtpPerAccount` | src/controllers/auth.controller.js:27-105 | Every single operation keeps each OTP record tied to a distinct registered account. |
| `Sessions.RegisterKeepsOtpPerAccount` | src/controllers/auth.controller.js:34-55 | Registration appends a record only for an email that no account holds yet. |
| `Sessions.VerifyKeepsOtpPerAccount` | src/controllers/auth.controller.js:97-100 | Verification removes a record and renames no account. |
| `Sessions.RunKeepsOtpPerAccount` | src/controllers/auth.controller.js:34-100 | From a store where each OTP record belongs to a distinct registered account, every run keeps that so. |
| `Sessions.ReplayRefused` | src/controllers/auth.controller.js:89-100 | With one record per account, after a successful verification any further verification for that email gets 400 and changes nothing. |
| `Sessions.ReachableIsHealthy` | src/controllers/auth.controller.js:34-100 | Every store that some run from the empty store reaches keeps the invariant and holds at most one OTP record per account, each for a registered account. |
| `Sessions.ReplayRefusedAfterAnyRun` | src/controllers/auth.controller.js:89-100 | In any store reached from the empty store, after a successful verification, any further verification for that email gets 400 and changes nothing. |
| `Sessions.OnlyIssuingMovesTheAnchor` | src/controllers/auth.controller.js:15-16 | Registration, verification, password change and profile update leave the honoured refresh tokens as they were. |

## Left out

- Email delivery through nodemailer (src/controllers/auth.controller.js:58-82) is network I/O. `RegisterStep` ends once the OTP is handed over for mailing. The user and OTP rows are stored before the mail is sent, so a failed send rolls nothing back. The error thrown inside the mail callback escapes the request handler, and it is not modelled.
- The 201 reply of registerUser is sent from the mail callback, so it is not part of `RegisterStep`'s answer.
- `Math.random` is floating point. It is modelled as an exact real in [0, 1), and IEEE rounding of `1000 + r * 9000` is not modelled.
- Json.JValue: an array or object in the request body is compared by equality wherever the code passes it to a query (src/controllers/auth.controller.js:34-38, :89, :97). MongoDB reads an object such as `{"$ne": null}` as a query operator, so `findOne` would return the newest record of any email and `findOneAndUpdate` would verify whichever user matched first. Operator queries are not modelled.
- Numbers in the request body are integers in the model. Fractional numbers and NaN are not modelled, which matters only for the truthiness of `age`.
- Password hashing and `isPasswordCorrect` live in the user model, src/models/user.model.js, which is not part of this model. The hash is a symbolic injective constructor: salting is not modelled and there are no collisions.
- `generateAccessToken` and `generateRefreshToken` live in the same user model. They are represented only by their results (the `minted` input). JWT claims, signatures and lifetimes are not modelled.
- The Mongoose schemas are not part of this model. Required fields, type casting (for example of the stored OTP or of `age`), defaults and unique indexes are not modelled. Values are stored as supplied, and queries compare values for equality. In particular, the store keeps the OTP as the number computed at src/controllers/auth.controller.js:49. If the OTP schema declared the field as a string, the stored code would be text, and `FreshCodeVerifies` and `TextCodeRefused` would be reversed.
- The `verifyJWT` middleware is not part of this model. The user id is an input of the user-controller operations, and `GetCurrentUser` takes the attached user as given.
- `loginUser`, `logoutUser` and `resendOTP` are imported at src/routes/auth.route.js:3-7 but not defined in the controller, so they are not modelled. Without `resendOTP`, only registration creates OTP records. That is why every reachable store holds at most one record per account.
- Routing, CORS, cookies, `asyncHandler` and the ApiResponse/ApiError envelope are not modelled beyond status code, message and data (src/app.js, src/routes/*).
- Concurrent requests are not modelled. Each store call is one atomic step, and operations run one after another.
- Store failures are not modelled: `save`, `create` and `deleteOne` always succeed.
