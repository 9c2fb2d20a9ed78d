# Image-transform backend: authentication and image handlers in Dafny

This project models the decision logic of an Express backend that lets users
sign up, sign in, and upload images to be blurred, greyscaled or resized. The
model covers:

- the three auth handlers (`signUp`, `signIn`, `checkStatus`) over a user table;
- the bearer-token middleware that guards the image routes;
- the three transform handlers with their parameter checks and temporary-file cleanup;
- the two image listings.

Password hashing (bcrypt), tokens (JWT), the imaging library (Jimp), UUIDs and
the clock are abstract. Handlers receive them as parameters: a `Primitives`
value holding `hash`, `compare`, `sign` and `verify` functions, a fresh name,
and a timestamp. The handlers do not need the usual round trip
`verify(sign(id)) = id` as an axiom. It is the predicate `Crypto.Sound`, and
only the lemmas that compose handlers assume it. Database and library failures
are explicit fault parameters (`StoreFault`, `ProcessFault`, booleans). Each
one says which call inside a handler's `try` block throws.

The project has these modules:

- `JsString`: the JavaScript semantics the code depends on. This is the `\s`
  class, `String.length` in UTF-16 code units, `split` on one character, and
  `parseInt` with no radix (section 19.2.5 of ECMA-262: leading white space,
  sign, `0x` prefix, longest digit prefix).
- `NodePath`: Node's POSIX `path.extname`.
- `Headers`: the token is `authorization?.split(' ')[1]`.
- `Entities`, `Http`, `Crypto`: the row types, the responses and the abstract primitives.
- `Users`: the user table. A `UserRepository` class holds the rows. Its `findOneBy` lookups are loops proved against recursive reference functions.
- `AuthController`: the email pattern, `validateEmailAndPassword` and the three auth handlers. Each handler is a method proved equal to a pure outcome function, and lemmas state the properties of those functions.
- `AuthMiddleware`: the decision function `Authorize`, and a method `Run` over an `Exchange` object. `Run` sets `req.user` and counts calls to `next`, or writes a 401.
- `ImageStore`: the owner filter and the newest-first ordering.
- `ImageController`: parameter validation, file name and URL construction, and the outcome of a transform call. An `ImageService` class holds the temporary files, the written output files and the `image` rows. Its handler methods are proved against the outcome function.
- `Flows`: what happens when handlers are composed. For example, a token issued at sign-up passes the middleware for the new user.

The image handlers do not remove the staged upload when their `try` block
throws (back/src/controllers/images.ts:43-45, 67-69 and 100-102): the 500 path
leaves it on disk. See `ImageController.FailureKeepsTempFile`.

## Model

| member | source | states |
|---|---|---|
| `JsString.Utf16Length` | back/src/controllers/auth.ts:94 | `password.length` counts UTF-16 code units: at least one and at most two per character |
| `JsString.Split` | back/src/middleware/authMiddleware.ts:8 | `split(' ')` gives at least one piece, and no piece contains the separator |
| `JsString.JoinSplit` | back/src/middleware/authMiddleware.ts:8 | joining the pieces of a split with the separator gives the original header back |
| `JsString.SplitJoin` | back/src/middleware/authMiddleware.ts:8 | splitting a join of separator-free pieces gives the pieces back |
| `JsString.DecimalStringValue` | back/src/controllers/images.ts:15 | the digits of a decimal rendering have the rendered number as their value |
| `JsString.ParseInt` | back/src/controllers/images.ts:15 | defined as `parseInt(s)` with no radix (section 19.2.5 of ECMA-262): leading white space is skipped, then an optional `-` or `+`, then a `0x`/`0X` prefix for hexadecimal, then the longest digit prefix; `None` (NaN) when no digit follows. Its contract is stated by `ParseIntDecimal`, `ParseIntNegativeDecimal` and `ParseIntNaN` |
| `JsString.ParseIntField` | back/src/controllers/images.ts:73-74 | defined as `parseInt(req.body.w)`: an absent field is `undefined`, which converts to the string "undefined". `BlurRejects` and `ResizeAcceptsPositive` state that an absent field is rejected |
| `JsString.ParseIntDecimal` | back/src/controllers/images.ts:15 | `parseInt` reads a decimal natural number back, ignoring trailing non-digit text such as "px" or "x" as in "5x" (except an `x` right after a lone `0`, which starts a hexadecimal number) |
| `JsString.ParseIntNegativeDecimal` | back/src/controllers/images.ts:73-74 | `parseInt` reads a `-`-prefixed decimal number back as its negative, with the same trailing text ignored |
| `JsString.ParseIntNaN` | back/src/controllers/images.ts:15 | a string that does not start with a sign, a digit or white space parses to NaN |
| `NodePath.ExtName` | back/src/controllers/images.ts:112 | defined as Node's POSIX `path.extname`: the base name (trailing slashes dropped) from its last `.`. The result is empty when there is no dot, when the dot is the first character, or when the base name is `..`. Its contract is stated by `ExtNameShape` and `ExtNameOfFreshName` |
| `NodePath.ExtNameShape` | back/src/controllers/images.ts:112 | `path.extname` is empty, or a `.` followed by text containing no `.` and no `/` |
| `NodePath.ExtNameOfFreshName` | back/src/controllers/images.ts:112 | a stem with no `.` or `/` followed by an extension has exactly that extension |
| `Headers.TokenFromHeader` | back/src/middleware/authMiddleware.ts:8 | the extracted token is absent when the header is absent, and never contains a space |
| `Headers.TokenFromHeaderAt` | back/src/middleware/authMiddleware.ts:8 | the token is the text between the first space and the next space (or the end), and absent when there is no space |
| `Headers.TokenOfScheme` | back/src/middleware/authMiddleware.ts:8 | "Bearer abc" yields "abc": the token after any one-word scheme |
| `Headers.TokenMissingIff` | back/src/middleware/authMiddleware.ts:8-13 | no usable token iff the header is missing, has no space, or has a space or the end right after its first space |
| `Users.FindByEmail` | back/src/controllers/auth.ts:20 | `findOneBy({ email })` returns a stored row with that email, and returns nothing iff no row has it |
| `Users.FindById` | back/src/controllers/auth.ts:111 | `findOneBy({ id })` returns a stored row with that id, and returns nothing iff no row has it |
| `Users.FindByEmailUnique` | back/src/controllers/auth.ts:61 | with unique emails, the lookup returns the one row carrying the email |
| `Users.FindByIdDense` | back/src/middleware/authMiddleware.ts:18 | with auto-increment ids, the lookup by id is row id-1, or nothing when the id is out of range |
| `Users.UserRepository.FindOneByEmail` | back/src/controllers/auth.ts:20 | the scan over the table returns exactly the reference lookup's row |
| `Users.UserRepository.FindOneById` | back/src/controllers/auth.ts:111 | the scan over the table returns exactly the reference lookup's row |
| `Users.UserRepository.Save` | back/src/controllers/auth.ts:27-32 | one row is appended, with the next id and the given name, email and hash; nothing else changes |
| `AuthController.TestEmail` | back/src/controllers/auth.ts:88-90 | defined as `emailRegex.test(email)`, decided at the first `@`: a non-empty local part without white space or `@`, then a domain of such characters with a `.` that is neither its first nor its last character. `TestEmailMatchesPattern` proves it equal to the pattern read part by part, and `TestEmailExcludes` states what it rejects |
| `AuthController.TestEmailMatchesPattern` | back/src/controllers/auth.ts:88-90 | the computed email test accepts exactly the strings `^[^\s@]+@[^\s@]+\.[^\s@]+$` matches |
| `AuthController.TestEmailExcludes` | back/src/controllers/auth.ts:88-90 | an accepted email contains an `@` and no white space |
| `AuthController.ValidateEmailAndPassword` | back/src/controllers/auth.ts:87-99 | null iff the email matches the pattern and the password has at least 6 code units; email error first, then password error, both 400 |
| `AuthController.SignUpOutcome` | back/src/controllers/auth.ts:6-45 | defined as the new table and the response of `signUp`, in the source's order: 400 for a falsy field, then the validation error, then 500 if the lookup throws, then 400 for an existing email, then 500 if hashing or saving throws, else the next-id row is appended and 201 is answered. It is stated by `SignUpRequiresAllFields`, `SignUpValidationOrder`, `SignUpRejectsDuplicate`, `SignUpSuccess` and `SignUpPreservesInvariants` |
| `AuthController.SignUp` | back/src/controllers/auth.ts:6-45 | the handler's new table and response are exactly the sign-up outcome of the old table |
| `AuthController.SignUpRequiresAllFields` | back/src/controllers/auth.ts:9-12 | a missing or empty name, email or password gives 400 "Name, email, and password are required" and changes nothing |
| `AuthController.SignUpValidationOrder` | back/src/controllers/auth.ts:13-17 | a bad email gives 400 "Invalid email format" whatever the password; a short password gives its 400 only after the email passed; table unchanged |
| `AuthController.SignUpRejectsDuplicate` | back/src/controllers/auth.ts:20-24 | an email already stored gives 400 "User already exists" and adds nothing |
| `AuthController.SignUpSuccess` | back/src/controllers/auth.ts:26-41 | 201 iff every check passes, the email is new and nothing throws; then exactly one row holding `hash(password)` is appended, and the body has only id, name, email and `sign(id)`; otherwise the table is unchanged |
| `AuthController.SignUpPreservesInvariants` | back/src/controllers/auth.ts:19-32 | auto-increment ids and unique emails survive every sign-up |
| `AuthController.SignUpRunUniqueEmails` | back/src/controllers/auth.ts:20-32 | in any sequential run of sign-ups, no two users share an email |
| `AuthController.SignInOutcome` | back/src/controllers/auth.ts:47-85 | defined as the response of `signIn`: 400 for a falsy field, then the validation error, then 500 if the lookup throws, then 400 "Invalid email" for an unknown email, then 500 if the compare throws, then 400 "Invalid password", else 200 with the public fields and a token; the table is never written. It is stated by `SignInCases` and `SignInSuccessIsStoredUser` |
| `AuthController.SignIn` | back/src/controllers/auth.ts:47-85 | the handler's response is the sign-in outcome; the table is only read |
| `AuthController.SignInCases` | back/src/controllers/auth.ts:61-81 | unknown email gives 400 "Invalid email"; a failed compare gives 400 "Invalid password"; success gives 200 with the stored user's public fields and a token for its id |
| `AuthController.SignInSuccessIsStoredUser` | back/src/controllers/auth.ts:67-81 | a 200 is always for a stored user with that email whose hash matched the password |
| `AuthController.CheckStatusOutcome` | back/src/controllers/auth.ts:102-128 | defined as the response of `checkStatus`: 401 "No token provided" without a truthy token, 401 "Invalid token" when verification fails, the payload has no id, the lookup throws or the user is missing, else 200 with a fresh token. It is stated by `CheckStatusCases` and `CheckStatusAgreesWithAuthorize` |
| `AuthController.CheckStatus` | back/src/controllers/auth.ts:102-127 | the handler's response is the status-check outcome; the table is only read |
| `AuthController.CheckStatusCases` | back/src/controllers/auth.ts:103-127 | 401 iff the token is missing, fails to verify, carries no user id, names no stored user, or the lookup throws; otherwise 200 with a fresh token for that same user |
| `AuthMiddleware.Authorize` | back/src/middleware/authMiddleware.ts:8-28 | defined as the middleware's decision: reject with "Authorization token required" without a truthy token, with "Invalid or expired token" when verification or the lookup throws, with "User not found" when no row has the decoded id, else admit that row. It is stated by `AuthorizeRejections`, `AuthorizeAdmits` and `CheckStatusAgreesWithAuthorize` |
| `AuthMiddleware.Run` | back/src/middleware/authMiddleware.ts:7-29 | on admission `req.user` is the resolved user and `next` runs exactly once; on rejection a 401 is written and `next` does not run |
| `AuthMiddleware.AuthorizeRejections` | back/src/middleware/authMiddleware.ts:10-28 | no token gives "Authorization token required"; a failed verify or a throwing lookup gives "Invalid or expired token"; an unknown user gives "User not found"; every rejection is 401 |
| `AuthMiddleware.AuthorizeAdmits` | back/src/middleware/authMiddleware.ts:18-25 | admitted iff the token verifies to a user id that a stored row has; the admitted user is that stored row |
| `AuthMiddleware.CheckStatusAgreesWithAuthorize` | back/src/controllers/auth.ts:102-127 | `checkStatus` answers 200 for exactly the requests the middleware admits, with that user and a fresh token |
| `ImageStore.SortNewestFirst` | back/src/controllers/images.ts:136 | `order: { created_at: 'DESC' }` gives the same rows, newest first |
| `ImageStore.OwnedBy` | back/src/controllers/images.ts:135 | the owner filter keeps each of the owner's rows as often as it is stored, and no other row |
| `ImageStore.ImagesOfUser` | back/src/controllers/images.ts:134-137 | defined as the caller's rows sorted by creation time, newest first. `ImagesOfUserExact` states its order and its multiset |
| `ImageStore.AllImages` | back/src/controllers/images.ts:150 | defined as every row sorted by creation time, newest first. `AllImagesExact` states its order and that it is a permutation of the table |
| `ImageStore.ImagesOfUserExact` | back/src/controllers/images.ts:134-137 | the caller's listing is newest first and holds exactly the caller's rows |
| `ImageStore.AllImagesExact` | back/src/controllers/images.ts:150 | the global listing is newest first and is a permutation of all rows |
| `ImageStore.ImagesOfUserWithinAll` | back/src/controllers/images.ts:134-150 | every row of the caller's listing is in the global listing and owned by the caller |
| `ImageController.Rejection` | back/src/controllers/images.ts:24-28 | defined as the 400 message for the operation's parameters: for blur, NaN or a value outside 1 to 100; for resize (lines 81-85), NaN or a non-positive `w` or `h`; greyscale has none. It is stated by `BlurAcceptsOneToHundred`, `BlurRejects` and `ResizeAcceptsPositive` |
| `ImageController.BlurAcceptsOneToHundred` | back/src/controllers/images.ts:24 | a blur written in decimal, with any trailing text `parseInt` ignores, is accepted exactly when it is from 1 to 100 |
| `ImageController.BlurRejects` | back/src/controllers/images.ts:15-28 | a negative, absent or non-numeric blur is rejected with "Invalid blur value. Must be a number between 0 and 100." |
| `ImageController.ResizeAcceptsPositive` | back/src/controllers/images.ts:73-86 | decimal w and h are accepted exactly when both are positive; an absent w or h is rejected |
| `ImageController.OutputFileName` | back/src/controllers/images.ts:112 | defined as the fresh UUID followed by the upload's extension. `OutputKeepsExtension` states that the extension is kept |
| `ImageController.ImageUrl` | back/src/controllers/images.ts:116 | defined as the fixed `http://localhost:8000/uploads/` prefix followed by the file name. `FileNameOfImageUrl` and `FileNameOfUrl` state that the name can be recovered |
| `ImageController.FileNameOfUrl` | back/src/controllers/images.ts:116 | a file name recovered from a URL builds that URL again |
| `ImageController.FileNameOfImageUrl` | back/src/controllers/images.ts:116 | the URL `http://localhost:8000/uploads/` + name gives the name back |
| `ImageController.OutputKeepsExtension` | back/src/controllers/images.ts:112 | when the fresh name is a UUID, the output file has the original file's extension |
| `ImageController.Processed` | back/src/controllers/images.ts:88-102 | defined as the shared `try` block once the parameters pass: a read or write throw gives 500 with no change, a save throw gives 500 with the output file written, else the row is appended, the staged file is removed and 200 is answered. It is stated by `ProcessedSucceeds`, `SuccessRecordsOneImage` and `FailureKeepsTempFile` |
| `ImageController.ProcessedSucceeds` | back/src/controllers/images.ts:88-99 | once the parameters pass, the answer is 200 exactly when no step throws; then one row for the output URL is appended with the caller and the next id, the staged file is gone, the output file exists and the body carries the URL |
| `ImageController.TransformOutcome` | back/src/controllers/images.ts:14-103 | defined as one call of `blur`, `greyScale` or `resize`: 400 without an upload; 400 with the staged file removed when `Rejection` gives a message; else `Processed`. It is stated by `NoUploadChangesNothing`, `RejectionDeletesTempFile`, `SuccessRecordsOneImage`, `FailureKeepsTempFile`, `TransformAppendsAtMostOne`, `TransformKeepsImageIds` and `SavedImageIsListed` |
| `ImageController.NoUploadChangesNothing` | back/src/controllers/images.ts:18-21 | with no upload: 400 "No image uploaded." and no change at all |
| `ImageController.RejectionDeletesTempFile` | back/src/controllers/images.ts:24-30 | rejected parameters: the staged file is deleted, the answer is 400 with the operation's message, and no row or output file is added |
| `ImageController.SuccessRecordsOneImage` | back/src/controllers/images.ts:31-42 | 200 iff there is an upload, the parameters pass and nothing throws; then one row (URL and caller) is appended, the staged file is gone, the output exists, and the response URL is the recorded one |
| `ImageController.FailureKeepsTempFile` | back/src/controllers/images.ts:43-45 | a throw after validation gives 500 "Server error", keeps the staged file and adds no row; a failed save leaves the written output |
| `ImageController.TransformAppendsAtMostOne` | back/src/controllers/images.ts:123-127 | a call leaves the rows as they were or appends exactly one: the output URL, owned by the caller, with the next id |
| `ImageController.TransformKeepsImageIds` | back/src/controllers/images.ts:123-127 | the old rows stay a prefix, at most one row is added per call, and ids stay auto-increment |
| `ImageController.SavedImageIsListed` | back/src/controllers/images.ts:35 | after a 200, a row with the returned URL is in the caller's listing and in the global one |
| `ImageController.ImageService.Blur` | back/src/controllers/images.ts:14-46 | the handler's new state and response are the transform outcome for a blur, and the table's auto-increment ids are kept |
| `ImageController.ImageService.GreyScale` | back/src/controllers/images.ts:48-70 | the handler's new state and response are the transform outcome for greyscale, which has no parameter check, and the table's auto-increment ids are kept |
| `ImageController.ImageService.Resize` | back/src/controllers/images.ts:72-103 | the handler's new state and response are the transform outcome for a resize, and the table's auto-increment ids are kept |
| `ImageController.ImageService.TransformAndSave` | back/src/controllers/images.ts:31-42 | the shared `try` block: read, write, save, then delete the staged file; read, write and save may throw, the staged-file delete does not; the new state is the post-validation outcome and ids stay auto-increment |
| `ImageController.ImageService.RemoveTempFile` | back/src/controllers/images.ts:25-27 | the staged file no longer exists afterwards; nothing else changes |
| `ImageController.ImageService.WriteImageToDisk` | back/src/controllers/images.ts:111-121 | the output is written as fresh name plus extension, and its URL is returned; when the write throws, nothing is written |
| `ImageController.ImageService.SaveImageUrlToDatabase` | back/src/controllers/images.ts:123-128 | exactly one row is appended, with the URL, the caller's id and the insertion time, and ids stay auto-increment |
| `ImageController.ImageService.GetImagesByUser` | back/src/controllers/images.ts:130-145 | 200 with exactly the caller's images, each as often as it is stored, newest first, or 500 when the query throws; the table is only read |
| `ImageController.ImageService.GetAllImages` | back/src/controllers/images.ts:147-157 | 200 with all images, newest first, as a permutation of the table, or 500 when the query throws; the table is only read |
| `Flows.IssuedTokenAdmits` | back/src/middleware/authMiddleware.ts:15-25 | a token signed for a stored user passes the middleware as that user, and `checkStatus` refreshes it |
| `Flows.SignUpThenSignIn` | back/src/controllers/auth.ts:26-81 | after a sign-up, signing in with the same credentials succeeds for the new user, and the issued token opens the protected routes for that user |

## Left out

- Cryptography: bcrypt's salting and cost factor, the JWT secret, the signature itself and the one-hour expiry are inside the abstract `Primitives`. A rejected or expired token is just `verify` returning `None`. `sign` depends on the id only, so tokens issued at different times are equal in the model.
- Pixel work: Jimp's read, blur, greyscale, resize and write are opaque. Only whether they throw is modelled (`ProcessFault`). The image contents are not represented.
- Output write: `image.write` is taken to finish before the URL is returned. Whether the library writes asynchronously, and so escapes the `catch`, is not modelled.
- Randomness and clock: the UUID is the `freshName` parameter and `CURRENT_TIMESTAMP` is the `now` parameter. `updated_at` is not modelled because no in-scope operation updates a row.
- Users.FindByEmail: compares emails by exact string equality where `findOneBy({ email })` uses the column's collation, so `FindByEmail`, `UniqueEmails` and the sign-up and sign-in outcomes treat `ana@x.com` and `Ana@x.com` as different users. MySQL's default case-insensitive collations would match them, so the program really rejects such a sign-up as a duplicate and lets such a sign-in through.
- Persistence: the tables are sequences and auto-increment ids are `|rows| + 1`. A lookup returns the first matching row. A decoded token payload without `userId` is modelled as finding no user; how the ORM treats an undefined key in `findOneBy` is not part of this model. Listed images carry the owner id, which the ORM's JSON would omit.
- Ties in `created_at`: the database orders equal timestamps as it likes. `ImageStore.SortNewestFirst` fixes one order, and the lemmas rely only on newest-first order and on the multiset of rows.
- Request bodies: body fields are strings or absent. Numbers, booleans, arrays or objects in a JSON body are not modelled, and neither is a multipart field sent twice.
- Number precision: `parseInt` results are exact integers, not doubles rounded beyond 2^53. Negative zero is 0, which every comparison here treats alike.
- File system errors: an `unlinkSync` that throws is not modelled. Windows path rules for `path.extname` are not modelled either.
- Error details: the `error` object attached to 500 and 401 bodies is not modelled. Modelled bodies carry only the public user fields (`PublicUser` has no password), so none of them holds a hash; this says nothing about the unmodelled `error` object. In `signUp`'s catch (back/src/controllers/auth.ts:43), a failed `save` would serialise the ORM's query error, and its enumerable parameter and SQL fields would plausibly include the bcrypt hash.
- Server wiring: Express setup, routing, static file serving and multer's upload handling (including its "Only one image is allowed." handler) are not modelled. The image handlers take the caller as a `User`, because every image route runs the middleware first.
- Concurrency: the model is sequential, so it cannot show the duplicate-email race between concurrent sign-ups.
- The browser client (pages, forms, auth context, local storage) is not part of this model.
