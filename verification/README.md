# Basic-auth middleware of a users-and-courses REST API

This project models `authUser`, the Express middleware that guards the
protected routes of a small REST API. The API manages users and their
courses. The middleware reads the `Authorization` header and takes its
second space-separated token. It base64-decodes that token and splits the
decoded text on `:` into an email address and a password. It then looks the
user up by email and checks the password against the stored bcrypt hash.
Last, it either binds `req.currentUser` and calls `next()`, or answers
`401 {message: 'Access Denied'}` and logs the specific reason.

The model is a pure function. Its inputs are the optional header and three
collaborators: the base64 decoder, `User.findOne` and `bcrypt.compare`. The
lookup and the check may return or throw. The result is an `Outcome`. It
holds the value left in `req.currentUser`, whether `next()` was called or a
response was sent, and what was written to the log.

Modules:
- `JsString` (`js_string.dfy`): JavaScript `undefined`, truthiness, array
  indexing, and `String.prototype.split` with a one-character separator. It
  also holds its inverse `Join`.
- `Credentials` (`credentials.dfy`): the token picked from the header and the
  email/password split as the code does it. It also holds the split of
  section 2 of RFC 7617 for comparison.
- `Auth` (`auth.dfy`): the try block, the catch, the final
  `if (message)` decision, and the properties of `AuthUser`. It also holds
  the variant with the two defects below corrected (`AuthUserIntended`).

The model follows the code. Two places in the code evidently do not do what
their authors meant; see "## Findings". At middleware/auth.js:33 the string
'Authorization header not found' stands where its sibling branches assign
`message = ...`, but it is written as a label, so nothing is assigned. At
middleware/auth.js:15 the password is cut at a second colon, whereas
section 2 of RFC 7617 makes the password everything after the first colon.
`AuthUser` models the code as written. `AuthUserIntended` is the corrected
definition, with the intended properties proved about it.

## Model

| member | source | states |
|---|---|---|
| JsString.Split | middleware/auth.js:13 | `split` returns at least one part; no part holds the separator; joining the parts with the separator gives back the input |
| JsString.SplitJoin | middleware/auth.js:13 | splitting a join of separator-free parts gives back those parts, so the split is the unique such decomposition |
| JsString.SplitAfterPrefix | middleware/auth.js:13-15 | a separator-free prefix followed by the separator becomes the first part, and the split continues on the rest |
| JsString.SplitHasSecondPart | middleware/auth.js:13-15 | index 1 of the split exists exactly when the separator occurs |
| Credentials.EncodedCredentials | middleware/auth.js:13 | the encoded part is `undefined` exactly when the header has no space; otherwise it holds no space |
| Credentials.EncodedCredentialsOf | middleware/auth.js:13 | the encoded part is the text after the first space, up to the next space or the end |
| Credentials.SchemeIgnored | middleware/auth.js:13 | the word before the first space does not affect the encoded part |
| Credentials.SplitCredentials | middleware/auth.js:15 | the email holds no colon; the password is present exactly when the decoded text has a colon, and it holds no colon |
| Credentials.CredentialsRoundTrip | middleware/auth.js:15 | a colon-free email and password joined by `:` split back into themselves |
| Credentials.CredentialsWithoutColon | middleware/auth.js:15 | text without a colon is all email, with the password `undefined` |
| Credentials.ExtraSegmentsDropped | middleware/auth.js:15 | everything after a second colon is dropped from the password |
| Credentials.SplitCredentialsRfc7617 | middleware/auth.js:15 | the RFC 7617 split: a colon-free user-id, and a password that rejoined with `:` gives back the decoded text |
| Credentials.Rfc7617RoundTrip | middleware/auth.js:15 | the RFC 7617 split returns any password, colons included |
| Credentials.AgreesWithRfc7617 | middleware/auth.js:15 | the code's split equals the RFC 7617 split exactly when there is no password or the RFC password holds no colon |
| Credentials.ColonPasswordTruncated | middleware/auth.js:15 | `ann@example.com:pa:ss` yields password `pa` where RFC 7617 yields `pa:ss` |
| Auth.AuthUser | middleware/auth.js:6-46 | every response sent is 401 with body exactly `{message: 'Access Denied'}` and binds no user, with the reason only as the last log line; a bound user goes on to `next()`; `next()` is called with nothing logged |
| Auth.AuthenticatedIff | middleware/auth.js:12-25 | a user is bound exactly when the header has a token, the lookup on the extracted email returns that user, and the check on the extracted password returns true |
| Auth.RejectedWhenNotFound | middleware/auth.js:17-42 | an unknown email gives 401, no user bound, and the single warning "User not found for email: ..." |
| Auth.RejectedWhenMismatch | middleware/auth.js:21-42 | a failed password check gives 401, no user bound, and the single warning "Authentication failure for email: ..." |
| Auth.MissingTokenRejected | middleware/auth.js:12-42 | a non-empty header with no space throws on the `undefined` token; the catch logs it and the answer is 401 |
| Auth.LookupErrorRejected | middleware/auth.js:17-42 | an exception from the lookup is logged and answered 401 |
| Auth.VerifyErrorRejected | middleware/auth.js:22-42 | an exception from the password check is logged and answered 401 |
| Auth.AbsentHeaderFallsThrough | middleware/auth.js:12-44 | a missing or empty header calls `next()` with no user and no log, and that is the only way to reach `next()` without a user |
| Auth.SchemeWordIgnored | middleware/auth.js:13 | any scheme word gives the same outcome |
| Auth.NoLookupWithoutToken | middleware/auth.js:12-14 | without a token the outcome depends on no collaborator |
| Auth.LookupOnlyAtExtractedEmail | middleware/auth.js:15-19 | the outcome depends on the lookup only at the extracted email |
| Auth.VerifyOnlyWhenFound | middleware/auth.js:21-22 | the password check matters only when the lookup found a user, and only on the extracted password and that user's hash |
| Auth.PasswordTruncatedAtColon | middleware/auth.js:13-25 | for `Basic <token>` decoding to `email:pw:more`, a user is bound exactly when the check succeeds on `pw` alone |
| Auth.UndefinedPasswordRejected | middleware/auth.js:15-42 | when the password check throws on an `undefined` password, a token whose decoded text has no colon is always answered 401 with no user bound |
| Auth.FindByEmail | middleware/auth.js:17-19 | the lookup returns a row whose email equals the argument exactly, or none exactly when no row matches |
| Auth.BoundUserHasPresentedEmail | middleware/auth.js:15-25 | against a table lookup, the bound user is a row of the table whose email is exactly the text before the first colon |
| Auth.AuthUserIntended | middleware/auth.js:32-34 | corrected middleware: `next()` is called exactly when a user is bound, and every response is the generic 401 |
| Auth.IntendedRejectsMissingHeader | middleware/auth.js:32-42 | corrected middleware: a missing or empty header gives 401 and the warning "Authorization header not found" |
| Auth.IntendedChecksWholePassword | middleware/auth.js:13-25 | corrected middleware: for `Basic <token>` decoding to `email:password`, a user is bound exactly when the check succeeds on the whole password, colons included |
| Auth.IntendedAgreesWithoutColonInPassword | middleware/auth.js:15-25 | when a non-empty header is present and, if it carries a token, the password has no colon, the corrected and the written middleware give the same outcome |

## Left out

- The base64 decoder is a parameter `decode: string -> string`. Node's
  `Buffer.from(s, 'base64').toString()` accepts any string, so it never
  throws. Its leniency (skipping characters, UTF-8 replacement) is not
  modelled.
- `bcrypt.compare` is a parameter that returns a boolean or throws. It gets
  the password as `Option<string>`, because the password is `undefined` when
  the decoded text has no colon. Whether bcrypt throws on `undefined` is up
  to that parameter; `Auth.UndefinedPasswordRejected` gives the outcome
  when it does. Hashing itself and constant-time comparison are not
  modelled.
- `User.findOne` is a parameter that returns a user, none, or throws. The
  database and the Sequelize query are not modelled. `FindByEmail` gives a
  table reference for exact email matching. Which row is returned when
  several rows share an email is not modelled, because the schema has no
  uniqueness constraint.
- `console.warn` and `console.error` are entries in `Outcome.log`. The
  Express `req`, `res` and `next` are reduced to the header, `currentUser`
  and the `Response` value.
- `async`/`await` is treated as sequential execution. Each awaited call is a
  value that returns or throws.
- routes/users.js is not part of this model. It is framework and ORM glue.
  Its validation-error mapping `err => message` names an undefined
  identifier. Its GET handler reads `req.currentUser.id`, so when the
  middleware falls through without a user, that request gets 500, not 401.
- routes/courses.js is not part of this model. It is one `findAll` with an
  include, and its code has no ownership or required-field checks.
- models/user.js is not part of this model. Its `notEmpty` and `isEmail`
  checks run inside the ORM's validator. `User` mirrors only its fields.
- test.js is a database connectivity script and is not part of this model.

## Findings

| source | as written | input that shows it | evidently intended | confidence | as-written member | corrected member |
|---|---|---|---|---|---|---|
| middleware/auth.js:33 | `message: 'Authorization header not found'` is a label statement, so nothing is assigned and `next()` is called with no user | a request with no `Authorization` header (or an empty one) | assign the message, so the request is answered 401 | high; not executed | Auth.AbsentHeaderFallsThrough | Auth.IntendedRejectsMissingHeader |
| middleware/auth.js:15 | `split(':')` keeps only the segment between the first two colons as the password | decoded credentials `ann@example.com:pa:ss` check the password `pa` | per section 2 of RFC 7617, the password is everything after the first colon | medium; not executed | Credentials.ExtraSegmentsDropped | Credentials.Rfc7617RoundTrip |
