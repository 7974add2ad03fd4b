# Authentication workflow of the university announcement backend, in Dafny

This project models the authentication controller of the backend
(`backend/controllers/authController.js`): user registration, login,
identity-checked issue of a password-reset token ("forgot password"), and
password reset, all run against the user table. It proves what the handlers
promise about that table and about their answers.

- `wrappers.dfy` — `Option`, the result of a lookup.
- `bcrypt.dfy` — the password hasher as an idealised pair `Hash`/`Compare`:
  a digest is a fixed marker followed by the password, so `Compare(p, Hash(p))`
  holds and a digest matches only its own password; the digest is never equal
  to the password, but it is not one-way.
- `jwt.dfy` — a token is (identity, expiry, signature intact);
  `Sign(id, ttl, now)` issues one and `Verify(token, now)` accepts it only
  when it is intact and `now` is before its expiry. Time is an explicit clock
  in seconds; the session lifetime is 30 days and the reset lifetime 15 minutes.
- `users.dfy` — the user record (name, email, studentId, passwordHash, role,
  department, year), the table as a map from identity to record, the table
  invariant (emails unique, student identifiers unique, every stored
  password a digest) and the lookups `findOne` performs.
- `auth_controller.dfy` — for each handler a specification function over the
  table before the request, and the class `UserStore` holding the table
  (`users`, and `nextId`, the next identity to hand out) whose handler methods
  take the controller's steps in the controller's order. `Register` and
  `ResetPassword` change the table (`modifies this`); `Login` and
  `ForgotPassword` only read it. Each method is proved equal to its
  specification function and to keep the table invariant.
- `auth_properties.dfy` — the properties of the workflow, stated over the
  specification functions: the order of the registration checks, the record a
  registration creates, the uniform login and reset failures, the two token
  lifetimes, the invariant, and the round trips between handlers (register
  then log in; verify identity then reset; reset then log in), ending in one
  whole session for a sample user.

Each handler answers `Success(status, body)` or `Failure(status, message)`
with the status and message the controller sets. A request field absent from
the body is the empty string: registration and reset only test fields for
JavaScript truthiness or default them with `||`, and both treat an absent
field and an empty one alike. A reset request's token is `None` when it is
absent or empty; a string that is not a well-formed token is a token whose
signature flag is false.

The controller's `resetPassword` sets status 404 "User not found" when the
token's identity names no user, but throws inside its `try`, so the `catch`
replaces both with 400 "Invalid or expired token"; the model gives that final
answer (`AuthProperties.ResetRejectsBadToken`).

## Model

| member | source | states |
|---|---|---|
| `Bcrypt.Hash` | backend/controllers/authController.js:39-40 | the digest stored for a password is never that password |
| `Bcrypt.Compare` | backend/controllers/authController.js:81 | `bcrypt.compare`: a digest that matches a password is never that password; its other properties are stated in `Bcrypt.CompareOwnHash` and `Bcrypt.CompareOnlyOwnHash` |
| `Bcrypt.CompareOwnHash` | backend/controllers/authController.js:81 | a password matches the digest made from it |
| `Bcrypt.CompareOnlyOwnHash` | backend/controllers/authController.js:81 | a digest matches no password but the one it was made from |
| `Bcrypt.DigestIsNotPlaintext` | backend/controllers/authController.js:46 | a digest that matches a password is not that password |
| `Jwt.Verify` | backend/controllers/authController.js:161 | verification yields the token's identity exactly when the signature is intact and the clock is before the expiry |
| `Jwt.Sign` | backend/controllers/authController.js:134-136 | a signed token yields its identity at every instant before issue time plus lifetime and fails at every later one |
| `Jwt.TamperedNeverVerifies` | backend/controllers/authController.js:161 | a token with an altered signature is refused at every instant |
| `AuthController.GenerateToken` | backend/controllers/authController.js:111-115 | a session token for the identity, accepted until 30 days after issue and refused from then on |
| `AuthController.OrDefault` | backend/controllers/authController.js:49-50 | JavaScript or-defaulting on a string: a non-empty value is kept, otherwise the fallback is used, and the result is non-empty whenever the fallback is |
| `AuthController.AllFieldsGiven` | backend/controllers/authController.js:16 | definition of the validation test (all four fields non-empty); its consequences are stated in `AuthProperties.RegisterRejectsMissingFields` and `AuthProperties.RegisterSucceedsIff` |
| `AuthController.NewUser` | backend/controllers/authController.js:35-51 | the created record keeps the request's name, email and student identifier, has role student, stores a digest that matches the password and is not the password, and has a non-empty department and year |
| `AuthController.ViewOf` | backend/controllers/authController.js:54-61 | definition of the public view (identity, name, email, student identifier, role, token; no password); its use is stated in `AuthProperties.RegisterStoresDigestAndAnswersView` and `AuthProperties.LoginSucceedsIff` |
| `AuthController.RegisterSpec` | backend/controllers/authController.js:12-66 | every failure is 400 with the table unchanged; a success is 201, adds exactly the new identity with role student, and answers with that identity and a session token that verifies to it |
| `AuthController.LoginSpec` | backend/controllers/authController.js:74-94 | every failure is 401 "Invalid credentials"; a success is 200 for a stored user with that email whose digest matches the password, with a session token that verifies to that user |
| `AuthController.ForgotPasswordSpec` | backend/controllers/authController.js:122-144 | every failure is 404 "User not found with provided Email and ID."; a success is 200 with a token for a stored user matching both email and student identifier, expiring 15 minutes after issue |
| `AuthController.ResetPasswordSpec` | backend/controllers/authController.js:151-180 | every failure is 400 with the table unchanged; a success needs a token that verifies to a stored user, keeps the table's identities and gives that user the digest of the new password |
| `Users.OwnerOfEmail` | backend/controllers/authController.js:78 | the lookup by email finds a user with that email, or reports that none has it |
| `Users.OwnerOfCredentials` | backend/controllers/authController.js:126 | the lookup by email and student identifier finds a user matching both, or reports that none does |
| `Users.OwnerOfEmailIs` | backend/controllers/authController.js:22 | with unique emails the lookup by email finds exactly the user that has it |
| `Users.OwnerOfCredentialsIs` | backend/controllers/authController.js:126 | with unique emails the lookup by email and student identifier finds exactly the user matching both |
| `Users.InsertPreservesWellFormed` | backend/controllers/authController.js:21-51 | creating a record under a fresh identity after both duplicate checks passed keeps emails and student identifiers unique |
| `Users.RehashPreservesWellFormed` | backend/controllers/authController.js:170-173 | replacing one user's digest by another digest keeps the table invariant |
| `AuthController.UserStore.FindOneByEmail` | backend/controllers/authController.js:22 | `User.findOne({ email })` returns the owner of the email, if any |
| `AuthController.UserStore.FindOneByStudentId` | backend/controllers/authController.js:29 | `User.findOne({ studentId })` returns a user with that identifier, and none exactly when nobody has it |
| `AuthController.UserStore.FindOneByCredentials` | backend/controllers/authController.js:126 | `User.findOne({ email, studentId })` returns the user matching both, if any |
| `AuthController.UserStore.Create` | backend/controllers/authController.js:43-51 | the record is stored under a fresh identity and nothing else in the table changes |
| `AuthController.UserStore.Save` | backend/controllers/authController.js:171-173 | the updated record replaces the stored one under the same identity and nothing else changes |
| `AuthController.UserStore.Register` | backend/controllers/authController.js:12-66 | answer and new table are those of the registration specification, the table invariant is kept, and a new identity is used only on success |
| `AuthController.UserStore.Login` | backend/controllers/authController.js:74-94 | the answer is that of the login specification and the table is not changed |
| `AuthController.UserStore.ForgotPassword` | backend/controllers/authController.js:122-144 | the answer is that of the identity-check specification and the table is not changed |
| `AuthController.UserStore.ResetPassword` | backend/controllers/authController.js:151-180 | answer and new table are those of the reset specification, and the table invariant is kept |
| `AuthProperties.SessionTokenLifetime` | backend/controllers/authController.js:111-115 | a session token issued at T is accepted at T + 29 days and refused at T + 31 days |
| `AuthProperties.ResetTokenLifetime` | backend/controllers/authController.js:133-136 | a reset token issued at T is accepted at T + 14 minutes and refused at T + 16 minutes |
| `AuthProperties.RegisterRejectsMissingFields` | backend/controllers/authController.js:13-19 | an absent or empty name, email, password or student identifier gives 400 "Please add all fields" and an unchanged table |
| `AuthProperties.RegisterConflictOrder` | backend/controllers/authController.js:21-33 | a taken email is reported before a taken student identifier; each conflict is 400 with its own message and an unchanged table |
| `AuthProperties.RegisterSucceedsIff` | backend/controllers/authController.js:12-66 | registration succeeds exactly when all four fields are given and neither email nor student identifier is taken; every failure is 400 with an unchanged table |
| `AuthProperties.RegisterAddsOneStudent` | backend/controllers/authController.js:35-51 | a successful registration adds exactly one record, under a new identity, with role student, and changes no existing record |
| `AuthProperties.RegisterIgnoresRequestedRole` | backend/controllers/authController.js:35-36 | the role named in the request changes neither the answer nor the table |
| `AuthProperties.RegisterStoresDigestAndAnswersView` | backend/controllers/authController.js:39-61 | the stored password is the digest of the request password, never the password; the 201 answer is the new identity, name, email, student identifier, role and a session token for the new identity |
| `AuthProperties.RegisterDefaults` | backend/controllers/authController.js:49-50 | department is "General" and year is "Freshman" when absent or empty, and the given values otherwise |
| `AuthProperties.RegisterPreservesWellFormed` | backend/controllers/authController.js:21-51 | registration keeps emails and student identifiers unique and every stored password a digest |
| `AuthProperties.LoginSucceedsIff` | backend/controllers/authController.js:77-93 | login succeeds exactly when a user has the email and the password matches its digest, answering 200 with that user's view and a session token; every failure is 401 "Invalid credentials" |
| `AuthProperties.LoginFailuresIndistinguishable` | backend/controllers/authController.js:81-93 | an unknown email and a wrong password give the identical 401 answer |
| `AuthProperties.ForgotPasswordSucceedsIff` | backend/controllers/authController.js:122-144 | the identity check succeeds exactly when a user has both the email and the student identifier, answering 200 with a token for that user expiring 15 minutes after issue; otherwise 404 "User not found with provided Email and ID." |
| `AuthProperties.ResetRejectsMissingInput` | backend/controllers/authController.js:152-157 | no token or no new password gives 400 "Missing token or new password" and an unchanged table |
| `AuthProperties.ResetRejectsBadToken` | backend/controllers/authController.js:159-179 | a token that fails verification and a token naming no user both give 400 "Invalid or expired token" and an unchanged table |
| `AuthProperties.ResetRejectsTamperedToken` | backend/controllers/authController.js:159-161 | any token whose signature was altered, whatever it was before, gives 400 "Invalid or expired token" and an unchanged table |
| `AuthProperties.TamperedResetTokenRefused` | backend/controllers/authController.js:134-136 | a fresh reset token for a stored user resets its password within 15 minutes, and the same token with an altered signature is refused with an unchanged table |
| `AuthProperties.ResetChangesOnlyThatDigest` | backend/controllers/authController.js:169-175 | a successful reset changes only the digest of the token's user, to the digest of the new password, and answers without a token |
| `AuthProperties.ResetSucceedsIff` | backend/controllers/authController.js:151-180 | reset succeeds exactly when a new password is given and the token verifies to a stored user |
| `AuthProperties.ResetPreservesWellFormed` | backend/controllers/authController.js:169-173 | reset keeps the table invariant |
| `AuthProperties.RegisterThenLogin` | backend/controllers/authController.js:43-93 | after a registration, its email and password log in as the new identity and any other password is refused |
| `AuthProperties.ForgotThenReset` | backend/controllers/authController.js:126-175 | whoever knows a user's email and student identifier gets a token that resets that user's password within 15 minutes and is refused afterwards |
| `AuthProperties.ResetThenLogin` | backend/controllers/authController.js:161-175 | after a reset the new password logs the user in and any other password is refused |
| `AuthProperties.SessionTokenAcceptedForReset` | backend/controllers/authController.js:88 | a session token from login is accepted by the reset handler for 30 days, since the two kinds differ only in lifetime |
| `AuthProperties.AnnSession` | backend/controllers/authController.js:12-180 | register with a requested admin role yields a student; login works; a wrong password is refused; identity check and reset work; only the new password logs in afterwards |

## Left out

- Salt generation and the work factor of the hasher: hashing is modelled as deterministic, so two digests of one password are equal here, while the real ones differ.
- `Bcrypt.Hash`: the model's digest is the marker followed by the password itself, so it is not one-way as the real hasher is; the model only separates a digest from the password it stores.
- `Bcrypt.CompareOnlyOwnHash`: bcrypt uses only the first 72 bytes of a password, so two passwords sharing those bytes match the same digest; the model's hasher reads the whole password.
- The signing secret, the token's cryptography and a missing secret configuration: a token's signature is an abstract flag.
- `getMe` and the `protect` middleware it depends on: the middleware is not part of this model and `getMe` only echoes the user it attached.
- The 400 "Invalid user data" branch of `registerUser`: the store's create always returns the record, so that branch cannot be taken in the model.
- Failures of the database itself (a create or save that throws, a schema validation error, a unique index) and the error handler that turns uncaught errors into responses: `backend/models/User.js` and the error middleware are not part of this model.
- Login and identity-check requests with a field absent from the body: bcryptjs rejects an undefined password and the query behaviour of an undefined filter value belongs to the database driver; these handlers take their fields as strings.
- Request values that are JSON objects rather than strings (for example a query operator as the email): request fields are strings in the model.
- Concurrent requests, and with them the race between the duplicate checks and the create: requests are handled one at a time.
- Timestamps (createdAt, updatedAt), the Express request and response objects, routing, and the announcement schema.
