# Authentication and refresh-token core of the MultiVendor backend, in Dafny

This project models the authentication core of an Express/Mongoose backend:

- user identifiers (`createUniqueId`, `validateUserId`);
- salted password hashing and verification (`hashedPassword`, `verifyPassword`);
- the user and refresh-token collections with their schemas and unique indexes;
- the `TokenManager` operations on refresh-token records;
- the `Register` and `Login` controllers, which chain all of the above;
- the error values the controllers hand to the framework (`PrimaryErrorHandler`).

Modules, one concern each:

| file | module | models |
|---|---|---|
| `wrappers.dfy` | `Wrappers` | `Option`, `Result`, and JavaScript's `undefined` / `null` / value answers |
| `search.dfy` | `Search` | the first-match search every `findOne` performs |
| `strings.dfy` | `Strings` | `String.prototype.split` (one-character separator) and `String.prototype.trim` |
| `hex.dfy` | `Hex` | `Number.prototype.toString(16)` and `Buffer.prototype.toString('hex')` |
| `error_handler.dfy` | `PrimaryErrorHandler` | the error class and its static factories |
| `identifiers.dfy` | `Identifiers` | `createUniqueId`, `validateUserId` |
| `passwords.dfy` | `Passwords` | `hashedPassword`, `verifyPassword` |
| `persistence.dfy` | `Persistence` | what `Model.create` throws: validation errors and duplicate keys |
| `user_model.dfy` | `UserModel` | the user schema, `User.create`, `User.findOne({email})` |
| `token_model.dfy` | `TokenModel` | the token schema, `Token.create`, the per-user queries, rotation |
| `auth_manager.dfy` | `AuthManagement` | class `AuthManager`: `findByEmail`, `createUser` over the `users` collection |
| `token_manager.dfy` | `TokenManagement` | `decodeToken` and class `TokenManager` over the `tokens` collection |
| `auth_controller.dfy` | `AuthController` | `Register` and `Login` |

Conventions:

- Strings are `seq<char>`.
- A falsy string argument is modelled as `""`. This covers both `undefined` and the empty string.
- A number that may be `undefined` is an `Option<int>`. It is falsy when absent or `0`.
- The collections are sequences in insertion order. Each is held by the class that reads and writes it.
- The class invariants are the schemas' constraints:
  - every record is well formed;
  - users have unique `userId` and unique `email`;
  - each user has at most one token record (`|RecordsOf(tokens, u)| <= 1`).
- The controllers are methods.
  - Each is proved equal to a pure function of the same protocol: `RegisterOutcome`, `LoginOutcome`, and `IssueOutcome` for the rotate-and-issue tail of `Login`.
  - The lemmas state the protocols' guarantees about those functions.

These are parameters, not implementations:

- the clock (`Date.now()`);
- the 16 random salt bytes;
- the key-derivation function (PBKDF2 with parameters 10000 iterations, 64 bytes, `sha256`; any deterministic function of password, salt text and parameters);
- the access- and refresh-token issuers;
- the JWT decoder.

Behaviour as written in the code, which the model follows:

- `validateUserId` answers `true` or throws. It never answers `false`.
- `createUniqueId` does not pad the hex clock. A generated identifier validates only while the clock has exactly 11 hex digits (`CreatedIdValidates`).
- `verifyPassword` answers `false` on a stored form with no colon. It does not throw.
- `verifyPassword` uses a plain string comparison, not a constant-time one.
- `decodeToken` uses `jsonwebtoken.decode`, which does not check the signature. The decoder parameter therefore stands for decoding only.
- `Login` calls `PrimaryErrorHandler(400, "Invalid request")` without `new` when a field is missing. That call throws a TypeError, which the `catch` hands to `next`. It is modelled as `NextException(ConstructorWithoutNew)`, reached before any lookup.
- Mongoose trims `name` and `refreshToken` before checking `required`, and `required` refuses an empty string. So a name made only of spaces passes `Register`'s check and then fails validation in `User.create`.
- Two registrations in the same millisecond get the same identifier. The second fails on the `userId` index (`RegisterSameMillisecond`).

## Model

| member | source | states |
|---|---|---|
| `Strings.Trim` | src/models/user.model.js:10-14 | the result is the input minus its leading and trailing ECMAScript whitespace: a slice of it, with no whitespace at either end, empty exactly when the input is all whitespace |
| `Strings.TrimKeepsClean` | src/models/token.model.js:10-14 | a string with no whitespace at either end is stored unchanged |
| `Strings.TrimIdempotent` | src/models/user.model.js:13 | trimming an already trimmed value changes nothing |
| `Strings.Split` | src/utils/auth.manager.js:156 | `split` yields at least one part and no part contains the separator |
| `Strings.SplitJoin` | src/utils/auth.manager.js:156 | joining the parts with the separator gives back the input |
| `Strings.SplitWithoutSeparator` | src/utils/auth.manager.js:95 | a string without the separator splits into itself alone |
| `Strings.SplitAtFirstSeparator` | src/utils/auth.manager.js:95 | the first part is the text before the first separator; the rest is the split of what follows |
| `Hex.ToHex` | src/utils/auth.manager.js:118 | `toString(16)` gives at least one digit, all lower-case hex |
| `Hex.FromHexToHex` | src/utils/auth.manager.js:118 | the hex clock reads back as the clock value |
| `Hex.ToHexLength` | src/utils/auth.manager.js:118 | the numeral has L digits when 16^(L-1) <= n < 16^L |
| `Hex.ElevenDigits` | src/utils/auth.manager.js:118 | the numeral has 11 digits exactly when 16^10 <= n < 16^11 |
| `Hex.EncodeBytes` | src/utils/auth.manager.js:75 | `toString('hex')` gives two lower-case hex digits per byte |
| `Hex.DecodeEncodeBytes` | src/utils/auth.manager.js:75 | the hex of a key decodes back to the key |
| `Hex.EncodeBytesInjective` | src/utils/auth.manager.js:97-99 | two keys have equal hex exactly when they are equal, so comparing hex compares keys |
| `PrimaryErrorHandler.Raise` | src/utils/primary.error.handler.js:8-29 | each factory's status (409, 401, 404, 401, 400, 505) and message: the caller's if given, otherwise the factory's default; `alreadyExist` has no default |
| `PrimaryErrorHandler.MessageOfRaise` | src/utils/primary.error.handler.js:2-29 | a caller's message is kept unchanged; only `alreadyExist` without a message gives an undefined message |
| `PrimaryErrorHandler.StatusOfRaise` | src/utils/primary.error.handler.js:8-29 | the status identifies the factory, except that `wrongCredentials` and `unAuthorized` share 401 |
| `Identifiers.CreateUniqueId` | src/utils/auth.manager.js:115-135 | the id is the unpadded hex clock, `/`, then `a` for "admin", `s` for "spam", and `u` for "user", any other type or an omitted type |
| `Identifiers.ValidateUserId` | src/utils/auth.manager.js:152-173 | the answer is `true` or a throw of "Invalid user id format", never `false` |
| `Identifiers.ValidateUserIdShape` | src/utils/auth.manager.js:154-166 | validation succeeds exactly for 13-character strings: 11 hex digits of either case, `/`, and one of `u`, `a`, `s` |
| `Identifiers.CreatedIdValidates` | src/utils/auth.manager.js:115-168 | a generated id validates exactly when 16^10 <= now < 16^11, because the clock is not padded |
| `Identifiers.RejectedExamples` | src/utils/auth.manager.js:156-166 | `bad/x` and the ten-digit `abcde12345/u` are rejected |
| `Passwords.SaltText` | src/utils/auth.manager.js:65 | the salt is 32 hex characters, so it holds no colon |
| `Passwords.HashedPassword` | src/utils/auth.manager.js:62-80 | the stored form is the salt, a colon, then the hex of the key derived with that salt and the fixed parameters; neither half holds a colon |
| `Passwords.VerifyPassword` | src/utils/auth.manager.js:93-104 | defines the check: split the stored form on `:`, derive a key from the entered password with the first part as salt, and compare its hex with the second part; a stored form without a colon never passes |
| `Passwords.VerifyPasswordSegments` | src/utils/auth.manager.js:95-99 | verification compares the derived key only with the text between the first and the second colon, using the text before the first colon as salt |
| `Passwords.VerifyPasswordNeedsColon` | src/utils/auth.manager.js:95-99 | a stored form without a colon never verifies |
| `Passwords.VerifyHashedPassword` | src/utils/auth.manager.js:62-99 | against a stored form made by `hashedPassword`, a password verifies exactly when it derives the same key with that salt; the original password always verifies |
| `UserModel.Cast` | src/models/user.model.js:3-34 | validation passes exactly when userId, trimmed name, email and password are non-empty; the record keeps the fields, trims the name, and leaves city and pincode null when they are not given |
| `Search.FirstIndex` | src/utils/auth.manager.js:10 | `findOne` in natural order stops at the first document that matches, and answers none exactly when no document matches |
| `UserModel.IndexByEmail` | src/utils/auth.manager.js:10 | `findOne({email})` finds the first user with that email, and none exactly when no user has it |
| `UserModel.Create` | src/models/user.model.js:5-19 | creation succeeds exactly when validation passes and no user has the same userId or email; an existing userId gives a duplicate-key error |
| `UserModel.CreateKeepsCollection` | src/models/user.model.js:5-19 | after a successful create, userId and email are still unique and every record is well formed |
| `UserModel.CreatedUserIsFoundByEmail` | src/utils/auth.manager.js:10-14 | after a create, looking up its email finds the new user |
| `TokenModel.Cast` | src/models/token.model.js:3-26 | validation passes exactly when userId and the trimmed token are non-empty and expiresAt is given; the token is trimmed and status defaults to false |
| `TokenModel.RecordsOf` | src/models/token.model.js:5-9 | a user's records are exactly the collection's records with that userId |
| `TokenModel.Without` | src/utils/token.manager.js:174-177 | `deleteMany({userId})` keeps exactly the other users' records and removes as many as the user had |
| `TokenModel.IndexOfUser` | src/utils/token.manager.js:110-116 | `findOne({userId})` finds the first record of the user; none exactly when the user has no record |
| `TokenModel.IndexOfToken` | src/utils/token.manager.js:82-88 | `findOne({refreshToken})` finds the first record with that value, and none exactly when no record holds it |
| `TokenModel.Create` | src/models/token.model.js:5-23 | creation succeeds exactly when validation passes and the user has no record yet; otherwise a duplicate-key error on userId |
| `TokenModel.RecordsOfAppend` | src/models/token.model.js:5-9 | inserting a record adds it to its user's records and to nobody else's |
| `TokenModel.RecordsOfWithout` | src/utils/token.manager.js:174-177 | deleting a user's records empties that user and leaves every other user's records exactly as they were |
| `TokenModel.WithoutAbsent` | src/controllers/Auth/index.js:72-76 | when the user has no record, skipping the delete gives the same collection as doing it |
| `TokenModel.WithoutKeepsCollection` | src/models/token.model.js:5-9 | deleting a user's records keeps at most one record per user |
| `TokenModel.Rotate` | src/controllers/Auth/index.js:72-102 | after delete-then-insert the user has exactly the new record, other users are unchanged, and the invariant holds |
| `TokenModel.CreateKeepsCollection` | src/models/token.model.js:5-9 | a successful insert gives the user exactly the new record and keeps at most one record per user |
| `TokenModel.RecordsOfUpdate` | src/utils/token.manager.js:139-149 | an in-place update that keeps the userId keeps every user's record count |
| `TokenModel.Deactivate` | src/utils/token.manager.js:139-149 | setting status false keeps the invariant and leaves that record as the user's only record |
| `TokenModel.OnlyRecord` | src/models/token.model.js:5-9 | with a unique userId, the user's first record is their only record |
| `TokenManagement.DecodeToken` | src/utils/token.manager.js:18-28 | a falsy token gives undefined, a failed decode gives null, otherwise the payload |
| `TokenManagement.TokenManager.StoreRefreshToken` | src/utils/token.manager.js:47-72 | a falsy argument gives undefined and no change; otherwise one active record `{userId, trimmed token, expiresAt}` is appended, or create's error is thrown with no change; a duplicate-key error happens exactly when the user already has a record |
| `TokenManagement.TokenManager.FindRefreshToken` | src/utils/token.manager.js:80-100 | undefined for a falsy token; otherwise the first record with that value, or null when none exists; the collection is not changed |
| `TokenManagement.TokenManager.FindRefreshTokenById` | src/utils/token.manager.js:108-128 | undefined for a falsy id; otherwise the user's only record, or null when there is none; the collection is not changed |
| `TokenManagement.TokenManager.UpdateRefreshToken` | src/utils/token.manager.js:137-162 | both arguments must be truthy; selection is by userId only; that record's status becomes false and its token and expiry stay; all other records are unchanged; a match is reported as one document matched and one modified, because every update also writes `updatedAt` |
| `TokenManagement.TokenManager.DeleteExistingRefreshTokens` | src/utils/token.manager.js:172-191 | undefined for a falsy id; otherwise every record of the user is removed, and no other record; the count removed is returned |
| `AuthManagement.AuthManager.FindByEmail` | src/utils/auth.manager.js:5-19 | throws "Undefined Email" on a falsy email; `false` exactly when no user has it; otherwise the first user with that email |
| `AuthManagement.AuthManager.CreateUser` | src/utils/auth.manager.js:21-52 | throws on a falsy name, email or password; otherwise creates a user with id `createUniqueId('user')` and the hashed password (which verifies), or rethrows create's error with no change |
| `AuthController.RegisterOutcome` | src/controllers/Auth/index.js:21-50 | defines `Register` as a reply and the users afterwards: the field check, the email lookup, then `createUser`; it never logs in, changes the users only on success, and then appends exactly one user with the request's email and city |
| `AuthController.IssueOutcome` | src/controllers/Auth/index.js:71-107 | defines the tail of `Login`: delete the user's records, issue both tokens, decode `exp`, store the record; on success it returns the two issued tokens and appends one active record of the user after the deletion, otherwise the tokens are left as the deletion left them |
| `AuthController.LoginOutcome` | src/controllers/Auth/index.js:52-121 | defines `Login` as a reply and the tokens afterwards: the field check, the email lookup, the password check, then the tail; the tokens change, or a login succeeds, only for a known email whose password verifies |
| `AuthController.Register` | src/controllers/Auth/index.js:21-50 | the reply and the users afterwards are those of `RegisterOutcome` on the users before |
| `AuthController.Login` | src/controllers/Auth/index.js:52-121 | the reply and the tokens afterwards are those of `LoginOutcome`; the users are not changed |
| `AuthController.IssueTokens` | src/controllers/Auth/index.js:71-114 | the reply and the tokens afterwards are those of `IssueOutcome` |
| `AuthController.RegisterRejects` | src/controllers/Auth/index.js:26-32 | a missing field gives 400 "Invalid request"; a known email gives 409 "user already exist"; any failure leaves the users unchanged |
| `AuthController.RegisterAddsOneUser` | src/controllers/Auth/index.js:26-44 | success happens exactly when all fields are present, the email is new, the trimmed name is non-empty and this millisecond's id is free; it then appends exactly the one user built from the request and keeps both unique indexes |
| `AuthController.RegisterSameMillisecond` | src/utils/auth.manager.js:26-43 | when a user already holds this millisecond's id, a valid registration fails on the userId index and adds nobody |
| `AuthController.RegisteredUserCanLogIn` | src/controllers/Auth/index.js:59-76 | after a registration, a login with the same email and password finds the new user, passes the password check and goes on to issue tokens for the new id |
| `AuthController.IssueRotates` | src/controllers/Auth/index.js:72-107 | afterwards the invariant holds and other users are unchanged; on success the user has exactly the new record (trimmed token, active, decoded `exp`); on any failure the user has no record |
| `AuthController.IssueSucceedsIff` | src/controllers/Auth/index.js:78-107 | the tail succeeds exactly when both tokens are issued, the refresh token decodes with a non-zero `exp`, and it is not blank when trimmed; storing cannot hit the unique index |
| `AuthController.LoginStopsBeforeRotation` | src/controllers/Auth/index.js:56-69 | a missing field stops with the thrown TypeError; an unknown email gives 404 "user not found"; a wrong password gives 401 "Invalid Password"; in each case the tokens are unchanged |
| `AuthController.LoginSuccess` | src/controllers/Auth/index.js:59-114 | on success the password verified, both issued tokens are returned, the user has exactly one active record with the new token and the decoded `exp`, and other users are unchanged |
| `AuthController.LoginFailureAfterRotation` | src/controllers/Auth/index.js:72-107 | a failure after the password check leaves the user with no refresh record and other users unchanged |
| `AuthController.LoginTwice` | src/controllers/Auth/index.js:72-102 | after two successful logins the user has exactly one record, holding the second call's token |

## Left out

- `GoogleLogin` (src/controllers/Auth/index.js:124-196) is not modelled. It calls an external HTTP endpoint. As written, line 128 reads `accessToken` before its declaration at line 153, so it fails at once. Its tail is the rotate-and-issue sequence that `IssueTokens` models.
- `src/controllers/Profile/index.js` is not modelled. It only copies fields into a response.
- The routes, `app.js`, `server.js` and the database configuration are wiring, not core logic. They are not part of this model.
- Module loading is not modelled. src/controllers/Auth/index.js declares `axios` twice (lines 1 and 6), which a JavaScript engine refuses when it loads the module. The model treats the handlers as if the module had loaded.
- Logging and `async`/`await` are not modelled. Every call is taken in program order.
- Cryptography is abstracted: PBKDF2 (section 5.2 of RFC 8018) is a function parameter, and `crypto.randomBytes(16)` is a 16-byte argument.
- The salt's randomness is not modelled, so "two hashes of one password differ" is not stated.
- `Passwords.HashedPassword`: the key-derivation function is total in the model, so the promise's rejection path (a primitive error) is not modelled.
- Token issuance is a pair of function parameters. The issuer is not part of this model.
  - An issuer that throws instead of returning a falsy value is not modelled.
  - The lifetimes of access and refresh tokens are not modelled.
- JWT decoding is a function parameter returning an optional payload. Of the payload, only `exp` (section 4.1.4 of RFC 7519) is modelled. Header and signature are not.
- Mongoose and MongoDB are modelled as in-memory sequences.
  - The `createdAt`/`updatedAt` timestamps are not modelled.
  - Setters applied to query filters are not modelled: a lookup compares the given value as is.
  - When a user document breaks both unique indexes, the model reports `userId`.
  - Casting non-string or non-number values is not modelled.
- TokenManagement.TokenManager.UpdateRefreshToken: the `updatedAt` value that every update writes is not modelled. Only its effect on the summary is: a matched record always counts as modified, even when its status was already false.
- Concurrency is not modelled. That includes the race between two logins of one user around delete-then-insert.
- Arguments of the wrong JavaScript type are not modelled, for example `validateUserId(undefined)` throwing a TypeError.
- Falsy numbers other than `0` and `undefined` (`NaN`, `null`) are not modelled.
- Unreachable code is not modelled. This covers `createUser`'s `if (!user) throw error`, `Register`'s `if (!isUserCreated)` (src/controllers/Auth/index.js:38, since `createUser` returns a user or throws), and the null checks after `Token.create`, `updateOne` and `deleteMany`, none of which can be reached.
