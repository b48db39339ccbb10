# User accounts of the cat backend, in Dafny

This project models the user-account part of an Express and Mongoose backend. That part has
four pieces:

- the `users` schema: validators, setters, the unique e-mail index and the JSON form without
  the password;
- `UserService`: register, login, the two lookups and update, over the users collection;
- the user controller: `register`, `login`, `getProfile` and `updateProfile`, which map
  requests to HTTP status codes and bodies;
- the one-off script that migrates legacy users, which have a `username` and no e-mail.

The collection is a `map<Id, Doc>`. A document's absent fields are `None`. The invariant
`ValidTable` says three things: every stored document passes the schema, as its setters store
it; no two documents share an e-mail; and every key is an ObjectId in its canonical lower-case
hex form. Every service operation that writes is proved to keep it. The migration is not: the legacy
documents it starts from break the invariant.

An id from a request is cast before it is compared: `CastId` maps any 24-hex-digit string to the
canonical form of the ObjectId it names, so `findById` and `$ne` find a user whatever the case of
the hex digits.

Modules:

- `Results`: the `Option` and `Result` types.
- `Messages`: the Spanish messages the code answers with, each defined once.
- `Text`: JavaScript's `trim()` and ASCII `toLowerCase()` / `toUpperCase()`, and the e-mail
  normalisation `toLowerCase().trim()`. It also holds the e-mail pattern
  `^[^\s@]+@[^\s@]+\.[^\s@]+$` in two forms: `IsEmail`, which looks for the cut at `@`, and
  `MatchesEmailRegex`, the pattern read literally. They are proved to accept the same strings.
- `UserModel`: the document, and the validators in schema order with the messages of a
  Mongoose `ValidationError`. The setters become `Cast`. `save` is `Save`, which refuses an
  e-mail another document holds with MongoDB's duplicate-key error (code 11000). `toJSON`
  becomes `ToJSON`, and the timestamps become `Stamped`.
- `UserServiceModel`: each service operation as a function of the collection, plus the class
  `UserService`.
  - The class holds the collection as a `map` field and the bcrypt digest function as `hash`.
  - Its methods `Register` and `UpdateUser` change the collection. They are proved equal to
    `RegisterOutcome` and `UpdateOutcome`.
  - `UpdateUser` rewrites its argument field by field, as the service does. It hands the write
    to `FindAndUpdate`, which models `findByIdAndUpdate` with `runValidators`.
  - `Login`, `GetUserById` and `GetUserByEmail` only read, so they are functions of the
    collection.
- `UserController`: each handler as a function from the request and the collection to a
  `Response(status, body)` and the collection afterwards.
  - The `for` loop of `updateProfile` that fills `filteredData` is the method
    `FilterProfileFields`.
  - The methods `Register` and `UpdateProfile` run a handler against a `UserService`.
- `MigrateUsers`: lines 13 to 39 of the script.
  - The method `MigrateUsers` loops over the selected users, skips those without a username,
    rewrites and saves the others, and stops at the first failed save.
  - It is proved equal to the recursive `Migration`. The lemmas then describe the collection it
    leaves, after a completed run and after an aborted one.

Three parts of the environment are parameters:

- bcrypt is a function `hash`. `IsPasswordHash` requires it to be injective, with digests of at
  least 60 characters; `PasswordHashExists` exhibits such a function. A password verifies when
  its digest equals the stored one.
- The ObjectId that MongoDB assigns to a new document is the parameter `newId`.
- The clock is `now`.

Two behaviours of the handlers follow directly from the code:

- `getProfile` answers 500, not 404, for an id that is not an ObjectId. The service turns the
  failed cast into a thrown error (src/services/user.service.ts:101-103), and the handler maps
  every thrown error to 500 (src/controllers/user.controller.ts:162-166).
- The update handler answers 400 with the service's error message as it is, including a
  Mongoose cast or validation message (src/controllers/user.controller.ts:217-221).

## Model

| member | source | states |
|---|---|---|
| Text.TrimStartSuffix | src/services/user.service.ts:59 | stripping the start removes exactly a leading run of whitespace and keeps a suffix that is empty or starts with a non-space |
| Text.TrimEndPrefix | src/services/user.service.ts:60 | stripping the end removes exactly a trailing run of whitespace and keeps a prefix that is empty or ends with a non-space |
| Text.Trim | src/services/user.service.ts:59-60 | `trim()` yields a string with no whitespace at either end, no longer than its input |
| Text.TrimSlice | src/controllers/user.controller.ts:187-188 | `trim()` keeps one contiguous slice of the input and removes only whitespace around it |
| Text.TrimOfTrimmed | src/models/user.model.ts:18 | a string already trimmed is left unchanged by the `trim` setter |
| Text.TrimIdempotent | src/services/user.service.ts:139-144 | trimming twice (controller, then service, then setter) gives the same as trimming once |
| Text.TrimOfNoSpace | src/scripts/migrate-users.ts:31-33 | a string without whitespace is unchanged by trimming |
| Text.TrimEmpty | src/controllers/user.controller.ts:187 | a value trims to the empty string exactly when it is all whitespace |
| Text.TrimStartAppend | src/scripts/migrate-users.ts:28-33 | stripping the start of `a + b`, where `b` starts with a non-space, strips only the start of `a` |
| Text.TrimAppend | src/scripts/migrate-users.ts:28-33 | trimming `a + b`, where `b` starts and ends with a non-space, strips only the start of `a` |
| Text.LowerCharKeepsClass | src/services/user.service.ts:47 | lower-casing a character keeps whitespace, `@` and `.` as they are and is idempotent |
| Text.UpperCharKeepsClass | src/scripts/migrate-users.ts:29 | upper-casing a character keeps whitespace and `@` as they are |
| Text.CapitalizeKeepsClass | src/scripts/migrate-users.ts:29 | capitalising keeps the length; it introduces or removes no whitespace and no `@` |
| Text.LowerKeepsClass | src/scripts/migrate-users.ts:28 | lower-casing introduces or removes no whitespace and no `@` |
| Text.LowerAppend | src/scripts/migrate-users.ts:28 | lower-casing a concatenation lower-cases each part |
| Text.LowerIdempotent | src/models/user.model.ts:33 | the `lowercase` setter changes nothing on a lower-cased string |
| Text.LowerTrimStart | src/services/user.service.ts:47 | lower-casing commutes with stripping leading whitespace |
| Text.LowerTrimEnd | src/services/user.service.ts:47 | lower-casing commutes with stripping trailing whitespace |
| Text.LowerTrim | src/services/user.service.ts:47 | lower-casing commutes with `trim()` |
| Text.NormalizeTrimmed | src/services/user.service.ts:127 | normalising an e-mail the controller already trimmed gives the same address as normalising the raw one |
| Text.NormalizeEmailIdempotent | src/models/user.model.ts:33-34 | the setters change nothing on a normalised e-mail |
| Text.EmailToRegex | src/models/user.model.ts:36 | every string the e-mail check accepts matches the pattern read literally |
| Text.RegexToEmail | src/controllers/user.controller.ts:37 | every split `local@host.tld` into non-empty runs of non-space, non-`@` characters passes the e-mail check |
| Text.EmailMatchesRegex | src/services/user.service.ts:26 | the e-mail check accepts exactly the strings the pattern matches |
| Text.EmailHasNoSpace | src/models/user.model.ts:34-36 | an e-mail has no whitespace, so trimming it changes nothing |
| Text.LowerKeepsEmail | src/models/user.model.ts:33-36 | a lower-cased e-mail still matches the pattern |
| Text.NormalizedEmailOfEmail | src/services/user.service.ts:61 | the normalised form of a valid e-mail is its lower-cased form, which is still a valid e-mail |
| Text.EmailWithDomain | src/scripts/migrate-users.ts:28 | `x@domain`, for a domain of the form `host.tld`, is an e-mail exactly when `x` is non-empty with no whitespace and no `@` |
| UserModel.Errors | src/models/user.model.ts:14-44 | no error exactly when every validator passes; every failing validator is reported and nothing else is |
| UserModel.ValidIff | src/models/user.model.ts:15-44 | a document is valid exactly when both names are 2 to 50 characters long, the e-mail matches the pattern and the password has at least 4 characters |
| UserModel.CastId | src/services/user.service.ts:99 | the cast maps a 24-hex-digit id to the canonical lower-case form of the ObjectId it names, changing only upper-case hex letters, and leaves a canonical id unchanged |
| UserModel.MissingNamesReported | src/models/user.model.ts:15-28 | a document without names gets a `required` error on each of the two name paths |
| UserModel.MalformedEmailReported | src/models/user.model.ts:35-38 | a non-empty e-mail that does not match the pattern fails on the `email` path with the schema's message |
| UserModel.CastIdempotent | src/models/user.model.ts:18-34 | running the `trim` and `lowercase` setters a second time changes nothing |
| UserModel.FindByEmail | src/services/user.service.ts:46-48 | `findOne({ email })` finds a document holding the address exactly when one exists, and the one it finds holds it |
| UserModel.SaveResult | src/services/user.service.ts:58-65 | `save` succeeds exactly when the document, after its setters, passes validation and no other document holds its e-mail; it then writes that document under its id and nothing else |
| UserModel.PutKeepsEmailsUnique | src/models/user.model.ts:32 | writing a document whose e-mail no other document holds keeps e-mails unique |
| UserModel.SaveKeepsTableValid | src/models/user.model.ts:14-46 | a successful save keeps every document valid and every e-mail unique |
| UserModel.SaveRefusesDuplicate | src/models/user.model.ts:32 | a second document with a stored document's e-mail is refused |
| UserModel.ToJSONIgnoresPassword | src/models/user.model.ts:47-52 | the JSON form does not depend on the password |
| UserModel.ToJSONKeepsOtherFields | src/models/user.model.ts:47-52 | two documents have the same JSON form exactly when they share the id and differ at most in the password |
| UserModel.Stamped | src/models/user.model.ts:46 | a new document gets `createdAt` and `updatedAt` set to the creation time; nothing else changes |
| UserServiceModel.PasswordHashExists | src/services/user.service.ts:55 | the assumption on `bcrypt.hash` is met by some function: a 60-character prefix followed by the password is injective with long enough digests |
| UserServiceModel.RegisterErrorNoneIff | src/services/user.service.ts:21-43 | the service's checks pass exactly when all four fields are given, the e-mail matches, the password has at least 4 characters and both trimmed names at least 2 |
| UserServiceModel.RegisterRefusal | src/services/user.service.ts:21-52 | the first failing check names the error; a taken normalised e-mail gives the duplicate-e-mail error; every failure leaves the collection unchanged |
| UserServiceModel.NewUserIsCast | src/services/user.service.ts:58-63 | the setters change nothing on the document `register` builds |
| UserServiceModel.RegisterStoresHashedUser | src/services/user.service.ts:55-66 | a successful registration adds exactly one document under the new id: trimmed names, normalised e-mail, the password's digest and both timestamps |
| UserServiceModel.RegisterKeepsTableValid | src/services/user.service.ts:17-67 | registration keeps every document valid and every e-mail unique |
| UserServiceModel.RegisterWriteFailsOnlyOnLongNames | src/services/user.service.ts:37-65 | once the checks pass and the e-mail is free, the write fails exactly when a trimmed name is longer than 50 characters, never on the unique index |
| UserServiceModel.LoginFailuresIndistinguishable | src/services/user.service.ts:82-90 | an unknown e-mail and a wrong password throw the very same error |
| UserServiceModel.LoginFindsTheUser | src/services/user.service.ts:78-94 | a successful login returns the JSON form of the document whose normalised e-mail and password digest match |
| UserServiceModel.RegisterThenLogin | src/services/user.service.ts:61-80 | after a registration, login with any spelling that normalises to the same e-mail succeeds exactly with the registered password and returns the new user |
| UserServiceModel.GetUserById | src/services/user.service.ts:97-104 | a malformed id throws "user not found"; a well-formed id, in either case, gives the JSON form of the user stored under the ObjectId it names exactly when there is one |
| UserServiceModel.GetUserByEmail | src/services/user.service.ts:106-115 | the user holding the normalised e-mail, in JSON form, or nothing exactly when no document holds it |
| UserServiceModel.LookupsIgnorePasswords | src/services/user.service.ts:99-110 | changing a stored password changes nothing either lookup returns |
| UserServiceModel.PrepareUpdateValues | src/services/user.service.ts:120-144 | the rewritten update keeps its keys: trimmed names, normalised e-mail, a non-empty password replaced by its digest, every other key as sent |
| UserServiceModel.UpdateErrorsNoneIff | src/services/user.service.ts:146-150 | the update validators pass exactly when each supplied field, after its setters, meets its schema constraint |
| UserServiceModel.UpdateFailureWritesNothing | src/services/user.service.ts:117-156 | every outcome other than an updated user leaves the collection unchanged |
| UserServiceModel.UpdateRefusesOthersEmail | src/services/user.service.ts:125-133 | an e-mail, in any spelling, that a user stored under a different ObjectId holds is refused with the duplicate-e-mail error, and nothing is written |
| UserServiceModel.UpdateUnknownId | src/services/user.service.ts:146-152 | an update that passes its checks for a well-formed id naming no stored ObjectId gives no user and writes nothing |
| UserServiceModel.UpdateWritten | src/services/user.service.ts:146-152 | an update that returns a user passed every check, and it wrote exactly the updated document under the ObjectId the id names |
| UserServiceModel.ApplyUpdateKeepsStored | src/services/user.service.ts:146-150 | an update the validators accept, applied to a valid stored document, gives a valid stored document |
| UserServiceModel.UpdateChangesOnlySupplied | src/services/user.service.ts:120-152 | a successful update rewrites only the supplied fields of the one document under the ObjectId the id names and sets `updatedAt`, then returns that document's JSON form |
| UserServiceModel.UpdateKeepsTableValid | src/services/user.service.ts:117-156 | an update keeps every document valid and every e-mail unique |
| UserServiceModel.UpdateSucceedsIff | src/services/user.service.ts:125-150 | for an id, in either case, naming a stored user, the update succeeds exactly when the supplied e-mail is free and the validators pass |
| UserServiceModel.UpdateOwnEmail | src/services/user.service.ts:126-129 | setting one's own e-mail again, in any spelling that normalises to it and with the id in either case, succeeds and changes only `updatedAt` |
| UserServiceModel.UserService.constructor | src/services/user.service.ts:16 | the service starts over an empty collection with the invariant established |
| UserServiceModel.UserService.Register | src/services/user.service.ts:17-67 | the method returns what `register` returns and leaves the collection it leaves, keeping the invariant |
| UserServiceModel.UserService.UpdateUser | src/services/user.service.ts:117-156 | the field-by-field rewrite of the argument, then the write, returns what `updateUser` returns and leaves the collection it leaves, keeping the invariant |
| UserServiceModel.UserService.FindAndUpdate | src/services/user.service.ts:146-150 | `findByIdAndUpdate` with validators: the result and the new collection are those of `FindByIdAndUpdate` |
| UserController.RegisterMissingFields | src/controllers/user.controller.ts:10-15 | a request missing any field, or with an empty one, gets 400 with the list of required fields, and the service is not called |
| UserController.RegisterGuardAgreesWithService | src/controllers/user.controller.ts:10-42 | a request passes the controller's checks exactly when it passes the service's; a refused request gets a 400 and writes nothing |
| UserController.RegisterOrdersDiffer | src/controllers/user.controller.ts:18-42 | for a one-letter first name and a malformed e-mail, the controller reports the name and the service the e-mail |
| UserController.RegisterCreated | src/controllers/user.controller.ts:44-63 | a 201 carries a token for the new id and e-mail and a projection with trimmed names, normalised e-mail and creation time; the collection gains that user with the password's digest |
| UserController.RegisterRefused | src/controllers/user.controller.ts:64-76 | every refusal is a 400 that writes nothing; past the guards, a taken e-mail gives the duplicate message, and otherwise the request fails exactly on a name over 50 characters |
| UserController.LoginStatus | src/controllers/user.controller.ts:85-129 | 400 exactly for a missing credential or malformed e-mail; otherwise 401 exactly when the service fails, always with the same message, and 200 when it accepts |
| UserController.LoginUnknownEqualsWrongPassword | src/controllers/user.controller.ts:116-129 | an unknown e-mail and a wrong password get the identical 401 response |
| UserController.LoginAccepted | src/controllers/user.controller.ts:99-115 | a 200 answers with the matching stored user, with a token for its id and e-mail and its full name |
| UserController.GetProfileOutcomes | src/controllers/user.controller.ts:133-168 | 400 exactly without an id, 500 exactly for a malformed one, 404 exactly for a well-formed one naming no stored ObjectId, 200 exactly when it names a stored user, shown with `fullName` and without password |
| UserController.FilterProfileFields | src/controllers/user.controller.ts:183-190 | the loop keeps exactly the allowed fields whose trimmed value is non-empty, each stored trimmed |
| UserController.ProfileFieldsValues | src/controllers/user.controller.ts:186-190 | the filtered body holds only first name, last name and e-mail, exactly those given non-blank, each trimmed |
| UserController.UpdateProfileNothingToUpdate | src/controllers/user.controller.ts:192-196 | with no non-blank allowed field the handler answers 400 and the service is not called |
| UserController.UpdateProfileUnknownUser | src/controllers/user.controller.ts:198-204 | an id naming no stored user (malformed, or a well-formed one in either case) is never answered 200 and nothing is written; past the filter and the validators it gets 404 |
| UserController.UpdateProfileStoresTrimmed | src/controllers/user.controller.ts:198-216 | a 200 rewrites only the user under the ObjectId the id names: each non-blank allowed field stored trimmed (e-mail normalised), every other field kept, `updatedAt` set |
| UserController.FilteredEdit | src/controllers/user.controller.ts:186-198 | an update from the filtered body edits each given field with its trimmed value, leaving password and the rest alone |
| UserController.UpdateProfileKeepsPasswords | src/controllers/user.controller.ts:171-223 | whatever the request, `updateProfile` keeps the collection's ids and every stored password |
| UserController.Register | src/controllers/user.controller.ts:5-78 | running the handler against a service answers `RegisterResponse` and leaves the service's collection as it describes, keeping the invariant |
| UserController.UpdateProfile | src/controllers/user.controller.ts:171-223 | running the handler against a service answers `UpdateProfileResponse` and leaves the service's collection as it describes, keeping the invariant |
| MigrateUsers.Legacy | src/scripts/migrate-users.ts:13 | over a scan that lists every stored id once, the query returns every stored document without an e-mail and only those, each once with its own id |
| MigrateUsers.MigrateUsers | src/scripts/migrate-users.ts:13-39 | the loop reports and leaves exactly what `Migration` describes |
| MigrateUsers.NothingToMigrateIff | src/scripts/migrate-users.ts:13-18 | the script reports nothing to migrate exactly when every stored document has an e-mail, and then changes nothing |
| MigrateUsers.RunNeverNothing | src/scripts/migrate-users.ts:20-39 | the loop ends completed or aborted: the early return is the only way to report nothing to migrate |
| MigrateUsers.RunCompleted | src/scripts/migrate-users.ts:20-39 | a completed run has written every listed user with a username, in order, and nothing else |
| MigrateUsers.RunAborted | src/scripts/migrate-users.ts:20-44 | an aborted run stopped at a user with a username whose save failed with the reported error, after writing exactly the users before it |
| MigrateUsers.AppliedOutside | src/scripts/migrate-users.ts:20-39 | the loop touches no document outside the selected list |
| MigrateUsers.AppliedInside | src/scripts/migrate-users.ts:21-37 | each selected user ends up migrated if it has a username and untouched otherwise |
| MigrateUsers.AppliedKeys | src/scripts/migrate-users.ts:37 | saving selected users keeps the collection's ids |
| MigrateUsers.MigrationCompleted | src/scripts/migrate-users.ts:13-41 | after a completed migration, each stored user without an e-mail that has a username is migrated and every other document is unchanged |
| MigrateUsers.MigrationAborted | src/scripts/migrate-users.ts:20-44 | after an aborted migration, the users before the failed one are migrated, that user and all later ones are untouched, and so is every document with an e-mail |
| MigrateUsers.Select | src/scripts/migrate-users.ts:13 | the documents without an e-mail among the scanned ids, with their ids, every one of them and only those |
| MigrateUsers.SelectDistinct | src/scripts/migrate-users.ts:13 | a scan that names each id once yields one document per id |
| MigrateUsers.MigratedStored | src/scripts/migrate-users.ts:28-37 | a migrated user is stored with the capitalised username trimmed as first name, last name "User", e-mail `lowercase(username without leading whitespace)@fakeemail.com`, no username, everything else kept; without whitespace, exactly as the loop writes it |
| MigrateUsers.NormalizedFakeEmail | src/scripts/migrate-users.ts:28 | the setters store the synthetic e-mail with only the username's leading whitespace removed |
| MigrateUsers.FakeEmailShape | src/scripts/migrate-users.ts:28 | the stored synthetic e-mail matches the pattern exactly when the username, past leading whitespace, is non-empty with no whitespace or `@` |
| MigrateUsers.MigratedSaveSucceeds | src/scripts/migrate-users.ts:28-37 | a migrated user's save succeeds exactly when the stored first name has 2 to 50 characters, the username past leading whitespace is non-empty with no whitespace or `@`, the password passes its validator and no other document holds the stored e-mail; for a username without whitespace, 2 to 50 characters with no `@` |
| MigrateUsers.MigrationAsWrittenChangesNothing | src/scripts/migrate-users.ts:20-37 | as written, the loop reads `username` as undefined for every user, so the migration never changes the collection |
| MigrateUsers.MigrationAsWrittenMissesUser | src/scripts/migrate-users.ts:21-37 | a legacy user with a username gets an e-mail from `Migration` and keeps none under the code as written |
| MigrateUsers.RunSkipsAll | src/scripts/migrate-users.ts:20-26 | a loop that meets no username completes and writes nothing |

## Left out

- Tokens: `generateToken` and its JSON Web Token signing are not modelled. This includes the
  HMAC secret, the 5-hour lifetime and the check that the secret is configured. A token is
  modelled as the claims it carries: the id and the e-mail.
- bcrypt: the salt and the cost factor 12 are not modelled. The hash is an abstract injective
  function with digests of at least 60 characters, and `compare` is equality of digests. Real
  bcrypt digests are exactly 60 characters and only the first 72 bytes of a password count, so
  bcrypt is not injective; the model idealises it, and a collision between two passwords is not
  modelled. `compare` against
  a document without a password throws bcrypt's "Illegal arguments" error.
- The MongoDB connection and the asynchronous plumbing are not modelled. Each call completes
  in order on an in-memory map, with no concurrent requests. So the duplicate-e-mail check and
  the write never race, and a race that the unique index would catch is not modelled.
- Logging (`console.*`) is not modelled.
- Unicode: `\s` and `trim()` are modelled over a fixed whitespace set (space, tab, line feed,
  carriage return, vertical tab, form feed, no-break space, byte-order mark). Case mapping
  covers ASCII letters only.
- The cat and image services and controllers, `app.ts`, the routes and `server.ts` are not
  part of this model.
- ObjectId generation and the clock are parameters (`newId`, `now`).
- The order in which `find` lists documents is a parameter (`order`) of the migration.
- Request bodies hold strings only. A non-string value, which would make `.trim()` throw
  a `TypeError`, is not modelled.
- Unknown keys of an update body are kept by the service. Mongoose's strict mode drops them at
  the write; `ApplyUpdate` ignores them in the same way.
- Migration: the schema has no `username` path, so `(user as any).username` on a loaded Mongoose
  document reads `undefined`, and `(user as any).username = undefined` does not unset the stored
  field. `Migration` reads the stored field and drops it, as the script evidently means to do;
  `MigrationAsWritten` models the code as written (see "## Findings"). The connect and the
  disconnect are not modelled.
- The migration's scan (`order`) is required to list every stored id exactly once (`Listing`),
  as a `find` over the whole collection does.
- Mongoose's other document fields (`__v`, `_id` as an object) are not modelled. An ObjectId is
  its 24-hex-digit string, stored in lower case; a request id is cast with `CastId`. An id of 12
  bytes, which Mongoose also casts, is treated as malformed.
- UserModel.NameError: lengths count Unicode scalar values, where JavaScript's `length` counts
  UTF-16 code units, so a character outside the Basic Multilingual Plane counts 1 here and 2 in
  the source.
- UserModel.PasswordError: the same difference in counting length as for `NameError`.
- UserServiceModel.RegisterError: the same difference in counting length as for `NameError`.
- UserController.RegisterGuard: the same difference in counting length as for `NameError`.

## Findings

| source | as written | input that shows it | evidently intended | confidence | as-written member | corrected member |
|---|---|---|---|---|---|---|
| src/scripts/migrate-users.ts:21 | `username` is read through the Mongoose document, whose schema has no such path, so it is `undefined` and every legacy user is skipped | any stored document `{ username: "bob", password: … }` without an e-mail: the run logs a warning for it and completes without writing | read the stored `username` and write the migrated user | medium, not executed | MigrateUsers.MigrationAsWrittenChangesNothing | MigrateUsers.MigrationCompleted |
