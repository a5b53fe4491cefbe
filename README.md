# Event-management REST backend, modelled in Dafny

This project models the core of a small Express/SQLite backend. Users sign up and log in, then create, edit, delete and list events, attach an image, and register or unregister for events. The modelled core is:

- **Identity.** Credential checks and bcrypt-hashed storage (`models/User.js`). Signup and login (`controllers/users.js`). Token issue, verification and the authorization gate in front of every event route (`util/auth.js`).
- **The owner-scoped event lifecycle.** The data layer over the `events` and `registrations` tables (`models/Events.js`). The request handlers (`controllers/events.js`).

How it is built:

- **Tables are classes.** The `events`, `registrations` and `users` tables are `seq` fields of the classes `EventModel.EventTable` and `UserModel.UserTable`. Each data-layer function that runs a statement is a method or function on that class.
- **Ids.** A row id is SQLite's choice for an `INTEGER PRIMARY KEY` without `AUTOINCREMENT`: the largest id in use plus one (`RowIds.NextRowId`).
- **Thrown errors.** A thrown `Error` is an `Err(message)` value. Its message is built the way the code builds it, a prefix plus the inner message: `"Failed to get event: " + "Event not found"`.
- **Catch blocks.** The handlers' `catch` blocks test that message with `includes`, modelled by `Text.Includes`. The model proves which status each error the data layer raises ends up as.
- **Handlers.** Every handler is a method over the tables and the `Claims` the gate attached. It returns the status and body it sends.
- **Foreign code is passed in as parameters.**
  - bcrypt is a `Hasher`, assumed sound through `UserModel.HasherSound`.
  - jsonwebtoken is a `Signer`, assumed sound through `Auth.SignerSound`.
  - `Date.parse` is `dateParses`.
  - `fs.unlinkSync` is `unlinkSucceeds`.
  - The token secret, the clocks (database time, ISO time, seconds) and bcrypt's random salt are also parameters.
- **Validation patterns.** The email and password regular expressions are stated twice: as the language the pattern denotes, and as a direct check. The model proves the two are the same.
- **Scenarios.** The `Scenarios` module chains controller handlers one after another. On the users side, each request body is the one the controller receives, after the route's validators (see "Left out"). It covers:
  - registering twice, then unregistering twice;
  - events that are invisible to everyone except their owner;
  - deleting an event, then fetching it;
  - titles that are unique per owner;
  - two signups whose emails differ only in letter case;
  - signup, then login, then the gate;
  - reuse of an id after the event holding the largest id is deleted.

Three behaviours of the code that a reader might not expect, all kept in the model:

- **Old image on edit.** Replacing an event's image in `edit` (controllers/events.js:79-88) never unlinks the old file; only the `image` column is overwritten, and `EventHandlers.Edit` deletes nothing.
- **Unique titles.** Only `create` checks per-owner title uniqueness (controllers/events.js:28-32); `edit` does not, so `EventHandlers.Edit` can give one owner two events with the same title.
- **Stale registrations.** `deleteEvent` leaves the event's registrations in place, and SQLite reuses the largest id, so a later event can inherit them (`Scenarios.StaleRegistrationsCarryOver`). This holds when foreign-key enforcement is off, as assumed under "Left out"; with it on, deleting a registered event fails instead.

## Model

| member | source | states |
|---|---|---|
| Text.Truthy | controllers/events.js:11-15 | defined as JavaScript truthiness of a value that is missing or a string: only a present, non-empty string is truthy, so `!x` holds for `undefined` and `""` |
| Text.IsBlank | controllers/events.js:11-15 | defined as `trim` (leading and trailing white space and line terminators removed) yielding the empty string, the meaning of `!x.trim()` |
| Text.BlankIffAllTrimmable | controllers/events.js:11-15 | `!s.trim()` holds exactly when every code point of `s` is ECMAScript white space or a line terminator |
| Text.ToLower | controllers/users.js:28 | the lower-cased email has the same length, and each position is the ASCII lower case of the input's |
| Text.LowerIdempotent | controllers/users.js:28 | lower-casing an already lower-cased email changes nothing, so every spelling of a stored address finds it |
| Text.LowerOnlyTouchesUpperCase | controllers/users.js:28 | no upper-case ASCII letter survives, and every other code point is unchanged |
| Text.Split | util/auth.js:24 | `split(' ')` yields at least one piece, and no piece contains a space |
| Text.JoinSplit | util/auth.js:24 | joining the pieces of `split(' ')` with spaces gives back the header |
| Text.SplitJoin | util/auth.js:24 | splitting space-joined, space-free words gives back those words |
| Text.SplitNoSeparator | util/auth.js:24 | a header with no space splits into the single piece it is |
| Text.SplitAfterPiece | util/auth.js:24 | splitting `a + " " + r` gives `a` followed by the pieces of `r` |
| Text.Includes | controllers/events.js:92 | defined as `message.includes(t)`: `t` occurs in `message` at some position |
| Text.IncludesIffInfix | controllers/events.js:92 | `s.includes(t)` exactly when `s` is `a + t + b` for some `a` and `b` |
| Text.IncludesSuffix | controllers/events.js:92 | a message that ends in `t`, such as "Failed to get event: Event not found", includes `t` |
| Text.LongerNotIncluded | controllers/events.js:198 | a message shorter than `t` never includes `t` |
| CredentialRules.EmailPattern | controllers/users.js:16 | the language of `/^[a-zA-Z0-9._%+-]+@[a-zA-Z0-9.-]+\.[a-zA-Z]{2,}$/` (the same literal as at line 55): one or more local characters, `@`, a non-empty run of domain characters, a `.`, and two or more ASCII letters up to the end |
| CredentialRules.PasswordPattern | controllers/users.js:22 | the language of `/^(?=.*[a-z])(?=.*[A-Z])(?=.*\d)[a-zA-Z\d@&!#_]{8,}$/` (the same literal as at line 61): each lookahead read as "a character of the class with no line terminator before it", then eight or more characters of the class up to the end |
| CredentialRules.IsValidEmail | controllers/users.js:16-17 | defined as the direct check: the first `@` at position at least 1 after local characters `[a-zA-Z0-9._%+-]`, domain characters `[a-zA-Z0-9.-]` after it, and the last `.` at least two past the `@` and followed by two or more ASCII letters up to the end |
| CredentialRules.IsValidPassword | controllers/users.js:22-23 | defined as the direct check: length at least 8, every character in `[a-zA-Z0-9@&!#_]`, and some lower-case letter, upper-case letter and digit |
| CredentialRules.EmailCheckSound | controllers/users.js:16-17 | every address the direct check accepts matches the email pattern |
| CredentialRules.EmailCheckComplete | controllers/users.js:16-17 | every address matching the email pattern passes the direct check |
| CredentialRules.EmailCheckMatchesPattern | controllers/users.js:16-17 | the direct check accepts exactly the language of the email pattern |
| CredentialRules.LowerKeepsEmailValid | controllers/users.js:16-28 | lower-casing an accepted email keeps it accepted |
| CredentialRules.PasswordCheckMatchesPattern | controllers/users.js:22-23 | the direct check (length at least 8, allowed characters only, a lower-case letter, an upper-case letter and a digit) accepts exactly the strings the password pattern with its three lookaheads matches |
| CredentialRules.PatternPasswordHasNoNul | controllers/users.js:22 | a password the pattern accepts never contains U+0000 |
| CredentialRules.ValidPasswordHasNoDollar | controllers/users.js:22 | an accepted password never contains `$` |
| Auth.GenerateToken | util/auth.js:4-9 | under the signer's assumptions, the token is non-empty, holds no space, and verifies at the issuing time to `{userId, email}` with `iat` = now and `exp` = now + 3600 |
| Auth.VerifyToken | util/auth.js:12-19 | verification yields the decoded claims, or an error whose message is always "Invalid or expired token" |
| Auth.IssuedTokenVerifies | util/auth.js:4-19 | a token issued at time `t0` verifies under the same secret at any time before `t0 + 3600`, yielding `{userId, email}` with `iat = t0` and `exp = t0 + 3600` |
| Auth.ExpiredTokenRejected | util/auth.js:7-17 | from `t0 + 3600` on, the same token gets the fixed invalid-token error |
| Auth.AuthenticateToken | util/auth.js:22-45 | accepting sets `req.user` to the decoded claims, calls `next` exactly once and sends nothing; rejecting sends the 401/401/403 reply for a missing header, a missing token or a failing token, leaving `req.user` alone and not calling `next` |
| Auth.TokenOf | util/auth.js:24 | `authHeader.split(' ')[1]` is undefined exactly when the header holds no space, and a token found holds no space |
| Auth.Decide | util/auth.js:22-45 | the gate authorizes only a truthy header containing a space whose second piece verifies, and the claims are exactly what verification returned |
| Auth.RejectionOf | util/auth.js:28-44 | a rejection is 403 exactly for a token that fails verification, with the message "Invalid or expired token" exactly then, and 401 otherwise |
| Auth.TokenAfterAnyScheme | util/auth.js:24 | in `scheme + " " + token` the token is the second piece, whatever the scheme word is |
| Auth.SingleWordHasNoToken | util/auth.js:24-36 | a non-empty header without a space is always rejected as "Access token required" |
| Auth.DoubleSpaceHasNoToken | util/auth.js:24-36 | `"Bearer  x"` (two spaces) yields an empty token and is rejected as missing |
| Auth.GateAcceptsIssuedToken | util/auth.js:4-45 | a token the service issued passes the gate within its hour, and `req.user` becomes the identity it was issued for |
| Auth.RejectionStatuses | util/auth.js:28-44 | 401 for a missing header or token, 403 for a token that does not verify, each condition as an iff |
| RowIds.MaxId | models/Events.js:8-10 | the largest id in use: no id exceeds it and it is one of the ids, or 0 when no id is positive |
| RowIds.NextRowId | models/Events.js:8-10 | the id `lastInsertRowid` reports is positive, greater than every id in the table, and either 1 or one more than an id in use |
| RowIds.NextIdOf | models/Events.js:8-10 | the key the next insert into a table receives is positive, above the key of every row, and either 1 or one more than some row's key |
| EventModel.NextEventId | models/Events.js:7-10 | a new event's id is positive and differs from every existing event's id |
| EventModel.IncreasingUnique | models/Events.js:36 | in a table with ascending ids, an id names at most one row |
| EventModel.WithoutId | models/Events.js:36-37 | `DELETE ... WHERE id = ?` keeps exactly the rows with another id, keeps ids ascending, and shrinks the table exactly when a row had that id |
| EventModel.WithoutLastRow | models/Events.js:36-37 | deleting the last row's id gives back the rows before it |
| EventModel.Overwrite | models/Events.js:22-23 | `UPDATE ... WHERE id = ?` keeps every row's id, `created_by` and `created_at`; sets title, description, address, date and image of the rows with that id to the edit's; leaves every other row as it was; keeps ids ascending |
| EventModel.OwnedBy | models/Events.js:60-61 | `WHERE created_by = ?` selects exactly the caller's rows, in table order |
| EventModel.FirstMatch | models/Events.js:72-73 | `stmt.get` returns nothing exactly when no row has that column value and owner, and otherwise a row that has both |
| EventModel.WithoutPair | models/Events.js:107-108 | `DELETE FROM registrations WHERE event_id = ? AND user_id = ?` removes exactly that pair, keeps pairs unique, and leaves the table unchanged when the pair is absent |
| EventModel.WithoutAppendedPair | models/Events.js:84-116 | registering a new pair and then unregistering it restores the registrations |
| EventModel.EventTable.CreateEvent | models/Events.js:5-17 | appends one row with a fresh id, owner, image and database timestamp; returns that id, the data and the ISO time; keeps ids ascending; registrations unchanged |
| EventModel.EventTable.EditEvent | models/Events.js:20-31 | without a row of that id: "Failed to edit event: Event not found" and nothing changes; otherwise the row is overwritten and `{id, ...eventData}` returned |
| EventModel.EventTable.DeleteUserEvent | models/Events.js:34-45 | removes the row of that id, returning the success message, or "Failed to delete event: Event not found" when no row changed; registrations unchanged |
| EventModel.EventTable.GetAllEvents | models/Events.js:48-55 | every event, in table order; ascending by id, so no two listed events share an id |
| EventModel.EventTable.GetEventsByUser | models/Events.js:58-65 | exactly the caller's events, still ascending by id |
| EventModel.EventTable.GetEventByUserAndParameter | models/Events.js:70-81 | a row matching the column and owner; when missing, the error "Failed to get event: Event not found" for `id`, and nothing for `title` |
| EventModel.EventTable.RegisterForEvent | models/Events.js:84-102 | a repeated pair fails with "Failed to register for event: User has already registered for event" and changes nothing; otherwise the pair is appended and pairs stay unique |
| EventModel.EventTable.UnregisterForEvent | models/Events.js:105-116 | removes the pair; the success message exactly when it was present, else "Failed to unregister for event: Event not found" |
| UserModel.NextUserId | models/User.js:14-17 | a new user's id is positive and above every existing user's id |
| UserModel.RowByEmail | models/User.js:29-30 | the row with that email, or nothing exactly when no row has it |
| UserModel.UniqueEmailRow | models/User.js:29-30 | with the UNIQUE email constraint, an email names at most one user |
| UserModel.UserTable.User | models/User.js:8-24 | a taken email fails with "Failed to create user: UNIQUE constraint failed: users.email" and changes nothing; otherwise appends the user with the bcrypt hash and a fresh id, returning id, name and email without the password; ids ascending and emails unique afterwards |
| UserModel.UserTable.FindUserByEmail | models/User.js:27-35 | the user with that email, without the password hash, or nothing exactly when no row has that email |
| UserModel.UserTable.AuthenticateUser | models/User.js:38-50 | a user exactly when one holds the email and bcrypt accepts the password against its hash; the user then is the one FindUserByEmail returns |
| UserHandlers.FormatError | controllers/users.js:15-25 | "Invalid email format" exactly when the email pattern fails; "Invalid password format" exactly when only the password pattern fails; nothing when both match |
| UserHandlers.Signup | controllers/users.js:7-43 | 400 for a missing field or a bad format, 409 when the lower-cased email is taken, otherwise 201 with the new user and a token for the new id under the lower-cased email; anything other than a 201 leaves the users table unchanged |
| UserHandlers.Login | controllers/users.js:46-85 | 400 for a missing field or a bad format; 200 with a token for the user exactly when a user holds the lower-cased email and bcrypt accepts the password; otherwise 401 "Invalid email or password" |
| UserHandlers.StoredEmailIsValid | controllers/users.js:16-35 | the lower-cased email that is stored and looked up still matches the email pattern |
| UserHandlers.StoredHashIsNotThePassword | models/User.js:11-15 | the password column never holds the password itself |
| EventHandlers.ImageName | controllers/events.js:39 | `req.file ? req.file.filename : null`: the stored filename exactly when a file was uploaded, else null |
| EventHandlers.FormError | controllers/events.js:11-26 | each of the three messages appears exactly when its check is the first to fail, in order: title and date (non-blank title, parsable date), description and address, then MIME type ∈ {image/jpeg, image/png, image/jpg} |
| EventHandlers.AcceptedFormHasText | controllers/events.js:12-16 | an accepted form's title, description and address each hold a code point that is not white space |
| EventHandlers.NotFoundResponse | controllers/events.js:91-98 | the catch block of edit (and the identical ones at 132-139, 174-181 and 222-229): 404 with the message plus "." exactly when the message includes "not found", otherwise 500 "Internal server error." |
| EventHandlers.RegisterErrorResponse | controllers/events.js:197-206 | 409 exactly when the message includes the already-registered text, 404 exactly when it does not but includes "Event not found", each with the message plus "."; otherwise 500 "Internal server error." |
| EventHandlers.CaughtNotFound | controllers/events.js:222-229 | the lookup's and unregistration's errors are answered 404 with their message plus ".", never 500 |
| EventHandlers.CaughtRegisterErrors | controllers/events.js:197-206 | in register, the lookup's error is 404 and the repeated registration 409, each with its message plus "." |
| EventHandlers.Create | controllers/events.js:7-49 | 400 with the form message; 409 when the caller already has that title (another owner's does not count); otherwise 201 with the inserted event owned by the caller, image = uploaded filename or null; nothing stored unless 201 |
| EventHandlers.Edit | controllers/events.js:52-99 | 400; 404 "Failed to get event: Event not found." with nothing changed when the event is missing or foreign; otherwise 200 and the row overwritten, keeping the old image when nothing was uploaded |
| EventHandlers.DeleteEvent | controllers/events.js:102-140 | 404 with nothing changed when missing or foreign; otherwise the row is deleted in every outcome, the registrations are kept, and the answer is 500 exactly when the event has an image whose unlink fails, else 204 |
| EventHandlers.UserEvents | controllers/events.js:143-152 | 200 with exactly the caller's events, ascending by id |
| EventHandlers.AllEvents | controllers/events.js:155-164 | 200 with every event of every user |
| EventHandlers.GetEvent | controllers/events.js:167-182 | 200 exactly when the caller owns an event with that id, returning that event; otherwise 404 "Failed to get event: Event not found." |
| EventHandlers.Register | controllers/events.js:185-207 | 404 when missing or foreign, 409 for a repeated registration, each changing nothing; otherwise 201 "Event registered successfully" and the pair added |
| EventHandlers.Unregister | controllers/events.js:210-230 | 404 when missing or foreign, 404 "Failed to unregister for event: Event not found." when not registered, each changing nothing; otherwise 204 and the pair removed |
| Scenarios.RegistrationLifecycle | controllers/events.js:185-230 | register, register, unregister, unregister gives 201, 409, 204, 404 and restores both tables |
| Scenarios.OwnerOnlyView | controllers/events.js:167-182 | the owner gets 200 with the event; any other user gets 404 for the same id |
| Scenarios.ForeignEventUntouchable | controllers/events.js:102-207 | another user's delete and register of an event are both 404 and change nothing |
| Scenarios.DeleteThenFetch | controllers/events.js:102-182 | after the owner deletes an event no row has its id, and fetching it is 404 |
| Scenarios.StaleRegistrationsCarryOver | models/Events.js:5-45 | when the newest event is deleted and its id is reused by the next insert, that event inherits the old registrations |
| Scenarios.TitleUniquePerOwner | controllers/events.js:28-44 | creating the same title twice as one owner gives 201 then 409; as a second owner, 201 |
| Scenarios.SignupTwice | controllers/users.js:27-31 | a second signup whose email differs only in case is 409 and stores nothing |
| Scenarios.OnlyThePasswordMatches | models/User.js:38-46 | the user made from a password is matched by that password and by no other password; both are at most 72 UTF-8 bytes, the part bcrypt reads, and free of U+0000 |
| Scenarios.PassesGateForAnHour | util/auth.js:4-45 | a Bearer token is authorized at every second of its hour |
| Scenarios.SignupThenLogin | controllers/users.js:7-85 | after signup, login with any case of the email and the same password is 200, and its token passes the gate for an hour with the new id; another password is 401, both passwords being at most 72 UTF-8 bytes |

## Left out

- Storage failures: SQLite I/O or driver errors inside the `try` blocks are not modelled. The 500 "Internal server error" answers that only such failures reach are therefore absent from the handlers' contracts.
- Route parameters: the `:id` route parameter is modelled as an integer. SQLite's text-to-INTEGER conversion of the string parameter, and ids that are not numbers, are not modelled.
- The `date` column's affinity: the column is declared `DATETIME NOT NULL` (initDb.js:30), which has NUMERIC affinity. A date that is a well-formed number and that `Date.parse` accepts, such as `"2024"`, is stored as the integer 2024 and read back by `getAllEvents`, `getEventsByUser` and `getEventByUserAndParameter` as a number. The model stores and returns the string, so `EventHandlers.GetEvent`, `EventHandlers.UserEvents` and `EventHandlers.AllEvents` return `"2024"` where the service returns `2024`. The 201 body of `create` carries the string in both.
- Non-string request fields: body fields are `Option<string>`, so a JSON number or object where a string is expected is not modelled.
- RowIds.NextRowId: when every id in the table is zero or negative, the model gives 1, whereas SQLite would give the largest id plus one. Every id the model inserts is at least 1, so such a table does not arise.
- Text.ToLower: lower-cases ASCII letters only, not all of Unicode. Validated emails are ASCII, so the difference does not arise on the paths where `toLowerCase` is applied.
- bcrypt: the cost factor of 10 rounds is not modelled. `Hasher` is assumed to match a hash with the password it was made from, and with no other password, among passwords of at most 72 UTF-8 bytes (`UserModel.HasherSound`). Longer passwords that share their first 72 bytes match each other's hashes. Passwords holding U+0000 can collide too: for `$2a$`/`$2b$` hashes bcryptjs (models/User.js:2) ends the key with a NUL and reads it cyclically, so "ab" and "ab\u0000ab" match each other's hashes. The uniqueness clause of `UserModel.HasherSound` therefore excludes NUL, and `Scenarios.OnlyThePasswordMatches` is stated for passwords within the 72-byte bound and without NUL. `Scenarios.SignupThenLogin` needs only the byte bound, because the password pattern excludes NUL (`CredentialRules.PatternPasswordHasNoNul`).
- jsonwebtoken's encoding, the HMAC algorithm and clock-skew options are not modelled. `Signer` is assumed to verify its own tokens until `exp` and to emit non-empty tokens without spaces.
- Uploads: multer's disk storage, file naming and the 5 MB limit (util/upload.js) are not part of this model. An upload reaches the handlers as its stored filename and MIME type.
- Upload filter: multer's `fileFilter` (util/upload.js:18-24) runs before `create` and `edit` and rejects every upload whose MIME type does not start with `image/`. The error reaches Express's default handler, which answers 500. `EventHandlers.Create` and `EventHandlers.Edit` instead answer 400 "Invalid image format." for any MIME type outside jpeg, png and jpg. At the endpoint, that 400 is seen only for other `image/*` types, such as `image/gif`.
- Orphan files: a file that multer saved for a request later rejected with 400, 404 or 409 is not modelled.
- Image paths: `path.join('./public/images', image)` normalisation, and the development-mode `error` detail in the 500 answer of `deleteEvent`, are not modelled.
- Signup and login validators: routes/users.js:11-30 runs express-validator chains, not modelled here, before `signup` and `login`. They answer 400 `{errors}` for a name shorter than 3 characters, an address that `isEmail` rejects or a password shorter than 8 characters. They also `.trim()` the name, email and password. `UserHandlers.Signup`, `UserHandlers.Login`, `Scenarios.SignupTwice` and `Scenarios.SignupThenLogin` therefore state what the controllers do for the body they receive after that middleware. At the endpoint, a name such as "Al" or an address such as "a..b@x.com", which the controller's pattern accepts, is 400 from the validators. A password such as " Passw0rd", which the controller rejects, is trimmed first and accepted.
- The routing table, `app.js`, static file serving and database initialisation are not modelled. The authorization gate is modelled on its own, and the event handlers take its `Claims` as input.
- The `events` handler in controllers/users.js is not routed and duplicates the `events` handler in controllers/events.js. It is not modelled separately.
- Row order: the SELECTs of `getAllEvents` and `getEventsByUser` (models/Events.js:50,60) have no `ORDER BY`, so SQL promises no order. The model assumes SQLite's full-table scan order, ascending rowid, which is the table order of the model. `EventModel.OwnedBy`, `EventModel.EventTable.GetAllEvents`, `EventModel.EventTable.GetEventsByUser` and `EventHandlers.UserEvents` promise that order only under this assumption.
- Logging (`console.log` / `console.error`) is not modelled.
- The `created_at` and `id` columns of `registrations` are not modelled; a registration is its `(event_id, user_id)` pair.
- Foreign keys: foreign-key enforcement is assumed off, because the connection setup (`db.js`) is not part of this model and decides it. With enforcement on, `DELETE FROM events WHERE id = ?` on an event that has registrations fails with a constraint error, so `deleteEvent` answers 500 and the row stays.
- EventHandlers.DeleteEvent: "the row is deleted in every outcome" holds only under the foreign-key assumption above; with enforcement on, deleting an event that has registrations is 500 "Internal server error." with both tables unchanged.
- Scenarios.StaleRegistrationsCarryOver: holds only under the foreign-key assumption above; with enforcement on, the delete fails and no id is reused while registrations exist.
- Concurrency: the handlers are `async`. Each event handler is modelled as one atomic step. Its `await`s resume promises that the synchronous database calls have already settled, but each `await` still yields to the microtask queue. Requests dispatched in the same tick can therefore interleave, and the model does not capture that. For example, two pipelined `DELETE /user/events/5` requests can both pass the lookup. The second then answers 404 "Failed to delete event: Event not found." from `deleteUserEvent` (models/Events.js:38-43), where the model's sequential answer is 404 "Failed to get event: Event not found.".
- UserHandlers.Signup: modelled as one atomic step, which it is not. Between the 409 check (`FindUserByEmail`, controllers/users.js:29) and the insert, `User` awaits `bcrypt.hash` (models/User.js:11), which yields to the event loop. Two concurrent signups with the same lower-cased email can therefore both pass the check; the second insert then hits the UNIQUE constraint, and that client gets 500 "Internal server error" (controllers/users.js:38-40) rather than 409. The model's non-201 outcomes do not include this 500.
- Auth.AuthenticateToken: `req.user` receives the `Claims` value; any other fields the token library might add to the payload are not modelled.
