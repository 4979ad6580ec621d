# share-notes, modelled in Dafny

share-notes is a note-sharing web application. An Express server keeps users and notes in
MySQL. It offers registration and login with bcrypt-hashed passwords and JSON Web Tokens,
note listing, lookup, search by share identifier, creation, editing and deletion, and
profile editing with an avatar upload. A React client adds password-strength advice,
relative timestamps, the bearer header and the profile page.

This project models the logic of that system:

- **`Helper`** (`helper.dfy`): the client helpers. These are `validatePassword`, `timeAgo`
  (as a function of the elapsed milliseconds) and `getAuthHeaders` (as a function of what
  the stored login parses to).
- **`Schema`** (`schema.dfy`): the two tables as records.
  - `Store` is a class holding both tables and their AUTO_INCREMENT counters. Its
    invariant `Valid` gathers the constraints `createTables` declares: primary keys,
    UNIQUE username and email, and the foreign key from notes to users.
  - Store-level INSERT, UPDATE and DELETE methods enforce those constraints. A violated
    constraint makes the statement fail, and the handlers turn that failure into a 500 reply.
  - `DeleteUserCascade` is the ON DELETE CASCADE rule.
  - `Store.Seed` models `seedDatabase`. Its loop builds the twenty user rows and it
    inserts in bulk, and each table is seeded only when it is empty.
- **`NoteController`** (`note_controller.dfy`): the note handlers.
  - The reads (`getNotes`, `userNotes`, `getNote`, `searchData`) are functions of the
    tables.
  - The writes (`createNote`, `editNote`, `deleteNote`) are methods on the store. Each
    takes the caller's id from the verified token.
- **`AuthController`** (`auth_controller.dfy`): `register`, `login`, `logout`, `validate`
  and the token payload of `generateToken`.
- **`UserController`** (`user_controller.dfy`): `getUser`, `existUsername` and
  `updateUser`, with the choice of avatar and the old avatar it schedules for deletion.
- **`ProfilePage`** (`profile_page.dfy`): the logic of the profile page.
  - The data-URL split and the loop that cuts the decoded string into 1024-character
    slices of byte codes.
  - The note list after a delete, the expanded-note toggle, and the username-error
    decision.
- **`Common`** and **`Decimal`**: shared pieces.
  - `Common` holds JavaScript's null/undefined as `Option`, the HTTP reply `Response`,
    `Filter` and key uniqueness.
  - `Decimal` is the decimal spelling of integers that template literals produce.

External effects become parameters:

- bcrypt's hash is a function `hash`. `bcrypt.compare(pw, stored)` holds exactly when
  `stored == hash(pw)`.
- A token is represented by the claims it carries.
- The clock is an integer `now`.
- `Math.random` share identifiers are a function `shareIdFor`.
- `atob` is a function that may fail.
- The server's answer to the availability check is a parameter.
- The order in which `SELECT id FROM User` returns the ids during seeding is a parameter,
  `userIds`. The query has no ORDER BY, so any arrangement of the stored ids is allowed.

Some behaviours of the code, stated plainly:

- `createNote` validates nothing. An empty title, content or shareId is stored as given,
  and the insert fails, with 500, only through a constraint: a missing (NULL) title or
  content violates NOT NULL, and a caller whose user row is gone violates the foreign key.
- The `/:id` profile route has no token check. `getUser` reads `req.user.id` and never
  the path parameter, so that route always answers 500.
- `searchData` returns every note with the share identifier, protected ones included.
- The `/:shareId` route calls `getNote`, which reads `req.params.noteid`. That parameter
  is undefined there, so it binds SQL NULL and the reply is always 404.
- `register` answers a taken email with 400, not a distinct conflict status.

## Model

| member | source | states |
|---|---|---|
| Helper.ValidatePassword | src/client/utils/Helper.js:13-38 | null exactly for a password of length at least 8 with a lowercase letter, an uppercase letter, a digit and one of `!@#$%^&*(),.?":{}\|<>`; otherwise the message of the first failing rule in the order length, lowercase, uppercase, number, special; a short password always gets the length message; the result is null or one of the five messages |
| Helper.TestClass | src/client/utils/Helper.js:18-27 | `/[class]/.test(s)` is true exactly when some character of `s` is in the class |
| Helper.TimeAgo | src/client/utils/Helper.js:41-56 | the label is a count followed by one unit letter y, d, h, m or s; it is in seconds exactly when less than a minute has elapsed; the count is a plain decimal number for every unit above seconds and for any non-negative elapsed time |
| Helper.TimeAgoUnits | src/client/utils/Helper.js:41-56 | each count of the floor chain is the elapsed time divided by its unit (1000, 60000, 3600000, 86400000, 31536000000 ms), and the label uses years, days, hours or minutes by the largest unit reached, otherwise whole seconds |
| Helper.AuthHeaders | src/client/utils/Helper.js:2-11 | the only possible key is Authorization; it is present exactly when the stored login parses and carries a truthy token, with value "Bearer " + token; a missing entry, a parse failure or an absent or empty token give no header |
| Decimal.ParseNatToString | src/client/utils/Helper.js:51-55 | the decimal spelling used in the labels reads back as the number it spells |
| Schema.DeleteUserCascade | src/server/config/database.js:48 | deleting a user removes exactly that user and exactly the notes it owns, and the remaining tables still satisfy every constraint |
| Schema.Store.CreateTables | src/server/config/database.js:19-58 | a freshly created store satisfies the constraints, with both tables empty and both counters at 1 |
| Schema.Store.InsertUser | src/server/config/database.js:25-34 | an insert succeeds exactly when neither the username nor the email is taken; it then appends one row with the next id, a NULL avatar and the insertion time, and otherwise changes nothing; the constraints are preserved |
| Schema.Store.InsertUserRows | src/server/config/database.js:81-84 | a multi-row insert succeeds exactly when the row list is non-empty, the new usernames and emails are distinct among themselves, and none is taken; it appends all rows in order with consecutive ids, or none |
| Schema.AppendUsersKeepsConstraints | src/server/config/database.js:26-28 | appending rows with fresh ids whose usernames and emails are new and distinct among themselves keeps ids, usernames and emails unique and every note owner present, and bounds the ids by the advanced counter |
| Schema.Store.InsertNote | src/server/controllers/noteController.js:64-67 | a note insert succeeds exactly when title and content are present and the owner exists; it appends one row with the next id and createdAt = updatedAt = now, and otherwise changes nothing |
| Schema.Store.InsertNoteRows | src/server/config/database.js:110-113 | a multi-row note insert succeeds exactly when the row list is non-empty and every owner exists, appending every row in order |
| Schema.Store.UpdateNotes | src/server/controllers/noteController.js:80-83 | the statement fails exactly when some row matches id and owner and the new title or content is NULL; when nothing matches there is no change and a count of 0; otherwise the table becomes the edited rows of the old one, and the count is the number of matching rows |
| Schema.EditRows | src/server/controllers/noteController.js:80-83 | the table after the note update has the same length, each row matching id and owner replaced by the new title, content, status and updatedAt, and every other row unchanged at its position |
| Schema.EditRowsKeepConstraints | src/server/config/database.js:40-48 | the note update keeps note ids unique, every owner present, and introduces no id that was not there |
| Schema.RemainingAfterDelete | src/server/controllers/noteController.js:99-102 | a row is left by the DELETE exactly when it was in the table and does not have both this id and this owner |
| Schema.Store.DeleteNotes | src/server/controllers/noteController.js:99-102 | exactly the rows matching id and owner go, the others stay in order, and the count is the number removed |
| Schema.RenameUser | src/server/controllers/userController.js:96-99 | the table after the profile update has the same length, the row with the caller's id carrying the new username, bio and profilePicUrl, and every other row unchanged at its position |
| Schema.Store.UpdateUserRow | src/server/controllers/userController.js:96-99 | the update fails exactly when the row exists and another user holds the username; otherwise only username, bio and profilePicUrl of that row change, counting 1 row or 0 |
| Schema.RenameKeepsKeys | src/server/controllers/userController.js:96-99 | the profile update changes no id and no email, and leaves those columns unique |
| Schema.RenameKeepsUsernamesUnique | src/server/config/database.js:27 | an update the UNIQUE constraint accepts keeps usernames unique |
| Schema.RenameKeepsOwners | src/server/config/database.js:48 | the profile update keeps every note's owner present |
| Schema.SeedNamesDistinct | src/server/config/database.js:74-80 | distinct loop indices give distinct seeded usernames and emails, so the bulk insert cannot violate UNIQUE |
| Schema.Store.SeedUsers | src/server/config/database.js:66-88 | an empty User table receives exactly the 20 seeded users with consecutive ids; a non-empty one is left as it is; the Note table is untouched and the User table ends non-empty |
| Schema.Store.SeedNotes | src/server/config/database.js:91-117 | with a non-empty User table, an empty Note table receives one note per id in the order the unordered `SELECT id FROM User` returned them, the note at position `index` owned by the id at that position, titled `Note {index+1}` and public exactly for even index; so every user owns exactly one note; a non-empty Note table is left as it is; users are untouched |
| Schema.Store.Seed | src/server/config/database.js:61-124 | an empty User table receives exactly the 20 users `user{i}`, `user{i}@example.com`, with the hash of `password{i}` and the seeded bio; an empty Note table receives one note per id in the returned order of `SELECT id FROM User`, titled `Note {index+1}` after its position and public exactly for even position, so every user owns exactly one note; a non-empty table is left as it is; afterwards neither table is empty |
| Schema.SeedTwice | src/server/config/database.js:71-117 | running the seed a second time changes neither table |
| NoteController.GetNotes | src/server/controllers/noteController.js:3-25 | only public notes, each paired with its owner's username; every public note whose owner exists appears |
| NoteController.GetNotesHidesProtected | src/server/controllers/noteController.js:7-17 | no listed entry has the id of a protected note |
| NoteController.UserNotes | src/server/controllers/noteController.js:27-40 | as written: the notes whose own id equals the `:userid` parameter, hence at most one row |
| NoteController.UserNotesMissesOwnedNote | src/server/controllers/noteController.js:31-33 | user 2's only note (id 1) is not returned when user 2's notes are requested |
| NoteController.OwnedNotes | src/client/pages/Profile.jsx:27 | the notes whose owner is the requested user, public or protected |
| NoteController.GetNote | src/server/controllers/noteController.js:42-57 | 200 with a note's columns exactly when a public note has the requested id, otherwise 404 "Note not found"; a missing parameter matches nothing |
| NoteController.GetNoteHidesProtected | src/server/controllers/noteController.js:44-51 | with unique ids, asking for a protected note's id gives 404 |
| NoteController.Trim | src/server/controllers/noteController.js:121 | `trim()` yields "" exactly when every character is JavaScript white space |
| NoteController.SearchData | src/server/controllers/noteController.js:115-141 | 400 "Query is required" exactly for an absent or all-white-space query; 404 "No notes found" exactly when no note has that shareId; otherwise 200 with exactly the notes whose shareId equals the query |
| NoteController.SearchFindsEverySharer | src/server/controllers/noteController.js:126-129 | any two notes carrying the searched shareId, whatever their status, are both returned |
| NoteController.CreateNote | src/server/controllers/noteController.js:59-74 | 201 exactly when title and content are present and the caller exists, appending one row owned by the caller with title, content, status and shareId as given; otherwise 500 and no change; users untouched |
| NoteController.EditNote | src/server/controllers/noteController.js:75-94 | 404 exactly when no row has this id and the caller as owner (a missing and a foreign note look the same); 500 exactly when such a row exists and title or content is missing; 200 exactly when such a row exists and both are given; on 200 title and content were given and the table is the edited rows of the old one, so only rows with this id and owner change; on an error nothing changes |
| NoteController.DeleteNote | src/server/controllers/noteController.js:95-113 | 404 exactly when no row has this id and the caller as owner, leaving every row; otherwise 200 and exactly the matching rows are removed, the rest kept in order |
| NoteController.DeleteRemovesOne | src/server/controllers/noteController.js:99-106 | with unique note ids, an accepted delete removes exactly one row |
| AuthController.ClaimsOf | src/server/controllers/authController.js:6-18 | the token payload is id, username, profilePicUrl, email, bio and joinedDate = createdAt of the row |
| AuthController.ClaimsOmitPasswordOnly | src/server/controllers/authController.js:7-14 | two rows have the same claims exactly when they differ at most in the password |
| AuthController.Register | src/server/controllers/authController.js:21-51 | 400 exactly when username, email or password is missing or empty; 400 with success false exactly when the email is taken; 500 exactly when only the username is taken; otherwise 201 and one new row whose password is the hash of the given one; on every refusal the table is unchanged |
| AuthController.RegisterTwice | src/server/controllers/authController.js:29-37 | after a successful registration, registering the same email again is refused and the table grows by one row only |
| AuthController.FirstWithEmail | src/server/controllers/authController.js:62-65 | the first row with the email, and none exactly when the email is unregistered |
| AuthController.Login | src/server/controllers/authController.js:54-93 | 400 "Please provide email and password" exactly when email or password is missing or empty; success only for a row with that email whose stored hash matches, the token claims and the reply's user both being that row's claims; an unregistered email is refused |
| AuthController.LoginSucceedsIff | src/server/controllers/authController.js:62-75 | with unique emails, login succeeds exactly when some row has the email and a matching hash |
| AuthController.LoginFailuresIndistinguishable | src/server/controllers/authController.js:66-73 | an unknown email and a wrong password give the same reply (400 "Invalid email or password") |
| AuthController.Validate | src/server/controllers/authController.js:121-130 | isValid true with 200 exactly when the token's user row exists, otherwise 401 with isValid false |
| UserController.GetUser | src/server/controllers/userController.js:28-45 | 500 exactly when there is no token; 404 exactly when the token's user row is gone; otherwise that row's public columns, with the token's id |
| UserController.GetUserIgnoresPath | src/server/controllers/userController.js:30-33 | the reply depends on the token alone, never on the `:id` path parameter |
| UserController.ValidateAgreesWithGetUser | src/server/controllers/authController.js:101-130 | validate reports the token valid exactly when getUser finds the token's user |
| UserController.ExistUsername | src/server/controllers/userController.js:47-63 | true exactly when some row has exactly that username |
| UserController.NewAvatar | src/server/controllers/userController.js:68-71 | the token's old URL without an upload; with an upload, "/uploads/" followed by the file name |
| UserController.UpdateUser | src/server/controllers/userController.js:65-130 | the old avatar is scheduled for deletion exactly when there is an upload and the old URL is truthy, whatever the username; 400 exactly for a missing or empty username; 500 exactly when the row is gone or another user holds the name; 200 exactly when the name is truthy, the row exists and no other user holds the name; on an error the table is unchanged; on 200 only the caller's username, bio and avatar change and the token and reply carry the updated row's claims |
| UserController.RenamedRowsKeepIds | src/server/controllers/userController.js:106-109 | after the update a row with the caller's id exists exactly when it did before, and it is the old row with the three columns replaced |
| ProfilePage.Split | src/client/pages/Profile.jsx:94 | `split(",")` gives one more part than there are commas, no part holds a comma, and joining the parts with commas gives the string back |
| ProfilePage.SplitJoin | src/client/pages/Profile.jsx:94 | splitting the comma-join of comma-free parts gives the parts back |
| ProfilePage.PayloadOf | src/client/pages/Profile.jsx:92-96 | a payload is taken exactly when the URL is non-empty and has exactly one comma, and it is what follows that comma |
| ProfilePage.SliceBytes | src/client/pages/Profile.jsx:101-105 | copying the slice's char codes into `new Array(slice.length)` and wrapping it in a Uint8Array gives the byte of each character of the slice, in order |
| ProfilePage.SliceIntoChunks | src/client/pages/Profile.jsx:99-106 | ceil(n/1024) chunks, each non-empty and at most 1024 long, all but the last exactly 1024; chunk j element i is the byte of character 1024·j + i; the chunks concatenated are the bytes of the whole string |
| ProfilePage.CountIsCeiling | src/client/pages/Profile.jsx:99 | the loop's count, the least multiple of 1024 reaching the length, is ceil(n/1024) |
| ProfilePage.ChunksReproduceDecodedString | src/client/pages/Profile.jsx:97-107 | for atob's output, whose characters are below 256, reading the bytes back as characters gives the decoded string |
| ProfilePage.PrepareProfileSave | src/client/pages/Profile.jsx:79-117 | no request exactly while a username error is set; a failed decode gives the generic failure message; otherwise the form holds the username and bio, and a picture exactly for a two-part data URL, whose bytes are those of the decoded payload |
| ProfilePage.FailureMessage | src/client/pages/Profile.jsx:136-143 | the server's non-empty message if there is one, otherwise "Profile update failed. Please try again." |
| ProfilePage.RemoveNote | src/client/pages/Profile.jsx:170 | the list keeps exactly the notes whose id differs from the deleted one |
| ProfilePage.RemoveNoteKeepsOrder | src/client/pages/Profile.jsx:170 | deleting a note from a list with unique ids leaves the other notes in their order |
| ProfilePage.RemoveNoteMatchesServerDelete | src/client/pages/Profile.jsx:162-174 | filtering the owner's list on the client gives the owner's list after the server's DELETE |
| ProfilePage.ToggleExpansion | src/client/pages/Profile.jsx:177-179 | null exactly when the clicked note was the expanded one, otherwise the clicked note |
| ProfilePage.ToggleTwice | src/client/pages/Profile.jsx:177-179 | two clicks on the same note restore that note if it was expanded and collapse everything otherwise |
| ProfilePage.NextUsernameError | src/client/pages/Profile.jsx:42-71 | cleared for an empty or unchanged name; set to "Username is already taken" exactly when the server says the name exists; unchanged when the request fails |
| ProfilePage.UsernameErrorMatchesTable | src/client/pages/Profile.jsx:44-60 | for a name that the unencoded URL carries to the server unchanged, with the server answering from the table, the error is set exactly when some row has the new name, and a cleared name is one the UNIQUE constraint accepts |

## Left out

- Request plumbing is left out: HTTP routing, the token middleware (`jwt.verify` and its 401 replies), multer's storage and file names, `fs.unlink` (the model returns the path it would delete), console logging and every React view.
- Store failures unrelated to constraints are left out: lost connections, timeouts and pool exhaustion. The 500 replies for them (`getNotes`, `userNotes`, `getNote`, `deleteNote`, `searchData`, `login`, `existUsername`) are not modelled, and neither is concurrent access.
- bcrypt's salt and cost are left out: `hash` is a deterministic parameter.
- JWT signing and the one-hour expiry are left out. A token is its claims.
- `restrictTo` is not modelled: no token payload has a `role`, so it refuses every request.
- AuthController.Logout: modelled as the constant reply alone, with no contract. It reads and writes nothing, and the token stays valid until it expires.
- The `affectedRows === 0` branch of `updateUser` (src/server/controllers/userController.js:101-103) is never taken. `result` is mysql2's `[rows, fields]` pair, and an array has no `affectedRows`, so the model has no such reply.
- The `getUser` handler of src/server/controllers/authController.js:101-118 is the same query as the one in userController.js and is modelled by UserController.GetUser. Its route always has a token.
- MySQL's case-insensitive collation is left out: usernames, emails and share identifiers compare exactly. So does the `WHERE email = ?` of login.
- Column lengths (VARCHAR(255), VARCHAR(50), VARCHAR(512)) and MySQL's truncation or rejection of longer values are left out.
- A NULL or out-of-enum `status` is left out. Status has only the two ENUM values, written explicitly by every insert; a request without a status would store NULL.
- `User.updatedAt` and its ON UPDATE CURRENT_TIMESTAMP are not modelled. The handlers never read it.
- A failed INSERT does not consume AUTO_INCREMENT values in the model, whereas InnoDB may leave a gap.
- JavaScript strings are sequences of Unicode code points here, not UTF-16 code units. This affects `length` in the password rule and `charCodeAt` in the chunking loop for characters above U+FFFF (atob never produces them).
- NoteController.SearchData, AuthController.Register, AuthController.Login, NoteController.CreateNote, NoteController.EditNote, UserController.UpdateUser: request fields (`req.query.query`, the `req.body` fields) are modelled as a string or absent. Arrays, numbers and objects are not modelled: a repeated query parameter such as `?query=a&query=b`, or a JSON body field that is not a string, and the TypeError replies they cause are left out. For example, `query.trim()` throws on an array and searchData answers 500.
- Helper.TimeAgoUnits: the model takes an integer elapsed time. `new Date(...)` parsing, NaN for an invalid timestamp and floating-point time differences are left out.
- `getEditNote` and `publicUserNotes` are imported by src/server/routes/noteRoutes.js but defined nowhere in the controller. They are not part of this model.
- `atob`, `Blob`, `File`, `FormData`, axios, localStorage and React state are left out. atob is a parameter, the `file` is the list of byte chunks, and the network reply is a parameter.
- Schema.Store.SeedNotes: called on its own with both tables empty, the note step would send an INSERT with an empty VALUES list, which MySQL rejects; the thrown error is left out and the model leaves the Note table empty. Inside seedDatabase this cannot happen, because an empty User table is seeded first.
- ProfilePage.UsernameErrorMatchesTable: states nothing for names containing `/`, a backslash, `?`, `#`, `%`, tab, line feed or carriage return, ending in a space or control character, or equal to `.` or `..`. Profile.jsx:53-55 puts the name into the URL path unencoded, so for those names the server is asked about another string (`bob?x` asks about `bob`) or the request fails; the URL parsing and routing are not modelled.
- Route parameters (`:noteid`, `:userid`) are strings, which MySQL converts to a number when it compares them with an INT id: `5abc` compares as 5 and `abc` as 0. The model takes the converted integer, or None for a missing parameter.
- Schema.Store.UpdateNotes: the `Rejected` outcome for a NULL title or content assumes MySQL's strict SQL mode. Without STRICT_TRANS_TABLES the update stores an empty string instead, and editNote answers 200; that mode is not modelled.
- The 500 ms debounce of the availability check is left out, and so is a reply arriving after a newer keystroke.
- The client-side share identifier generator (`Math.random().toString(36)`) is left out. `shareId` values are parameters and are not checked for uniqueness, as in the code.

## Findings

| source | as written | input that shows it | evidently intended | confidence | as-written member | corrected member |
|---|---|---|---|---|---|---|
| src/server/controllers/noteController.js:31-33 | `userNotes` runs `SELECT * FROM Note WHERE id = ?` with the `:userid` parameter, comparing a user id with note ids. The profile page (src/client/pages/Profile.jsx:27) uses it to list the signed-in user's notes. | user 2 owns only note 1; `GET /api/notes/all/2` returns no note, while a request for user 1 returns note 1, which is user 2's | `WHERE userId = ?`: every note the user owns | high (not executed) | NoteController.UserNotes, NoteController.UserNotesMissesOwnedNote | NoteController.OwnedNotes, ProfilePage.RemoveNoteMatchesServerDelete |
