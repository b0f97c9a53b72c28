# YAHH core in Dafny

YAHH is a workplace social network. Its backend is an Express server over MariaDB, reached through the mysql2 driver, with socket.io for live updates. Its frontend is a React single-page app. This project models the parts of both that decide things: who may do what, which rows a request reads and writes, what each route answers, and how the pages turn answers into what they show. It then proves properties of that model.

Each source file of the core has one Dafny module:

| module | file | form |
|---|---|---|
| `Common` | (shared) | strings, `Option`, HTTP responses, JavaScript's `==` and `===`, MariaDB's text-to-number conversion |
| `Schema` | backend/config/database.js | table rows, ENUM columns, the columns each table has, and the seeding loop (`UserDirectory`) |
| `AuthMiddleware` | backend/middleware/auth.js | the three gates; `Request` holds `req.user` |
| `AuthRoutes` | backend/routes/auth.js | class `Accounts` over `users` |
| `Users` | backend/routes/users.js | class `Directory` over `users`, `follows` and `notifications` |
| `ConversationFormat` | backend/routes/messages.js (the list formatter) | pure functions |
| `Messaging` | backend/routes/messages.js | class `Messenger` over the five chat tables; class `Broadcaster` holds socket rooms and an outbox of emissions |
| `Notifications` | backend/routes/notifications.js | class `Inbox` over `notifications` |
| `Events` | backend/routes/events.js | class `EventBook` over `events` and `event_mentions` |
| `Posts` | backend/routes/posts.js | class `PostBoard` |
| `Comments` | backend/routes/comments.js | class `CommentBoard`; the reply tree is built by a loop over a map |
| `Spaces` | backend/routes/spaces.js | class `SpaceDirectory` over spaces, memberships, bans and join requests |
| `Settings` | backend/routes/settings.js | class `SettingsStore` |
| `Admin` | backend/routes/admin.js | class `Console` |
| `Routing` | backend/server.js | Express's first-match dispatch over the mounted routers |
| `MessagesClient` | frontend/src/comps/Messages.jsx | class `ChatPage` for the page state; its updaters are functions |
| `Compose` | frontend/src/comps/Dashboard.jsx | class `Composer`; hashtag and image helpers shared with the space post form |
| `SpaceClient` | frontend/src/comps/Spaces.jsx | role flags, invite filter, edit-page gate, class `SpacePostForm` |
| `CalendarGrid` | frontend/src/comps/Calendar.jsx | the 42-cell grid, built by a method with three loops |
| `AdminPanel` | frontend/src/comps/AdminPanel.jsx | pagination as functions of the panel state |
| `Header` | frontend/src/comps/Header.jsx | the badges and drop-down lists |

The model makes these choices about the platform:

- Each request is one atomic step on the tables. A route that fails part way leaves the statements that already ran in place. This happens because `START TRANSACTION` sent through the pool does not bind later statements, or because the route uses no transaction at all.
- The server is MariaDB 10.5 or later. The statements of the routes fit no other server: `JSON_ARRAYAGG(DISTINCT …)` (backend/routes/events.js:14) parses only there, the JSON aggregates come back as text, which the `JSON.parse` calls of events.js (lines 29, 105, 265) and of Messages.jsx (lines 30, 195) expect, and `LIMIT ? OFFSET ?` accepts the DOUBLE parameters mysql2's `execute` binds for JavaScript numbers.
- MariaDB runs in strict SQL mode, its default since version 10.2.4. An INSERT whose value lies outside an ENUM, or that breaks a NOT NULL, UNIQUE or foreign-key constraint, fails. So does any statement that names a column the table lacks. In both cases the route's catch block answers 500.
- A route parameter compared with an INT column is read the way MariaDB reads text as a number (`Common.SqlNumber`): leading spaces are skipped and the longest numeral, with sign, fraction and exponent, is taken, 0 when there is none. The row it selects is the natural number that value equals (`Common.SqlKey`), so `5.0` selects row 5 and `5.5` selects none. A reading that drops characters other than trailing spaces (`5x`, `clear-all`) is a truncation: in a SELECT it is only a warning, but in the WHERE of an UPDATE or DELETE strict mode turns it into an error and the route answers 500, after rolling back where it holds a transaction. The handlers' own `id == req.user.id` tests use JavaScript's `Number` (`Common.ToNumber`); `Common.SqlReadingAgreesWithJs` proves the two readings agree whenever MariaDB truncates nothing.
- In strict mode a text longer than its VARCHAR column fails the INSERT or UPDATE (error 1406) and the route answers 500. The widths are 255 for names, titles, departments, e-mail addresses and conversation names, 50 for a space's colour, and 500 for `users.avatar`, `posts.image` and `spaces.cover_image`. Lengths are counted in characters.
- A TEXT column holds 65,535 bytes, and a longer value fails the same way. The pool connects with utf8mb4 (backend/config/database.js:12), and the columns are taken to store that character set, so a character takes the one to four bytes of its UTF-8 encoding (`Schema.Utf8Length`). No validator bounds these texts: posts and comments, a message and its attachments' JSON text, space and event descriptions, a join request's message, a ban reason, a configuration value and a broadcast's content. The 20,000-character cap on a message does not keep it within the column (`Messaging.CappedContentCanOverflow`).
- mysql2 connects with its FOUND_ROWS flag, so `affectedRows` counts the rows an UPDATE matched, not the rows it changed.
- Express answers with the first registered route that matches. The later handlers of the same method and path never run; `Routing` proves which ones.
- `NOW()` is a `clock` field, advanced by `Tick`. Where a route uses the client's time, that time is a parameter.
- An assumption, which MariaDB does not promise: rows with equal sort keys come back in id order, and `created_at` order is id order. `Notifications.Listing`, `Spaces.SpaceDirectory.ListedBelow`, `Admin.MatchingBelow`, `Comments.CommentBoard.FetchedBelow` and `Messaging.Messenger.NewestFirst` rely on it for `ORDER BY created_at`. The sorts `Events.SortByStart`, `ConversationFormat.SortByRecency` and `Spaces.SortMembers` allow any order among ties in their own contracts, but the routes built on them (`Events.EventBook.List`, `Messaging.Messenger.ListConversations`, `Spaces.SpaceDirectory.Members`) return the order their insertion sort leaves, which keeps ties in table order.
- These are parameters: bcrypt (`hash`, `compare`); the set of tokens `jwt.verify` accepts; validator.js's `isEmail`, `isURL` and `normalizeEmail`; the uuid a new conversation draws; and the server's time zone.

## Model

| member | source | states |
|---|---|---|
| Common.StrictNeverMatchesAcrossTypes | backend/routes/admin.js:192 | a number and the text of a number are never `===`, and `==` holds exactly when the numbers agree |
| Common.Trim | backend/routes/users.js:134-137 | the `trim()` sanitizer never makes a string longer |
| Common.TrimShape | backend/routes/events.js:40 | the trimmed text neither starts nor ends with white space, and is empty exactly when the input is blank |
| Common.TrimIdempotent | backend/routes/events.js:40-44 | trimming a trimmed value changes nothing |
| Common.IndexOf | backend/middleware/auth.js:6 | `indexOf` finds the first occurrence, and no occurrence when it answers -1 |
| Common.ReplaceFirst | backend/middleware/auth.js:6 | a string-pattern `replace` rewrites only the first occurrence, and leaves the string unchanged when the pattern is absent |
| Common.Split | backend/routes/messages.js:112-113 | `split` always gives at least one piece |
| Common.Join | backend/routes/messages.js:286 | joining one piece gives that piece; joining none gives the empty string |
| Common.JoinSplit | backend/routes/messages.js:112-113 | joining the pieces of a split with the same separator restores the string |
| Common.SplitNoSeparator | backend/routes/messages.js:112-113 | a string without the separator splits into itself alone |
| Common.SpacesToUnderscores | backend/routes/messages.js:286 | every space becomes an underscore and every other character stays |
| Common.SplitJoinReplacesAllSpaces | backend/routes/messages.js:286 | `split(' ').join('_')` replaces every space, not only the first |
| Common.Dedup | backend/routes/events.js:108 | `[...new Set(s)]` has no duplicates, the same elements, no more entries, and keeps the first element first |
| Common.DedupOfDistinct | backend/routes/messages.js:266 | a list without duplicates is its own de-duplication |
| Common.Enumerate | backend/routes/events.js:268-273 | a set is listed with each element exactly once |
| Common.Toggled | backend/routes/posts.js:370-386 | a toggle deletes the row when it is present and inserts it otherwise, touching no other row |
| Common.ToggleTwiceRestores | backend/routes/posts.js:370-386 | toggling the same row twice restores the table |
| Common.Upper | frontend/src/comps/Messages.jsx:158-162 | ASCII `toUpperCase` keeps the length and maps each character |
| Common.Substring | frontend/src/comps/Messages.jsx:160 | `substring` clamps its bounds to the string and is a slice when they are in order |
| Common.Filter | frontend/src/comps/Header.jsx:11-12 | `filter` keeps exactly the elements that pass, as many as it counts |
| Common.Slice | backend/routes/notifications.js:36-37 | `LIMIT limit OFFSET offset` keeps the rows from the offset on, as many as the page holds |
| Common.Reverse | frontend/src/comps/Messages.jsx:201 | `reverse()` keeps the length and mirrors the positions |
| Common.SqlKey | backend/routes/notifications.js:64-67 | the id `id = ?` selects for a parameter is a natural number exactly when MariaDB's reading of the text equals it |
| Common.SqlReadingAgreesWithJs | backend/routes/admin.js:192 | a text MariaDB reads without a truncation has the same value as JavaScript's `Number` of it |
| Common.SqlReadingOfDecimal | backend/routes/users.js:41 | the decimal text of an id selects that id, without a truncation |
| Common.ReadingOfPointZero | backend/routes/admin.js:294 | `5.0` selects row 5 without a truncation and is `==` to 5 |
| Common.ReadingOfFraction | backend/routes/notifications.js:64-67 | `5.5` selects no row |
| Common.ReadingOfSuffixed | backend/routes/admin.js:248 | `5x` selects row 5 with a truncation and is not `==` to 5 |
| Common.ReadingOfWord | backend/routes/notifications.js:96-101 | `clear-all` reads as 0 with a truncation and is NaN to JavaScript |
| Common.ReadingOfHex | backend/routes/admin.js:248 | `0x5` reads as 0 with a truncation in MariaDB but is `==` to 5 in JavaScript |
| Common.ReadingOfBracket | backend/routes/posts.js:59-62 | a text that starts with `[`, as an array's JSON text does, reads as 0 with a truncation |
| Common.JsonList | backend/routes/messages.js:290 | `JSON.stringify` of a list of strings is bracketed |
| Common.ParseJsonList | backend/routes/messages.js:123 | a text `JSON.parse` reads as an array of strings is bracketed |
| Common.JsonListRoundTrip | backend/routes/messages.js:123 | `JSON.parse` reads back the list `JSON.stringify` wrote, for strings that need no escapes |
| Common.DecimalText | frontend/src/comps/AdminPanel.jsx:34 | `String(n)` is a non-empty string of digits |
| Common.OrNull | backend/routes/auth.js:44 | the "or null" of the INSERT stores NULL exactly for an absent or empty string, and the value otherwise |
| Common.TrimOpt | backend/routes/users.js:135-136 | `optional().trim()` trims a supplied string and leaves an absent one absent |
| Schema.ParseRole | backend/config/database.js:64 | exactly the three ENUM spellings of a membership role are accepted, each to its own role |
| Schema.ParseFileType | backend/config/database.js:221 | exactly the three ENUM spellings of an attachment type are accepted, each to its own type |
| Schema.ParsePresence | backend/config/database.js:31 | exactly the three ENUM spellings of a user status are accepted |
| Schema.NewUserRow | backend/config/database.js:22-42 | an inserted user keeps its name, address and hash; every other column takes its DEFAULT |
| Schema.Utf8Width | backend/config/database.js:12 | a character takes one to four bytes in utf8mb4, and one exactly when it is ASCII |
| Schema.Utf8Length | backend/config/database.js:12 | a text takes at least one and at most four bytes per character |
| Schema.AsciiTextLength | backend/config/database.js:78 | an ASCII text takes one byte per character of a TEXT column |
| Schema.WideTextLength | backend/config/database.js:144 | a text of characters outside the Basic Multilingual Plane takes four bytes per character |
| Schema.Utf8LengthAppend | backend/config/database.js:12 | the bytes of a concatenation are the bytes of its parts added up |
| Schema.TextFitsBounds | backend/config/database.js:78 | a TEXT column takes every text of up to 16,383 characters and none over 65,535; 65,535 ASCII characters fit, and only 16,383 characters outside the Basic Multilingual Plane |
| Schema.RouteTypesOutsideEnum | backend/config/database.js:157 | the notification ENUM lacks the follow, join-request and broadcast types the routes insert, and holds the others |
| Schema.MissingColumns | backend/config/database.js:140-151 | `messages` has no `deleted_at` and `space_bans` has no `id` |
| Schema.Seeds | backend/config/database.js:316-382 | the seeds are the administrator first and then three sample users who are not administrators |
| Schema.SeedRow | backend/config/database.js:377-382 | a seeded row keeps the account's address |
| Schema.SeedOneGrows | backend/config/database.js:369-382 | one seeding step keeps every row and leaves the account's address present |
| Schema.AccountAdded | backend/config/database.js:377-382 | inserting a new address under the next id keeps ids below the counter and addresses unique |
| Schema.SeededContainsAll | backend/config/database.js:316-382 | seeding only adds rows, and after it every seed's address is present |
| Schema.EmailsGrow | backend/config/database.js:369-382 | rows kept under their ids keep their addresses |
| Schema.SeededKeepsEmailsUnique | backend/config/database.js:316-382 | seeding keeps e-mail addresses unique |
| Schema.SeededNoop | backend/config/database.js:369-375 | a pass that finds every address present inserts nothing |
| Schema.SeedingIdempotent | backend/config/database.js:316-382 | starting the server twice seeds the accounts once |
| Schema.UserDirectory.Seed | backend/config/database.js:316-382 | seeding keeps the directory valid, equals the seeding function of the old state, and leaves every seed's address present |
| Schema.UserDirectory.InsertMissing | backend/config/database.js:369-382 | each account is inserted only when its address is missing; afterwards every address is present |
| AuthMiddleware.BearerToken | backend/middleware/auth.js:6 | no header gives no token; a header without "Bearer " is taken whole as the token |
| AuthMiddleware.BearerPrefixStripped | backend/middleware/auth.js:6 | "Bearer " followed by a token yields exactly that token |
| AuthMiddleware.SchemeInsideHeaderIsCut | backend/middleware/auth.js:6 | the replacement is not anchored: "xBearer abc" yields "xabc" |
| AuthMiddleware.ActiveUser | backend/middleware/auth.js:14-17 | the lookup finds a user exactly when the id exists and is active, and returns that user's id and admin flag |
| AuthMiddleware.Admitted | backend/middleware/auth.js:4-29 | a request is admitted exactly when the header yields a non-empty token that verifies and names an existing, active user |
| AuthMiddleware.NoHeaderNoUser | backend/middleware/auth.js:6-10 | a request without an Authorization header is never admitted |
| AuthMiddleware.AdminGate | backend/middleware/auth.js:31-46 | `requireAdmin` passes exactly an admin user, answers 401 without a user and 403 for a user who is not an admin |
| AuthMiddleware.AdminRoutesNeedActiveAdmin | backend/routes/admin.js:20-21 | an admin handler runs exactly for a request admitted as an active site administrator |
| AuthMiddleware.Request.Authenticate | backend/middleware/auth.js:4-29 | `authenticate` proceeds exactly for an admitted request and sets `req.user` to that user; every failure is 401 and sets nothing |
| AuthMiddleware.Request.OptionalAuth | backend/middleware/auth.js:48-70 | `optionalAuth` always proceeds, and sets `req.user` only for an admitted token |
| AuthMiddleware.OnlyActiveUsersBecomeReqUser | backend/middleware/auth.js:14-23 | whichever gate ran, `req.user` is an existing active user with that row's admin flag |
| AuthRoutes.Public | backend/routes/auth.js:50-53 | the user sent back carries the row's id, name, e-mail, status and flags |
| AuthRoutes.RegisteredRow | backend/routes/auth.js:41-45 | the stored row has the trimmed name, the address, an active non-admin account, and a title and department exactly when they trim to something, trimmed |
| AuthRoutes.Accounts.Register | backend/routes/auth.js:15-63 | 400 exactly for a failed validator or an address already taken; 500 exactly when the row would overflow a VARCHAR(255) column; both store nothing; otherwise 201 with the registered row under the next id |
| AuthRoutes.Accounts.Insert | backend/routes/auth.js:41-45 | the row is stored under the next AUTO_INCREMENT id, which was unused, and the counter moves on |
| AuthRoutes.Accounts.Login | backend/routes/auth.js:65-117 | 400 exactly for missing fields; 401 for no active account, a suspended account or a wrong password, in that order; success sets the status online and nothing else changes otherwise |
| AuthRoutes.Accounts.Me | backend/routes/auth.js:119-135 | 404 exactly for a caller with no row, and otherwise the caller's own id and e-mail |
| AuthRoutes.Accounts.Logout | backend/routes/auth.js:137-149 | always 200; the caller's status becomes offline and no other row changes |
| AuthRoutes.Accounts.ChangePassword | backend/routes/auth.js:151-189 | 404 for a caller with no row, 400 for a short password or a wrong current one; only success stores the new hash |
| Users.ValidatedProfile | backend/routes/users.js:133-138 | the body passes exactly when the trimmed name keeps 2 characters, the trimmed bio at most 500 and the status is one of the three presences; the supplied fields stay supplied |
| Users.ValidatedTrimmedKeepsText | backend/routes/users.js:133-138 | validating an already validated body changes nothing |
| Users.TrimOptIdempotent | backend/routes/users.js:134-137 | the `optional().trim()` sanitizer is idempotent |
| Users.ProfileKeepsAccountColumns | backend/routes/users.js:151-167 | a profile update keeps e-mail, password, roles, suspension and activity, and changes nothing when nothing is supplied |
| Users.ProfileUpdateIdempotent | backend/routes/users.js:151-167 | sending the same profile twice leaves the row as the first request did |
| Users.FillProfile | backend/routes/users.js:151-156 | filling `updates` one supplied field at a time gives the profile-update function of the row |
| Users.FollowNoticeRejected | backend/routes/users.js:218-224 | the follow notification has a type the ENUM rejects |
| Users.Directory.FollowAsWritten | backend/routes/users.js:185-232 | as written: 400 for oneself, 404 for an inactive or unknown target, 200 (unfollowed) for an existing follow, and 500 with the follow stored and no notice for a new one |
| Users.Directory.Follow | backend/routes/users.js:185-232 | corrected: the same checks; a new follow answers true and notifies the followed user, an existing one is removed and answers false |
| Users.Directory.UpdateProfile | backend/routes/users.js:133-183 | 400 exactly when a validator fails or nothing is supplied; 500 exactly when a supplied text overflows its column; otherwise only the caller's supplied fields change |
| Users.Directory.UpdateStatus | backend/routes/users.js:328-349 | 400 exactly outside the three presences; otherwise the caller's status is set and nothing else changes |
| Users.Directory.ChangePassword | backend/routes/users.js:274-326 | 400 for a failed validator, 404 for no row, 401 for a wrong current password; otherwise the new hash is stored, answered 500 when it does not verify |
| ConversationFormat.IndexIn | backend/routes/messages.js:119 | `indexOf` finds the first position holding the id, and none exactly when the id is absent |
| ConversationFormat.ReadName | backend/routes/messages.js:123 | a stored name is read as a list exactly when `JSON.parse` gives an array of strings, and otherwise kept as text |
| ConversationFormat.OthersFrom | backend/routes/messages.js:115-120 | the other participants are split id texts that are loosely unequal to the caller and occur in the row |
| ConversationFormat.FormatConversation | backend/routes/messages.js:111-151 | an entry keeps the row's id, last message, time and unread count; it is direct exactly for a non-group row with one other participant, and otherwise a group entry listing the others under the display name |
| ConversationFormat.CallerOnlyRowIsGroup | backend/routes/messages.js:100-151 | because the WHERE keeps only the caller's participant row, no entry has other participants, every entry is a group entry, and a stored name list is filtered against the caller's underscored name |
| ConversationFormat.FirstSpaceOfExample | backend/routes/messages.js:123 | the first space of "Anna Maria Smith" is at position 4 |
| ConversationFormat.SecondSpaceDefeatsSelfFilter | backend/routes/messages.js:123 | `replace(" ", "_")` underscores only the first space, so a two-space name survives the self filter |
| ConversationFormat.InsertByRecency | backend/routes/messages.js:107 | inserting a row into a list ordered newest first keeps the order and adds exactly that row |
| ConversationFormat.SortByRecency | backend/routes/messages.js:107 | `ORDER BY last_message_time DESC` gives a permutation of the rows ordered newest first |
| ConversationFormat.SliceKeepsDistinctIds | backend/routes/messages.js:106-108 | a page of rows grouped by conversation id holds each id at most once |
| ConversationFormat.ListPage | backend/routes/messages.js:95-150 | the requested page of the rows ordered by recency, each formatted for the caller, without repeats; with rows carrying only the caller's id every entry is a group entry without participants |
| Messaging.Fanout | backend/routes/messages.js:386-397 | one emission per listed user, in order, each to that user's room |
| Messaging.Classify | backend/routes/messages.js:36-37 | a file is an image exactly for an `image/` type, a video exactly for a `video/` type that is not an image, and a plain file otherwise |
| Messaging.DescribeUploads | backend/routes/messages.js:25-44 | 400 exactly without files; otherwise one descriptor per file, in order, with its `/uploads/` url, original name and classified type |
| Messaging.Greatest | backend/routes/messages.js:96 | `MAX(m.content)` is one of the contents and no content sorts after it |
| Messaging.PreviewIsNotTheNewest | backend/routes/messages.js:96 | the preview is the greatest content, not the newest message: "see you" wins over a later "ok" |
| Messaging.AttachmentRowsFor | backend/routes/messages.js:348-355 | one attachment row per item, in order, carrying the message id and the item's url, name and type |
| Messaging.AttachmentsOf | backend/routes/messages.js:193-204 | the LEFT JOIN aggregate is never empty, and is a single all-null object exactly when the message has no attachment |
| Messaging.AttachmentJson | backend/routes/messages.js:344 | one attachment's JSON text is an object, with a member left out when its value is absent |
| Messaging.AttachmentsJson | backend/routes/messages.js:344 | the text stored in `attachements` is a JSON array, and `[]` without attachments |
| Messaging.ObjectHoldsUrl | backend/routes/messages.js:344 | an attachment's URL counts in full toward its JSON object |
| Messaging.AttachmentUrlCounts | backend/routes/messages.js:340-345 | a lone attachment's URL counts in full toward the `attachements` text, so a URL over the TEXT column's bytes fails the INSERT |
| Messaging.CappedContentCanOverflow | backend/routes/messages.js:316 | some content within the 20,000-character cap still overflows the TEXT column: 20,000 characters outside the Basic Multilingual Plane take 80,000 bytes |
| Messaging.Broadcaster.JoinUserRoom | backend/server.js:71-73 | the socket is added to the user's room, and nothing is emitted |
| Messaging.Broadcaster.Disconnect | backend/server.js:75-76 | the socket leaves every room and the room list keeps its users |
| Messaging.Broadcaster.EmitTo | backend/routes/messages.js:422 | one emission to the user's room is appended |
| Messaging.Broadcaster.EmitEach | backend/routes/messages.js:386-392 | `forEach` emits once per user, in order |
| Messaging.Messenger.NewestFirst | backend/routes/messages.js:207 | the ids of exactly the conversation's messages, strictly decreasing |
| Messaging.Messenger.ContentsIn | backend/routes/messages.js:96 | the contents are exactly those of the conversation's messages |
| Messaging.Messenger.View | backend/routes/messages.js:357-375 | the message as the API shows it keeps the row's id, content, sender, conversation and time |
| Messaging.Messenger.LatestTime | backend/routes/messages.js:95 | `MAX(m.created_at)` is NULL exactly without messages, and otherwise the time of one of them and no earlier than any |
| Messaging.Messenger.Row | backend/routes/messages.js:90-109 | the aggregate row of a conversation carries its id and only the caller among the participants |
| Messaging.Messenger.RowSummarises | backend/routes/messages.js:90-109 | a row's time is the newest message's (none without messages), its preview the greatest content, and its unread count the caller's unread receipts |
| Messaging.Messenger.JoinedUsersAreTheCaller | backend/routes/messages.js:102-106 | the WHERE on the caller's participant row leaves only the caller in the GROUP_CONCAT |
| Messaging.Messenger.ReuseNeverMatches | backend/routes/messages.js:47-63 | the reuse query can never find a conversation: COUNT(DISTINCT cp1.user_id) is 1 within a group |
| Messaging.Messenger.ListConversations | backend/routes/messages.js:83-159 | 500 exactly for a negative limit or offset; otherwise a page of the caller's conversations with one formatted row each, distinct ids, newest first, all as group entries with no participants |
| Messaging.Messenger.RowsOf | backend/routes/messages.js:90-109 | one aggregate row per conversation id, in order |
| Messaging.Messenger.SortedRowsKeepIdentity | backend/routes/messages.js:107 | sorting keeps each row the row of its conversation and the ids distinct |
| Messaging.Messenger.FetchConversation | backend/routes/messages.js:161-249 | 403 exactly for a caller who is not a participant; then 500 exactly for a negative limit or offset; otherwise the page as it was before, after which exactly that page is marked read for the caller |
| Messaging.Messenger.ReadPage | backend/routes/messages.js:187-222 | the page is read with the receipts as they were, then marked read for the caller |
| Messaging.Messenger.PageIds | backend/routes/messages.js:206-209 | the page holds ids of the conversation's messages, newest first, as many as LIMIT and OFFSET keep |
| Messaging.Messenger.ThreadOf | backend/routes/messages.js:187-241 | the response holds one item per page id with the caller's read flag, the conversation's id, name and kind, and the participants only for a group |
| Messaging.Messenger.PageOf | backend/routes/messages.js:187-211 | one query row per page id, in order, with the caller's read flag |
| Messaging.Messenger.MarkPageRead | backend/routes/messages.js:213-222 | every page message gets a read receipt for the caller with the current time, inserted or updated |
| Messaging.Messenger.NewestFirstIsLatestFirst | backend/routes/messages.js:207 | newest first by id is newest first by creation time |
| Messaging.Messenger.CreateOutcome | backend/routes/messages.js:251-313 | 400 exactly without participants; 404 unless every de-duplicated participant is an active user; 500 exactly when the drawn uuid is taken or the stored name text overflows VARCHAR(255); otherwise 201 with the caller first and then each other participant once, and the name the listing will read back |
| Messaging.Messenger.DefaultNames | backend/routes/messages.js:282-289 | one default name per participant |
| Messaging.Messenger.GroupName | backend/routes/messages.js:282-291 | a supplied name is stored trimmed and read back as the listing reads it |
| Messaging.Messenger.SuppliedListReadsAsList | backend/routes/messages.js:282-291 | a supplied name that is the JSON text of a list is read back as that list, like a default name |
| Messaging.Messenger.DefaultNameReadsBack | backend/routes/messages.js:290 | the default name, once stored, reads back as the list of names |
| Messaging.Messenger.DefaultNameUnderscoresEverySpace | backend/routes/messages.js:282-291 | without a usable name the stored name lists the members' names with every space made an underscore |
| Messaging.Messenger.CreateConversation | backend/routes/messages.js:46-81 | the outcome is the creation outcome of the old state; a creation adds the conversation and one participant row per member, and anything else changes nothing |
| Messaging.Messenger.Open | backend/routes/messages.js:65-78 | the conversation row is stored under the fresh id and each member gets one participant row |
| Messaging.Messenger.AddParticipants | backend/routes/messages.js:72-78 | one participant row per member, in order |
| Messaging.Messenger.ActiveCount | backend/routes/messages.js:273-280 | for a list without duplicates, the active users found are as many as the list exactly when all are active |
| Messaging.Messenger.SendMessage | backend/routes/messages.js:315-404 | 400 exactly for content over 20000 trimmed characters or a non-array `attachments`; 403 for a non-participant; 500 with nothing stored when the content or the attachments' JSON text overflows its 65,535-byte TEXT column; otherwise the message is stored, and the answer is 500 for an attachment the ENUM rejects, or 201 with the view and notices to every other participant |
| Messaging.Messenger.Post | backend/routes/messages.js:340-404 | 500 exactly when the content or the attachments' JSON text overflows its TEXT column, with nothing stored, or when an attachment is rejected, after the message row is appended; otherwise the message row, its attachment rows, the view and both notices to every other participant |
| Messaging.Messenger.StoreMessage | backend/routes/messages.js:340-345 | the message row is appended and the state stays valid |
| Messaging.Messenger.StoreAttachments | backend/routes/messages.js:348-355 | one attachment row per item is appended for the newest message |
| Messaging.Messenger.Notify | backend/routes/messages.js:377-397 | every other participant once gets `new-message`, then each gets `update-conversations` |
| Messaging.Messenger.MarkRead | backend/routes/messages.js:406-429 | the count answered is the caller's unread receipts in the conversation, which all become read, nothing else changes, and `update-unread-count` goes to the caller's room |
| Messaging.Messenger.MarkAllRead | backend/routes/messages.js:411-419 | exactly the caller's unread receipts in the conversation become read with the current time |
| Messaging.Messenger.UnreadCountRoute | backend/routes/messages.js:431-448 | the query succeeds exactly when `messages` has `deleted_at`, and then counts the caller's unread receipts |
| Messaging.Messenger.UnreadCountAlwaysFails | backend/routes/messages.js:439 | as written the route always answers 500 |
| Messaging.Messenger.IntendedUnreadCount | backend/routes/messages.js:433-443 | corrected: the count is the caller's unread receipts, and 0 while no receipt is unread |
| Messaging.Messenger.NoUnreadMeansZero | backend/routes/messages.js:340-345 | no route inserts an unread receipt, so every unread count is 0 |
| Messaging.Messenger.SumUnreadIsUnion | backend/routes/messages.js:97 | the per-conversation unread counts add up to the unread receipts in any of them |
| Messaging.Messenger.UnreadTotalIsSumOverConversations | backend/routes/messages.js:431-443 | the corrected global count is the sum of the counts GET /conversations reports over the caller's conversations |
| Messaging.NewConversationKeepsIntegrity | backend/routes/messages.js:65-78 | adding a conversation and its participant rows keeps the participant, message and receipt references |
| Messaging.AttachmentRowsRefer | backend/routes/messages.js:349-356 | the attachment rows of a new message refer to that message |
| Messaging.NewMessageKeepsIntegrity | backend/routes/messages.js:339-356 | a message from a participant keeps the message, attachment and receipt references |
| Messaging.ReadKeepsReceiptsValid | backend/routes/messages.js:213-222 | the receipts written for the fetched page refer to existing messages and participants |
| Messaging.Messenger.EntriesAreFormattedRows | backend/routes/messages.js:83-159 | every listed entry is one of the caller's existing conversations, formatted from its row |
| Messaging.Messenger.OwnConversationsExist | backend/routes/messages.js:100-104 | every conversation the caller participates in exists |
| Messaging.Messenger.DistinctRows | backend/routes/messages.js:104-106 | the rows of distinct conversations are distinct |
| Messaging.Messenger.PageSendersAreUsers | backend/routes/messages.js:203 | every sender of a fetched message is a user, so the JOIN drops no message |
| Notifications.Matching | backend/routes/notifications.js:26-34 | exactly the caller's rows, only the unread ones with the filter on, in table order |
| Notifications.ReverseRunsNewestFirst | backend/routes/notifications.js:36 | a chronological table read backwards runs newest first |
| Notifications.ListingShowsOnlyOwnNewestFirst | backend/routes/notifications.js:6-46 | a page holds at most `limit` of the caller's selected rows, newest first |
| Notifications.FullPageListsEverything | backend/routes/notifications.js:36-37 | a first page large enough lists every selected row |
| Notifications.UnreadCountIsUnreadListing | backend/routes/notifications.js:48-60 | the unread count equals the number of rows the unread-only listing selects |
| Notifications.MarkedRead | backend/routes/notifications.js:64-67 | exactly the caller's row with that id becomes read; every other row stays |
| Notifications.AllRead | backend/routes/notifications.js:84-87 | exactly the caller's rows become read; everyone else's stay |
| Notifications.AllReadIdempotent | backend/routes/notifications.js:82-94 | marking everything read twice is marking it once |
| Notifications.AllReadCounts | backend/routes/notifications.js:82-94 | after read-all the caller has nothing unread, and other users' unread counts are unchanged |
| Notifications.Deleted | backend/routes/notifications.js:98-101 | exactly the caller's row with that id is removed, keeping the table's order |
| Notifications.Inbox.Insert | backend/config/database.js:154-166 | a notification is appended under the next id, stamped with the current time |
| Notifications.Inbox.List | backend/routes/notifications.js:6-46 | 500 exactly when a page bound is NaN or negative; otherwise the page of the caller's listing, filtered only for the text "true": at most `limit` rows, newest first, and a large first page lists all of them |
| Notifications.Inbox.Unread | backend/routes/notifications.js:48-60 | the count is the number of the caller's unread rows |
| Notifications.Inbox.MarkRead | backend/routes/notifications.js:62-80 | 500 exactly for a parameter MariaDB reads with a truncation; 404 exactly when the parameter reads as no natural number or as an id the caller owns no row under; otherwise that row becomes read, and an already read row also answers 200; nothing changes on failure |
| Notifications.Inbox.ReadAll | backend/routes/notifications.js:82-94 | always 200; exactly the caller's rows become read |
| Notifications.Inbox.Delete | backend/routes/notifications.js:96-114 | 500 exactly for a parameter MariaDB reads with a truncation; 404 exactly when it reads as no id of a row the caller owns; both change nothing; otherwise exactly that row goes |
| Notifications.Inbox.ClearAllClearsNothing | backend/routes/notifications.js:116-128 | `clear-all` reads as 0 with a truncation, so the delete-by-id handler that runs for it answers 500, and no row has id 0 |
| Notifications.DeletedNothing | backend/routes/notifications.js:103-105 | deleting a row the caller does not own leaves the table as it was |
| Events.MentionedIn | backend/routes/events.js:14-17 | the users named by the event's mention rows, and no one else |
| Events.VisibleIffSomeRowPasses | backend/routes/events.js:18-22 | an event is listed exactly when one joined row passes the WHERE: its creator, a public event, or a private one mentioning the caller |
| Events.OwnOrPublicViewShowsAllMentions | backend/routes/events.js:14-22 | the creator and everybody on a public event see every mentioned user, each once |
| Events.MentionedViewShowsOnlyViewer | backend/routes/events.js:14-22 | a private event reached only through a mention lists the viewer as its only mention |
| Events.InsertByStart | backend/routes/events.js:24 | inserting a view into a list ordered by start keeps the order and adds exactly that view |
| Events.SortByStart | backend/routes/events.js:24 | `ORDER BY e.start ASC` gives a permutation ordered by start |
| Events.VisibleViews | backend/routes/events.js:10-30 | exactly the visible events, each with the mentions the caller sees |
| Events.ListingIsVisibleSortedByStart | backend/routes/events.js:8-37 | GET / lists exactly the events the caller may see, earliest start first, with the mentions the caller may see |
| Events.MentionRows | backend/routes/events.js:81-87 | one mention row per listed user, in order |
| Events.WithoutEvent | backend/routes/events.js:326-331 | exactly the event's mention rows are removed |
| Events.MentionNotices | backend/routes/events.js:108-121 | one 'event' notification per distinct mentioned user, naming the author and the event |
| Events.Revised | backend/routes/events.js:199-233 | PUT writes title, start, end and privacy always and the description only when supplied, keeping id and creator |
| Events.UpdateCanStoreEmptySpan | backend/routes/events.js:173-193 | POST compares to the second but PUT to the millisecond, so PUT can store an event that ends when it starts |
| Events.FindEvent | backend/routes/events.js:176-183 | the lookup finds the row with that id, and none exactly when no row has it |
| Events.WithoutRow | backend/routes/events.js:332-338 | exactly the row with that id is removed |
| Events.RemovalConsistent | backend/routes/events.js:326-338 | deleting an event and its mention rows keeps the tables consistent |
| Events.CreationConsistent | backend/routes/events.js:73-89 | appending an event by a known creator with mentions of known users keeps the tables consistent |
| Events.RevisionConsistent | backend/routes/events.js:199-248 | revising one event and replacing its mention rows with known users keeps the tables consistent |
| Events.EventBook.List | backend/routes/events.js:8-37 | the listing is ordered by start and holds exactly the visible events with their visible mentions |
| Events.EventBook.Create | backend/routes/events.js:39-147 | 400 exactly for invalid fields or an end not after the start to the second; 500 with nothing stored exactly for a title over 255 characters, a description over the 65,535 bytes of its TEXT column or a mention of an unknown user; otherwise the event, its mention rows, one notice and one emit per distinct mentioned id |
| Events.EventBook.Insert | backend/routes/events.js:73-121 | the event row goes under the next id, followed by its mention rows and the notices |
| Events.EventBook.Update | backend/routes/events.js:149-297 | 400 for invalid fields, 404 for a parameter naming no event (`5.5` included), 403 unless creator or admin, 400 for an end not after the start; 500 with nothing changed for a truncated parameter, a title over 255 characters, a description over the 65,535 bytes of its TEXT column or an unknown mentioned user; otherwise supplied mentions replace the old ones, and the caller and the mentioned users hear `update-event`, each once |
| Events.EventBook.Delete | backend/routes/events.js:299-361 | 404 for a parameter naming no event, 403 unless creator or admin, 500 for a truncated parameter; otherwise the event and its mention rows go, and the mentioned users and the creator each hear `delete-event` once |
| Events.EventBook.Remove | backend/routes/events.js:326-338 | the mention rows and then the event row are deleted, keeping the tables consistent |
| Events.EventBook.Search | backend/routes/events.js:363-385 | [] for a missing query or one under 2 characters; otherwise exactly the active users other than the caller whose name or e-mail contains it, each once |
| Events.WithoutRowKeepsOrder | backend/routes/events.js:332-338 | removing a row keeps the rest in table order |
| Events.ReplacedMentions | backend/routes/events.js:235-248 | after PUT with mentions, the event's mention rows name exactly the supplied list, in order |
| Events.NewEventReachesMentioned | backend/routes/events.js:18-22 | the creator and everyone mentioned on a new event can see it |
| Settings.DefaultSettings | backend/routes/settings.js:16-23 | the default row has a theme, language and font size from their sets, both notification flags on, and the server's time zone |
| Settings.Appended | backend/routes/settings.js:83-114 | a column joins `updateFields` exactly when its field is supplied, and never twice |
| Settings.SetClause | backend/routes/settings.js:83-114 | at most six distinct columns, each present exactly when its field is supplied |
| Settings.EmptySetClauseIffNothingSupplied | backend/routes/settings.js:116-118 | "No fields to update" fires exactly when the body supplies no field |
| Settings.AppliedChangesExactlySupplied | backend/routes/settings.js:120-124 | a supplied column takes the supplied value and every other column keeps its value |
| Settings.AppliedIdempotent | backend/routes/settings.js:120-124 | sending the same PUT twice leaves the row as the first one did |
| Settings.AcceptedKeepsWellFormed | backend/routes/settings.js:53-64 | an accepted PUT keeps the enumerated columns within their sets |
| Settings.SettingsStore.Get | backend/routes/settings.js:8-51 | the stored row is returned as it is; without one the default row is inserted and returned |
| Settings.SettingsStore.Update | backend/routes/settings.js:53-140 | 400 exactly for a value outside its set or a body that supplies nothing, changing nothing; otherwise the supplied columns of the caller's row change, and without a row nothing is written |
| Routing.FirstRoute | backend/server.js:80-90 | the first route from the index that matches, and none matching before it |
| Routing.DispatchFrom | backend/server.js:80-90 | the first mount and route that hit, with nothing earlier hitting |
| Routing.Dispatch | backend/server.js:80-90 | Express answers with the first registered route that matches, and with none exactly when nothing matches |
| Routing.DispatchIsFirstHit | backend/server.js:80-90 | a route that hits with nothing before it hitting is the one that answers |
| Routing.ShadowedRouteNeverRuns | backend/server.js:82-83 | a route registered after one under the same prefix that subsumes it never runs |
| Routing.CommentHandlersShadowed | backend/routes/comments.js:118-219 | the comment edit, delete and like handlers never run, since posts.js registers the same shapes first on /api/posts |
| Routing.SpaceHandlersShadowed | backend/routes/spaces.js:739-817 | the second role-change and member-removal handlers never run |
| Routing.UserPostsHandlerShadowed | backend/routes/users.js:380-401 | the second user-posts handler never runs |
| Routing.ClearAllHandlerShadowed | backend/routes/notifications.js:116-128 | the clear-all handler never runs |
| Routing.ClearAllRunsDeleteById | backend/routes/notifications.js:96 | DELETE /api/notifications/clear-all runs the delete-by-id handler |
| Posts.ParseKind | backend/routes/posts.js:110 | "post" and "thread" are accepted, each as its own kind |
| Posts.FileNameIsLastSegment | backend/routes/posts.js:153 | `url.split("/").reverse()[0]` is the URL's last path segment |
| Posts.AttachmentsFor | backend/routes/posts.js:152-158 | one attachment row per image URL, in order, named by its last segment |
| Posts.SpaceIdsOfEmpty | backend/routes/posts.js:64-70 | a post has no space ids exactly when no `post_spaces` row names it |
| Posts.SpaceIdsOfMembers | backend/routes/posts.js:64-70 | the space ids gathered for a post are exactly those of its rows |
| Posts.GroupStep | backend/routes/posts.js:65-69 | one push keeps every post's list equal to its space ids among the rows seen so far |
| Posts.GroupByPost | backend/routes/posts.js:64-70 | the loop maps exactly the posts with rows, each to its space ids in row order |
| Posts.Resolve | backend/routes/posts.js:85-89 | ids without a space record are dropped, and each space kept comes from a listed id |
| Posts.TagSearchIgnoresCase | backend/routes/posts.js:225 | two queries that differ only in the case of their letters match the same space names |
| Posts.WithoutAttachments | backend/routes/posts.js:344 | the delete removes exactly the post's attachment rows |
| Posts.SpaceRows | backend/routes/posts.js:144-150 | exactly one `post_spaces` row per listed space for the new post |
| Posts.PostInserted | backend/routes/posts.js:137-150 | a new post under the next id, in spaces its author belongs to, keeps the tables consistent |
| Posts.AttachmentsAdded | backend/routes/posts.js:152-158 | attachment rows for an existing post keep the tables consistent |
| Posts.PostRewritten | backend/routes/posts.js:312-319 | rewriting an existing post under the same author keeps the tables consistent |
| Posts.PostRemoved | backend/routes/posts.js:344 | deleting a post with the rows that cascade with it keeps every reference |
| Posts.PostBoard.UnspacedPostsReachEveryFeed | backend/routes/posts.js:15-51 | the feed checks only a post's own `space_id`, which this router never sets, so every new post reaches every feed whatever its spaces |
| Posts.PostBoard.SpacesPerPost | backend/routes/posts.js:63-90 | over the rows the lookup returned, every post gets the spaces of its rows in row order, minus ids with no space |
| Posts.PostBoard.AttachSpacesAsWritten | backend/routes/posts.js:59-62 | as written: the id array bound to `IN (?)` is sent as its JSON text, which reads as 0, so no row is found and every post gets [] |
| Posts.PostBoard.AttachSpaces | backend/routes/posts.js:56-96 | with the lookup the route means, every listed post gets exactly the spaces it was published to that still have a record |
| Posts.PostBoard.CreatePost | backend/routes/posts.js:105-212 | 400 exactly for a failed validator, 403 for a space the author is not a member of, and 500 when the content overflows its 65,535-byte TEXT column or the image list's JSON text overflows VARCHAR(500), all with nothing written; otherwise the post with its space rows, and its attachments unless a space id listed twice breaks the UNIQUE key or a URL or file name overflows its column (500) |
| Posts.PostBoard.InsertPost | backend/routes/posts.js:137-150 | the post goes under the next id with one `post_spaces` row per listed space |
| Posts.PostBoard.StoreAttachments | backend/routes/posts.js:152-158 | one `post_attachments` row per image URL is appended |
| Posts.PostBoard.SearchTags | backend/routes/posts.js:214-235 | [] for a missing query or one under 2 characters; otherwise up to five distinct spaces whose name starts with the query, compared without case, all of them when fewer |
| Posts.PostBoard.GetPost | backend/routes/posts.js:237-276 | 404 exactly for a missing post or an inactive author; otherwise the post, with whether the reader liked it |
| Posts.PostBoard.EditPost | backend/routes/posts.js:278-325 | 400 for blank content or a non-URL image, 404, 403 unless author or admin, 400 when nothing is supplied; 500 exactly for a content over the 65,535 bytes of its TEXT column or an image URL over 500 characters; otherwise exactly the supplied fields change |
| Posts.PostBoard.DeletePost | backend/routes/posts.js:327-356 | 404, 403 unless author or admin, changing nothing; otherwise the post goes with its likes, space rows and attachments |
| Posts.PostBoard.RemovePost | backend/routes/posts.js:344 | the post and the rows that cascade with it are removed |
| Posts.PostBoard.ToggleLike | backend/routes/posts.js:358-403 | 404 for a missing post; otherwise the like is toggled, the answer says whether the reader now likes the post, and a new like notifies the author unless the author liked it |
| Posts.PostBoard.TogglePin | backend/routes/posts.js:405-451 | 404, 403 unless admin or a space admin or owner; otherwise `is_pinned` flips, is answered, and nothing else changes |
| Posts.PostBoard.Rewrite | backend/routes/posts.js:312-319 | one existing post is replaced, keeping its author |
| Comments.RootsUpToExact | backend/routes/comments.js:26-41 | the roots are exactly the top-level comments, each once and in order |
| Comments.RepliesUpToExact | backend/routes/comments.js:26-41 | a comment's replies are exactly the later rows naming it as parent, in order |
| Comments.RegisterUnplaced | backend/routes/comments.js:29-40 | registering a row whose parent is falsy or not yet seen keeps the map correct |
| Comments.RegisterPlaced | backend/routes/comments.js:29-40 | registering a reply whose parent was seen appends it under that parent |
| Comments.BuildTree | backend/routes/comments.js:26-41 | the forEach lists the top-level comments as roots and, under every id, that comment's replies, in input order |
| Comments.EachCommentPlacedOnce | backend/routes/comments.js:26-41 | a root is nobody's reply, and a reply sits under one comment only |
| Comments.OrphanAppearsNowhere | backend/routes/comments.js:26-41 | a reply whose parent is not among the rows before it appears nowhere in the tree |
| Comments.AddingKeepsConsistent | backend/routes/comments.js:82-86 | storing a comment under the next id, with a parent on the same post, keeps the board consistent |
| Comments.CommentBoard.FetchedBelow | backend/routes/comments.js:11-24 | the fetched rows are the listed comments of the post, in increasing id order |
| Comments.CommentBoard.FetchedBelowComplete | backend/routes/comments.js:11-24 | every listed comment of the post is fetched |
| Comments.CommentBoard.ListComments | backend/routes/comments.js:7-48 | 500 exactly when a page bound is NaN or negative; otherwise the page LIMIT and OFFSET keep of the post's comments by active authors, arranged as the tree |
| Comments.CommentBoard.WholeThreadAttachesReplies | backend/routes/comments.js:26-41 | on the whole thread, a reply whose parent's author is active hangs under that earlier parent |
| Comments.CommentBoard.StoredParent | backend/routes/comments.js:85 | the "or null" of the INSERT stores a parent exactly for a truthy id |
| Comments.CommentBoard.AddComment | backend/routes/comments.js:50-116 | 400 exactly for blank content, 404 for a missing post or a parent not on that post, 500 for a content over the 65,535 bytes of its TEXT column, all changing nothing; otherwise the trimmed comment is stored and the post's author is told unless they wrote it |
| Spaces.ColorExamples | backend/routes/spaces.js:70 | the stored default colour `bg-blue-500` has the `bg-<word>-<three digits>` form and near misses do not |
| Spaces.SearchIgnoresCase | backend/routes/spaces.js:47-50 | two searches that differ only in the case of their letters list the same spaces |
| Spaces.AssignableRole | backend/routes/spaces.js:401 | only `member` and `admin` are accepted as roles, and neither is the owner role |
| Spaces.NewSpace | backend/routes/spaces.js:66-90 | the inserted space has the trimmed name, the creator, the given colour or the column default, is private only when asked, and has no description when the trimmed one is empty |
| Spaces.UpdatedSpace | backend/routes/spaces.js:146-188 | every supplied field replaces the stored one, trimmed where validated, and the creator and creation time stay |
| Spaces.Remove | backend/routes/spaces.js:300 | deleting one membership drops exactly that key and keeps every other row unchanged |
| Spaces.WithRole | backend/routes/spaces.js:494 | a role update changes the role of one existing row and nothing else |
| Spaces.PromotionHandsOverOwnership | backend/routes/spaces.js:550-609 | promotion leaves exactly one owner, the target; the old owner becomes admin and every other row is unchanged |
| Spaces.SelfPromotionChangesNothing | backend/routes/spaces.js:585-600 | an owner promoting themselves ends with the table as it was |
| Spaces.DemotingOwnerLeavesNoOwner | backend/routes/spaces.js:469-507 | the role change has no owner guard, so setting the owner's own row to member or admin leaves the space with no owner |
| Spaces.RoleChangeKeepsOneOwner | backend/routes/spaces.js:469-507 | a role change to member or admin never creates a second owner |
| Spaces.CreationKeepsIntegrity | backend/routes/spaces.js:80-90 | creating a space with its creator as owner keeps the foreign keys, the single owner and the rule that no banned user is a member |
| Spaces.DeletionKeepsIntegrity | backend/routes/spaces.js:272 | deleting a space together with its cascaded memberships and bans keeps every table consistent |
| Spaces.BanKeepsIntegrity | backend/routes/spaces.js:683-692 | removing the membership and recording the ban keeps every table consistent and the banned user is no member |
| Spaces.MemberAddedKeepsIntegrity | backend/routes/spaces.js:343-347 | adding a non-owner membership of a user who is not banned keeps every table consistent |
| Spaces.InsertMember | backend/routes/spaces.js:383-389 | inserting a member view into a list ordered by role rank and joining time keeps the order and adds exactly that view |
| Spaces.SortMembers | backend/routes/spaces.js:383-389 | the member list is ordered owner, admins, members, each group by joining time, and is a permutation of its input |
| Spaces.InviteAsWritten | backend/routes/spaces.js:399-467 | as written, every invite with a valid role fails with 500, because the ban lookup selects a missing column |
| Spaces.InviteBanLookupNamesMissingColumn | backend/routes/spaces.js:413 | `space_bans` has no `id` column, so the invite always answers 500 whatever role is given |
| Spaces.SpaceDirectory.RoleOf | backend/routes/spaces.js:120-125 | the caller's role in a space is present exactly when they have a membership row, and it is that row's role |
| Spaces.SpaceDirectory.GetSpace | backend/routes/spaces.js:112-144 | 404 for a missing space or an inactive creator, 403 for a private space the caller is not a member of, otherwise the space with the caller's role and its number of memberships |
| Spaces.SpaceDirectory.ListedBelow | backend/routes/spaces.js:13-53 | exactly the listable spaces, newest first, with no repeats; the search compares name and description without case |
| Spaces.SpaceDirectory.ListSpaces | backend/routes/spaces.js:7-64 | 500 exactly when a page bound is NaN or negative; otherwise the page LIMIT and OFFSET keep of the listable spaces, newest first; `my_spaces=true` selects the public listing |
| Spaces.SpaceDirectory.CreateSpace | backend/routes/spaces.js:66-110 | 400 for a short trimmed name or a bad URL or colour; 500 exactly for a name, description, cover URL or colour that overflows its column (65,535 bytes for the TEXT description); both change nothing; otherwise the new space and the creator's owner row are the only additions |
| Spaces.SpaceDirectory.InsertSpace | backend/routes/spaces.js:80-90 | the new id was free, the space is stored under it, and the creator is its only member, as owner |
| Spaces.SpaceDirectory.UpdateSpace | backend/routes/spaces.js:146-197 | 400 for invalid fields, 403 for a caller who may not manage the space, 400 for an empty update; 500 exactly for a supplied text that overflows its column, the description's TEXT column included; otherwise the supplied fields replace the stored ones |
| Spaces.SpaceDirectory.StoreSpace | backend/routes/spaces.js:186-190 | the UPDATE replaces the stored space and keeps the tables consistent |
| Spaces.SpaceDirectory.FirstRequest | backend/routes/spaces.js:201 | the first request row of the user for the space, or none when there is none |
| Spaces.SpaceDirectory.JoinRequestStatus | backend/routes/spaces.js:199-213 | the status is 'none' exactly when the user never asked to join the space |
| Spaces.SpaceDirectory.StatusNeverApproved | backend/routes/spaces.js:199-213 | since nothing sets `approved`, the status is never 'approved' |
| Spaces.SpaceDirectory.RequestToJoin | backend/routes/spaces.js:216-253 | 404 for a missing space, 400 for a pending request; otherwise the request is never answered, because the notification's type is refused and the catch block throws, and the request row is stored unless its message overflows the 65,535 bytes of its TEXT column, which fails the INSERT and reaches the same catch block |
| Spaces.SpaceDirectory.DeleteSpace | backend/routes/spaces.js:255-279 | 404 for a missing space, 403 unless the caller created it or is a site admin; otherwise the space, its memberships and its bans go and nothing else changes |
| Spaces.SpaceDirectory.RemoveSpace | backend/routes/spaces.js:272 | the DELETE and its cascades remove the space, its memberships and its bans and keep the tables consistent |
| Spaces.SpaceDirectory.Leave | backend/routes/spaces.js:281-309 | 404 for a non-member, 403 for the owner; otherwise only the caller's membership goes |
| Spaces.SpaceDirectory.Join | backend/routes/spaces.js:311-354 | 403 for a banned caller or a private space, 404 for a missing space; otherwise the caller is a member, added with the member role when new |
| Spaces.SpaceDirectory.AddMember | backend/routes/spaces.js:343-347 | the INSERT adds exactly one membership and keeps the tables consistent |
| Spaces.SpaceDirectory.ActiveMembers | backend/routes/spaces.js:370-382 | the members listed are exactly the active users with a membership of the space |
| Spaces.SpaceDirectory.Members | backend/routes/spaces.js:356-397 | 403 for a caller who is neither member nor site admin; otherwise one entry per active member, in role order, each by joining time |
| Spaces.SpaceDirectory.Invite | backend/routes/spaces.js:399-467 | with the ban lookup corrected: 400 for a bad role, 403 for a banned target or a caller who may not manage, 404 for an unknown target, 400 for a member; otherwise the target joins with the role and is notified |
| Spaces.SpaceDirectory.ChangeRole | backend/routes/spaces.js:469-507 | 400 for a bad role, 403 unless the caller is owner or site admin, 404 for a non-member; otherwise only that row's role changes |
| Spaces.SpaceDirectory.Kick | backend/routes/spaces.js:509-548 | 403 for a caller who may not manage, 404 for a non-member, 400 for the owner; otherwise only the target's membership goes |
| Spaces.SpaceDirectory.Promote | backend/routes/spaces.js:550-609 | 403 for anyone but the owner, 404 for a target that is not a member; otherwise ownership passes to the target and the old owner becomes admin |
| Spaces.SpaceDirectory.Banned | backend/routes/spaces.js:611-626 | the banned list holds exactly the known users banned from the space |
| Spaces.SpaceDirectory.BannedListsEveryBan | backend/routes/spaces.js:611-626 | under the foreign keys the listing drops no ban |
| Spaces.SpaceDirectory.Banning | backend/routes/spaces.js:689-692 | the upsert adds one ban row, and a re-ban only refreshes the time and keeps who banned |
| Spaces.SpaceDirectory.BanAsWritten | backend/routes/spaces.js:629-702 | as written: 403 for a caller who may not manage, 400 for a numeric self-ban or the owner, 500 for a missing space or user; otherwise the membership goes and the ban row is written, even for a user already banned |
| Spaces.SpaceDirectory.StoreBan | backend/routes/spaces.js:683-692 | the DELETE and the INSERT remove the membership, add the ban and keep the tables consistent |
| Spaces.SpaceDirectory.Ban | backend/routes/spaces.js:629-702 | with the existing check and the self-ban guard corrected: 400 for a user already banned and nothing changes, and nobody bans themselves |
| Spaces.SpaceDirectory.Unban | backend/routes/spaces.js:704-737 | 403 for a caller who may not manage, 500 for a missing user id, 404 for a user not banned; otherwise only that ban row goes and no membership returns |
| Spaces.TextIdPassesSelfBanGuard | backend/routes/spaces.js:663 | the written guard lets a caller's own id sent as text through, and the loose comparison catches it |
| Admin.DecimalIdNamesCaller | backend/routes/admin.js:192 | the id path the console builds from the caller's own id passes the loose self test and names the caller's row |
| Admin.SelfTestCatchesOwnRow | backend/routes/admin.js:192 | every parameter with which an UPDATE or DELETE reaches the caller's own row is `==` to the caller's id |
| Admin.SuffixedIdSlipsPastSelfTest | backend/routes/admin.js:192 | `/users/<id>x` is read by MariaDB as the caller's id with a truncation but is not `==` to it, so the self tests let it through and the UPDATE or DELETE that follows fails instead |
| Admin.Survivors | backend/config/database.js:55-113 | the cascades leave a subset of the rows in which every reference resolves |
| Admin.SurvivorsLargest | backend/config/database.js:55-113 | the cascades keep every subset whose references resolve among themselves |
| Admin.SurvivorsOfClosed | backend/config/database.js:55-113 | rows whose references all resolve lose nothing to the cascades |
| Admin.SurvivorsOfSuccessiveDeletes | backend/routes/admin.js:253-257 | two DELETE statements in a row, each with its cascades, leave what one DELETE of both sets leaves |
| Admin.OwnedIn | backend/routes/admin.js:253-257 | exactly the user's rows of the given tables |
| Admin.SuccessiveTables | backend/routes/admin.js:253-257 | deleting the user's rows table by table is deleting them from all those tables at once |
| Admin.CommentOnPurgedPostGoes | backend/routes/admin.js:253-254 | a comment on a post of the deleted user goes with the post, whoever wrote it |
| Admin.MatchingBelow | backend/routes/admin.js:83-101 | exactly the users the WHERE clause keeps, highest id first |
| Admin.MatchingBelowStep | backend/routes/admin.js:83-101 | the listing of the ids below `k` is the verdict on `k - 1` followed by the listing below `k - 1` |
| Admin.CollectMatching | backend/routes/admin.js:83-101 | the loop collects exactly the listing of the matching users |
| Admin.FirstPageHoldsAll | backend/routes/admin.js:101-102 | with no offset and a limit at least the number of ids, the page holds every matching user |
| Admin.InsertionKeepsIntegrity | backend/routes/admin.js:144-147 | a new user row under the next id with an unused e-mail keeps every reference and the UNIQUE e-mail key |
| Admin.RowChangeKeepsIntegrity | backend/routes/admin.js:198-226 | changing one user row keeps the UNIQUE key when no other row holds its new e-mail |
| Admin.SameEmailKeepsIntegrity | backend/routes/admin.js:299-303 | a change that keeps the e-mail keeps every table consistent |
| Admin.CreatedRow | backend/routes/admin.js:140-147 | the created account is active, not suspended, offline, stores the normalised e-mail and the hash, and has the admin and moderator flags only when given true |
| Admin.ValidatedAdminUpdate | backend/routes/admin.js:163-171 | a body is refused exactly when a supplied name is shorter than two trimmed characters or a supplied e-mail is invalid; the e-mail is normalised and the flags are kept |
| Admin.AdminUpdateKeepsOtherColumns | backend/routes/admin.js:208-226 | the update never touches the password, avatar, bio, status or suspension details, and an empty body changes nothing |
| Admin.AdminUpdateIdempotent | backend/routes/admin.js:208-226 | applying the same update twice leaves the row as applying it once |
| Admin.Banned | backend/routes/admin.js:296-303 | a ban suspends the user with the reason until a time after now, and keeps the e-mail and the flags |
| Admin.UnbanUndoesBan | backend/routes/admin.js:313-335 | unbanning a user who was not suspended before the ban restores the row exactly |
| Admin.BanOverridesBan | backend/routes/admin.js:296-303 | a second ban replaces the first one's reason and end entirely |
| Admin.ActiveUsers | backend/routes/admin.js:671 | the recipients are exactly the active users |
| Admin.BroadcastRows | backend/routes/admin.js:671-683 | one unread notification per recipient, in order, without a related id |
| Admin.RowsDelivered | backend/routes/admin.js:671-683 | the rows built for the distinct active users reach each of them exactly once and nobody else |
| Admin.BroadcastOutcome | backend/routes/admin.js:671-690 | after a broadcast the old notifications stay in front, the new ones reach exactly the active users, and every reference still holds |
| Admin.BroadcastRowsRejected | backend/routes/admin.js:661 | none of the three broadcast types is a value of the notifications type ENUM, so the INSERT is refused |
| Admin.Lookup | backend/routes/admin.js:756-761 | the value a body gives a key is absent exactly when no pair names the key |
| Admin.FlagValue | backend/routes/admin.js:722-723 | a boolean is stored as itself, and a text is stored in a BOOLEAN column only when it is `1` or `0` |
| Admin.Updated | backend/routes/admin.js:767-770 | the row takes the body's values, under the new `user_id` when the body gives one, and keeps its key otherwise |
| Admin.BooleanTextsStored | backend/routes/admin.js:722 | `isBoolean` accepts the text "true", which MariaDB refuses for a BOOLEAN column, and "1", which it stores |
| Admin.LookupFound | backend/routes/admin.js:756-761 | a value found for a key is one of the body's pairs |
| Admin.SetAllIsApplied | backend/routes/admin.js:753-773 | an accepted body with distinct keys changes the settings row exactly as the user's own settings PUT changes it |
| Admin.FirstAssignment | backend/routes/admin.js:753-773 | the first assignment followed by the rest of the body has the effect of the whole body |
| Admin.BodyAcceptedIsAccepted | backend/routes/admin.js:720-731 | every value an accepted body gives lies in the set the user's own settings PUT accepts |
| Admin.TimezoneListsDisagree | backend/routes/admin.js:725-729 | Africa/Casablanca is accepted by the user's own settings page but refused by the administrator's |
| Admin.Console.ListUsers | backend/routes/admin.js:72-108 | 500 exactly when a page bound is NaN or negative; otherwise the page LIMIT and OFFSET keep of the matching users, highest id first, and `total` is the page's length |
| Admin.Console.CreateUser | backend/routes/admin.js:115-161 | 400 exactly for a refused body or a normalised e-mail somebody holds; 500 exactly when the new row overflows a VARCHAR(255) column; otherwise 201 with the new row under the next id; only 201 changes anything |
| Admin.Console.InsertUser | backend/routes/admin.js:143-147 | the INSERT stores the row under the next id and keeps every table consistent |
| Admin.Console.StoreUser | backend/routes/admin.js:225-228 | the UPDATE replaces one row and keeps every table consistent |
| Admin.Console.UpdateUser | backend/routes/admin.js:163-236 | 400 for a refused body; 404 for a parameter naming no user; 400 for a privilege change of oneself, an e-mail another user holds or an empty body; 500 for a truncated parameter, an overflowing column or an empty e-mail another row holds; otherwise the update is applied; a caller who names themself stays an active admin |
| Admin.Console.DeleteUser | backend/routes/admin.js:238-274 | 404 for a parameter naming no user, 400 for oneself, 500 for a truncated parameter with nothing changed; a permanent delete of a user an event refers to fails part way with their content and what cascades from it gone; otherwise the user is removed with their cascades, or deactivated |
| Admin.Console.PurgeContent | backend/routes/admin.js:253-257 | the five DELETE statements, each with its cascades, leave exactly what the cascades leave after removing the user's rows of all five tables at once |
| Admin.Console.RemoveUser | backend/routes/admin.js:258 | deleting the user removes the row and cascades to their settings and notifications |
| Admin.Console.Ban | backend/routes/admin.js:276-311 | 400 for a short reason, a duration outside 1 to 365 or a parameter `==` to the caller's id, 404 for a parameter naming no user, 500 for a truncated one or a reason over the 65,535 bytes of its TEXT column; otherwise only that user's row is banned, and it is never the caller's |
| Admin.Console.Unban | backend/routes/admin.js:313-335 | 404 for a parameter naming no user, 500 for a truncated one; otherwise only that user's suspension is lifted |
| Admin.Console.PutConfig | backend/routes/admin.js:631-656 | 400 for a short key or an empty value, 500 for a key over 100 characters or a value over the 65,535 bytes of its TEXT column; otherwise the trimmed key is inserted or its value replaced |
| Admin.Console.BroadcastAsWritten | backend/routes/admin.js:658-697 | as written, a validated broadcast always answers 500 and adds no notification |
| Admin.Console.Broadcast | backend/routes/admin.js:658-697 | with a type the table accepts: 400 for a refused body, 500 exactly for a trimmed title over 255 characters or a content over the 65,535 bytes of its TEXT column; otherwise every active user gets exactly one notification and the count is returned |
| Admin.Console.UserSettings | backend/routes/admin.js:699-718 | 404 exactly when the parameter reads as no natural number or names a user with no settings row, otherwise that row |
| Admin.Console.PutUserSettings | backend/routes/admin.js:720-780 | 400 for a refused value; a default row is created first when the parameter names a user without one (500 otherwise); then 400 for an empty body; 500 for a column MariaDB cannot store, a truncated parameter or a `user_id` that breaks a key; otherwise the row takes the body's values, moved to the new `user_id` when one is given |
| Admin.Console.StoreSettings | backend/routes/admin.js:746-772 | the INSERT or UPDATE replaces the user's settings row and keeps every table consistent |
| Admin.Console.MoveSettings | backend/routes/admin.js:767-770 | an UPDATE that sets `user_id` moves the row to that user and keeps every table consistent |
| Admin.Console.DeleteOwned | backend/routes/admin.js:253-257 | one DELETE of the user's rows in a table, followed by its cascades |
| Admin.UpdateFields | backend/routes/admin.js:753-761 | one `key = ?` per pair of the body, in order |
| MessagesClient.Preview | frontend/src/comps/Messages.jsx:43 | the preview of a message is never empty and is the content itself when there is content |
| MessagesClient.ThreadAfterIncoming | frontend/src/comps/Messages.jsx:34-36 | an incoming message joins the thread exactly when it belongs to the open conversation |
| MessagesClient.Touched | frontend/src/comps/Messages.jsx:41-47 | an entry gets the new preview, time and unread count and keeps its id and shape |
| MessagesClient.ListAfterIncoming | frontend/src/comps/Messages.jsx:38-50 | the conversation of the message shows it as its last message at its time, with its unread count zeroed when open and one higher otherwise; every other entry is unchanged and nothing is added |
| MessagesClient.IncomingAddsOneUnread | frontend/src/comps/Messages.jsx:38-50 | with one entry per conversation, a message for a closed conversation adds one to the unread total when it is listed and nothing otherwise |
| MessagesClient.IncomingForOpenIsRead | frontend/src/comps/Messages.jsx:45 | a message for the open conversation leaves it with no unread messages |
| MessagesClient.Views | frontend/src/comps/Messages.jsx:194-199 | the fetched page's messages in the server's order |
| MessagesClient.OpenedThread | frontend/src/comps/Messages.jsx:201 | the thread shows as many messages as the page holds |
| MessagesClient.OpenedThreadOldestFirst | frontend/src/comps/Messages.jsx:201 | the server's newest-first page is shown oldest first |
| MessagesClient.ListAfterRead | frontend/src/comps/Messages.jsx:205-211 | after the read POST only the open conversation's unread count changes, to zero |
| MessagesClient.ListAfterSend | frontend/src/comps/Messages.jsx:248-259 | after a send only the open conversation changes: the typed draft as preview, the client's time, no unread messages |
| MessagesClient.CreatedHeadsList | frontend/src/comps/Messages.jsx:376 | a new conversation put in front of the list keeps one entry per conversation and adds only its own unread count |
| MessagesClient.BlankDraftPreviewShowsBlanks | frontend/src/comps/Messages.jsx:225 | a blank draft with an attachment passes the guard and its local preview shows the blanks the server trims away |
| MessagesClient.ColorIndex | frontend/src/comps/Messages.jsx:142 | the colour index exists exactly for a non-empty id and is below ten |
| MessagesClient.ColorIgnoresRotation | frontend/src/comps/Messages.jsx:142 | the colour depends on which characters the id holds, not on their order |
| MessagesClient.SplitOnSpace | frontend/src/comps/Messages.jsx:155 | splitting on white space gives at least one piece |
| MessagesClient.SplitOnSpaceWords | frontend/src/comps/Messages.jsx:155 | the first piece is the first word, the last piece the last word, and there is one piece exactly when there is no white space |
| MessagesClient.NameInitials | frontend/src/comps/Messages.jsx:154-166 | at most two letters, and '??' for an empty name |
| MessagesClient.NameInitialsCases | frontend/src/comps/Messages.jsx:157-163 | a name holding white space after trimming shows the initials of its first and last word; otherwise its first two characters, or the one |
| MessagesClient.BlankNameShowsBlanks | frontend/src/comps/Messages.jsx:154-161 | a name of blanks shows two blanks rather than '??' |
| MessagesClient.GroupInitials | frontend/src/comps/Messages.jsx:146-152 | the parts of the name around ' and ' other than the user's own, joined and cut to two upper-case characters, or 'GR' when none is left |
| MessagesClient.OwnNameGroupShowsGR | frontend/src/comps/Messages.jsx:147-151 | a group named by the user alone shows 'GR' |
| MessagesClient.EmptyGroupNameShowsNothing | frontend/src/comps/Messages.jsx:147-149 | an empty group name leaves one empty part and the icon shows no letters |
| MessagesClient.ToggleSelection | frontend/src/comps/Messages.jsx:387-393 | a selected id is removed with every user carrying it, an unselected user is appended |
| MessagesClient.ToggleKeepsIdsDistinct | frontend/src/comps/Messages.jsx:387-393 | toggling never lets two selected users share an id |
| MessagesClient.ToggleTwiceRestores | frontend/src/comps/Messages.jsx:387-393 | selecting a user and then deselecting them restores the selection |
| MessagesClient.GroupPlaceholder | frontend/src/comps/Messages.jsx:299-310 | the placeholder filled into an empty group name is never blank |
| MessagesClient.PlaceholderAdmitsGroup | frontend/src/comps/Messages.jsx:364-365 | with the placeholder filled in, a group is created exactly when two users or more are chosen |
| MessagesClient.FindDirect | frontend/src/comps/Messages.jsx:335-338 | a found entry is a direct conversation whose other id strictly equals the user's, and none is found when no entry matches |
| MessagesClient.FormattedDirectIdIsText | backend/routes/messages.js:128-150 | the server lists the other participant's id as text |
| MessagesClient.NeverReusesDirect | frontend/src/comps/Messages.jsx:335-338 | against ids given as text the strict comparison never finds an existing direct conversation |
| MessagesClient.Picked | frontend/src/comps/Messages.jsx:91-101 | a picked file becomes an image, video or file by its MIME prefix, with a preview exactly for images and videos and no URL yet |
| MessagesClient.PickedAll | frontend/src/comps/Messages.jsx:91-101 | one attachment per picked file, in order |
| MessagesClient.AttachmentsAfterUpload | frontend/src/comps/Messages.jsx:116-121 | the URL re-read succeeds exactly when the response covers the new files, and then each attachment takes the URL at its shifted index |
| MessagesClient.Sent | frontend/src/comps/Messages.jsx:227-231 | the request carries each attachment's URL, name and kind, in order |
| MessagesClient.ChatPage.Loaded | frontend/src/comps/Messages.jsx:171-180 | the server's list replaces the local one |
| MessagesClient.ChatPage.Incoming | frontend/src/comps/Messages.jsx:27-50 | the thread and the list change as ThreadAfterIncoming and ListAfterIncoming say |
| MessagesClient.ChatPage.Opened | frontend/src/comps/Messages.jsx:186-215 | with a conversation open and its page fetched the thread shows it oldest first, and the list is zeroed for it once the read POST answered; a failed fetch changes nothing |
| MessagesClient.ChatPage.Send | frontend/src/comps/Messages.jsx:223-263 | a request goes out exactly when the guard passes and a conversation is open; a success appends the answer, clears the draft and the attachments and updates the list, a failure changes nothing |
| MessagesClient.ChatPage.Upload | frontend/src/comps/Messages.jsx:85-131 | no files change nothing; otherwise the picked files are appended and take their URLs from the response; a failed upload keeps them without URLs, and a response too short throws inside the render, which `crashed` records |
| MessagesClient.ChatPage.RemoveAttachment | frontend/src/comps/Messages.jsx:133-139 | the attachment list is spliced at the index |
| MessagesClient.ChatPage.ToggleUser | frontend/src/comps/Messages.jsx:387-393 | the selection is toggled for the user |
| MessagesClient.ChatPage.StartDirect | frontend/src/comps/Messages.jsx:333-342 | a matching direct entry is opened; otherwise the page keeps its open conversation and asks the server |
| MessagesClient.ChatPage.CreateGroup | frontend/src/comps/Messages.jsx:364-385 | a request goes out exactly when two users or more are chosen and the name is not blank; a created group is put in front of the list and opened, and the form is reset; a failure changes nothing |
| Compose.At | frontend/src/comps/Dashboard.jsx:97 | an index inside the array gives its element, any other index gives undefined |
| Compose.Previews | frontend/src/comps/Dashboard.jsx:75-80 | one image per preview, in order, without a server URL |
| Compose.Spliced | frontend/src/comps/Dashboard.jsx:109-115 | splicing one element shortens a non-empty list by one for an index before its end, and keeps the length otherwise |
| Compose.RemoveKeepsTheRest | frontend/src/comps/Dashboard.jsx:109-115 | removing at an index drops exactly that element and keeps the others in order |
| Compose.RemovePastEndKeepsAll | frontend/src/comps/Dashboard.jsx:109-115 | an index one past the end leaves the list as it is |
| Compose.TrailingWordRun | frontend/src/comps/Dashboard.jsx:25 | the longest run of word characters that ends the text |
| Compose.HashtagBefore | frontend/src/comps/Dashboard.jsx:23-31 | a match gives the position of a '#' before the cursor and the word characters between it and the cursor |
| Compose.HashtagIffTrailingTag | frontend/src/comps/Dashboard.jsx:25 | a suggestion query is active exactly when a '#' is followed by word characters up to the cursor, and it is that query |
| Compose.WithTagReplacesQuery | frontend/src/comps/Dashboard.jsx:60-63 | choosing a tag keeps the text up to the '#' and after the cursor, and replaces only the query by the name and a space |
| Compose.NoHashNoSuggestion | frontend/src/comps/Dashboard.jsx:25 | a text with no '#' never offers suggestions |
| Compose.AfterUpload | frontend/src/comps/Dashboard.jsx:93-99 | after an upload every image keeps its preview and re-reads its URL from the response |
| Compose.UploadRemap | frontend/src/comps/Dashboard.jsx:93-99 | the new images take the response's URLs in order and the earlier images lose theirs |
| Compose.SubmittedUrls | frontend/src/comps/Dashboard.jsx:148 | the request carries each image's server URL, in order |
| Compose.ImagesOnlyPostRefused | frontend/src/comps/Dashboard.jsx:142 | a post of images alone passes the composer's guard but the server refuses its blank content |
| Compose.SpaceComposerPostRefused | frontend/src/comps/Spaces.jsx:1172-1176 | the space page's composer sends `space_id` instead of `space_ids`, so the server refuses every post it sends |
| Compose.Composer.TextChanged | frontend/src/comps/Dashboard.jsx:19-45 | a match replaces the stored query and position; without one the old query stays and the list hides |
| Compose.Composer.SuggestionsArrived | frontend/src/comps/Dashboard.jsx:34-38 | the tag search's answer shows the list |
| Compose.Composer.SelectHashtag | frontend/src/comps/Dashboard.jsx:60-65 | the tag's name is spliced in, its id is appended even when already chosen, and the list hides |
| Compose.Composer.RemoveImage | frontend/src/comps/Dashboard.jsx:109-115 | the image list is spliced at the index |
| Compose.Composer.Uploaded | frontend/src/comps/Dashboard.jsx:68-107 | nothing selected changes nothing; a failed upload keeps the previews without URLs; otherwise the previews are appended and every URL is re-read from the response |
| Compose.Composer.Submit | frontend/src/comps/Dashboard.jsx:140-164 | a request goes out exactly when the guard passes, with the text, the URLs and the chosen ids; a success clears only the text |
| SpaceClient.RoleFlags | frontend/src/comps/Spaces.jsx:643-645 | the owner counts as an administrator of the page; a member or a visitor is neither |
| SpaceClient.OfferedBanPassesRoleGuards | frontend/src/comps/Spaces.jsx:834 | a ban the page offers passes the server's role guards: the caller manages the space and the target is neither the caller nor the owner |
| SpaceClient.SiteAdminNotOffered | frontend/src/comps/Spaces.jsx:834 | a site administrator without a role in the space is offered no ban although the server accepts theirs |
| SpaceClient.InvitedIsNoActiveMember | frontend/src/comps/Spaces.jsx:999-1004 | a user the page lets one invite is no active member of the space |
| SpaceClient.MemberNotInvitable | frontend/src/comps/Spaces.jsx:999-1004 | an active member is never offered an invite |
| SpaceClient.EditPageWithinServerRule | frontend/src/comps/Spaces.jsx:1515 | whoever the edit page admits, the server's update admits too |
| SpaceClient.SpaceAdminTurnedAway | frontend/src/comps/Spaces.jsx:1515 | a space administrator who is no site administrator may edit on the server but the page turns them away |
| SpaceClient.SpacePostBodyRefused | frontend/src/comps/Spaces.jsx:1172-1176 | the body the space's post form sends is refused by POST /posts |
| SpaceClient.SpacePostForm.TextChanged | frontend/src/comps/Spaces.jsx:1068-1093 | a match replaces the stored query; otherwise the list hides |
| SpaceClient.SpacePostForm.SelectHashtag | frontend/src/comps/Spaces.jsx:1108-1113 | the tag's name is spliced in at the stored query and the list hides |
| SpaceClient.SpacePostForm.RemoveImage | frontend/src/comps/Spaces.jsx:1156-1162 | the image list is spliced at the index |
| SpaceClient.SpacePostForm.Uploaded | frontend/src/comps/Spaces.jsx:1115-1154 | nothing selected changes nothing; a failed upload keeps the previews without URLs; otherwise the previews are appended and every URL is re-read from the response |
| SpaceClient.SpacePostForm.Submit | frontend/src/comps/Spaces.jsx:1164-1185 | a request goes out exactly when the guard passes, and the server refuses it |
| CalendarGrid.MonthShifted | frontend/src/comps/Calendar.jsx:64-70 | the Date constructor carries an overflowing month into the year: the result is a valid month exactly `dir` months away |
| CalendarGrid.NavigateMonth | frontend/src/comps/Calendar.jsx:64-70 | navigation always lands on a valid month |
| CalendarGrid.NavigationComposes | frontend/src/comps/Calendar.jsx:64-70 | navigating twice is navigating once by the sum, and navigating by zero stays put |
| CalendarGrid.TwelveMonthsIsAYear | frontend/src/comps/Calendar.jsx:64-70 | twelve months forward or back keep the month and move the year by one |
| CalendarGrid.DaysInMonth | frontend/src/comps/Calendar.jsx:205-206 | a month has 28 to 31 days, and 29 exactly for February of a leap year |
| CalendarGrid.YearLength | frontend/src/comps/Calendar.jsx:205-206 | the day count of a leap year is 366 and of any other year 365 |
| CalendarGrid.MonthsFillTheYear | frontend/src/comps/Calendar.jsx:205-206 | the days of the twelve months make up the year |
| CalendarGrid.Weekday | frontend/src/comps/Calendar.jsx:207 | the weekday is one of 0 for Sunday through 6 for Saturday |
| CalendarGrid.WeekdayCalibration | frontend/src/comps/Calendar.jsx:207 | the weekdays agree with the Gregorian calendar: 1 January 1970 a Thursday, 1 January 2024 a Monday |
| CalendarGrid.NextMonthStart | frontend/src/comps/Calendar.jsx:272-273 | the first of the next month is the day after this month's last |
| CalendarGrid.PreviousMonthEnd | frontend/src/comps/Calendar.jsx:209-214 | the last day of the previous month is the day before this month's first |
| CalendarGrid.TrailingBounds | frontend/src/comps/Calendar.jsx:269-270 | after the leading and the current cells, 5 to 14 trailing cells always remain |
| CalendarGrid.RenderDays | frontend/src/comps/Calendar.jsx:203-282 | the three loops build the 42-cell grid: the leading days of the previous month, every day of this month with its events, and the trailing days of the next |
| CalendarGrid.GridDayNumbers | frontend/src/comps/Calendar.jsx:203-282 | the grid shows 42 consecutive real dates, the k-th cell k days after the first |
| CalendarGrid.GridColumnsAreWeekdays | frontend/src/comps/Calendar.jsx:203-282 | each column of the grid is one weekday, Sunday first |
| CalendarGrid.EventShownIffSameDay | frontend/src/comps/Calendar.jsx:224-229 | an event is listed under a day of the month exactly when it starts on that date |
| CalendarGrid.AddUser | frontend/src/comps/Calendar.jsx:87-99 | a user joins the mentions unless a picked user with the same id is there; a bare id never matches |
| CalendarGrid.RemoveUser | frontend/src/comps/Calendar.jsx:101-108 | every picked user with that id goes; bare ids and everything else stay |
| CalendarGrid.PickedIdsMembers | frontend/src/comps/Calendar.jsx:90 | `u.id` yields an id exactly for a picked user that carries it |
| CalendarGrid.AddUserKeepsIdsDistinct | frontend/src/comps/Calendar.jsx:87-99 | no two picked users share an id, and an added user is picked |
| CalendarGrid.RemoveUserProperties | frontend/src/comps/Calendar.jsx:101-108 | removal keeps the picked ids distinct, removing an absent user changes nothing, and removing a user just added undoes the addition |
| CalendarGrid.EditMentions | frontend/src/comps/Calendar.jsx:177 | the edit form loads one bare id per mention of the event, none when it has none |
| CalendarGrid.EditFormMentionsTwice | frontend/src/comps/Calendar.jsx:87-108 | in the edit form a user the event already mentions is added a second time, and removeUser cannot take a loaded mention out |
| CalendarGrid.NewDraft | frontend/src/comps/Calendar.jsx:149-161 | a new event is empty, public, mentions nobody, starts at the chosen instant or now and lasts an hour |
| CalendarGrid.CanEditIffServerAllows | frontend/src/comps/Calendar.jsx:163-169 | the form is editable exactly when the event's creator or a site admin opens it, which is when PUT and DELETE /events/:id accept the caller; a new form is always editable |
| Header.Listed | frontend/src/comps/Header.jsx:77 | the drop-down lists the first ten entries, or all of them when fewer |
| Header.Clicked | frontend/src/comps/Header.jsx:82-84 | a click asks to mark the notification read exactly while it is unread, and names its id |
| Header.NotificationBadgeAtMostTen | frontend/src/comps/Header.jsx:11 | the notification badge never exceeds the ten notifications the header loads |
| Header.FewNotificationsBadgeIsUnreadCount | frontend/src/comps/Header.jsx:11 | with at most ten notifications the badge equals the server's unread count and shows exactly when it is positive |
| Header.ClickLowersUnreadCount | frontend/src/comps/Header.jsx:82-84 | the request a click sends lowers the caller's unread count by exactly one |
| Header.MarkedReadElsewhere | frontend/src/comps/Header.jsx:82-84 | marking an id no row carries changes nothing |
| Header.ClickOnReadSendsNothing | frontend/src/comps/Header.jsx:82-84 | a click on a notification already read sends nothing |
| Header.MessageBadgeBounds | frontend/src/comps/Header.jsx:12 | the message badge counts conversations: it never exceeds the unread messages or the list's length, and shows exactly when some message is unread |
| Header.MessageBadgeCountsConversations | frontend/src/comps/Header.jsx:12 | one conversation with three unread messages shows the badge 1 |
| AdminPanel.TotalFromAnswer | frontend/src/comps/AdminPanel.jsx:47 | a missing or zero total falls back to the list's length, and a positive total is kept |
| AdminPanel.Answered | frontend/src/comps/AdminPanel.jsx:45-72 | a listing's answer sets only the total |
| AdminPanel.PageChanged | frontend/src/comps/AdminPanel.jsx:97-99 | a page change sets only the page |
| AdminPanel.TabChanged | frontend/src/comps/AdminPanel.jsx:810-815 | a tab click goes back to page 1 of 10 with no total, no search and no selected user |
| AdminPanel.PageStaysPositive | frontend/src/comps/AdminPanel.jsx:763-774 | starting from page 1, the buttons, the tabs and the answers never take the page below 1 |
| AdminPanel.NextThenPreviousRestores | frontend/src/comps/AdminPanel.jsx:763-774 | Next followed by Previous comes back to the same state |
| AdminPanel.TabChangeResets | frontend/src/comps/AdminPanel.jsx:810-815 | changing to a tab twice is changing once, and a changed tab requests offset 0 and shows no pagination |
| AdminPanel.RangeIsTheRequestedRows | frontend/src/comps/AdminPanel.jsx:756-757 | a page holding rows shows the range LIMIT and OFFSET return: it starts after the offset and spans as many rows as the page holds |
| AdminPanel.NextDisabledIffLastPage | frontend/src/comps/AdminPanel.jsx:774 | Next is disabled exactly when the range reaches the total, that is when the next page would be empty |
| AdminPanel.RangesAdjacent | frontend/src/comps/AdminPanel.jsx:756-774 | the next page's range starts right after this one's end |
| AdminPanel.UsersPaginationNeverShows | frontend/src/comps/AdminPanel.jsx:844 | the users listing answers with the page's own length as total, so its pagination never shows |
| AdminPanel.ShortListNeverShowsPagination | frontend/src/comps/AdminPanel.jsx:844 | a listing without a total or with a total no larger than one page never shows pagination |

## Left out

- HTTP plumbing is not modelled: helmet, CORS, the rate limiter, morgan, body-size limits, the static `/uploads` route, the 404 fallback and the error handler (backend/server.js:35-68, 92-110). express-validator appears only as the rule each route applies.
- The socket.io transport is not modelled. This covers connecting and disconnecting (backend/server.js:26-33) and the client's sockets (frontend/src/comps/Messages.jsx:52-77, 265-291). The client opens two sockets and registers its handlers twice, which is left out as lifecycle behaviour. `Broadcaster` keeps only rooms and the emissions made.
- File storage is not modelled: multer, random file names, size limits, and backend/routes/upload.js. Only the MIME-prefix classification and the descriptors of the stored files are kept.
- JWT signing is not modelled. A successful login reports the user it signed in. Password hashing is the parameter `hash` and comparison the parameter `compare`.
- Locale and time zones are not modelled: date-fns `format`, `toLocaleString`, `toDateString`, and the Intl default time zone, which is a parameter. The calendar works on proleptic Gregorian dates with no time of day. The Date constructor's mapping of years 0-99 to 1900-1999 is left out.
- SQL text semantics are modelled only in part. `LIKE` is a substring or prefix test after ASCII upper-casing (`Common.Upper`): wildcards inside the query and the collation's folding of other letters and accents are left out. The order inside `GROUP_CONCAT` and `JSON_ARRAYAGG`, and `MAX` over text beyond code-point order, are left out too.
- A value in a request body has the type the route expects (a flag is a boolean), except in the body of the administrator's settings PUT, where a value is a boolean, a text or a number (`Admin.FlagValue`, `Admin.BooleanTextsStored`). Values of other JSON types elsewhere, such as the text "true" for `is_private`, are not modelled. In that settings body a `user_id` given as text or as a boolean is not modelled either: only a number moves the row.
- Concurrency is not modelled: there are no races between simultaneous requests.
- Left out as read-only reporting: the admin statistics, the admin log listing and `GET /config` (backend/routes/admin.js:23-70, 571-629). The `logAdminAction` audit rows are left out too.
- The admin routes for spaces, posts and messages are not modelled (backend/routes/admin.js:337-569). They list rows, or delete a space, a post or a message with the statements and cascades `Admin.Survivors` describes for a user's content.
- The read-only user listings are not modelled: `GET /api/users`, `/:id`, `/:id/posts`, `/:id/followers`, `/:id/following`, `/profile/:id` and `/:userId/spaces` (backend/routes/users.js:9-132, 234-273, 351-424). `Routing.UserPostsHandlerShadowed` covers the second posts handler.
- The comment edit, delete and like handlers (backend/routes/comments.js:118-219), the second role-change and kick handlers (backend/routes/spaces.js:739-817) and the clear-all handler (backend/routes/notifications.js:116-128) get no model of their bodies. Express never runs them; `Routing` proves this.
- MySQL is not modelled. There `JSON_ARRAYAGG(DISTINCT …)` does not parse, so GET /api/events answers 500; JSON aggregates come back already parsed, so `JSON.parse` at backend/routes/events.js:105 and 265 throws after the commit once an event has two or more mentions; and from version 8.0.22 every listing with `LIMIT ? OFFSET ?` answers 500.
- Left out from Messages.jsx: the name rewrite of a newly created direct conversation, and prepending it to the list (lines 350-358). They run only after the server answers, and the reuse lookup before them never matches (`MessagesClient.NeverReusesDirect`).
- Left out from Dashboard.jsx: `handleKeyDown`, which creates a tag on space or Enter (lines 47-58), and the feed reload (lines 121-138).
- Left out from Calendar.jsx: the request bodies of `saveEvent` and `deleteEvent` and the list updates after them (lines 110-147). So is what `saveEvent` sends for a bare id the edit form loaded: `u.id` of a number is undefined (line 122). The list of events the grid shows is a parameter of `RenderDays`.
- Left out from App.jsx: the request it sends to `/messages?limit=10`, a route that messages.js does not define.
- The pure-UI components are not modelled: Profile, UserProfile, Settings, Sidebar, LoginPage, Posts, App and the settings context. The password hashing done for the seed rows (backend/config/database.js:322-367) is a parameter.
- MessagesClient.OpenedThread: its contract gives only the length; its order is stated by `MessagesClient.OpenedThreadOldestFirst`.
- Notifications.Inbox.ClearAllClearsNothing: it states the outcome of the route that actually runs for `DELETE /clear-all`. The clear-all handler's own body is not modelled, because it never runs.
- Spaces.SpaceDirectory.RequestToJoin: it states that the request is never answered. The response that never comes is not modelled.
- Common.SqlNumber reads a numeral as an exact decimal. MariaDB reads it as a DOUBLE, which rounds beyond 2^53, so a text such as `9007199254740993` selects that exact id here. MariaDB's rounding is not modelled.
- Common.SqlKey: a truncated reading in the WHERE of an UPDATE or DELETE is taken to fail the statement even when no row is scanned, for example on an empty table. This is not modelled either way.
- The `:id` parameters of backend/routes/spaces.js, posts.js, comments.js and users.js are modelled as ids already read, so their text readings (`5.5`, `5x`, ` 5`) are not modelled. Only the admin, event and notification routes read the parameter text.
- Admin.Console.PutUserSettings: a parameter with a fraction, such as `5.5`, is answered 500 when the default row is inserted. Whether MariaDB instead rounds it and inserts a row for user 6 is not modelled.
- Admin.Console.UpdateUser checks the width of the name, e-mail, title and department of the whole row it writes, not only of the supplied fields. A stored row that already overflows a column therefore answers 500 here. The routes that write those columns check their widths, so such a row can only come from outside them.
- Messaging.Messenger.GroupName reads a stored name through `ConversationFormat.ReadName`.
- ConversationFormat.ReadName reads only arrays of strings with no escapes and no white space between elements. `JSON.parse` also reads white space, escapes and non-string elements: a name such as `[1,2]` or `["a", "b"]` is listed as a list by the source and as plain text here. `JSON.stringify` escapes in a default name are not modelled either: `Common.JsonList` assumes names without quotes or backslashes.
- Messaging.AttachmentsJson writes the members `url`, `name` and `type` in the client's order and escapes nothing. Other members a request body may carry, other orders, and the escapes `JSON.stringify` adds for quotes, backslashes and control characters are not modelled, so the byte count of a hand-made body can differ from the source's.
- Common.Upper upper-cases ASCII letters only. JavaScript's `toUpperCase` covers all of Unicode and can lengthen a string ("ß" becomes "SS").
- Common.Substring counts characters. JavaScript's `substring` and `[0]` count UTF-16 code units, so a character outside the Basic Multilingual Plane is split.
- MessagesClient.NameInitials: its bound of two letters holds of the model's ASCII upper-casing only. The source shows "SSA" for the name "ßa", and "ÉM" where the model shows "éM" for "élise martin".
- MessagesClient.NameInitialsCases uses the same ASCII `Common.Upper` and character indexing.
- MessagesClient.GroupInitials uses the same ASCII `Common.Upper` and character indexing, so its two-character cut holds of the model only.
- The tables declare no character set (backend/config/database.js:22-314), so they take the database's default. A database whose default is not utf8mb4 is not modelled: there a TEXT column's byte count, and which characters it can store at all, differ.
- Text lengths checked against a VARCHAR width count characters. MariaDB counts characters of the column's character set too, but the browser's and the server's Unicode handling is not modelled.

## Findings

| source | as written | input that shows it | evidently intended | confidence | as-written member | corrected member |
|---|---|---|---|---|---|---|
| backend/routes/users.js:218-224 | the follow notification is inserted with type `follow`, which the `notifications.type` ENUM lacks, after the follow row is stored | user 2 follows active user 3, who is not yet followed | the follow is stored, user 3 is notified, and the route answers `isFollowing: true` | high under strict SQL mode; not executed | Users.Directory.FollowAsWritten | Users.Directory.Follow |
| backend/routes/messages.js:439 | the unread count filters on `m.deleted_at`, a column `messages` lacks | any `GET /api/messages/unread/count` | the number of the caller's unread receipts | high; not executed | Messaging.Messenger.UnreadCountAlwaysFails | Messaging.Messenger.IntendedUnreadCount |
| backend/routes/admin.js:679-683 | each broadcast row carries the broadcast's type, and none of the three is a value of the `notifications.type` ENUM | a broadcast with title "Hello all", content "Scheduled downtime" and type `announcement` | every active user gets one notification, and the answer reports how many | high under strict SQL mode; not executed | Admin.Console.BroadcastAsWritten | Admin.Console.Broadcast |
| backend/routes/spaces.js:413 | the invite's ban lookup selects `id` from `space_bans`, which has no such column | a space owner invites an active user who is no member, with role `member` | the ban check runs, then the user joins and is notified | high; not executed | Spaces.InviteBanLookupNamesMissingColumn | Spaces.SpaceDirectory.Invite |
| backend/routes/spaces.js:644, 663 | the already-banned check selects the missing `id` column and its error is swallowed; the self-ban guard compares the body's id with `===` | banning a user who is already banned (200, `banned_at` refreshed); a space admin sending their own id as the text "5" | 400 for a user already banned; nobody can ban themself | high; not executed | Spaces.SpaceDirectory.BanAsWritten | Spaces.SpaceDirectory.Ban |
| backend/routes/posts.js:59-62 | the array of post ids is bound to `post_id IN (?)` through `execute`, which sends it as one JSON text instead of expanding it | a feed listing post 1, published to space 2 | each post is listed with the spaces it was published to | medium: depends on how mysql2 binds an array; not executed | Posts.PostBoard.AttachSpacesAsWritten | Posts.PostBoard.AttachSpaces |
