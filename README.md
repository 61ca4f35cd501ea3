# FoodHub+ account, group and chat registry in Dafny

This project models the core of `app.py`, a Flask/SocketIO application. The core has four parts:

- **Account life cycle.** Registration with an e-mailed six-digit one-time code, verification of that code, login, and the `login_required` gate.
- **Group registry.** Public groups, and private groups reached by invite code, with their membership table.
- **Chat relay.** The rule that decides whether a socket message is stored and broadcast.
- **Pure helpers.** Code formatting, the offline recipe suggestion, ingredient parsing, and the image-extension check for uploads.

The SQLite database is modelled as in-memory tables held in the fields of one `Registry.App` object:

- `users` and `groups` are maps keyed by id, each with an AUTOINCREMENT counter.
- `members` is a map keyed by the (group, user) pair. Its key carries the UNIQUE(group_id, user_id) constraint.
- `messages` is an append-only sequence with its own counter.
- `sessions` is a map from each browser (its signed cookie) to the two session keys the core uses.
- `socketSessions` holds, for each socket connection, the copy of its browser's session that Flask-SocketIO took when that connection was made. The chat handler reads the copy of the connection the message arrives on. A login over HTTP after connecting is not seen by it, and two tabs of one browser can carry different users.

Every handler is a method. It takes the request's fields as parameters and returns the outcome as a value: a redirect with its flashed notice, a rendered page, a group listing, a chat room, a server error (an uncaught exception), or a dropped or broadcast chat message. Randomness, the clock and mail delivery are also parameters.

Each handler's `ensures` states the whole new state for every branch of the source. Each one also keeps `Valid()`, the table invariants, which say:

- user names and e-mail addresses are unique;
- a user is verified exactly when no code and no expiry are stored;
- group names are unique;
- a group has an invite code exactly when it is private;
- every membership row names an existing group and user;
- every group's owner has a row, and only the owner's row has the owner role;
- the message log is in increasing id order, and every author exists.

Modules:

- `Common`: `Option`.
- `Text`: Python's `str.strip`, `lower`, `split`, `join`, `str(int)` and `int(str)`.
- `Otp`: code formatting and the acceptance test.
- `Recipe`: the suggestion and ingredient parsing.
- `Uploads`: the extension check and the stored names.
- `Registry`: the tables and handlers.

## Model

| member | source | states |
|---|---|---|
| Otp.FormatCode | app.py:58-59 | the code has exactly six characters, all decimal digits, and its decimal value is the draw `n < 1000000` (left-padded with zeros) |
| Otp.FormatCodeBijective | app.py:58-59 | every six-digit string is the code of exactly one draw below 1000000, so formatting is a bijection between draws and codes |
| Otp.ExpiryOf | app.py:224-227 | a stored numeric expiry is read as itself; a missing or unparseable one is read as 0 |
| Otp.Accepts | app.py:228 | the acceptance test of `verify`; its meaning is stated by `Otp.AcceptsExactly`, `Otp.IssuedCodeWindow`, `Otp.ClearedAcceptsNothing` and `Otp.BrokenExpiryFailsClosed` |
| Otp.AcceptsExactly | app.py:222-228 | a submission is accepted iff it is non-empty, a code is stored and equals it, and the clock is at or before the expiry |
| Otp.IssuedExpiry | app.py:193 | the expiry stored with a new code, 600 s after issue; its meaning is stated by `Otp.IssuedCodeWindow` |
| Otp.IssuedCodeWindow | app.py:192-194 | the code issued at time t is accepted at time `now` iff `now <= t + 600` |
| Otp.ClearedAcceptsNothing | app.py:228-231 | after the code and expiry are cleared, no submission is accepted |
| Otp.BrokenExpiryFailsClosed | app.py:224-228 | with a missing or unparseable expiry, no submission is accepted after time 0 |
| Text.Strip | app.py:174 | `str.strip`; its meaning is stated by `Text.StripShape`, `Text.StripPadded` and `Text.StripIdempotent` |
| Text.StripPadded | app.py:174 | stripping whitespace around a core that neither starts nor ends with whitespace gives back exactly that core |
| Text.StripShape | app.py:174 | the stripped string neither starts nor ends with whitespace and uses only characters of the input |
| Text.StripIdempotent | app.py:174 | stripping twice is stripping once |
| Text.Lower | app.py:175 | `str.lower` on ASCII letters; its meaning is stated by `Text.LowerStrip` and `Text.LowerIdempotent` |
| Text.LowerStrip | app.py:175 | lower-casing and stripping commute |
| Text.LowerIdempotent | app.py:175 | lower-casing twice is lower-casing once |
| Text.Split | app.py:554 | `split` returns at least one piece, and no piece contains the separator |
| Text.JoinSplit | app.py:554 | joining the pieces of a split with the separator gives back the input |
| Text.SplitJoin | app.py:554 | splitting a join of separator-free pieces gives back the pieces |
| Text.Join | app.py:510 | `sep.join(items)`; its meaning is stated by `Text.JoinPair`, `Text.JoinSplit` and `Text.SplitJoin` |
| Text.JoinPair | app.py:510 | joining two items puts exactly one separator between them |
| Text.Decimal | app.py:285 | `str(n)` inside an f-string: a non-empty digit string denoting n, with no leading zero unless n is 0; its inverse is stated by `Text.ParseIntDecimal`, and injectivity by `Uploads.DecimalInjective` |
| Text.ParseInt | app.py:486 | `int()` on a string; its meaning is stated by `Text.ParseIntDecimal`, `Text.ParseIntPadded` and `Text.ParseIntDigitLimit` |
| Text.ParseIntPadded | app.py:486 | a number surrounded by whitespace is read as that number unless U+001C..U+001F occurs in the whitespace, in which case `int()` raises |
| Text.ParseIntDecimal | app.py:486 | `int()` reads the decimal form of n as n, and the same form after '-' as -n, whenever that form has at most 4300 digits |
| Text.DecimalLength | app.py:486 | a number below 10^k has at most k decimal digits, so every SQLite id is far inside the 4300-digit limit |
| Text.ParseIntDigitLimit | app.py:486 | a digit string longer than 4300 digits is refused with or without a '-' sign, whatever number it denotes |
| Recipe.ParseIngredients | app.py:554 | every parsed ingredient is non-empty, has no surrounding whitespace and contains no comma |
| Recipe.ParseIngredientsRoundTrip | app.py:554 | parsing the comma-join of clean, comma-free ingredients gives back that list |
| Recipe.Cleaned | app.py:519 | the kept items are at most as many as the input items, and each is clean |
| Recipe.CleanedAppend | app.py:519 | cleaning works item by item across a concatenation, so the original order is kept |
| Recipe.CleanedKeepsClean | app.py:519 | an already clean list is kept unchanged, so cleaning is idempotent |
| Recipe.OfflineRecipe | app.py:509-521 | there are always exactly three steps, and the ingredients are the stripped non-empty items in order |
| Recipe.OfflineTitle | app.py:510 | the title is "Quick Pantry Surprise" for no items, "Quick a Surprise" for one item, and "Quick a & b Surprise" for the first two items otherwise |
| Recipe.OfflineEchoesParsedIngredients | app.py:554-555 | for input from the form, the offline suggestion lists exactly the parsed ingredients |
| Recipe.Suggest | app.py:523-546 | without a parsed provider reply, the suggestion is the offline recipe |
| Uploads.LastIndexOf | app.py:281 | returns -1 or the position of the last occurrence of the character |
| Uploads.Extension | app.py:281 | `splitext`'s extension is empty or a suffix of the name that starts with '.' and holds no further dot or slash; its value is stated by `Uploads.ExtensionOfSuffixed` and `Uploads.ExtensionOfLeadingDots` |
| Uploads.ExtensionOfSuffixed | app.py:281 | a file name whose stem holds some character other than '.', followed by a dotted suffix, has that suffix as its extension, however many dots the stem holds ("photo.final.jpg" gives ".jpg") |
| Uploads.ExtensionOfLeadingDots | app.py:281 | a file name of only dots followed by a dotted suffix has no extension (".png" and "..png" give none) |
| Uploads.ImageExtension | app.py:281-282 | a name passes iff its lower-cased extension is one of .png, .jpg, .jpeg, .webp |
| Uploads.AvatarUpload | app.py:279-286 | no file name means no upload; a name fails iff its extension is not an image one |
| Uploads.RecipePhotoUpload | app.py:346-353 | no file name means no upload; a name fails iff its extension is not an image one |
| Uploads.AvatarNameInjective | app.py:285 | two users with image extensions never get the same avatar name |
| Uploads.AvatarNameExtension | app.py:285 | an avatar name passes the extension check with the extension it was built from |
| Uploads.AvatarNames | app.py:285 | two users never get the same avatar name, and the stored name passes the same extension check |
| Uploads.RecipePhotoNames | app.py:352 | two photo names are equal iff they come from the same user, in the same whole second, with the same extension |
| Registry.HashPassword | app.py:184 | `generate_password_hash`; its meaning is stated by `Registry.CheckHashedPassword` |
| Registry.CheckPassword | app.py:245 | `check_password_hash`; its meaning is stated by `Registry.CheckHashedPassword` |
| Registry.CheckHashedPassword | app.py:245 | a password checks against the hash of a password iff the two are equal |
| Registry.NormalizeEmail | app.py:175 | `strip().lower()` on the e-mail field; its meaning is stated by `Registry.NormalizeEmailIdempotent`, `Text.LowerStrip` and `Text.StripShape` |
| Registry.NormalizeEmailIdempotent | app.py:241 | a stored (normalised) address normalises to itself |
| Registry.UserByEmail | app.py:244 | finds the one row with that e-mail, or none exactly when no row has it |
| Registry.InsertOrIgnore | app.py:432-433 | adds the (group, user) row only when it is absent; an existing role and every other row are unchanged |
| Registry.InsertOrIgnoreIdempotent | app.py:414-415 | repeating a join changes nothing, whatever role it asks for |
| Registry.LowestWithCode | app.py:428-431 | returns the lowest group id holding that invite code, or none exactly when no group holds it |
| Registry.History | app.py:449-453 | every line is a message of that group whose author exists, shown with that author's name |
| Registry.HistoryComplete | app.py:449-453 | every message of the group by an existing author is in the history |
| Registry.HistoryAscending | app.py:449-453 | a log in id order gives a history in ascending id order |
| Registry.HistoryAfterAppend | app.py:492-494 | a new message extends its own group's history by exactly that message and leaves other groups' histories unchanged |
| Registry.RemoveInserted | app.py:196-203 | deleting the row just inserted under a fresh id restores the table |
| Registry.RegisterKeepsTables | app.py:181-203 | inserting a fresh unverified account keeps the invariants, and so does rolling it back while its id stays used |
| Registry.VerifyKeepsTables | app.py:231 | marking an account verified and clearing its code keeps the invariants |
| Registry.CreateKeepsTables | app.py:383-397 | a new group under the next id with its owner row keeps the invariants; the owner's INSERT OR IGNORE is a plain insert |
| Registry.JoinKeepsTables | app.py:414-415 | a member joining an existing group keeps the invariants |
| Registry.PostKeepsTables | app.py:492-494 | appending a message under the next id keeps the invariants |
| Registry.RoomGroupId | app.py:485-489 | `int(room.split("_")[1])`, with every exception read as no id; its meaning is stated by `Registry.RoomNameRoundTrip`, `Registry.RoomGroupIdSecondSegment`, `Registry.RoomGroupIdDigitLimit` and `Registry.RoomWithoutSeparator` |
| Registry.RoomName | app.py:484 | the room format `group_<id>`; its meaning is stated by `Registry.RoomNameRoundTrip` |
| Registry.RoomNameRoundTrip | app.py:486 | the room name "group_<id>" reads back as that id, for every id SQLite can store |
| Registry.RoomGroupIdSecondSegment | app.py:486 | only the second '_'-separated segment is read, and a negative number is accepted as a group id |
| Registry.RoomGroupIdDigitLimit | app.py:486 | a second segment of more than 4300 digits yields no group id, even when it is a small id padded with zeros |
| Registry.RoomGroupIdInfoSeparator | app.py:486 | a second segment that holds one of U+001C..U+001F yields no group id, so the message is dropped |
| Registry.RoomWithoutSeparator | app.py:486 | a room name without '_' yields no group id, so the message is dropped |
| Registry.UserIdOf | app.py:470-472 | a session's user id, where an absent id or 0 counts as no user |
| Registry.App.constructor | app.py:74-142 | the tables start empty, with every counter at 1, no sessions and no socket connections |
| Registry.App.SessionUserId | app.py:146 | the HTTP session's user id, where an absent id or 0 counts as no user |
| Registry.App.Connect | app.py:38 | a new socket connection takes a copy of its browser's session as it is at connect time; every other connection keeps its own copy |
| Registry.App.CurrentUser | app.py:145-150 | `g.user` is the session's user iff that user row exists |
| Registry.App.Register | app.py:171-207 | empty fields or a taken name or address: no change. Mail failure: users unchanged, id consumed. Otherwise: exactly one new unverified user holding the six-digit code and an expiry 600 s later, with `pending_email` set |
| Registry.App.Enrol | app.py:181-207 | for accepted fields, the id counter always advances by one; on mail failure the users table and sessions end as they started, and otherwise the account is stored under the old counter value and `pending_email` is set to its address |
| Registry.App.Verify | app.py:210-235 | no pending address, no such user, or a code that is not accepted: no change. Otherwise: exactly that user becomes verified with both OTP fields cleared, and `pending_email` is popped |
| Registry.App.Login | app.py:238-253 | `user_id` is set only for an existing, verified user whose password checks. An unverified one gets only `pending_email`. Otherwise the session is unchanged |
| Registry.App.ListGroups | app.py:364-377 | one row per group, newest first, with the viewer's membership and the owner's name or "Unknown" |
| Registry.App.CreateGroup | app.py:379-402 | a taken name changes nothing. Otherwise: exactly one new group whose invite code is absent iff it is public, plus exactly one owner row for its creator |
| Registry.App.AddGroup | app.py:388-396 | the group is stored under the next id, the counter advances by one, and exactly one owner row for its creator is added |
| Registry.App.AddMember | app.py:414-415 | the membership table becomes the INSERT OR IGNORE of a member row for that (group, user) |
| Registry.App.JoinGroup | app.py:404-418 | an id outside SQLite's 64-bit range is a server error; a missing or private group adds no row; a public one gets an INSERT OR IGNORE member row |
| Registry.App.JoinByCode | app.py:420-436 | an empty or unknown code adds no row; otherwise the lowest group with that code, always a private one, gets an INSERT OR IGNORE member row |
| Registry.App.EnterGroup | app.py:438-454 | an id outside SQLite's 64-bit range is a server error; a missing group or a non-member gets a redirect; a member gets the group with its full history |
| Registry.App.OnMessage | app.py:461-506 | empty text, no user in the session copy of the connection the message arrives on, an unknown user, an unreadable room id, or one outside SQLite's 64-bit range: dropped, no change. Otherwise exactly one message with that group id, user and stripped text is appended and broadcast, with no membership or group check |

## Left out

- **Mail delivery.** Sending the code by SMTP (app.py:41-56) is the boolean `mailDelivered` passed to `Registry.App.Register`.
- **Password hashing.** werkzeug's `generate_password_hash`/`check_password_hash` is the datatype `Registry.PasswordHash`. It keeps only its defining property, `Registry.CheckHashedPassword`; the salt is a parameter.
- **Random draws.** `secrets.randbelow` and `secrets.token_urlsafe` are the parameters `draw` and `token`. The token's form, and any collision between tokens, are not modelled: codes are not UNIQUE in the schema, and a lookup resolves to the lowest id.
- **Time.** Wall-clock time and float timestamps are an integer `now`. The stored expiry is an integer or `Unparseable`. `created_at` columns, and the display time of a chat message, are not modelled.
- **Database plumbing.** SQLite connections, `get_db`/`close_db`/`init_db` beyond the initial empty state, and transactions are not modelled. Constraints appear only as the UNIQUE rejections and table invariants above. Foreign keys are never enabled in the source, so the model does not enforce them either.
- **Flask machinery.** Routing, templates, `flash`, `g` and GET requests that only render a form are not modelled. The `index`, `logout` and `profile` routes, the uploaded-file routes, blogs, the recipe table itself and the rest of `edit_profile` (the bio update) are not part of this model. Only their extension check and stored names are.
- **Socket transport.** The SocketIO `join` handler and the room fan-out are not modelled; `Registry.App.OnMessage` returns the broadcast event as a value.
- **External recipe service.** The OpenAI call, its regex and its JSON parsing (app.py:523-546) are the optional `reply` passed to `Recipe.Suggest`.
- **File handling.** Saving files and `secure_filename` are not modelled; the sanitised name is an input string.
- **Character handling.** `str.lower` is modelled for ASCII letters only. `int()` accepts ASCII digits, an optional sign and surrounding whitespace, but not Unicode digits or the underscores Python allows between digits (a room segment can hold no underscore anyway). Its whitespace is `strip`'s without the four information separators U+001C..U+001F, which make it raise. `str.strip` uses Python's fixed list of whitespace characters.
- **Concurrency.** The server runs requests and socket events on threads. The model runs each handler as one atomic step, so no other request can see a handler's state partway through.
- Registry.App.Enrol: the INSERT and the UPDATE that stores the code act as one step. The moment between the two commits is not modelled. During it, another request could see an unverified row without a code, which breaks the invariant "verified exactly when no code and no expiry are stored". If the UPDATE raised, such a row would stay. The row is also found by id rather than by re-reading it by e-mail, which gives the same row since e-mail is UNIQUE.
- **Id counters.** The AUTOINCREMENT counters are unbounded. SQLite fails an insert once an id would pass 2^63 - 1, and that failure is not modelled. Ids in requests and chat rooms are checked against the 64-bit range.
- **Normalised e-mail invariant.** The table invariant does not record that stored addresses are already lower-cased and stripped. `Registry.NormalizeEmailIdempotent` states the fact for one address.
- **Offline title capitalisation.** The offline title uses the ingredients exactly as given, with no capitalisation: ["egg", "rice"] gives "Quick egg & rice Surprise" (`Recipe.OfflineTitle`).
- **The second step's text.** The second offline step keeps the two characters U+221A U+00A9 that stand in the source where "Sauté" has its accent.
