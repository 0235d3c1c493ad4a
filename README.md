# Tele_sub_bot: the access-list store and its handlers, in Dafny

The bot keeps the access list of a private channel in a small SQLite file,
`subscriptions.db`. The `users` table holds, per Telegram user id, an email, a
plaintext password, an `approved` flag and an unused `subscribed` flag. The
`admin` table holds the admin passwords and is seeded with the empty string. A
user registers with `email password` and is then pending. After paying outside
the bot, the user asks for approval. The administrator lists the pending users
as inline buttons `approve_<user_id>`, and pressing one is meant to approve that user.
Users log in with the same two words and are told whether they are approved,
pending or unknown. The administrator can also turn `Question | Opt1, Opt2`
into a poll and echo text as a post.

The model has five modules:

- `Optional`: the `Option` datatype.
- `PyText`: the Python string operations the handlers rely on, with Python's
  semantics. These are `str.isspace`, `split()` and `strip()` without
  arguments, `split(sep)`, `startswith` and the substring test `in`.
- `Decimal`: `str(n)` for user ids, and the integer that SQLite reads from a
  text id when it compares the text with the INTEGER `user_id` column.
- `Store`: the database. The pure functions give the meaning of each SQL
  statement on table values (`Setup`, `Approve`, `IsApproved`,
  `PendingUsers`, `LoginMatch`, `AddUserRun`). The class `SubscriptionDb`
  holds the fields `hasTables`, `users` (a map from user id to row) and
  `admin` (a sequence of passwords). Its methods `DbSetup`, `ApproveUser` and
  `AddUser` change those fields in place, and each method's postcondition ties
  the new state to the matching function.
- `Handlers`: every reply is a value of `Reply`. The module holds the credential
  parser, the admin-password check, registration (a method that calls
  `AddUser`), the permission decision, the login outcome, the poll and post
  parsers, the approval buttons (a loop, as in the source) and the `approve_<id>`
  callback.

The store's queries `is_approved`, `check_admin_password`, `get_pending_users`
and the login lookup change nothing. They are modelled as functions of the
table values, and the handlers apply them to `db.users` and `db.admin`.

Rows are read back in ascending `user_id`. `user_id` is an INTEGER PRIMARY
KEY, so it is the table's rowid, and SQLite scans a rowid table without ORDER
BY in rowid order. This fixes the order of `get_pending_users`, and it fixes
which row `fetchone()` returns when several rows share an email and password.

`add_user` makes up to five attempts. What each attempt runs into is an input:
`Free`, or `Failed(message)` for an `sqlite3.OperationalError`. When the
database is free, the duplicate-key case follows from the table itself.

Two places where the code does something other than one might expect:

- After five locked attempts, the loop in `add_user` ends and the function
  returns normally. One might expect an error instead. The model follows the
  code: `process_registration` replies that registration succeeded, but no row
  was written (`Handlers.RegisteredWhileLocked`).
- At BOT.py:220-223 the callback handler is itself named `approve_user`. This
  rebinds the module-level name, so the call at line 223 reaches the handler,
  not the database function at line 52, and fails with a TypeError. The model
  gives the intended behaviour: the database update of line 52 for the id taken
  from the payload.

## Model

| member | source | states |
|---|---|---|
| `Store.Setup` | BOT.py:20-40 | both tables exist afterwards. User rows are untouched. A non-empty admin table is kept as it is, and an empty one gets the single row `""` |
| `Store.SetupIdempotent` | BOT.py:20-40 | running the set-up a second time changes nothing |
| `Store.FreshSetup` | BOT.py:37-50 | after set-up on a fresh file there is exactly one admin row and no user. `check_admin_password` accepts `""` and rejects every other password |
| `Store.SubscriptionDb.constructor` | BOT.py:21 | opening the file yields the state an earlier run left, or a fresh file with no tables |
| `Store.SubscriptionDb.DbSetup` | BOT.py:20-40 | the new state is `Setup` of the old state, and the database stays well formed |
| `Store.AdminPasswordMatches` | BOT.py:45-50 | an empty admin table accepts no password, and the seeded table `[""]` accepts exactly the empty text |
| `Store.IsApproved` | BOT.py:58-63 | true only for an id that has a row, so an unknown id is not approved |
| `Store.PendingUsers` | BOT.py:80-85 | exactly the (user_id, email) of the rows with approved = 0, each once, in strictly ascending user_id |
| `Store.NoPendingIffAllApproved` | BOT.py:80-85 | the pending list is empty iff every row is approved |
| `Store.PendingOfSingleRow` | BOT.py:80-85 | a one-row table lists its row as pending iff the row is not approved |
| `Store.LoginMatch` | BOT.py:170-173 | None iff no row matches both email and password. Otherwise the approved flag of the matching row with the smallest user_id |
| `Store.Approve` | BOT.py:52-56 | the same ids afterwards. The target row, if present, gets approved = 1 and every other row is unchanged, so an unknown id creates nothing |
| `Store.ApproveIdempotent` | BOT.py:52-56 | approving twice equals approving once |
| `Store.ApproveMonotone` | BOT.py:52-56 | an approved user stays approved. After the update the id is approved iff it has a row |
| `Store.ApproveRemovesFromPending` | BOT.py:52-85 | after approving an id, the pending list is the old list without that id, in the same order |
| `Store.SubscriptionDb.ApproveUser` | BOT.py:52-56 | the users table becomes `Approve` of the old one. The admin table is unchanged |
| `Store.AddFrom` | BOT.py:65-78 | the loop makes at most 5 attempts. The table is either unchanged, or it gains the new unapproved row for an id that was absent |
| `Store.FirstUnlocked` | BOT.py:74-76 | the index of the first attempt that is not "database is locked", or 5 when every attempt is locked |
| `Store.AddFromDecided` | BOT.py:66-78 | locked attempts are retried. The first other attempt ends the call at once: a free database inserts the row, or raises IntegrityError for a taken id; any other OperationalError is re-raised. Five locked attempts return normally with nothing inserted |
| `Store.AddedUserIsPending` | BOT.py:65-85 | after an insertion the row (id, email, password, approved = 0) exists, `is_approved` is false and (id, email) is among the pending users |
| `Store.AddUserRun` | BOT.py:65-78 | `add_user` makes between one and five attempts. The table either stays as it was or gains the new unapproved row for an id that was absent, and it changes only when the call returns normally |
| `Store.SubscriptionDb.AddUser` | BOT.py:65-78 | the retry loop's outcome, new table and attempt count are those of `AddUserRun` on the old table. The admin table is unchanged |
| `PyText.Words` | BOT.py:144 | `split()` yields only non-empty words that contain no whitespace |
| `PyText.WordsOfJoinSpaced` | BOT.py:144 | splitting words joined by single spaces gives back the same words |
| `PyText.WordsOfSpace` | BOT.py:144 | `split()` of whitespace alone gives no words |
| `PyText.WordsOfPadded` | BOT.py:144 | after any run of whitespace (tabs, repeated spaces, none), the next word is the maximal run of non-whitespace characters. With `WordsOfSpace` this fixes `split()` on every string |
| `PyText.Strip` | BOT.py:104 | the result neither begins nor ends with whitespace. It is a slice of the input whose removed prefix and suffix are all whitespace |
| `PyText.StripPadded` | BOT.py:104 | `strip()` removes exactly the whitespace around a stripped string |
| `PyText.SplitOn` | BOT.py:102-103 | `split(sep)` gives one piece more than the number of separators, and no piece contains the separator |
| `PyText.JoinOnSplitOn` | BOT.py:102-103 | joining the pieces of a split restores the text |
| `PyText.SplitOnJoinOn` | BOT.py:102-103 | splitting joined pieces that contain no separator gives back the pieces |
| `Decimal.IntToString` | BOT.py:213 | `str(user_id)` is non-empty and made of digits and `-` only, so it holds no `_` |
| `Decimal.ParseInt` | BOT.py:223 | SQLite's reading of text compared with the INTEGER `user_id`: only text made of digits with an optional leading `-` reads as an integer. All-digit text always does and is non-negative, and a leading `-` gives a value of at most zero |
| `Decimal.ParseIntToString` | BOT.py:213-223 | reading back `str(n)` yields n for every integer n |
| `Handlers.IsCommand` | BOT.py:141 | the "/" guard (also at lines 92, 100, 127 and 166): a text is a command iff it is non-empty and its first character is `/` |
| `Handlers.ValidateAdmin` | BOT.py:125-133 | commands are skipped. Access is granted iff the whole text is a stored admin password, and rejected otherwise |
| `Handlers.ParseCredentials` | BOT.py:144 | parses iff the text splits on whitespace into exactly two words, and then yields those two words |
| `Handlers.CredentialsRoundTrip` | BOT.py:144 | `email password`, with two words that contain no whitespace, parses back to (email, password) |
| `Handlers.OneWordIsFormatError` | BOT.py:144-149 | a text without whitespace, such as `not-two-tokens`, is a format error |
| `Handlers.Registration` | BOT.py:139-149 | `process_registration` on the users table: the reply is Skipped, a format error, Registered or a crash, and the table changes only along with the reply Registered |
| `Handlers.RegistrationEffect` | BOT.py:139-149 | skipped iff the text is a command. Format error iff it is not two words, and then nothing is inserted. The table changes only by the sender's new unapproved row, which is then pending, and only with the reply Registered |
| `Handlers.RegisteredWhileLocked` | BOT.py:66-147 | five locked attempts still produce the reply Registered, with the table unchanged |
| `Handlers.DuplicateRegistrationCrashes` | BOT.py:66-149 | a sender who already has a row gets IntegrityError at the first unlocked attempt. The table is unchanged and no reply is sent |
| `Handlers.NewSenderRegistered` | BOT.py:139-147 | a sender without a row, whose first unlocked attempt finds the database free, gets their two words stored as a new unapproved row and the reply Registered, whatever other rows exist |
| `Handlers.FailedRegistrationCrashes` | BOT.py:74-78 | an OperationalError other than the lock at the first unlocked attempt propagates: the handler crashes with that error and the table is unchanged |
| `Handlers.ProcessRegistration` | BOT.py:139-149 | the reply and the new users table are those of `Registration` on the old table |
| `Handlers.RegistrationOnFresh` | BOT.py:139-147 | on a fresh database, when the first attempt finds the database free, registration replies Registered and stores the one unapproved row |
| `Handlers.RequestPermission` | BOT.py:151-158 | the administrator is notified iff the sender is not approved. Otherwise the reply is "already approved" |
| `Handlers.ProcessLogin` | BOT.py:164-183 | skipped iff the text is a command. Format error iff it is not two words. Invalid iff no row holds both words as email and password. Otherwise Pending or Approved. For two words, the reply follows the matching row with the smallest user_id: Approved iff that row is approved, Pending iff that row exists and is not approved |
| `Handlers.LoginOutcome` | BOT.py:169-181 | Approved comes from an approved matching row and Pending from an unapproved one. With a unique matching row the reply follows that row's flag |
| `Handlers.LoginOfOneRow` | BOT.py:164-181 | when one row holds the credentials, the lookup finds that row's flag and login reports Approved or Pending accordingly |
| `Handlers.SingleSubscriber` | BOT.py:151-183 | for a one-row table: login, the permission request and the pending list all follow the row's approved flag |
| `Handlers.StripAll` | BOT.py:104 | each option is stripped, with the number of options and their order kept |
| `Handlers.ParsePoll` | BOT.py:101-104 | valid iff the text holds exactly one bar character. The question is stripped and there is at least one option |
| `Handlers.PollRoundTrip` | BOT.py:102-104 | the question, a bar and the options joined by commas parse to the stripped question and the stripped options, in order |
| `Handlers.ProcessPoll` | BOT.py:98-106 | skipped iff the text is a command. Format error iff the text does not hold exactly one bar character. Otherwise the poll created is the one `ParsePoll` reads from the text |
| `Handlers.ProcessPost` | BOT.py:90-93 | skipped iff the text is a command. Otherwise the text itself is posted |
| `Handlers.CallbackIdText` | BOT.py:220-222 | the second `_`-separated piece of a payload that contains `approve_`. The piece exists, holds no `_` and occurs in the payload |
| `Handlers.ApprovePayload` | BOT.py:213 | the payload `approve_<id>` starts with `approve_` and holds no other `_`, so `split("_")[1]` is the whole id |
| `Handlers.ApproveButton` | BOT.py:213 | the button for a pending user is labelled `Approve <email>`, and its payload passes the `approve_` callback filter |
| `Handlers.ApprovePayloadRoundTrip` | BOT.py:213-222 | the payload `approve_<id>` of a button passes the callback filter and yields that id |
| `Handlers.ApproveByText` | BOT.py:222-223 | the UPDATE with a text id keeps the set of rows. Text that is not an integer changes nothing |
| `Handlers.ApproveButtonApproves` | BOT.py:211-223 | pressing a pending user's button approves exactly that user, who then leaves the pending list |
| `Handlers.ApproveUsers` | BOT.py:204-218 | "no pending users" iff the list is empty. Otherwise there is one button per pending user, in list order. Each is exactly `ApproveButton` of that user: labelled `Approve <email>`, with payload `approve_<id>` that the callback maps to that id |
| `Handlers.ApproveCallback` | BOT.py:220-225 | the intended callback: the table becomes `ApproveByText` of the payload's id text, and the reply acknowledges that text |
| `Handlers.SubscriberLifecycle` | BOT.py:139-225 | on a fresh database, a registered subscriber is pending: the request reaches the administrator, login is pending and the list holds only them. After their button is pressed, login succeeds, a new request is "already approved" and nobody is pending |

## Left out

- The Telegram transport (pyrogram `Client`, decorators, filters, `reply_text`, `send_message`, `send_poll`, `edit_text`, `delete`, `answer`, inline keyboard objects, async/await) is foreign I/O. Handler results are `Reply` values, and reply texts, emoji, the admin chat id 6441392640 and the payment number are not modelled.
- Handlers whose only behaviour is a constant reply are not modelled: `/start`, `/admin_login`, `/register`, `/user_login`, `/admin_panel` (its fixed button list, including `manage_channels`, which has no handler) and `admin_logout`.
- Which handler receives a message is not modelled. The free-text handlers share one filter, and `post_maker` and `poll_maker` register further handlers at run time, so the choice rests on pyrogram's group semantics. Each handler is a separate function. The overlap of the `approve_` filter with the `approve_users` payload is part of this dispatch too.
- The name clash at BOT.py:221 is not reproduced. Python name rebinding is not modelled, and `Handlers.ApproveCallback` performs the intended update.
- `time.sleep(1)` between attempts is left out. What each attempt meets is an input sequence, and `AddUser` requires at least five entries.
- `load_dotenv`, the API credentials and the SQLite connection, commit and transaction mechanics are not modelled. Neither are other processes that write the file between calls.
- The `subscribed` column is kept in `UserRow` and is always 0, since no code reads or writes it.
- `approved` is a boolean. The code only ever stores 0 or 1, so `== 1` and `= 0` become true and false.
- User ids are unbounded integers. SQLite's 64-bit limit is not modelled, because Telegram ids fit in it.
- Decimal.ParseInt: only an optional `-` followed by digits is read as an integer. SQLite also converts a leading `+`, surrounding spaces, decimal-point forms whose value is whole (`'12.0'` compares equal to 12) and exponent forms; no button payload produces them.
- Errors that Telegram raises from `send_poll` (fewer than two options, an empty question) are not modelled. Only the ValueError of the `|` split is.
- The store's other statements are treated as infallible: `db_setup` (run at import, BOT.py:42), `check_admin_password`, `is_approved`, `get_pending_users`, `approve_user`'s UPDATE and the login SELECT (BOT.py:170-173). In the source each can raise `sqlite3.OperationalError`, including "database is locked" once the connection timeout expires, and none of them retries, so the handler stops without a reply. In the model `DbSetup`, `ApproveUser`, `ApproveCallback`, `ValidateAdmin`, `RequestPermission`, `ApproveUsers` and `ProcessLogin` always succeed. Only `add_user` meets per-attempt conditions.
