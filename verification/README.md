# Credential and channel stores of a small messaging backend, in Dafny

This project models the two SQLite-backed stores of a real-time messaging
backend and proves properties of them.

- The **credential store** (`src/utils/dbauth.js`) keeps the `users` table
  (UNIQUE username, UNIQUE email, password stored as a hash) and the
  `user_keys` table (UNIQUE key value, `is_active` defaulting to 1, nullable
  expiry in milliseconds). It adds users and keys, lists a user's active
  keys, verifies a key, deactivates a key, looks up a user id by name, and
  logs a user in with a reuse-or-mint key policy.
- The **channel store** (`src/utils/dbmsg.js`) keeps the `channels` table.
  Each row has a JSON member list and a JSON message log. It creates
  channels, answers membership questions, appends messages by
  read-modify-write, and lists the channels of a user.

Each table is a sequence of rows in rowid order. Each AUTOINCREMENT counter
is a field. The read-only queries are functions of the table contents, as
the JavaScript functions take the database handle. The INSERT and UPDATE
operations are methods of the classes `Credentials.CredentialStore` and
`Channels.ChannelStore`. Each method is called atomically. Its `ensures`
give the whole new state, together with the query answers the operation
is about (for example, what a key verifies as after an insert). Each
class invariant `Valid()` is the set of table constraints from the
`CREATE TABLE` statements.

The parameters stand for what the code takes from outside:

- `now` stands for the clock: `Date.now()`, `new Date()` and
  `strftime('%s', 'now')`.
- `freshKey` stands for `genRanHex(16)`.
- `timestamp` stands for `new Date().toISOString()`.
- The password hash is a function the credential store is built with.

A stored JSON column is either the list it parses to or text that does not
parse. A member list is written back as text by `JsonText.EncodeIds`.

The model follows the code where it behaves in these less obvious ways:

- `addUserKey` accepts a user id that has no row. SQLite does not enforce
  the FOREIGN KEY unless told to. Such a key can start to verify once
  `addUser` hands out that id.
- `deactivateUserKey` has no `is_active` filter. A second deactivation of
  the same key still reports one changed row.
- `createChannel` does not check that the member list is non-empty. It also
  does not check that the list contains the creator.
- `addMessageToChannel` on an absent channel changes nothing and still
  reports success with the message id.
- `isUserInChannel` passes its parameter array twice (line 94). The binding
  layer uses only the first array, so this is a plain lookup by id.

## Model

| member | source | states |
|---|---|---|
| `Credentials.CredentialStore.constructor` | src/utils/dbauth.js:16-44 | a new database holds empty `users` and `user_keys` tables, which satisfy every table constraint |
| `Credentials.CredentialStore.Open` | src/utils/dbauth.js:8-46 | an existing database file keeps its rows; any tables that satisfy the constraints can be opened |
| `Credentials.CredentialStore.AddUser` | src/utils/dbauth.js:57-67 | status is 200 iff neither the username nor the email is already stored; on 200 exactly one row with the next id and the hash of the password is appended, and the name then looks up to that id; every key that verified before still verifies with the same owner; on 500 nothing changes; the constraints are kept |
| `Credentials.CredentialStore.AddUserKey` | src/utils/dbauth.js:122-132 | succeeds iff the key value is new; on success one active row with the given expiry and a fresh id (above every stored id) is appended, and in the store right after the insert the key verifies, at any time, exactly when its owner exists and it has not expired (a later deactivation ends this); every other key value verifies as before; on failure nothing changes |
| `Credentials.CredentialStore.DeactivateUserKey` | src/utils/dbauth.js:162-171 | only the row with that key value becomes inactive, active or not before, and every other row and field is unchanged; the reported change count is at most 1 and is 1 iff the value was stored; afterwards the key verifies at no time |
| `Credentials.CredentialStore.VerifyUsernameAndPassword` | src/utils/dbauth.js:69-105 | no matching (username, password hash) row gives null and no change; otherwise the first active key of the caller-supplied user id is returned with no change, or, if there is none, a key expiring 30 days after `now` is inserted for that id and returned (failure and no change when the value is taken); a returned key is what the next identical call returns; every key value other than `freshKey` verifies as before |
| `Credentials.CredentialStore.Login` | src/utils/dbauth.js:69-105 | corrected login: null iff the credentials match no row; a matched user who holds a usable key gets the first of them and nothing changes; otherwise a key for that user is inserted, failing only when `freshKey` is already stored; a returned key verifies at `now` as belonging to the user who logged in, and is the first usable key of that user; every other key value verifies as before |
| `Credentials.CredentialStore.IssueKeyFor` | src/utils/dbauth.js:84-101 | for the matched row: the first usable key of that user, with no change, or else the insert of `freshKey` for that user expiring 30 days after `now` (failure and no change if the value is taken); a returned key verifies as that user's and is the first of their usable keys |
| `Credentials.LoginTwice` | src/utils/dbauth.js:69-105 | two successive corrected logins at the same instant return the same key |
| `Credentials.CrossUserLoginWitness` | src/utils/dbauth.js:84-101 | with alice (id 1) and bob (id 2) holding key "kb", the as-written login with alice's password and id 2 returns "kb", which verifies as bob's |
| `Credentials.ExpiredKeyLoginWitness` | src/utils/dbauth.js:84-101 | the as-written login returns a user's only active key although it expired before `now`, and that key does not verify |
| `Credentials.UsersTable` | src/utils/dbauth.js:16-22 | the `users` constraints: AUTOINCREMENT ids, ascending in rowid order and never above the last id handed out; UNIQUE username; UNIQUE email |
| `Credentials.KeysTable` | src/utils/dbauth.js:30-38 | the `user_keys` constraints: AUTOINCREMENT ids and UNIQUE key value; no FOREIGN KEY check |
| `Credentials.UsersTableInsert` | src/utils/dbauth.js:16-22 | an INSERT whose username and email are new and whose id is the next AUTOINCREMENT value keeps the `users` constraints |
| `Credentials.KeysTableInsert` | src/utils/dbauth.js:30-38 | an INSERT whose key value is new and whose id is the next AUTOINCREMENT value keeps the `user_keys` constraints |
| `Credentials.Unexpired` | src/utils/dbauth.js:151 | `expires_at` is NULL or later than the whole-second clock in milliseconds |
| `Credentials.Usable` | src/utils/dbauth.js:150-151 | the WHERE clause of `verifyUserKey`: that key value, active, unexpired |
| `Credentials.SqlNowMs` | src/utils/dbauth.js:151 | the time the key query compares against is `now` truncated to whole seconds: never later than `now`, less than a second earlier |
| `Credentials.GetUsers` | src/utils/dbauth.js:112-120 | every row of `users`, in rowid order, nothing changed |
| `Credentials.GetUserKeys` | src/utils/dbauth.js:134-143 | exactly the rows of that user id that are active, whatever their expiry, and no more rows than the table has |
| `Credentials.GetUserKeysFirst` | src/utils/dbauth.js:99-101 | `keyRows[0]` is the earliest row in rowid order that is an active key of the user |
| `Credentials.GetUserKeysAppend` | src/utils/dbauth.js:90-98 | an inserted active key of the user comes last in that user's active keys, and a row of another kind leaves them as they were |
| `Credentials.VerifyUserKey` | src/utils/dbauth.js:145-160 | a returned row is a stored key with that value that is active and unexpired (NULL expiry, or later than the truncated clock), joined with the username of a user whose id is the key's owner |
| `Credentials.VerifyUserKeyFinds` | src/utils/dbauth.js:145-160 | conversely, in tables that keep their constraints, an active unexpired key whose owner exists verifies, returning that very row and the owner's username |
| `Credentials.KeyInsertLeavesOthers` | src/utils/dbauth.js:122-132 | inserting a key row leaves the verification of every other key value unchanged |
| `Credentials.UserInsertKeepsVerified` | src/utils/dbauth.js:57-67 | inserting a user row keeps every key that verifies verifying, with the same row and owner name |
| `Credentials.ActiveKeyVerifiesIff` | src/utils/dbauth.js:145-160 | in tables that keep their constraints, a stored active key verifies iff a user with its owner id exists and it has not expired |
| `Credentials.GetUserIdByUsername` | src/utils/dbauth.js:173-185 | null iff no row has that username; otherwise the id of a row with that username |
| `Credentials.GetUserIdByUsernameExact` | src/utils/dbauth.js:173-185 | with usernames UNIQUE, the lookup of a stored row's username returns that row's id |
| `Credentials.Deactivated` | src/utils/dbauth.js:163 | the UPDATE keeps the number of rows |
| `Credentials.MatchCount` | src/utils/dbauth.js:163-168 | `this.changes`: the number of rows the UPDATE matches, never more than the table has |
| `Credentials.MatchCountZero` | src/utils/dbauth.js:162-171 | the UPDATE matches no row iff no row holds the key value |
| `Credentials.MatchCountAtMostOne` | src/utils/dbauth.js:162-171 | with key values UNIQUE the UPDATE matches at most one row, and one iff the value is stored |
| `Credentials.DeactivateRevokes` | src/utils/dbauth.js:162-171 | after deactivation the key does not verify at any time |
| `Credentials.DeactivateLeavesOthers` | src/utils/dbauth.js:162-171 | deactivating one key value leaves the verification of every other key value unchanged |
| `Credentials.UsableKeys` | src/utils/dbauth.js:84-101 | the keys the corrected login may reuse: exactly the user's active keys that have not expired |
| `Credentials.UsableKeysAppend` | src/utils/dbauth.js:84-101 | a newly inserted usable key comes last among the user's usable keys |
| `Channels.ChannelStore.constructor` | src/utils/dbmsg.js:11-15 | a new database holds an empty `channels` table |
| `Channels.ChannelStore.Open` | src/utils/dbmsg.js:3-24 | an existing database file keeps its rows, including rows whose JSON does not parse |
| `Channels.ChannelStore.CreateChannel` | src/utils/dbmsg.js:80-91 | one row with the next id, the given member list and an empty log is appended and its id returned; its id is above every stored id; for it membership is true iff the user is in the list, and it is among the user's channels iff the user is in the list; the answers for every other channel id are unchanged |
| `Channels.ChannelStore.AddMessageToChannel` | src/utils/dbmsg.js:26-58 | returns `now` as the id; the row with that id gets its earlier log (or nothing, if the log does not parse) followed by the one new message; ids and member lists of all rows and every other row are unchanged; an absent id changes nothing; every membership answer is unchanged |
| `Channels.ChannelsTable` | src/utils/dbmsg.js:11-15 | the `channels` constraints: AUTOINCREMENT ids, ascending and never above the last id handed out |
| `Channels.IsUserInChannel` | src/utils/dbmsg.js:93-112 | 'Channel not found' (and false) iff no row has the id; an invalid-data reason (and false) only for a row whose member list does not parse; true only with no reason, for a row with that id whose list includes the user |
| `Channels.IsUserInChannelRow` | src/utils/dbmsg.js:93-112 | with ids distinct, the answer for a row's id is whether its parsed list includes the user, with no reason, or false with the invalid-data reason if the list does not parse |
| `Channels.CreatedChannelMembership` | src/utils/dbmsg.js:80-91 | round trip: for the row a create appends, membership is true iff the user was in the list it was created with, and no reason is given |
| `Channels.MembershipUnchanged` | src/utils/dbmsg.js:93-112 | the answer depends only on ids and member lists, so rows appended under other ids and changes to logs do not alter it |
| `Channels.LikeChannels` | src/utils/dbmsg.js:61 | exactly the rows whose stored member text contains the pattern |
| `Channels.MemberChannels` | src/utils/dbmsg.js:66-74 | exactly the rows whose member list parses and includes the user, no more rows than the table has |
| `Channels.PrefilterKeepsMembers` | src/utils/dbmsg.js:60-78 | the LIKE pre-filter followed by the exact filter gives the same rows, in the same order, as the exact filter alone |
| `Channels.GetUserChannels` | src/utils/dbmsg.js:60-78 | exactly the rows, in rowid order, whose member list parses and includes the user; rows whose list does not parse are excluded |
| `Channels.PriorMessages` | src/utils/dbmsg.js:32-39 | the log the append starts from: the parsed messages, or none when the stored text does not parse |
| `Channels.Appended` | src/utils/dbmsg.js:32-50 | the new log ends with the new message; a parsed log is kept as the prefix before it, and a log that does not parse is replaced by the single new message |
| `JsonText.Contains` | src/utils/dbmsg.js:61 | `LIKE '%p%'` for a pattern without wildcard characters: the pattern occurs somewhere in the text |
| `JsonText.EncodeIds` | src/utils/dbmsg.js:81 | `JSON.stringify` of an id list is bracketed text |
| `JsonText.EncodedIdsContainMember` | src/utils/dbmsg.js:60-62 | the decimal text of every member occurs in the JSON text of the member list, so `LIKE '%id%'` keeps every row that lists the id |

## Left out

- Opening the database files, logging, and SQLite faults other than UNIQUE
  violations (I/O errors, a busy database) are left out. These paths return
  `err` to the callback.
- The `created_at` columns are left out. They are filled by
  `CURRENT_TIMESTAMP`. The rows that `getUsers`, `getUserKeys` and
  `verifyUserKey` return lack `created_at`. No condition depends on it.
- Callbacks and asynchrony are left out; each call is atomic. The lost
  update when two `addMessageToChannel` calls interleave their read and
  write is not modelled.
- SHA-256 in `hashPassword` is left out. The store takes any function
  `string -> string` as the hash. `genRanHex` is the `freshKey` parameter.
- Expiry: `setDate(getDate() + 30)` adds 30 calendar days in local time. The
  model adds 30 × 86 400 000 ms, so it ignores daylight-saving shifts.
- Message ids come from `Date.now()`, so two messages in the same
  millisecond share an id. The model claims nothing about id uniqueness.
- JSON values of other shapes are not modelled:
  - member lists with non-integer entries;
  - logs that parse to something other than an array (the `push` would
    throw);
  - numbers that `JSON.stringify` writes in exponent form.
- User ids are integers written in canonical decimal. A user id passed as a
  non-numeric or zero-padded string is left out. `parseInt` and the
  template text then differ.
- Row order: no query has an ORDER BY, and SQL does not promise any order
  without one. The model takes rowid order. Two results rest on that order:
  the key that `verifyUsernameAndPassword` reuses (`keyRows[0]`) and the
  order of the channels `getUserChannels` returns.
- `LIKE` is case-insensitive and treats `%` and `_` as wildcards. The
  pattern here is decimal digits with an optional `-`, so neither matters.
- `src/index.js` (HTTP routing and status texts), `src/utils/db.js` and
  `verifyPassword` in `src/utils/pwd.js` are not part of this model.
- The real-time dispatcher and the session registry are not part of this
  model. No code for them exists in these files.
- Credentials.VerifyUserKey: its own contract states only that a returned row is right. That such a row is returned whenever one qualifies is proved in `VerifyUserKeyFinds`, for tables that keep the UNIQUE constraints.
- Channels.IsUserInChannel: its own contract gives only the "true only if listed" direction, because a table with repeated ids answers for the first row. The exact answer is proved in `IsUserInChannelRow`, for tables with distinct ids.

## Findings

| source | as written | input that shows it | evidently intended | confidence | as-written member | corrected member |
|---|---|---|---|---|---|---|
| src/utils/dbauth.js:84 | the keys are looked up for the caller-supplied `userId`, not for the user whose password matched | alice (id 1) and bob (id 2); bob holds active key "kb"; login as alice with alice's password and `userId` 2 returns "kb", which verifies as bob's | issue or reuse a key of the row that matched | medium, not executed | `Credentials.CrossUserLoginWitness` (of `Credentials.CredentialStore.VerifyUsernameAndPassword`) | `Credentials.CredentialStore.Login` |
| src/utils/dbauth.js:101 | the first active key is reused without an expiry check | alice's only key "ka" is active and expires at 1000 ms; login at 5000 ms returns "ka", and `verifyUserKey("ka")` finds nothing | reuse only a key that still verifies, else mint one | medium, not executed | `Credentials.ExpiredKeyLoginWitness` (of `Credentials.CredentialStore.VerifyUsernameAndPassword`) | `Credentials.CredentialStore.Login` |
