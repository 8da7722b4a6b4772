/**
 * The credential store of `src/utils/dbauth.js`: the `users` and `user_keys`
 * SQLite tables held in memory, the read-only queries as functions of the
 * table contents, and the INSERT/UPDATE operations as methods of a class
 * whose fields are the tables.
 *
 * The clock (`Date.now()`, `strftime('%s', 'now')`), the random key
 * (`genRanHex(16)`) and the password hash (SHA-256) are not computed here:
 * the time and the key are parameters of the operations that use them, and
 * the hash is a function the store is built with.
 */
module Credentials {
  import opened Tables

  /** A row of `users`; `password` holds the hash of the password. */
  datatype User = User(id: nat, username: string, password: string, email: string)

  /** A row of `user_keys`; `expiresAt` is in milliseconds, `None` is SQL NULL. */
  datatype UserKey = UserKey(id: nat, userId: int, keyValue: string, isActive: bool, expiresAt: Option<int>)

  /** A row of `SELECT uk.*, u.username FROM user_keys uk JOIN users u ...`. */
  datatype KeyOwner = KeyOwner(key: UserKey, username: string)

  /** What the login callback receives: no row matched, a key, or the INSERT failed. */
  datatype LoginOutcome = NoMatch | KeyIssued(keyValue: string) | InsertFailed

  /** The 30 days `expiresAt.setDate(expiresAt.getDate() + 30)` adds, in milliseconds. */
  const KeyLifetimeMs: int := 30 * 24 * 60 * 60 * 1000

  /** `strftime('%s', 'now') * 1000`: the current time truncated to whole seconds. */
  function SqlNowMs(now: nat): (t: nat)
    ensures t <= now < t + 1000
  {
    now / 1000 * 1000
  }

  /** `expires_at IS NULL OR expires_at > strftime('%s', 'now') * 1000` */
  predicate Unexpired(k: UserKey, now: nat)
  {
    k.expiresAt.None? || k.expiresAt.value > SqlNowMs(now)
  }

  /** The WHERE clause of `verifyUserKey`. */
  predicate Usable(k: UserKey, keyValue: string, now: nat)
  {
    k.keyValue == keyValue && k.isActive && Unexpired(k, now)
  }

  predicate UsernameTaken(users: seq<User>, username: string)
  {
    exists i | 0 <= i < |users| :: users[i].username == username
  }

  predicate EmailTaken(users: seq<User>, email: string)
  {
    exists i | 0 <= i < |users| :: users[i].email == email
  }

  predicate UserIdTaken(users: seq<User>, id: int)
  {
    exists i | 0 <= i < |users| :: users[i].id == id
  }

  /** Some row matches `WHERE username = ? AND password = ?`. */
  predicate CredentialsMatch(users: seq<User>, username: string, passwordHash: string)
  {
    exists i | 0 <= i < |users| :: users[i].username == username && users[i].password == passwordHash
  }

  predicate KeyValueTaken(keys: seq<UserKey>, keyValue: string)
  {
    exists i | 0 <= i < |keys| :: keys[i].keyValue == keyValue
  }

  /**
   * The constraints of the `users` table: AUTOINCREMENT ids (ascending in
   * rowid order, never above the last id handed out), UNIQUE username and
   * UNIQUE email.
   */
  ghost predicate UsersTable(users: seq<User>, lastId: nat)
  {
    && (forall i :: 0 <= i < |users| ==> 1 <= users[i].id <= lastId)
    && (forall i, j :: 0 <= i < j < |users| ==> users[i].id < users[j].id)
    && (forall i, j :: 0 <= i < j < |users| ==> users[i].username != users[j].username)
    && (forall i, j :: 0 <= i < j < |users| ==> users[i].email != users[j].email)
  }

  /** The constraints of the `user_keys` table: AUTOINCREMENT ids, UNIQUE key_value. */
  ghost predicate KeysTable(keys: seq<UserKey>, lastId: nat)
  {
    && (forall i :: 0 <= i < |keys| ==> 1 <= keys[i].id <= lastId)
    && (forall i, j :: 0 <= i < j < |keys| ==> keys[i].id < keys[j].id)
    && (forall i, j :: 0 <= i < j < |keys| ==> keys[i].keyValue != keys[j].keyValue)
  }

  /** An INSERT that passes the UNIQUE checks and takes the next id keeps the `users` constraints. */
  lemma UsersTableInsert(users: seq<User>, lastId: nat, u: User)
    requires UsersTable(users, lastId)
    requires u.id == lastId + 1 && !UsernameTaken(users, u.username) && !EmailTaken(users, u.email)
    ensures UsersTable(users + [u], lastId + 1)
  {
    var t := users + [u];
    assert forall i :: 0 <= i < |users| ==> t[i] == users[i];
  }

  /** An INSERT with a new key value that takes the next id keeps the `user_keys` constraints. */
  lemma KeysTableInsert(keys: seq<UserKey>, lastId: nat, k: UserKey)
    requires KeysTable(keys, lastId)
    requires k.id == lastId + 1 && !KeyValueTaken(keys, k.keyValue)
    ensures KeysTable(keys + [k], lastId + 1)
  {
    var t := keys + [k];
    assert forall i :: 0 <= i < |keys| ==> t[i] == keys[i];
  }

  /** `getUsers`: `SELECT * FROM users`, every row in rowid order. */
  function GetUsers(users: seq<User>): (rows: seq<User>)
    ensures rows == users
  {
    users
  }

  /** `getUserKeys`: `SELECT * FROM user_keys WHERE user_id = ? AND is_active = 1`. */
  function GetUserKeys(keys: seq<UserKey>, userId: int): (rows: seq<UserKey>)
    ensures |rows| <= |keys|
    ensures forall k :: k in rows <==> k in keys && k.userId == userId && k.isActive
  {
    if |keys| == 0 then []
    else if keys[0].userId == userId && keys[0].isActive then [keys[0]] + GetUserKeys(keys[1..], userId)
    else GetUserKeys(keys[1..], userId)
  }

  /** The row `keyRows[0]` of a login is the earliest active key of the user. */
  lemma {:induction false} GetUserKeysFirst(keys: seq<UserKey>, userId: int)
    requires GetUserKeys(keys, userId) != []
    ensures exists i :: (0 <= i < |keys| && keys[i] == GetUserKeys(keys, userId)[0]
                         && forall j :: 0 <= j < i ==> !(keys[j].userId == userId && keys[j].isActive))
  {
    if keys[0].userId == userId && keys[0].isActive {
      assert keys[0] == GetUserKeys(keys, userId)[0];
    } else {
      GetUserKeysFirst(keys[1..], userId);
      var i :| 0 <= i < |keys[1..]| && keys[1..][i] == GetUserKeys(keys[1..], userId)[0]
        && forall j :: 0 <= j < i ==> !(keys[1..][j].userId == userId && keys[1..][j].isActive);
      assert keys[i + 1] == GetUserKeys(keys, userId)[0];
      assert forall j :: 1 <= j < i + 1 ==> keys[j] == keys[1..][j - 1];
    }
  }

  /** An inserted row goes to the end of the query's result, if it qualifies. */
  lemma {:induction false} GetUserKeysAppend(keys: seq<UserKey>, k: UserKey, userId: int)
    ensures GetUserKeys(keys + [k], userId)
      == GetUserKeys(keys, userId) + (if k.userId == userId && k.isActive then [k] else [])
  {
    if |keys| == 0 {
      assert keys + [k] == [k];
      assert [k][1..] == [];
    } else {
      assert (keys + [k])[1..] == keys[1..] + [k];
      GetUserKeysAppend(keys[1..], k, userId);
    }
  }

  /**
   * `verifyUserKey`: the row whose key_value matches, is active and has not
   * expired, joined with its owner's username; `None` when there is none.
   */
  function VerifyUserKey(users: seq<User>, keys: seq<UserKey>, keyValue: string, now: nat): (r: Option<KeyOwner>)
    ensures r.Some? ==> r.value.key in keys && Usable(r.value.key, keyValue, now)
    ensures r.Some? ==> exists j :: 0 <= j < |users| && users[j].id == r.value.key.userId
                                    && users[j].username == r.value.username
  {
    match FirstIndex(keys, (k: UserKey) => Usable(k, keyValue, now))
    case None => None
    case Some(i) =>
      match FirstIndex(users, (u: User) => u.id == keys[i].userId)
      case None => None
      case Some(j) => Some(KeyOwner(keys[i], users[j].username))
  }

  /**
   * The converse: in tables that keep their constraints, an active,
   * unexpired key whose owner exists verifies, and it names that owner.
   */
  lemma VerifyUserKeyFinds(users: seq<User>, lastUserId: nat, keys: seq<UserKey>, lastKeyId: nat,
                           i: nat, j: nat, now: nat)
    requires UsersTable(users, lastUserId) && KeysTable(keys, lastKeyId)
    requires i < |keys| && keys[i].isActive && Unexpired(keys[i], now)
    requires j < |users| && users[j].id == keys[i].userId
    ensures VerifyUserKey(users, keys, keys[i].keyValue, now) == Some(KeyOwner(keys[i], users[j].username))
  {
    var v := keys[i].keyValue;
    var ki := FirstIndex(keys, (k: UserKey) => Usable(k, v, now));
    assert ki.Some?;
    if ki.value != i {
      assert false;
    }
    var uj := FirstIndex(users, (u: User) => u.id == keys[i].userId);
    assert uj.Some?;
    if uj.value != j {
      assert false;
    }
  }

  /**
   * Exactly when a stored active key verifies: in tables that keep their
   * constraints, iff its owner exists and it has not expired.
   */
  lemma ActiveKeyVerifiesIff(users: seq<User>, lastUserId: nat, keys: seq<UserKey>, lastKeyId: nat,
                             i: nat, now: nat)
    requires UsersTable(users, lastUserId) && KeysTable(keys, lastKeyId)
    requires i < |keys| && keys[i].isActive
    ensures VerifyUserKey(users, keys, keys[i].keyValue, now).Some?
            <==> UserIdTaken(users, keys[i].userId) && Unexpired(keys[i], now)
  {
    if UserIdTaken(users, keys[i].userId) && Unexpired(keys[i], now) {
      var j :| 0 <= j < |users| && users[j].id == keys[i].userId;
      VerifyUserKeyFinds(users, lastUserId, keys, lastKeyId, i, j, now);
    }
  }

  /** `getUserIdByUsername`: the id of the row with that username, or null. */
  function GetUserIdByUsername(users: seq<User>, username: string): (r: Option<nat>)
    ensures r.None? <==> !UsernameTaken(users, username)
    ensures r.Some? ==> exists i :: 0 <= i < |users| && users[i].username == username && users[i].id == r.value
  {
    match FirstIndex(users, (u: User) => u.username == username)
    case None => None
    case Some(i) => Some(users[i].id)
  }

  /** Because username is UNIQUE, the lookup returns the id of the very row. */
  lemma GetUserIdByUsernameExact(users: seq<User>, lastId: nat, i: nat)
    requires UsersTable(users, lastId) && i < |users|
    ensures GetUserIdByUsername(users, users[i].username) == Some(users[i].id)
  {
    var name := users[i].username;
    var f := FirstIndex(users, (u: User) => u.username == name);
    if f.value != i {
      assert false;
    }
  }

  /** `UPDATE user_keys SET is_active = 0 WHERE key_value = ?` */
  function Deactivated(keys: seq<UserKey>, keyValue: string): (r: seq<UserKey>)
    ensures |r| == |keys|
  {
    seq(|keys|, i requires 0 <= i < |keys| =>
      if keys[i].keyValue == keyValue then keys[i].(isActive := false) else keys[i])
  }

  /** The number of rows that `WHERE key_value = ?` matches (`this.changes`). */
  function MatchCount(keys: seq<UserKey>, keyValue: string): (n: nat)
    ensures n <= |keys|
  {
    if |keys| == 0 then 0
    else (if keys[0].keyValue == keyValue then 1 else 0) + MatchCount(keys[1..], keyValue)
  }

  lemma {:induction false} MatchCountZero(keys: seq<UserKey>, keyValue: string)
    ensures MatchCount(keys, keyValue) == 0 <==> !KeyValueTaken(keys, keyValue)
  {
    if |keys| > 0 {
      MatchCountZero(keys[1..], keyValue);
      assert forall i :: 1 <= i < |keys| ==> keys[i] == keys[1..][i - 1];
      if KeyValueTaken(keys[1..], keyValue) {
        var i :| 0 <= i < |keys[1..]| && keys[1..][i].keyValue == keyValue;
        assert keys[i + 1].keyValue == keyValue;
      }
    }
  }

  /** Because key_value is UNIQUE, deactivation changes at most one row. */
  lemma {:induction false} MatchCountAtMostOne(keys: seq<UserKey>, lastId: nat, keyValue: string)
    requires KeysTable(keys, lastId)
    ensures MatchCount(keys, keyValue) <= 1
    ensures MatchCount(keys, keyValue) == 1 <==> KeyValueTaken(keys, keyValue)
  {
    MatchCountZero(keys, keyValue);
    if |keys| > 0 {
      assert KeysTable(keys[1..], lastId);
      MatchCountAtMostOne(keys[1..], lastId, keyValue);
      if keys[0].keyValue == keyValue {
        MatchCountZero(keys[1..], keyValue);
      }
    }
  }

  /** After deactivation the key no longer verifies, whatever the time. */
  lemma DeactivateRevokes(users: seq<User>, keys: seq<UserKey>, keyValue: string, now: nat)
    ensures VerifyUserKey(users, Deactivated(keys, keyValue), keyValue, now).None?
  {
  }

  /** Deactivating one key leaves the verification of every other key as it was. */
  lemma DeactivateLeavesOthers(users: seq<User>, keys: seq<UserKey>, keyValue: string,
                               other: string, now: nat)
    requires other != keyValue
    ensures VerifyUserKey(users, Deactivated(keys, keyValue), other, now)
         == VerifyUserKey(users, keys, other, now)
  {
    var d := Deactivated(keys, keyValue);
    assert forall i :: 0 <= i < |keys| ==> (Usable(d[i], other, now) <==> Usable(keys[i], other, now));
    var a := FirstIndex(d, (k: UserKey) => Usable(k, other, now));
    var b := FirstIndex(keys, (k: UserKey) => Usable(k, other, now));
    if a.Some? && b.Some? {
      if a.value != b.value {
        assert false;
      }
      assert d[a.value] == keys[a.value];
    } else if a.Some? || b.Some? {
      assert false;
    }
  }

  /** Inserting a key leaves the verification of every other key value as it was. */
  lemma KeyInsertLeavesOthers(users: seq<User>, keys: seq<UserKey>, k: UserKey, other: string, now: nat)
    requires k.keyValue != other
    ensures VerifyUserKey(users, keys + [k], other, now) == VerifyUserKey(users, keys, other, now)
  {
    var e := keys + [k];
    assert forall i :: 0 <= i < |keys| ==> e[i] == keys[i];
    var a := FirstIndex(e, (x: UserKey) => Usable(x, other, now));
    var b := FirstIndex(keys, (x: UserKey) => Usable(x, other, now));
    if a.Some? && b.Some? {
      if a.value != b.value {
        assert false;
      }
    } else if a.Some? || b.Some? {
      assert false;
    }
  }

  /**
   * Inserting a user keeps every key that verifies verifying, with the same
   * owner. (A key stored for an id that has no row yet may start to verify
   * once that id is handed out: the FOREIGN KEY is not enforced.)
   */
  lemma UserInsertKeepsVerified(users: seq<User>, keys: seq<UserKey>, u: User, keyValue: string, now: nat)
    requires VerifyUserKey(users, keys, keyValue, now).Some?
    ensures VerifyUserKey(users + [u], keys, keyValue, now) == VerifyUserKey(users, keys, keyValue, now)
  {
    var e := users + [u];
    assert forall j :: 0 <= j < |users| ==> e[j] == users[j];
    var ki := FirstIndex(keys, (x: UserKey) => Usable(x, keyValue, now));
    var i := ki.value;
    var a := FirstIndex(e, (x: User) => x.id == keys[i].userId);
    var b := FirstIndex(users, (x: User) => x.id == keys[i].userId);
    if a.Some? && b.Some? {
      if a.value != b.value {
        assert false;
      }
    } else if a.Some? || b.Some? {
      assert false;
    }
  }

  /** Keys with that user id that are active and not yet expired, in rowid order. */
  function UsableKeys(keys: seq<UserKey>, userId: int, now: nat): (rows: seq<UserKey>)
    ensures forall k :: k in rows <==> k in keys && k.userId == userId && k.isActive && Unexpired(k, now)
  {
    if |keys| == 0 then []
    else if keys[0].userId == userId && keys[0].isActive && Unexpired(keys[0], now)
    then [keys[0]] + UsableKeys(keys[1..], userId, now)
    else UsableKeys(keys[1..], userId, now)
  }

  lemma {:induction false} UsableKeysAppend(keys: seq<UserKey>, k: UserKey, userId: int, now: nat)
    ensures UsableKeys(keys + [k], userId, now)
      == UsableKeys(keys, userId, now) + (if k.userId == userId && k.isActive && Unexpired(k, now) then [k] else [])
  {
    if |keys| == 0 {
      assert keys + [k] == [k];
      assert [k][1..] == [];
    } else {
      assert (keys + [k])[1..] == keys[1..] + [k];
      UsableKeysAppend(keys[1..], k, userId, now);
    }
  }

  class CredentialStore {
    var users: seq<User>
    var keys: seq<UserKey>
    /** The AUTOINCREMENT counters (`sqlite_sequence`) of the two tables. */
    var lastUserId: nat
    var lastKeyId: nat
    /** `hashPassword` (SHA-256 in hex in the source). */
    const hashPassword: string -> string

    ghost predicate Valid()
      reads this
    {
      UsersTable(users, lastUserId) && KeysTable(keys, lastKeyId)
    }

    /** Both tables as `CREATE TABLE IF NOT EXISTS` leaves a new database. */
    constructor (hashPassword: string -> string)
      ensures Valid()
      ensures users == [] && keys == [] && lastUserId == 0 && lastKeyId == 0
      ensures this.hashPassword == hashPassword
    {
      users, keys := [], [];
      lastUserId, lastKeyId := 0, 0;
      this.hashPassword := hashPassword;
    }

    /** An existing database file, which `CREATE TABLE IF NOT EXISTS` leaves as it is. */
    constructor Open(users: seq<User>, lastUserId: nat, keys: seq<UserKey>, lastKeyId: nat,
                     hashPassword: string -> string)
      requires UsersTable(users, lastUserId) && KeysTable(keys, lastKeyId)
      ensures Valid()
      ensures this.users == users && this.keys == keys
      ensures this.lastUserId == lastUserId && this.lastKeyId == lastKeyId
      ensures this.hashPassword == hashPassword
    {
      this.users, this.keys := users, keys;
      this.lastUserId, this.lastKeyId := lastUserId, lastKeyId;
      this.hashPassword := hashPassword;
    }

    /**
     * `addUser`: INSERT of (username, hash of password, email). Status 200
     * when neither UNIQUE column clashes, 500 (and no change) otherwise.
     */
    method AddUser(username: string, password: string, email: string) returns (status: int)
      requires Valid()
      modifies this
      ensures Valid()
      ensures status == 200 || status == 500
      ensures status == 200 <==> !UsernameTaken(old(users), username) && !EmailTaken(old(users), email)
      ensures status == 200 ==> (lastUserId == old(lastUserId) + 1
        && users == old(users) + [User(lastUserId, username, hashPassword(password), email)]
        && GetUserIdByUsername(users, username) == Some(lastUserId))
      ensures status == 500 ==> users == old(users) && lastUserId == old(lastUserId)
      ensures keys == old(keys) && lastKeyId == old(lastKeyId)
      ensures forall v: string, t: nat :: VerifyUserKey(old(users), keys, v, t).Some? ==>
        VerifyUserKey(users, keys, v, t) == VerifyUserKey(old(users), keys, v, t)
    {
      if UsernameTaken(users, username) || EmailTaken(users, email) {
        status := 500;
      } else {
        ghost var before := users;
        UsersTableInsert(users, lastUserId, User(lastUserId + 1, username, hashPassword(password), email));
        lastUserId := lastUserId + 1;
        users := users + [User(lastUserId, username, hashPassword(password), email)];
        status := 200;
        GetUserIdByUsernameExact(users, lastUserId, |users| - 1);
        forall v: string, t: nat | VerifyUserKey(before, keys, v, t).Some?
          ensures VerifyUserKey(users, keys, v, t) == VerifyUserKey(before, keys, v, t)
        {
          UserInsertKeepsVerified(before, keys, users[|users| - 1], v, t);
        }
      }
    }

    /**
     * `addUserKey`: INSERT of an active key. The new row's id on success,
     * `None` (status 500, no change) when the key value is already stored.
     * The owner's existence is not checked: SQLite does not enforce the
     * FOREIGN KEY unless told to.
     */
    method AddUserKey(userId: int, keyValue: string, expiresAt: Option<int>) returns (id: Option<nat>)
      requires Valid()
      modifies this
      ensures Valid()
      ensures id.Some? <==> !KeyValueTaken(old(keys), keyValue)
      ensures id.Some? ==> (id.value == lastKeyId == old(lastKeyId) + 1
        && keys == old(keys) + [UserKey(id.value, userId, keyValue, true, expiresAt)])
      ensures id.Some? ==> forall k :: k in old(keys) ==> k.id < id.value
      ensures id.Some? ==> forall now: nat ::
        (VerifyUserKey(users, keys, keyValue, now).Some?
         <==> UserIdTaken(users, userId) && (expiresAt.None? || expiresAt.value > SqlNowMs(now)))
      ensures id.None? ==> keys == old(keys) && lastKeyId == old(lastKeyId)
      ensures users == old(users) && lastUserId == old(lastUserId)
      ensures forall v: string, t: nat :: v != keyValue ==>
        VerifyUserKey(users, keys, v, t) == VerifyUserKey(users, old(keys), v, t)
    {
      if KeyValueTaken(keys, keyValue) {
        id := None;
      } else {
        ghost var before := keys;
        var row := UserKey(lastKeyId + 1, userId, keyValue, true, expiresAt);
        KeysTableInsert(keys, lastKeyId, row);
        lastKeyId := lastKeyId + 1;
        keys := keys + [row];
        id := Some(lastKeyId);
        forall now: nat
          ensures VerifyUserKey(users, keys, keyValue, now).Some?
            <==> UserIdTaken(users, userId) && (expiresAt.None? || expiresAt.value > SqlNowMs(now))
        {
          ActiveKeyVerifiesIff(users, lastUserId, keys, lastKeyId, |keys| - 1, now);
        }
        forall v: string, t: nat | v != keyValue
          ensures VerifyUserKey(users, keys, v, t) == VerifyUserKey(users, before, v, t)
        {
          KeyInsertLeavesOthers(users, before, row, v, t);
        }
      }
    }

    /**
     * `deactivateUserKey`: marks every row with that key value inactive,
     * whether or not it was active already, and reports how many rows the
     * UPDATE matched.
     */
    method DeactivateUserKey(keyValue: string) returns (changes: nat)
      requires Valid()
      modifies this
      ensures Valid()
      ensures changes <= 1
      ensures changes == 1 <==> KeyValueTaken(old(keys), keyValue)
      ensures |keys| == |old(keys)|
      ensures forall i :: 0 <= i < |keys| ==>
        keys[i] == if old(keys)[i].keyValue == keyValue then old(keys)[i].(isActive := false) else old(keys)[i]
      ensures forall now: nat :: VerifyUserKey(users, keys, keyValue, now).None?
      ensures users == old(users) && lastUserId == old(lastUserId) && lastKeyId == old(lastKeyId)
    {
      changes := MatchCount(keys, keyValue);
      MatchCountAtMostOne(keys, lastKeyId, keyValue);
      keys := Deactivated(keys, keyValue);
      forall now: nat ensures VerifyUserKey(users, keys, keyValue, now).None? {
        DeactivateRevokes(users, old(keys), keyValue, now);
      }
    }

    /**
     * `verifyUsernameAndPassword` as written: when a row matches username
     * and password hash, it returns the first active key of the
     * caller-supplied `userId` (expired or not), or inserts `freshKey` for
     * that `userId` with an expiry 30 days after `now`.
     */
    method VerifyUsernameAndPassword(username: string, password: string, userId: int,
                                     freshKey: string, now: nat) returns (r: LoginOutcome)
      requires Valid()
      modifies this
      ensures Valid()
      ensures users == old(users) && lastUserId == old(lastUserId)
      ensures !CredentialsMatch(users, username, hashPassword(password)) ==>
        r == NoMatch && keys == old(keys) && lastKeyId == old(lastKeyId)
      ensures CredentialsMatch(users, username, hashPassword(password)) && GetUserKeys(old(keys), userId) != [] ==>
        r == KeyIssued(GetUserKeys(old(keys), userId)[0].keyValue) && keys == old(keys) && lastKeyId == old(lastKeyId)
      ensures CredentialsMatch(users, username, hashPassword(password)) && GetUserKeys(old(keys), userId) == [] ==>
        if KeyValueTaken(old(keys), freshKey) then
          r == InsertFailed && keys == old(keys) && lastKeyId == old(lastKeyId)
        else
          r == KeyIssued(freshKey) && lastKeyId == old(lastKeyId) + 1
          && keys == old(keys) + [UserKey(lastKeyId, userId, freshKey, true, Some(now + KeyLifetimeMs))]
      // the next call with the same arguments takes the reuse branch and returns the same key
      ensures r.KeyIssued? ==> GetUserKeys(keys, userId) != [] && GetUserKeys(keys, userId)[0].keyValue == r.keyValue
      // every other key verifies exactly as before
      ensures forall v: string, t: nat :: v != freshKey ==>
        VerifyUserKey(users, keys, v, t) == VerifyUserKey(users, old(keys), v, t)
    {
      var matched := FirstIndex(users, (u: User) => u.username == username && u.password == hashPassword(password));
      if matched.None? {
        return NoMatch;
      }
      var expiresAt := now + KeyLifetimeMs;
      var keyRows := GetUserKeys(keys, userId);
      if keyRows == [] {
        ghost var before := keys;
        var id := AddUserKey(userId, freshKey, Some(expiresAt));
        if id.None? {
          r := InsertFailed;
        } else {
          r := KeyIssued(freshKey);
          GetUserKeysAppend(before, keys[|keys| - 1], userId);
        }
      } else {
        r := KeyIssued(keyRows[0].keyValue);
      }
    }

    /**
     * The key step of the corrected login, for the matched row `i`: reuse
     * the first key of that user that still verifies, or insert `freshKey`
     * for that user, valid for 30 days.
     */
    method IssueKeyFor(i: nat, freshKey: string, now: nat) returns (r: LoginOutcome)
      requires Valid() && i < |users|
      modifies this
      ensures Valid()
      ensures users == old(users) && lastUserId == old(lastUserId)
      ensures UsableKeys(old(keys), users[i].id, now) != [] ==>
        r == KeyIssued(UsableKeys(old(keys), users[i].id, now)[0].keyValue)
        && keys == old(keys) && lastKeyId == old(lastKeyId)
      ensures UsableKeys(old(keys), users[i].id, now) == [] ==>
        if KeyValueTaken(old(keys), freshKey) then
          r == InsertFailed && keys == old(keys) && lastKeyId == old(lastKeyId)
        else
          r == KeyIssued(freshKey) && lastKeyId == old(lastKeyId) + 1
          && keys == old(keys) + [UserKey(lastKeyId, users[i].id, freshKey, true, Some(now + KeyLifetimeMs))]
      ensures r.KeyIssued? ==> exists k :: VerifyUserKey(users, keys, r.keyValue, now) == Some(KeyOwner(k, users[i].username))
      ensures r.KeyIssued? ==>
        UsableKeys(keys, users[i].id, now) != [] && UsableKeys(keys, users[i].id, now)[0].keyValue == r.keyValue
      ensures forall v: string, t: nat :: v != freshKey ==>
        VerifyUserKey(users, keys, v, t) == VerifyUserKey(users, old(keys), v, t)
    {
      var owner := users[i].id;
      var usable := UsableKeys(keys, owner, now);
      if usable == [] {
        ghost var before := keys;
        var id := AddUserKey(owner, freshKey, Some(now + KeyLifetimeMs));
        if id.None? {
          r := InsertFailed;
        } else {
          r := KeyIssued(freshKey);
          var n := |keys| - 1;
          VerifyUserKeyFinds(users, lastUserId, keys, lastKeyId, n, i, now);
          UsableKeysAppend(before, keys[n], owner, now);
        }
      } else {
        var k := usable[0];
        assert k in usable;
        var n :| 0 <= n < |keys| && keys[n] == k;
        VerifyUserKeyFinds(users, lastUserId, keys, lastKeyId, n, i, now);
        r := KeyIssued(k.keyValue);
      }
    }

    /**
     * Login as evidently intended: the key belongs to the user whose
     * credentials matched, and only a key that is still usable is reused;
     * otherwise `freshKey` is inserted for that user, valid for 30 days.
     */
    method Login(username: string, password: string, freshKey: string, now: nat) returns (r: LoginOutcome)
      requires Valid()
      modifies this
      ensures Valid()
      ensures users == old(users) && lastUserId == old(lastUserId)
      ensures r == NoMatch <==> !CredentialsMatch(users, username, hashPassword(password))
      ensures r.KeyIssued? ==> exists k ::
        VerifyUserKey(users, keys, r.keyValue, now) == Some(KeyOwner(k, username))
      ensures r.KeyIssued? ==> exists i :: (0 <= i < |users| && users[i].username == username
        && users[i].password == hashPassword(password)
        && UsableKeys(keys, users[i].id, now) != [] && UsableKeys(keys, users[i].id, now)[0].keyValue == r.keyValue)
      // reuse: a user who still holds a usable key gets the first of them, and nothing changes
      ensures forall i :: (0 <= i < |users| && users[i].username == username
        && users[i].password == hashPassword(password) && UsableKeys(old(keys), users[i].id, now) != []) ==>
        (r == KeyIssued(UsableKeys(old(keys), users[i].id, now)[0].keyValue)
         && keys == old(keys) && lastKeyId == old(lastKeyId))
      // mint: only for a matched user without a usable key, failing only on a stored key value
      ensures r == InsertFailed ==> KeyValueTaken(old(keys), freshKey) && exists i :: (0 <= i < |users|
        && users[i].username == username && users[i].password == hashPassword(password)
        && UsableKeys(old(keys), users[i].id, now) == [])
      ensures (keys == old(keys) && lastKeyId == old(lastKeyId))
        || (r == KeyIssued(freshKey) && lastKeyId == old(lastKeyId) + 1
            && exists i :: (0 <= i < |users| && users[i].username == username
               && users[i].password == hashPassword(password) && UsableKeys(old(keys), users[i].id, now) == []
               && keys == old(keys) + [UserKey(lastKeyId, users[i].id, freshKey, true, Some(now + KeyLifetimeMs))]))
      // every other key verifies exactly as before
      ensures forall v: string, t: nat :: v != freshKey ==>
        VerifyUserKey(users, keys, v, t) == VerifyUserKey(users, old(keys), v, t)
    {
      var matched := FirstIndex(users, (u: User) => u.username == username && u.password == hashPassword(password));
      if matched.None? {
        return NoMatch;
      }
      var i := matched.value;
      // username is UNIQUE, so the matched row is the only one with that name
      assert forall j :: 0 <= j < |users| && users[j].username == username ==> j == i;
      assert users[i].username == username && users[i].password == hashPassword(password);
      r := IssueKeyFor(i, freshKey, now);
    }
  }

  /**
   * Two successive corrected logins at the same instant hand out the same
   * key, whatever fresh key the second one draws.
   */
  method LoginTwice(db: CredentialStore, username: string, password: string,
                    firstKey: string, secondKey: string, now: nat)
    returns (first: LoginOutcome, second: LoginOutcome)
    requires db.Valid()
    modifies db
    ensures first.KeyIssued? ==> second == first
  {
    first := db.Login(username, password, firstKey, now);
    second := db.Login(username, password, secondKey, now);
  }

  /** The tables of the cross-user example: alice and bob, and bob's key "kb". */
  lemma CrossUserTables(users: seq<User>, keys: seq<UserKey>)
    requires users == [User(1, "alice", "pa", "alice@example.org"), User(2, "bob", "pb", "bob@example.org")]
    requires keys == [UserKey(1, 2, "kb", true, None)]
    ensures UsersTable(users, 2) && KeysTable(keys, 1)
    ensures CredentialsMatch(users, "alice", "pa") && GetUserKeys(keys, 2) == keys
    ensures VerifyUserKey(users, keys, "kb", 0) == Some(KeyOwner(keys[0], "bob"))
  {
    assert users[0].username[0] != users[1].username[0] && users[0].email[0] != users[1].email[0];
    assert users[0].username == "alice";
    VerifyUserKeyFinds(users, 2, keys, 1, 0, 1, 0);
  }

  /**
   * As written, a login with one user's password and another user's id is
   * handed the other user's key.
   */
  method CrossUserLoginWitness() returns (issued: LoginOutcome, owner: Option<KeyOwner>)
    ensures issued == KeyIssued("kb")
    ensures owner.Some? && owner.value.username == "bob"
  {
    var users := [User(1, "alice", "pa", "alice@example.org"), User(2, "bob", "pb", "bob@example.org")];
    var keys := [UserKey(1, 2, "kb", true, None)];
    CrossUserTables(users, keys);
    owner := VerifyUserKey(users, keys, "kb", 0);
    var db := new CredentialStore.Open(users, 2, keys, 1, (p: string) => p);
    issued := db.VerifyUsernameAndPassword("alice", "pa", 2, "kn", 0);
  }

  /** The tables of the expired-key example: alice and her key "ka", expiring at 1000 ms. */
  lemma ExpiredKeyTables(users: seq<User>, keys: seq<UserKey>)
    requires users == [User(1, "alice", "pa", "alice@example.org")]
    requires keys == [UserKey(1, 1, "ka", true, Some(1000))]
    ensures UsersTable(users, 1) && KeysTable(keys, 1)
    ensures CredentialsMatch(users, "alice", "pa") && GetUserKeys(keys, 1) == keys
    ensures VerifyUserKey(users, keys, "ka", 5000).None?
  {
    assert users[0].username == "alice";
    assert !Usable(keys[0], "ka", 5000) by { assert SqlNowMs(5000) == 5000; }
  }

  /**
   * As written, a login reuses an active key that has already expired, so
   * the key it returns does not verify.
   */
  method ExpiredKeyLoginWitness() returns (issued: LoginOutcome, verified: Option<KeyOwner>)
    ensures issued == KeyIssued("ka")
    ensures verified.None?
  {
    var users := [User(1, "alice", "pa", "alice@example.org")];
    var keys := [UserKey(1, 1, "ka", true, Some(1000))];
    ExpiredKeyTables(users, keys);
    verified := VerifyUserKey(users, keys, "ka", 5000);
    var db := new CredentialStore.Open(users, 1, keys, 1, (p: string) => p);
    issued := db.VerifyUsernameAndPassword("alice", "pa", 1, "kn", 5000);
  }
}
