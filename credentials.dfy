/** The credential store: one row per account with its username, password
    hash, role and last login. */
module Credentials {
  import opened Wrappers
  import opened Seqs
  import opened Domain

  /** A row of the credential table; `role` is the stored text, which a
      lookup parses back into a `Role`. */
  datatype AuthRow = AuthRow(userId: int, username: string, passwordHash: string, role: string,
                             status: string, lastLogin: Option<int>)

  /** What a lookup by username returns. */
  datatype UserAuthData = UserAuthData(userId: int, role: Role, passwordHash: string)

  /** Every account a provisioning insert creates starts out active. */
  const ACTIVE: string := "Active"

  predicate DistinctRows(a: AuthRow, b: AuthRow) {
    a.userId != b.userId && a.username != b.username
  }

  /** Account ids and usernames are unique, and ids are below the next id
      the table hands out. */
  ghost predicate TableValid(rows: seq<AuthRow>, nextId: int) {
    && (forall i :: 0 <= i < |rows| ==> rows[i].userId < nextId)
    && Pairwise(rows, DistinctRows)
  }

  function HasUsername(username: string): AuthRow -> bool {
    (a: AuthRow) => a.username == username
  }

  function HasUserId(userId: int): AuthRow -> bool {
    (a: AuthRow) => a.userId == userId
  }

  function NotUserId(userId: int): AuthRow -> bool {
    (a: AuthRow) => a.userId != userId
  }

  function SetHash(passwordHash: string): AuthRow -> AuthRow {
    (a: AuthRow) => a.(passwordHash := passwordHash)
  }

  function SetLastLogin(now: int): AuthRow -> AuthRow {
    (a: AuthRow) => a.(lastLogin := Some(now))
  }

  /** `findUserAuthDataByUsername(username)`: the account's id, role and
      hash; `None` when no row has the username or its stored role is not
      one of the three roles. */
  function FindUserAuthDataByUsername(rows: seq<AuthRow>, username: string): (r: Option<UserAuthData>)
    ensures r.Some? ==> exists a :: a in rows && a.username == username && a.userId == r.value.userId
                                  && ParseRole(a.role) == Some(r.value.role) && a.passwordHash == r.value.passwordHash
    ensures (forall a :: a in rows ==> a.username != username) ==> r.None?
  {
    match FindFirst(rows, HasUsername(username))
    case None => None
    case Some(a) =>
      match ParseRole(a.role)
      case None => None
      case Some(role) => Some(UserAuthData(a.userId, role, a.passwordHash))
  }

  /** Two rows of a valid table sharing an id or a username are the same
      row. */
  lemma SameKeySameRow(rows: seq<AuthRow>, nextId: int, a: AuthRow, b: AuthRow)
    requires TableValid(rows, nextId) && a in rows && b in rows
    requires a.userId == b.userId || a.username == b.username
    ensures a == b
  {
    var i :| 0 <= i < |rows| && rows[i] == a;
    var j :| 0 <= j < |rows| && rows[j] == b;
  }

  /** In a valid table a lookup by an account's username finds that
      account: its id, role and hash when the stored role is one of the
      three roles, and nothing when it is not. */
  lemma FindsStoredAccount(rows: seq<AuthRow>, nextId: int, a: AuthRow)
    requires TableValid(rows, nextId) && a in rows
    ensures FindUserAuthDataByUsername(rows, a.username)
            == match ParseRole(a.role)
               case None => None
               case Some(role) => Some(UserAuthData(a.userId, role, a.passwordHash))
  {
    var found := FindFirst(rows, HasUsername(a.username));
    assert HasUsername(a.username)(a);
    SameKeySameRow(rows, nextId, found.value, a);
  }

  /** A newly inserted account is found by its username with the id, role
      and hash it was created with. */
  lemma CreateThenFind(rows: seq<AuthRow>, newId: int, username: string, passwordHash: string, role: Role)
    requires forall a :: a in rows ==> a.username != username
    ensures FindUserAuthDataByUsername(rows + [AuthRow(newId, username, passwordHash, RoleName(role), ACTIVE, None)], username)
            == Some(UserAuthData(newId, role, passwordHash))
  {
    FindFirstAppend(rows, AuthRow(newId, username, passwordHash, RoleName(role), ACTIVE, None), HasUsername(username));
  }

  /** Changing one account's hash changes what a lookup returns only for
      that account, and only its hash. */
  lemma UpdateHashThenFind(rows: seq<AuthRow>, userId: int, passwordHash: string, username: string)
    ensures FindUserAuthDataByUsername(UpdateWhere(rows, HasUserId(userId), SetHash(passwordHash)), username)
            == match FindUserAuthDataByUsername(rows, username)
               case None => None
               case Some(d) => Some(if d.userId == userId then d.(passwordHash := passwordHash) else d)
  {
    FindFirstUpdate(rows, HasUserId(userId), SetHash(passwordHash), HasUsername(username));
  }

  /** After an account is deleted, its username no longer logs in. */
  lemma DeleteThenFind(rows: seq<AuthRow>, nextId: int, userId: int, username: string)
    requires TableValid(rows, nextId)
    requires exists a :: a in rows && a.userId == userId && a.username == username
    ensures FindUserAuthDataByUsername(Filter(rows, NotUserId(userId)), username).None?
  {
    var a :| a in rows && a.userId == userId && a.username == username;
    forall b | b in Filter(rows, NotUserId(userId)) ensures b.username != username {
      if b.username == username {
        SameKeySameRow(rows, nextId, a, b);
      }
    }
  }

  /** Deleting the account just appended gives back the table as it was:
      the compensating delete of provisioning undoes the insert. */
  lemma DeleteUndoesCreate(rows: seq<AuthRow>, nextId: int, added: AuthRow)
    requires TableValid(rows, nextId) && added.userId == nextId
    ensures Filter(rows + [added], NotUserId(added.userId)) == rows
  {
    FilterAppend(rows, [added], NotUserId(added.userId));
    assert [added][..0] == [];
    FilterAll(rows, NotUserId(added.userId));
  }

  lemma DeleteValid(rows: seq<AuthRow>, nextId: int, userId: int)
    requires TableValid(rows, nextId)
    ensures TableValid(Filter(rows, NotUserId(userId)), nextId)
  {
    var kept := Filter(rows, NotUserId(userId));
    FilterPairwise(rows, NotUserId(userId), DistinctRows);
    forall i | 0 <= i < |kept| ensures kept[i].userId < nextId {
      assert kept[i] in rows;
    }
  }

  /** The credential store. */
  class UserAuthRepository {
    var rows: seq<AuthRow>
    var nextId: int

    ghost predicate Valid()
      reads this
    {
      TableValid(rows, nextId)
    }

    constructor()
      ensures Valid() && rows == []
    {
      rows := [];
      nextId := 1;
    }

    /** `createUserAuth(username, passwordHash, role)`: inserts an active
        account and returns its generated id. A taken username (the unique
        key) or a store error returns `None` and adds nothing. */
    method CreateUserAuth(username: string, passwordHash: string, role: Role) returns (newId: Option<int>)
      requires Valid()
      modifies this
      ensures Valid()
      ensures (exists a :: a in old(rows) && a.username == username) ==> newId.None?
      ensures newId.Some? ==> newId.value == old(nextId)
                              && rows == old(rows) + [AuthRow(newId.value, username, passwordHash, RoleName(role), ACTIVE, None)]
                              && nextId > newId.value
      ensures newId.Some? ==> FindUserAuthDataByUsername(rows, username) == Some(UserAuthData(newId.value, role, passwordHash))
      ensures newId.None? ==> rows == old(rows)
    {
      if exists a :: a in rows && a.username == username {
        return None;
      }
      var inserted: bool := *;
      if !inserted {
        return None;
      }
      newId := Some(nextId);
      CreateThenFind(rows, nextId, username, passwordHash, role);
      rows := rows + [AuthRow(nextId, username, passwordHash, RoleName(role), ACTIVE, None)];
      nextId := nextId + 1;
    }

    /** `updatePasswordHash(userId, passwordHash)`: replaces that account's
        hash and nothing else; false when no account has the id. */
    method UpdatePasswordHash(userId: int, passwordHash: string) returns (ok: bool)
      requires Valid()
      modifies this
      ensures Valid()
      ensures (forall a :: a in old(rows) ==> a.userId != userId) ==> !ok
      ensures ok ==> rows == UpdateWhere(old(rows), HasUserId(userId), SetHash(passwordHash))
      ensures !ok ==> rows == old(rows)
    {
      if forall a :: a in rows ==> a.userId != userId {
        return false;
      }
      ok := *;
      if ok {
        rows := UpdateWhere(rows, HasUserId(userId), SetHash(passwordHash));
      }
    }

    /** `deleteUserAuthById(userId)`: removes the account; false when no
        account has the id. */
    method DeleteUserAuthById(userId: int) returns (ok: bool)
      requires Valid()
      modifies this
      ensures Valid()
      ensures (forall a :: a in old(rows) ==> a.userId != userId) ==> !ok
      ensures ok ==> rows == Filter(old(rows), NotUserId(userId))
      ensures !ok ==> rows == old(rows)
    {
      if forall a :: a in rows ==> a.userId != userId {
        return false;
      }
      ok := *;
      if ok {
        DeleteValid(rows, nextId, userId);
        rows := Filter(rows, NotUserId(userId));
      }
    }

    /** `updateLastLogin(userId)` at time `now`. Errors are swallowed, so
        the stamp may or may not be written; either way no id, username,
        hash or role changes. */
    method UpdateLastLogin(userId: int, now: int)
      requires Valid()
      modifies this
      ensures Valid()
      ensures rows == old(rows) || rows == UpdateWhere(old(rows), HasUserId(userId), SetLastLogin(now))
      ensures |rows| == |old(rows)|
      ensures forall i :: 0 <= i < |rows| ==> rows[i].(lastLogin := old(rows)[i].lastLogin) == old(rows)[i]
    {
      var written: bool := *;
      if written {
        rows := UpdateWhere(rows, HasUserId(userId), SetLastLogin(now));
      }
    }
  }
}
