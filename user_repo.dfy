/**
 * UserRepository over an in-memory User table. The table's UNIQUE constraints
 * on user_name and email reject a clashing insert; `create` reports that as False.
 */
module UserRepo {
  import opened Wrappers
  import opened Store
  import opened UserModel

  /** The User table: its rows in table order and the AUTOINCREMENT high-water mark. */
  datatype UserTable = UserTable(rows: seq<Row>, lastId: nat) {
    /**
     * Every row holds an account with an id in 1..lastId; ids increase in table
     * order; and, as the UNIQUE columns demand, no two accounts share a
     * username or an email.
     */
    ghost predicate Valid() {
      && (forall k :: 0 <= k < |rows| ==> IsUserRow(rows[k]) && rows[k][0].Integer? && 1 <= RowId(rows[k]) <= lastId)
      && (forall j, k :: 0 <= j < k < |rows| ==> RowId(rows[j]) < RowId(rows[k]))
      && (forall j, k :: 0 <= j < k < |rows| ==>
            FromDbRow(rows[j]).username != FromDbRow(rows[k]).username
            && FromDbRow(rows[j]).email != FromDbRow(rows[k]).email)
    }
  }

  /** `WHERE user_name = ?` */
  function ByUsername(username: string): Cond {
    Eq(1, Text(username))
  }

  /** `WHERE email = ?` */
  function ByEmail(email: string): Cond {
    Eq(2, Text(email))
  }

  /** Some account has this username or this email. */
  ghost predicate Taken(t: UserTable, username: string, email: string)
    requires t.Valid()
  {
    exists k :: 0 <= k < |t.rows| && (FromDbRow(t.rows[k]).username == username || FromDbRow(t.rows[k]).email == email)
  }

  lemma UsernameOrEmailMatch(t: UserTable, username: string, email: string)
    requires t.Valid()
    ensures forall k :: 0 <= k < |t.rows| ==>
      (Holds(Or(ByUsername(username), ByEmail(email)), t.rows[k]) <==> FromDbRow(t.rows[k]).username == username || FromDbRow(t.rows[k]).email == email)
  {
  }

  /** `get_by_username`: the account whose username is exactly `username`, if any. */
  function UserWithUsername(t: UserTable, username: string): (u: Option<User>)
    requires t.Valid()
    ensures u.None? <==> forall k :: 0 <= k < |t.rows| ==> FromDbRow(t.rows[k]).username != username
    ensures forall k :: 0 <= k < |t.rows| && FromDbRow(t.rows[k]).username == username ==> u == Some(FromDbRow(t.rows[k]))
  {
    match FetchOne(t.rows, ByUsername(username))
    case None => None
    case Some(row) => Some(FromDbRow(row))
  }

  /** `get_by_email`: the account whose email is exactly `email`, if any. */
  function UserWithEmail(t: UserTable, email: string): (u: Option<User>)
    requires t.Valid()
    ensures u.None? <==> forall k :: 0 <= k < |t.rows| ==> FromDbRow(t.rows[k]).email != email
    ensures forall k :: 0 <= k < |t.rows| && FromDbRow(t.rows[k]).email == email ==> u == Some(FromDbRow(t.rows[k]))
  {
    match FetchOne(t.rows, ByEmail(email))
    case None => None
    case Some(row) => Some(FromDbRow(row))
  }

  /** `user_exists`: `SELECT ... WHERE user_name = ? OR email = ?` returns at least one row. */
  function AccountExists(t: UserTable, username: string, email: string): (b: bool)
    requires t.Valid()
    ensures b <==> Taken(t, username, email)
  {
    var c := Or(ByUsername(username), ByEmail(email));
    var found := Selected(t.rows, c);
    UsernameOrEmailMatch(t, username, email);
    if |found| > 0 then
      SelectedMembers(t.rows, c, found[0]);
      true
    else
      forall k | 0 <= k < |t.rows| ensures !Holds(c, t.rows[k]) {
        SelectedMembers(t.rows, c, t.rows[k]);
      }
      false
  }

  /**
   * `create`: the outcome and the table afterwards. A storage error, or an
   * insert that would break a UNIQUE constraint, gives False and changes
   * nothing; otherwise the account is appended under the next id.
   */
  function CreateResult(t: UserTable, user: User, fault: bool): (r: (bool, UserTable))
    requires t.Valid()
    ensures r.1.Valid()
    ensures r.0 <==> !fault && !Taken(t, user.username, user.email)
    ensures r.0 ==> r.1 == UserTable(t.rows + [StoredRow(t.lastId + 1, user)], t.lastId + 1)
    ensures !r.0 ==> r.1 == t
  {
    UsernameOrEmailMatch(t, user.username, user.email);
    if fault || FetchOne(t.rows, Or(ByUsername(user.username), ByEmail(user.email))).Some? then (false, t)
    else
      var t' := UserTable(t.rows + [StoredRow(t.lastId + 1, user)], t.lastId + 1);
      AppendKeepsUnique(t, user);
      (true, t')
  }

  /** Appending an account whose username and email are both unused keeps the table valid. */
  lemma AppendKeepsUnique(t: UserTable, user: User)
    requires t.Valid() && !Taken(t, user.username, user.email)
    ensures UserTable(t.rows + [StoredRow(t.lastId + 1, user)], t.lastId + 1).Valid()
  {
    var rows' := t.rows + [StoredRow(t.lastId + 1, user)];
    var n := |t.rows|;
    ReadStoredRow(t.lastId + 1, user);
    forall j, k | 0 <= j < k < |rows'|
      ensures FromDbRow(rows'[j]).username != FromDbRow(rows'[k]).username
      ensures FromDbRow(rows'[j]).email != FromDbRow(rows'[k]).email
      ensures RowId(rows'[j]) < RowId(rows'[k])
    {
      assert rows'[j] == t.rows[j];
      if k < n {
        assert rows'[k] == t.rows[k];
      }
    }
  }

  class UserRepository {
    var rows: seq<Row>
    var lastId: nat

    function Table(): UserTable
      reads this
    {
      UserTable(rows, lastId)
    }

    ghost predicate Valid()
      reads this
    {
      Table().Valid()
    }

    /** A repository over a User table that already holds `t`. */
    constructor(t: UserTable)
      requires t.Valid()
      ensures Valid() && Table() == t
    {
      rows := t.rows;
      lastId := t.lastId;
    }

    method GetByUsername(username: string) returns (u: Option<User>)
      requires Valid()
      ensures u == UserWithUsername(Table(), username)
    {
      var row := SelectOne(rows, ByUsername(username));
      if row.Some? {
        u := Some(FromDbRow(row.value));
      } else {
        u := None;
      }
    }

    method GetByEmail(email: string) returns (u: Option<User>)
      requires Valid()
      ensures u == UserWithEmail(Table(), email)
    {
      var row := SelectOne(rows, ByEmail(email));
      if row.Some? {
        u := Some(FromDbRow(row.value));
      } else {
        u := None;
      }
    }

    method Create(user: User, fault: bool) returns (ok: bool)
      requires Valid()
      modifies this
      ensures (ok, Table()) == CreateResult(old(Table()), user, fault)
      ensures Valid()
    {
      if fault {
        return false;
      }
      var clash := SelectOne(rows, Or(ByUsername(user.username), ByEmail(user.email)));
      if clash.Some? {
        // sqlite3.IntegrityError: UNIQUE constraint failed, caught as sqlite3.Error
        return false;
      }
      rows := rows + [StoredRow(lastId + 1, user)];
      lastId := lastId + 1;
      ok := true;
    }

    method UserExists(username: string, email: string) returns (b: bool)
      requires Valid()
      ensures b == AccountExists(Table(), username, email)
    {
      var found := Select(rows, Or(ByUsername(username), ByEmail(email)));
      b := |found| > 0;
    }
  }

  /** After a successful `create`, the account is found by its username and by its email. */
  lemma CreateThenLookup(t: UserTable, user: User)
    requires t.Valid()
    requires CreateResult(t, user, false).0
    ensures var t' := CreateResult(t, user, false).1;
            var stored := user.(id := Some(t.lastId + 1));
            UserWithUsername(t', user.username) == Some(stored)
            && UserWithEmail(t', user.email) == Some(stored)
  {
    var t' := CreateResult(t, user, false).1;
    ReadStoredRow(t.lastId + 1, user);
    assert FromDbRow(t'.rows[|t.rows|]) == user.(id := Some(t.lastId + 1));
  }
}
