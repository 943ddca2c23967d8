/** The User record and its mapping from a row of the User table. */
module UserModel {
  import opened Wrappers
  import opened Store

  /** An account; `id` is None until the row is stored. The password is kept only as a digest. */
  datatype User = User(id: Option<int>, username: string, email: string, hashedPassword: string)

  /** A row `from_db_row` can read: id (an INTEGER PRIMARY KEY, so never NULL), user_name, email, hashed_password. */
  predicate IsUserRow(row: Row) {
    && |row| >= 4
    && row[0].Integer?
    && row[1].Text? && row[2].Text? && row[3].Text?
  }

  /** `User.from_db_row`: positions 0..3, copied without conversion. */
  function FromDbRow(row: Row): (u: User)
    requires IsUserRow(row)
    ensures u.id.Some?
    ensures StoredRow(u.id.value, u) == row[..4]
  {
    User(Some(row[0].i), row[1].s, row[2].s, row[3].s)
  }

  /** The row the User table holds for `u` under `id`: id, user_name, email, hashed_password. */
  function StoredRow(id: int, u: User): (row: Row)
    ensures IsUserRow(row) && |row| == 4 && RowId(row) == id
  {
    [Integer(id), Text(u.username), Text(u.email), Text(u.hashedPassword)]
  }

  lemma ReadStoredRow(id: int, u: User)
    ensures FromDbRow(StoredRow(id, u)) == u.(id := Some(id))
  {
  }

  lemma StoreReadRow(row: Row)
    requires IsUserRow(row) && |row| == 4 && row[0].Integer?
    ensures StoredRow(row[0].i, FromDbRow(row)) == row
  {
  }
}
