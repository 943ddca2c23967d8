/** The WishlistEntry record and its mapping from a row of the Wishlist table. */
module WishlistModel {
  import opened Store

  /** One wishlisted book; the pair is the whole record, there is no generated id. */
  datatype WishlistEntry = WishlistEntry(accountId: int, bookId: int)

  predicate IsWishlistRow(row: Row) {
    |row| >= 2 && row[0].Integer? && row[1].Integer?
  }

  /** `WishlistEntry.from_db_row`: row[0] is account_id, row[1] is book_id. */
  function FromDbRow(row: Row): (e: WishlistEntry)
    requires IsWishlistRow(row)
    ensures StoredRow(e) == row[..2]
  {
    WishlistEntry(row[0].i, row[1].i)
  }

  /** The row the Wishlist table holds for `e`: account_id, book_id. */
  function StoredRow(e: WishlistEntry): (row: Row)
    ensures IsWishlistRow(row) && |row| == 2
  {
    [Integer(e.accountId), Integer(e.bookId)]
  }

  lemma ReadStoredRow(e: WishlistEntry)
    ensures FromDbRow(StoredRow(e)) == e
  {
  }

  /** On rows of the table's own shape, reading is one-to-one. */
  lemma StoreReadRow(row: Row)
    requires IsWishlistRow(row) && |row| == 2
    ensures StoredRow(FromDbRow(row)) == row
  {
  }

  /** `[WishlistEntry.from_db_row(row) for row in rows]`. */
  function FromDbRows(rows: seq<Row>): (entries: seq<WishlistEntry>)
    requires forall k :: 0 <= k < |rows| ==> IsWishlistRow(rows[k])
    ensures |entries| == |rows|
    ensures forall k :: 0 <= k < |rows| ==> entries[k] == FromDbRow(rows[k])
  {
    if rows == [] then [] else [FromDbRow(rows[0])] + FromDbRows(rows[1..])
  }

  lemma {:induction false} FromDbRowsAppend(rows: seq<Row>, row: Row)
    requires forall k :: 0 <= k < |rows| ==> IsWishlistRow(rows[k])
    requires IsWishlistRow(row)
    ensures FromDbRows(rows + [row]) == FromDbRows(rows) + [FromDbRow(row)]
  {
    if rows == [] {
      assert rows + [row] == [row];
    } else {
      assert (rows + [row])[1..] == rows[1..] + [row];
      FromDbRowsAppend(rows[1..], row);
    }
  }
}
