/** The Book record and its mapping from a row of the Book table. */
module BookModel {
  import opened Wrappers
  import opened Store

  /**
   * A book. `id` is None until the row is stored; `ratingAvg` defaults to 0,
   * as the dataclass field does.
   */
  datatype Book = Book(id: Option<int>, title: string, author: string, ratingAvg: real := 0.0)

  /** A row `from_db_row` can read: id (an INTEGER PRIMARY KEY, so never NULL), title, author, a numeric rating. */
  predicate IsBookRow(row: Row) {
    && |row| >= 4
    && row[0].Integer?
    && row[1].Text? && row[2].Text?
    && IsNumeric(row[3])
  }

  /** `Book.from_db_row`: positions 0..3 are id, title, author and rating_avg (made a float). */
  function FromDbRow(row: Row): (b: Book)
    requires IsBookRow(row)
    ensures b.id.Some?
    ensures forall k :: 0 <= k < 4 ==> SqlEquals(StoredRow(b.id.value, b)[k], row[k])
  {
    Book(Some(row[0].i), row[1].s, row[2].s, ToFloat(row[3]))
  }

  /**
   * The row the Book table holds for `b` once stored under `id`: columns
   * id, title, author, rating_avg in that order, the rating kept as REAL.
   */
  function StoredRow(id: int, b: Book): (row: Row)
    ensures IsBookRow(row) && |row| == 4 && RowId(row) == id
  {
    [Integer(id), Text(b.title), Text(b.author), Real(b.ratingAvg)]
  }

  /** Reading back a stored book gives the same book, now carrying its id. */
  lemma ReadStoredRow(id: int, b: Book)
    ensures FromDbRow(StoredRow(id, b)) == b.(id := Some(id))
  {
  }

  /** Storing what was read from a stored row gives the same row back. */
  lemma StoreReadRow(row: Row)
    requires IsBookRow(row) && |row| == 4 && row[0].Integer? && row[3].Real?
    ensures StoredRow(row[0].i, FromDbRow(row)) == row
  {
  }

  /** `[Book.from_db_row(row) for row in rows]`. */
  function FromDbRows(rows: seq<Row>): (books: seq<Book>)
    requires forall k :: 0 <= k < |rows| ==> IsBookRow(rows[k])
    ensures |books| == |rows|
    ensures forall k :: 0 <= k < |rows| ==> books[k] == FromDbRow(rows[k])
  {
    if rows == [] then [] else [FromDbRow(rows[0])] + FromDbRows(rows[1..])
  }
}
