/** The Review record and its mapping from a row of the Review table. */
module ReviewModel {
  import opened Wrappers
  import opened Store

  /** A review; `reviewId` is None until the row is stored. */
  datatype Review = Review(
    reviewId: Option<int>,
    accountId: int,
    bookId: int,
    ratingScore: real,
    reviewTitle: string,
    reviewText: string)

  /** A row `from_db_row` can read: review_id (an INTEGER PRIMARY KEY, so never NULL), account_id, book_id, a numeric rating, title, text. */
  predicate IsReviewRow(row: Row) {
    && |row| >= 6
    && row[0].Integer?
    && row[1].Integer? && row[2].Integer?
    && IsNumeric(row[3])
    && row[4].Text? && row[5].Text?
  }

  /** `Review.from_db_row`: positions 0..5, with rating_score made a float. */
  function FromDbRow(row: Row): (r: Review)
    requires IsReviewRow(row)
    ensures r.reviewId.Some?
    ensures forall k :: 0 <= k < 6 ==> SqlEquals(StoredRow(r.reviewId.value, r)[k], row[k])
  {
    Review(Some(row[0].i),
           row[1].i, row[2].i, ToFloat(row[3]), row[4].s, row[5].s)
  }

  /** The row the Review table holds for `r` under `id`, in the table's column order. */
  function StoredRow(id: int, r: Review): (row: Row)
    ensures IsReviewRow(row) && |row| == 6 && RowId(row) == id
  {
    [Integer(id), Integer(r.accountId), Integer(r.bookId), Real(r.ratingScore),
     Text(r.reviewTitle), Text(r.reviewText)]
  }

  lemma ReadStoredRow(id: int, r: Review)
    ensures FromDbRow(StoredRow(id, r)) == r.(reviewId := Some(id))
  {
  }

  lemma StoreReadRow(row: Row)
    requires IsReviewRow(row) && |row| == 6 && row[0].Integer? && row[3].Real?
    ensures StoredRow(row[0].i, FromDbRow(row)) == row
  {
  }

  /** `[Review.from_db_row(row) for row in rows]`. */
  function FromDbRows(rows: seq<Row>): (reviews: seq<Review>)
    requires forall k :: 0 <= k < |rows| ==> IsReviewRow(rows[k])
    ensures |reviews| == |rows|
    ensures forall k :: 0 <= k < |rows| ==> reviews[k] == FromDbRow(rows[k])
  {
    if rows == [] then [] else [FromDbRow(rows[0])] + FromDbRows(rows[1..])
  }

  lemma {:induction false} FromDbRowsAppend(rows: seq<Row>, row: Row)
    requires forall k :: 0 <= k < |rows| ==> IsReviewRow(rows[k])
    requires IsReviewRow(row)
    ensures FromDbRows(rows + [row]) == FromDbRows(rows) + [FromDbRow(row)]
  {
    if rows == [] {
      assert rows + [row] == [row];
    } else {
      assert (rows + [row])[1..] == rows[1..] + [row];
      FromDbRowsAppend(rows[1..], row);
    }
  }
}
