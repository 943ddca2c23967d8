/**
 * ReviewRepository over an in-memory Review table. `create` inserts without
 * looking for an earlier review, so one account may review a book many times.
 */
module ReviewRepo {
  import opened Wrappers
  import opened Store
  import opened ReviewModel

  /** The Review table: its rows in table order and the AUTOINCREMENT high-water mark. */
  datatype ReviewTable = ReviewTable(rows: seq<Row>, lastId: nat) {
    /** Every row holds a review with an id in 1..lastId; ids increase in table order. */
    ghost predicate Valid() {
      && (forall k :: 0 <= k < |rows| ==> IsReviewRow(rows[k]) && rows[k][0].Integer? && 1 <= RowId(rows[k]) <= lastId)
      && (forall j, k :: 0 <= j < k < |rows| ==> RowId(rows[j]) < RowId(rows[k]))
    }
  }

  /** `WHERE book_id = ?` */
  function ByBook(bookId: int): Cond {
    Eq(2, Integer(bookId))
  }

  /** `WHERE account_id = ? AND book_id = ?` */
  function ByAccountBook(accountId: int, bookId: int): Cond {
    And(Eq(1, Integer(accountId)), Eq(2, Integer(bookId)))
  }

  lemma AccountBookMatch(row: Row, accountId: int, bookId: int)
    requires IsReviewRow(row)
    ensures Holds(ByAccountBook(accountId, bookId), row)
        <==> FromDbRow(row).accountId == accountId && FromDbRow(row).bookId == bookId
  {
    assert Holds(ByAccountBook(accountId, bookId), row)
        == (Holds(Eq(1, Integer(accountId)), row) && Holds(Eq(2, Integer(bookId)), row));
  }

  /** Every review of the table, in table order. */
  function Reviews(t: ReviewTable): seq<Review>
    requires t.Valid()
  {
    FromDbRows(t.rows)
  }

  lemma SelectedReviewRows(rows: seq<Row>, c: Cond)
    requires forall k :: 0 <= k < |rows| ==> IsReviewRow(rows[k])
    ensures forall k :: 0 <= k < |Selected(rows, c)| ==> IsReviewRow(Selected(rows, c)[k])
  {
    forall k | 0 <= k < |Selected(rows, c)| ensures IsReviewRow(Selected(rows, c)[k]) {
      SelectedMembers(rows, c, Selected(rows, c)[k]);
    }
  }

  /** The reviews of `reviews` that are about book `bookId`, in their order. */
  function OfBook(reviews: seq<Review>, bookId: int): (r: seq<Review>)
    ensures |r| <= |reviews|
    ensures forall k :: 0 <= k < |r| ==> r[k] in reviews && r[k].bookId == bookId
  {
    if reviews == [] then []
    else
      var last := reviews[|reviews| - 1];
      var init := OfBook(reviews[..|reviews| - 1], bookId);
      if last.bookId == bookId then init + [last] else init
  }

  /** One more review at the end is kept exactly when it is about the book. */
  lemma OfBookSnoc(reviews: seq<Review>, r: Review, bookId: int)
    ensures OfBook(reviews + [r], bookId)
            == if r.bookId == bookId then OfBook(reviews, bookId) + [r] else OfBook(reviews, bookId)
  {
    assert (reviews + [r])[..|reviews|] == reviews;
  }

  /** Reading the rows `WHERE book_id = ?` selects is filtering the reviews read from all rows. */
  lemma {:induction false} SelectByBook(rows: seq<Row>, bookId: int)
    requires forall k :: 0 <= k < |rows| ==> IsReviewRow(rows[k])
    ensures forall k :: 0 <= k < |Selected(rows, ByBook(bookId))| ==> IsReviewRow(Selected(rows, ByBook(bookId))[k])
    ensures FromDbRows(Selected(rows, ByBook(bookId))) == OfBook(FromDbRows(rows), bookId)
    decreases |rows|
  {
    var c := ByBook(bookId);
    SelectedReviewRows(rows, c);
    if rows != [] {
      var init := rows[..|rows| - 1];
      var last := rows[|rows| - 1];
      assert rows == init + [last];
      SelectByBook(init, bookId);
      FromDbRowsAppend(init, last);
      var reviews := FromDbRows(rows);
      assert reviews[..|reviews| - 1] == FromDbRows(init);
      assert reviews[|reviews| - 1] == FromDbRow(last);
      assert Holds(c, last) <==> FromDbRow(last).bookId == bookId;
      if Holds(c, last) {
        SelectedReviewRows(init, c);
        FromDbRowsAppend(Selected(init, c), last);
      }
    }
  }

  /** `get_by_book_id`: exactly the stored reviews of one book, in table order. */
  function ReviewsForBook(t: ReviewTable, bookId: int): (reviews: seq<Review>)
    requires t.Valid()
    ensures reviews == OfBook(Reviews(t), bookId)
    ensures forall k :: 0 <= k < |reviews| ==> reviews[k] in Reviews(t) && reviews[k].bookId == bookId
  {
    SelectByBook(t.rows, bookId);
    FromDbRows(Selected(t.rows, ByBook(bookId)))
  }

  /** `get_by_book_id` misses no review of the book. */
  lemma ReviewsForBookComplete(t: ReviewTable, bookId: int, k: nat)
    requires t.Valid() && k < |t.rows| && Reviews(t)[k].bookId == bookId
    ensures Reviews(t)[k] in ReviewsForBook(t, bookId)
  {
    var c := ByBook(bookId);
    var rs := Selected(t.rows, c);
    SelectedMembers(t.rows, c, t.rows[k]);
    var j :| 0 <= j < |rs| && rs[j] == t.rows[k];
    assert ReviewsForBook(t, bookId)[j] == Reviews(t)[k];
  }

  /**
   * `get_user_review`: a review by this account for this book, None when
   * there is none.
   */
  function UserReview(t: ReviewTable, accountId: int, bookId: int): (r: Option<Review>)
    requires t.Valid()
    ensures r.None? <==> forall k :: 0 <= k < |t.rows| ==>
      !(FromDbRow(t.rows[k]).accountId == accountId && FromDbRow(t.rows[k]).bookId == bookId)
    ensures r.Some? ==> r.value.accountId == accountId && r.value.bookId == bookId
  {
    forall k | 0 <= k < |t.rows|
      ensures Holds(ByAccountBook(accountId, bookId), t.rows[k])
          <==> FromDbRow(t.rows[k]).accountId == accountId && FromDbRow(t.rows[k]).bookId == bookId
    {
      AccountBookMatch(t.rows[k], accountId, bookId);
    }
    match FetchOne(t.rows, ByAccountBook(accountId, bookId))
    case None => None
    case Some(row) =>
      AccountBookMatch(row, accountId, bookId);
      Some(FromDbRow(row))
  }

  /** The review `get_user_review` returns is the first matching one in table order. */
  lemma UserReviewIsFirst(t: ReviewTable, accountId: int, bookId: int, k: nat)
    requires t.Valid() && k < |t.rows|
    requires Reviews(t)[k].accountId == accountId && Reviews(t)[k].bookId == bookId
    requires forall j :: 0 <= j < k ==> !(Reviews(t)[j].accountId == accountId && Reviews(t)[j].bookId == bookId)
    ensures UserReview(t, accountId, bookId) == Some(Reviews(t)[k])
  {
    var c := ByAccountBook(accountId, bookId);
    AccountBookMatch(t.rows[k], accountId, bookId);
    forall j | 0 <= j < k ensures !Holds(c, t.rows[j]) {
      AccountBookMatch(t.rows[j], accountId, bookId);
    }
  }

  /**
   * `create`: the outcome and the table afterwards. Only a storage error
   * gives False (table unchanged); otherwise the review is appended under the
   * next id, whatever reviews already exist.
   */
  function CreateResult(t: ReviewTable, review: Review, fault: bool): (r: (bool, ReviewTable))
    requires t.Valid()
    ensures r.1.Valid()
    ensures r.0 <==> !fault
    ensures r.0 ==> r.1 == ReviewTable(t.rows + [StoredRow(t.lastId + 1, review)], t.lastId + 1)
    ensures !r.0 ==> r.1 == t
  {
    if fault then (false, t)
    else (true, ReviewTable(t.rows + [StoredRow(t.lastId + 1, review)], t.lastId + 1))
  }

  class ReviewRepository {
    var rows: seq<Row>
    var lastId: nat

    function Table(): ReviewTable
      reads this
    {
      ReviewTable(rows, lastId)
    }

    ghost predicate Valid()
      reads this
    {
      Table().Valid()
    }

    /** A repository over a Review table that already holds `t`. */
    constructor(t: ReviewTable)
      requires t.Valid()
      ensures Valid() && Table() == t
    {
      rows := t.rows;
      lastId := t.lastId;
    }

    method GetByBookId(bookId: int) returns (reviews: seq<Review>)
      requires Valid()
      ensures reviews == ReviewsForBook(Table(), bookId)
    {
      var rs := Select(rows, ByBook(bookId));
      SelectedReviewRows(rows, ByBook(bookId));
      reviews := FromDbRows(rs);
    }

    method GetUserReview(accountId: int, bookId: int) returns (r: Option<Review>)
      requires Valid()
      ensures r == UserReview(Table(), accountId, bookId)
    {
      var row := SelectOne(rows, ByAccountBook(accountId, bookId));
      if row.Some? {
        r := Some(FromDbRow(row.value));
      } else {
        r := None;
      }
    }

    method Create(review: Review, fault: bool) returns (ok: bool)
      requires Valid()
      modifies this
      ensures (ok, Table()) == CreateResult(old(Table()), review, fault)
      ensures Valid()
    {
      if fault {
        return false;
      }
      rows := rows + [StoredRow(lastId + 1, review)];
      lastId := lastId + 1;
      ok := true;
    }
  }

  /**
   * After a successful `create`, `get_by_book_id` of the review's book lists
   * what it listed before followed by the new review, equal to the one given
   * apart from its new id.
   */
  lemma CreateThenRead(t: ReviewTable, review: Review)
    requires t.Valid()
    ensures var t' := CreateResult(t, review, false).1;
            ReviewsForBook(t', review.bookId)
            == ReviewsForBook(t, review.bookId) + [review.(reviewId := Some(t.lastId + 1))]
  {
    var t' := CreateResult(t, review, false).1;
    var row := StoredRow(t.lastId + 1, review);
    var stored := review.(reviewId := Some(t.lastId + 1));
    assert t'.rows == t.rows + [row];
    FromDbRowsAppend(t.rows, row);
    ReadStoredRow(t.lastId + 1, review);
    assert FromDbRow(row) == stored;
    assert Reviews(t') == Reviews(t) + [stored];
    OfBookSnoc(Reviews(t), stored, review.bookId);
    assert ReviewsForBook(t', review.bookId) == OfBook(Reviews(t) + [stored], review.bookId);
  }

  /**
   * A second review by the same account for the same book is stored too, and
   * `get_user_review` keeps returning the first one.
   */
  lemma LaterReviewKeepsFirst(t: ReviewTable, review: Review)
    requires t.Valid() && UserReview(t, review.accountId, review.bookId).Some?
    ensures var t' := CreateResult(t, review, false).1;
            |t'.rows| == |t.rows| + 1
            && UserReview(t', review.accountId, review.bookId) == UserReview(t, review.accountId, review.bookId)
  {
    var c := ByAccountBook(review.accountId, review.bookId);
    var row := StoredRow(t.lastId + 1, review);
    var t' := CreateResult(t, review, false).1;
    assert t'.rows == t.rows + [row];
    assert FetchOne(t.rows, c).Some?;
    FetchOneAppendOther(t.rows, row, c);
    assert FetchOne(t'.rows, c) == FetchOne(t.rows, c);
  }

  /** Two reviews by one account for a book it had not reviewed: both stored, the first one returned. */
  lemma TwoReviewsSameBook(t: ReviewTable, first: Review, second: Review)
    requires t.Valid() && UserReview(t, first.accountId, first.bookId).None?
    requires second.accountId == first.accountId && second.bookId == first.bookId
    ensures var (ok1, t1) := CreateResult(t, first, false);
            var (ok2, t2) := CreateResult(t1, second, false);
            ok1 && ok2
            && UserReview(t2, first.accountId, first.bookId) == Some(first.(reviewId := Some(t.lastId + 1)))
  {
    var c := ByAccountBook(first.accountId, first.bookId);
    var t1 := CreateResult(t, first, false).1;
    var row := StoredRow(t.lastId + 1, first);
    ReadStoredRow(t.lastId + 1, first);
    FetchOneAppendFirst(t.rows, row, c);
    LaterReviewKeepsFirst(t1, second);
  }
}
