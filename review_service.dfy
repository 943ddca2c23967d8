/**
 * ReviewService: lookups passed through to the review repository, and
 * `add_review`, which parses the rating, checks it lies in [1, 5] and stores
 * the review without looking for an earlier one.
 */
module ReviewSvc {
  import opened Wrappers
  import opened Rating
  import opened ReviewModel
  import opened ReviewRepo
  import BookRepo

  /**
   * `add_review` on a Review table: the outcome and the table afterwards. A
   * rating that does not parse, or lies outside [1, 5], gives False without
   * reaching the repository.
   */
  function AddReviewResult(t: ReviewTable, accountId: int, bookId: int, rating: FloatInput,
                           title: string, text: string, fault: bool): (r: (bool, ReviewTable))
    requires t.Valid()
    ensures r.1.Valid()
    ensures r.0 <==> !fault && rating.Finite? && 1.0 <= rating.value <= 5.0
    ensures r.0 ==> r.1 == ReviewTable(t.rows + [StoredRow(t.lastId + 1, Review(None, accountId, bookId, rating.value, title, text))], t.lastId + 1)
    ensures !r.0 ==> r.1 == t
  {
    if !InRange(rating) then (false, t)
    else CreateResult(t, Review(None, accountId, bookId, rating.value, title, text), fault)
  }

  /** Both ends of the range are accepted; the values just outside it, `nan` and non-numbers are not. */
  lemma RatingBoundaries(t: ReviewTable, title: string, text: string)
    requires t.Valid()
    ensures AddReviewResult(t, 1, 1, Finite(1.0), title, text, false).0
    ensures AddReviewResult(t, 1, 1, Finite(5.0), title, text, false).0
    ensures AddReviewResult(t, 1, 1, Finite(0.99), title, text, false) == (false, t)
    ensures AddReviewResult(t, 1, 1, Finite(5.01), title, text, false) == (false, t)
    ensures AddReviewResult(t, 1, 1, NonFinite, title, text, false) == (false, t)
    ensures AddReviewResult(t, 1, 1, Unparsable, title, text, false) == (false, t)
  {
  }

  /**
   * A review `add_review` accepts is the last one `get_book_reviews` lists for
   * its book, with the parsed rating and the next id.
   */
  lemma AddThenList(t: ReviewTable, accountId: int, bookId: int, rating: real, title: string, text: string)
    requires t.Valid() && 1.0 <= rating <= 5.0
    ensures var (ok, t') := AddReviewResult(t, accountId, bookId, Finite(rating), title, text, false);
            ok && ReviewsForBook(t', bookId)
                  == ReviewsForBook(t, bookId) + [Review(Some(t.lastId + 1), accountId, bookId, rating, title, text)]
  {
    CreateThenRead(t, Review(None, accountId, bookId, rating, title, text));
  }

  /**
   * No duplicate check: a second review by the same account for the same
   * book is accepted too, and `get_user_review` keeps returning the first.
   */
  lemma AddReviewTwice(t: ReviewTable, accountId: int, bookId: int, r1: real, r2: real,
                       title1: string, text1: string, title2: string, text2: string)
    requires t.Valid() && UserReview(t, accountId, bookId).None?
    requires 1.0 <= r1 <= 5.0 && 1.0 <= r2 <= 5.0
    ensures var (ok1, t1) := AddReviewResult(t, accountId, bookId, Finite(r1), title1, text1, false);
            var (ok2, t2) := AddReviewResult(t1, accountId, bookId, Finite(r2), title2, text2, false);
            ok1 && ok2 && |t2.rows| == |t.rows| + 2
            && UserReview(t2, accountId, bookId) == Some(Review(Some(t.lastId + 1), accountId, bookId, r1, title1, text1))
  {
    TwoReviewsSameBook(t, Review(None, accountId, bookId, r1, title1, text1), Review(None, accountId, bookId, r2, title2, text2));
  }

  class ReviewService {
    const reviewRepo: ReviewRepository
    /** Held by the service but never consulted: `add_review` does not check the book exists. */
    const bookRepo: BookRepo.BookRepository

    constructor(reviewRepo: ReviewRepository, bookRepo: BookRepo.BookRepository)
      ensures this.reviewRepo == reviewRepo && this.bookRepo == bookRepo
    {
      this.reviewRepo := reviewRepo;
      this.bookRepo := bookRepo;
    }

    method GetBookReviews(bookId: int) returns (reviews: seq<Review>)
      requires reviewRepo.Valid()
      ensures reviews == ReviewsForBook(reviewRepo.Table(), bookId)
    {
      reviews := reviewRepo.GetByBookId(bookId);
    }

    method GetUserReview(accountId: int, bookId: int) returns (r: Option<Review>)
      requires reviewRepo.Valid()
      ensures r == UserReview(reviewRepo.Table(), accountId, bookId)
    {
      r := reviewRepo.GetUserReview(accountId, bookId);
    }

    method AddReview(accountId: int, bookId: int, rating: FloatInput, title: string, text: string, fault: bool)
      returns (ok: bool)
      requires reviewRepo.Valid()
      modifies reviewRepo
      ensures (ok, reviewRepo.Table()) == AddReviewResult(old(reviewRepo.Table()), accountId, bookId, rating, title, text, fault)
      ensures reviewRepo.Valid()
    {
      if rating.Unparsable? {
        return false;
      }
      if !(rating.Finite? && 1.0 <= rating.value && rating.value <= 5.0) {
        return false;
      }
      ok := reviewRepo.Create(Review(None, accountId, bookId, rating.value, title, text), fault);
    }
  }
}
