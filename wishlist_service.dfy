/**
 * WishlistService: an account's wishlist as the books its entries point to
 * (entries whose book is gone are skipped), and `add_to_wishlist`, which
 * requires the book to exist before the repository's duplicate check.
 */
module WishlistSvc {
  import opened Wrappers
  import BookModel
  import Store
  import opened WishlistModel
  import BookRepo
  import opened WishlistRepo

  /**
   * The books `get_user_wishlist` collects from `entries`, in entry order:
   * the book each entry names, skipping entries whose book is not in the
   * Book table.
   */
  function WishlistBooks(books: BookRepo.BookTable, entries: seq<WishlistEntry>): (r: seq<BookModel.Book>)
    requires books.Valid()
    ensures |r| <= |entries|
    decreases |entries|
  {
    if entries == [] then []
    else
      var prefix := WishlistBooks(books, entries[..|entries| - 1]);
      match BookRepo.BookWithId(books, entries[|entries| - 1].bookId)
      case None => prefix
      case Some(b) => prefix + [b]
  }

  /** The loop step of `get_user_wishlist`: one more entry looked at. */
  lemma WishlistBooksStep(books: BookRepo.BookTable, entries: seq<WishlistEntry>, i: nat)
    requires books.Valid() && i < |entries|
    ensures WishlistBooks(books, entries[..i + 1])
            == WishlistBooks(books, entries[..i])
               + match BookRepo.BookWithId(books, entries[i].bookId) case None => [] case Some(b) => [b]
  {
    assert entries[..i + 1] == entries[..i] + [entries[i]];
    WishlistBooksSnoc(books, entries[..i], entries[i]);
  }

  /** Every book collected is a catalogue book. */
  lemma {:induction false} WishlistBooksInCatalogue(books: BookRepo.BookTable, entries: seq<WishlistEntry>)
    requires books.Valid()
    ensures forall k :: 0 <= k < |WishlistBooks(books, entries)| ==> WishlistBooks(books, entries)[k] in BookRepo.AllBooks(books)
    decreases |entries|
  {
    if entries != [] {
      var init := entries[..|entries| - 1];
      var last := entries[|entries| - 1];
      assert entries == init + [last];
      WishlistBooksInCatalogue(books, init);
      WishlistBooksSnoc(books, init, last);
      var b := BookRepo.BookWithId(books, last.bookId);
      if b.Some? {
        var k :| 0 <= k < |books.rows| && Store.RowId(books.rows[k]) == last.bookId;
        assert BookRepo.AllBooks(books)[k] == b.value;
      }
    }
  }

  /** Every book collected is the book of one of the entries. */
  lemma {:induction false} WishlistBooksFromEntries(books: BookRepo.BookTable, entries: seq<WishlistEntry>)
    requires books.Valid()
    ensures forall k :: 0 <= k < |WishlistBooks(books, entries)| ==>
      exists j :: 0 <= j < |entries| && WishlistBooks(books, entries)[k].id == Some(entries[j].bookId)
    decreases |entries|
  {
    if entries != [] {
      var init := entries[..|entries| - 1];
      var last := entries[|entries| - 1];
      assert entries == init + [last];
      WishlistBooksFromEntries(books, init);
      WishlistBooksSnoc(books, init, last);
      var prefix := WishlistBooks(books, init);
      var r := WishlistBooks(books, entries);
      forall k | 0 <= k < |r| ensures exists j :: 0 <= j < |entries| && r[k].id == Some(entries[j].bookId) {
        if k < |prefix| {
          var j :| 0 <= j < |init| && prefix[k].id == Some(init[j].bookId);
          assert r[k] == prefix[k] && init[j] == entries[j];
        } else {
          assert r[k] == BookRepo.BookWithId(books, last.bookId).value;
          assert r[k].id == Some(entries[|entries| - 1].bookId);
        }
      }
    } else {
      assert WishlistBooks(books, entries) == [];
    }
  }

  /** Collecting one more entry adds its book at the end, when the book exists. */
  lemma WishlistBooksSnoc(books: BookRepo.BookTable, entries: seq<WishlistEntry>, e: WishlistEntry)
    requires books.Valid()
    ensures WishlistBooks(books, entries + [e])
            == WishlistBooks(books, entries)
               + match BookRepo.BookWithId(books, e.bookId) case None => [] case Some(b) => [b]
  {
    assert (entries + [e])[..|entries|] == entries;
  }

  /** When every entry's book exists, nothing is skipped: entry k gives book k. */
  lemma {:induction false} WishlistBooksAllPresent(books: BookRepo.BookTable, entries: seq<WishlistEntry>)
    requires books.Valid()
    requires forall j :: 0 <= j < |entries| ==> BookRepo.BookWithId(books, entries[j].bookId).Some?
    ensures |WishlistBooks(books, entries)| == |entries|
    ensures forall k :: 0 <= k < |entries| ==>
      WishlistBooks(books, entries)[k] == BookRepo.BookWithId(books, entries[k].bookId).value
    decreases |entries|
  {
    if entries != [] {
      var init := entries[..|entries| - 1];
      var last := entries[|entries| - 1];
      assert entries == init + [last];
      assert forall j :: 0 <= j < |init| ==> init[j] == entries[j];
      WishlistBooksAllPresent(books, init);
      WishlistBooksSnoc(books, init, last);
    } else {
      assert WishlistBooks(books, entries) == [];
    }
  }

  /** No entry whose book exists is skipped. */
  lemma {:induction false} WishlistBooksComplete(books: BookRepo.BookTable, entries: seq<WishlistEntry>, j: nat)
    requires books.Valid() && j < |entries|
    requires BookRepo.BookWithId(books, entries[j].bookId).Some?
    ensures BookRepo.BookWithId(books, entries[j].bookId).value in WishlistBooks(books, entries)
    decreases |entries|
  {
    if j < |entries| - 1 {
      var init := entries[..|entries| - 1];
      assert init[j] == entries[j];
      WishlistBooksComplete(books, init, j);
    }
  }

  /** `get_user_wishlist`: the books of the account's entries, in entry order. */
  function UserWishlist(books: BookRepo.BookTable, wish: WishlistTable, accountId: int): (r: seq<BookModel.Book>)
    requires books.Valid() && wish.Valid()
    ensures |r| <= |EntriesOf(wish, accountId)|
    ensures forall k :: 0 <= k < |r| ==> r[k] in BookRepo.AllBooks(books)
  {
    WishlistBooksInCatalogue(books, EntriesOf(wish, accountId));
    WishlistBooks(books, EntriesOf(wish, accountId))
  }

  /** Every book on an account's wishlist is a catalogue book the account has an entry for. */
  lemma UserWishlistSound(books: BookRepo.BookTable, wish: WishlistTable, accountId: int, b: BookModel.Book)
    requires books.Valid() && wish.Valid() && b in UserWishlist(books, wish, accountId)
    ensures b in BookRepo.AllBooks(books)
    ensures exists e :: e in Entries(wish) && e.accountId == accountId && b.id == Some(e.bookId)
  {
    var entries := EntriesOf(wish, accountId);
    var k :| 0 <= k < |UserWishlist(books, wish, accountId)| && UserWishlist(books, wish, accountId)[k] == b;
    WishlistBooksInCatalogue(books, entries);
    WishlistBooksFromEntries(books, entries);
    var j :| 0 <= j < |entries| && b.id == Some(entries[j].bookId);
    assert entries[j] in entries;
  }

  /**
   * `add_to_wishlist`: the outcome and the Wishlist table afterwards. A book
   * id missing from the Book table gives False without reaching the
   * repository.
   */
  function AddToWishlistResult(books: BookRepo.BookTable, wish: WishlistTable, accountId: int, bookId: int, fault: bool)
    : (r: (bool, WishlistTable))
    requires books.Valid() && wish.Valid()
    ensures r.1.Valid()
    ensures r.0 <==> !fault && BookRepo.BookWithId(books, bookId).Some? && WishlistEntry(accountId, bookId) !in Entries(wish)
    ensures r.0 ==> r.1 == WishlistTable(wish.rows + [StoredRow(WishlistEntry(accountId, bookId))])
    ensures !r.0 ==> r.1 == wish
  {
    if BookRepo.BookWithId(books, bookId).None? then (false, wish)
    else CreateResult(wish, WishlistEntry(accountId, bookId), fault)
  }

  /** A book added to the wishlist then shows up on the account's wishlist. */
  lemma AddThenShown(books: BookRepo.BookTable, wish: WishlistTable, accountId: int, bookId: int, fault: bool)
    requires books.Valid() && wish.Valid()
    requires AddToWishlistResult(books, wish, accountId, bookId, fault).0
    ensures BookRepo.BookWithId(books, bookId).value
            in UserWishlist(books, AddToWishlistResult(books, wish, accountId, bookId, fault).1, accountId)
  {
    var wish' := AddToWishlistResult(books, wish, accountId, bookId, fault).1;
    var e := WishlistEntry(accountId, bookId);
    ReadStoredRow(e);
    assert Entries(wish')[|wish.rows|] == e;
    var entries := EntriesOf(wish', accountId);
    assert e in entries;
    var j :| 0 <= j < |entries| && entries[j] == e;
    WishlistBooksComplete(books, entries, j);
  }

  /**
   * Adding an existing book twice: the second call returns False, leaves the
   * table as it was, and the account has exactly one entry for the book.
   */
  lemma AddExistingTwice(books: BookRepo.BookTable, wish: WishlistTable, accountId: int, bookId: int)
    requires books.Valid() && wish.Valid() && NoDuplicates(wish)
    requires BookRepo.BookWithId(books, bookId).Some?
    ensures var (ok1, w1) := AddToWishlistResult(books, wish, accountId, bookId, false);
            var (ok2, w2) := AddToWishlistResult(books, w1, accountId, bookId, false);
            ok1 == (WishlistEntry(accountId, bookId) !in Entries(wish)) && !ok2 && w2 == w1
            && multiset(EntriesOf(w2, accountId))[WishlistEntry(accountId, bookId)] == 1
  {
    AddTwice(wish, WishlistEntry(accountId, bookId));
  }

  class WishlistService {
    const wishlistRepo: WishlistRepository
    const bookRepo: BookRepo.BookRepository

    constructor(wishlistRepo: WishlistRepository, bookRepo: BookRepo.BookRepository)
      ensures this.wishlistRepo == wishlistRepo && this.bookRepo == bookRepo
    {
      this.wishlistRepo := wishlistRepo;
      this.bookRepo := bookRepo;
    }

    method GetUserWishlist(accountId: int) returns (books: seq<BookModel.Book>)
      requires wishlistRepo.Valid() && bookRepo.Valid()
      ensures books == UserWishlist(bookRepo.Table(), wishlistRepo.Table(), accountId)
    {
      var entries := wishlistRepo.GetByUser(accountId);
      ghost var catalogue := bookRepo.Table();
      books := [];
      var i := 0;
      while i < |entries|
        invariant 0 <= i <= |entries|
        invariant books == WishlistBooks(catalogue, entries[..i])
      {
        var book := bookRepo.GetById(entries[i].bookId);
        WishlistBooksStep(catalogue, entries, i);
        if book.Some? {
          books := books + [book.value];
        }
        i := i + 1;
      }
      assert entries[..i] == entries;
    }

    method AddToWishlist(accountId: int, bookId: int, fault: bool) returns (ok: bool)
      requires wishlistRepo.Valid() && bookRepo.Valid()
      modifies wishlistRepo
      ensures (ok, wishlistRepo.Table()) == AddToWishlistResult(bookRepo.Table(), old(wishlistRepo.Table()), accountId, bookId, fault)
      ensures wishlistRepo.Valid()
    {
      var book := bookRepo.GetById(bookId);
      if book.None? {
        return false;
      }
      ok := wishlistRepo.Create(WishlistEntry(accountId, bookId), fault);
    }
  }
}
