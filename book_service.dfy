/**
 * BookService: lookups passed through to the repository, and `add_book`,
 * which rejects a blank title or author and stores both stripped.
 */
module BookSvc {
  import opened Wrappers
  import opened Text
  import opened Store
  import opened BookModel
  import opened BookRepo

  /** The book `add_book` hands to the repository. */
  function NewBook(title: string, author: string): Book {
    Book(None, Strip(title), Strip(author), 0.0)
  }

  /**
   * `add_book` on a Book table: the outcome and the table afterwards. A blank
   * title or author gives False without reaching the repository.
   */
  function AddBookResult(t: BookTable, title: string, author: string, fault: bool): (r: (bool, BookTable))
    requires t.Valid()
    ensures r.1.Valid()
    ensures IsBlank(title) || IsBlank(author) ==> r == (false, t)
    ensures r.0 <==> !IsBlank(title) && !IsBlank(author) && !fault
                     && !HasTitleAuthor(t, Strip(title), Strip(author))
    ensures r.0 ==> r.1 == BookTable(t.rows + [StoredRow(t.lastId + 1, NewBook(title, author))], t.lastId + 1)
    ensures !r.0 ==> r.1 == t
  {
    if IsBlank(title) || IsBlank(author) then (false, t)
    else CreateResult(t, NewBook(title, author), fault)
  }

  /** Every stored book has a non-blank, already stripped title and author and a zero rating. */
  ghost predicate Normalised(t: BookTable)
    requires t.Valid()
  {
    forall k :: 0 <= k < |t.rows| ==>
      var b := FromDbRow(t.rows[k]);
      !IsBlank(b.title) && Strip(b.title) == b.title
      && !IsBlank(b.author) && Strip(b.author) == b.author
      && b.ratingAvg == 0.0
  }

  /** What `add_book` stores: the stripped title and author, rating 0, under the next id. */
  lemma AddBookStoresStripped(t: BookTable, title: string, author: string, fault: bool)
    requires t.Valid() && AddBookResult(t, title, author, fault).0
    ensures var t' := AddBookResult(t, title, author, fault).1;
            |t'.rows| == |t.rows| + 1
            && FromDbRow(t'.rows[|t.rows|]) == Book(Some(t.lastId + 1), Strip(title), Strip(author), 0.0)
            && !IsBlank(Strip(title)) && !IsBlank(Strip(author))
            && Strip(Strip(title)) == Strip(title) && Strip(Strip(author)) == Strip(author)
  {
    ReadStoredRow(t.lastId + 1, NewBook(title, author));
    StripIdempotent(title);
    StripIdempotent(author);
  }

  /** A table filled only through `add_book` keeps every book normalised. */
  lemma AddBookPreservesNormalised(t: BookTable, title: string, author: string, fault: bool)
    requires t.Valid() && Normalised(t)
    ensures Normalised(AddBookResult(t, title, author, fault).1)
  {
    var r := AddBookResult(t, title, author, fault);
    if r.0 {
      AddBookStoresStripped(t, title, author, fault);
      forall k | 0 <= k < |r.1.rows|
        ensures var b := FromDbRow(r.1.rows[k]);
                !IsBlank(b.title) && Strip(b.title) == b.title
                && !IsBlank(b.author) && Strip(b.author) == b.author
                && b.ratingAvg == 0.0
      {
        if k < |t.rows| {
          assert r.1.rows[k] == t.rows[k];
        }
      }
    }
  }

  /**
   * Whitespace around the title or the author does not matter: padded and
   * unpadded input give the same outcome and the same table, so they count
   * as the same book.
   */
  lemma AddBookIgnoresPadding(t: BookTable, title: string, author: string, w1: string, w2: string, w3: string, w4: string, fault: bool)
    requires t.Valid()
    requires AllSpace(w1) && AllSpace(w2) && AllSpace(w3) && AllSpace(w4)
    ensures AddBookResult(t, w1 + title + w2, w3 + author + w4, fault) == AddBookResult(t, title, author, fault)
  {
    StripIgnoresPadding(w1, title, w2);
    StripIgnoresPadding(w3, author, w4);
  }

  class BookService {
    const repo: BookRepository

    constructor(repo: BookRepository)
      ensures this.repo == repo
    {
      this.repo := repo;
    }

    method GetBook(bookId: int) returns (b: Option<Book>)
      requires repo.Valid()
      ensures b == BookWithId(repo.Table(), bookId)
    {
      b := repo.GetById(bookId);
    }

    method GetAllBooks() returns (books: seq<Book>)
      requires repo.Valid()
      ensures books == AllBooks(repo.Table())
    {
      books := repo.GetAll();
    }

    method AddBook(title: string, author: string, fault: bool) returns (ok: bool)
      requires repo.Valid()
      modifies repo
      ensures (ok, repo.Table()) == AddBookResult(old(repo.Table()), title, author, fault)
      ensures repo.Valid()
    {
      if Strip(title) == [] || Strip(author) == [] {
        return false;
      }
      ok := repo.Create(Book(None, Strip(title), Strip(author), 0.0), fault);
    }
  }
}
