/**
 * BookRepository over an in-memory Book table. `create` looks for a book with
 * the same title and author and inserts only when there is none.
 */
module BookRepo {
  import opened Wrappers
  import opened Store
  import opened BookModel

  /** The Book table: its rows in table order and the AUTOINCREMENT high-water mark. */
  datatype BookTable = BookTable(rows: seq<Row>, lastId: nat) {
    /** Every row holds a book with an id in 1..lastId; ids increase in table order. */
    ghost predicate Valid() {
      && (forall k :: 0 <= k < |rows| ==> IsBookRow(rows[k]) && rows[k][0].Integer? && 1 <= RowId(rows[k]) <= lastId)
      && (forall j, k :: 0 <= j < k < |rows| ==> RowId(rows[j]) < RowId(rows[k]))
    }
  }

  /** `WHERE id = ?` */
  function ById(id: int): Cond {
    Eq(0, Integer(id))
  }

  /** `WHERE title = ? AND author = ?` */
  function ByTitleAuthor(title: string, author: string): Cond {
    And(Eq(1, Text(title)), Eq(2, Text(author)))
  }

  /** Some stored book has this title and this author. */
  ghost predicate HasTitleAuthor(t: BookTable, title: string, author: string)
    requires t.Valid()
  {
    exists k :: 0 <= k < |t.rows| && FromDbRow(t.rows[k]).title == title && FromDbRow(t.rows[k]).author == author
  }

  /** No two stored books share a (title, author) pair. */
  ghost predicate DistinctTitleAuthor(t: BookTable)
    requires t.Valid()
  {
    forall j, k :: 0 <= j < k < |t.rows| ==>
      !(FromDbRow(t.rows[j]).title == FromDbRow(t.rows[k]).title
        && FromDbRow(t.rows[j]).author == FromDbRow(t.rows[k]).author)
  }

  lemma TitleAuthorMatch(t: BookTable, title: string, author: string)
    requires t.Valid()
    ensures forall k :: 0 <= k < |t.rows| ==>
      (Holds(ByTitleAuthor(title, author), t.rows[k]) <==> FromDbRow(t.rows[k]).title == title && FromDbRow(t.rows[k]).author == author)
  {
  }

  /** `get_by_id`: the book stored under `id`, or None when no row has that id. */
  function BookWithId(t: BookTable, id: int): (b: Option<Book>)
    requires t.Valid()
    ensures b.None? <==> forall k :: 0 <= k < |t.rows| ==> RowId(t.rows[k]) != id
    ensures forall k :: 0 <= k < |t.rows| && RowId(t.rows[k]) == id ==> b == Some(FromDbRow(t.rows[k]))
    ensures b.Some? ==> b.value.id == Some(id)
  {
    match FetchOne(t.rows, ById(id))
    case None => None
    case Some(row) => Some(FromDbRow(row))
  }

  /** `get_all`: one book per stored row, in table order. */
  function AllBooks(t: BookTable): (books: seq<Book>)
    requires t.Valid()
    ensures |books| == |t.rows|
    ensures forall k :: 0 <= k < |t.rows| ==> books[k] == FromDbRow(t.rows[k])
  {
    SelectedAlways(t.rows);
    FromDbRows(Selected(t.rows, Always))
  }

  /**
   * `create`: the outcome and the table afterwards. A storage error (`fault`)
   * or a stored book with the same title and author gives False and leaves the
   * table as it was; otherwise the book is appended under the next id.
   */
  function CreateResult(t: BookTable, book: Book, fault: bool): (r: (bool, BookTable))
    requires t.Valid()
    ensures r.1.Valid()
    ensures r.0 <==> !fault && !HasTitleAuthor(t, book.title, book.author)
    ensures r.0 ==> r.1 == BookTable(t.rows + [StoredRow(t.lastId + 1, book)], t.lastId + 1)
    ensures !r.0 ==> r.1 == t
  {
    TitleAuthorMatch(t, book.title, book.author);
    if fault || FetchOne(t.rows, ByTitleAuthor(book.title, book.author)).Some? then (false, t)
    else (true, BookTable(t.rows + [StoredRow(t.lastId + 1, book)], t.lastId + 1))
  }

  class BookRepository {
    var rows: seq<Row>
    var lastId: nat

    function Table(): BookTable
      reads this
    {
      BookTable(rows, lastId)
    }

    ghost predicate Valid()
      reads this
    {
      Table().Valid()
    }

    /** A repository over a Book table that already holds `t`. */
    constructor(t: BookTable)
      requires t.Valid()
      ensures Valid() && Table() == t
    {
      rows := t.rows;
      lastId := t.lastId;
    }

    method GetById(id: int) returns (b: Option<Book>)
      requires Valid()
      ensures b == BookWithId(Table(), id)
    {
      var row := SelectOne(rows, ById(id));
      if row.Some? {
        b := Some(FromDbRow(row.value));
      } else {
        b := None;
      }
    }

    method GetAll() returns (books: seq<Book>)
      requires Valid()
      ensures books == AllBooks(Table())
    {
      var all := Select(rows, Always);
      SelectedAlways(rows);
      books := FromDbRows(all);
    }

    method Create(book: Book, fault: bool) returns (ok: bool)
      requires Valid()
      modifies this
      ensures (ok, Table()) == CreateResult(old(Table()), book, fault)
      ensures Valid()
    {
      if fault {
        // sqlite3.Error raised inside the block: caught, nothing committed
        return false;
      }
      var existing := SelectOne(rows, ByTitleAuthor(book.title, book.author));
      if existing.Some? {
        return false;
      }
      rows := rows + [StoredRow(lastId + 1, book)];
      lastId := lastId + 1;
      ok := true;
    }
  }

  /** A successful `create` is read back by `get_by_id` under the new id, field for field. */
  lemma CreateThenGet(t: BookTable, book: Book)
    requires t.Valid()
    requires CreateResult(t, book, false).0
    ensures BookWithId(CreateResult(t, book, false).1, t.lastId + 1) == Some(book.(id := Some(t.lastId + 1)))
  {
    var t' := CreateResult(t, book, false).1;
    assert RowId(t'.rows[|t.rows|]) == t.lastId + 1;
    ReadStoredRow(t.lastId + 1, book);
  }

  /** `create` keeps (title, author) pairs distinct. */
  lemma CreatePreservesDistinct(t: BookTable, book: Book, fault: bool)
    requires t.Valid() && DistinctTitleAuthor(t)
    ensures DistinctTitleAuthor(CreateResult(t, book, fault).1)
  {
    var r := CreateResult(t, book, fault);
    if r.0 {
      var n := |t.rows|;
      forall j, k | 0 <= j < k < |r.1.rows|
        ensures !(FromDbRow(r.1.rows[j]).title == FromDbRow(r.1.rows[k]).title
                  && FromDbRow(r.1.rows[j]).author == FromDbRow(r.1.rows[k]).author)
      {
        if k == n {
          ReadStoredRow(t.lastId + 1, book);
          assert r.1.rows[j] == t.rows[j];
        } else {
          assert r.1.rows[j] == t.rows[j] && r.1.rows[k] == t.rows[k];
        }
      }
    }
  }

  /**
   * Creating the same (title, author) twice: True, then False, and exactly one
   * row of the table has that title and author.
   */
  lemma CreateTwice(t: BookTable, first: Book, second: Book)
    requires t.Valid() && !HasTitleAuthor(t, first.title, first.author)
    requires second.title == first.title && second.author == first.author
    ensures var (ok1, t1) := CreateResult(t, first, false);
            var (ok2, t2) := CreateResult(t1, second, false);
            ok1 && !ok2 && t2 == t1
            && |Selected(t2.rows, ByTitleAuthor(first.title, first.author))| == 1
  {
    var c := ByTitleAuthor(first.title, first.author);
    var (ok1, t1) := CreateResult(t, first, false);
    ReadStoredRow(t.lastId + 1, first);
    assert FromDbRow(t1.rows[|t.rows|]) == first.(id := Some(t.lastId + 1));
    TitleAuthorMatch(t, first.title, first.author);
    assert Selected(t.rows, c) == [] by {
      if Selected(t.rows, c) != [] {
        SelectedMembers(t.rows, c, Selected(t.rows, c)[0]);
      }
    }
    SelectedAppend(t.rows, StoredRow(t.lastId + 1, first), c);
  }
}
