/**
 * An in-memory stand-in for a SQLite table: rows of typed cells, kept in rowid
 * (insertion) order, and the two ways the repositories read them, `fetchall`
 * and `fetchone` after a `SELECT * ... WHERE ...` built from `column = ?` tests.
 */
module Store {
  import opened Wrappers

  /** One value in a row, by SQLite storage class. */
  datatype Cell = Integer(i: int) | Real(r: real) | Text(s: string) | Null

  /** A row, positionally, in the table's column order. */
  type Row = seq<Cell>

  /** Column `k` of a row; reading past the end gives NULL. */
  function Col(row: Row, k: nat): Cell {
    if k < |row| then row[k] else Null
  }

  /** The value of an INTEGER PRIMARY KEY in column 0 (0 for a row without one). */
  function RowId(row: Row): int {
    if Col(row, 0).Integer? then Col(row, 0).i else 0
  }

  predicate IsNumeric(c: Cell) {
    c.Integer? || c.Real?
  }

  /** Python's `float(...)` applied to a numeric cell: the same number, by SQL's own comparison. */
  function ToFloat(c: Cell): (x: real)
    requires IsNumeric(c)
    ensures SqlEquals(c, Real(x))
  {
    if c.Integer? then c.i as real else c.r
  }

  /**
   * SQL `=` between two cells: NULL is equal to nothing, integers and reals
   * compare as numbers, text compares byte for byte (the BINARY collation).
   */
  predicate SqlEquals(a: Cell, b: Cell) {
    match (a, b)
    case (Integer(x), Integer(y)) => x == y
    case (Integer(x), Real(y)) => x as real == y
    case (Real(x), Integer(y)) => x == y as real
    case (Real(x), Real(y)) => x == y
    case (Text(x), Text(y)) => x == y
    case _ => false
  }

  /** A WHERE clause; `Always` is a SELECT without one. */
  datatype Cond =
    | Always
    | Eq(col: nat, value: Cell)
    | And(left: Cond, right: Cond)
    | Or(left: Cond, right: Cond)

  predicate Holds(c: Cond, row: Row) {
    match c
    case Always => true
    case Eq(k, v) => SqlEquals(Col(row, k), v)
    case And(l, r) => Holds(l, row) && Holds(r, row)
    case Or(l, r) => Holds(l, row) || Holds(r, row)
  }

  /** The rows `SELECT * ... WHERE c` yields, in table order. */
  function Selected(rows: seq<Row>, c: Cond): seq<Row> {
    if rows == [] then []
    else
      var init := Selected(rows[..|rows| - 1], c);
      if Holds(c, rows[|rows| - 1]) then init + [rows[|rows| - 1]] else init
  }

  /** The position of the first row satisfying `c`, if any. */
  function FirstIndex(rows: seq<Row>, c: Cond): (k: Option<nat>)
    ensures k.Some? ==> k.value < |rows| && Holds(c, rows[k.value])
    ensures k.Some? ==> forall j :: 0 <= j < k.value ==> !Holds(c, rows[j])
    ensures k.None? <==> forall j :: 0 <= j < |rows| ==> !Holds(c, rows[j])
  {
    if rows == [] then None
    else if Holds(c, rows[0]) then Some(0)
    else
      match FirstIndex(rows[1..], c)
      case None => None
      case Some(k) => Some(k + 1)
  }

  /** What `cursor.fetchone()` returns after `SELECT * ... WHERE c`. */
  function FetchOne(rows: seq<Row>, c: Cond): Option<Row> {
    match FirstIndex(rows, c)
    case None => None
    case Some(k) => Some(rows[k])
  }

  /** `cursor.fetchall()`: scans the table and keeps the rows that satisfy `c`. */
  method Select(rows: seq<Row>, c: Cond) returns (result: seq<Row>)
    ensures result == Selected(rows, c)
  {
    result := [];
    var i := 0;
    while i < |rows|
      invariant 0 <= i <= |rows|
      invariant result == Selected(rows[..i], c)
    {
      assert rows[..i + 1][..i] == rows[..i];
      if Holds(c, rows[i]) {
        result := result + [rows[i]];
      }
      i := i + 1;
    }
    assert rows[..i] == rows;
  }

  /** `cursor.fetchone()`: scans the table up to the first row that satisfies `c`. */
  method SelectOne(rows: seq<Row>, c: Cond) returns (result: Option<Row>)
    ensures result == FetchOne(rows, c)
  {
    var i := 0;
    while i < |rows|
      invariant 0 <= i <= |rows|
      invariant forall j :: 0 <= j < i ==> !Holds(c, rows[j])
    {
      if Holds(c, rows[i]) {
        return Some(rows[i]);
      }
      i := i + 1;
    }
    return None;
  }

  /** A row is selected exactly when it is in the table and satisfies the condition. */
  lemma {:induction false} SelectedMembers(rows: seq<Row>, c: Cond, row: Row)
    ensures row in Selected(rows, c) <==> row in rows && Holds(c, row)
  {
    if rows != [] {
      var init := rows[..|rows| - 1];
      SelectedMembers(init, c, row);
      assert rows == init + [rows[|rows| - 1]];
    }
  }

  /** A selection never has more rows than the table. */
  lemma {:induction false} SelectedLength(rows: seq<Row>, c: Cond)
    ensures |Selected(rows, c)| <= |rows|
  {
    if rows != [] {
      SelectedLength(rows[..|rows| - 1], c);
    }
  }

  /** Selecting from an appended row adds that row at the end when it matches. */
  lemma SelectedAppend(rows: seq<Row>, row: Row, c: Cond)
    ensures Selected(rows + [row], c)
         == Selected(rows, c) + (if Holds(c, row) then [row] else [])
  {
    assert (rows + [row])[..|rows|] == rows;
  }

  /**
   * Table order is kept: the matches among earlier rows come before the
   * matches among later rows.
   */
  lemma {:induction false} SelectedConcat(front: seq<Row>, back: seq<Row>, c: Cond)
    ensures Selected(front + back, c) == Selected(front, c) + Selected(back, c)
  {
    if back == [] {
      assert front + back == front;
    } else {
      var last := back[|back| - 1];
      var init := back[..|back| - 1];
      SelectedConcat(front, init, c);
      assert front + back == (front + init) + [last];
      SelectedAppend(front + init, last, c);
      SelectedAppend(init, last, c);
      assert back == init + [last];
    }
  }

  /** Without a WHERE clause every row is returned, in order. */
  lemma {:induction false} SelectedAlways(rows: seq<Row>)
    ensures Selected(rows, Always) == rows
  {
    if rows != [] {
      SelectedAlways(rows[..|rows| - 1]);
      assert rows == rows[..|rows| - 1] + [rows[|rows| - 1]];
    }
  }

  /** `fetchone` gives the first row `fetchall` would give. */
  lemma {:induction false} FetchOneIsFirstSelected(rows: seq<Row>, c: Cond)
    ensures FetchOne(rows, c) == if Selected(rows, c) == [] then None else Some(Selected(rows, c)[0])
  {
    if rows == [] {
    } else if Holds(c, rows[0]) {
      SelectedConcat([rows[0]], rows[1..], c);
      assert [rows[0]] + rows[1..] == rows;
      assert Selected([rows[0]], c) == [rows[0]] by {
        assert [rows[0]][..0] == [];
      }
    } else {
      var tail := rows[1..];
      FetchOneIsFirstSelected(tail, c);
      SelectedConcat([rows[0]], tail, c);
      assert [rows[0]] + tail == rows;
      assert Selected([rows[0]], c) == [] by {
        assert [rows[0]][..0] == [];
      }
      assert Selected(rows, c) == Selected(tail, c);
      assert FetchOne(rows, c) == FetchOne(tail, c) by {
        match FirstIndex(tail, c)
        case None =>
        case Some(k) =>
          assert FirstIndex(rows, c) == Some(k + 1);
          assert rows[k + 1] == tail[k];
      }
    }
  }

  /** Appending a row that does not match leaves the first match where it was. */
  lemma FetchOneAppendOther(rows: seq<Row>, row: Row, c: Cond)
    requires !Holds(c, row) || FetchOne(rows, c).Some?
    ensures FetchOne(rows + [row], c) == FetchOne(rows, c)
  {
    FetchOneIsFirstSelected(rows, c);
    FetchOneIsFirstSelected(rows + [row], c);
    SelectedAppend(rows, row, c);
  }

  /** Appending the first matching row makes it the answer of `fetchone`. */
  lemma FetchOneAppendFirst(rows: seq<Row>, row: Row, c: Cond)
    requires Holds(c, row) && FetchOne(rows, c).None?
    ensures FetchOne(rows + [row], c) == Some(row)
  {
    FetchOneIsFirstSelected(rows, c);
    FetchOneIsFirstSelected(rows + [row], c);
    SelectedAppend(rows, row, c);
  }
}
