/**
 * WishlistRepository over an in-memory Wishlist table. `create` looks for the
 * (account_id, book_id) pair and inserts only when it is absent.
 */
module WishlistRepo {
  import opened Store
  import opened WishlistModel

  /** The Wishlist table: its rows in table order (it has no generated id). */
  datatype WishlistTable = WishlistTable(rows: seq<Row>) {
    ghost predicate Valid() {
      forall k :: 0 <= k < |rows| ==> IsWishlistRow(rows[k]) && |rows[k]| == 2
    }
  }

  /** `WHERE account_id = ?` */
  function ByAccount(accountId: int): Cond {
    Eq(0, Integer(accountId))
  }

  /** `WHERE account_id = ? AND book_id = ?` */
  function ByPair(accountId: int, bookId: int): Cond {
    And(Eq(0, Integer(accountId)), Eq(1, Integer(bookId)))
  }

  /** Every entry of the table, in table order. */
  function Entries(t: WishlistTable): seq<WishlistEntry>
    requires t.Valid()
  {
    FromDbRows(t.rows)
  }

  /** No entry is stored twice. */
  ghost predicate NoDuplicates(t: WishlistTable)
    requires t.Valid()
  {
    forall j, k :: 0 <= j < k < |t.rows| ==> FromDbRow(t.rows[j]) != FromDbRow(t.rows[k])
  }

  /** The entries of `entries` that belong to account `accountId`, in their order. */
  function OfAccount(entries: seq<WishlistEntry>, accountId: int): (r: seq<WishlistEntry>)
    ensures |r| <= |entries|
    ensures forall k :: 0 <= k < |r| ==> r[k] in entries && r[k].accountId == accountId
  {
    if entries == [] then []
    else
      var last := entries[|entries| - 1];
      var init := OfAccount(entries[..|entries| - 1], accountId);
      if last.accountId == accountId then init + [last] else init
  }

  /** One more entry at the end is kept exactly when it belongs to the account. */
  lemma OfAccountSnoc(entries: seq<WishlistEntry>, e: WishlistEntry, accountId: int)
    ensures OfAccount(entries + [e], accountId)
            == if e.accountId == accountId then OfAccount(entries, accountId) + [e] else OfAccount(entries, accountId)
  {
    assert (entries + [e])[..|entries|] == entries;
  }

  /** The filter keeps every entry of the account and nothing else. */
  lemma {:induction false} OfAccountMembers(entries: seq<WishlistEntry>, accountId: int)
    ensures forall e :: e in OfAccount(entries, accountId) <==> e in entries && e.accountId == accountId
    decreases |entries|
  {
    if entries != [] {
      var init := entries[..|entries| - 1];
      var last := entries[|entries| - 1];
      assert entries == init + [last];
      OfAccountMembers(init, accountId);
      OfAccountSnoc(init, last, accountId);
    }
  }

  /** Reading the rows `WHERE account_id = ?` selects is filtering the entries read from all rows. */
  lemma {:induction false} SelectByAccount(rows: seq<Row>, accountId: int)
    requires forall k :: 0 <= k < |rows| ==> IsWishlistRow(rows[k])
    ensures forall k :: 0 <= k < |Selected(rows, ByAccount(accountId))| ==> IsWishlistRow(Selected(rows, ByAccount(accountId))[k])
    ensures FromDbRows(Selected(rows, ByAccount(accountId))) == OfAccount(FromDbRows(rows), accountId)
    decreases |rows|
  {
    var c := ByAccount(accountId);
    SelectedWishlistRows(rows, c);
    if rows != [] {
      var init := rows[..|rows| - 1];
      var last := rows[|rows| - 1];
      assert rows == init + [last];
      SelectByAccount(init, accountId);
      FromDbRowsAppend(init, last);
      OfAccountSnoc(FromDbRows(init), FromDbRow(last), accountId);
      assert Holds(c, last) <==> FromDbRow(last).accountId == accountId;
      if Holds(c, last) {
        SelectedWishlistRows(init, c);
        FromDbRowsAppend(Selected(init, c), last);
      }
    }
  }

  /** `get_by_user`: exactly the entries of one account, in table order. */
  function EntriesOf(t: WishlistTable, accountId: int): (entries: seq<WishlistEntry>)
    requires t.Valid()
    ensures entries == OfAccount(Entries(t), accountId)
    ensures forall k :: 0 <= k < |entries| ==> entries[k].accountId == accountId
    ensures forall e :: e in entries <==> e in Entries(t) && e.accountId == accountId
  {
    SelectByAccount(t.rows, accountId);
    OfAccountMembers(Entries(t), accountId);
    FromDbRows(Selected(t.rows, ByAccount(accountId)))
  }

  /**
   * `create`: the outcome and the table afterwards. A storage error or an
   * entry already present (same account and same book) gives False and changes
   * nothing; otherwise the entry is appended.
   */
  function CreateResult(t: WishlistTable, entry: WishlistEntry, fault: bool): (r: (bool, WishlistTable))
    requires t.Valid()
    ensures r.1.Valid()
    ensures r.0 <==> !fault && entry !in Entries(t)
    ensures r.0 ==> r.1 == WishlistTable(t.rows + [StoredRow(entry)])
    ensures !r.0 ==> r.1 == t
  {
    assert forall k :: 0 <= k < |t.rows| ==>
      (Holds(ByPair(entry.accountId, entry.bookId), t.rows[k]) <==> FromDbRow(t.rows[k]) == entry);
    if fault || FetchOne(t.rows, ByPair(entry.accountId, entry.bookId)).Some? then (false, t)
    else (true, WishlistTable(t.rows + [StoredRow(entry)]))
  }

  class WishlistRepository {
    var rows: seq<Row>

    function Table(): WishlistTable
      reads this
    {
      WishlistTable(rows)
    }

    ghost predicate Valid()
      reads this
    {
      Table().Valid()
    }

    /** A repository over a Wishlist table that already holds `t`. */
    constructor(t: WishlistTable)
      requires t.Valid()
      ensures Valid() && Table() == t
    {
      rows := t.rows;
    }

    method GetByUser(accountId: int) returns (entries: seq<WishlistEntry>)
      requires Valid()
      ensures entries == EntriesOf(Table(), accountId)
    {
      var rs := Select(rows, ByAccount(accountId));
      forall k | 0 <= k < |rs| ensures IsWishlistRow(rs[k]) {
        SelectedMembers(rows, ByAccount(accountId), rs[k]);
      }
      entries := FromDbRows(rs);
    }

    method Create(entry: WishlistEntry, fault: bool) returns (ok: bool)
      requires Valid()
      modifies this
      ensures (ok, Table()) == CreateResult(old(Table()), entry, fault)
      ensures Valid()
    {
      if fault {
        return false;
      }
      var existing := SelectOne(rows, ByPair(entry.accountId, entry.bookId));
      if existing.Some? {
        return false;
      }
      rows := rows + [StoredRow(entry)];
      ok := true;
    }
  }

  /** `create` never stores an entry twice. */
  lemma CreatePreservesNoDuplicates(t: WishlistTable, entry: WishlistEntry, fault: bool)
    requires t.Valid() && NoDuplicates(t)
    ensures NoDuplicates(CreateResult(t, entry, fault).1)
  {
    var r := CreateResult(t, entry, fault);
    if r.0 {
      var n := |t.rows|;
      forall j, k | 0 <= j < k < |r.1.rows| ensures FromDbRow(r.1.rows[j]) != FromDbRow(r.1.rows[k]) {
        assert r.1.rows[j] == t.rows[j];
        if k == n {
          ReadStoredRow(entry);
          assert Entries(t)[j] == FromDbRow(t.rows[j]);
        } else {
          assert r.1.rows[k] == t.rows[k];
        }
      }
    }
  }

  lemma {:induction false} CountDistinct(s: seq<WishlistEntry>, e: WishlistEntry)
    requires forall j, k :: 0 <= j < k < |s| ==> s[j] != s[k]
    ensures multiset(s)[e] == if e in s then 1 else 0
  {
    if s != [] {
      assert s == [s[0]] + s[1..];
      CountDistinct(s[1..], e);
    }
  }

  /** An account's own entry occurs in `get_by_user` as often as in the whole table. */
  lemma CountInEntriesOf(t: WishlistTable, e: WishlistEntry)
    requires t.Valid()
    ensures multiset(EntriesOf(t, e.accountId))[e] == multiset(Entries(t))[e]
  {
    CountInSelection(t.rows, e);
  }

  lemma SelectedWishlistRows(rows: seq<Row>, c: Cond)
    requires forall k :: 0 <= k < |rows| ==> IsWishlistRow(rows[k])
    ensures forall k :: 0 <= k < |Selected(rows, c)| ==> IsWishlistRow(Selected(rows, c)[k])
  {
    forall k | 0 <= k < |Selected(rows, c)| ensures IsWishlistRow(Selected(rows, c)[k]) {
      SelectedMembers(rows, c, Selected(rows, c)[k]);
    }
  }

  lemma {:induction false} CountInSelection(rows: seq<Row>, e: WishlistEntry)
    requires forall k :: 0 <= k < |rows| ==> IsWishlistRow(rows[k])
    ensures forall k :: 0 <= k < |Selected(rows, ByAccount(e.accountId))| ==> IsWishlistRow(Selected(rows, ByAccount(e.accountId))[k])
    ensures multiset(FromDbRows(Selected(rows, ByAccount(e.accountId))))[e] == multiset(FromDbRows(rows))[e]
  {
    var c := ByAccount(e.accountId);
    SelectedWishlistRows(rows, c);
    if rows != [] {
      var init := rows[..|rows| - 1];
      var last := rows[|rows| - 1];
      assert rows == init + [last];
      CountInSelection(init, e);
      var sel := Selected(init, c);
      var all := FromDbRows(init);
      var picked := FromDbRows(sel);
      var x := FromDbRow(last);
      FromDbRowsAppend(init, last);
      assert FromDbRows(rows) == all + [x];
      assert multiset(FromDbRows(rows))[e] == multiset(all)[e] + (if x == e then 1 else 0);
      SelectedAppend(init, last, c);
      if Holds(c, last) {
        FromDbRowsAppend(sel, last);
        assert FromDbRows(Selected(rows, c)) == picked + [x];
        assert multiset(FromDbRows(Selected(rows, c)))[e] == multiset(picked)[e] + (if x == e then 1 else 0);
      } else {
        assert Selected(rows, c) == sel;
        assert x != e;
      }
    }
  }

  /**
   * Adding the same (account, book) twice: the second call returns False, and
   * `get_by_user` then lists that book exactly once for the account.
   */
  lemma AddTwice(t: WishlistTable, entry: WishlistEntry)
    requires t.Valid() && NoDuplicates(t)
    ensures var (ok1, t1) := CreateResult(t, entry, false);
            var (ok2, t2) := CreateResult(t1, entry, false);
            ok1 == (entry !in Entries(t)) && !ok2 && t2 == t1
            && multiset(EntriesOf(t2, entry.accountId))[entry] == 1
  {
    var (ok1, t1) := CreateResult(t, entry, false);
    CreatePreservesNoDuplicates(t, entry, false);
    if ok1 {
      ReadStoredRow(entry);
      assert Entries(t1)[|t.rows|] == entry;
    }
    assert entry in Entries(t1);
    CountInEntriesOf(t1, entry);
    CountDistinct(Entries(t1), entry);
  }
}
