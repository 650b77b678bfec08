/**
 * The ORDER BY clauses getAllWalks passes to SQLite: `_id ASC`, `_id DESC`,
 * `name ASC`, `name DESC`, or none at all for any other sort value.
 */
module Query {
  import JavaStrings
  import opened Store

  const DateAscending: int := 0
  const DateDescending: int := 1
  const NameAscending: int := 2
  const NameDescending: int := 3

  function Reverse<T>(s: seq<T>): (r: seq<T>)
    ensures |r| == |s| && forall i :: 0 <= i < |s| ==> r[i] == s[|s| - 1 - i]
  {
    if s == [] then [] else Reverse(s[1..]) + [s[0]]
  }

  lemma {:induction false} ReverseSameRows<T>(s: seq<T>)
    ensures multiset(Reverse(s)) == multiset(s)
  {
    if s != [] {
      ReverseSameRows(s[1..]);
      assert s == [s[0]] + s[1..];
    }
  }

  /** Whether `a` may come before `b` under `name ASC` (or `name DESC`). */
  predicate NameBefore(a: WalkRow, b: WalkRow, descending: bool)
  {
    if descending then JavaStrings.NameLe(b.name, a.name) else JavaStrings.NameLe(a.name, b.name)
  }

  predicate OrderedByName(s: seq<WalkRow>, descending: bool)
  {
    forall i, j :: 0 <= i < j < |s| ==> NameBefore(s[i], s[j], descending)
  }

  lemma NameBeforeTotal(a: WalkRow, b: WalkRow, descending: bool)
    ensures NameBefore(a, b, descending) || NameBefore(b, a, descending)
  {
    JavaStrings.NameLeTotal(a.name, b.name);
  }

  lemma NameBeforeTransitive(a: WalkRow, b: WalkRow, c: WalkRow, descending: bool)
    requires NameBefore(a, b, descending) && NameBefore(b, c, descending)
    ensures NameBefore(a, c, descending)
  {
    if descending {
      JavaStrings.NameLeTransitive(c.name, b.name, a.name);
    } else {
      JavaStrings.NameLeTransitive(a.name, b.name, c.name);
    }
  }

  /** Puts `x` in front of the first row it may precede, so ahead of any row with the same name. */
  function InsertRow(x: WalkRow, s: seq<WalkRow>, descending: bool): (r: seq<WalkRow>)
    ensures multiset(r) == multiset(s) + multiset{x} && |r| == |s| + 1
  {
    if s == [] || NameBefore(x, s[0], descending) then [x] + s
    else
      assert s == [s[0]] + s[1..];
      [s[0]] + InsertRow(x, s[1..], descending)
  }

  /** A sort on the name column; rows with equal names stay in rowid order. */
  function SortRows(s: seq<WalkRow>, descending: bool): (r: seq<WalkRow>)
    ensures multiset(r) == multiset(s) && |r| == |s|
  {
    if s == [] then []
    else
      assert s == [s[0]] + s[1..];
      InsertRow(s[0], SortRows(s[1..], descending), descending)
  }

  /** A row that may precede every row of an ordered list may head it. */
  lemma PrependOrdered(x: WalkRow, s: seq<WalkRow>, descending: bool)
    requires OrderedByName(s, descending)
    requires forall j :: 0 <= j < |s| ==> NameBefore(x, s[j], descending)
    ensures OrderedByName([x] + s, descending)
  {
    var r := [x] + s;
    forall i, j | 0 <= i < j < |r| ensures NameBefore(r[i], r[j], descending) {
      assert r[j] == s[j - 1];
      if i > 0 {
        assert r[i] == s[i - 1];
      }
    }
  }

  lemma {:induction false} InsertRowOrdered(x: WalkRow, s: seq<WalkRow>, descending: bool)
    requires OrderedByName(s, descending)
    ensures OrderedByName(InsertRow(x, s, descending), descending)
  {
    if s == [] || NameBefore(x, s[0], descending) {
      forall j | 0 <= j < |s| ensures NameBefore(x, s[j], descending) {
        if j > 0 {
          NameBeforeTransitive(x, s[0], s[j], descending);
        }
      }
      PrependOrdered(x, s, descending);
    } else {
      NameBeforeTotal(x, s[0], descending);
      InsertRowOrdered(x, s[1..], descending);
      var rest := InsertRow(x, s[1..], descending);
      forall j | 0 <= j < |rest| ensures NameBefore(s[0], rest[j], descending) {
        assert rest[j] in multiset(s[1..]) + multiset{x};
        if rest[j] != x {
          assert rest[j] in s[1..];
        }
      }
      PrependOrdered(s[0], rest, descending);
    }
  }

  lemma {:induction false} SortRowsOrdered(s: seq<WalkRow>, descending: bool)
    ensures OrderedByName(SortRows(s, descending), descending)
  {
    if s != [] {
      SortRowsOrdered(s[1..], descending);
      InsertRowOrdered(s[0], SortRows(s[1..], descending), descending);
    }
  }

  /** The rows a `select * from walks order by ...` returns, in order. */
  function OrderedRows(rows: seq<WalkRow>, sortValue: int): seq<WalkRow>
  {
    if sortValue == DateAscending then rows
    else if sortValue == DateDescending then Reverse(rows)
    else if sortValue == NameAscending then SortRows(rows, false)
    else if sortValue == NameDescending then SortRows(rows, true)
    else rows
  }

  /**
   * Every sort value returns every row exactly once; 0 and 1 order them by
   * ascending and descending id, 2 and 3 by ascending and descending name.
   */
  lemma OrderedRowsSpec(rows: seq<WalkRow>, sortValue: int)
    requires IncreasingBy(rows, WalkId)
    ensures multiset(OrderedRows(rows, sortValue)) == multiset(rows)
    ensures var r := OrderedRows(rows, sortValue);
      sortValue == DateAscending ==> forall i, j :: 0 <= i < j < |r| ==> r[i].id < r[j].id
    ensures var r := OrderedRows(rows, sortValue);
      sortValue == DateDescending ==> forall i, j :: 0 <= i < j < |r| ==> r[i].id > r[j].id
    ensures sortValue == NameAscending ==> OrderedByName(OrderedRows(rows, sortValue), false)
    ensures sortValue == NameDescending ==> OrderedByName(OrderedRows(rows, sortValue), true)
  {
    ReverseSameRows(rows);
    SortRowsOrdered(rows, false);
    SortRowsOrdered(rows, true);
    var r := OrderedRows(rows, sortValue);
    if sortValue == DateAscending {
      forall i, j | 0 <= i < j < |r| ensures r[i].id < r[j].id {
        assert WalkId(rows[i]) < WalkId(rows[j]);
      }
    }
    if sortValue == DateDescending {
      forall i, j | 0 <= i < j < |r| ensures r[i].id > r[j].id {
        assert WalkId(rows[|rows| - 1 - j]) < WalkId(rows[|rows| - 1 - i]);
      }
    }
  }
}
