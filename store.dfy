/**
 * The SQLite database behind DataSource: the rows of each table in rowid
 * order and the AUTOINCREMENT counters (sqlite_sequence) of the four
 * ordinary tables.
 */
module Store {
  import opened Wrappers
  import Schema

  /** The walk id reserved for the walk in progress. */
  const InProgressId: int := 0

  datatype WalkRow = WalkRow(id: int, name: string, description: string, tags: string, date: int)

  /** A row of gps (payload ()), photos (payload: the file) or notes (payload: the note text). */
  datatype ChildRow<P> = ChildRow(id: int, walkId: int, latitude: real, longitude: real, payload: P)

  datatype SearchRow = SearchRow(walkId: int, name: string, description: string, tags: string)

  // ---------------------------------------------------------------- filtering

  /** The elements of `s` that `keep` accepts, in their order: a `where` clause. */
  function Filter<T>(s: seq<T>, keep: T -> bool): (r: seq<T>)
    ensures |r| <= |s|
  {
    if s == [] then [] else (if keep(s[0]) then [s[0]] else []) + Filter(s[1..], keep)
  }

  lemma {:induction false} FilterMembers<T>(s: seq<T>, keep: T -> bool)
    ensures forall x :: x in Filter(s, keep) ==> x in s && keep(x)
    ensures forall x :: x in s && keep(x) ==> x in Filter(s, keep)
  {
    if s != [] {
      FilterMembers(s[1..], keep);
      assert forall x :: x in s <==> x == s[0] || x in s[1..];
    }
  }

  predicate IncreasingBy<T>(s: seq<T>, key: T -> int)
  {
    forall i, j :: 0 <= i < j < |s| ==> key(s[i]) < key(s[j])
  }

  predicate DistinctBy<T>(s: seq<T>, key: T -> int)
  {
    forall i, j :: 0 <= i < j < |s| ==> key(s[i]) != key(s[j])
  }

  /** A `where` clause keeps rowid order. */
  lemma {:induction false} FilterIncreasing<T>(s: seq<T>, keep: T -> bool, key: T -> int)
    requires IncreasingBy(s, key)
    ensures IncreasingBy(Filter(s, keep), key)
  {
    if s != [] {
      FilterIncreasing(s[1..], keep, key);
      FilterMembers(s[1..], keep);
      var rest := Filter(s[1..], keep);
      forall j | 0 <= j < |rest| ensures key(s[0]) < key(rest[j]) {
        assert rest[j] in rest;
        assert rest[j] in s[1..];
        var k :| 0 <= k < |s[1..]| && s[1..][k] == rest[j];
        assert s[k + 1] == rest[j];
      }
    }
  }

  lemma {:induction false} FilterDistinct<T>(s: seq<T>, keep: T -> bool, key: T -> int)
    requires DistinctBy(s, key)
    ensures DistinctBy(Filter(s, keep), key)
  {
    if s != [] {
      FilterDistinct(s[1..], keep, key);
      FilterMembers(s[1..], keep);
      var rest := Filter(s[1..], keep);
      forall j | 0 <= j < |rest| ensures key(s[0]) != key(rest[j]) {
        assert rest[j] in rest;
        assert rest[j] in s[1..];
        var k :| 0 <= k < |s[1..]| && s[1..][k] == rest[j];
        assert s[k + 1] == rest[j];
      }
    }
  }

  // ---------------------------------------------------------------- child tables

  function ChildId<P>(x: ChildRow<P>): int { x.id }

  /** Rowid order: strictly ascending ids. */
  predicate ChildAscending<P>(rows: seq<ChildRow<P>>)
  {
    IncreasingBy(rows, ChildId)
  }

  /** Ascending ids, each handed out by the table's counter `last`. */
  predicate ChildIdsValid<P>(rows: seq<ChildRow<P>>, last: int)
  {
    ChildAscending(rows) && forall i :: 0 <= i < |rows| ==> 1 <= rows[i].id <= last
  }

  /** `... where walk_id = w`, in rowid order. */
  function OfWalk<P>(rows: seq<ChildRow<P>>, w: int): seq<ChildRow<P>>
  {
    Filter(rows, (x: ChildRow<P>) => x.walkId == w)
  }

  /** `delete ... where walk_id = w`. */
  function DropWalk<P>(rows: seq<ChildRow<P>>, w: int): seq<ChildRow<P>>
  {
    Filter(rows, (x: ChildRow<P>) => x.walkId != w)
  }

  /** `delete ... where _id = id`. */
  function DropId<P>(rows: seq<ChildRow<P>>, id: int): seq<ChildRow<P>>
  {
    Filter(rows, (x: ChildRow<P>) => x.id != id)
  }

  /** `update ... set walk_id = to where walk_id = from`. */
  function Reparent<P>(rows: seq<ChildRow<P>>, from: int, to: int): (r: seq<ChildRow<P>>)
    ensures |r| == |rows|
    ensures forall i :: 0 <= i < |rows| ==> r[i].id == rows[i].id && r[i].payload == rows[i].payload
    ensures forall i :: 0 <= i < |rows| ==> r[i].walkId == if rows[i].walkId == from then to else rows[i].walkId
  {
    if rows == [] then []
    else [if rows[0].walkId == from then rows[0].(walkId := to) else rows[0]] + Reparent(rows[1..], from, to)
  }

  /** The rows of one walk, every one moved to walk `to`. */
  function Retarget<P>(rows: seq<ChildRow<P>>, to: int): (r: seq<ChildRow<P>>)
    ensures |r| == |rows| && forall i :: 0 <= i < |rows| ==> r[i] == rows[i].(walkId := to)
  {
    if rows == [] then [] else [rows[0].(walkId := to)] + Retarget(rows[1..], to)
  }

  /** `update notes set note = text where _id = id`. */
  function SetPayload<P>(rows: seq<ChildRow<P>>, id: int, v: P): (r: seq<ChildRow<P>>)
    ensures |r| == |rows|
    ensures forall i :: 0 <= i < |rows| ==> r[i] == if rows[i].id == id then rows[i].(payload := v) else rows[i]
  {
    if rows == [] then [] else [if rows[0].id == id then rows[0].(payload := v) else rows[0]] + SetPayload(rows[1..], id, v)
  }

  lemma ReparentKeepsIds<P>(rows: seq<ChildRow<P>>, from: int, to: int, last: int)
    requires ChildIdsValid(rows, last)
    ensures ChildIdsValid(Reparent(rows, from, to), last)
  {
  }

  lemma SetPayloadKeepsIds<P>(rows: seq<ChildRow<P>>, id: int, v: P, last: int)
    requires ChildIdsValid(rows, last)
    ensures ChildIdsValid(SetPayload(rows, id, v), last)
  {
  }

  lemma FilterKeepsIds<P>(rows: seq<ChildRow<P>>, keep: ChildRow<P> -> bool, last: int)
    requires ChildIdsValid(rows, last)
    ensures ChildIdsValid(Filter(rows, keep), last)
  {
    FilterIncreasing(rows, keep, ChildId);
    FilterMembers(rows, keep);
    var r := Filter(rows, keep);
    forall i | 0 <= i < |r| ensures 1 <= r[i].id <= last {
      assert r[i] in r;
      var k :| 0 <= k < |rows| && rows[k] == r[i];
    }
  }

  /** Appending a row with the next counter value keeps the table in rowid order. */
  lemma AppendKeepsIds<P>(rows: seq<ChildRow<P>>, x: ChildRow<P>, last: nat)
    requires ChildIdsValid(rows, last) && x.id == last + 1
    ensures ChildIdsValid(rows + [x], last + 1)
  {
    var r := rows + [x];
    forall i, j | 0 <= i < j < |r| ensures ChildId(r[i]) < ChildId(r[j]) {
      if j < |rows| {
        assert ChildId(rows[i]) < ChildId(rows[j]);
      }
    }
    assert forall i :: 0 <= i < |r| ==> 1 <= r[i].id <= last + 1;
  }

  lemma {:induction false} FilterConcat<T>(a: seq<T>, b: seq<T>, keep: T -> bool)
    ensures Filter(a + b, keep) == Filter(a, keep) + Filter(b, keep)
  {
    if a != [] {
      assert (a + b)[0] == a[0] && (a + b)[1..] == a[1..] + b;
      FilterConcat(a[1..], b, keep);
      var head := if keep(a[0]) then [a[0]] else [];
      assert Filter(a + b, keep) == head + Filter(a[1..] + b, keep);
      assert Filter(a, keep) == head + Filter(a[1..], keep);
    } else {
      assert a + b == b;
    }
  }

  /** After deleting a walk's rows, that walk has none and every other walk keeps exactly its own. */
  lemma {:induction false} DropWalkOfWalk<P>(rows: seq<ChildRow<P>>, w: int, v: int)
    ensures OfWalk(DropWalk(rows, w), v) == if v == w then [] else OfWalk(rows, v)
  {
    if rows != [] {
      DropWalkOfWalk(rows[1..], w, v);
      var head: seq<ChildRow<P>> := if rows[0].walkId != w then [rows[0]] else [];
      FilterConcat(head, DropWalk(rows[1..], w), (x: ChildRow<P>) => x.walkId == v);
    }
  }

  /** Deleting one row by id removes it from its walk's rows and nothing else. */
  lemma {:induction false} DropIdOfWalk<P>(rows: seq<ChildRow<P>>, id: int, v: int)
    ensures OfWalk(DropId(rows, id), v) == DropId(OfWalk(rows, v), id)
  {
    if rows != [] {
      DropIdOfWalk(rows[1..], id, v);
      var head: seq<ChildRow<P>> := if rows[0].id != id then [rows[0]] else [];
      FilterConcat(head, DropId(rows[1..], id), (x: ChildRow<P>) => x.walkId == v);
      var head': seq<ChildRow<P>> := if rows[0].walkId == v then [rows[0]] else [];
      FilterConcat(head', OfWalk(rows[1..], v), (x: ChildRow<P>) => x.id != id);
    }
  }

  /**
   * Moving the rows of walk `from` to walk `to`: `from` is left with none, a `to`
   * that had none gets them in the same order, and every other walk is untouched.
   */
  lemma {:induction false} ReparentOfWalk<P>(rows: seq<ChildRow<P>>, from: int, to: int, v: int)
    requires from != to
    ensures OfWalk(Reparent(rows, from, to), from) == []
    ensures OfWalk(rows, to) == [] ==> OfWalk(Reparent(rows, from, to), to) == Retarget(OfWalk(rows, from), to)
    ensures v != from && v != to ==> OfWalk(Reparent(rows, from, to), v) == OfWalk(rows, v)
  {
    if rows != [] {
      var r := Reparent(rows, from, to);
      ReparentOfWalk(rows[1..], from, to, v);
      assert r[1..] == Reparent(rows[1..], from, to);
      if OfWalk(rows, to) == [] {
        assert rows[0].walkId != to;
        assert OfWalk(rows[1..], to) == [];
        if rows[0].walkId == from {
          assert OfWalk(rows, from) == [rows[0]] + OfWalk(rows[1..], from);
          assert Retarget(OfWalk(rows, from), to)[1..] == Retarget(OfWalk(rows[1..], from), to);
        }
      }
    }
  }

  /** An appended row joins the end of its own walk's rows and no other walk's. */
  lemma AppendOfWalk<P>(rows: seq<ChildRow<P>>, x: ChildRow<P>, v: int)
    ensures OfWalk(rows + [x], v) == OfWalk(rows, v) + (if x.walkId == v then [x] else [])
  {
    FilterConcat(rows, [x], (y: ChildRow<P>) => y.walkId == v);
    assert [x][1..] == [];
  }

  // ---------------------------------------------------------------- walks

  function WalkId(x: WalkRow): int { x.id }

  predicate WalkIdsValid(rows: seq<WalkRow>, last: int)
  {
    IncreasingBy(rows, WalkId) && forall i :: 0 <= i < |rows| ==> 0 <= rows[i].id <= last
  }

  /** `select ... where _id = id`: the row with that id, if there is one. */
  function FindWalk(rows: seq<WalkRow>, id: int): (r: Option<WalkRow>)
    ensures r.Some? ==> r.value in rows && r.value.id == id
    ensures r.None? ==> forall x :: x in rows ==> x.id != id
  {
    if rows == [] then None
    else if rows[0].id == id then Some(rows[0])
    else FindWalk(rows[1..], id)
  }

  /** `delete from walks where _id = id`. */
  function DropWalkRow(rows: seq<WalkRow>, id: int): seq<WalkRow>
  {
    Filter(rows, (x: WalkRow) => x.id != id)
  }

  lemma DropWalkRowKeepsIds(rows: seq<WalkRow>, id: int, last: int)
    requires WalkIdsValid(rows, last)
    ensures WalkIdsValid(DropWalkRow(rows, id), last)
  {
    FilterIncreasing(rows, (x: WalkRow) => x.id != id, WalkId);
    FilterMembers(rows, (x: WalkRow) => x.id != id);
    var r := DropWalkRow(rows, id);
    forall i | 0 <= i < |r| ensures 0 <= r[i].id <= last {
      assert r[i] in r;
      var k :| 0 <= k < |rows| && rows[k] == r[i];
    }
  }

  /** `update walks set name, description, tags where _id = id`. */
  function UpdateWalkRow(rows: seq<WalkRow>, id: int, name: string, description: string, tags: string): (r: seq<WalkRow>)
    ensures |r| == |rows|
    ensures forall i :: 0 <= i < |rows| ==>
      r[i] == if rows[i].id == id then rows[i].(name := name, description := description, tags := tags) else rows[i]
  {
    if rows == [] then []
    else
      [if rows[0].id == id then rows[0].(name := name, description := description, tags := tags) else rows[0]] +
      UpdateWalkRow(rows[1..], id, name, description, tags)
  }

  /** A walk row with the next counter value goes after every other. */
  lemma WalkAppendKeepsIds(rows: seq<WalkRow>, x: WalkRow, last: nat)
    requires WalkIdsValid(rows, last) && x.id == last + 1
    ensures WalkIdsValid(rows + [x], last + 1)
  {
    var r := rows + [x];
    forall i, j | 0 <= i < j < |r| ensures WalkId(r[i]) < WalkId(r[j]) {
      if j < |rows| {
        assert WalkId(rows[i]) < WalkId(rows[j]);
      }
    }
  }

  /** Updating one walk row leaves every other row as it was and changes that one as asked. */
  lemma {:induction false} FindAfterUpdate(rows: seq<WalkRow>, id: int, name: string, description: string, tags: string, k: int)
    ensures FindWalk(UpdateWalkRow(rows, id, name, description, tags), k) ==
      if k == id && FindWalk(rows, k).Some? then Some(FindWalk(rows, k).value.(name := name, description := description, tags := tags))
      else FindWalk(rows, k)
  {
    if rows != [] {
      FindAfterUpdate(rows[1..], id, name, description, tags, k);
      assert UpdateWalkRow(rows, id, name, description, tags)[1..] == UpdateWalkRow(rows[1..], id, name, description, tags);
    }
  }

  lemma {:induction false} FindAfterDrop(rows: seq<WalkRow>, id: int, k: int)
    ensures FindWalk(DropWalkRow(rows, id), k) == if k == id then None else FindWalk(rows, k)
  {
    if rows != [] {
      FindAfterDrop(rows[1..], id, k);
      var keep := (x: WalkRow) => x.id != id;
      if rows[0].id != id {
        assert keep(rows[0]);
        assert DropWalkRow(rows, id) == [rows[0]] + DropWalkRow(rows[1..], id);
        assert DropWalkRow(rows, id)[1..] == DropWalkRow(rows[1..], id);
      } else {
        assert !keep(rows[0]);
        assert DropWalkRow(rows, id) == DropWalkRow(rows[1..], id);
      }
    }
  }

  lemma {:induction false} FindAfterAppend(rows: seq<WalkRow>, x: WalkRow, k: int)
    requires forall y :: y in rows ==> y.id != x.id
    ensures FindWalk(rows + [x], k) == if k == x.id then Some(x) else FindWalk(rows, k)
  {
    if rows != [] {
      assert (rows + [x])[1..] == rows[1..] + [x];
      FindAfterAppend(rows[1..], x, k);
    }
  }

  // ---------------------------------------------------------------- search

  function SearchWalkId(x: SearchRow): int { x.walkId }

  /** `delete from search where walk_id = id`. */
  function DropSearch(rows: seq<SearchRow>, id: int): seq<SearchRow>
  {
    Filter(rows, (x: SearchRow) => x.walkId != id)
  }

  /** `update search set name, description, tags where walk_id = id`. */
  function UpdateSearch(rows: seq<SearchRow>, id: int, name: string, description: string, tags: string): (r: seq<SearchRow>)
    ensures |r| == |rows|
    ensures forall i :: 0 <= i < |rows| ==>
      r[i] == if rows[i].walkId == id then rows[i].(name := name, description := description, tags := tags) else rows[i]
  {
    if rows == [] then []
    else
      [if rows[0].walkId == id then rows[0].(name := name, description := description, tags := tags) else rows[0]] +
      UpdateSearch(rows[1..], id, name, description, tags)
  }

  predicate Mirrors(s: SearchRow, w: WalkRow)
  {
    s.walkId == w.id && s.name == w.name && s.description == w.description && s.tags == w.tags
  }

  /**
   * Every search row belongs to a saved walk (never the walk in progress) and
   * repeats its name, description and tags; no walk has two search rows.
   */
  predicate SearchSync(search: seq<SearchRow>, walks: seq<WalkRow>)
  {
    (forall i :: 0 <= i < |search| ==>
       search[i].walkId != InProgressId && FindWalk(walks, search[i].walkId).Some? &&
       Mirrors(search[i], FindWalk(walks, search[i].walkId).value)) &&
    DistinctBy(search, SearchWalkId)
  }

  // ---------------------------------------------------------------- the database

  /** Every table of the schema exists (the file may hold others, such as android_metadata). */
  predicate SchemaPresent(tables: seq<string>)
  {
    Schema.TableWalks in tables && Schema.TableGps in tables && Schema.TablePhotos in tables &&
    Schema.TableNotes in tables && Schema.TableSearch in tables
  }

  datatype DbState = DbState(
    tables: seq<string>,
    walks: seq<WalkRow>,
    gps: seq<ChildRow<()>>,
    photos: seq<ChildRow<string>>,
    notes: seq<ChildRow<string>>,
    search: seq<SearchRow>,
    walkSeq: nat, gpsSeq: nat, photoSeq: nat, noteSeq: nat)

  /**
   * The tables exist, ids are unique, ascending and handed out by the counters,
   * and the search table is in step with the walks table.
   */
  predicate ValidState(s: DbState)
  {
    SchemaPresent(s.tables) &&
    WalkIdsValid(s.walks, s.walkSeq) &&
    ChildIdsValid(s.gps, s.gpsSeq) && ChildIdsValid(s.photos, s.photoSeq) && ChildIdsValid(s.notes, s.noteSeq) &&
    SearchSync(s.search, s.walks)
  }

  /** Tables that all exist and hold no rows are a valid database. */
  lemma EmptyStateValid(s: DbState)
    requires SchemaPresent(s.tables)
    requires s.walks == [] && s.gps == [] && s.photos == [] && s.notes == [] && s.search == []
    ensures ValidState(s)
  {
  }

  class Database {
    /** The tables that exist, by name. */
    var tables: seq<string>
    var walks: seq<WalkRow>
    var gps: seq<ChildRow<()>>
    var photos: seq<ChildRow<string>>
    var notes: seq<ChildRow<string>>
    var search: seq<SearchRow>
    /** sqlite_sequence: the largest id each AUTOINCREMENT table has handed out. */
    var walkSeq: nat
    var gpsSeq: nat
    var photoSeq: nat
    var noteSeq: nat

    /** Everything the database holds, as one value. */
    function State(): DbState
      reads this
    {
      DbState(tables, walks, gps, photos, notes, search, walkSeq, gpsSeq, photoSeq, noteSeq)
    }

    predicate Valid()
      reads this
    {
      ValidState(State())
    }

    /** A database file with no tables yet. */
    constructor ()
      ensures tables == [] && walks == [] && gps == [] && photos == [] && notes == [] && search == []
      ensures walkSeq == 0 && gpsSeq == 0 && photoSeq == 0 && noteSeq == 0
    {
      tables := [];
      walks, gps, photos, notes, search := [], [], [], [], [];
      walkSeq, gpsSeq, photoSeq, noteSeq := 0, 0, 0, 0;
    }

    /** Whether the tables exist and hold no rows. */
    predicate Empty()
      reads this
    {
      walks == [] && gps == [] && photos == [] && notes == [] && search == [] &&
      walkSeq == 0 && gpsSeq == 0 && photoSeq == 0 && noteSeq == 0
    }
  }

  // ---------------------------------------------------------------- keeping the search table in step

  lemma SyncAfterUpdate(search: seq<SearchRow>, walks: seq<WalkRow>, id: int, name: string, description: string, tags: string)
    requires SearchSync(search, walks)
    ensures SearchSync(UpdateSearch(search, id, name, description, tags), UpdateWalkRow(walks, id, name, description, tags))
  {
    var s' := UpdateSearch(search, id, name, description, tags);
    var w' := UpdateWalkRow(walks, id, name, description, tags);
    forall i | 0 <= i < |s'|
      ensures s'[i].walkId != InProgressId && FindWalk(w', s'[i].walkId).Some? && Mirrors(s'[i], FindWalk(w', s'[i].walkId).value)
    {
      FindAfterUpdate(walks, id, name, description, tags, s'[i].walkId);
    }
  }

  lemma SyncAfterDrop(search: seq<SearchRow>, walks: seq<WalkRow>, id: int)
    requires SearchSync(search, walks)
    ensures SearchSync(DropSearch(search, id), DropWalkRow(walks, id))
  {
    var s' := DropSearch(search, id);
    FilterMembers(search, (x: SearchRow) => x.walkId != id);
    FilterDistinct(search, (x: SearchRow) => x.walkId != id, SearchWalkId);
    forall i | 0 <= i < |s'|
      ensures s'[i].walkId != InProgressId && FindWalk(DropWalkRow(walks, id), s'[i].walkId).Some? &&
        Mirrors(s'[i], FindWalk(DropWalkRow(walks, id), s'[i].walkId).value)
    {
      assert s'[i] in search;
      FindAfterDrop(walks, id, s'[i].walkId);
    }
  }

  /** Removing the walk in progress never disturbs the search table, which has no row for it. */
  lemma SyncAfterDropInProgress(search: seq<SearchRow>, walks: seq<WalkRow>)
    requires SearchSync(search, walks)
    ensures SearchSync(search, DropWalkRow(walks, InProgressId))
  {
    forall i | 0 <= i < |search|
      ensures FindWalk(DropWalkRow(walks, InProgressId), search[i].walkId) == FindWalk(walks, search[i].walkId)
    {
      FindAfterDrop(walks, InProgressId, search[i].walkId);
    }
  }

  lemma SyncAfterPrepend(search: seq<SearchRow>, walks: seq<WalkRow>, x: WalkRow)
    requires SearchSync(search, walks) && x.id == InProgressId
    ensures SearchSync(search, [x] + walks)
  {
    forall i | 0 <= i < |search| ensures FindWalk([x] + walks, search[i].walkId) == FindWalk(walks, search[i].walkId) {
      assert ([x] + walks)[1..] == walks;
    }
  }

  lemma SyncAfterAppend(search: seq<SearchRow>, walks: seq<WalkRow>, x: WalkRow)
    requires SearchSync(search, walks) && forall y :: y in walks ==> y.id != x.id
    ensures SearchSync(search, walks + [x])
  {
    forall i | 0 <= i < |search| ensures FindWalk(walks + [x], search[i].walkId) == FindWalk(walks, search[i].walkId) {
      FindAfterAppend(walks, x, search[i].walkId);
    }
  }

  /** A new search row for a walk that had none keeps the table in step. */
  lemma SyncAfterIndex(search: seq<SearchRow>, walks: seq<WalkRow>, x: WalkRow)
    requires SearchSync(search, walks) && x.id != InProgressId && FindWalk(walks, x.id) == Some(x)
    requires forall s :: s in search ==> s.walkId != x.id
    ensures SearchSync(search + [SearchRow(x.id, x.name, x.description, x.tags)], walks)
  {
    var s' := search + [SearchRow(x.id, x.name, x.description, x.tags)];
    forall i, j | 0 <= i < j < |s'| ensures SearchWalkId(s'[i]) != SearchWalkId(s'[j]) {
      if j == |search| {
        assert s'[i] in search;
      }
    }
  }
}
