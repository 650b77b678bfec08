/**
 * DataSource.java: every read and write the application makes against its
 * database. The static SQLiteDatabase is the explicit `db` argument; cursors
 * are the rows a query returns, in order.
 */
module DataSource {
  import opened Wrappers
  import opened Tags
  import JavaStrings
  import opened Walks
  import opened TagCodec
  import opened Store
  import opened Changes
  import Query

  // ---------------------------------------------------------------- the objects cursors become

  datatype Note = Note(id: int, latitude: real, longitude: real, text: string)
  datatype Photo = Photo(id: int, latitude: real, longitude: real, file: string)
  /** A map point in micro-degrees. */
  datatype GeoPoint = GeoPoint(latitudeE6: int, longitudeE6: int)

  const IntMin: int := -0x8000_0000
  const IntMax: int := 0x7fff_ffff

  /** Java's (int) cast of a double, on reals: truncation toward zero, saturating at the int range. */
  function ToInt(x: real): (r: int)
    ensures IntMin <= r <= IntMax
    ensures 0.0 <= x <= IntMax as real ==> r as real <= x < (r + 1) as real
    ensures IntMin as real <= x < 0.0 ==> (r - 1) as real < x <= r as real
    ensures x > IntMax as real ==> r == IntMax
    ensures x < IntMin as real ==> r == IntMin
  {
    if x > IntMax as real then IntMax
    else if x < IntMin as real then IntMin
    else if x >= 0.0 then x.Floor
    else -((-x).Floor)
  }

  function NoteOf(row: ChildRow<string>): Note
  {
    Note(row.id, row.latitude, row.longitude, row.payload)
  }

  function PhotoOf(row: ChildRow<string>): Photo
  {
    Photo(row.id, row.latitude, row.longitude, row.payload)
  }

  function GeoPointOf(row: ChildRow<()>): GeoPoint
  {
    GeoPoint(ToInt(row.latitude * 1000000.0), ToInt(row.longitude * 1000000.0))
  }

  /** What cursorToWalk makes of a walk row; None when it throws. */
  function RowValue(row: WalkRow): Option<WalkValue>
  {
    match DecodeTags(row.tags)
    case None => None
    case Some(tags) => Some(WalkValue(row.id, row.name, row.description, row.date, tags))
  }

  /** A row written with either tag encoding reads back as the walk it was written from. */
  lemma RowRoundTrip(v: WalkValue, plain: bool)
    requires AllCarriable(v.tags)
    ensures RowValue(WalkRow(v.id, v.name, v.description, if plain then EncodePlain(v.tags) else EncodeTrailing(v.tags), v.date)) == Some(v)
  {
    if plain {
      PlainRoundTrip(v.tags);
    } else {
      TrailingRoundTrip(v.tags);
    }
  }

  // ---------------------------------------------------------------- cursorTo... methods

  /** cursorToWalk: split the tag column, build the tag list, let the Walk constructor filter it. */
  method CursorToWalk(row: WalkRow) returns (w: Option<Walk>)
    ensures w.Some? <==> RowValue(row).Some?
    ensures w.Some? ==> w.value.Value() == RowValue(row).value && fresh(w.value) && fresh(w.value.tags)
  {
    var parts := JavaStrings.Split(row.tags, TagPadding);
    var list := StringArrayToList(parts);
    if list.None? {
      return None;
    }
    ToTagsNames(list.value);
    var walk := new Walk(row.id, row.name, row.description, row.date, list.value);
    w := Some(walk);
  }

  method CursorToNote(row: ChildRow<string>) returns (n: Note)
    ensures n.id == row.id && n.latitude == row.latitude && n.longitude == row.longitude && n.text == row.payload
  {
    n := Note(row.id, row.latitude, row.longitude, row.payload);
  }

  method CursorToPhoto(row: ChildRow<string>) returns (p: Photo)
    ensures p.id == row.id && p.latitude == row.latitude && p.longitude == row.longitude && p.file == row.payload
  {
    p := Photo(row.id, row.latitude, row.longitude, row.payload);
  }

  /** cursorToGeoPoint: (int) (degrees * 1E6) for both coordinates. */
  method CursorToGeoPoint(row: ChildRow<()>) returns (g: GeoPoint)
    ensures g == GeoPointOf(row)
  {
    g := GeoPoint(ToInt(row.latitude * 1000000.0), ToInt(row.longitude * 1000000.0));
  }

  // ---------------------------------------------------------------- get methods

  /**
   * getWalkById: the walk with that id. An empty cursor makes cursorToWalk
   * throw, so a missing id is None, like a tag column that does not decode.
   */
  method GetWalkById(db: Database, id: int) returns (w: Option<Walk>)
    ensures w.Some? <==> FindWalk(db.walks, id).Some? && RowValue(FindWalk(db.walks, id).value).Some?
    ensures w.Some? ==> w.value.Value() == RowValue(FindWalk(db.walks, id).value).value
    ensures w.Some? ==> w.value.id == id && fresh(w.value) && fresh(w.value.tags)
  {
    var found := FindWalk(db.walks, id);
    if found.None? {
      return None;
    }
    w := CursorToWalk(found.value);
  }

  /**
   * getAllWalks: every walk row, the walk in progress included, in the order
   * the sort value asks for; false when some row cannot be read.
   */
  method GetAllWalks(db: Database, sortValue: int) returns (ok: bool, walks: seq<Walk>)
    ensures var rows := Query.OrderedRows(db.walks, sortValue);
      ok <==> forall i :: 0 <= i < |rows| ==> RowValue(rows[i]).Some?
    ensures var rows := Query.OrderedRows(db.walks, sortValue);
      ok ==> |walks| == |rows| && forall i :: 0 <= i < |walks| ==> walks[i].Value() == RowValue(rows[i]).value
    ensures forall i :: 0 <= i < |walks| ==> fresh(walks[i])
    ensures forall i, j :: 0 <= i < j < |walks| ==> walks[i] != walks[j]
  {
    ok, walks := CursorToWalks(Query.OrderedRows(db.walks, sortValue));
  }

  /** The cursor loop of getAllWalks: one new walk per row, until a row cannot be read. */
  method CursorToWalks(rows: seq<WalkRow>) returns (ok: bool, walks: seq<Walk>)
    ensures ok <==> forall i :: 0 <= i < |rows| ==> RowValue(rows[i]).Some?
    ensures ok ==> |walks| == |rows| && forall i :: 0 <= i < |walks| ==> walks[i].Value() == RowValue(rows[i]).value
    ensures forall i :: 0 <= i < |walks| ==> fresh(walks[i])
    ensures forall i, j :: 0 <= i < j < |walks| ==> walks[i] != walks[j]
  {
    walks := [];
    var i := 0;
    while i < |rows|
      invariant 0 <= i <= |rows| && |walks| == i
      invariant forall k :: 0 <= k < i ==>
        RowValue(rows[k]).Some? && walks[k].Value() == RowValue(rows[k]).value && fresh(walks[k])
      invariant forall k, l :: 0 <= k < l < i ==> walks[k] != walks[l]
    {
      var w := CursorToWalk(rows[i]);
      if w.None? {
        return false, walks;
      }
      walks := walks + [w.value];
      i := i + 1;
    }
    ok := true;
  }

  predicate Distinct(s: seq<Tag>)
  {
    forall i, j :: 0 <= i < j < |s| ==> s[i] != s[j]
  }

  /** The tags a row reads back with, none when it cannot be read. */
  function RowTags(row: WalkRow): seq<Tag>
  {
    match DecodeTags(row.tags)
    case None => []
    case Some(tags) => tags
  }

  function AllRowTags(rows: seq<WalkRow>): seq<Tag>
  {
    if rows == [] then [] else RowTags(rows[0]) + AllRowTags(rows[1..])
  }

  lemma {:induction false} AllRowTagsAppend(a: seq<WalkRow>, b: seq<WalkRow>)
    ensures AllRowTags(a + b) == AllRowTags(a) + AllRowTags(b)
  {
    if a != [] {
      assert (a + b)[1..] == a[1..] + b;
      AllRowTagsAppend(a[1..], b);
    } else {
      assert a + b == b;
    }
  }

  lemma DistinctCons(s: seq<Tag>)
    requires s != []
    ensures Distinct(s) <==> s[0] !in s[1..] && Distinct(s[1..])
  {
    if Distinct(s) {
      assert Distinct(s[1..]) by {
        forall i, j | 0 <= i < j < |s[1..]| ensures s[1..][i] != s[1..][j] {
          assert s[1..][i] == s[i + 1] && s[1..][j] == s[j + 1];
        }
      }
      assert s[0] !in s[1..] by {
        forall k | 0 <= k < |s[1..]| ensures s[1..][k] != s[0] {
          assert s[1..][k] == s[k + 1];
        }
      }
    }
    if s[0] !in s[1..] && Distinct(s[1..]) {
      forall i, j | 0 <= i < j < |s| ensures s[i] != s[j] {
        if i == 0 {
          assert s[j] == s[1..][j - 1] && s[j] in s[1..];
        } else {
          assert s[i] == s[1..][i - 1] && s[j] == s[1..][j - 1];
        }
      }
    }
  }

  lemma CountsCons(s: seq<Tag>)
    requires s != []
    ensures (forall x :: multiset(s)[x] <= 1) <==>
      s[0] !in s[1..] && forall x :: multiset(s[1..])[x] <= 1
  {
    assert s == [s[0]] + s[1..];
    assert multiset(s) == multiset{s[0]} + multiset(s[1..]);
    if forall x :: multiset(s)[x] <= 1 {
      forall x ensures multiset(s[1..])[x] <= 1 {
        assert multiset(s)[x] == multiset{s[0]}[x] + multiset(s[1..])[x];
      }
      assert multiset(s)[s[0]] == 1 + multiset(s[1..])[s[0]];
    }
    if s[0] !in s[1..] && forall x :: multiset(s[1..])[x] <= 1 {
      forall x ensures multiset(s)[x] <= 1 {
        assert multiset(s)[x] == multiset{s[0]}[x] + multiset(s[1..])[x];
      }
    }
  }

  lemma {:induction false} DistinctCounts(s: seq<Tag>)
    ensures Distinct(s) <==> forall x :: multiset(s)[x] <= 1
  {
    if s != [] {
      DistinctCounts(s[1..]);
      DistinctCons(s);
      CountsCons(s);
    }
  }

  lemma DistinctPermutation(a: seq<Tag>, b: seq<Tag>)
    requires Distinct(a) && multiset(a) == multiset(b)
    ensures Distinct(b) && forall t :: t in a <==> t in b
  {
    DistinctCounts(a);
    DistinctCounts(b);
    assert forall t :: t in a <==> t in multiset(a);
    assert forall t :: t in b <==> t in multiset(b);
  }

  /** Two duplicate-free sorted lists with the same members are equal. */
  lemma SortedDistinctUnique(a: seq<Tag>, b: seq<Tag>)
    requires Sorted(a) && Sorted(b) && Distinct(a) && Distinct(b)
    requires forall t :: t in a <==> t in b
    ensures a == b
  {
    DistinctCounts(a);
    DistinctCounts(b);
    assert multiset(a) == multiset(b) by {
      forall x ensures multiset(a)[x] == multiset(b)[x] {
        if x in a {
          assert x in b;
        } else {
          assert x !in b;
        }
      }
    }
    SortedUnique(a, b);
  }

  /** HashSet.addAll on a duplicate-free list: adds the tags not yet present. */
  method AddAll(present: seq<Tag>, items: seq<Tag>) returns (r: seq<Tag>)
    requires Distinct(present)
    ensures Distinct(r)
    ensures forall t :: t in r <==> t in present || t in items
  {
    r := present;
    var j := 0;
    while j < |items|
      invariant 0 <= j <= |items|
      invariant Distinct(r)
      invariant forall t :: t in r <==> t in present || t in items[..j]
    {
      assert items[..j + 1] == items[..j] + [items[j]];
      if items[j] !in r {
        r := r + [items[j]];
      }
      j := j + 1;
    }
    assert items[..j] == items;
  }

  lemma AllRowTagsSnoc(rows: seq<WalkRow>, i: int)
    requires 0 <= i < |rows|
    ensures AllRowTags(rows[..i + 1]) == AllRowTags(rows[..i]) + RowTags(rows[i])
  {
    calc {
      AllRowTags(rows[..i + 1]);
      { assert rows[..i + 1] == rows[..i] + [rows[i]]; }
      AllRowTags(rows[..i] + [rows[i]]);
      { AllRowTagsAppend(rows[..i], [rows[i]]); }
      AllRowTags(rows[..i]) + AllRowTags([rows[i]]);
      { AllRowTagsSingle(rows[i]); }
      AllRowTags(rows[..i]) + RowTags(rows[i]);
    }
  }

  lemma AllRowTagsSingle(row: WalkRow)
    ensures AllRowTags([row]) == RowTags(row)
  {
    assert [row][1..] == [];
  }

  /** getAllTags' loop: every walk's tags added to one set. */
  method CollectTags(walks: seq<Walk>, ghost rows: seq<WalkRow>) returns (seen: seq<Tag>)
    requires |walks| == |rows| && forall k :: 0 <= k < |walks| ==> walks[k].tags.items == RowTags(rows[k])
    ensures Distinct(seen) && forall t :: t in seen <==> t in AllRowTags(rows)
  {
    seen := [];
    var i := 0;
    while i < |walks|
      invariant 0 <= i <= |walks|
      invariant forall k :: 0 <= k < |walks| ==> walks[k].tags.items == RowTags(rows[k])
      invariant Distinct(seen)
      invariant forall t :: t in seen <==> t in AllRowTags(rows[..i])
    {
      AllRowTagsSnoc(rows, i);
      ghost var items := RowTags(rows[i]);
      assert walks[i].tags.items == items;
      seen := AddAll(seen, walks[i].tags.items);
      i := i + 1;
    }
    assert rows[..i] == rows;
  }

  /**
   * getAllTags: the tags of every walk row (the walk in progress included),
   * each once, in name order. Its HashSet's iteration order does not show in
   * the result: see SortedDistinctUnique.
   */
  method GetAllTags(db: Database) returns (ok: bool, tags: seq<Tag>)
    ensures ok <==> forall i :: 0 <= i < |db.walks| ==> RowValue(db.walks[i]).Some?
    ensures ok ==> Sorted(tags) && Distinct(tags)
    ensures ok ==> forall t :: t in tags <==> t in AllRowTags(db.walks)
  {
    var walksOk, walks := GetAllWalks(db, Query.DateAscending);
    if !walksOk {
      return false, [];
    }
    assert Query.OrderedRows(db.walks, Query.DateAscending) == db.walks;
    assert forall k :: 0 <= k < |walks| ==> walks[k].tags.items == RowTags(db.walks[k]) by {
      forall k | 0 <= k < |walks| ensures walks[k].tags.items == RowTags(db.walks[k]) {
        assert walks[k].Value() == RowValue(db.walks[k]).value;
      }
    }
    var seen := CollectTags(walks, db.walks);
    var list := new TagList(seen);
    list.Sort();
    tags := list.items;
    DistinctPermutation(seen, tags);
    ok := true;
  }

  /** getNotesForWalk: the walk's notes in rowid order. */
  method GetNotesForWalk(db: Database, walk: Walk) returns (notes: seq<Note>)
    ensures var rows := OfWalk(db.notes, walk.id);
      |notes| == |rows| && forall i :: 0 <= i < |rows| ==> notes[i] == NoteOf(rows[i])
  {
    var rows := OfWalk(db.notes, walk.id);
    notes := [];
    var i := 0;
    while i < |rows|
      invariant 0 <= i <= |rows| && |notes| == i
      invariant forall k :: 0 <= k < i ==> notes[k] == NoteOf(rows[k])
    {
      var n := CursorToNote(rows[i]);
      notes := notes + [n];
      i := i + 1;
    }
  }

  /** getGeoPointsForWalk: the walk's points in rowid order, converted to micro-degrees. */
  method GetGeoPointsForWalk(db: Database, walk: Walk) returns (points: seq<GeoPoint>)
    ensures var rows := OfWalk(db.gps, walk.id);
      |points| == |rows| && forall i :: 0 <= i < |rows| ==> points[i] == GeoPointOf(rows[i])
  {
    var rows := OfWalk(db.gps, walk.id);
    points := [];
    var i := 0;
    while i < |rows|
      invariant 0 <= i <= |rows| && |points| == i
      invariant forall k :: 0 <= k < i ==> points[k] == GeoPointOf(rows[k])
    {
      var g := CursorToGeoPoint(rows[i]);
      points := points + [g];
      i := i + 1;
    }
  }

  /** getPhotosForWalk: the walk's photos in rowid order. */
  method GetPhotosForWalk(db: Database, walk: Walk) returns (photos: seq<Photo>)
    ensures var rows := OfWalk(db.photos, walk.id);
      |photos| == |rows| && forall i :: 0 <= i < |rows| ==> photos[i] == PhotoOf(rows[i])
  {
    var rows := OfWalk(db.photos, walk.id);
    photos := [];
    var i := 0;
    while i < |rows|
      invariant 0 <= i <= |rows| && |photos| == i
      invariant forall k :: 0 <= k < i ==> photos[k] == PhotoOf(rows[k])
    {
      var p := CursorToPhoto(rows[i]);
      photos := photos + [p];
      i := i + 1;
    }
  }

  /** The child rows a walk-id query returns are exactly the table's rows for that walk, in rowid order. */
  lemma ChildQuerySpec<P>(rows: seq<ChildRow<P>>, w: int)
    requires ChildAscending(rows)
    ensures forall x :: x in OfWalk(rows, w) ==> x in rows && x.walkId == w
    ensures forall x :: x in rows && x.walkId == w ==> x in OfWalk(rows, w)
    ensures ChildAscending(OfWalk(rows, w))
  {
    FilterMembers(rows, (x: ChildRow<P>) => x.walkId == w);
    FilterIncreasing(rows, (x: ChildRow<P>) => x.walkId == w, ChildId);
  }

  method GetNoteCountForWalk(db: Database, walk: Walk) returns (n: int)
    ensures n == |OfWalk(db.notes, walk.id)|
  {
    n := |OfWalk(db.notes, walk.id)|;
  }

  method GetPhotoCountForWalk(db: Database, walk: Walk) returns (n: int)
    ensures n == |OfWalk(db.photos, walk.id)|
  {
    n := |OfWalk(db.photos, walk.id)|;
  }

  // ---------------------------------------------------------------- tag strings

  /** The `+=` loop of createTemporaryWalk and editWalk. */
  method BuildTrailing(tags: seq<Tag>) returns (s: string)
    ensures s == EncodeTrailing(tags)
  {
    s := "";
    var i := 0;
    while i < |tags|
      invariant 0 <= i <= |tags|
      invariant s == JavaStrings.JoinTrailing(Names(tags[..i]), TagPadding)
    {
      NamesSnoc(tags[..i], tags[i]);
      JavaStrings.JoinTrailingSnoc(Names(tags[..i]), tags[i].name, TagPadding);
      assert tags[..i + 1] == tags[..i] + [tags[i]];
      s := s + tags[i].name + TagPadding;
      i := i + 1;
    }
    assert tags[..i] == tags;
  }

  /** saveWalk's loop: the padding after all but the last name, then the last name. */
  method BuildPlain(tags: seq<Tag>) returns (s: string)
    ensures s == EncodePlain(tags)
  {
    s := "";
    if |tags| > 0 {
      var i := 0;
      while i < |tags| - 1
        invariant 0 <= i <= |tags| - 1
        invariant s == JavaStrings.JoinTrailing(Names(tags[..i]), TagPadding)
      {
        NamesSnoc(tags[..i], tags[i]);
        JavaStrings.JoinTrailingSnoc(Names(tags[..i]), tags[i].name, TagPadding);
        assert tags[..i + 1] == tags[..i] + [tags[i]];
        s := s + tags[i].name + TagPadding;
        i := i + 1;
      }
      s := s + tags[|tags| - 1].name;
      JavaStrings.JoinPlainAsTrailing(Names(tags), TagPadding);
      assert Names(tags)[..|tags| - 1] == Names(tags[..|tags| - 1]);
    }
  }

  // ---------------------------------------------------------------- create methods

  /** createGeoPoint: nothing happens while the database is not open. */
  method CreateGeoPoint(db: Database?, walkId: int, latitude: real, longitude: real)
    modifies db
    ensures db != null ==> db.State() == old(db.State()).(
      gps := old(db.gps) + [ChildRow(old(db.gpsSeq) + 1, walkId, latitude, longitude, ())],
      gpsSeq := old(db.gpsSeq) + 1)
  {
    if db != null {
      db.gpsSeq := db.gpsSeq + 1;
      db.gps := db.gps + [ChildRow(db.gpsSeq, walkId, latitude, longitude, ())];
    }
  }

  /** createPhoto: nothing happens while the database is not open. */
  method CreatePhoto(db: Database?, walkId: int, latitude: real, longitude: real, file: string)
    modifies db
    ensures db != null ==> db.State() == old(db.State()).(
      photos := old(db.photos) + [ChildRow(old(db.photoSeq) + 1, walkId, latitude, longitude, file)],
      photoSeq := old(db.photoSeq) + 1)
  {
    if db != null {
      db.photoSeq := db.photoSeq + 1;
      db.photos := db.photos + [ChildRow(db.photoSeq, walkId, latitude, longitude, file)];
    }
  }

  /** createNote: inserts the note and reads it back by the id it was given. */
  method CreateNote(db: Database, walkId: int, latitude: real, longitude: real, text: string) returns (note: Note)
    modifies db
    ensures db.State() == old(db.State()).(
      notes := old(db.notes) + [ChildRow(old(db.noteSeq) + 1, walkId, latitude, longitude, text)],
      noteSeq := old(db.noteSeq) + 1)
    ensures note == Note(old(db.noteSeq) + 1, latitude, longitude, text)
  {
    db.noteSeq := db.noteSeq + 1;
    var row := ChildRow(db.noteSeq, walkId, latitude, longitude, text);
    db.notes := db.notes + [row];
    note := CursorToNote(row);
  }

  /** A new point, photo or note keeps its table valid and joins the end of its walk's rows alone. */
  lemma InsertChildSpec<P>(rows: seq<ChildRow<P>>, last: nat, walkId: int, latitude: real, longitude: real, payload: P)
    requires ChildIdsValid(rows, last)
    ensures var x := ChildRow(last + 1, walkId, latitude, longitude, payload);
      ChildIdsValid(rows + [x], last + 1) &&
      OfWalk(rows + [x], walkId) == OfWalk(rows, walkId) + [x] &&
      forall v :: v != walkId ==> OfWalk(rows + [x], v) == OfWalk(rows, v)
  {
    var x := ChildRow(last + 1, walkId, latitude, longitude, payload);
    AppendKeepsIds(rows, x, last);
    forall v ensures OfWalk(rows + [x], v) == OfWalk(rows, v) + (if x.walkId == v then [x] else []) {
      AppendOfWalk(rows, x, v);
    }
  }

  // ---------------------------------------------------------------- delete methods

  method DeleteNotesForWalk(db: Database, id: int)
    modifies db
    ensures db.State() == old(db.State()).(notes := DropWalk(old(db.notes), id))
  {
    db.notes := DropWalk(db.notes, id);
  }

  method DeleteGeoPointForWalk(db: Database, id: int)
    modifies db
    ensures db.State() == old(db.State()).(gps := DropWalk(old(db.gps), id))
  {
    db.gps := DropWalk(db.gps, id);
  }

  method DeletePhotosForWalk(db: Database, id: int)
    modifies db
    ensures db.State() == old(db.State()).(photos := DropWalk(old(db.photos), id))
  {
    db.photos := DropWalk(db.photos, id);
  }

  method DeleteNote(db: Database, id: int)
    modifies db
    ensures db.State() == old(db.State()).(notes := DropId(old(db.notes), id))
  {
    db.notes := DropId(db.notes, id);
  }

  method DeletePhoto(db: Database, id: int)
    modifies db
    ensures db.State() == old(db.State()).(photos := DropId(old(db.photos), id))
  {
    db.photos := DropId(db.photos, id);
  }

  /** Deleting a note or photo by id takes it out of its walk and of no other, and keeps the table valid. */
  lemma DeleteByIdSpec<P>(rows: seq<ChildRow<P>>, last: int, id: int)
    requires ChildIdsValid(rows, last)
    ensures ChildIdsValid(DropId(rows, id), last)
    ensures forall x :: x in DropId(rows, id) ==> x in rows && x.id != id
    ensures forall x :: x in rows && x.id != id ==> x in DropId(rows, id)
    ensures forall v :: OfWalk(DropId(rows, id), v) == DropId(OfWalk(rows, v), id)
  {
    FilterKeepsIds(rows, (x: ChildRow<P>) => x.id != id, last);
    FilterMembers(rows, (x: ChildRow<P>) => x.id != id);
    forall v ensures OfWalk(DropId(rows, id), v) == DropId(OfWalk(rows, v), id) {
      DropIdOfWalk(rows, id, v);
    }
  }

  /** `delete from walks where _id = id`. */
  method DeleteWalkRow(db: Database, id: int)
    modifies db
    ensures db.State() == old(db.State()).(walks := DropWalkRow(old(db.walks), id))
  {
    db.walks := DropWalkRow(db.walks, id);
  }

  /**
   * deleteWalk: the background thread's three child deletes and search delete,
   * then the walk row; run one after the other, they end in the same state in
   * whatever order they interleave.
   */
  method DeleteWalk(db: Database, walk: Walk)
    modifies db
    ensures db.State() == DeleteWalkState(old(db.State()), walk.id)
  {
    var id := walk.id;
    DeletePhotosForWalk(db, id);
    DeleteGeoPointForWalk(db, id);
    DeleteNotesForWalk(db, id);
    db.search := DropSearch(db.search, id);
    DeleteWalkRow(db, id);
  }

  /** cancelWalk: the walk in progress, with its points, photos and notes. */
  method CancelWalk(db: Database)
    modifies db
    ensures db.State() == CancelWalkState(old(db.State()))
  {
    DeleteGeoPointForWalk(db, InProgressId);
    DeletePhotosForWalk(db, InProgressId);
    DeleteNotesForWalk(db, InProgressId);
    DeleteWalkRow(db, InProgressId);
  }

  // ---------------------------------------------------------------- edit methods

  /**
   * editWalk: sorts the walk's own tag list in place, then writes name,
   * description and the tag column to the walk row and to its search row.
   */
  method EditWalk(db: Database, walk: Walk)
    modifies db, walk.tags
    ensures walk.tags.items == SortTags(old(walk.tags.items)) && Sorted(walk.tags.items)
    ensures db.State() == EditWalkState(old(db.State()), walk.id, walk.name, walk.description, EncodeTrailing(walk.tags.items))
  {
    var tags := walk.tags;
    tags.Sort();
    var name := walk.name;
    var description := walk.description;
    var id := walk.id;
    var tagString := BuildTrailing(tags.items);
    db.walks := UpdateWalkRow(db.walks, id, name, description, tagString);
    db.search := UpdateSearch(db.search, id, name, description, tagString);
  }

  /** editNote: `update notes set note = text where _id = id`. */
  method EditNote(db: Database, id: int, text: string)
    modifies db
    ensures db.State() == old(db.State()).(notes := SetPayload(old(db.notes), id, text))
  {
    db.notes := SetPayload(db.notes, id, text);
  }

  /** Editing a note keeps the notes table valid and changes the text of that note alone. */
  lemma EditNoteSpec(rows: seq<ChildRow<string>>, last: int, id: int, text: string)
    requires ChildIdsValid(rows, last)
    ensures ChildIdsValid(SetPayload(rows, id, text), last)
    ensures forall i :: 0 <= i < |rows| ==>
      SetPayload(rows, id, text)[i].payload == (if rows[i].id == id then text else rows[i].payload) &&
      SetPayload(rows, id, text)[i].(payload := rows[i].payload) == rows[i]
  {
    SetPayloadKeepsIds(rows, id, text, last);
  }

  // ---------------------------------------------------------------- the walk in progress

  /**
   * createTemporaryWalk: clears walk 0's old rows, sorts the caller's tag list
   * in place, stores row 0 with every name followed by the padding and reads
   * it back; None where cursorToWalk throws.
   */
  method CreateTemporaryWalk(db: Database, name: string, description: string, tags: TagList, date: int)
    returns (w: Option<Walk>)
    modifies db, tags
    ensures tags.items == SortTags(old(tags.items)) && Sorted(tags.items)
    ensures db.State() == TemporaryWalkState(old(db.State()), name, description, EncodeTrailing(tags.items), date)
    ensures w.Some? <==> DecodeTags(EncodeTrailing(tags.items)).Some?
    ensures w.Some? ==> (fresh(w.value) && fresh(w.value.tags) &&
      w.value.Value() == WalkValue(InProgressId, name, description, date, DecodeTags(EncodeTrailing(tags.items)).value))
    ensures AllCarriable(old(tags.items)) ==> w.Some? && w.value.Value() == WalkValue(InProgressId, name, description, date, tags.items)
  {
    DeleteGeoPointForWalk(db, InProgressId);
    DeletePhotosForWalk(db, InProgressId);
    DeleteNotesForWalk(db, InProgressId);
    DeleteWalkRow(db, InProgressId);
    tags.Sort();
    var tagString := BuildTrailing(tags.items);
    var row := WalkRow(InProgressId, name, description, tagString, date);
    db.walks := [row] + db.walks;
    var found := FindWalk(db.walks, InProgressId);
    assert found == Some(row);
    w := CursorToWalk(found.value);
    if AllCarriable(old(tags.items)) {
      assert forall t :: t in tags.items <==> t in multiset(tags.items);
      AllCarriableSubset(old(tags.items), tags.items);
      TrailingRoundTrip(tags.items);
    }
  }

  /** The insert of saveWalk: the row goes in under the next AUTOINCREMENT id. */
  method InsertSavedWalk(db: Database, name: string, description: string, tags: string, date: int) returns (row: WalkRow)
    modifies db
    ensures row == SavedRow(old(db.State()), name, description, tags, date)
    ensures db.State() == InsertSavedState(old(db.State()), row)
  {
    row := WalkRow(db.walkSeq + 1, name, description, tags, date);
    db.walkSeq := db.walkSeq + 1;
    db.walks := db.walks + [row];
  }

  /** The rest of saveWalk: the search row, walk 0's children moved to `row`, and row 0 deleted. */
  method IndexAndAdopt(db: Database, row: WalkRow)
    modifies db
    ensures db.State() == old(db.State()).(
      search := old(db.search) + [SearchRow(row.id, row.name, row.description, row.tags)],
      gps := Reparent(old(db.gps), InProgressId, row.id),
      photos := Reparent(old(db.photos), InProgressId, row.id),
      notes := Reparent(old(db.notes), InProgressId, row.id),
      walks := DropWalkRow(old(db.walks), InProgressId))
  {
    db.search := db.search + [SearchRow(row.id, row.name, row.description, row.tags)];
    db.gps := Reparent(db.gps, InProgressId, row.id);
    db.photos := Reparent(db.photos, InProgressId, row.id);
    db.notes := Reparent(db.notes, InProgressId, row.id);
    DeleteWalkRow(db, InProgressId);
  }

  /**
   * saveWalk: sorts the walk's tag list (twice), inserts the walk under the
   * next id with the names joined by the padding, reads it back, and, when
   * that read succeeds, indexes it, moves walk 0's points, photos and notes to
   * it and deletes row 0. When the read throws, only the walk row is in.
   */
  method SaveWalk(db: Database, walk: Walk) returns (ok: bool)
    requires db.Valid()
    modifies db, walk.tags
    ensures walk.tags.items == SortTags(old(walk.tags.items)) && Sorted(walk.tags.items)
    ensures ok <==> DecodeTags(EncodePlain(walk.tags.items)).Some?
    ensures ok ==> db.State() == SaveWalkState(old(db.State()), walk.name, walk.description, EncodePlain(walk.tags.items), walk.date)
    ensures !ok ==> db.State() == InsertSavedState(old(db.State()),
      SavedRow(old(db.State()), walk.name, walk.description, EncodePlain(walk.tags.items), walk.date))
    ensures AllCarriable(old(walk.tags.items)) ==> ok
  {
    var tags := walk.tags;
    tags.Sort();
    SortTagsIdempotent(old(walk.tags.items));
    tags.Sort();
    var splitTags := BuildPlain(tags.items);
    ghost var before := db.State();
    InsertSavedSpec(before, walk.name, walk.description, splitTags, walk.date);
    var row := InsertSavedWalk(db, walk.name, walk.description, splitTags, walk.date);
    var found := FindWalk(db.walks, row.id);
    var read := CursorToWalk(found.value);
    SaveReadsBack(old(walk.tags.items), tags.items);
    if read.None? {
      return false;
    }
    IndexAndAdopt(db, row);
    ok := true;
  }

  /** A sorted copy of carriable tags is stored and read back by saveWalk unchanged. */
  lemma SaveReadsBack(before: seq<Tag>, after: seq<Tag>)
    requires multiset(after) == multiset(before)
    ensures AllCarriable(before) ==> DecodeTags(EncodePlain(after)) == Some(after)
  {
    if AllCarriable(before) {
      assert forall t :: t in after ==> t in multiset(before);
      AllCarriableSubset(before, after);
      PlainRoundTrip(after);
    }
  }

  // ---------------------------------------------------------------- deleting tags

  /** One pass of deleteTags' loop: getWalkById, removeAll, setTags and editWalk for walk `id`. */
  method StripWalkTags(db: Database, id: int, checked: seq<Tag>) returns (found: bool)
    modifies db
    ensures found <==> TagsOf(old(db.State()).walks, id).Some?
    ensures found ==> db.State() == StripTags(old(db.State()), id, checked)
    ensures !found ==> db.State() == old(db.State())
  {
    var walk := GetWalkById(db, id);
    if walk.None? {
      return false;
    }
    var currentTags := walk.value.tags;
    currentTags.RemoveAll(checked);
    walk.value.SetTags(currentTags);
    EditWalk(db, walk.value);
    found := true;
  }

  /**
   * deleteTags: an empty selection throws at `get(-1)` before anything is
   * read; otherwise every walk the query finds loses the checked tags through
   * getWalkById, removeAll, setTags and editWalk. False where it throws.
   */
  method DeleteTags(db: Database, checked: seq<Tag>) returns (ok: bool)
    modifies db
    ensures |checked| == 0 ==> !ok && db.State() == old(db.State())
    ensures |checked| > 0 ==> (ok, db.State()) == DeleteTagsState(old(db.State()), MatchedIds(old(db.search), checked), checked)
  {
    if |checked| == 0 {
      return false;
    }
    var ids := MatchedIds(db.search, checked);
    var i := 0;
    while i < |ids|
      invariant 0 <= i <= |ids|
      invariant DeleteTagsState(old(db.State()), ids, checked) == DeleteTagsState(db.State(), ids[i..], checked)
    {
      var found := StripWalkTags(db, ids[i], checked);
      if !found {
        return false;
      }
      assert ids[i..][1..] == ids[i + 1..];
      i := i + 1;
    }
    ok := true;
  }
}
