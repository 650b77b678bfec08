/**
 * What each of DataSource's writes does to the database, as a function from
 * the state before to the state after, with lemmas saying what each keeps
 * (the database invariant, the rows of other walks) and what it changes.
 */
module Changes {
  import opened Wrappers
  import opened Tags
  import JavaStrings
  import opened TagCodec
  import opened Store

  // ---------------------------------------------------------------- removing a walk

  /** deleteGeoPointForWalk, deletePhotosForWalk and deleteNotesForWalk for one walk id. */
  function DropChildren(s: DbState, id: int): DbState
  {
    s.(gps := DropWalk(s.gps, id), photos := DropWalk(s.photos, id), notes := DropWalk(s.notes, id))
  }

  /** cancelWalk: the walk in progress and everything recorded for it. */
  function CancelWalkState(s: DbState): DbState
  {
    var c := DropChildren(s, InProgressId);
    c.(walks := DropWalkRow(c.walks, InProgressId))
  }

  /** deleteWalk: the walk, its rows in the three child tables and its search row. */
  function DeleteWalkState(s: DbState, id: int): DbState
  {
    var c := DropChildren(s, id);
    c.(search := DropSearch(c.search, id), walks := DropWalkRow(c.walks, id))
  }

  /** Walk `id` has no walk row and no child rows in `r`; every other walk has in `r` what it had in `s`. */
  ghost predicate WalkGone(s: DbState, r: DbState, id: int)
  {
    FindWalk(r.walks, id).None? &&
    (forall v :: v != id ==> FindWalk(r.walks, v) == FindWalk(s.walks, v)) &&
    (forall v :: OfWalk(r.gps, v) == if v == id then [] else OfWalk(s.gps, v)) &&
    (forall v :: OfWalk(r.photos, v) == if v == id then [] else OfWalk(s.photos, v)) &&
    (forall v :: OfWalk(r.notes, v) == if v == id then [] else OfWalk(s.notes, v))
  }

  lemma DropChildrenSpec(s: DbState, id: int)
    requires ValidState(s)
    ensures ValidState(DropChildren(s, id))
    ensures forall v :: OfWalk(DropChildren(s, id).gps, v) == if v == id then [] else OfWalk(s.gps, v)
    ensures forall v :: OfWalk(DropChildren(s, id).photos, v) == if v == id then [] else OfWalk(s.photos, v)
    ensures forall v :: OfWalk(DropChildren(s, id).notes, v) == if v == id then [] else OfWalk(s.notes, v)
  {
    FilterKeepsIds(s.gps, (x: ChildRow<()>) => x.walkId != id, s.gpsSeq);
    FilterKeepsIds(s.photos, (x: ChildRow<string>) => x.walkId != id, s.photoSeq);
    FilterKeepsIds(s.notes, (x: ChildRow<string>) => x.walkId != id, s.noteSeq);
    forall v ensures OfWalk(DropChildren(s, id).gps, v) == if v == id then [] else OfWalk(s.gps, v) {
      DropWalkOfWalk(s.gps, id, v);
    }
    forall v ensures OfWalk(DropChildren(s, id).photos, v) == if v == id then [] else OfWalk(s.photos, v) {
      DropWalkOfWalk(s.photos, id, v);
    }
    forall v ensures OfWalk(DropChildren(s, id).notes, v) == if v == id then [] else OfWalk(s.notes, v) {
      DropWalkOfWalk(s.notes, id, v);
    }
  }

  /**
   * cancelWalk leaves no row that refers to walk 0, keeps every other walk's
   * rows and the search table, and keeps the database valid.
   */
  lemma CancelWalkSpec(s: DbState)
    requires ValidState(s)
    ensures ValidState(CancelWalkState(s))
    ensures WalkGone(s, CancelWalkState(s), InProgressId)
    ensures CancelWalkState(s).search == s.search && CancelWalkState(s).tables == s.tables
  {
    DropChildrenSpec(s, InProgressId);
    DropWalkRowKeepsIds(s.walks, InProgressId, s.walkSeq);
    SyncAfterDropInProgress(s.search, s.walks);
    forall v ensures FindWalk(CancelWalkState(s).walks, v) == if v == InProgressId then None else FindWalk(s.walks, v) {
      FindAfterDrop(s.walks, InProgressId, v);
    }
  }

  /**
   * deleteWalk leaves no walk row, child row or search row of the walk, keeps
   * every other walk's rows and search rows, and keeps the database valid.
   */
  lemma DeleteWalkSpec(s: DbState, id: int)
    requires ValidState(s)
    ensures ValidState(DeleteWalkState(s, id))
    ensures WalkGone(s, DeleteWalkState(s, id), id)
    ensures forall x :: x in DeleteWalkState(s, id).search ==> x in s.search && x.walkId != id
    ensures forall x :: x in s.search && x.walkId != id ==> x in DeleteWalkState(s, id).search
  {
    DropChildrenSpec(s, id);
    DropWalkRowKeepsIds(s.walks, id, s.walkSeq);
    SyncAfterDrop(s.search, s.walks, id);
    FilterMembers(s.search, (x: SearchRow) => x.walkId != id);
    forall v ensures FindWalk(DeleteWalkState(s, id).walks, v) == if v == id then None else FindWalk(s.walks, v) {
      FindAfterDrop(s.walks, id, v);
    }
  }

  // ---------------------------------------------------------------- editing a walk

  /** editWalk with the tag column already built: the walk row and its search row alike. */
  function EditWalkState(s: DbState, id: int, name: string, description: string, tags: string): DbState
  {
    s.(walks := UpdateWalkRow(s.walks, id, name, description, tags),
       search := UpdateSearch(s.search, id, name, description, tags))
  }

  /** Updating a walk row's text columns leaves every id where it was. */
  lemma UpdateKeepsIds(rows: seq<WalkRow>, id: int, name: string, description: string, tags: string, last: int)
    requires WalkIdsValid(rows, last)
    ensures WalkIdsValid(UpdateWalkRow(rows, id, name, description, tags), last)
  {
    var r := UpdateWalkRow(rows, id, name, description, tags);
    assert forall i :: 0 <= i < |rows| ==> r[i].id == rows[i].id;
    forall i, j | 0 <= i < j < |r| ensures WalkId(r[i]) < WalkId(r[j]) {
      assert WalkId(rows[i]) < WalkId(rows[j]);
    }
  }

  /**
   * editWalk changes the name, description and tags of walk `id` alone, writes
   * the same three values to its search rows, and touches nothing else.
   */
  lemma EditWalkSpec(s: DbState, id: int, name: string, description: string, tags: string)
    requires ValidState(s)
    ensures var r := EditWalkState(s, id, name, description, tags);
      ValidState(r) && r.gps == s.gps && r.photos == s.photos && r.notes == s.notes && r.tables == s.tables
    ensures forall k ::
              FindWalk(EditWalkState(s, id, name, description, tags).walks, k) ==
              if k == id && FindWalk(s.walks, k).Some?
              then Some(FindWalk(s.walks, k).value.(name := name, description := description, tags := tags))
              else FindWalk(s.walks, k)
    ensures var r := EditWalkState(s, id, name, description, tags);
      forall i :: 0 <= i < |r.search| && r.search[i].walkId == id ==>
        r.search[i].name == name && r.search[i].description == description && r.search[i].tags == tags
  {
    var r := EditWalkState(s, id, name, description, tags);
    UpdateKeepsIds(s.walks, id, name, description, tags, s.walkSeq);
    SyncAfterUpdate(s.search, s.walks, id, name, description, tags);
    forall k ensures FindWalk(r.walks, k) ==
      if k == id && FindWalk(s.walks, k).Some?
      then Some(FindWalk(s.walks, k).value.(name := name, description := description, tags := tags))
      else FindWalk(s.walks, k)
    {
      FindAfterUpdate(s.walks, id, name, description, tags, k);
    }
  }

  // ---------------------------------------------------------------- the walk in progress

  /** createTemporaryWalk with the tag column already built. */
  function TemporaryWalkState(s: DbState, name: string, description: string, tags: string, date: int): DbState
  {
    var c := DropChildren(s, InProgressId);
    c.(walks := [WalkRow(InProgressId, name, description, tags, date)] + DropWalkRow(c.walks, InProgressId))
  }

  /** Row 0 goes before every other walk row. */
  lemma PrependKeepsIds(rows: seq<WalkRow>, x: WalkRow, last: int)
    requires WalkIdsValid(rows, last) && x.id == InProgressId && 0 <= last
    requires forall y :: y in rows ==> y.id != InProgressId
    ensures WalkIdsValid([x] + rows, last)
  {
    var r := [x] + rows;
    forall i, j | 0 <= i < j < |r| ensures WalkId(r[i]) < WalkId(r[j]) {
      if i == 0 {
        assert r[j] == rows[j - 1] && rows[j - 1] in rows;
      } else {
        assert WalkId(rows[i - 1]) < WalkId(rows[j - 1]);
      }
    }
  }

  /**
   * createTemporaryWalk leaves exactly one walk row with id 0, the one it
   * inserted, and no older rows recorded for walk 0; every other walk and the
   * search table are untouched, and no counter moves.
   */
  lemma TemporaryWalkSpec(s: DbState, name: string, description: string, tags: string, date: int)
    requires ValidState(s)
    ensures var r := TemporaryWalkState(s, name, description, tags, date);
      ValidState(r) && r.search == s.search && r.walkSeq == s.walkSeq && r.tables == s.tables
    ensures FindWalk(TemporaryWalkState(s, name, description, tags, date).walks, InProgressId) ==
      Some(WalkRow(InProgressId, name, description, tags, date))
    ensures forall v :: v != InProgressId ==>
      FindWalk(TemporaryWalkState(s, name, description, tags, date).walks, v) == FindWalk(s.walks, v)
    ensures var r := TemporaryWalkState(s, name, description, tags, date);
      OfWalk(r.gps, InProgressId) == [] && OfWalk(r.photos, InProgressId) == [] && OfWalk(r.notes, InProgressId) == []
    ensures var r := TemporaryWalkState(s, name, description, tags, date);
      forall v :: v != InProgressId ==>
        OfWalk(r.gps, v) == OfWalk(s.gps, v) && OfWalk(r.photos, v) == OfWalk(s.photos, v) && OfWalk(r.notes, v) == OfWalk(s.notes, v)
  {
    var x := WalkRow(InProgressId, name, description, tags, date);
    var d := DropWalkRow(s.walks, InProgressId);
    DropChildrenSpec(s, InProgressId);
    DropWalkRowKeepsIds(s.walks, InProgressId, s.walkSeq);
    FilterMembers(s.walks, (y: WalkRow) => y.id != InProgressId);
    PrependKeepsIds(d, x, s.walkSeq);
    SyncAfterDropInProgress(s.search, s.walks);
    SyncAfterPrepend(s.search, d, x);
    forall v | v != InProgressId ensures FindWalk([x] + d, v) == FindWalk(s.walks, v) {
      assert ([x] + d)[1..] == d;
      FindAfterDrop(s.walks, InProgressId, v);
    }
  }

  // ---------------------------------------------------------------- saving the walk in progress

  /** The walk row saveWalk inserts: the next id the walks counter hands out. */
  function SavedRow(s: DbState, name: string, description: string, tags: string, date: int): WalkRow
  {
    WalkRow(s.walkSeq + 1, name, description, tags, date)
  }

  /** saveWalk's insert of the walk row, where it stops when that row cannot be read back. */
  function InsertSavedState(s: DbState, row: WalkRow): DbState
  {
    s.(walks := s.walks + [row], walkSeq := s.walkSeq + 1)
  }

  /** saveWalk: the walk row, its search row, the child rows moved from walk 0, and row 0 deleted. */
  function SaveWalkState(s: DbState, name: string, description: string, tags: string, date: int): DbState
  {
    var row := SavedRow(s, name, description, tags, date);
    var c := InsertSavedState(s, row);
    c.(search := c.search + [SearchRow(row.id, name, description, tags)],
       gps := Reparent(c.gps, InProgressId, row.id),
       photos := Reparent(c.photos, InProgressId, row.id),
       notes := Reparent(c.notes, InProgressId, row.id),
       walks := DropWalkRow(c.walks, InProgressId))
  }

  /** The inserted row has an id no other row has, so the query for that id reads it back. */
  lemma InsertSavedSpec(s: DbState, name: string, description: string, tags: string, date: int)
    requires ValidState(s)
    ensures var row := SavedRow(s, name, description, tags, date);
      ValidState(InsertSavedState(s, row)) && row.id != InProgressId &&
      FindWalk(s.walks, row.id).None? &&
      FindWalk(InsertSavedState(s, row).walks, row.id) == Some(row)
    ensures var row := SavedRow(s, name, description, tags, date);
      forall v :: v != row.id ==> FindWalk(InsertSavedState(s, row).walks, v) == FindWalk(s.walks, v)
  {
    var row := SavedRow(s, name, description, tags, date);
    assert forall y :: y in s.walks ==> y.id != row.id;
    WalkAppendKeepsIds(s.walks, row, s.walkSeq);
    SyncAfterAppend(s.search, s.walks, row);
    forall v ensures FindWalk(s.walks + [row], v) == if v == row.id then Some(row) else FindWalk(s.walks, v) {
      FindAfterAppend(s.walks, row, v);
    }
  }

  /** The search row saveWalk inserts is the only one for the new id. */
  lemma SaveIndexSync(s: DbState, name: string, description: string, tags: string, date: int)
    requires ValidState(s)
    ensures var row := SavedRow(s, name, description, tags, date);
      SearchSync(s.search + [SearchRow(row.id, name, description, tags)], s.walks + [row])
  {
    var row := SavedRow(s, name, description, tags, date);
    var c := InsertSavedState(s, row);
    InsertSavedSpec(s, name, description, tags, date);
    assert SearchSync(c.search, c.walks) && c.search == s.search;
    forall i | 0 <= i < |s.search| ensures s.search[i].walkId != row.id {
      assert FindWalk(s.walks, s.search[i].walkId).Some?;
    }
    assert forall x :: x in s.search ==> x.walkId != row.id;
    SyncAfterIndex(s.search, c.walks, row);
  }

  /** saveWalk keeps the database valid. */
  lemma SaveWalkValid(s: DbState, name: string, description: string, tags: string, date: int)
    requires ValidState(s)
    ensures ValidState(SaveWalkState(s, name, description, tags, date))
  {
    var row := SavedRow(s, name, description, tags, date);
    var c := InsertSavedState(s, row);
    var r := SaveWalkState(s, name, description, tags, date);
    InsertSavedSpec(s, name, description, tags, date);
    SaveIndexSync(s, name, description, tags, date);
    ReparentKeepsIds(c.gps, InProgressId, row.id, c.gpsSeq);
    ReparentKeepsIds(c.photos, InProgressId, row.id, c.photoSeq);
    ReparentKeepsIds(c.notes, InProgressId, row.id, c.noteSeq);
    DropWalkRowKeepsIds(c.walks, InProgressId, c.walkSeq);
    SyncAfterDropInProgress(r.search, c.walks);
  }

  /**
   * After saveWalk walk 0 has no row, the saved walk has a fresh id, its walk
   * row holds what was saved, its search row repeats it, and every other walk
   * keeps its row.
   */
  lemma SaveWalkSpec(s: DbState, name: string, description: string, tags: string, date: int)
    requires ValidState(s)
    ensures var n := s.walkSeq + 1; var r := SaveWalkState(s, name, description, tags, date);
      FindWalk(s.walks, n).None? && FindWalk(r.walks, InProgressId).None? &&
      FindWalk(r.walks, n) == Some(WalkRow(n, name, description, tags, date)) &&
      r.search == s.search + [SearchRow(n, name, description, tags)]
    ensures var n := s.walkSeq + 1; var r := SaveWalkState(s, name, description, tags, date);
      forall v :: v != InProgressId && v != n ==> FindWalk(r.walks, v) == FindWalk(s.walks, v)
  {
    var row := SavedRow(s, name, description, tags, date);
    var c := InsertSavedState(s, row);
    var r := SaveWalkState(s, name, description, tags, date);
    InsertSavedSpec(s, name, description, tags, date);
    forall v ensures FindWalk(r.walks, v) == if v == InProgressId then None else FindWalk(c.walks, v) {
      FindAfterDrop(c.walks, InProgressId, v);
    }
  }

  /**
   * saveWalk loses and duplicates no child row: each keeps its id and its
   * place, none refers to walk 0 afterwards, the rows of every other walk stay
   * as they were, and the saved walk, which had none, gets walk 0's in order.
   */
  lemma SaveWalkMovesChildren(s: DbState, name: string, description: string, tags: string, date: int)
    ensures var n := s.walkSeq + 1; var r := SaveWalkState(s, name, description, tags, date);
      |r.gps| == |s.gps| && |r.photos| == |s.photos| && |r.notes| == |s.notes| &&
      (forall i :: 0 <= i < |r.gps| ==> r.gps[i].id == s.gps[i].id && r.gps[i].walkId != InProgressId) &&
      (forall i :: 0 <= i < |r.photos| ==> r.photos[i].id == s.photos[i].id && r.photos[i].walkId != InProgressId) &&
      (forall i :: 0 <= i < |r.notes| ==> r.notes[i].id == s.notes[i].id && r.notes[i].walkId != InProgressId)
    ensures var n := s.walkSeq + 1; var r := SaveWalkState(s, name, description, tags, date);
      forall v :: v != InProgressId && v != n ==>
        OfWalk(r.gps, v) == OfWalk(s.gps, v) && OfWalk(r.photos, v) == OfWalk(s.photos, v) && OfWalk(r.notes, v) == OfWalk(s.notes, v)
    ensures var n := s.walkSeq + 1; var r := SaveWalkState(s, name, description, tags, date);
      (OfWalk(s.gps, n) == [] ==> OfWalk(r.gps, n) == Retarget(OfWalk(s.gps, InProgressId), n)) &&
      (OfWalk(s.photos, n) == [] ==> OfWalk(r.photos, n) == Retarget(OfWalk(s.photos, InProgressId), n)) &&
      (OfWalk(s.notes, n) == [] ==> OfWalk(r.notes, n) == Retarget(OfWalk(s.notes, InProgressId), n))
  {
    var n := s.walkSeq + 1;
    ReparentOfWalk(s.gps, InProgressId, n, n);
    ReparentOfWalk(s.photos, InProgressId, n, n);
    ReparentOfWalk(s.notes, InProgressId, n, n);
    forall v ensures v != InProgressId && v != n ==>
      OfWalk(Reparent(s.gps, InProgressId, n), v) == OfWalk(s.gps, v) &&
      OfWalk(Reparent(s.photos, InProgressId, n), v) == OfWalk(s.photos, v) &&
      OfWalk(Reparent(s.notes, InProgressId, n), v) == OfWalk(s.notes, v)
    {
      ReparentOfWalk(s.gps, InProgressId, n, v);
      ReparentOfWalk(s.photos, InProgressId, n, v);
      ReparentOfWalk(s.notes, InProgressId, n, v);
    }
  }

  // ---------------------------------------------------------------- deleting tags

  /**
   * The full-text MATCH of deleteTags, read as exact membership: some checked
   * name is one of the pieces of the search row's tag column.
   */
  predicate Matches(row: SearchRow, checked: seq<Tag>)
  {
    exists t :: t in checked && t.name in JavaStrings.Split(row.tags, TagPadding)
  }

  /** The walk ids of the matching search rows, in rowid order. */
  function MatchedIds(rows: seq<SearchRow>, checked: seq<Tag>): (r: seq<int>)
    ensures forall i :: 0 <= i < |rows| && Matches(rows[i], checked) ==> rows[i].walkId in r
    ensures forall id :: id in r ==> exists i :: 0 <= i < |rows| && rows[i].walkId == id && Matches(rows[i], checked)
  {
    if rows == [] then []
    else
      var rest := MatchedIds(rows[1..], checked);
      assert forall i :: 1 <= i < |rows| ==> rows[i] == rows[1..][i - 1];
      (if Matches(rows[0], checked) then [rows[0].walkId] else []) + rest
  }

  /** The tags walk `id` reads back with; None when it has no row or its column does not decode. */
  function TagsOf(walks: seq<WalkRow>, id: int): Option<seq<Tag>>
  {
    match FindWalk(walks, id)
    case None => None
    case Some(row) => DecodeTags(row.tags)
  }

  /** Every readable tag column holds names that can travel through it: non-empty and without a comma. */
  predicate RowsCarriable(walks: seq<WalkRow>)
  {
    forall i :: 0 <= i < |walks| ==> DecodeTags(walks[i].tags).Some? ==> AllCarriable(DecodeTags(walks[i].tags).value)
  }

  /** Walk `id` reads back in `after` with the tags it read back with in `before`, minus the checked ones. */
  ghost predicate TagsMinus(after: seq<WalkRow>, before: seq<WalkRow>, id: int, checked: seq<Tag>)
  {
    TagsOf(after, id).Some? && TagsOf(before, id).Some? &&
    forall t :: t in TagsOf(after, id).value <==> t in TagsOf(before, id).value && t !in checked
  }

  /** The edit deleteTags makes to a walk it can read: removeAll, then editWalk's sort and store. */
  function StripTags(s: DbState, id: int, checked: seq<Tag>): DbState
    requires TagsOf(s.walks, id).Some?
  {
    var row := FindWalk(s.walks, id).value;
    EditWalkState(s, id, row.name, row.description, EncodeTrailing(SortTags(Without(TagsOf(s.walks, id).value, checked))))
  }

  /**
   * deleteTags for the ids its query found: for each, getWalkById, removeAll,
   * setTags and editWalk; false where getWalkById throws.
   */
  function DeleteTagsState(s: DbState, ids: seq<int>, checked: seq<Tag>): (bool, DbState)
    decreases |ids|
  {
    if ids == [] then (true, s)
    else if TagsOf(s.walks, ids[0]).None? then (false, s)
    else DeleteTagsState(StripTags(s, ids[0], checked), ids[1..], checked)
  }

  /** The step changes the row of walk `id` and no other. */
  lemma StripTagsFrame(s: DbState, id: int, checked: seq<Tag>)
    requires TagsOf(s.walks, id).Some?
    ensures var r := StripTags(s, id, checked);
      forall k :: k != id ==> FindWalk(r.walks, k) == FindWalk(s.walks, k) && TagsOf(r.walks, k) == TagsOf(s.walks, k)
  {
    var row := FindWalk(s.walks, id).value;
    var enc := EncodeTrailing(SortTags(Without(TagsOf(s.walks, id).value, checked)));
    forall k | k != id ensures FindWalk(StripTags(s, id, checked).walks, k) == FindWalk(s.walks, k) {
      FindAfterUpdate(s.walks, id, row.name, row.description, enc, k);
    }
  }

  /** One step of deleteTags: the walk reads back with its tags minus the checked ones, and no other walk changes. */
  lemma DeleteTagsStep(s: DbState, id: int, checked: seq<Tag>)
    requires RowsCarriable(s.walks) && TagsOf(s.walks, id).Some?
    ensures var r := StripTags(s, id, checked);
      RowsCarriable(r.walks) && TagsMinus(r.walks, s.walks, id, checked)
    ensures var r := StripTags(s, id, checked);
      forall k :: k != id ==> FindWalk(r.walks, k) == FindWalk(s.walks, k) && TagsOf(r.walks, k) == TagsOf(s.walks, k)
  {
    StripTagsFrame(s, id, checked);
    var row := FindWalk(s.walks, id).value;
    var old_tags := TagsOf(s.walks, id).value;
    var kept := SortTags(Without(old_tags, checked));
    var enc := EncodeTrailing(kept);
    var r := StripTags(s, id, checked);
    FindAfterUpdate(s.walks, id, row.name, row.description, enc, id);
    var i :| 0 <= i < |s.walks| && s.walks[i] == row;
    assert AllCarriable(old_tags);
    WithoutMeaning(old_tags, checked);
    assert forall t :: t in kept <==> t in multiset(kept);
    assert forall t :: t in Without(old_tags, checked) <==> t in multiset(Without(old_tags, checked));
    AllCarriableSubset(old_tags, kept);
    TrailingRoundTrip(kept);
    assert TagsOf(r.walks, id) == Some(kept);
    assert RowsCarriable(r.walks) by {
      forall j | 0 <= j < |r.walks| && DecodeTags(r.walks[j].tags).Some?
        ensures AllCarriable(DecodeTags(r.walks[j].tags).value)
      {
        if s.walks[j].id != id {
          assert r.walks[j] == s.walks[j];
        }
      }
    }
  }

  /** After the step the database can still be read and its tag names carried. */
  lemma StripTagsReadable(s: DbState, id: int, checked: seq<Tag>)
    requires RowsCarriable(s.walks) && TagsOf(s.walks, id).Some?
    ensures RowsCarriable(StripTags(s, id, checked).walks) && TagsOf(StripTags(s, id, checked).walks, id).Some?
  {
    DeleteTagsStep(s, id, checked);
  }

  /** The same step keeps the database valid and leaves the child tables alone. */
  lemma StripTagsValid(s: DbState, id: int, checked: seq<Tag>)
    requires ValidState(s) && TagsOf(s.walks, id).Some?
    ensures var r := StripTags(s, id, checked);
      ValidState(r) && r.gps == s.gps && r.photos == s.photos && r.notes == s.notes
  {
    var row := FindWalk(s.walks, id).value;
    EditWalkSpec(s, id, row.name, row.description, EncodeTrailing(SortTags(Without(TagsOf(s.walks, id).value, checked))));
  }

  lemma ConsMembers(ids: seq<int>)
    requires ids != []
    ensures forall x :: x in ids <==> x == ids[0] || x in ids[1..]
  {
    assert ids == [ids[0]] + ids[1..];
  }

  /** deleteTags keeps the database valid and its tag names carriable, and never touches the child tables. */
  lemma {:induction false} DeleteTagsKeeps(s: DbState, ids: seq<int>, checked: seq<Tag>)
    requires ValidState(s) && RowsCarriable(s.walks)
    ensures var r := DeleteTagsState(s, ids, checked).1;
      ValidState(r) && RowsCarriable(r.walks) && r.gps == s.gps && r.photos == s.photos && r.notes == s.notes
    decreases |ids|
  {
    if ids != [] && TagsOf(s.walks, ids[0]).Some? {
      StripTagsReadable(s, ids[0], checked);
      StripTagsValid(s, ids[0], checked);
      DeleteTagsKeeps(StripTags(s, ids[0], checked), ids[1..], checked);
    }
  }

  /** deleteTags leaves every walk not among the ids as it was. */
  lemma {:induction false} DeleteTagsFrame(s: DbState, ids: seq<int>, checked: seq<Tag>)
    requires RowsCarriable(s.walks)
    ensures var r := DeleteTagsState(s, ids, checked).1;
      forall k :: k !in ids ==> FindWalk(r.walks, k) == FindWalk(s.walks, k)
    decreases |ids|
  {
    if ids != [] && TagsOf(s.walks, ids[0]).Some? {
      DeleteTagsStep(s, ids[0], checked);
      DeleteTagsFrame(StripTags(s, ids[0], checked), ids[1..], checked);
      ConsMembers(ids);
    }
  }

  /** deleteTags completes exactly when every walk its query found can be read. */
  lemma {:induction false} DeleteTagsCompletes(s: DbState, ids: seq<int>, checked: seq<Tag>)
    requires RowsCarriable(s.walks)
    ensures DeleteTagsState(s, ids, checked).0 <==> forall id :: id in ids ==> TagsOf(s.walks, id).Some?
    decreases |ids|
  {
    if ids != [] && TagsOf(s.walks, ids[0]).Some? {
      var s1 := StripTags(s, ids[0], checked);
      assert DeleteTagsState(s, ids, checked) == DeleteTagsState(s1, ids[1..], checked);
      StripTagsReadable(s, ids[0], checked);
      StripTagsFrame(s, ids[0], checked);
      DeleteTagsCompletes(s1, ids[1..], checked);
      forall id | id in ids[1..] ensures TagsOf(s1.walks, id).Some? == TagsOf(s.walks, id).Some? {
        if id != ids[0] {
          assert TagsOf(s1.walks, id) == TagsOf(s.walks, id);
        }
      }
      ConsMembers(ids);
    }
  }

  /**
   * When deleteTags completes, each walk it found reads back with its old tags
   * minus the checked ones: no checked tag is left and every other one is kept.
   */
  lemma {:induction false} DeleteTagsEffect(s: DbState, ids: seq<int>, checked: seq<Tag>)
    requires RowsCarriable(s.walks)
    ensures var res := DeleteTagsState(s, ids, checked);
      res.0 ==> forall id :: id in ids ==> TagsMinus(res.1.walks, s.walks, id, checked)
    decreases |ids|
  {
    if ids != [] && TagsOf(s.walks, ids[0]).Some? {
      var id := ids[0];
      var s1 := StripTags(s, id, checked);
      var res := DeleteTagsState(s1, ids[1..], checked);
      assert DeleteTagsState(s, ids, checked) == res;
      DeleteTagsStep(s, id, checked);
      DeleteTagsEffect(s1, ids[1..], checked);
      DeleteTagsFrame(s1, ids[1..], checked);
      ConsMembers(ids);
      if res.0 {
        forall x | x in ids ensures TagsMinus(res.1.walks, s.walks, x, checked) {
          if x == id {
            if x in ids[1..] {
              assert TagsMinus(res.1.walks, s1.walks, x, checked);
            } else {
              assert TagsOf(res.1.walks, x) == TagsOf(s1.walks, x);
            }
          } else {
            assert TagsMinus(res.1.walks, s1.walks, x, checked);
            assert TagsOf(s1.walks, x) == TagsOf(s.walks, x);
          }
        }
      }
    }
  }

  /**
   * The query reaches every saved walk that holds a checked tag: its search row
   * repeats its tag column, and a tag read from that column is one of its pieces.
   */
  lemma MatchReachesTaggedWalks(s: DbState, checked: seq<Tag>)
    requires ValidState(s)
    ensures forall i, t ::
      (0 <= i < |s.search| && t in checked &&
       TagsOf(s.walks, s.search[i].walkId).Some? && t in TagsOf(s.walks, s.search[i].walkId).value) ==>
        s.search[i].walkId in MatchedIds(s.search, checked)
  {
    forall i, t | 0 <= i < |s.search| && t in checked &&
      TagsOf(s.walks, s.search[i].walkId).Some? && t in TagsOf(s.walks, s.search[i].walkId).value
      ensures s.search[i].walkId in MatchedIds(s.search, checked)
    {
      var row := FindWalk(s.walks, s.search[i].walkId).value;
      assert Mirrors(s.search[i], row);
      assert t.name in JavaStrings.Split(s.search[i].tags, TagPadding);
      assert Matches(s.search[i], checked);
    }
  }

  /**
   * deleteTags as a whole: when it completes, every saved walk that could be
   * read before reads back with its old tags minus the checked ones, and the
   * walk in progress, which has no search row, is left as it was.
   */
  lemma DeleteTagsSpec(s: DbState, checked: seq<Tag>)
    requires ValidState(s) && RowsCarriable(s.walks)
    ensures var res := DeleteTagsState(s, MatchedIds(s.search, checked), checked);
      res.0 ==> forall i :: 0 <= i < |s.search| && TagsOf(s.walks, s.search[i].walkId).Some? ==>
        TagsMinus(res.1.walks, s.walks, s.search[i].walkId, checked)
    ensures var res := DeleteTagsState(s, MatchedIds(s.search, checked), checked);
      FindWalk(res.1.walks, InProgressId) == FindWalk(s.walks, InProgressId)
  {
    var ids := MatchedIds(s.search, checked);
    var res := DeleteTagsState(s, ids, checked);
    DeleteTagsEffect(s, ids, checked);
    DeleteTagsFrame(s, ids, checked);
    MatchReachesTaggedWalks(s, checked);
    assert forall i :: 0 <= i < |s.search| ==> s.search[i].walkId != InProgressId;
    assert InProgressId !in ids;
    if res.0 {
      forall i | 0 <= i < |s.search| && TagsOf(s.walks, s.search[i].walkId).Some?
        ensures TagsMinus(res.1.walks, s.walks, s.search[i].walkId, checked)
      {
        var id := s.search[i].walkId;
        if id !in ids {
          assert TagsOf(res.1.walks, id) == TagsOf(s.walks, id);
          assert forall t :: t in TagsOf(s.walks, id).value ==> t !in checked;
        }
      }
    }
  }
}
