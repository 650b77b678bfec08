/**
 * The map screen's icons: which photos are drawn plain, drawn with the stacked icon or not
 * drawn at all, the overlay items the photo and note overlays receive, and deleting a note
 * or a photo from the map.
 */
module MapIcons {
  import opened Wrappers
  import opened Walks
  import opened Store
  import DataSource

  /** The codes of the photo status array. */
  const DRAW_PHOTO := 1
  const DRAW_STACKED_PHOTO := 3
  const DRAW_NONE := 6

  /** A position on the screen, in pixels. */
  datatype Pixel = Pixel(x: int, y: int)

  /** An overlay item: a map position, a title and an optional snippet. */
  datatype OverlayItem = OverlayItem(latitude: real, longitude: real, title: string, snippet: Option<string>)

  /** The overlays the map view draws. */
  datatype Layer = LineLayer | NoteLayer | PhotoLayer | StackedLayer

  // ---------------------------------------------------------------- titles

  function DigitChar(d: nat): char
    requires d < 10
  {
    ('0' as int + d) as char
  }

  /** `i + ""`: the decimal digits of an index. */
  function Decimal(n: nat): (s: string)
    ensures |s| > 0 && '0' <= s[0] <= '9'
    decreases n
  {
    if n < 10 then [DigitChar(n)] else Decimal(n / 10) + [DigitChar(n % 10)]
  }

  /** The value of a string of decimal digits; None when it is empty or holds another character. */
  function ParseDigits(s: string): Option<nat>
    decreases |s|
  {
    if |s| == 0 then None
    else
      var c := s[|s| - 1];
      if !('0' <= c <= '9') then None
      else if |s| == 1 then Some(c as int - '0' as int)
      else match ParseDigits(s[..|s| - 1])
        case None => None
        case Some(v) => Some(10 * v + (c as int - '0' as int))
  }

  /** `Integer.parseInt`: an optional minus sign, then digits, within 32 bits; None where it throws. */
  function ParseInt(s: string): Option<int>
  {
    var negative := |s| > 1 && s[0] == '-';
    match ParseDigits(if negative then s[1..] else s)
    case None => None
    case Some(v) =>
      var w: int := v;
      var r := if negative then -w else w;
      if -0x8000_0000 <= r < 0x8000_0000 then Some(r) else None
  }

  lemma {:induction false} ParseDigitsDecimal(n: nat)
    ensures ParseDigits(Decimal(n)) == Some(n)
    decreases n
  {
    if n >= 10 {
      var s := Decimal(n);
      assert s[..|s| - 1] == Decimal(n / 10);
      ParseDigitsDecimal(n / 10);
    }
  }

  /** An overlay's title gives back the index it was made from. */
  lemma TitleRoundTrip(n: nat)
    requires n < 0x8000_0000
    ensures ParseInt(Decimal(n)) == Some(n)
  {
    ParseDigitsDecimal(n);
  }

  /** Two indices with the same title are the same index. */
  lemma DecimalInjective(m: nat, n: nat)
    ensures Decimal(m) == Decimal(n) <==> m == n
  {
    ParseDigitsDecimal(m);
    ParseDigitsDecimal(n);
  }

  // ---------------------------------------------------------------- overlap

  /** The outer photo lies within `g` pixels of the inner one, across and down. */
  predicate Overlap(g: int, a: Pixel, b: Pixel)
  {
    a.x <= b.x + g && a.x >= b.x - g && a.y <= b.y + g && a.y >= b.y - g
  }

  lemma OverlapSymmetric(g: int, a: Pixel, b: Pixel)
    ensures Overlap(g, a, b) <==> Overlap(g, b, a)
    ensures Overlap(g, a, b) <==> -g <= a.x - b.x <= g && -g <= a.y - b.y <= g
  {
  }

  /** Whether one of the photos at positions lo .. hi - 1 overlaps photo k. */
  function Hits(p: seq<Pixel>, g: int, k: nat, lo: nat, hi: nat): bool
    requires k < |p| && hi <= |p|
    decreases hi
  {
    if hi <= lo then false else Hits(p, g, k, lo, hi - 1) || Overlap(g, p[hi - 1], p[k])
  }

  lemma {:induction false} HitsMeaning(p: seq<Pixel>, g: int, k: nat, lo: nat, hi: nat)
    requires k < |p| && hi <= |p|
    ensures Hits(p, g, k, lo, hi) <==> exists m :: lo <= m < hi && Overlap(g, p[m], p[k])
    decreases hi
  {
    if hi > lo {
      HitsMeaning(p, g, k, lo, hi - 1);
    }
  }

  /**
   * The status a photo ends with: stacked when a later photo overlaps it, otherwise hidden
   * when an earlier photo overlaps it, otherwise drawn.
   */
  function Status(p: seq<Pixel>, g: int, k: nat): int
    requires k < |p|
  {
    if Hits(p, g, k, k + 1, |p|) then DRAW_STACKED_PHOTO
    else if Hits(p, g, k, 0, k) then DRAW_NONE
    else DRAW_PHOTO
  }

  /** The status of photo k once the outer loop has passed the photos before i and not k. */
  function Seen(p: seq<Pixel>, g: int, k: nat, i: nat): int
    requires k < |p| && i <= |p|
  {
    if Hits(p, g, k, 0, i) then DRAW_NONE else DRAW_PHOTO
  }

  lemma StatusMeaning(p: seq<Pixel>, g: int, k: nat)
    requires k < |p|
    ensures Status(p, g, k) in {DRAW_PHOTO, DRAW_STACKED_PHOTO, DRAW_NONE}
    ensures Status(p, g, k) == DRAW_STACKED_PHOTO <==> exists m :: k < m < |p| && Overlap(g, p[k], p[m])
    ensures Status(p, g, k) == DRAW_NONE <==>
      (forall m :: k < m < |p| ==> !Overlap(g, p[k], p[m])) && exists m :: 0 <= m < k && Overlap(g, p[m], p[k])
    ensures Status(p, g, k) == DRAW_PHOTO <==>
      forall m :: 0 <= m < |p| && m != k ==> !Overlap(g, p[m], p[k])
  {
    HitsMeaning(p, g, k, k + 1, |p|);
    HitsMeaning(p, g, k, 0, k);
    forall m | 0 <= m < |p| {
      OverlapSymmetric(g, p[k], p[m]);
    }
  }

  /** The first photo is never hidden and the last is never stacked. */
  lemma StatusEnds(p: seq<Pixel>, g: int)
    requires |p| > 0
    ensures Status(p, g, 0) != DRAW_NONE
    ensures Status(p, g, |p| - 1) != DRAW_STACKED_PHOTO
  {
  }

  /**
   * drawPhotoIcons' status array: every photo starts as drawn; then each photo but the last,
   * as the outer photo, is marked stacked and the later photo hidden for every later photo that
   * overlaps it.
   */
  method ComputeStatus(p: seq<Pixel>, g: int) returns (s: seq<int>)
    ensures |s| == |p|
    ensures forall k :: 0 <= k < |p| ==> s[k] == Status(p, g, k)
  {
    var n := |p|;
    var status := new int[n];
    var i := 0;
    while i < n
      invariant 0 <= i <= n
      invariant forall k :: 0 <= k < i ==> status[k] == DRAW_PHOTO
    {
      status[i] := DRAW_PHOTO;
      i := i + 1;
    }
    i := 0;
    while i + 1 < n
      invariant 0 <= i <= n && (n > 0 ==> i < n)
      invariant forall k :: 0 <= k < i ==> status[k] == Status(p, g, k)
      invariant forall k :: i <= k < n ==> status[k] == Seen(p, g, k, i)
    {
      if status[i] == DRAW_STACKED_PHOTO {
        // the source's `continue`: only the outer photo is ever marked stacked
        assert false;
      }
      var outer := p[i];
      var j := i + 1;
      while j < n
        invariant i + 1 <= j <= n
        invariant forall k :: 0 <= k < i ==> status[k] == Status(p, g, k)
        invariant status[i] == if Hits(p, g, i, i + 1, j) then DRAW_STACKED_PHOTO else Seen(p, g, i, i)
        invariant forall k :: i < k < j ==> status[k] == Seen(p, g, k, i + 1)
        invariant forall k :: j <= k < n ==> status[k] == Seen(p, g, k, i)
      {
        if status[j] == DRAW_STACKED_PHOTO {
          // the source's `continue`: a later photo is never stacked yet
          assert false;
        }
        var inner := p[j];
        OverlapSymmetric(g, outer, inner);
        if outer.x <= inner.x + g && outer.x >= inner.x - g && outer.y <= inner.y + g && outer.y >= inner.y - g {
          status[i] := DRAW_STACKED_PHOTO;
          status[j] := DRAW_NONE;
        }
        j := j + 1;
      }
      i := i + 1;
    }
    s := status[..];
  }

  // ---------------------------------------------------------------- overlay items

  function PhotoItem(photo: DataSource.Photo, i: nat): OverlayItem
  {
    OverlayItem(photo.latitude, photo.longitude, Decimal(i), None)
  }

  function NoteItem(note: DataSource.Note, i: nat): OverlayItem
  {
    OverlayItem(note.latitude, note.longitude, Decimal(i), Some(note.text))
  }

  /** The photos whose status is `want`, in order, each titled with its index. */
  function Placed(photos: seq<DataSource.Photo>, status: seq<int>, want: int): seq<OverlayItem>
    requires |status| <= |photos|
    decreases |status|
  {
    if |status| == 0 then []
    else
      var last := |status| - 1;
      Placed(photos, status[..last], want) + (if status[last] == want then [PhotoItem(photos[last], last)] else [])
  }

  /** One overlay item per note, titled with its index and carrying the note's text. */
  function NoteItems(notes: seq<DataSource.Note>): (r: seq<OverlayItem>)
    ensures |r| == |notes|
    decreases |notes|
  {
    if |notes| == 0 then [] else NoteItems(notes[..|notes| - 1]) + [NoteItem(notes[|notes| - 1], |notes| - 1)]
  }

  lemma {:induction false} PlacedMembers(photos: seq<DataSource.Photo>, status: seq<int>, want: int)
    requires |status| <= |photos|
    ensures forall x :: x in Placed(photos, status, want) <==>
      exists i :: 0 <= i < |status| && status[i] == want && x == PhotoItem(photos[i], i)
    decreases |status|
  {
    if |status| > 0 {
      var last := |status| - 1;
      PlacedMembers(photos, status[..last], want);
      forall x ensures x in Placed(photos, status, want) <==>
        exists i :: 0 <= i < |status| && status[i] == want && x == PhotoItem(photos[i], i)
      {
        if x in Placed(photos, status[..last], want) {
          var i :| 0 <= i < last && status[..last][i] == want && x == PhotoItem(photos[i], i);
          assert status[i] == want;
        }
      }
    }
  }

  /**
   * Photo i is in the overlay for `want` exactly when its status is `want`, and every item of
   * that overlay is one such photo, titled with its index.
   */
  lemma PlacedExactly(photos: seq<DataSource.Photo>, status: seq<int>, want: int)
    requires |status| <= |photos|
    ensures forall i :: 0 <= i < |status| ==> (PhotoItem(photos[i], i) in Placed(photos, status, want) <==> status[i] == want)
    ensures forall x :: x in Placed(photos, status, want) ==>
      exists i :: 0 <= i < |status| && status[i] == want && x == PhotoItem(photos[i], i)
  {
    PlacedMembers(photos, status, want);
    forall i, m | 0 <= i < |status| && 0 <= m < |status| && PhotoItem(photos[i], i) == PhotoItem(photos[m], m)
      ensures i == m
    {
      DecimalInjective(i, m);
    }
  }

  /** No photo item is both in the plain overlay and in the stacked overlay. */
  lemma OverlaysDisjoint(photos: seq<DataSource.Photo>, status: seq<int>)
    requires |status| <= |photos|
    ensures forall x :: !(x in Placed(photos, status, DRAW_PHOTO) && x in Placed(photos, status, DRAW_STACKED_PHOTO))
  {
    PlacedExactly(photos, status, DRAW_PHOTO);
    PlacedExactly(photos, status, DRAW_STACKED_PHOTO);
  }

  lemma {:induction false} NoteItemsMeaning(notes: seq<DataSource.Note>)
    ensures |NoteItems(notes)| == |notes|
    ensures forall k :: 0 <= k < |notes| ==> NoteItems(notes)[k] == NoteItem(notes[k], k)
    decreases |notes|
  {
    if |notes| > 0 {
      NoteItemsMeaning(notes[..|notes| - 1]);
    }
  }

  /** Tapping note item k reports note k, and shows that note's text. */
  lemma NoteItemTapped(notes: seq<DataSource.Note>, k: nat)
    requires k < |notes| < 0x8000_0000
    ensures ParseInt(NoteItems(notes)[k].title) == Some(k)
    ensures NoteItems(notes)[k].snippet == Some(notes[k].text)
  {
    NoteItemsMeaning(notes);
    TitleRoundTrip(k);
  }

  /** The screen position of every photo. */
  function Pixels(photos: seq<DataSource.Photo>, project: DataSource.Photo -> Pixel): (r: seq<Pixel>)
    ensures |r| == |photos| && forall k :: 0 <= k < |photos| ==> r[k] == project(photos[k])
  {
    seq(|photos|, k requires 0 <= k < |photos| => project(photos[k]))
  }

  /** The final status of every photo. */
  function Layout(photos: seq<DataSource.Photo>, project: DataSource.Photo -> Pixel, g: int): (r: seq<int>)
    ensures |r| == |photos| && forall k :: 0 <= k < |photos| ==> r[k] == Status(Pixels(photos, project), g, k)
  {
    var p := Pixels(photos, project);
    seq(|photos|, k requires 0 <= k < |photos| => Status(p, g, k))
  }

  /** The rows a walk's child query loaded, in order, converted. */
  predicate PhotosLoaded(rows: seq<ChildRow<string>>, photos: seq<DataSource.Photo>)
  {
    |photos| == |rows| && forall i :: 0 <= i < |rows| ==> photos[i] == DataSource.PhotoOf(rows[i])
  }

  predicate NotesLoaded(rows: seq<ChildRow<string>>, notes: seq<DataSource.Note>)
  {
    |notes| == |rows| && forall i :: 0 <= i < |rows| ==> notes[i] == DataSource.NoteOf(rows[i])
  }

  /** A row that survives `delete ... where _id = id` and the walk's query does not have that id. */
  lemma ReloadedWithout(rows: seq<ChildRow<string>>, id: int, w: int)
    ensures forall x :: x in OfWalk(DropId(rows, id), w) ==> x.id != id && x.walkId == w && x in rows
  {
    FilterMembers(DropId(rows, id), (x: ChildRow<string>) => x.walkId == w);
    FilterMembers(rows, (x: ChildRow<string>) => x.id != id);
  }

  /** A row of the walk's query after `update ... where _id = id` that has that id holds the new text. */
  lemma ReloadedEdited(rows: seq<ChildRow<string>>, id: int, text: string, w: int)
    ensures forall x :: x in OfWalk(SetPayload(rows, id, text), w) && x.id == id ==> x.payload == text
  {
    FilterMembers(SetPayload(rows, id, text), (x: ChildRow<string>) => x.walkId == w);
    forall x | x in SetPayload(rows, id, text) && x.id == id ensures x.payload == text {
      var i :| 0 <= i < |SetPayload(rows, id, text)| && SetPayload(rows, id, text)[i] == x;
    }
  }

  // ---------------------------------------------------------------- the activity

  /** The map activity's lists and overlays. */
  class MapActivity {
    const walk: Walk
    var photoList: seq<DataSource.Photo>
    var noteList: seq<DataSource.Note>
    var photoOverlay: seq<OverlayItem>
    var photoStackedOverlay: seq<OverlayItem>
    var noteOverlay: seq<OverlayItem>
    var mapOverlays: seq<Layer>
    /** The files `deletePhoto` tried to delete, in order. */
    var fileDeletes: seq<string>
    /** How many "error deleting photo" toasts were shown. */
    var errorToasts: nat

    /** onCreate: the walk's photos and notes are loaded from the database, with nothing drawn yet. */
    constructor (db: Database, walk: Walk)
      ensures this.walk == walk
      ensures PhotosLoaded(OfWalk(db.photos, walk.id), photoList)
      ensures NotesLoaded(OfWalk(db.notes, walk.id), noteList)
      ensures photoOverlay == [] && photoStackedOverlay == [] && noteOverlay == [] && mapOverlays == []
      ensures fileDeletes == [] && errorToasts == 0
    {
      this.walk := walk;
      var photos := DataSource.GetPhotosForWalk(db, walk);
      var notes := DataSource.GetNotesForWalk(db, walk);
      photoList, noteList := photos, notes;
      photoOverlay, photoStackedOverlay, noteOverlay, mapOverlays := [], [], [], [];
      fileDeletes, errorToasts := [], 0;
    }

    /** drawNoteIcons: one item per note, then the note overlay is added to the map. */
    method DrawNoteIcons()
      modifies this
      ensures noteOverlay == NoteItems(noteList)
      ensures mapOverlays == old(mapOverlays) + [NoteLayer]
      ensures photoList == old(photoList) && noteList == old(noteList)
      ensures photoOverlay == old(photoOverlay) && photoStackedOverlay == old(photoStackedOverlay)
      ensures fileDeletes == old(fileDeletes) && errorToasts == old(errorToasts)
    {
      noteOverlay := [];
      var i := 0;
      while i < |noteList|
        invariant 0 <= i <= |noteList|
        invariant noteOverlay == NoteItems(noteList[..i])
        invariant photoList == old(photoList) && noteList == old(noteList) && mapOverlays == old(mapOverlays)
        invariant photoOverlay == old(photoOverlay) && photoStackedOverlay == old(photoStackedOverlay)
        invariant fileDeletes == old(fileDeletes) && errorToasts == old(errorToasts)
      {
        assert noteList[..i + 1][..i] == noteList[..i];
        noteOverlay := noteOverlay + [NoteItem(noteList[i], i)];
        i := i + 1;
      }
      assert noteList[..i] == noteList;
      mapOverlays := mapOverlays + [NoteLayer];
    }

    /**
     * drawPhotoIcons: the photos drawn plain go to the photo overlay and the stacked ones to
     * the stacked overlay, in order and titled with their index; then both overlays are added.
     * `project` is the map's projection of a photo's position, `g` the grid size in pixels.
     */
    method DrawPhotoIcons(project: DataSource.Photo -> Pixel, g: int)
      modifies this
      ensures photoOverlay == Placed(photoList, Layout(photoList, project, g), DRAW_PHOTO)
      ensures photoStackedOverlay == Placed(photoList, Layout(photoList, project, g), DRAW_STACKED_PHOTO)
      ensures mapOverlays == old(mapOverlays) + [PhotoLayer, StackedLayer]
      ensures photoList == old(photoList) && noteList == old(noteList) && noteOverlay == old(noteOverlay)
      ensures fileDeletes == old(fileDeletes) && errorToasts == old(errorToasts)
    {
      photoOverlay := [];
      photoStackedOverlay := [];
      var photos := photoList;
      var status := ComputeStatus(Pixels(photos, project), g);
      assert status == Layout(photos, project, g);
      var i := 0;
      while i < |status|
        invariant 0 <= i <= |status|
        invariant photoOverlay == Placed(photos, status[..i], DRAW_PHOTO)
        invariant photoStackedOverlay == Placed(photos, status[..i], DRAW_STACKED_PHOTO)
        invariant photoList == photos && noteList == old(noteList) && noteOverlay == old(noteOverlay)
        invariant mapOverlays == old(mapOverlays)
        invariant fileDeletes == old(fileDeletes) && errorToasts == old(errorToasts)
      {
        assert status[..i + 1][..i] == status[..i];
        if status[i] == DRAW_PHOTO {
          photoOverlay := photoOverlay + [PhotoItem(photos[i], i)];
        } else if status[i] == DRAW_STACKED_PHOTO {
          photoStackedOverlay := photoStackedOverlay + [PhotoItem(photos[i], i)];
        }
        i := i + 1;
      }
      assert status[..i] == status;
      mapOverlays := mapOverlays + [PhotoLayer, StackedLayer];
    }

    /** The base drawOverlays: the map shows the route line only. */
    method DrawOverlays()
      modifies this
      ensures mapOverlays == [LineLayer]
      ensures photoList == old(photoList) && noteList == old(noteList)
      ensures photoOverlay == old(photoOverlay) && photoStackedOverlay == old(photoStackedOverlay)
      ensures noteOverlay == old(noteOverlay)
      ensures fileDeletes == old(fileDeletes) && errorToasts == old(errorToasts)
    {
      mapOverlays := [LineLayer];
    }

    /**
     * updateNote: the note's text is written to its row, the walk's notes are reloaded, and
     * the map is redrawn; a reloaded note with that id shows the new text.
     */
    method UpdateNote(db: Database, id: int, text: string)
      modifies this, db
      ensures db.State() == old(db.State()).(notes := SetPayload(old(db.notes), id, text))
      ensures NotesLoaded(OfWalk(db.notes, walk.id), noteList)
      ensures forall k :: 0 <= k < |noteList| && noteList[k].id == id ==> noteList[k].text == text
      ensures mapOverlays == [LineLayer]
      ensures photoList == old(photoList)
      ensures photoOverlay == old(photoOverlay) && photoStackedOverlay == old(photoStackedOverlay)
      ensures noteOverlay == old(noteOverlay)
      ensures fileDeletes == old(fileDeletes) && errorToasts == old(errorToasts)
    {
      DataSource.EditNote(db, id, text);
      noteList := DataSource.GetNotesForWalk(db, walk);
      ReloadedEdited(old(db.notes), id, text, walk.id);
      forall k | 0 <= k < |noteList| && noteList[k].id == id ensures noteList[k].text == text {
        assert OfWalk(db.notes, walk.id)[k] in OfWalk(db.notes, walk.id);
      }
      DrawOverlays();
    }

    /** deleteNote: the note's row goes, the walk's notes are reloaded, and the map is redrawn. */
    method DeleteNote(db: Database, position: nat)
      requires position < |noteList|
      modifies this, db
      ensures db.State() == old(db.State()).(notes := DropId(old(db.notes), old(noteList[position].id)))
      ensures NotesLoaded(OfWalk(db.notes, walk.id), noteList)
      ensures forall k :: 0 <= k < |noteList| ==> noteList[k].id != old(noteList[position].id)
      ensures mapOverlays == [LineLayer]
      ensures photoList == old(photoList)
      ensures photoOverlay == old(photoOverlay) && photoStackedOverlay == old(photoStackedOverlay)
      ensures noteOverlay == old(noteOverlay)
      ensures fileDeletes == old(fileDeletes) && errorToasts == old(errorToasts)
    {
      var id := noteList[position].id;
      DataSource.DeleteNote(db, id);
      noteList := DataSource.GetNotesForWalk(db, walk);
      ReloadedWithout(old(db.notes), id, walk.id);
      forall k | 0 <= k < |noteList| ensures noteList[k].id != id {
        assert OfWalk(db.notes, walk.id)[k] in OfWalk(db.notes, walk.id);
      }
      DrawOverlays();
    }

    /**
     * deletePhoto: when `selected`, the photo's file is deleted first and a failure
     * (`fileDeleted` false) shows an error toast; the row goes either way, the walk's photos
     * are reloaded, and the map is redrawn.
     */
    method DeletePhoto(db: Database, position: nat, selected: bool, fileDeleted: bool)
      requires position < |photoList|
      modifies this, db
      ensures db.State() == old(db.State()).(photos := DropId(old(db.photos), old(photoList[position].id)))
      ensures PhotosLoaded(OfWalk(db.photos, walk.id), photoList)
      ensures forall k :: 0 <= k < |photoList| ==> photoList[k].id != old(photoList[position].id)
      ensures fileDeletes == old(fileDeletes) + (if selected then [old(photoList[position].file)] else [])
      ensures errorToasts == old(errorToasts) + (if selected && !fileDeleted then 1 else 0)
      ensures mapOverlays == [LineLayer]
      ensures noteList == old(noteList)
      ensures photoOverlay == old(photoOverlay) && photoStackedOverlay == old(photoStackedOverlay)
      ensures noteOverlay == old(noteOverlay)
    {
      var photo := photoList[position];
      if selected {
        fileDeletes := fileDeletes + [photo.file];
        if !fileDeleted {
          errorToasts := errorToasts + 1;
        }
      }
      DataSource.DeletePhoto(db, photo.id);
      photoList := DataSource.GetPhotosForWalk(db, walk);
      ReloadedWithout(old(db.photos), photo.id, walk.id);
      forall k | 0 <= k < |photoList| ensures photoList[k].id != photo.id {
        assert OfWalk(db.photos, walk.id)[k] in OfWalk(db.photos, walk.id);
      }
      DrawOverlays();
    }
  }
}
