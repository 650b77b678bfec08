# Promenade: a verified model of its walk store, recorder and list logic

Promenade is an Android app for recording walks. While a walk is in progress, a
background service, GPSService, writes every location fix into an SQLite
database under the reserved walk id 0. The user can attach notes and photos to
the walk at the current position. When the walk ends, it is saved under a fresh
id, which moves every point, photo and note recorded for id 0 to it. It can be
cancelled instead, which discards them.

Saved walks have a name, a description and a list of tags. The walks table
stores the tags as one string: the names joined with `" , "`. A full-text
search table mirrors the name, description and tags of every saved walk. The
walk list shows every saved walk, and can be filtered down to the walks that
share a tag with a selection. A background task deletes selected walks one
after another and can be cancelled. The map screen merges photo icons that
would overlap on screen.

This project models that core in Dafny. Each module follows one source file:

- `Tags`, `Walks` and `Parcels`: the value types `Tag.java` and `Walk.java`,
  with their parcel encoding.
  - The mutable `ArrayList<Tag>` is the class `Tags.TagList`.
  - A `Walk` holds a reference to one, so the source's aliasing is visible.
  - `getTags` hands out the list itself, `setTags` stores the caller's list,
    and `Collections.sort` in DataSource reorders a walk's own tags.
- `JavaStrings`: the parts of `java.lang.String` the code depends on.
  - `split` with the default limit, `trim`, `compareTo` and `hashCode`.
  - The two ways the code joins names.
- `Schema` and `SqliteHelper`: the five tables `SQLiteHelper.java` declares,
  and its `onCreate` and `onUpgrade`.
- `Store`: the database as a class.
  - Each table is a sequence of rows in rowid order.
  - Each AUTOINCREMENT table has a counter.
  - The invariant: ids are unique, ascending and handed out by the counters.
  - Every search row mirrors a saved walk: a walk row with the same non-zero id,
    name, description and tags.
  - The converse is not part of the invariant. A saved walk may have no search
    row: saveWalk throws after inserting the walk row and before the search
    insert when the stored tags do not read back (DataSource.java:783-799).
- `Changes` and `DataSource`: every read and write in `DataSource.java`.
  - Each write is a function from database state to database state, with
    lemmas saying what it keeps and what it changes.
  - Each method on the `Database` object is specified by that function.
- `TagCodec`: how the tags column is written and read back, with its round
  trips.
- `Query`: the `ORDER BY` orders `getAllWalks` asks for.
- `Gps`: the recording state machine of `GPSService.java`.
  - Location fixes, timer ticks, provider changes and activity requests are
    methods of one class.
  - Its invariant: the class's point cache is exactly the log of points it
    persisted.
- `WalkList`, `Adapter`, `CustomList`, `Dialogue` and `MapIcons`: the list and
  tag logic inside the UI classes.
  - The tag filter of the walk list, and the adapter hiding walk 0.
  - The cancellable delete task and the has-photos check.
  - Parsing and merging typed tags, and the check-box listener.
  - The photo-icon stacking of the map and its overlays.

Errors in the source become results, not preconditions. A
`NullPointerException` or an `IndexOutOfBoundsException` that the source can
raise is an `ok: bool` or an `Option` result. Examples: a tag column that
splits into nothing, a missing walk 0, an empty tag selection in `deleteTags`,
a service without a location manager.

The one exception is a list position that the caller keeps in range. Four
members require such a position:
- `Adapter.ListAdapter.GetItemId` and `Adapter.ListAdapter.TagLine`: the list
  view asks only for positions below `getCount()`.
- `MapIcons.MapActivity.DeleteNote` and `MapIcons.MapActivity.DeletePhoto`: the
  index is parsed from the title of a tapped overlay item built from the
  current list.

All paths below are relative to the repository root and begin with
`src/com/digitalpies/promenade/`.

## Model

| member | source | states |
|---|---|---|
| JavaStrings.IndexOf | src/com/digitalpies/promenade/database/DataSource.java:630 | The index split looks for: `d` occurs there, at no earlier index, and None means it occurs nowhere. |
| JavaStrings.DropTrailingEmpty | src/com/digitalpies/promenade/database/DataSource.java:630 | split's removal of trailing empty strings. The result is a prefix of the pieces that does not end in "", and every piece dropped was "". |
| JavaStrings.Trim | src/com/digitalpies/promenade/dialogue/WalkDialogue.java:304 | The trimmed string is no longer than the input. When it is not empty, it neither starts nor ends with a character ≤ U+0020. It is empty exactly when every character of the input is such a character. |
| JavaStrings.TrimChars | src/com/digitalpies/promenade/dialogue/WalkDialogue.java:304 | Trimming only removes characters: every character left was in the input. |
| JavaStrings.CompareToZeroIffEqual | src/com/digitalpies/promenade/database/Tag.java:49-52 | String.compareTo is 0 exactly when the strings are equal. |
| JavaStrings.CompareToAntisymmetric | src/com/digitalpies/promenade/database/Tag.java:49-52 | compareTo(a, b) is the negation of compareTo(b, a). |
| JavaStrings.NameLeTotal | src/com/digitalpies/promenade/database/Tag.java:49-52 | Any two names are comparable under compareTo(a, b) <= 0. |
| JavaStrings.NameLeAntisymmetric | src/com/digitalpies/promenade/database/Tag.java:49-52 | Names that are each <= the other are equal. |
| JavaStrings.NameLeTransitive | src/com/digitalpies/promenade/database/Tag.java:49-52 | The order is transitive, so Collections.sort has a total order to sort by. |
| JavaStrings.HashCode | src/com/digitalpies/promenade/database/Tag.java:63-66 | String.hashCode is a signed 32-bit value, congruent modulo 2^32 to the wrapped polynomial hash `31 * h + c`. |
| JavaStrings.SplitJoinTrailing | src/com/digitalpies/promenade/database/DataSource.java:293-297 | Names joined with a trailing one-comma separator split back into the names. No names gives [""]. Every name must be non-empty and comma-free. |
| JavaStrings.SplitJoinPlain | src/com/digitalpies/promenade/database/DataSource.java:762-773 | The same round trip for the join without a trailing separator. |
| JavaStrings.SplitPiecesFree | src/com/digitalpies/promenade/dialogue/WalkDialogue.java:298 | No piece of a split on one character holds that character. |
| Tags.EqualsConsistent | src/com/digitalpies/promenade/database/Tag.java:49-66 | Three agreements. Tag.equals holds exactly when the tags (their names) are equal. It holds exactly when compareTo is 0. Equal tags have equal hash codes. |
| Tags.SortTagsSorted | src/com/digitalpies/promenade/database/DataSource.java:764-765 | Collections.sort on tags yields a list sorted by compareTo. By its own contract it is a permutation of the input. |
| Tags.SortTagsIdempotent | src/com/digitalpies/promenade/database/DataSource.java:764-765 | Sorting twice, as saveWalk does, gives the same list as sorting once. |
| Tags.SortedUnique | src/com/digitalpies/promenade/database/DataSource.java:764-765 | Two sorted tag lists with the same elements are the same list, so any sorting algorithm gives this result. |
| Tags.StringArrayToList | src/com/digitalpies/promenade/database/Tag.java:36-46 | Null (None) exactly for an empty array. Otherwise one tag per string, in order. |
| Tags.TagList.Add | src/com/digitalpies/promenade/dialogue/WalkDialogue.java:395-396 | ArrayList.add appends the tag to the list object. |
| Tags.TagList.Sort | src/com/digitalpies/promenade/database/DataSource.java:764-765 | The list object afterwards holds its old contents sorted, as a permutation. |
| Tags.TagList.Remove | src/com/digitalpies/promenade/dialogue/WalkDialogue.java:416 | ArrayList.remove(Object) drops the first equal tag, if there is one. |
| Tags.TagList.RemoveAll | src/com/digitalpies/promenade/database/DataSource.java:590-604 | ArrayList.removeAll keeps, in order, the tags equal to none of the other list. |
| Tags.TagList.RetainAll | src/com/digitalpies/promenade/walklist/WalkListActivity.java:509-511 | ArrayList.retainAll keeps, in order, the tags equal to one of the other list. |
| Tags.RemoveFirst | src/com/digitalpies/promenade/dialogue/WalkDialogue.java:416 | An absent tag leaves the list unchanged. Otherwise exactly one copy of it goes and every other element stays. |
| Tags.WithoutMeaning | src/com/digitalpies/promenade/database/DataSource.java:590-604 | A tag is left after removeAll exactly when it was in the list and not in the other list. |
| Tags.WithinMeaning | src/com/digitalpies/promenade/walklist/WalkListActivity.java:509-511 | A tag is left after retainAll exactly when it was in both lists. |
| Tags.WriteTagToParcel | src/com/digitalpies/promenade/database/Tag.java:75-78 | writeToParcel appends the name as one string. |
| Tags.CreateTagFromParcel | src/com/digitalpies/promenade/database/Tag.java:83-86 | createFromParcel makes the tag named by the next string and advances past it. |
| Tags.TagListRoundTrip | src/com/digitalpies/promenade/database/Walk.java:33-40 | A tag list written by writeTypedList reads back with readTypedList as the same tags, in order. Reading stops right after them, whatever surrounds them. |
| Tags.TagItemsRoundTrip | src/com/digitalpies/promenade/database/Walk.java:39 | The elements of a written list read back one by one as the same tags. |
| Tags.WriteTagList | src/com/digitalpies/promenade/database/Walk.java:95 | writeTypedList appends the encoding that TagListRoundTrip reads back. |
| Tags.ReadTagListFrom | src/com/digitalpies/promenade/database/Walk.java:39 | readTypedList yields the decoded tags and moves the read position past them. |
| Parcels.ReadBack | src/com/digitalpies/promenade/database/Walk.java:33-40 | The value written at a position is the value read back there, whatever follows. |
| Walks.KeepNamed | src/com/digitalpies/promenade/database/Walk.java:29-30 | The constructor's filter, read as intended, is never longer than its input. |
| Walks.KeepNamedMembers | src/com/digitalpies/promenade/database/Walk.java:29-30 | A tag is kept exactly when it was given and its name is not "". |
| Walks.KeepNamedAllNamed | src/com/digitalpies/promenade/database/Walk.java:29-30 | When every tag has a name, the list is kept whole, in order. |
| Walks.NamedTagList | src/com/digitalpies/promenade/database/Walk.java:29-30 | The constructor's loop builds a new list object holding exactly what KeepNamed keeps. |
| Walks.Walk.constructor | src/com/digitalpies/promenade/database/Walk.java:23-31 | id, name, description and date are stored unchanged. The tags stored are the named ones, in order, in a new list object. |
| Walks.Walk.FromParcel | src/com/digitalpies/promenade/database/Walk.java:33-40 | The Parcel constructor reads id, name, description, date and tags in the order they were written. |
| Walks.WalkParcelRoundTrip | src/com/digitalpies/promenade/database/Walk.java:89-96 | A walk written to a parcel reads back as the same walk, whatever is before or after it. |
| Walks.Walk.SetName | src/com/digitalpies/promenade/database/Walk.java:52-55 | Only the name changes. |
| Walks.Walk.SetDescription | src/com/digitalpies/promenade/database/Walk.java:62-65 | Only the description changes. |
| Walks.Walk.SetTags | src/com/digitalpies/promenade/database/Walk.java:72-75 | The walk holds the caller's list object itself (aliasing); name and description are kept. |
| Walks.Walk.WriteToParcel | src/com/digitalpies/promenade/database/Walk.java:89-96 | Appends exactly the encoding that FromParcel decodes. |
| TagCodec.DecodeTags | src/com/digitalpies/promenade/database/DataSource.java:622-633 | cursorToWalk's reading of the tags column, with the corrected constructor filter. It is None exactly when the split yields no piece, where the source throws. Otherwise every tag is named and is one of the pieces. |
| TagCodec.DecodeTagsAsWritten | src/com/digitalpies/promenade/database/Walk.java:29-30 | The same reading with the filter as written. Failure happens at the same place, and otherwise the tags are exactly the pieces. |
| TagCodec.TrailingRoundTrip | src/com/digitalpies/promenade/database/DataSource.java:293-297 | Tags stored by createTemporaryWalk or editWalk read back unchanged when their names are non-empty and comma-free. This includes no tags. |
| TagCodec.PlainRoundTrip | src/com/digitalpies/promenade/database/DataSource.java:762-773 | The same for saveWalk's encoding. |
| TagCodec.AsWrittenUntaggedWalkBreaks | src/com/digitalpies/promenade/database/Walk.java:29-30 | As written, an untagged saved walk reads back with one tag named "". Editing it then stores " , ", which splits into no piece, so the walk can no longer be read. |
| TagCodec.UntaggedWalkRoundTrip | src/com/digitalpies/promenade/database/Walk.java:29-30 | With the corrected filter the same walk reads back with no tags, before and after an edit. |
| Schema.SchemaShape | src/com/digitalpies/promenade/database/SQLiteHelper.java:50-63 | The five tables have distinct names. Each ordinary table starts with its AUTOINCREMENT integer key. The search table's columns are exactly the ones its statement creates, a column named `TEXT` included. |
| SqliteHelper.NameOfInjective | src/com/digitalpies/promenade/database/SQLiteHelper.java:20-24 | Different tables have different names. |
| SqliteHelper.ExecCreate | src/com/digitalpies/promenade/database/SQLiteHelper.java:71-78 | `create table` fails exactly when the table exists. When it succeeds, the table is added empty with its counter at 0; when it fails, nothing changes. |
| SqliteHelper.DropTableIfExists | src/com/digitalpies/promenade/database/SQLiteHelper.java:81-89 | The table, its rows and its counter are gone; every other table is kept. |
| SqliteHelper.WithoutMembers | src/com/digitalpies/promenade/database/SQLiteHelper.java:81-89 | A table survives a drop exactly when it is another table. |
| SqliteHelper.CreatedSchema | src/com/digitalpies/promenade/database/SQLiteHelper.java:71-78 | Five successful creates append the schema's tables, in order, with no rows. |
| SqliteHelper.OnCreate | src/com/digitalpies/promenade/database/SQLiteHelper.java:71-78 | Succeeds exactly when none of the five tables exists yet. It then leaves them appended in schema order, all empty. |
| SqliteHelper.CreateDatabase | src/com/digitalpies/promenade/database/SQLiteHelper.java:71-78 | On a new file, onCreate succeeds and leaves exactly the schema's tables, empty and valid. |
| SqliteHelper.DropSchema | src/com/digitalpies/promenade/database/SQLiteHelper.java:81-89 | After the five drops, a table remains exactly when it existed and is not one of the five. |
| SqliteHelper.DroppedSchema | src/com/digitalpies/promenade/database/SQLiteHelper.java:81-89 | The same, over table names. |
| SqliteHelper.OnUpgrade | src/com/digitalpies/promenade/database/SQLiteHelper.java:81-89 | Afterwards, whatever the versions, every table is empty, every counter starts again, the database is valid, and the tables are the old ones plus the schema's. |
| Store.FilterMembers | src/com/digitalpies/promenade/database/DataSource.java:162-181 | A `where` clause returns exactly the rows that satisfy it. |
| Store.Reparent | src/com/digitalpies/promenade/database/DataSource.java:812-816 | `update ... set walk_id` keeps every row's id, place and payload, and moves exactly the rows of the old walk. |
| Store.ReparentOfWalk | src/com/digitalpies/promenade/database/DataSource.java:812-816 | Afterwards the old walk has no rows. A new walk that had none gets them, in order. Every other walk is untouched. |
| Store.DropWalkOfWalk | src/com/digitalpies/promenade/database/DataSource.java:508-531 | After `delete ... where walk_id = w`, w has no rows and every other walk keeps exactly its own. |
| Store.DropIdOfWalk | src/com/digitalpies/promenade/database/DataSource.java:538-551 | Deleting one row by id removes it from its walk's rows and changes nothing else. |
| Store.AppendOfWalk | src/com/digitalpies/promenade/database/DataSource.java:333-344 | An inserted row joins the end of its own walk's rows and no other walk's. |
| Store.AppendKeepsIds | src/com/digitalpies/promenade/database/SQLiteHelper.java:50-61 | A row inserted under the next AUTOINCREMENT id keeps ids unique and ascending. |
| Store.WalkAppendKeepsIds | src/com/digitalpies/promenade/database/SQLiteHelper.java:50-51 | The same for the walks table. |
| Store.FindWalk | src/com/digitalpies/promenade/database/DataSource.java:147-155 | `where _id = id` finds a row with that id, or reports that none exists. |
| Store.FindAfterUpdate | src/com/digitalpies/promenade/database/DataSource.java:416-452 | The walk update changes the three text columns of that row and no other row. |
| Store.FindAfterDrop | src/com/digitalpies/promenade/database/DataSource.java:482-501 | After deleting a walk row, that id finds nothing and every other id finds what it found before. |
| Store.SyncAfterUpdate | src/com/digitalpies/promenade/database/DataSource.java:416-452 | Updating a walk row and its search rows alike keeps the search table in step. |
| Store.SyncAfterDrop | src/com/digitalpies/promenade/database/DataSource.java:482-501 | Deleting a walk row and its search rows keeps the search table in step. |
| Store.SyncAfterDropInProgress | src/com/digitalpies/promenade/database/DataSource.java:827-836 | Deleting walk 0, which has no search row, keeps the search table in step. |
| Store.SyncAfterIndex | src/com/digitalpies/promenade/database/DataSource.java:793-799 | A search row for a saved walk that had none keeps the search table in step. |
| Store.EmptyStateValid | src/com/digitalpies/promenade/database/SQLiteHelper.java:71-78 | Tables that exist and hold no rows form a valid database. |
| Query.SortRows | src/com/digitalpies/promenade/database/DataSource.java:107-121 | The name sort returns a permutation of the rows. |
| Query.SortRowsOrdered | src/com/digitalpies/promenade/database/DataSource.java:107-121 | Its result is ordered by name, ascending or descending as asked. |
| Query.OrderedRowsSpec | src/com/digitalpies/promenade/database/DataSource.java:103-138 | Every sort value returns every row once. By sort value: 0 gives ascending ids, 1 descending ids, 2 ascending names, 3 descending names. Any other value gives rowid order. |
| DataSource.ToInt | src/com/digitalpies/promenade/database/DataSource.java:661-667 | Java's (int) cast truncates toward zero and saturates at the int range. |
| DataSource.RowRoundTrip | src/com/digitalpies/promenade/database/DataSource.java:622-633 | A row written with either tag encoding reads back as the walk it came from. |
| DataSource.CursorToWalk | src/com/digitalpies/promenade/database/DataSource.java:622-633 | A new walk with the row's values and its decoded tags, or failure exactly where the tag column cannot be read. |
| DataSource.CursorToNote | src/com/digitalpies/promenade/database/DataSource.java:642-652 | The note carries the row's id, position and text. |
| DataSource.CursorToPhoto | src/com/digitalpies/promenade/database/DataSource.java:676-685 | The photo carries the row's id, position and file. |
| DataSource.CursorToGeoPoint | src/com/digitalpies/promenade/database/DataSource.java:661-667 | Both coordinates become micro-degrees, through the (int) cast. |
| DataSource.GetWalkById | src/com/digitalpies/promenade/database/DataSource.java:147-155 | A new walk holding that row's values, or None when there is no such row or it cannot be read. |
| DataSource.GetAllWalks | src/com/digitalpies/promenade/database/DataSource.java:103-138 | One new, distinct walk per row, in the order of the sort value, walk 0 included. It fails exactly when some row cannot be read. |
| DataSource.CursorToWalks | src/com/digitalpies/promenade/database/DataSource.java:129-134 | The cursor loop gives one new walk per row, in order, until a row cannot be read. |
| DataSource.SortedDistinctUnique | src/com/digitalpies/promenade/database/DataSource.java:75-92 | Two duplicate-free sorted lists with the same members are equal, so the HashSet's iteration order does not show in the result. |
| DataSource.AddAll | src/com/digitalpies/promenade/database/DataSource.java:75-92 | HashSet.addAll: the set stays duplicate-free and holds exactly the old members and the new ones. |
| DataSource.CollectTags | src/com/digitalpies/promenade/database/DataSource.java:75-92 | getAllTags' loop collects, without repeats, exactly the tags of all rows. |
| DataSource.GetAllTags | src/com/digitalpies/promenade/database/DataSource.java:75-92 | It fails exactly when some row cannot be read. Otherwise the result is sorted and duplicate-free, and holds exactly the tags of every walk row, walk 0 included. |
| DataSource.GetNotesForWalk | src/com/digitalpies/promenade/database/DataSource.java:162-181 | The walk's notes, in rowid order, one per row. |
| DataSource.GetGeoPointsForWalk | src/com/digitalpies/promenade/database/DataSource.java:188-207 | The walk's points, in rowid order, in micro-degrees. |
| DataSource.GetPhotosForWalk | src/com/digitalpies/promenade/database/DataSource.java:214-233 | The walk's photos, in rowid order. |
| DataSource.ChildQuerySpec | src/com/digitalpies/promenade/database/DataSource.java:162-233 | A walk-id query returns exactly the table's rows for that walk, in ascending id order. |
| DataSource.GetNoteCountForWalk | src/com/digitalpies/promenade/database/DataSource.java:240-245 | The number of the walk's note rows. |
| DataSource.GetPhotoCountForWalk | src/com/digitalpies/promenade/database/DataSource.java:252-257 | The number of the walk's photo rows. |
| DataSource.BuildTrailing | src/com/digitalpies/promenade/database/DataSource.java:293-297 | The `+=` loop yields every name followed by `" , "`. |
| DataSource.BuildPlain | src/com/digitalpies/promenade/database/DataSource.java:762-773 | saveWalk's loop yields the names with `" , "` between them and none after the last. |
| DataSource.CreateGeoPoint | src/com/digitalpies/promenade/database/DataSource.java:333-344 | One point row under the next id; nothing happens when the database is not open. |
| DataSource.CreatePhoto | src/com/digitalpies/promenade/database/DataSource.java:356-368 | One photo row under the next id; nothing happens when the database is not open. |
| DataSource.CreateNote | src/com/digitalpies/promenade/database/DataSource.java:382-400 | One note row under the next id, read back as the note returned. |
| DataSource.InsertChildSpec | src/com/digitalpies/promenade/database/DataSource.java:333-400 | A new child row keeps its table valid and joins the end of its own walk's rows, and no other walk's. |
| DataSource.DeleteNotesForWalk | src/com/digitalpies/promenade/database/DataSource.java:508-511 | Only the walk's note rows go. |
| DataSource.DeleteGeoPointForWalk | src/com/digitalpies/promenade/database/DataSource.java:518-521 | Only the walk's point rows go. |
| DataSource.DeletePhotosForWalk | src/com/digitalpies/promenade/database/DataSource.java:528-531 | Only the walk's photo rows go. |
| DataSource.DeleteNote | src/com/digitalpies/promenade/database/DataSource.java:538-541 | Only the note row with that id goes. |
| DataSource.DeletePhoto | src/com/digitalpies/promenade/database/DataSource.java:548-551 | Only the photo row with that id goes. |
| DataSource.DeleteByIdSpec | src/com/digitalpies/promenade/database/DataSource.java:538-551 | Deleting by id keeps the table valid and removes exactly that row, from its walk and from no other. |
| DataSource.DeleteWalk | src/com/digitalpies/promenade/database/DataSource.java:482-501 | The database afterwards is DeleteWalkState, whose properties DeleteWalkSpec proves. |
| DataSource.CancelWalk | src/com/digitalpies/promenade/database/DataSource.java:827-836 | The database afterwards is CancelWalkState, whose properties CancelWalkSpec proves. |
| DataSource.EditWalk | src/com/digitalpies/promenade/database/DataSource.java:416-452 | The walk's own tag list is sorted in place. The walk row and its search row both receive the name, the description and the trailing-padded, sorted tags. |
| DataSource.EditNote | src/com/digitalpies/promenade/database/DataSource.java:460-466 | Only that note's text changes. |
| DataSource.EditNoteSpec | src/com/digitalpies/promenade/database/DataSource.java:460-466 | Editing a note keeps the table valid and changes the text of that note alone. |
| DataSource.CreateTemporaryWalk | src/com/digitalpies/promenade/database/DataSource.java:281-320 | The caller's tag list is sorted in place, and the database becomes TemporaryWalkState. The walk read back has id 0 and the decoded tags, or is None exactly where decoding fails. With carriable names it is exactly the walk stored. |
| DataSource.InsertSavedWalk | src/com/digitalpies/promenade/database/DataSource.java:783-790 | The walk row goes in under the next AUTOINCREMENT id. |
| DataSource.IndexAndAdopt | src/com/digitalpies/promenade/database/DataSource.java:793-819 | Four writes: the search row, walk 0's child rows moved to the new id, and row 0 deleted. |
| DataSource.SaveWalk | src/com/digitalpies/promenade/database/DataSource.java:754-820 | The walk's tags are sorted in place. It completes exactly when the stored tags read back. It then leaves SaveWalkState; otherwise it stops after the insert. With carriable names it always completes. |
| DataSource.SaveReadsBack | src/com/digitalpies/promenade/database/DataSource.java:764-790 | A sorted copy of carriable tags is stored and read back unchanged. |
| DataSource.StripWalkTags | src/com/digitalpies/promenade/database/DataSource.java:590-604 | One pass of deleteTags' loop. It fails, changing nothing, exactly when the walk cannot be read. Otherwise it applies StripTags. |
| DataSource.DeleteTags | src/com/digitalpies/promenade/database/DataSource.java:567-608 | An empty selection fails with nothing changed. Otherwise the result is DeleteTagsState over the walks the search query matched. |
| Changes.DropChildrenSpec | src/com/digitalpies/promenade/database/DataSource.java:482-501 | Deleting a walk's child rows keeps the database valid, leaves that walk none, and keeps every other walk's. |
| Changes.CancelWalkSpec | src/com/digitalpies/promenade/database/DataSource.java:827-836 | Afterwards no row refers to walk 0. Every other walk keeps its rows, the search table is unchanged, and the database is valid. |
| Changes.DeleteWalkSpec | src/com/digitalpies/promenade/database/DataSource.java:482-501 | Afterwards the walk has no walk row, child row or search row. Every other walk keeps its rows and its search rows, and the database is valid. |
| Changes.EditWalkSpec | src/com/digitalpies/promenade/database/DataSource.java:416-452 | Only that walk's name, description and tags change. Its search rows receive the same three values. The child tables are untouched and the database stays valid. |
| Changes.TemporaryWalkSpec | src/com/digitalpies/promenade/database/DataSource.java:281-320 | Exactly one row has id 0, the one inserted, and no older child rows of walk 0 remain. Every other walk, the search table and the counters are untouched. |
| Changes.InsertSavedSpec | src/com/digitalpies/promenade/database/DataSource.java:783-790 | The inserted row gets an id no row had, never 0. The query for it reads it back, and every other id finds what it found before. |
| Changes.SaveIndexSync | src/com/digitalpies/promenade/database/DataSource.java:793-799 | The new search row is the only one for the new id and mirrors its walk row. |
| Changes.SaveWalkValid | src/com/digitalpies/promenade/database/DataSource.java:754-820 | saveWalk keeps the database valid. |
| Changes.SaveWalkSpec | src/com/digitalpies/promenade/database/DataSource.java:754-820 | Walk 0 no longer has a row. The fresh id holds the saved values, one search row mirrors it, and every other walk keeps its row. |
| Changes.SaveWalkMovesChildren | src/com/digitalpies/promenade/database/DataSource.java:812-819 | No child row is lost or duplicated. Each keeps its id and place, and none refers to walk 0. Every other walk keeps its rows, and the saved walk receives walk 0's rows, in order. |
| Changes.MatchedIds | src/com/digitalpies/promenade/database/DataSource.java:570-582 | The query finds the walk id of every matching search row, and only ids of matching rows. |
| Changes.DeleteTagsStep | src/com/digitalpies/promenade/database/DataSource.java:590-604 | After one step, the walk reads back with its old tags minus the checked ones, and no other walk changes. |
| Changes.StripTagsFrame | src/com/digitalpies/promenade/database/DataSource.java:590-604 | One step changes the row of that walk and no other. |
| Changes.StripTagsReadable | src/com/digitalpies/promenade/database/DataSource.java:590-604 | After one step, the walk can still be read and every tag name can still be carried. |
| Changes.StripTagsValid | src/com/digitalpies/promenade/database/DataSource.java:590-604 | One step keeps the database valid and leaves the child tables alone. |
| Changes.DeleteTagsKeeps | src/com/digitalpies/promenade/database/DataSource.java:567-608 | deleteTags keeps the database valid and its names carriable, and never touches the child tables. |
| Changes.DeleteTagsFrame | src/com/digitalpies/promenade/database/DataSource.java:567-608 | Every walk not found by the query is left as it was. |
| Changes.DeleteTagsCompletes | src/com/digitalpies/promenade/database/DataSource.java:567-608 | It completes exactly when every walk found can be read. |
| Changes.DeleteTagsEffect | src/com/digitalpies/promenade/database/DataSource.java:567-608 | When it completes, each walk found reads back with its old tags minus the checked ones. |
| Changes.MatchReachesTaggedWalks | src/com/digitalpies/promenade/database/DataSource.java:570-582 | The query reaches every saved walk that holds a checked tag. |
| Changes.DeleteTagsSpec | src/com/digitalpies/promenade/database/DataSource.java:567-608 | When it completes, every readable saved walk reads back with its old tags minus the checked ones, and walk 0 stays as it was. |
| Gps.PointsOneForOne | src/com/digitalpies/promenade/gps/GPSService.java:326-329 | The cached points are the persisted fixes, one for one, in order. |
| Gps.PointOfRow | src/com/digitalpies/promenade/gps/GPSService.java:425-436 | A persisted fix reads back from the gps table as the same cached point. |
| Gps.GpsStatics.constructor | src/com/digitalpies/promenade/gps/GPSService.java:55-57 | The static flags start false. |
| Gps.GpsService.constructor | src/com/digitalpies/promenade/gps/GPSService.java:105-112 | onStartCommand leaves the service listening and showing "Searching", with an empty cache that matches its empty log, and no lock. |
| Gps.GpsService.OnBind | src/com/digitalpies/promenade/gps/GPSService.java:86-90 | Sets isRunning. |
| Gps.GpsService.SetMapOpen | src/com/digitalpies/promenade/gps/GPSService.java:291-294 | Sets mapOpen. |
| Gps.GpsService.SetWalkListActivity | src/com/digitalpies/promenade/gps/GPSService.java:301-304 | Records whether a list activity is registered. |
| Gps.GpsService.SetMapWalkActivity | src/com/digitalpies/promenade/gps/GPSService.java:311-314 | Records whether a map activity is registered. |
| Gps.GpsService.ShowTrackingNotification | src/com/digitalpies/promenade/gps/GPSService.java:193-252 | It fails, changing nothing, exactly when walk 0 cannot be read. Otherwise it shows "Tracking", guarantees gpsLocked and starts the timer. |
| Gps.GpsService.StartTrackingWalk | src/com/digitalpies/promenade/gps/GPSService.java:119-123 | Sets trackingWalk, then has the same effects as ShowTrackingNotification. |
| Gps.GpsService.Tick | src/com/digitalpies/promenade/gps/GPSService.java:232-251 | The timer opens the gate only while gpsLocked holds, and ends once it finds it false. |
| Gps.GpsService.Pause | src/com/digitalpies/promenade/gps/GPSService.java:352-358 | Sets paused and shows "Paused". It fails without a location manager; otherwise it stops listening and clears gpsLocked. |
| Gps.GpsService.Resume | src/com/digitalpies/promenade/gps/GPSService.java:365-371 | Clears paused, sets resumePressed and shows "Searching". It listens again unless the manager is gone. |
| Gps.GpsService.WalkFinished | src/com/digitalpies/promenade/gps/GPSService.java:144-156 | It fails, changing nothing, when the manager is gone. Otherwise it stops listening, drops the lock, clears isRunning and removes the notification. |
| Gps.GpsService.Persist | src/com/digitalpies/promenade/gps/GPSService.java:408-410 | createGeoPoint plus the cache append. The log gains the fix and the cache stays equal to it. |
| Gps.GpsService.LockOn | src/com/digitalpies/promenade/gps/GPSService.java:403-413 | Tells the list activity, if one is registered. Persists exactly one point, unless starting tracking fails. Sets gpsLocked. |
| Gps.GpsService.Record | src/com/digitalpies/promenade/gps/GPSService.java:425-436 | Persists one point. Only an open, registered map is called. The gate is closed. |
| Gps.GpsService.OnLocationChanged | src/com/digitalpies/promenade/gps/GPSService.java:397-437 | The whole fix handler. The log gains the lock-on point when not locked, plus the recorded point exactly when tracking with the gate open, so at most two. Map and list calls follow the same cases. A resume is completed. The cache stays equal to the log. |
| Gps.GpsService.LockThenRecord | src/com/digitalpies/promenade/gps/GPSService.java:403-436 | The case of a fix while not locked. |
| Gps.GpsService.ResumeThenRecord | src/com/digitalpies/promenade/gps/GPSService.java:418-436 | The case of a fix after a resume. |
| Gps.GpsService.ResumeNotice | src/com/digitalpies/promenade/gps/GPSService.java:418-422 | The resume branch clears resumePressed and restarts tracking. |
| Gps.GpsService.RecordIfReady | src/com/digitalpies/promenade/gps/GPSService.java:425-436 | Records exactly when tracking and the gate is open. |
| Gps.GpsService.OnProviderDisabled | src/com/digitalpies/promenade/gps/GPSService.java:440-457 | When not tracking, it ends the session: gpsLocked and isRunning false, and the list is told. When tracking, it pauses instead. |
| Gps.GpsService.OnProviderEnabled | src/com/digitalpies/promenade/gps/GPSService.java:460-464 | Resumes. |
| WalkList.SharesTagMeaning | src/com/digitalpies/promenade/walklist/WalkListActivity.java:507-511 | The retainAll test holds exactly when the walk has a selected tag. |
| WalkList.TaggedMembers | src/com/digitalpies/promenade/walklist/WalkListActivity.java:505-518 | A walk is kept exactly when it was listed and shares a tag with the selection. |
| WalkList.TaggedAppend | src/com/digitalpies/promenade/walklist/WalkListActivity.java:500-518 | The filter distributes over concatenation, so kept walks keep their relative order. |
| WalkList.TaggedIdempotent | src/com/digitalpies/promenade/walklist/WalkListActivity.java:505-518 | Filtering twice equals filtering once. |
| WalkList.TaggedNothingSelected | src/com/digitalpies/promenade/walklist/WalkListActivity.java:505-518 | An empty selection keeps nothing. |
| WalkList.Listed | src/com/digitalpies/promenade/database/DataSource.java:129-134 | getAllWalks' values: defined exactly when every row reads, and then one value per row, in order. |
| WalkList.FilterOutcomeMeaning | src/com/digitalpies/promenade/walklist/WalkListActivity.java:484-532 | The list is filtered exactly when some listed walk shares a tag. It then keeps the selection and exactly the sharing walks. Otherwise the fallback clears the selection and shows every walk. |
| WalkList.FilterOutcomeStable | src/com/digitalpies/promenade/walklist/WalkListActivity.java:484-532 | Re-applying a filter that held shows the same walks. |
| WalkList.LoadWalks | src/com/digitalpies/promenade/walklist/WalkListActivity.java:500 | The walks loaded are distinct objects, holding Listed's values in order. |
| WalkList.LoadTagged | src/com/digitalpies/promenade/walklist/WalkListActivity.java:500-518 | The objects left hold exactly the values Tagged keeps, in order. |
| WalkList.RemoveWalk | src/com/digitalpies/promenade/walklist/WalkListActivity.java:513-517 | remove(Object) by identity. An absent walk leaves the list unchanged; otherwise the list becomes one shorter. |
| WalkList.RemoveWalkAfter | src/com/digitalpies/promenade/walklist/WalkListActivity.java:513-517 | Removing a walk closes the gap it leaves. |
| WalkList.KeepTagged | src/com/digitalpies/promenade/walklist/WalkListActivity.java:505-518 | The loop over a copy that removes by reference leaves, in order, exactly the walks whose values Tagged keeps. |
| WalkList.WalkListActivity.constructor | src/com/digitalpies/promenade/walklist/WalkListActivity.java:42-94 | The field initialisers and onCreate. The activity starts in the foreground, with every GPS flag false. The list and adapter start empty, and the selection and filter flag come back from a saved state. |
| WalkList.WalkListActivity.UpdateWalksList | src/com/digitalpies/promenade/walklist/WalkListActivity.java:445-458 | Re-applies the kept selection when filtered; otherwise shows every walk in the sort order. |
| WalkList.WalkListActivity.DisplayAll | src/com/digitalpies/promenade/walklist/WalkListActivity.java:463-469 | Clears the filter and the selection, then shows every walk. |
| WalkList.WalkListActivity.FilterWalksByTag | src/com/digitalpies/promenade/walklist/WalkListActivity.java:484-532 | An empty selection, or one that no walk shares, falls back to displayAll. Otherwise the activity is filtered, holds the selection, and shows exactly the sharing walks, in order. |
| WalkList.WalkListActivity.ShowTagged | src/com/digitalpies/promenade/walklist/WalkListActivity.java:496-531 | The rest of the filter, for a non-empty selection. |
| WalkList.WalkListActivity.OnResume | src/com/digitalpies/promenade/walklist/WalkListActivity.java:136-193 | Refreshes the list. When the service is not running, it clears trackingWalk and gpsLocked; otherwise it reads trackingWalk and binds. A pending cancellation is cleared. |
| WalkList.WalkListActivity.SyncWithService | src/com/digitalpies/promenade/walklist/WalkListActivity.java:153-190 | The same flag handling, once the list is shown. |
| WalkList.WalkListActivity.OnPause | src/com/digitalpies/promenade/walklist/WalkListActivity.java:202-212 | Unbinds and leaves the foreground. |
| WalkList.WalkListActivity.OnServiceConnected | src/com/digitalpies/promenade/walklist/WalkListActivity.java:705-710 | Keeps the service and registers with it. |
| WalkList.WalkListActivity.CancelGps | src/com/digitalpies/promenade/walklist/WalkListActivity.java:560-593 | Ends the session. serviceRunning, trackingWalk, gpsLocked and bound end false; it fails without a service or a manager. |
| WalkList.WalkListActivity.StartGpsTracking | src/com/digitalpies/promenade/walklist/WalkListActivity.java:614-618 | Sets trackingWalk and has the service start tracking. |
| WalkList.WalkListActivity.SetGpsLocked | src/com/digitalpies/promenade/walklist/WalkListActivity.java:633-654 | Sets gpsLocked. When the waiting dialog is open, it starts tracking, and opens the map exactly when that succeeds in the foreground. |
| Adapter.VisibleMembers | src/com/digitalpies/promenade/walklist/ListAdapter.java:49-59 | A walk is shown exactly when it was given and its id is not 0. |
| Adapter.VisibleAppend | src/com/digitalpies/promenade/walklist/ListAdapter.java:41-58 | The id-0 filter keeps relative order. |
| Adapter.ListAdapter.constructor | src/com/digitalpies/promenade/walklist/ListAdapter.java:33-47 | The constructor applies the same filter as setWalks. |
| Adapter.ListAdapter.Refill | src/com/digitalpies/promenade/walklist/ListAdapter.java:53-58 | The shared loop yields exactly the visible walks, and the adapter never holds walk 0. |
| Adapter.ListAdapter.SetWalks | src/com/digitalpies/promenade/walklist/ListAdapter.java:49-59 | The adapter holds exactly the visible walks. |
| Adapter.ListAdapter.GetCount | src/com/digitalpies/promenade/walklist/ListAdapter.java:110-113 | The number of walks shown. |
| Adapter.ListAdapter.GetItemId | src/com/digitalpies/promenade/walklist/ListAdapter.java:122-125 | The walk's id, never 0. |
| Adapter.ListAdapter.TagLine | src/com/digitalpies/promenade/walklist/ListAdapter.java:74-85 | The tag line of the walk at that position. |
| Adapter.TagDisplay | src/com/digitalpies/promenade/walklist/ListAdapter.java:78-85 | The names with ", " between them and none after the last; "" without tags. |
| Adapter.TagLineRoundTrip | src/com/digitalpies/promenade/walklist/ListAdapter.java:78-85 | The line splits back on ", " into the names shown. |
| CustomList.HasPhotos | src/com/digitalpies/promenade/walklist/CustomListActivity.java:144-154 | True exactly when some selected walk has a photo. |
| CustomList.DeleteEachValid | src/com/digitalpies/promenade/walklist/CustomListActivity.java:499-521 | Deleting walks one after another keeps the database valid. |
| CustomList.DeleteEachWalks | src/com/digitalpies/promenade/walklist/CustomListActivity.java:499-521 | The deleted walks have no row; every other walk keeps its row. |
| CustomList.DeleteEachChildren | src/com/digitalpies/promenade/walklist/CustomListActivity.java:499-521 | The deleted walks have no child rows; every other walk keeps its own. |
| CustomList.FilesOfBelong | src/com/digitalpies/promenade/walklist/CustomListActivity.java:502-516 | Every file tried belongs to a photo of one of the walks. |
| CustomList.ExpectedDb | src/com/digitalpies/promenade/walklist/CustomListActivity.java:499-521 | After i iterations, the first i walks are deleted in list order. |
| CustomList.ExpectedProgress | src/com/digitalpies/promenade/walklist/CustomListActivity.java:519-520 | The positions 0..i-1 are published in increasing order when an activity is attached, and nothing otherwise. |
| CustomList.ExpectedFiles | src/com/digitalpies/promenade/walklist/CustomListActivity.java:502-516 | Files are tried only when photos are deleted, in order, with one check per file and one per walk. A toast is flagged exactly when a delete failed. |
| CustomList.DeleteTask.constructor | src/com/digitalpies/promenade/walklist/CustomListActivity.java:453-458 | The task starts with no effects. |
| CustomList.DeleteTask.SetActivity | src/com/digitalpies/promenade/walklist/CustomListActivity.java:465-469 | A task that has already completed tells the new activity. |
| CustomList.DeleteTask.NotifyActivityTaskCompleted | src/com/digitalpies/promenade/walklist/CustomListActivity.java:475-478 | Only an attached activity is told. |
| CustomList.DeleteTask.OnPostExecute | src/com/digitalpies/promenade/walklist/CustomListActivity.java:548-552 | Marks the task completed and tells the activity. |
| CustomList.DeleteTask.IsCancelled | src/com/digitalpies/promenade/walklist/CustomListActivity.java:508 | Each call to isCancelled is counted, and it answers true from the given call on. |
| CustomList.DeleteTask.OnProgressUpdate | src/com/digitalpies/promenade/walklist/CustomListActivity.java:532-542 | Passes the value on. A pending error toast is shown once, after which it is never shown again. |
| CustomList.DeleteTask.DeletePhotoFiles | src/com/digitalpies/promenade/walklist/CustomListActivity.java:505-515 | Tries files while the checks answer false, and stops at the first true. A failed delete flags a toast unless one has been shown. |
| CustomList.DeleteTask.PhotoPhase | src/com/digitalpies/promenade/walklist/CustomListActivity.java:502-516 | The photo part of one iteration. |
| CustomList.DeleteTask.CheckAndDelete | src/com/digitalpies/promenade/walklist/CustomListActivity.java:518-520 | The check; then, unless it answers true, the deletion and its progress. |
| CustomList.DeleteTask.DeleteStep | src/com/digitalpies/promenade/walklist/CustomListActivity.java:501-520 | One iteration extends the run by one walk, or stops it. |
| CustomList.DeleteTask.DoInBackground | src/com/digitalpies/promenade/walklist/CustomListActivity.java:497-523 | The walks deleted are a prefix of the selection, in order. Once a check answers true, neither another file nor another walk is deleted. |
| Dialogue.NonEmptyMembers | src/com/digitalpies/promenade/dialogue/WalkDialogue.java:305 | A name is kept exactly when it is not empty. |
| Dialogue.CleanedAppend | src/com/digitalpies/promenade/dialogue/WalkDialogue.java:301-306 | Pieces are cleaned one by one, so their order is kept. |
| Dialogue.CleanedMembers | src/com/digitalpies/promenade/dialogue/WalkDialogue.java:301-306 | The names kept are exactly the non-empty trimmed pieces. |
| Dialogue.CleanedShape | src/com/digitalpies/promenade/dialogue/WalkDialogue.java:298-305 | Each kept name is non-empty, trimmed at both ends, and free of any character no piece holds. |
| Dialogue.NewTags | src/com/digitalpies/promenade/dialogue/WalkDialogue.java:294-308 | The text is split at ",", each piece is trimmed, and the empty ones are dropped, in order. |
| Dialogue.NewTagsShape | src/com/digitalpies/promenade/dialogue/WalkDialogue.java:298-305 | Every typed tag is non-empty, comma-free and trimmed. |
| Dialogue.AddMissingMeaning | src/com/digitalpies/promenade/dialogue/WalkDialogue.java:393-397 | The old list stays as a prefix. The result holds exactly the old tags and the new ones. A duplicate-free list stays duplicate-free. |
| Dialogue.ToggledMeaning | src/com/digitalpies/promenade/dialogue/WalkDialogue.java:410-417 | The tag ends in the list exactly when its box was checked while it was absent. Every other tag keeps its membership, and no tag is repeated. |
| Dialogue.WalkDialogue.constructor | src/com/digitalpies/promenade/dialogue/WalkDialogue.java:179-192 | The checked tags are a new copy of the walk's tags, and the offered tags are getAllTags' result. |
| Dialogue.WalkDialogue.AddTags | src/com/digitalpies/promenade/dialogue/WalkDialogue.java:391-400 | Both lists gain the missing tags, and the offered list is sorted. The walk's own tags are untouched. |
| Dialogue.WalkDialogue.OnCheckedChanged | src/com/digitalpies/promenade/dialogue/WalkDialogue.java:410-417 | Adds the tag when checked and absent; otherwise removes one copy. The walk is untouched. |
| Dialogue.AddTagsMeaning | src/com/digitalpies/promenade/dialogue/WalkDialogue.java:391-398 | After addTags, every new tag is both checked and offered, and nothing else is added. No list gains a repeat, and the offered list is sorted. |
| MapIcons.TitleRoundTrip | src/com/digitalpies/promenade/maps/CustomItemizedOverlay.java:44 | Integer.parseInt of an item's title gives back its index. |
| MapIcons.DecimalInjective | src/com/digitalpies/promenade/maps/CustomMapActivity.java:343-355 | Different indices get different titles. |
| MapIcons.OverlapSymmetric | src/com/digitalpies/promenade/maps/CustomMapActivity.java:330-333 | The overlap test is symmetric: x and y each differ by at most the grid size. |
| MapIcons.HitsMeaning | src/com/digitalpies/promenade/maps/CustomMapActivity.java:320-339 | Hits holds exactly when some photo in the range overlaps photo k. |
| MapIcons.StatusMeaning | src/com/digitalpies/promenade/maps/CustomMapActivity.java:320-339 | The status is 1, 3 or 6. It is 3 exactly when a later photo overlaps. Otherwise it is 6 exactly when an earlier one does, and 1 exactly when none does. |
| MapIcons.StatusEnds | src/com/digitalpies/promenade/maps/CustomMapActivity.java:320-325 | The first photo is never hidden and the last is never stacked. |
| MapIcons.ComputeStatus | src/com/digitalpies/promenade/maps/CustomMapActivity.java:302-339 | The nested loops leave one entry per photo, equal to Status. Both `continue` guards are proved never to fire. |
| MapIcons.PlacedMembers | src/com/digitalpies/promenade/maps/CustomMapActivity.java:343-355 | An item is in an overlay exactly when it is a photo with that status, titled with its index. |
| MapIcons.PlacedExactly | src/com/digitalpies/promenade/maps/CustomMapActivity.java:343-355 | A photo is in an overlay exactly when its status matches, so hidden photos appear in neither. |
| MapIcons.OverlaysDisjoint | src/com/digitalpies/promenade/maps/CustomMapActivity.java:343-355 | No photo item is in both overlays. |
| MapIcons.NoteItemsMeaning | src/com/digitalpies/promenade/maps/CustomMapActivity.java:273-283 | One item per note, each titled with its index and carrying its text. |
| MapIcons.NoteItemTapped | src/com/digitalpies/promenade/maps/CustomMapActivity.java:279 | A tapped note item reports its note's index and shows that note's text. |
| MapIcons.Layout | src/com/digitalpies/promenade/maps/CustomMapActivity.java:311-339 | One status per photo, computed on its projected pixel. |
| MapIcons.ReloadedWithout | src/com/digitalpies/promenade/maps/CustomMapActivity.java:419-425 | After a delete, the reloaded rows exclude that id and belong to the walk. |
| MapIcons.ReloadedEdited | src/com/digitalpies/promenade/maps/CustomMapActivity.java:405-410 | After an edit, a reloaded row with that id holds the new text. |
| MapIcons.MapActivity.constructor | src/com/digitalpies/promenade/maps/CustomMapActivity.java:116-117 | The photo and note lists are exactly the walk's rows from the photos and notes tables, in rowid order. Nothing is drawn yet. |
| MapIcons.MapActivity.DrawNoteIcons | src/com/digitalpies/promenade/maps/CustomMapActivity.java:273-283 | The note overlay becomes NoteItems and is added to the map. |
| MapIcons.MapActivity.DrawPhotoIcons | src/com/digitalpies/promenade/maps/CustomMapActivity.java:289-360 | Plain photos go to one overlay and stacked photos to the other, in order, and both overlays are added. |
| MapIcons.MapActivity.DrawOverlays | src/com/digitalpies/promenade/maps/CustomMapActivity.java:366-370 | The map shows the route line only. |
| MapIcons.MapActivity.UpdateNote | src/com/digitalpies/promenade/maps/CustomMapActivity.java:405-410 | The note's text is stored and the notes are reloaded with it, then the map is redrawn. |
| MapIcons.MapActivity.DeleteNote | src/com/digitalpies/promenade/maps/CustomMapActivity.java:419-425 | Only that note row goes. The reloaded notes exclude it, and the map is redrawn. |
| MapIcons.MapActivity.DeletePhoto | src/com/digitalpies/promenade/maps/CustomMapActivity.java:440-452 | When asked, it tries the file, and a failure shows a toast. The row goes either way, the photos are reloaded, and the map is redrawn. |

## Left out

- Android UI, lifecycle and resources are left out: dialogs, menus, views, toasts, notifications, preferences and `savedInstanceState`.
  - Toasts and notifications are counters or enumerations.
  - The preference sort value is a parameter.
- Threads and timing are left out.
  - The delete thread in `deleteWalk`, the timer thread and `DeleteTask` become sequential steps.
  - One timer tick is one iteration of the sleep loop, and sleeping is left out.
- Floating point is modelled on reals.
  - Latitude and longitude are reals.
  - The `(int) (x * 1E6)` conversion is modelled on reals with Java's truncation and saturation, without double rounding.
  - The screen density and the grid size rounding at CustomMapActivity.java:311 are replaced by an integer grid-size parameter.
- DrawPhotoIcons: the map projection is a parameter from photo to pixel, so Mercator projection and zoom are not modelled.
- MapIcons.MapActivity.DrawOverlays models the base `drawOverlays` only. The overrides in `MapViewActivity` and `MapWalkActivity` are not part of this model.
- MapIcons.MapActivity.UpdateNote, DeleteNote and DeletePhoto end with the base redraw, so they ensure `mapOverlays == [LineLayer]`. `CustomMapActivity` is abstract, so at run time an override also redraws the note and photo icons, and that is not modelled.
- File deletion has no file system behind it.
  - Its outcome is an input: `fileDeleted`, or the set of failing attempts in `DeleteTask`.
  - The cancellation answers of `isCancelled()` are an input as well.
- The search table's full-text `MATCH` in `deleteTags` is read as exact membership of a checked name among the pieces of a search row's tag column. SQLite's tokenizer, case folding and prefix rules are not modelled.
- Query.SortRows: SQLite's collation for `name ASC`/`DESC` is modelled as Java's `String.compareTo`, with equal names kept in rowid order. SQLite does not promise an order for equal names.
- MapIcons.ParseInt accepts an optional '-' followed by digits. The '+' sign and other radices are not modelled. Titles never contain them.
- JavaStrings.CompareTo and JavaStrings.HashCode work on Unicode scalar values, not UTF-16 code units. They agree with Java for text within the Basic Multilingual Plane.
- Tags.ReadTagItems skips an element whose presence flag is 0, where `Parcel.readTypedList` adds `null`. Tag lists have no null elements, and writeTypedList never writes a 0 flag for them.
- JavaStrings.Split models `String.split` for separators without regular-expression metacharacters only. `","` and `" , "` are such separators.
- `DataSource.search()`, `open`/`close`, and the content provider are not part of this model. The UI part of WalkDialogue (`initialiseTags`, `updateTags`, `onSaveInstanceState`) is neither.
- The photo capture, note dialogs and map animations are not part of this model, nor is the rest of the UI code.
- Gps: the location manager and notification manager are flags (`hasManager`, `listening`, `notice`). The points go to the store through `createGeoPoint` and are modelled as an append log `persisted` of fixes.
- DataSource.EditWalk and the other writes model SQL statements that succeed. SQLite errors such as a full disk or a locked database are not modelled.
- Both `DataSource.deleteWalk` and `CustomListActivity` receive walks by object. The model passes the walk's id where only the id is used.

## Findings

| source | as written | input that shows it | evidently intended | confidence | as-written member | corrected member |
|---|---|---|---|---|---|---|
| src/com/digitalpies/promenade/database/Walk.java:29-30 | The constructor keeps a tag unless `tag.getName() != ""` fails, which compares references. Names read from the database come out of `String.split`, so they are never the literal `""`, and every tag is kept. | A walk saved with no tags stores `""`. It reads back with one tag named `""`. Editing it stores `" , "`, which splits into no piece, so every later read throws (`stringArrayToList` returns null). | Drop tags whose name is empty, comparing by value: the untagged walk reads back with no tags, before and after an edit. | not executed | TagCodec.AsWrittenUntaggedWalkBreaks | TagCodec.UntaggedWalkRoundTrip |
