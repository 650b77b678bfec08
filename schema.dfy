/**
 * The database layout SQLiteHelper.java declares: its name and version, the
 * five tables and their columns, exactly as its create statements spell them.
 */
module Schema {
  const DatabaseName: string := "promenade.db"
  const DatabaseVersion: int := 8

  const ColumnId: string := "_id"
  const TableWalks: string := "walks"
  const TableGps: string := "gps"
  const TablePhotos: string := "photos"
  const TableNotes: string := "notes"
  const TableSearch: string := "search"

  /** The declared type of a column; FTS3 columns may have none. */
  datatype Affinity = Integer | Real | Text | Untyped

  datatype Column = Column(name: string, affinity: Affinity, autoincrementKey: bool, notNull: bool)

  datatype Table = Table(name: string, virtualFts3: bool, columns: seq<Column>)

  function IdColumn(): Column { Column(ColumnId, Integer, true, false) }

  function WalksTable(): Table
  {
    Table(TableWalks, false, [IdColumn(), Column("name", Text, false, true), Column("description", Text, false, true),
                              Column("tags", Text, false, true), Column("date", Text, false, true)])
  }

  function GpsTable(): Table
  {
    Table(TableGps, false, [IdColumn(), Column("walk_id", Integer, false, false),
                            Column("latitude", Real, false, false), Column("longitude", Real, false, false)])
  }

  function PhotosTable(): Table
  {
    Table(TablePhotos, false, [IdColumn(), Column("walk_id", Integer, false, false),
                               Column("latitude", Real, false, false), Column("longitude", Real, false, false),
                               Column("file", Text, false, true)])
  }

  function NotesTable(): Table
  {
    Table(TableNotes, false, [IdColumn(), Column("walk_id", Integer, false, false),
                              Column("latitude", Real, false, false), Column("longitude", Real, false, false),
                              Column("note", Text, false, true)])
  }

  /**
   * The full-text search table. Its create statement ends in "tags, TEXT", so
   * besides walk_id, name, description and tags it has a fifth column named TEXT.
   */
  function SearchTable(): Table
  {
    Table(TableSearch, true, [Column("walk_id", Integer, false, false), Column("name", Text, false, false),
                              Column("description", Text, false, false), Column("tags", Untyped, false, false),
                              Column("TEXT", Untyped, false, false)])
  }

  /** The tables onCreate makes, in the order it makes them. */
  function AllTables(): seq<Table>
  {
    [WalksTable(), GpsTable(), PhotosTable(), NotesTable(), SearchTable()]
  }

  function TableNames(): (r: seq<string>)
    ensures |r| == |AllTables()| && forall i :: 0 <= i < |r| ==> r[i] == AllTables()[i].name
  {
    [TableWalks, TableGps, TablePhotos, TableNotes, TableSearch]
  }

  function ColumnNames(columns: seq<Column>): (r: seq<string>)
    ensures |r| == |columns| && forall i :: 0 <= i < |r| ==> r[i] == columns[i].name
  {
    if columns == [] then [] else [columns[0].name] + ColumnNames(columns[1..])
  }

  /** The tables have distinct names; every ordinary table starts with the autoincrement key. */
  lemma SchemaShape()
    ensures forall i, j :: 0 <= i < j < |TableNames()| ==> TableNames()[i] != TableNames()[j]
    ensures forall t :: t in AllTables() && !t.virtualFts3 ==> t.columns[0] == IdColumn()
    ensures ColumnNames(SearchTable().columns) == ["walk_id", "name", "description", "tags", "TEXT"]
  {
  }
}
