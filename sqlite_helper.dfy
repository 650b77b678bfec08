/**
 * SQLiteHelper.java: onCreate runs the five create statements in order;
 * onUpgrade drops every table that exists and then runs onCreate, whatever
 * versions it is given.
 */
module SqliteHelper {
  import Schema
  import opened Store

  /** The table a create or drop statement names. */
  datatype Table = Walks | Gps | Photos | Notes | Search

  function NameOf(t: Table): string
  {
    match t
    case Walks => Schema.TableWalks
    case Gps => Schema.TableGps
    case Photos => Schema.TablePhotos
    case Notes => Schema.TableNotes
    case Search => Schema.TableSearch
  }

  /** Different tables have different names. */
  lemma NameOfInjective(a: Table, b: Table)
    ensures NameOf(a) == NameOf(b) <==> a == b
  {
  }

  /** The statements' tables in the order onCreate runs them: the schema order. */
  const Order: seq<Table> := [Walks, Gps, Photos, Notes, Search]

  lemma OrderNames()
    ensures |Order| == 5 && forall i :: 0 <= i < 5 ==> NameOf(Order[i]) == Schema.TableNames()[i]
  {
  }

  /** The table names with `name` taken out. */
  function Without(tables: seq<string>, name: string): seq<string>
  {
    Filter(tables, (t: string) => t != name)
  }

  /** A table survives the drop exactly when it is another table. */
  lemma WithoutMembers(tables: seq<string>, name: string)
    ensures forall n :: n in Without(tables, name) <==> n in tables && n != name
  {
    FilterMembers(tables, (t: string) => t != name);
  }

  /** The database with the rows of table `t` gone and its sqlite_sequence entry back at 0. */
  function Cleared(st: DbState, t: Table): DbState
  {
    match t
    case Walks => st.(walks := [], walkSeq := 0)
    case Gps => st.(gps := [], gpsSeq := 0)
    case Photos => st.(photos := [], photoSeq := 0)
    case Notes => st.(notes := [], noteSeq := 0)
    case Search => st.(search := [])
  }

  /** What a `create table` that succeeds leaves: the new table, empty, after the others. */
  function Created(st: DbState, t: Table): DbState
  {
    Cleared(st, t).(tables := st.tables + [NameOf(t)])
  }

  /** No table holds a row and every counter is at 0. */
  predicate NoRows(st: DbState)
  {
    st.walks == [] && st.gps == [] && st.photos == [] && st.notes == [] && st.search == [] &&
    st.walkSeq == 0 && st.gpsSeq == 0 && st.photoSeq == 0 && st.noteSeq == 0
  }

  /** A table that is dropped or newly created has no rows and no sqlite_sequence entry. */
  method ClearTable(db: Database, t: Table)
    modifies db
    ensures db.State() == Cleared(old(db.State()), t)
  {
    match t
    case Walks => db.walks, db.walkSeq := [], 0;
    case Gps => db.gps, db.gpsSeq := [], 0;
    case Photos => db.photos, db.photoSeq := [], 0;
    case Notes => db.notes, db.noteSeq := [], 0;
    case Search => db.search := [];
  }

  /** `create table`: fails (an SQLiteException) when the table already exists. */
  method ExecCreate(db: Database, t: Table) returns (ok: bool)
    modifies db
    ensures ok <==> NameOf(t) !in old(db.tables)
    ensures ok ==> db.State() == Created(old(db.State()), t)
    ensures !ok ==> unchanged(db)
  {
    if NameOf(t) in db.tables {
      return false;
    }
    ClearTable(db, t);
    db.tables := db.tables + [NameOf(t)];
    ok := true;
  }

  /** `DROP TABLE IF EXISTS`: the table, its rows and its counter disappear. */
  method DropTableIfExists(db: Database, t: Table)
    modifies db
    ensures db.State() == Cleared(old(db.State()), t).(tables := Without(old(db.tables), NameOf(t)))
  {
    ClearTable(db, t);
    db.tables := Without(db.tables, NameOf(t));
  }

  /** The five creates of onCreate, all succeeding, from state `st`: the tables come after the others in schema order, with no rows. */
  lemma CreatedSchema(st: DbState)
    ensures var s5 := Created(Created(Created(Created(Created(st, Walks), Gps), Photos), Notes), Search);
      s5.tables == st.tables + Schema.TableNames() && NoRows(s5)
  {
  }

  /**
   * onCreate: succeeds exactly when none of the five tables exists yet, and then
   * adds them, in schema order, all empty. The first create that fails stops it.
   */
  method OnCreate(db: Database) returns (ok: bool)
    modifies db
    ensures ok <==> forall n :: n in Schema.TableNames() ==> n !in old(db.tables)
    ensures ok ==> db.tables == old(db.tables) + Schema.TableNames() && db.Empty()
  {
    ghost var st := db.State();
    OrderNames();
    ok := ExecCreate(db, Walks);
    if !ok {
      return;
    }
    ok := ExecCreate(db, Gps);
    if !ok {
      NameOfInjective(Gps, Walks);
      assert NameOf(Gps) in st.tables;
      return;
    }
    ok := ExecCreate(db, Photos);
    if !ok {
      NameOfInjective(Photos, Walks);
      NameOfInjective(Photos, Gps);
      assert NameOf(Photos) in st.tables;
      return;
    }
    ok := ExecCreate(db, Notes);
    if !ok {
      NameOfInjective(Notes, Walks);
      NameOfInjective(Notes, Gps);
      NameOfInjective(Notes, Photos);
      assert NameOf(Notes) in st.tables;
      return;
    }
    ok := ExecCreate(db, Search);
    if !ok {
      NameOfInjective(Search, Walks);
      NameOfInjective(Search, Gps);
      NameOfInjective(Search, Photos);
      NameOfInjective(Search, Notes);
      assert NameOf(Search) in st.tables;
      return;
    }
    CreatedSchema(st);
  }

  /** A new database file: onCreate succeeds and leaves the schema's tables, all empty. */
  method CreateDatabase() returns (db: Database, ok: bool)
    ensures ok && db.tables == Schema.TableNames() && db.Empty() && db.Valid()
  {
    db := new Database();
    ok := OnCreate(db);
    assert [] + Schema.TableNames() == Schema.TableNames();
  }

  /** The five `DROP TABLE IF EXISTS` statements of onUpgrade. */
  method DropSchema(db: Database)
    modifies db
    ensures forall n :: n in db.tables <==> n in old(db.tables) && n !in Schema.TableNames()
  {
    ghost var t0 := db.tables;
    DropTableIfExists(db, Walks);
    ghost var t1 := db.State().tables;
    DropTableIfExists(db, Gps);
    ghost var t2 := db.State().tables;
    DropTableIfExists(db, Photos);
    ghost var t3 := db.State().tables;
    DropTableIfExists(db, Notes);
    ghost var t4 := db.State().tables;
    DropTableIfExists(db, Search);
    assert db.tables == db.State().tables == Without(t4, Schema.TableSearch);
    DroppedSchema(t0);
  }

  /** Dropping the five tables one after the other leaves the other tables and no more. */
  lemma DroppedSchema(t0: seq<string>)
    ensures var t1 := Without(t0, Schema.TableWalks);
      var t2 := Without(t1, Schema.TableGps);
      var t3 := Without(t2, Schema.TablePhotos);
      var t4 := Without(t3, Schema.TableNotes);
      forall n :: n in Without(t4, Schema.TableSearch) <==> n in t0 && n !in Schema.TableNames()
  {
    var t1 := Without(t0, Schema.TableWalks);
    var t2 := Without(t1, Schema.TableGps);
    var t3 := Without(t2, Schema.TablePhotos);
    var t4 := Without(t3, Schema.TableNotes);
    WithoutMembers(t0, Schema.TableWalks);
    WithoutMembers(t1, Schema.TableGps);
    WithoutMembers(t2, Schema.TablePhotos);
    WithoutMembers(t3, Schema.TableNotes);
    WithoutMembers(t4, Schema.TableSearch);
  }

  /**
   * onUpgrade: whatever the versions and whatever the database held, every
   * walk, point, photo, note and search row is gone afterwards, the counters
   * start again from zero and the five tables exist again.
   */
  method OnUpgrade(db: Database, oldVersion: int, newVersion: int) returns (ok: bool)
    modifies db
    ensures ok && db.Empty() && db.Valid()
    ensures forall n :: n in db.tables <==> n in old(db.tables) || n in Schema.TableNames()
  {
    DropSchema(db);
    ok := OnCreate(db);
    assert SchemaPresent(db.tables);
    EmptyStateValid(db.State());
  }
}
