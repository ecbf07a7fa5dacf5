/** The store as SQLite holds it: a registry, the declarations, and physical tables in one flat,
    case-insensitive namespace. `Abs` reads it through the collection names. */
module Physical {
  import opened Documents
  import opened Catalogs

  /** A row of the registry. */
  datatype Meta = Meta(tableName: string, hasVector: bool, dims: int, createdAt: nat)

  /** A main table: its rows and its AUTOINCREMENT counter. */
  datatype Table = Table(rows: map<int, Row>, lastId: int)

  datatype Database = Database(
    registry: map<string, Meta>, refs: map<RefKey, RefDecl>,
    tables: map<string, Table>, fts: map<string, map<int, string>>, clock: nat)

  const EMPTY_DB := Database(map[], map[], map[], map[], 0)

  // ---------------------------------------------------------------- table names

  function LowerChar(ch: char): char {
    if 'A' <= ch <= 'Z' then ('a' as int + (ch as int - 'A' as int)) as char else ch
  }

  /** SQLite compares table names without regard to ASCII case. */
  function Fold(name: string): string {
    if name == "" then "" else [LowerChar(name[0])] + Fold(name[1..])
  }

  function MainKey(meta: Meta): string { Fold(meta.tableName) }
  function FtsKey(meta: Meta): string { Fold(meta.tableName + "_fts") }

  /** The shadow tables that vec0 makes for a main table with two vectors and two auxiliary
      columns, and FTS5 for its companion. */
  const VEC_SHADOWS: seq<string> := ["info", "chunks", "rowids", "vector_chunks00", "vector_chunks01", "auxiliary"]
  const FTS_SHADOWS: seq<string> := ["data", "idx", "content", "docsize", "config"]

  function VecShadowKeys(meta: Meta): set<string> {
    if meta.hasVector then set s | s in VEC_SHADOWS :: Fold(meta.tableName + ("_" + s)) else {}
  }

  function FtsShadowKeys(meta: Meta): set<string> {
    if meta.hasVector then set s | s in FTS_SHADOWS :: Fold(meta.tableName + "_fts" + ("_" + s)) else {}
  }

  /** Every name in SQLite's namespace that a collection takes. */
  function TakenBy(meta: Meta): set<string> {
    MainNames(meta) + FtsNames(meta)
  }

  function MainNames(meta: Meta): set<string> { {MainKey(meta)} + VecShadowKeys(meta) }

  function FtsNames(meta: Meta): set<string> {
    (if meta.hasVector then {FtsKey(meta)} else {}) + FtsShadowKeys(meta)
  }

  predicate Taken(db: Database, key: string) {
    key in db.tables || key in db.fts || exists n | n in db.registry :: key in TakenBy(db.registry[n])
  }

  predicate NoneTaken(db: Database, keys: set<string>) { forall key | key in keys :: !Taken(db, key) }

  // ---------------------------------------------------------------- ownership

  ghost predicate Present(db: Database, meta: Meta) {
    MainKey(meta) in db.tables && (meta.hasVector ==> FtsKey(meta) in db.fts)
  }

  ghost predicate OwnsMain(db: Database, key: string) {
    exists n | n in db.registry :: MainKey(db.registry[n]) == key
  }

  ghost predicate OwnsFts(db: Database, key: string) {
    exists n | n in db.registry :: db.registry[n].hasVector && FtsKey(db.registry[n]) == key
  }

  ghost predicate AllPresent(db: Database) {
    forall n | n in db.registry :: Present(db, db.registry[n])
  }

  ghost predicate Distinct(a: Meta, b: Meta) {
    MainKey(a) != MainKey(b) && (a.hasVector && b.hasVector ==> FtsKey(a) != FtsKey(b))
  }

  ghost predicate AllDistinct(registry: map<string, Meta>) {
    forall n, m | n in registry && m in registry && n != m :: Distinct(registry[n], registry[m])
  }

  ghost predicate NoneUnowned(db: Database) {
    && (forall key | key in db.tables :: OwnsMain(db, key))
    && (forall key | key in db.fts :: OwnsFts(db, key))
  }

  /** Each registered collection has its tables, no two collections share one, no name serves as
      both kinds of table, and no table is without a collection. */
  ghost predicate Owned(db: Database) {
    AllPresent(db) && AllDistinct(db.registry) && NoneUnowned(db) && db.tables.Keys !! db.fts.Keys
  }

  // ---------------------------------------------------------------- abstraction

  ghost function CollOf(db: Database, meta: Meta): Coll
    requires Present(db, meta)
  {
    var table := db.tables[MainKey(meta)];
    Coll(meta.hasVector, meta.dims, meta.createdAt, table.rows, table.lastId,
         if meta.hasVector then db.fts[FtsKey(meta)] else map[])
  }

  ghost function Abs(db: Database): Catalog
    requires AllPresent(db)
  {
    Catalog(map n | n in db.registry :: CollOf(db, db.registry[n]), db.refs, db.clock)
  }

  lemma AbsIs(db: Database, cat: Catalog)
    requires AllPresent(db) && cat.refs == db.refs && cat.clock == db.clock && cat.colls.Keys == db.registry.Keys
    requires forall n | n in db.registry :: cat.colls[n] == CollOf(db, db.registry[n])
    ensures Abs(db) == cat
  {
  }

  // ---------------------------------------------------------------- statements

  function WithTable(db: Database, key: string, table: Table): Database {
    db.(tables := db.tables[key := table])
  }

  function WithFts(db: Database, key: string, index: map<int, string>): Database {
    db.(fts := db.fts[key := index])
  }

  /** INSERT INTO a main table, with a given id or the next one. */
  function InsertRow(table: Table, id: Option<int>, row: Row): Option<(Table, int)> {
    match id
    case Some(i) => if i in table.rows then None else Some((Table(table.rows[i := row], Max(table.lastId, i)), i))
    case None =>
      var i := table.lastId + 1;
      if i in table.rows then None else Some((Table(table.rows[i := row], Max(table.lastId, i)), i))
  }

  /** INSERT INTO an FTS5 table under an explicit rowid. */
  function InsertFts(index: map<int, string>, id: int, text: string): Option<map<int, string>> {
    if id in index then None else Some(index[id := text])
  }

  // ---------------------------------------------------------------- writing one collection

  lemma SameTablesOwned(db: Database, db': Database)
    requires Owned(db) && db'.registry == db.registry
    requires db'.tables.Keys == db.tables.Keys && db'.fts.Keys == db.fts.Keys
    ensures Owned(db')
  {
  }

  lemma OtherTable(db: Database, n: string, m: string, table: Table)
    requires Owned(db) && n in db.registry && m in db.registry && m != n
    ensures var db' := WithTable(db, MainKey(db.registry[n]), table);
      Present(db', db.registry[m]) && CollOf(db', db.registry[m]) == CollOf(db, db.registry[m])
  {
  }

  lemma OtherFts(db: Database, n: string, m: string, index: map<int, string>)
    requires Owned(db) && n in db.registry && m in db.registry && m != n && db.registry[n].hasVector
    ensures var db' := WithFts(db, FtsKey(db.registry[n]), index);
      Present(db', db.registry[m]) && CollOf(db', db.registry[m]) == CollOf(db, db.registry[m])
  {
  }

  ghost predicate SameElsewhere(db: Database, db': Database, n: string)
    requires AllPresent(db) && AllPresent(db') && db'.registry == db.registry
  {
    forall m | m in db.registry && m != n :: CollOf(db', db.registry[m]) == CollOf(db, db.registry[m])
  }

  lemma AbsOfWrite(db: Database, db': Database, n: string)
    requires AllPresent(db) && AllPresent(db') && n in db.registry
    requires db'.registry == db.registry && db'.refs == db.refs && db'.clock == db.clock
    requires SameElsewhere(db, db', n)
    ensures Abs(db') == SetColl(Abs(db), n, CollOf(db', db.registry[n]))
  {
  }

  /** A statement on a main table touches that collection only. */
  lemma TableWrite(db: Database, n: string, table: Table)
    requires Owned(db) && n in db.registry
    ensures Owned(WithTable(db, MainKey(db.registry[n]), table))
    ensures Abs(WithTable(db, MainKey(db.registry[n]), table))
            == SetColl(Abs(db), n, Abs(db).colls[n].(rows := table.rows, lastId := table.lastId))
  {
    var db' := WithTable(db, MainKey(db.registry[n]), table);
    assert db'.tables.Keys == db.tables.Keys by { assert Present(db, db.registry[n]); }
    SameTablesOwned(db, db');
    assert SameElsewhere(db, db', n) by {
      forall m | m in db.registry && m != n ensures CollOf(db', db.registry[m]) == CollOf(db, db.registry[m]) {
        OtherTable(db, n, m, table);
      }
    }
    AbsOfWrite(db, db', n);
  }

  lemma FtsWrite(db: Database, n: string, index: map<int, string>)
    requires Owned(db) && n in db.registry && db.registry[n].hasVector
    ensures Owned(WithFts(db, FtsKey(db.registry[n]), index))
    ensures Abs(WithFts(db, FtsKey(db.registry[n]), index)) == SetColl(Abs(db), n, Abs(db).colls[n].(index := index))
  {
    var db' := WithFts(db, FtsKey(db.registry[n]), index);
    assert db'.fts.Keys == db.fts.Keys by { assert Present(db, db.registry[n]); }
    SameTablesOwned(db, db');
    assert SameElsewhere(db, db', n) by {
      forall m | m in db.registry && m != n ensures CollOf(db', db.registry[m]) == CollOf(db, db.registry[m]) {
        OtherFts(db, n, m, index);
      }
    }
    AbsOfWrite(db, db', n);
  }

  // ---------------------------------------------------------------- create, rename, drop

  function NewMeta(db: Database, name: string, hasVector: bool, dims: int): Meta {
    Meta("coll_" + name, hasVector, if hasVector then dims else 0, db.clock)
  }

  predicate NamesFree(db: Database, meta: Meta) {
    NoneTaken(db, TakenBy(meta))
  }

  /** What free names mean for the tables themselves. */
  predicate KeysFree(db: Database, meta: Meta) {
    && MainKey(meta) !in db.tables && MainKey(meta) !in db.fts
    && (meta.hasVector ==> FtsKey(meta) !in db.tables && FtsKey(meta) !in db.fts)
  }

  lemma FreeKeys(db: Database, meta: Meta)
    requires NamesFree(db, meta)
    ensures KeysFree(db, meta)
  {
    assert MainKey(meta) in TakenBy(meta) && (meta.hasVector ==> FtsKey(meta) in TakenBy(meta));
  }

  function CreatedDb(db: Database, name: string, meta: Meta, declared: map<RefKey, RefDecl>): Database {
    Database(
      db.registry[name := meta], db.refs + declared,
      db.tables[MainKey(meta) := Table(map[], 0)],
      if meta.hasVector then db.fts[FtsKey(meta) := map[]] else db.fts,
      db.clock + 1)
  }

  lemma FtsNameDiffers(meta: Meta)
    ensures MainKey(meta) != FtsKey(meta)
  {
    FoldLength(meta.tableName);
    FoldLength(meta.tableName + "_fts");
  }

  lemma {:induction false} FoldAppend(a: string, b: string)
    ensures Fold(a + b) == Fold(a) + Fold(b)
  {
    if a == "" {
      assert a + b == b;
    } else {
      assert (a + b)[1..] == a[1..] + b;
      FoldAppend(a[1..], b);
    }
  }

  /** The second character after the first `n`. */
  predicate MarkedFts(key: string, n: nat) { |key| > n + 1 && key[n + 1] == 'f' }

  lemma FtsIsMarked(name: string, suffix: string)
    ensures MarkedFts(Fold(name + "_fts" + suffix), |name|)
  {
    FoldAppend(name + "_fts", suffix);
    FoldAppend(name, "_fts");
    FoldLength(name);
    var fts := "_fts";
    assert fts[1..][0] == 'f';
    assert Fold("_fts")[1] == 'f';
  }

  lemma ShadowIsNotMarked(name: string, suffix: string)
    requires |suffix| > 0 && LowerChar(suffix[0]) != 'f'
    ensures !MarkedFts(Fold(name + ("_" + suffix)), |name|)
  {
    FoldAppend(name, "_" + suffix);
    FoldLength(name);
    assert ("_" + suffix)[1..] == suffix;
  }

  /** The tables of one collection do not get in each other's way. */
  lemma OwnNamesDiffer(meta: Meta)
    ensures MainNames(meta) !! FtsNames(meta)
  {
    var name := meta.tableName;
    forall key | key in FtsNames(meta) ensures MarkedFts(key, |name|) {
      FtsNameIsMarked(meta, key);
    }
    forall key | key in MainNames(meta) ensures !MarkedFts(key, |name|) {
      MainNameIsNotMarked(meta, key);
    }
  }

  lemma FtsNameIsMarked(meta: Meta, key: string)
    requires key in FtsNames(meta)
    ensures MarkedFts(key, |meta.tableName|)
  {
    if key in FtsShadowKeys(meta) {
      var s :| s in FTS_SHADOWS && key == Fold(meta.tableName + "_fts" + ("_" + s));
      FtsIsMarked(meta.tableName, "_" + s);
    } else {
      FtsIsMarked(meta.tableName, "");
      assert meta.tableName + "_fts" + "" == meta.tableName + "_fts";
    }
  }

  lemma MainNameIsNotMarked(meta: Meta, key: string)
    requires key in MainNames(meta)
    ensures !MarkedFts(key, |meta.tableName|)
  {
    FoldLength(meta.tableName);
    if key in VecShadowKeys(meta) {
      var s :| s in VEC_SHADOWS && key == Fold(meta.tableName + ("_" + s));
      VecShadowsAreNotMarked(s);
      ShadowIsNotMarked(meta.tableName, s);
    }
  }

  lemma VecShadowsAreNotMarked(s: string)
    requires s in VEC_SHADOWS
    ensures |s| > 0 && LowerChar(s[0]) != 'f'
  {
  }

  lemma FoldLength(name: string)
    ensures |Fold(name)| == |name|
  {
  }

  lemma CreatePresent(db: Database, name: string, meta: Meta, declared: map<RefKey, RefDecl>, n: string)
    requires Owned(db) && name !in db.registry && KeysFree(db, meta) && n in db.registry
    ensures var db' := CreatedDb(db, name, meta, declared);
      && n in db'.registry && db'.registry[n] == db.registry[n]
      && Present(db, db.registry[n]) && Present(db', db.registry[n]) && CollOf(db', db.registry[n]) == CollOf(db, db.registry[n])
      && Distinct(db.registry[n], meta) && Distinct(meta, db.registry[n])
  {
  }

  lemma CreateNoneUnowned(db: Database, name: string, meta: Meta, declared: map<RefKey, RefDecl>)
    requires NoneUnowned(db) && name !in db.registry
    ensures NoneUnowned(CreatedDb(db, name, meta, declared))
  {
    var db' := CreatedDb(db, name, meta, declared);
    assert name in db'.registry && db'.registry[name] == meta;
    forall key | key in db'.tables ensures OwnsMain(db', key) {
      if key != MainKey(meta) {
        assert OwnsMain(db, key);
        var n :| n in db.registry && MainKey(db.registry[n]) == key;
        assert n in db'.registry && db'.registry[n] == db.registry[n];
      }
    }
    forall key | key in db'.fts ensures OwnsFts(db', key) {
      if !(meta.hasVector && key == FtsKey(meta)) {
        assert OwnsFts(db, key);
        var n :| n in db.registry && db.registry[n].hasVector && FtsKey(db.registry[n]) == key;
        assert n in db'.registry && db'.registry[n] == db.registry[n];
      }
    }
  }

  lemma CreateOwned(db: Database, name: string, meta: Meta, declared: map<RefKey, RefDecl>)
    requires Owned(db) && name !in db.registry && KeysFree(db, meta)
    ensures Owned(CreatedDb(db, name, meta, declared))
  {
    var db' := CreatedDb(db, name, meta, declared);
    FtsNameDiffers(meta);
    CreateNoneUnowned(db, name, meta, declared);
    assert AllPresent(db') by {
      forall n | n in db'.registry ensures Present(db', db'.registry[n]) {
        if n != name { CreatePresent(db, name, meta, declared, n); }
      }
    }
    CreateDistinct(db, name, meta, declared);
  }

  lemma CreateDistinct(db: Database, name: string, meta: Meta, declared: map<RefKey, RefDecl>)
    requires Owned(db) && name !in db.registry && KeysFree(db, meta)
    ensures AllDistinct(CreatedDb(db, name, meta, declared).registry)
  {
  }

  /** Registering a collection and making its tables is the creation of an empty collection. */
  lemma CreateAbs(db: Database, name: string, hasVector: bool, dims: int, specs: map<string, RefSpec>)
    requires Owned(db) && SpecsWellFormed(specs) && name !in db.registry
    requires NamesFree(db, NewMeta(db, name, hasVector, dims))
    ensures var db' := CreatedDb(db, name, NewMeta(db, name, hasVector, dims), Declared(name, specs));
      Owned(db') && Abs(db') == Created(Abs(db), name, hasVector, dims, specs)
  {
    FreeKeys(db, NewMeta(db, name, hasVector, dims));
    CreateMeta(db, name, NewMeta(db, name, hasVector, dims), Declared(name, specs));
  }

  ghost function WithMeta(cat: Catalog, name: string, meta: Meta, declared: map<RefKey, RefDecl>): Catalog {
    Catalog(
      cat.colls[name := Coll(meta.hasVector, meta.dims, meta.createdAt, map[], 0, map[])],
      cat.refs + declared, cat.clock + 1)
  }

  lemma CreateMeta(db: Database, name: string, meta: Meta, declared: map<RefKey, RefDecl>)
    requires Owned(db) && name !in db.registry && KeysFree(db, meta)
    ensures Owned(CreatedDb(db, name, meta, declared))
    ensures Abs(CreatedDb(db, name, meta, declared)) == WithMeta(Abs(db), name, meta, declared)
  {
    var db' := CreatedDb(db, name, meta, declared);
    CreateOwned(db, name, meta, declared);
    var cat := WithMeta(Abs(db), name, meta, declared);
    forall n | n in db'.registry ensures CollIs(db', cat, n) {
      CreateCollAt(db, name, meta, declared, n);
    }
    AbsFrom(db', cat);
  }

  ghost predicate CollIs(db: Database, cat: Catalog, n: string) {
    n in db.registry && n in cat.colls && Present(db, db.registry[n]) && cat.colls[n] == CollOf(db, db.registry[n])
  }

  lemma AbsFrom(db: Database, cat: Catalog)
    requires cat.refs == db.refs && cat.clock == db.clock && cat.colls.Keys == db.registry.Keys
    requires forall n | n in db.registry :: CollIs(db, cat, n)
    ensures AllPresent(db) && Abs(db) == cat
  {
  }

  lemma CreateCollAt(db: Database, name: string, meta: Meta, declared: map<RefKey, RefDecl>, n: string)
    requires Owned(db) && name !in db.registry && KeysFree(db, meta) && (n == name || n in db.registry)
    ensures CollIs(CreatedDb(db, name, meta, declared), WithMeta(Abs(db), name, meta, declared), n)
  {
    FtsNameDiffers(meta);
    if n != name { CreatePresent(db, name, meta, declared, n); }
  }

  function RenamedDb(db: Database, oldName: string, newName: string): Database
    requires oldName in db.registry
  {
    db.(registry := RenamedColls(db.registry, oldName, newName), refs := RenamedRefs(db.refs, oldName, newName))
  }

  lemma RenamedEntry(db: Database, oldName: string, newName: string, n: string)
    requires n in db.registry && oldName in db.registry && (oldName == newName || newName !in db.registry)
    ensures var n' := Substitute(n, oldName, newName);
      n' in RenamedDb(db, oldName, newName).registry && RenamedDb(db, oldName, newName).registry[n'] == db.registry[n]
  {
  }

  /** Each name after the rename stands for one name before it. */
  function NameBefore(n: string, oldName: string, newName: string): string {
    if n == newName then oldName else n
  }

  lemma RenamedFrom(db: Database, oldName: string, newName: string, n: string)
    requires oldName in db.registry && n in RenamedDb(db, oldName, newName).registry
    ensures var n0 := NameBefore(n, oldName, newName);
      n0 in db.registry && RenamedDb(db, oldName, newName).registry[n] == db.registry[n0]
      && Substitute(n0, oldName, newName) == n
  {
  }

  lemma RenameDistinct(db: Database, oldName: string, newName: string)
    requires AllDistinct(db.registry) && oldName in db.registry
    ensures AllDistinct(RenamedDb(db, oldName, newName).registry)
  {
  }

  lemma RenameOwned(db: Database, oldName: string, newName: string)
    requires Owned(db) && oldName in db.registry && (oldName == newName || newName !in db.registry)
    ensures Owned(RenamedDb(db, oldName, newName))
  {
    var db' := RenamedDb(db, oldName, newName);
    assert AllPresent(db') by {
      forall n | n in db'.registry ensures Present(db', db'.registry[n]) {
        RenamedFrom(db, oldName, newName, n);
        assert Present(db, db.registry[NameBefore(n, oldName, newName)]);
      }
    }
    RenameDistinct(db, oldName, newName);
    RenameNoneUnowned(db, oldName, newName);
  }

  lemma RenameNoneUnowned(db: Database, oldName: string, newName: string)
    requires NoneUnowned(db) && oldName in db.registry && (oldName == newName || newName !in db.registry)
    ensures NoneUnowned(RenamedDb(db, oldName, newName))
  {
    var db' := RenamedDb(db, oldName, newName);
    forall key | key in db'.tables ensures OwnsMain(db', key) {
      assert OwnsMain(db, key);
      var n :| n in db.registry && MainKey(db.registry[n]) == key;
      RenamedEntry(db, oldName, newName, n);
    }
    forall key | key in db'.fts ensures OwnsFts(db', key) {
      assert OwnsFts(db, key);
      var n :| n in db.registry && db.registry[n].hasVector && FtsKey(db.registry[n]) == key;
      RenamedEntry(db, oldName, newName, n);
    }
  }

  /** A rename keeps every table where it is: the collection only changes its name. */
  lemma RenameAbs(db: Database, oldName: string, newName: string)
    requires Owned(db) && oldName in db.registry && (oldName == newName || newName !in db.registry)
    ensures Owned(RenamedDb(db, oldName, newName))
    ensures Abs(RenamedDb(db, oldName, newName)) == Renamed(Abs(db), oldName, newName)
  {
    RenameOwned(db, oldName, newName);
    RenameAbsColls(db, RenamedDb(db, oldName, newName), oldName, newName);
  }

  lemma RenameAbsColls(db: Database, db': Database, oldName: string, newName: string)
    requires AllPresent(db) && AllPresent(db') && oldName in db.registry && (oldName == newName || newName !in db.registry)
    requires db' == RenamedDb(db, oldName, newName)
    ensures Abs(db') == Renamed(Abs(db), oldName, newName)
  {
    forall n | n in db'.registry ensures Abs(db').colls[n] == Renamed(Abs(db), oldName, newName).colls[n] {
      RenameCollAt(db, oldName, newName, n);
    }
    assert Abs(db').colls.Keys == Renamed(Abs(db), oldName, newName).colls.Keys;
  }

  lemma RenameCollAt(db: Database, oldName: string, newName: string, n: string)
    requires AllPresent(db) && oldName in db.registry && (oldName == newName || newName !in db.registry)
    requires n in RenamedDb(db, oldName, newName).registry
    ensures var db' := RenamedDb(db, oldName, newName);
      && Present(db', db'.registry[n])
      && n in Renamed(Abs(db), oldName, newName).colls
      && Renamed(Abs(db), oldName, newName).colls[n] == CollOf(db', db'.registry[n])
  {
  }

  function DroppedDb(db: Database, name: string): Database
    requires name in db.registry
  {
    var meta := db.registry[name];
    db.(registry := db.registry - {name},
        tables := db.tables - {MainKey(meta)},
        fts := if meta.hasVector then db.fts - {FtsKey(meta)} else db.fts)
  }

  lemma DropKeeps(db: Database, name: string, n: string)
    requires Owned(db) && name in db.registry && n in db.registry && n != name
    ensures Present(DroppedDb(db, name), db.registry[n])
    ensures CollOf(DroppedDb(db, name), db.registry[n]) == CollOf(db, db.registry[n])
  {
  }

  lemma DropNoneUnowned(db: Database, name: string)
    requires NoneUnowned(db) && name in db.registry
    ensures NoneUnowned(DroppedDb(db, name))
  {
    var db' := DroppedDb(db, name);
    forall key | key in db'.tables ensures OwnsMain(db', key) {
      assert OwnsMain(db, key);
      var n :| n in db.registry && MainKey(db.registry[n]) == key;
      assert n in db'.registry;
    }
    forall key | key in db'.fts ensures OwnsFts(db', key) {
      assert OwnsFts(db, key);
      var n :| n in db.registry && db.registry[n].hasVector && FtsKey(db.registry[n]) == key;
      assert n in db'.registry;
    }
  }

  lemma DropOwned(db: Database, name: string)
    requires Owned(db) && name in db.registry
    ensures Owned(DroppedDb(db, name))
  {
    var db' := DroppedDb(db, name);
    DropNoneUnowned(db, name);
    assert AllPresent(db') by {
      forall n | n in db'.registry ensures Present(db', db'.registry[n]) {
        DropKeeps(db, name, n);
      }
    }
    assert AllDistinct(db'.registry) by {
      forall n, m | n in db'.registry && m in db'.registry && n != m ensures Distinct(db'.registry[n], db'.registry[m]) {
        assert Distinct(db.registry[n], db.registry[m]);
      }
    }
  }

  /** A drop removes both tables and the registration, and nothing else. */
  lemma DropAbs(db: Database, name: string)
    requires Owned(db) && name in db.registry
    ensures Owned(DroppedDb(db, name)) && Abs(DroppedDb(db, name)) == Dropped(Abs(db), name)
  {
    var db' := DroppedDb(db, name);
    DropOwned(db, name);
    forall n | n in db'.registry ensures Dropped(Abs(db), name).colls[n] == CollOf(db', db'.registry[n]) {
      DropKeeps(db, name, n);
    }
    AbsIs(db', Dropped(Abs(db), name));
  }

  // ---------------------------------------------------------------- every run

  /** Everything a committed transaction can do to the physical tables. */
  datatype Change =
    | Make(name: string, hasVector: bool, dims: int, declared: map<RefKey, RefDecl>)
    | Relabel(oldName: string, newName: string)
    | Discard(name: string)
    | WriteTable(name: string, table: Table)
    | WriteFts(name: string, index: map<int, string>)

  predicate Possible(db: Database, change: Change) {
    match change
    case Make(name, hasVector, dims, _) => name !in db.registry && NamesFree(db, NewMeta(db, name, hasVector, dims))
    case Relabel(oldName, newName) => oldName in db.registry && (oldName == newName || newName !in db.registry)
    case Discard(name) => name in db.registry
    case WriteTable(name, _) => name in db.registry
    case WriteFts(name, _) => name in db.registry && db.registry[name].hasVector
  }

  function Apply(db: Database, change: Change): Database
    requires Possible(db, change)
  {
    match change
    case Make(name, hasVector, dims, declared) => CreatedDb(db, name, NewMeta(db, name, hasVector, dims), declared)
    case Relabel(oldName, newName) => RenamedDb(db, oldName, newName)
    case Discard(name) => DroppedDb(db, name)
    case WriteTable(name, table) => WithTable(db, MainKey(db.registry[name]), table)
    case WriteFts(name, index) => WithFts(db, FtsKey(db.registry[name]), index)
  }

  ghost predicate History(dbs: seq<Database>, changes: seq<Change>) {
    && |dbs| == |changes| + 1 && dbs[0] == EMPTY_DB
    && forall n | 0 <= n < |changes| :: Possible(dbs[n], changes[n]) && dbs[n + 1] == Apply(dbs[n], changes[n])
  }

  ghost predicate Apart(a: Meta, b: Meta) { TakenBy(a) !! TakenBy(b) }

  ghost predicate NamesApart(registry: map<string, Meta>) {
    forall n, m | n in registry && m in registry && n != m :: Apart(registry[n], registry[m])
  }

  lemma FreeNamesApart(db: Database, meta: Meta, n: string)
    requires NamesFree(db, meta) && n in db.registry
    ensures Apart(db.registry[n], meta) && Apart(meta, db.registry[n])
  {
    forall key | key in TakenBy(meta) ensures key !in TakenBy(db.registry[n]) {
      assert !Taken(db, key);
    }
  }

  /** Over every run no two collections take the same name, shadow tables included. */
  lemma {:induction false} NamesAlwaysApart(dbs: seq<Database>, changes: seq<Change>, n: nat)
    requires History(dbs, changes) && n < |dbs|
    ensures NamesApart(dbs[n].registry)
  {
    if n > 0 {
      NamesAlwaysApart(dbs, changes, n - 1);
      ChangeKeepsApart(dbs[n - 1], changes[n - 1]);
    }
  }

  lemma ChangeKeepsApart(db: Database, change: Change)
    requires NamesApart(db.registry) && Possible(db, change)
    ensures NamesApart(Apply(db, change).registry)
  {
    match change
    case Make(name, hasVector, dims, _) => NewNamesApart(db, name, NewMeta(db, name, hasVector, dims));
    case Relabel(oldName, newName) => RelabelledApart(db, oldName, newName);
    case _ =>
  }

  lemma NewNamesApart(db: Database, name: string, meta: Meta)
    requires NamesApart(db.registry) && NamesFree(db, meta) && name !in db.registry
    ensures NamesApart(db.registry[name := meta])
  {
    forall n | n in db.registry ensures Apart(db.registry[n], meta) && Apart(meta, db.registry[n]) {
      FreeNamesApart(db, meta, n);
    }
  }

  lemma RelabelledApart(db: Database, oldName: string, newName: string)
    requires NamesApart(db.registry) && oldName in db.registry
    ensures NamesApart(RenamedDb(db, oldName, newName).registry)
  {
    var registry := RenamedDb(db, oldName, newName).registry;
    forall n, m | n in registry && m in registry && n != m ensures Apart(registry[n], registry[m]) {
      RenamedFrom(db, oldName, newName, n);
      RenamedFrom(db, oldName, newName, m);
      assert Apart(db.registry[NameBefore(n, oldName, newName)], db.registry[NameBefore(m, oldName, newName)]);
    }
  }

  /** Over every run, whatever is created, renamed, dropped or recreated, physical tables have
      exactly one owner. */
  lemma {:induction false} TablesAlwaysOwned(dbs: seq<Database>, changes: seq<Change>, n: nat)
    requires History(dbs, changes) && n < |dbs|
    ensures Owned(dbs[n])
  {
    if n > 0 {
      TablesAlwaysOwned(dbs, changes, n - 1);
      var db := dbs[n - 1];
      match changes[n - 1]
      case Make(name, hasVector, dims, declared) =>
        FreeKeys(db, NewMeta(db, name, hasVector, dims));
        CreateOwned(db, name, NewMeta(db, name, hasVector, dims), declared);
      case Relabel(oldName, newName) => RenameOwned(db, oldName, newName);
      case Discard(name) => DropOwned(db, name);
      case WriteTable(name, table) => TableWrite(db, name, table);
      case WriteFts(name, index) => FtsWrite(db, name, index);
    }
  }
}
