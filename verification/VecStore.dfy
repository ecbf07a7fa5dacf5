/** The store's operations as they run: statement by statement, with the commits where the code
    has them. Every statement, commit and embedding call may fail unless `reliable`. */
module Store {
  import opened Documents
  import opened Catalogs
  import opened Integrity
  import opened Runs
  import opened Cascade
  import opened Physical
  import opened Export
  import opened Sorting
  import QueryBuilder
  import Meanings

  /** A row of the registry as the operations pass it around. */
  datatype Collection = Collection(name: string, hasVector: bool, tableName: string)

  /** A stored reference declaration of one collection. */
  datatype Reference = Reference(field: string, target: string, onDelete: OnDelete)

  lemma SoundWrite(cat: Catalog, c: string, coll': Coll)
    requires Sound(cat) && c in cat.colls && CollSound(coll') && coll'.createdAt == cat.colls[c].createdAt
    ensures Sound(SetColl(cat, c, coll'))
  {
  }

  function MainOf(coll: Coll): Table { Table(coll.rows, coll.lastId) }

  /** An INSERT into the main table, seen from its collection. */
  lemma InsertRowMeaning(coll: Coll, id: Option<int>, text: string, data: Payload)
    requires CollSound(coll)
    ensures match InsertRow(MainOf(coll), id, StoredRow(coll, text, data))
      case None => ChooseId(coll, id) == Err(Rejected)
      case Some((table, i)) =>
        && ChooseId(coll, id) == Ok(i) && i !in coll.rows
        && table == MainOf(AddRow(coll, i, StoredRow(coll, text, data)))
        && CollSound(AddRow(coll, i, StoredRow(coll, text, data)))
        && CollSound(Inserted(coll, i, StoredRow(coll, text, data)))
  {
  }

  /** What one collection's tables hold. */
  lemma TablesOf(db: Database, n: string)
    requires Owned(db) && n in db.registry
    ensures MainKey(db.registry[n]) in db.tables && db.tables[MainKey(db.registry[n])] == MainOf(Abs(db).colls[n])
    ensures db.registry[n].hasVector ==>
      FtsKey(db.registry[n]) in db.fts && db.fts[FtsKey(db.registry[n])] == Abs(db).colls[n].index
  {
  }

  /** The row and then its index entry are one insert. */
  lemma RowThenIndex(cat: Catalog, name: string, i: int, item: Item)
    requires name in cat.colls && cat.colls[name].hasVector
    ensures var c, row := cat.colls[name], StoredRow(cat.colls[name], item.text, item.data);
      SetColl(SetColl(cat, name, AddRow(c, i, row)), name, AddIndex(AddRow(c, i, row), i, item.text))
      == SetColl(cat, name, Inserted(c, i, row))
  {
    var c, row := cat.colls[name], StoredRow(cat.colls[name], item.text, item.data);
    SetCollTwice(cat, name, AddRow(c, i, row), Inserted(c, i, row));
  }

  /** Deleting a row and inserting it again is replacing it in place. */
  lemma PutBack<V>(m: map<int, V>, id: int, v: V)
    ensures (m - {id})[id := v] == m[id := v]
  {
  }

  /** `tx` is `cat` with the items placed in collection `c`. */
  ghost predicate Placed(cat: Catalog, c: string, items: seq<Item>, tx: Database, ids: seq<int>) {
    && c in cat.colls && PlaceAll(cat.colls[c], items).Ok? && ids == PlaceAll(cat.colls[c], items).value.0
    && Owned(tx) && Abs(tx) == SetColl(cat, c, PlaceAll(cat.colls[c], items).value.1)
  }

  lemma PlacedNext(cat: Catalog, c: string, items: seq<Item>, n: nat, tx: Database, ids: seq<int>, tx': Database, i: int)
    requires n < |items| && Placed(cat, c, items[..n], tx, ids) && Owned(tx')
    requires ChooseId(Abs(tx).colls[c], items[n].id) == Ok(i)
    requires Abs(tx') == SetColl(Abs(tx), c,
               Inserted(Abs(tx).colls[c], i, StoredRow(Abs(tx).colls[c], items[n].text, items[n].data)))
    ensures Placed(cat, c, items[..n + 1], tx', ids + [i])
  {
    NextLands(cat.colls[c], items, n, ids, Abs(tx).colls[c], i);
    SetCollTwice(cat, c, Abs(tx).colls[c], Abs(tx').colls[c]);
  }

  lemma NextLands(coll: Coll, items: seq<Item>, n: nat, ids: seq<int>, mid: Coll, i: int)
    requires n < |items| && PlaceAll(coll, items[..n]) == Ok((ids, mid)) && ChooseId(mid, items[n].id) == Ok(i)
    ensures PlaceAll(coll, items[..n + 1]) == Ok((ids + [i], Inserted(mid, i, StoredRow(mid, items[n].text, items[n].data))))
  {
    assert items[..n + 1] == items[..n] + [items[n]];
    PlaceOneMore(coll, items[..n], items[n]);
  }

  lemma PlaceFails(cat: Catalog, c: string, items: seq<Item>, n: nat, tx: Database, ids: seq<int>)
    requires n < |items| && Placed(cat, c, items[..n], tx, ids)
    requires ChooseId(Abs(tx).colls[c], items[n].id) == Err(Rejected)
    ensures PlaceAll(cat.colls[c], items) == Err(Rejected)
  {
    NextFails(cat.colls[c], items, n, Abs(tx).colls[c]);
  }

  lemma NextFails(coll: Coll, items: seq<Item>, n: nat, mid: Coll)
    requires n < |items| && PlaceAll(coll, items[..n]).Ok? && PlaceAll(coll, items[..n]).value.1 == mid
    requires ChooseId(mid, items[n].id) == Err(Rejected)
    ensures PlaceAll(coll, items) == Err(Rejected)
  {
    assert items[..n + 1] == items[..n] + [items[n]];
    PlaceOneMore(coll, items[..n], items[n]);
    PlaceAllPrefix(coll, items, n + 1);
  }

  lemma PlacedSound(cat: Catalog, c: string, items: seq<Item>, tx: Database, ids: seq<int>)
    requires Sound(cat) && Placed(cat, c, items, tx, ids)
    ensures c in Abs(tx).colls && CollSound(Abs(tx).colls[c])
  {
    PlaceAllExtends(cat.colls[c], items);
  }

  lemma NothingPlaced(cat: Catalog, c: string, tx: Database)
    requires Owned(tx) && Abs(tx) == cat && c in cat.colls
    ensures Placed(cat, c, [], tx, [])
  {
  }

  lemma RemoveFromPlain(coll: Coll, id: int)
    requires CollSound(coll) && !coll.hasVector
    ensures coll.(rows := coll.rows - {id}, index := coll.index - {id}) == coll.(rows := coll.rows - {id})
  {
  }

  /** Rows come back from a query in no particular order. */
  method Query<T(==)>(s: set<T>) returns (q: seq<T>)
    ensures forall i | 0 <= i < |q| :: q[i] in s
    ensures forall x | x in s :: x in q
    ensures forall i, j | 0 <= i < j < |q| :: q[i] != q[j]
  {
    q := [];
    var rest := s;
    while rest != {}
      invariant rest <= s && (forall i | 0 <= i < |q| :: q[i] in s && q[i] !in rest)
      invariant forall x | x in s :: x in q || x in rest
      invariant forall i, j | 0 <= i < j < |q| :: q[i] != q[j]
      decreases |rest|
    {
      var x :| x in rest;
      rest := rest - {x};
      q := q + [x];
    }
  }

  const NO_FILTER: Comparison := (v: Json, op: string, value: QueryBuilder.Value) => true

  /** The rows a listing query selects, in their order. */
  method SelectRows(rows: map<int, Row>, holds: Comparison, conds: seq<QueryBuilder.Condition>, sort: Option<QueryBuilder.SortSpec>)
    returns (full: seq<Document>)
    ensures IsListing(full, rows, holds, conds, sort)
  {
    var ids := Sort(rows.Keys, ID_ORDER);
    assert forall i | 0 <= i < |ids| :: ids[i] in ids;
    full := Selected(holds, conds, DocumentsAt(rows, ids));
    match sort {
      case None =>
      case Some(s) => full := Arrange(full, s);
    }
  }

  predicate TargetsExist(db: Database, specs: map<string, RefSpec>) {
    forall f | f in specs :: specs[f].target in db.registry
  }

  predicate Undeclared(refs: map<RefKey, RefDecl>, name: string, specs: map<string, RefSpec>) {
    forall f | f in specs :: RefKey(name, f) !in refs
  }

  /** `refs'` is `refs` with the declarations of `fields` inserted, none of which was there. */
  ghost predicate DeclaredUpTo(refs: map<RefKey, RefDecl>, name: string, specs: map<string, RefSpec>,
                               fields: seq<string>, refs': map<RefKey, RefDecl>)
    requires SpecsWellFormed(specs)
  {
    && (forall k | k in refs :: k in refs' && refs'[k] == refs[k])
    && (forall k | k in refs' && k !in refs :: k.coll == name && k.field in fields)
    && (forall f | f in fields :: f in specs && RefKey(name, f) !in refs && RefKey(name, f) in refs'
          && refs'[RefKey(name, f)] == RefDecl(specs[f].target, OnDeleteOf(specs[f].onDelete).value))
  }

  lemma NothingDeclared(refs: map<RefKey, RefDecl>, name: string, specs: map<string, RefSpec>, fields: seq<string>)
    requires SpecsWellFormed(specs)
    ensures DeclaredUpTo(refs, name, specs, fields[..0], refs)
  {
  }

  lemma DeclareOneMore(refs: map<RefKey, RefDecl>, name: string, specs: map<string, RefSpec>,
                       fields: seq<string>, n: nat, refs': map<RefKey, RefDecl>)
    requires SpecsWellFormed(specs) && n < |fields| && fields[n] in specs
    requires forall i, j | 0 <= i < j < |fields| :: fields[i] != fields[j]
    requires DeclaredUpTo(refs, name, specs, fields[..n], refs')
    ensures var k := RefKey(name, fields[n]);
      if k in refs' then !Undeclared(refs, name, specs)
      else DeclaredUpTo(refs, name, specs, fields[..n + 1],
                        refs'[k := RefDecl(specs[k.field].target, OnDeleteOf(specs[k.field].onDelete).value)])
  {
    assert fields[..n + 1] == fields[..n] + [fields[n]] && fields[n] !in fields[..n];
  }

  lemma DeclaredEvery(refs: map<RefKey, RefDecl>, name: string, specs: map<string, RefSpec>,
                      fields: seq<string>, refs': map<RefKey, RefDecl>)
    requires SpecsWellFormed(specs) && forall f | f in specs :: f in fields
    requires DeclaredUpTo(refs, name, specs, fields[..|fields|], refs')
    ensures Undeclared(refs, name, specs) && refs' == refs + Declared(name, specs)
  {
  }

  /** What createCollection answers when no statement fails. */
  function CreateVerdict(db: Database, name: string, hasVector: bool, dims: int, specs: map<string, RefSpec>): Result<()> {
    if !IsName(name) then Err(InvalidName)
    else if hasVector && !(0 < dims <= MAX_DIMENSIONS) then Err(InvalidDimensions)
    else if !SpecsWellFormed(specs) then Err(InvalidReference)
    else if name in db.registry then Err(AlreadyExists)
    else if !TargetsExist(db, specs) then Err(UnknownTarget)
    else if !NamesFree(db, NewMeta(db, name, hasVector, dims)) || !Undeclared(db.refs, name, specs) then Err(Rejected)
    else Ok(())
  }

  ghost predicate SpecsAcceptable(db: Database, name: string, specs: map<string, RefSpec>) {
    forall f | f in specs :: IsName(f) && specs[f].onDelete in {"", "restrict", "set_null"}
      && specs[f].target in db.registry && RefKey(name, f) !in db.refs
  }

  lemma SpecsAcceptableIff(db: Database, name: string, specs: map<string, RefSpec>)
    ensures SpecsAcceptable(db, name, specs) <==> SpecsWellFormed(specs) && TargetsExist(db, specs) && Undeclared(db.refs, name, specs)
  {
  }

  /** When a collection is created. */
  lemma CreateVerdictIff(db: Database, name: string, hasVector: bool, dims: int, specs: map<string, RefSpec>)
    ensures CreateVerdict(db, name, hasVector, dims, specs).Ok? <==>
      && IsName(name) && name !in db.registry && (hasVector ==> 1 <= dims <= 8192) && SpecsAcceptable(db, name, specs)
      && NamesFree(db, Meta("coll_" + name, hasVector, if hasVector then dims else 0, db.clock))
  {
    SpecsAcceptableIff(db, name, specs);
  }

  ghost predicate SpecsReadable(specs: map<string, RefSpec>) {
    forall f | f in specs :: IsName(f) && specs[f].onDelete in {"", "restrict", "set_null"}
  }

  /** Why it is refused: the first reason in the order of the checks. */
  lemma CreateVerdictReasons(db: Database, name: string, hasVector: bool, dims: int, specs: map<string, RefSpec>)
    ensures var v, sized := CreateVerdict(db, name, hasVector, dims, specs), hasVector ==> 1 <= dims <= 8192;
      && (v == Err(InvalidName) <==> !IsName(name))
      && (v == Err(InvalidDimensions) <==> IsName(name) && !sized)
      && (v == Err(InvalidReference) <==> IsName(name) && sized && !SpecsReadable(specs))
      && (v == Err(AlreadyExists) <==> IsName(name) && sized && SpecsReadable(specs) && name in db.registry)
      && (v == Err(UnknownTarget) ==> name !in db.registry && exists f | f in specs :: specs[f].target !in db.registry)
  {
    assert SpecsReadable(specs) <==> SpecsWellFormed(specs);
  }

  /** When a collection is renamed, and the first reason why not. */
  lemma RenameVerdictIff(db: Database, oldName: string, newName: string)
    ensures var v := RenameVerdict(db, oldName, newName);
      && (v.Ok? <==>
            && IsName(newName) && oldName in db.registry && (oldName == newName || newName !in db.registry)
            && (oldName == newName || forall k | k in db.refs && k.coll == oldName :: RefKey(newName, k.field) !in db.refs))
      && (v == Err(InvalidName) <==> !IsName(newName))
      && (v == Err(NotFound) <==> IsName(newName) && oldName !in db.registry)
      && (v == Err(AlreadyExists) <==> IsName(newName) && oldName in db.registry && oldName != newName && newName in db.registry)
  {
  }

  lemma CreateVerdictMeaning(db: Database, name: string, hasVector: bool, dims: int, specs: map<string, RefSpec>)
    requires Owned(db) && Sound(Abs(db)) && CreateVerdict(db, name, hasVector, dims, specs).Ok?
    ensures CreateAllowed(Abs(db), name, hasVector, dims, specs)
    ensures var db' := CreatedDb(db, name, NewMeta(db, name, hasVector, dims), Declared(name, specs));
      Owned(db') && Abs(db') == Created(Abs(db), name, hasVector, dims, specs) && Sound(Abs(db'))
  {
    CreateVerdictAllows(db, name, hasVector, dims, specs);
    CreateAbs(db, name, hasVector, dims, specs);
    CreatedKeepsSound(Abs(db), name, hasVector, dims, specs);
  }

  lemma CreateVerdictAllows(db: Database, name: string, hasVector: bool, dims: int, specs: map<string, RefSpec>)
    requires AllPresent(db) && CreateVerdict(db, name, hasVector, dims, specs).Ok?
    ensures CreateAllowed(Abs(db), name, hasVector, dims, specs)
  {
  }

  /** What renameCollection answers when no statement fails. */
  function RenameVerdict(db: Database, oldName: string, newName: string): Result<()> {
    if !IsName(newName) then Err(InvalidName)
    else if oldName !in db.registry then Err(NotFound)
    else if oldName != newName && newName in db.registry then Err(AlreadyExists)
    else if !RefsMovable(db.refs, oldName, newName) then Err(Rejected)
    else Ok(())
  }

  /** What the insert, bulk insert and update requests answer, and the state they leave, when no
      statement fails. */
  ghost function InsertRequest(cat: Catalog, name: string, item: Item): (Result<int>, Catalog) {
    if name !in cat.colls then (Err(NotFound), cat)
    else if !TextPresent(cat, name, item.text) then (Err(TextRequired), cat)
    else InsertSpec(cat, name, item)
  }

  ghost function BulkInsertRequest(cat: Catalog, name: string, items: seq<Item>): (Result<seq<int>>, Catalog) {
    if name !in cat.colls then (Err(NotFound), cat) else BulkRequest(cat, name, items)
  }

  ghost function UpdateRequest(cat: Catalog, name: string, id: int, text: string, data: Payload): (Result<bool>, Catalog) {
    if name !in cat.colls then (Err(NotFound), cat)
    else if !TextPresent(cat, name, text) then (Err(TextRequired), cat)
    else
      var (r, after) := UpdateSpec(cat, name, id, text, data);
      (if r == Ok(false) then Err(NotFound) else r, after)
  }

  /** When a request is turned away before it reaches the documents. */
  lemma RequestsTurnedAwayIff(cat: Catalog, name: string, item: Item, id: int, text: string, data: Payload, items: seq<Item>)
    ensures InsertRequest(cat, name, item).0 == Err(NotFound) <==> name !in cat.colls
    ensures InsertRequest(cat, name, item).0 == Err(TextRequired) <==> name in cat.colls && cat.colls[name].hasVector && item.text == ""
    ensures UpdateRequest(cat, name, id, text, data).0 == Err(TextRequired) <==> name in cat.colls && cat.colls[name].hasVector && text == ""
    ensures BulkInsertRequest(cat, name, items).0 == Err(NotFound) <==> name !in cat.colls
    ensures BulkInsertRequest(cat, name, items).0 == Err(BatchTooLarge) <==> name in cat.colls && |items| > 100
    ensures BulkInsertRequest(cat, name, items).0 == Err(EmptyBatch) <==> name in cat.colls && items == []
  {
    if name in cat.colls {
      Meanings.PlacedShape(cat.colls[name], items);
    }
  }

  lemma InsertRequestSteps(cat: Catalog, name: string, item: Item, r: Result<int>, cat': Catalog)
    requires name in cat.colls && TextPresent(cat, name, item.text) && InsertOutcome(cat, name, item, r, cat')
    ensures Step(cat, Insert(name, item), cat')
    ensures r != Err(Infrastructure) ==> (r, cat') == InsertRequest(cat, name, item)
    ensures r == Err(Infrastructure) ==> cat' == cat || InsertedUnindexed(cat, name, item, cat')
  {
  }

  lemma BulkRequestSteps(cat: Catalog, name: string, items: seq<Item>)
    ensures Step(cat, BulkInsert(name, items), BulkInsertRequest(cat, name, items).1)
  {
  }

  lemma UpdateRequestSteps(cat: Catalog, name: string, id: int, text: string, data: Payload)
    ensures Step(cat, Update(name, id, text, data), UpdateRequest(cat, name, id, text, data).1)
  {
  }

  lemma BatchChecked(cat: Catalog, name: string, items: seq<Item>, r: Result<seq<int>>, cat': Catalog)
    requires name in cat.colls && BatchError(cat.colls[name].hasVector, items).None?
    requires Atomic(cat, BulkSpec(cat, name, items), r, cat')
    ensures r != Err(Infrastructure) ==> (r, cat') == BulkInsertRequest(cat, name, items)
    ensures r == Err(Infrastructure) ==> cat' == cat
  {
  }

  lemma UpdateAnswered(cat: Catalog, name: string, id: int, text: string, data: Payload, r: Result<bool>, cat': Catalog)
    requires name in cat.colls && TextPresent(cat, name, text) && Atomic(cat, UpdateSpec(cat, name, id, text, data), r, cat')
    ensures r != Err(Infrastructure) ==>
      (if r == Ok(false) then Err(NotFound) else r, cat') == UpdateRequest(cat, name, id, text, data)
    ensures r == Err(Infrastructure) ==> cat' == cat
  {
  }

  class VecStore {
    /** The committed state. */
    var db: Database
    /** No statement, commit or embedding call fails. */
    const reliable: bool

    ghost predicate Valid()
      reads this
    {
      Owned(db) && Sound(Abs(db))
    }

    ghost function Cat(): Catalog
      reads this
      requires Valid()
    {
      Abs(db)
    }

    predicate Handle(coll: Collection)
      reads this
    {
      coll.name in db.registry && db.registry[coll.name].tableName == coll.tableName
      && db.registry[coll.name].hasVector == coll.hasVector
    }

    constructor (reliable: bool)
      ensures Valid() && db == EMPTY_DB && this.reliable == reliable
    {
      db := EMPTY_DB;
      this.reliable := reliable;
    }

    /** Does the next statement go through? */
    method Attempt() returns (ok: bool)
      ensures reliable ==> ok
    {
      ok := *;
      if reliable { ok := true; }
    }

    // -------------------------------------------------------------- lookups

    method GetCollection(name: string) returns (r: Result<Collection>)
      ensures match r
        case Ok(coll) => Handle(coll) && coll.name == name
        case Err(e) => (e == NotFound && name !in db.registry) || (e == Infrastructure && !reliable)
    {
      var ok := Attempt();
      if !ok { return Err(Infrastructure); }
      if name !in db.registry { return Err(NotFound); }
      return Ok(Collection(name, db.registry[name].hasVector, db.registry[name].tableName));
    }

    method GetDocumentByID(coll: Collection, id: int) returns (r: Result<Row>)
      requires Valid() && Handle(coll)
      ensures match r
        case Ok(row) => id in Cat().colls[coll.name].rows && row == Cat().colls[coll.name].rows[id]
        case Err(e) => (e == NotFound && id !in Cat().colls[coll.name].rows) || (e == Infrastructure && !reliable)
    {
      var ok := Attempt();
      if !ok { return Err(Infrastructure); }
      assert Present(db, db.registry[coll.name]);
      var table := db.tables[Fold(coll.tableName)];
      if id !in table.rows { return Err(NotFound); }
      return Ok(table.rows[id]);
    }

    method GetReferences(name: string) returns (r: Result<seq<Reference>>)
      ensures match r
        case Ok(refs) =>
          && (forall ref <- refs :: RefKey(name, ref.field) in db.refs
                && db.refs[RefKey(name, ref.field)] == RefDecl(ref.target, ref.onDelete))
          && (forall k | k in db.refs && k.coll == name ::
                Reference(k.field, db.refs[k].target, db.refs[k].onDelete) in refs)
        case Err(e) => e == Infrastructure && !reliable
    {
      var ok := Attempt();
      if !ok { return Err(Infrastructure); }
      var declared := set k | k in db.refs && k.coll == name;
      var keys := Query(declared);
      var refs: seq<Reference> := [];
      for n := 0 to |keys|
        invariant forall ref <- refs :: RefKey(name, ref.field) in db.refs
                    && db.refs[RefKey(name, ref.field)] == RefDecl(ref.target, ref.onDelete)
        invariant forall m | 0 <= m < n :: keys[m] in db.refs
                    && Reference(keys[m].field, db.refs[keys[m]].target, db.refs[keys[m]].onDelete) in refs
      {
        ok := Attempt();
        if !ok { return Err(Infrastructure); }
        var k := keys[n];
        assert k in declared && k == RefKey(name, k.field);
        refs := refs + [Reference(k.field, db.refs[k].target, db.refs[k].onDelete)];
      }
      forall k | k in db.refs && k.coll == name
        ensures Reference(k.field, db.refs[k].target, db.refs[k].onDelete) in refs
      {
        assert k in declared;
        var m :| 0 <= m < |keys| && keys[m] == k;
      }
      r := Ok(refs);
    }

    // -------------------------------------------------------------- validation

    method ValidateReferences(name: string, data: Payload) returns (r: Result<()>)
      requires Valid() && name in db.registry
      ensures match r
        case Ok(_) => DataValid(Cat(), name, data)
        case Err(e) => (e == BadReference && !DataValid(Cat(), name, data)) || (e == Infrastructure && !reliable)
    {
      var found := GetReferences(name);
      if found.Err? { return Err(found.error); }
      var refs := found.value;
      if |refs| == 0 { return Ok(()); }
      if data.NonObj? {
        assert refs[0] in refs && RefKey(name, refs[0].field) in Cat().refs;
        return Err(BadReference);
      }
      for n := 0 to |refs|
        invariant forall m | 0 <= m < n :: RefFieldValid(Cat(), refs[m].target, Field(data, refs[m].field))
      {
        var ref := refs[n];
        ghost var k := RefKey(name, ref.field);
        assert ref in refs && k in Cat().refs && Cat().refs[k].target == ref.target;
        var raw := Field(data, ref.field);
        if raw.JNull? { continue; }
        if !raw.JInt? { return Err(BadReference); }
        var target := GetCollection(ref.target);
        if target.Err? {
          if target.error == NotFound { return Err(BadReference); }
          return Err(Infrastructure);
        }
        var ok := Attempt();
        if !ok { return Err(Infrastructure); }
        assert Present(db, db.registry[ref.target]);
        if raw.n !in db.tables[Fold(target.value.tableName)].rows { return Err(BadReference); }
      }
      forall k | k in Cat().refs && k.coll == name
        ensures RefFieldValid(Cat(), Cat().refs[k].target, Field(data, k.field))
      {
        var ref := Reference(k.field, db.refs[k].target, db.refs[k].onDelete);
        assert ref in refs;
        var m :| 0 <= m < |refs| && refs[m] == ref;
      }
      r := Ok(());
    }

    // -------------------------------------------------------------- insert

    /** The statement of insertFullTextRow; a taken rowid fails like any other statement. */
    method ExecFts(index: map<int, string>, id: int, text: string) returns (r: Option<map<int, string>>)
      ensures r.Some? ==> id !in index && r.value == index[id := text]
      ensures reliable && id !in index ==> r.Some?
    {
      var ok := Attempt();
      r := if ok then InsertFts(index, id, text) else None;
    }

    /** Commits a new state of the main table. */
    method CommitMain(coll: Collection, table: Table)
      requires Valid() && Handle(coll)
      requires CollSound(Cat().colls[coll.name].(rows := table.rows, lastId := table.lastId))
      modifies this
      ensures Valid() && db.registry == old(db.registry) && db.refs == old(db.refs)
      ensures Cat() == SetColl(old(Cat()), coll.name,
                               old(Cat()).colls[coll.name].(rows := table.rows, lastId := table.lastId))
    {
      TableWrite(db, coll.name, table);
      SoundWrite(Cat(), coll.name, Cat().colls[coll.name].(rows := table.rows, lastId := table.lastId));
      db := WithTable(db, Fold(coll.tableName), table);
    }

    /** Commits a new state of the full-text table. */
    method CommitFts(coll: Collection, index: map<int, string>)
      requires Valid() && Handle(coll) && coll.hasVector && CollSound(Cat().colls[coll.name].(index := index))
      modifies this
      ensures Valid() && db.registry == old(db.registry) && db.refs == old(db.refs)
      ensures Cat() == SetColl(old(Cat()), coll.name, old(Cat()).colls[coll.name].(index := index))
    {
      FtsWrite(db, coll.name, index);
      SoundWrite(Cat(), coll.name, Cat().colls[coll.name].(index := index));
      db := WithFts(db, Fold(coll.tableName + "_fts"), index);
    }

    method InsertDocument(coll: Collection, id: Option<int>, text: string, data: Payload) returns (r: Result<int>)
      requires Valid() && Handle(coll)
      modifies this
      ensures Valid() && db.registry == old(db.registry)
      ensures InsertOutcome(old(Cat()), coll.name, Item(id, text, data), r, Cat())
      ensures reliable ==> r != Err(Infrastructure)
    {
      var checked := ValidateReferences(coll.name, data);
      if checked.Err? { return Err(checked.error); }
      ghost var cat, c := Cat(), Cat().colls[coll.name];
      var row := Row(if coll.hasVector then text else "", Stored(data));
      TablesOf(db, coll.name);
      InsertRowMeaning(c, id, text, data);

      // embed, then the INSERT into the main table, which commits on its own
      var ok := Attempt();
      if !ok { return Err(Infrastructure); }
      var placed := InsertRow(db.tables[Fold(coll.tableName)], id, row);
      if placed.None? { return Err(Rejected); }
      var (table, i) := placed.value;
      CommitMain(coll, table);
      ghost var mid := Cat();
      assert mid == SetColl(cat, coll.name, AddRow(c, i, row));
      if !coll.hasVector { return Ok(i); }
      ok := Attempt();
      if id.None? && !ok { return Err(Infrastructure); }

      // insertFullTextRow, a second commit
      TablesOf(db, coll.name);
      var indexed := ExecFts(db.fts[Fold(coll.tableName + "_fts")], i, text);
      if indexed.None? { return Err(Infrastructure); }
      CommitFts(coll, indexed.value);
      SetCollTwice(cat, coll.name, AddRow(c, i, row), Inserted(c, i, row));
      r := Ok(i);
    }

    // -------------------------------------------------------------- bulk insert

    /** One item of a batch, inside the transaction `tx`. */
    method PlaceItem(coll: Collection, tx: Database, item: Item) returns (after: Database, r: Result<int>)
      requires Valid() && Handle(coll) && Owned(tx) && tx.registry == db.registry && CollSound(Abs(tx).colls[coll.name])
      ensures match r
        case Ok(i) =>
          var c := Abs(tx).colls[coll.name];
          var c' := Inserted(c, i, StoredRow(c, item.text, item.data));
          && ChooseId(c, item.id) == Ok(i) && CollSound(c')
          && Owned(after) && after.registry == tx.registry && Abs(after) == SetColl(Abs(tx), coll.name, c')
        case Err(e) =>
          (e == Infrastructure && !reliable) || (e == Rejected && ChooseId(Abs(tx).colls[coll.name], item.id) == Err(Rejected))
    {
      after, r := PlaceRow(coll, tx, item);
      if r.Err? { return tx, r; }
      if coll.hasVector {
        var ok;
        after, ok := IndexItem(coll, after, r.value, item.text);
        if !ok { return tx, Err(Infrastructure); }
        RowThenIndex(Abs(tx), coll.name, r.value, item);
      }
    }

    /** Its row of the main table. */
    method PlaceRow(coll: Collection, tx: Database, item: Item) returns (after: Database, r: Result<int>)
      requires Valid() && Handle(coll) && Owned(tx) && tx.registry == db.registry && CollSound(Abs(tx).colls[coll.name])
      ensures r.Ok? ==>
        var c := Abs(tx).colls[coll.name];
        var row := StoredRow(c, item.text, item.data);
        && ChooseId(c, item.id) == r && r.value !in c.index && CollSound(Inserted(c, r.value, row))
        && Owned(after) && after.registry == tx.registry && Abs(after) == SetColl(Abs(tx), coll.name, AddRow(c, r.value, row))
      ensures r.Err? ==>
        (r.error == Infrastructure && !reliable) || (r.error == Rejected && ChooseId(Abs(tx).colls[coll.name], item.id) == r)
    {
      TablesOf(tx, coll.name);
      InsertRowMeaning(Abs(tx).colls[coll.name], item.id, item.text, item.data);
      var ok := Attempt();
      if !ok { return tx, Err(Infrastructure); }
      var row := Row(if coll.hasVector then item.text else "", Stored(item.data));
      var placed := InsertRow(tx.tables[Fold(coll.tableName)], item.id, row);
      if placed.None? { return tx, Err(Rejected); }
      TableWrite(tx, coll.name, placed.value.0);
      after, r := WithTable(tx, Fold(coll.tableName), placed.value.0), Ok(placed.value.1);
    }

    /** insertFullTextRow inside the transaction `tx`. */
    method IndexItem(coll: Collection, tx: Database, id: int, text: string) returns (after: Database, ok: bool)
      requires Valid() && Handle(coll) && coll.hasVector && Owned(tx) && tx.registry == db.registry
      ensures ok ==> Owned(after) && after.registry == tx.registry
      ensures ok ==> Abs(after) == SetColl(Abs(tx), coll.name, AddIndex(Abs(tx).colls[coll.name], id, text))
      ensures reliable && id !in Abs(tx).colls[coll.name].index ==> ok
    {
      TablesOf(tx, coll.name);
      var indexed := ExecFts(tx.fts[Fold(coll.tableName + "_fts")], id, text);
      if indexed.None? { return tx, false; }
      FtsWrite(tx, coll.name, indexed.value);
      after, ok := WithFts(tx, Fold(coll.tableName + "_fts"), indexed.value), true;
    }

    /** Validates and embeds every item before the transaction starts. */
    method PrepareItems(coll: Collection, items: seq<Item>) returns (r: Result<()>)
      requires Valid() && Handle(coll)
      ensures match r
        case Ok(_) => AllValid(Cat(), coll.name, items)
        case Err(e) => (e == BadReference && !AllValid(Cat(), coll.name, items)) || (e == Infrastructure && !reliable)
    {
      for n := 0 to |items|
        invariant forall m | 0 <= m < n :: DataValid(Cat(), coll.name, items[m].data)
      {
        var checked := ValidateReferences(coll.name, items[n].data);
        if checked.Err? { return Err(checked.error); }
        var ok := Attempt();
        if coll.hasVector && !ok { return Err(Infrastructure); }
      }
      r := Ok(());
    }

    /** The n-th INSERT of the batch. */
    method PlaceNext(coll: Collection, items: seq<Item>, n: nat, tx: Database, ids: seq<int>)
      returns (after: Database, r: Result<int>)
      requires Valid() && Handle(coll) && n < |items| && tx.registry == db.registry
      requires Placed(Cat(), coll.name, items[..n], tx, ids)
      ensures r.Ok? ==> Placed(Cat(), coll.name, items[..n + 1], after, ids + [r.value]) && after.registry == db.registry
      ensures r.Err? ==>
        || (r.error == Rejected && PlaceAll(Cat().colls[coll.name], items) == Err(Rejected))
        || (r.error == Infrastructure && !reliable)
    {
      PlacedSound(Cat(), coll.name, items[..n], tx, ids);
      after, r := PlaceItem(coll, tx, items[n]);
      match r {
        case Ok(i) => PlacedNext(Cat(), coll.name, items, n, tx, ids, after, i);
        case Err(e) => if e == Rejected { PlaceFails(Cat(), coll.name, items, n, tx, ids); }
      }
    }

    /** The INSERT statements of the batch, inside one transaction. */
    method PlaceItems(coll: Collection, items: seq<Item>) returns (tx: Database, r: Result<seq<int>>)
      requires Valid() && Handle(coll)
      ensures r.Ok? ==> Placed(Cat(), coll.name, items, tx, r.value) && tx.registry == db.registry
      ensures r.Err? ==>
        || (r.error == Rejected && PlaceAll(Cat().colls[coll.name], items) == Err(Rejected))
        || (r.error == Infrastructure && !reliable)
    {
      tx := db;
      var ids: seq<int> := [];
      NothingPlaced(Cat(), coll.name, tx);
      for n := 0 to |items|
        invariant Placed(Cat(), coll.name, items[..n], tx, ids) && tx.registry == db.registry
      {
        var placed;
        tx, placed := PlaceNext(coll, items, n, tx, ids);
        if placed.Err? { return tx, Err(placed.error); }
        ids := ids + [placed.value];
      }
      assert items[..|items|] == items;
      r := Ok(ids);
    }

    method InsertDocumentBulk(coll: Collection, items: seq<Item>) returns (r: Result<seq<int>>)
      requires Valid() && Handle(coll)
      modifies this
      ensures Valid() && db.registry == old(db.registry)
      ensures Atomic(old(Cat()), BulkSpec(old(Cat()), coll.name, items), r, Cat())
      ensures reliable ==> r != Err(Infrastructure)
    {
      var prepared := PrepareItems(coll, items);
      if prepared.Err? { return Err(prepared.error); }
      var tx, placed := PlaceItems(coll, items);
      if placed.Err? { return placed; }
      var ok := Attempt();
      if !ok { return Err(Infrastructure); }
      PlaceAllExtends(Cat().colls[coll.name], items);
      SoundWrite(Cat(), coll.name, PlaceAll(Cat().colls[coll.name], items).value.1);
      db := tx;
      r := placed;
    }

    // -------------------------------------------------------------- update

    method UpdateDocument(coll: Collection, id: int, text: string, data: Payload) returns (r: Result<bool>)
      requires Valid() && Handle(coll)
      modifies this
      ensures Valid() && db.registry == old(db.registry) && db.refs == old(db.refs)
      ensures Atomic(old(Cat()), UpdateSpec(old(Cat()), coll.name, id, text, data), r, Cat())
      ensures reliable ==> r != Err(Infrastructure)
    {
      var checked := ValidateReferences(coll.name, data);
      if checked.Err? { return Err(checked.error); }
      TablesOf(db, coll.name);
      var table := db.tables[Fold(coll.tableName)];
      var ok := Attempt();
      if !ok { return Err(Infrastructure); }
      if id !in table.rows { return Ok(false); }
      ReplacedSound(Cat().colls[coll.name], id, text, data);
      if coll.hasVector {
        r := ReplaceBoth(coll, id, Row(text, Stored(data)));
      } else {
        CommitMain(coll, Table(table.rows[id := Row("", Stored(data))], table.lastId));
        r := Ok(true);
      }
    }

    /** Deletes and inserts both rows of a vector document in one transaction. */
    method ReplaceBoth(coll: Collection, id: int, row: Row) returns (r: Result<bool>)
      requires Valid() && Handle(coll) && coll.hasVector
      requires id in Cat().colls[coll.name].rows && CollSound(Replaced(Cat().colls[coll.name], id, row))
      modifies this
      ensures Valid() && db.registry == old(db.registry) && db.refs == old(db.refs)
      ensures match r
        case Ok(found) => found && Cat() == SetColl(old(Cat()), coll.name, Replaced(old(Cat()).colls[coll.name], id, row))
        case Err(e) => e == Infrastructure && !reliable && db == old(db)
    {
      TablesOf(db, coll.name);
      var table, index := db.tables[Fold(coll.tableName)], db.fts[Fold(coll.tableName + "_fts")];
      var again := InsertRow(Table(table.rows - {id}, table.lastId), Some(id), row).value.0;
      PutBack(table.rows, id, row);
      var indexed := ExecFts(index - {id}, id, row.text);
      if indexed.None? { return Err(Infrastructure); }
      PutBack(index, id, row.text);
      var ok := Attempt();
      if !ok { return Err(Infrastructure); }
      CommitBoth(coll, again, indexed.value);
      r := Ok(true);
    }

    /** Commits new states of both tables at once. */
    method CommitBoth(coll: Collection, table: Table, index: map<int, string>)
      requires Valid() && Handle(coll) && coll.hasVector
      requires CollSound(Cat().colls[coll.name].(rows := table.rows, lastId := table.lastId, index := index))
      modifies this
      ensures Valid() && db.registry == old(db.registry) && db.refs == old(db.refs)
      ensures Cat() == SetColl(old(Cat()), coll.name,
                old(Cat()).colls[coll.name].(rows := table.rows, lastId := table.lastId, index := index))
    {
      ghost var cat, c := Cat(), Cat().colls[coll.name];
      ghost var c' := c.(rows := table.rows, lastId := table.lastId, index := index);
      TableWrite(db, coll.name, table);
      var tx := WithTable(db, Fold(coll.tableName), table);
      FtsWrite(tx, coll.name, index);
      SetCollTwice(cat, coll.name, c.(rows := table.rows, lastId := table.lastId), c');
      SoundWrite(cat, coll.name, c');
      db := WithFts(tx, Fold(coll.tableName + "_fts"), index);
    }

    // -------------------------------------------------------------- delete

    method GetReferencesTargeting(name: string) returns (r: Result<seq<RefKey>>)
      ensures match r
        case Ok(deps) =>
          && (forall n | 0 <= n < |deps| :: deps[n] in db.refs && db.refs[deps[n]].target == name)
          && (forall k | k in db.refs && db.refs[k].target == name :: k in deps)
          && (forall n, m | 0 <= n < m < |deps| :: deps[n] != deps[m])
        case Err(e) => e == Infrastructure && !reliable
    {
      var ok := Attempt();
      if !ok { return Err(Infrastructure); }
      var targeting := set k | k in db.refs && db.refs[k].target == name;
      var deps := Query(targeting);
      assert forall n | 0 <= n < |deps| :: deps[n] in targeting;
      r := Ok(deps);
    }

    /** SELECT id ... WHERE json_extract(data, path) = id, on the table of a declaring collection. */
    method Matching(src: Collection, field: string, id: int) returns (r: Result<seq<int>>)
      requires Valid() && Handle(src)
      ensures match r
        case Ok(ids) => AreMatches(Cat().colls[src.name].rows, field, id, ids)
        case Err(e) => e == Infrastructure && !reliable
    {
      var ok := Attempt();
      if !ok { return Err(Infrastructure); }
      TablesOf(db, src.name);
      var rows := db.tables[Fold(src.tableName)].rows;
      var found := set i | i in rows && MatchesId(Field(rows[i].data, field), id);
      var ids := Query(found);
      assert forall n | 0 <= n < |ids| :: ids[n] in found;
      r := Ok(ids);
    }

    /** The body of the inner loop: load the document, null the field, update. */
    method NullReference(src: Collection, field: string, rid: int, ghost cat: Catalog, ghost cells: set<Cell>)
      returns (r: Result<()>)
      requires Valid() && Handle(src) && Cat() == Nulled(cat, cells) && Sound(cat)
      requires src.name in cat.colls && rid in cat.colls[src.name].rows && Field(cat.colls[src.name].rows[rid].data, field) != JNull
      modifies this
      ensures Valid() && db.registry == old(db.registry) && db.refs == old(db.refs)
      ensures match r
        case Ok(_) => Cat() == Nulled(cat, cells + {Cell(src.name, rid, field)})
        case Err(e) => Cat() == Nulled(cat, cells) && ((e == BadReference && !RefsHold(cat)) || (e == Infrastructure && !reliable))
    {
      var doc := GetDocumentByID(src, rid);
      if doc.Err? { return Err(Infrastructure); }
      NullStep(cat, cells, src.name, rid, field);
      var updated := UpdateDocument(src, rid, doc.value.text, WithNull(doc.value.data, field));
      r := if updated.Err? then Err(updated.error) else Ok(());
    }

    /** Carries out one declaration: refuse, or null the field of every matching row. */
    method CarryOut(dep: RefKey, id: int, ghost cat: Catalog, ghost cells: set<Cell>)
      returns (r: Result<()>, ghost cells': set<Cell>)
      requires Valid() && Cat() == Nulled(cat, cells) && Sound(cat) && dep in db.refs
      requires forall i :: Cell(dep.coll, i, dep.field) !in cells
      modifies this
      ensures Valid() && db.registry == old(db.registry) && db.refs == old(db.refs)
      ensures Cat() == Nulled(cat, cells') && cells <= cells'
      ensures cells' <= cells + (if cat.refs[dep].onDelete == SetNull then CellsOf(cat, {dep}, id) else {})
      ensures match r
        case Ok(_) =>
          if cat.refs[dep].onDelete == SetNull then cells' == cells + CellsOf(cat, {dep}, id) else CellsOf(cat, {dep}, id) == {}
        case Err(e) =>
          || (e == Restricted && cat.refs[dep].onDelete == Restrict && CellsOf(cat, {dep}, id) != {})
          || (e == BadReference && !RefsHold(cat)) || (e == Infrastructure && !reliable)
    {
      NoCellsWithoutCollection(cat, cells, dep, id);
      var found := GetCollection(dep.coll);
      match found {
        case Ok(src) => r, cells' := CarryOutOn(src, dep, id, cat, cells);
        case Err(e) => return if e == NotFound then Ok(()) else Err(e), cells;
      }
    }

    method CarryOutOn(src: Collection, dep: RefKey, id: int, ghost cat: Catalog, ghost cells: set<Cell>)
      returns (r: Result<()>, ghost cells': set<Cell>)
      requires Valid() && Cat() == Nulled(cat, cells) && Sound(cat) && dep in db.refs
      requires Handle(src) && src.name == dep.coll && dep.coll in cat.colls
      requires forall i :: Cell(dep.coll, i, dep.field) !in cells
      modifies this
      ensures Valid() && db.registry == old(db.registry) && db.refs == old(db.refs)
      ensures Cat() == Nulled(cat, cells') && cells <= cells'
      ensures cells' <= cells + (if cat.refs[dep].onDelete == SetNull then CellsOf(cat, {dep}, id) else {})
      ensures match r
        case Ok(_) =>
          if cat.refs[dep].onDelete == SetNull then cells' == cells + CellsOf(cat, {dep}, id) else CellsOf(cat, {dep}, id) == {}
        case Err(e) =>
          || (e == Restricted && cat.refs[dep].onDelete == Restrict && CellsOf(cat, {dep}, id) != {})
          || (e == BadReference && !RefsHold(cat)) || (e == Infrastructure && !reliable)
    {
      cells' := cells;
      var matching := DependentRows(src, dep, id, cat, cells);
      if matching.Err? { return Err(matching.error), cells'; }
      if |matching.value| == 0 { return Ok(()), cells'; }
      match db.refs[dep].onDelete {
        case Restrict => r := Err(Restricted);
        case SetNull => r, cells' := NullAll(src, dep, matching.value, cat, cells);
      }
    }

    /** The rows that one declaration matches while others are being carried out. */
    method DependentRows(src: Collection, dep: RefKey, id: int, ghost cat: Catalog, ghost cells: set<Cell>)
      returns (r: Result<seq<int>>)
      requires Valid() && Cat() == Nulled(cat, cells) && Handle(src) && src.name == dep.coll && dep.coll in cat.colls
      requires forall i :: Cell(dep.coll, i, dep.field) !in cells
      ensures r.Ok? ==> AreSet(cat, dep, r.value) && RowCells(dep, r.value) == CellsOf(cat, {dep}, id)
      ensures r.Ok? ==> (|r.value| == 0 <==> CellsOf(cat, {dep}, id) == {})
      ensures r.Err? ==> r.error == Infrastructure && !reliable
    {
      r := Matching(src, dep.field, id);
      if r.Ok? {
        MatchedRows(cat, cells, dep, id, r.value);
      }
    }

    /** The inner loop: nulls the field of every matching row, each in a commit of its own. */
    method NullAll(src: Collection, dep: RefKey, ids: seq<int>, ghost cat: Catalog, ghost cells: set<Cell>)
      returns (r: Result<()>, ghost cells': set<Cell>)
      requires Valid() && Handle(src) && src.name == dep.coll && Cat() == Nulled(cat, cells) && Sound(cat) && AreSet(cat, dep, ids)
      modifies this
      ensures Valid() && db.registry == old(db.registry) && db.refs == old(db.refs)
      ensures Cat() == Nulled(cat, cells') && cells <= cells' <= cells + RowCells(dep, ids)
      ensures match r
        case Ok(_) => cells' == cells + RowCells(dep, ids)
        case Err(e) => (e == BadReference && !RefsHold(cat)) || (e == Infrastructure && !reliable)
    {
      cells' := cells;
      for n := 0 to |ids|
        invariant Valid() && db.registry == old(db.registry) && db.refs == old(db.refs)
        invariant cells' == cells + RowCells(dep, ids[..n]) && Cat() == Nulled(cat, cells')
      {
        RowCellsNext(cells, dep, ids, n);
        var done := NullReference(src, dep.field, ids[n], cat, cells');
        if done.Err? { return Err(done.error), cells'; }
        cells' := cells' + {Cell(dep.coll, ids[n], dep.field)};
      }
      assert ids[..|ids|] == ids;
      r := Ok(());
    }

    /** The n-th round of the outer loop. */
    method VisitNext(name: string, deps: seq<RefKey>, n: nat, id: int, ghost cat: Catalog, ghost cells: set<Cell>)
      returns (r: Result<()>, ghost cells': set<Cell>)
      requires Valid() && Sound(cat) && Cat() == Nulled(cat, cells)
      requires Targeting(cat, name, deps) && n < |deps| && Cascaded(cat, deps, n, id, cells)
      modifies this
      ensures Valid() && db.registry == old(db.registry) && db.refs == old(db.refs)
      ensures Cat() == Nulled(cat, cells')
      ensures match r
        case Ok(_) => Cascaded(cat, deps, n + 1, id, cells')
        case Err(e) => cells' <= SetNullCells(cat, name, id) && CascadeError(cat, name, id, cells', e)
    {
      NotYetNulled(cat, name, deps, n, id, cells);
      r, cells' := CarryOut(deps[n], id, cat, cells);
      if r.Err? {
        CascadeStopped(cat, name, deps, n, id, cells, cells');
      } else {
        CascadedNext(cat, name, deps, n, id, cells, cells');
      }
    }

    /** Why a cascade stops. */
    ghost predicate CascadeError(cat: Catalog, name: string, id: int, cells: set<Cell>, e: StoreError) {
      || (e == Restricted && Blocked(cat, name, id) && VisitedFirst(cat, name, id, cells))
      || (e == BadReference && !RefsHold(cat)) || (e == Infrastructure && !reliable)
    }

    method CheckReferentialDelete(name: string, id: int) returns (r: Result<()>, ghost cells: set<Cell>)
      requires Valid() && name in db.registry
      modifies this
      ensures Valid() && db.registry == old(db.registry)
      ensures Cat() == Nulled(old(Cat()), cells) && cells <= SetNullCells(old(Cat()), name, id)
      ensures match r
        case Ok(_) => cells == SetNullCells(old(Cat()), name, id) && !Blocked(old(Cat()), name, id)
        case Err(e) => CascadeError(old(Cat()), name, id, cells, e)
    {
      ghost var cat := Cat();
      cells := {};
      NulledNothing(cat);
      var targeting := GetReferencesTargeting(name);
      if targeting.Err? { return Err(targeting.error), cells; }
      var deps := targeting.value;
      for n := 0 to |deps|
        invariant Valid() && db.registry == old(db.registry) && db.refs == old(db.refs)
        invariant Targeting(cat, name, deps) && Cascaded(cat, deps, n, id, cells) && Cat() == Nulled(cat, cells)
      {
        r, cells := VisitNext(name, deps, n, id, cat, cells);
        if r.Err? { return r, cells; }
      }
      CascadeFinished(cat, name, deps, id, cells);
      r := Ok(());
    }

    method DeleteDocument(coll: Collection, id: int) returns (r: Result<bool>, ghost cells: set<Cell>)
      requires Valid() && Handle(coll)
      modifies this
      ensures Valid() && db.registry == old(db.registry)
      ensures DeleteOutcome(old(Cat()), coll.name, id, r, Cat(), cells)
      ensures reliable ==> r != Err(Infrastructure)
    {
      ghost var cat := Cat();
      var checked;
      checked, cells := CheckReferentialDelete(coll.name, id);
      if checked.Err? { return Err(checked.error), cells; }
      var ok := Attempt();
      if !ok { return Err(Infrastructure), cells; }
      TablesOf(db, coll.name);
      var table := db.tables[Fold(coll.tableName)];
      if id !in table.rows { return Ok(false), cells; }
      var rest := Table(table.rows - {id}, table.lastId);
      if coll.hasVector {
        var index := db.fts[Fold(coll.tableName + "_fts")] - {id};
        ok := Attempt();
        if !ok { return Err(Infrastructure), cells; }
        CommitBoth(coll, rest, index);
      } else {
        RemoveFromPlain(Cat().colls[coll.name], id);
        CommitMain(coll, rest);
      }
      r := Ok(true);
    }

    // -------------------------------------------------------------- create, rename, drop

    method ValidateSpecs(specs: map<string, RefSpec>) returns (ok: bool)
      ensures ok <==> SpecsWellFormed(specs)
    {
      var fields := Query(specs.Keys);
      for n := 0 to |fields|
        invariant forall m | 0 <= m < n :: IsName(fields[m]) && OnDeleteOf(specs[fields[m]].onDelete).Some?
      {
        if !IsName(fields[n]) || OnDeleteOf(specs[fields[n]].onDelete).None? {
          assert fields[n] in specs;
          return false;
        }
      }
      ok := true;
    }

    method CheckTargets(specs: map<string, RefSpec>) returns (r: Result<()>)
      ensures match r
        case Ok(_) => TargetsExist(db, specs)
        case Err(e) => (e == UnknownTarget && !TargetsExist(db, specs)) || (e == Infrastructure && !reliable)
    {
      var fields := Query(specs.Keys);
      for n := 0 to |fields|
        invariant forall m | 0 <= m < n :: specs[fields[m]].target in db.registry
      {
        var ok := Attempt();
        if !ok { return Err(Infrastructure); }
        if specs[fields[n]].target !in db.registry {
          assert fields[n] in specs;
          return Err(UnknownTarget);
        }
      }
      r := Ok(());
    }

    /** One INSERT INTO collection_references per declared field. */
    method DeclareAll(refs: map<RefKey, RefDecl>, name: string, specs: map<string, RefSpec>)
      returns (r: Result<map<RefKey, RefDecl>>)
      requires SpecsWellFormed(specs)
      ensures match r
        case Ok(refs') => Undeclared(refs, name, specs) && refs' == refs + Declared(name, specs)
        case Err(e) => (e == Rejected && !Undeclared(refs, name, specs)) || (e == Infrastructure && !reliable)
    {
      var fields := Query(specs.Keys);
      var refs' := refs;
      NothingDeclared(refs, name, specs, fields);
      for n := 0 to |fields|
        invariant DeclaredUpTo(refs, name, specs, fields[..n], refs')
      {
        var ok := Attempt();
        if !ok { return Err(Infrastructure); }
        var k := RefKey(name, fields[n]);
        DeclareOneMore(refs, name, specs, fields, n, refs');
        if k in refs' { return Err(Rejected); }
        refs' := refs'[k := RefDecl(specs[k.field].target, OnDeleteOf(specs[k.field].onDelete).value)];
      }
      DeclaredEvery(refs, name, specs, fields, refs');
      r := Ok(refs');
    }

    /** The CREATE TABLE statements; each fails if one of the names it needs is taken, those of its
        shadow tables included. */
    method MakeTables(meta: Meta) returns (r: Result<(map<string, Table>, map<string, map<int, string>>)>)
      ensures match r
        case Ok((tables, fts)) =>
          && NamesFree(db, meta) && tables == db.tables[MainKey(meta) := Table(map[], 0)]
          && fts == if meta.hasVector then db.fts[FtsKey(meta) := map[]] else db.fts
        case Err(e) => (e == Rejected && !NamesFree(db, meta)) || (e == Infrastructure && !reliable)
    {
      var ok := Attempt();
      if !ok { return Err(Infrastructure); }
      if !NoneTaken(db, MainNames(meta)) { return Err(Rejected); }
      var tables, fts := db.tables[MainKey(meta) := Table(map[], 0)], db.fts;
      if meta.hasVector {
        OwnNamesDiffer(meta);
        ok := Attempt();
        if !ok { return Err(Infrastructure); }
        if !NoneTaken(db, FtsNames(meta)) || FtsNames(meta) * MainNames(meta) != {} { return Err(Rejected); }
        fts := fts[FtsKey(meta) := map[]];
      }
      r := Ok((tables, fts));
    }

    /** What createCollection checks before its first CREATE TABLE. */
    method CheckCreate(name: string, hasVector: bool, dims: int, specs: map<string, RefSpec>) returns (r: Result<()>)
      ensures match r
        case Ok(_) =>
          && IsName(name) && (hasVector ==> 0 < dims <= MAX_DIMENSIONS) && SpecsWellFormed(specs)
          && name !in db.registry && TargetsExist(db, specs)
        case Err(e) =>
          (e == Infrastructure && !reliable) || CreateVerdict(db, name, hasVector, dims, specs) == Err(e)
    {
      if !IsName(name) { return Err(InvalidName); }
      if hasVector && (dims <= 0 || dims > MAX_DIMENSIONS) { return Err(InvalidDimensions); }
      var wellFormed := ValidateSpecs(specs);
      if !wellFormed { return Err(InvalidReference); }
      var ok := Attempt();
      if !ok { return Err(Infrastructure); }
      if name in db.registry { return Err(AlreadyExists); }
      r := CheckTargets(specs);
    }

    /** The checks and statements of createCollection, up to its commit. */
    method PrepareCreate(name: string, hasVector: bool, dims: int, specs: map<string, RefSpec>) returns (r: Result<Database>)
      ensures match r
        case Ok(tx) =>
          && CreateVerdict(db, name, hasVector, dims, specs).Ok? && SpecsWellFormed(specs)
          && tx == CreatedDb(db, name, NewMeta(db, name, hasVector, dims), Declared(name, specs))
        case Err(e) =>
          (e == Infrastructure && !reliable) || CreateVerdict(db, name, hasVector, dims, specs) == Err(e)
    {
      var checked := CheckCreate(name, hasVector, dims, specs);
      if checked.Err? { return Err(checked.error); }
      var meta := NewMeta(db, name, hasVector, dims);
      var made := MakeTables(meta);
      if made.Err? { return Err(made.error); }
      var ok := Attempt();
      if !ok { return Err(Infrastructure); }
      var declared := DeclareAll(db.refs, name, specs);
      if declared.Err? { return Err(declared.error); }
      ok := Attempt();
      if !ok { return Err(Infrastructure); }
      r := Ok(Database(db.registry[name := meta], declared.value, made.value.0, made.value.1, db.clock + 1));
    }

    method CommitCreated(tx: Database, name: string, hasVector: bool, dims: int, specs: map<string, RefSpec>)
      requires Valid() && CreateVerdict(db, name, hasVector, dims, specs).Ok? && SpecsWellFormed(specs)
      requires tx == CreatedDb(db, name, NewMeta(db, name, hasVector, dims), Declared(name, specs))
      modifies this
      ensures db == tx && Valid() && Cat() == Created(old(Cat()), name, hasVector, dims, specs)
    {
      CreateVerdictMeaning(db, name, hasVector, dims, specs);
      db := tx;
    }

    method CreateCollection(name: string, hasVector: bool, dims: int, specs: map<string, RefSpec>) returns (r: Result<()>)
      requires Valid()
      modifies this
      ensures Valid()
      ensures match r
        case Ok(_) =>
          && CreateVerdict(old(db), name, hasVector, dims, specs).Ok? && SpecsWellFormed(specs)
          && Cat() == Created(old(Cat()), name, hasVector, dims, specs)
        case Err(e) =>
          db == old(db) && ((e == Infrastructure && !reliable) || r == CreateVerdict(old(db), name, hasVector, dims, specs))
    {
      var prepared := PrepareCreate(name, hasVector, dims, specs);
      match prepared {
        case Err(e) => return Err(e);
        case Ok(tx) => CommitCreated(tx, name, hasVector, dims, specs);
      }
      r := Ok(());
    }

    method RenameCollection(oldName: string, newName: string) returns (r: Result<()>)
      requires Valid()
      modifies this
      ensures Valid()
      ensures match r
        case Ok(_) =>
          && RenameVerdict(old(db), oldName, newName).Ok?
          && RenameAllowed(old(Cat()), oldName, newName) && Cat() == Renamed(old(Cat()), oldName, newName)
        case Err(e) => db == old(db) && ((e == Infrastructure && !reliable) || r == RenameVerdict(old(db), oldName, newName))
    {
      if !IsName(newName) { return Err(InvalidName); }
      var ok := Attempt();
      if !ok { return Err(Infrastructure); }
      if oldName !in db.registry { return Err(NotFound); }
      if oldName != newName {
        ok := Attempt();
        if !ok { return Err(Infrastructure); }
        if newName in db.registry { return Err(AlreadyExists); }
      }
      var registry := RenamedColls(db.registry, oldName, newName);
      ok := Attempt();
      if !ok { return Err(Infrastructure); }
      if !RefsMovable(db.refs, oldName, newName) { return Err(Rejected); }
      var refs := RenamedOwners(db.refs, oldName, newName);
      ok := Attempt();
      if !ok { return Err(Infrastructure); }
      refs := RenamedTargets(refs, oldName, newName);
      ok := Attempt();
      if !ok { return Err(Infrastructure); }
      RenameAbs(db, oldName, newName);
      RenamedKeepsSound(Cat(), oldName, newName);
      db := db.(registry := registry, refs := refs);
      r := Ok(());
    }

    method DropCollection(name: string) returns (r: Result<()>)
      requires Valid()
      modifies this
      ensures Valid()
      ensures match r
        case Ok(_) => name in old(Cat()).colls && Cat() == Dropped(old(Cat()), name)
        case Err(e) => db == old(db) && ((e == NotFound && name !in db.registry) || (e == Infrastructure && !reliable))
    {
      var found := GetCollection(name);
      if found.Err? { return Err(found.error); }
      var coll := found.value;
      TablesOf(db, name);
      var tables, fts := db.tables - {Fold(coll.tableName)}, db.fts;
      var ok := Attempt();
      if !ok { return Err(Infrastructure); }
      if coll.hasVector { fts := fts - {Fold(coll.tableName + "_fts")}; }
      ok := Attempt();
      if !ok { return Err(Infrastructure); }
      DropAbs(db, name);
      db := db.(registry := db.registry - {name}, tables := tables, fts := fts);
      r := Ok(());
    }

    // -------------------------------------------------------------- list and export

    /** listDocuments: WHERE the filters hold, ORDER BY a field or the id, LIMIT ? OFFSET ?. */
    method ListDocuments(coll: Collection, limit: nat, offset: nat, holds: Comparison, conds: seq<QueryBuilder.Condition>,
                         sort: Option<QueryBuilder.SortSpec>) returns (r: Result<seq<Document>>)
      requires Valid() && Handle(coll)
      ensures r.Ok? ==> exists full ::
                IsListing(full, Cat().colls[coll.name].rows, holds, conds, sort) && r.value == Page(full, limit, offset)
      ensures r.Err? ==> r.error == Infrastructure && !reliable
    {
      var ok := Attempt();
      if !ok { return Err(Infrastructure); }
      TablesOf(db, coll.name);
      var full := SelectRows(db.tables[Fold(coll.tableName)].rows, holds, conds, sort);
      r := Ok(Page(full, limit, offset));
    }

    /** A page of the unfiltered listing `docs`. */
    method ListPage(coll: Collection, offset: nat, ghost docs: seq<Document>) returns (r: Result<seq<Document>>)
      requires Valid() && Handle(coll) && docs == Listing(Cat().colls[coll.name].rows)
      ensures r.Ok? ==> r.value == Page(docs, MAX_LIST_LIMIT, offset)
      ensures r.Err? ==> r.error == Infrastructure && !reliable
    {
      r := ListDocuments(coll, MAX_LIST_LIMIT, offset, NO_FILTER, [], None);
      SelectedAll(NO_FILTER, docs);
    }

    /** handleExportDocuments: pages of 1000 until one comes back short. */
    method ExportDocuments(name: string) returns (r: Result<seq<Document>>)
      requires Valid()
      ensures match r
        case Ok(all) => name in Cat().colls && all == Listing(Cat().colls[name].rows)
        case Err(e) => (e == NotFound && name !in Cat().colls) || (e == Infrastructure && !reliable)
    {
      var found := GetCollection(name);
      if found.Err? { return Err(found.error); }
      r := ExportPages(found.value, Listing(Cat().colls[name].rows));
    }

    method ExportPages(coll: Collection, ghost docs: seq<Document>) returns (r: Result<seq<Document>>)
      requires Valid() && Handle(coll) && docs == Listing(Cat().colls[coll.name].rows)
      ensures r.Ok? ==> r.value == docs
      ensures r.Err? ==> r.error == Infrastructure && !reliable
    {
      var all: seq<Document> := [];
      var offset := 0;
      while true
        invariant offset <= |docs| && all == docs[..offset]
        decreases |docs| - offset
      {
        var batch := ListPage(coll, offset, docs);
        if batch.Err? { return Err(batch.error); }
        NextPage(docs, MAX_LIST_LIMIT, offset);
        all := all + batch.value;
        if |batch.value| < MAX_LIST_LIMIT { return Ok(all); }
        offset := offset + MAX_LIST_LIMIT;
      }
    }

    // -------------------------------------------------------------- requests

    /** handleInsertDocument. */
    method HandleInsert(name: string, item: Item) returns (r: Result<int>)
      requires Valid()
      modifies this
      ensures Valid() && Step(old(Cat()), Insert(name, item), Cat())
      ensures r != Err(Infrastructure) ==> (r, Cat()) == InsertRequest(old(Cat()), name, item)
      ensures r == Err(Infrastructure) ==>
        !reliable && (Cat() == old(Cat()) || InsertedUnindexed(old(Cat()), name, item, Cat()))
    {
      var found := GetCollection(name);
      if found.Err? { return Err(found.error); }
      if found.value.hasVector && item.text == "" { return Err(TextRequired); }
      ghost var cat := Cat();
      r := InsertDocument(found.value, item.id, item.text, item.data);
      InsertRequestSteps(cat, name, item, r, Cat());
    }

    /** handleBulkInsertDocument. */
    method HandleBulkInsert(name: string, items: seq<Item>) returns (r: Result<seq<int>>)
      requires Valid()
      modifies this
      ensures Valid()
      ensures r != Err(Infrastructure) ==> (r, Cat()) == BulkInsertRequest(old(Cat()), name, items)
      ensures r == Err(Infrastructure) ==> !reliable && Cat() == old(Cat())
    {
      var found := GetCollection(name);
      if found.Err? { return Err(found.error); }
      var bad := CheckBatch(found.value.hasVector, items);
      if bad.Some? { return Err(bad.value); }
      ghost var cat := Cat();
      r := InsertDocumentBulk(found.value, items);
      BatchChecked(cat, name, items, r, Cat());
    }

    method CheckBatch(hasVector: bool, items: seq<Item>) returns (bad: Option<StoreError>)
      ensures bad == BatchError(hasVector, items)
    {
      if |items| == 0 { return Some(EmptyBatch); }
      if |items| > BULK_MAX_ITEMS { return Some(BatchTooLarge); }
      for n := 0 to |items|
        invariant forall m | 0 <= m < n :: hasVector ==> items[m].text != ""
      {
        if hasVector && items[n].text == "" { return Some(TextRequired); }
      }
      bad := None;
    }

    /** handleUpdateDocument. */
    method HandleUpdate(name: string, id: int, text: string, data: Payload) returns (r: Result<bool>)
      requires Valid()
      modifies this
      ensures Valid()
      ensures r != Err(Infrastructure) ==> (r, Cat()) == UpdateRequest(old(Cat()), name, id, text, data)
      ensures r == Err(Infrastructure) ==> !reliable && Cat() == old(Cat())
    {
      var found := GetCollection(name);
      if found.Err? { return Err(found.error); }
      if found.value.hasVector && text == "" { return Err(TextRequired); }
      ghost var cat := Cat();
      r := UpdateDocument(found.value, id, text, data);
      UpdateAnswered(cat, name, id, text, data, r, Cat());
      if r == Ok(false) { r := Err(NotFound); }
    }

    /** handleDeleteDocument. */
    method HandleDelete(name: string, id: int) returns (r: Result<bool>)
      requires Valid()
      modifies this
      ensures Valid() && Step(old(Cat()), Delete(name, id), Cat())
      ensures name !in old(Cat()).colls ==> Cat() == old(Cat()) && (r == Err(NotFound) || r == Err(Infrastructure))
      ensures name in old(Cat()).colls && r != Err(Infrastructure) ==> exists r0, cells ::
        DeleteOutcome(old(Cat()), name, id, r0, Cat(), cells) && r == if r0 == Ok(false) then Err(NotFound) else r0
      ensures reliable ==> r != Err(Infrastructure)
      ensures reliable && name in old(Cat()).colls && RefsHold(old(Cat())) ==>
        var (verdict, after) := DeleteSpec(old(Cat()), name, id);
        && r == (if verdict == Ok(false) then Err(NotFound) else verdict)
        && (verdict.Ok? ==> Cat() == after)
    {
      var found := GetCollection(name);
      if found.Err? { return Err(found.error); }
      ghost var cat := Cat();
      ghost var cells;
      r, cells := DeleteDocument(found.value, id);
      assert DeleteOutcome(cat, name, id, r, Cat(), cells);
      if reliable && RefsHold(cat) {
        DeleteRefinesSpec(cat, name, id, r, Cat(), cells);
      }
      if r == Ok(false) { return Err(NotFound); }
    }

    /** Any request: whatever fails, the store takes a step. */
    method Serve(cmd: Command)
      requires Valid()
      modifies this
      ensures Valid() && Step(old(Cat()), cmd, Cat())
    {
      match cmd {
        case Create(name, hasVector, dims, specs) => ServeCreate(name, hasVector, dims, specs);
        case Rename(oldName, newName) => var _ := RenameCollection(oldName, newName);
        case Drop(name) => var _ := DropCollection(name);
        case Insert(name, item) => var _ := HandleInsert(name, item);
        case BulkInsert(name, items) => ServeBulkInsert(name, items);
        case Update(name, id, text, data) => ServeUpdate(name, id, text, data);
        case Delete(name, id) => var _ := HandleDelete(name, id);
      }
    }

    method ServeCreate(name: string, hasVector: bool, dims: int, specs: map<string, RefSpec>)
      requires Valid()
      modifies this
      ensures Valid() && Step(old(Cat()), Create(name, hasVector, dims, specs), Cat())
    {
      ghost var before := db;
      var r := CreateCollection(name, hasVector, dims, specs);
      if r.Ok? {
        CreateVerdictMeaning(before, name, hasVector, dims, specs);
      }
    }

    method ServeBulkInsert(name: string, items: seq<Item>)
      requires Valid()
      modifies this
      ensures Valid() && Step(old(Cat()), BulkInsert(name, items), Cat())
    {
      BulkRequestSteps(Cat(), name, items);
      var _ := HandleBulkInsert(name, items);
    }

    method ServeUpdate(name: string, id: int, text: string, data: Payload)
      requires Valid()
      modifies this
      ensures Valid() && Step(old(Cat()), Update(name, id, text, data), Cat())
    {
      UpdateRequestSteps(Cat(), name, id, text, data);
      var _ := HandleUpdate(name, id, text, data);
    }

    /** A store that serves requests from the start goes through a run. */
    method ServeAll(cmds: seq<Command>) returns (ghost cats: seq<Catalog>)
      requires Valid() && db == EMPTY_DB
      modifies this
      ensures Valid() && Run(cats, cmds) && Cat() == cats[|cmds|]
    {
      cats := [Cat()];
      assert Cat() == EMPTY;
      for n := 0 to |cmds|
        invariant Valid() && Run(cats, cmds[..n]) && Cat() == cats[n]
      {
        Serve(cmds[n]);
        RunOneMore(cats, cmds, n, Cat());
        cats := cats + [Cat()];
      }
      assert cmds[..|cmds|] == cmds;
    }
  }
}
