/** The outcomes of every store call, including those of a call that fails half-way, and what
    all runs made of such calls keep. */
module Runs {
  import opened Documents
  import opened Catalogs
  import opened Integrity

  // ---------------------------------------------------------------- outcomes of one call

  /** insertDocument: the main row and the index row of a vector document are two commits. */
  ghost predicate InsertOutcome(cat: Catalog, c: string, item: Item, r: Result<int>, cat': Catalog) {
    c in cat.colls &&
    var (verdict, full) := InsertSpec(cat, c, item);
    match r
    case Ok(_) => r == verdict && cat' == full
    case Err(e) =>
      if e == Infrastructure then cat' == cat || InsertedUnindexed(cat, c, item, cat')
      else r == verdict && cat' == cat
  }

  /** The state between the two commits. */
  ghost predicate InsertedUnindexed(cat: Catalog, c: string, item: Item, cat': Catalog) {
    && c in cat.colls && cat.colls[c].hasVector && DataValid(cat, c, item.data)
    && ChooseId(cat.colls[c], item.id).Ok?
    && cat' == SetColl(cat, c, AddRow(cat.colls[c], ChooseId(cat.colls[c], item.id).value,
                                      StoredRow(cat.colls[c], item.text, item.data)))
  }

  /** Calls made of a single transaction: they do what their specification says, or nothing. */
  ghost predicate Atomic<T(!new)>(cat: Catalog, spec: (Result<T>, Catalog), r: Result<T>, cat': Catalog) {
    match r
    case Ok(_) => r == spec.0 && cat' == spec.1
    case Err(e) => cat' == cat && (e == Infrastructure || r == spec.0)
  }

  /** deleteDocument: each nulled field is a commit of its own, before the one that removes the row. */
  ghost predicate DeleteOutcome(cat: Catalog, c: string, id: int, r: Result<bool>, cat': Catalog, cells: set<Cell>) {
    && c in cat.colls && cells <= SetNullCells(cat, c, id)
    && match r
       case Ok(found) =>
         && !Blocked(cat, c, id) && cells == SetNullCells(cat, c, id) && found == (id in cat.colls[c].rows)
         && cat' == if found then RemoveDoc(Nulled(cat, cells), c, id) else Nulled(cat, cells)
       case Err(e) =>
         && cat' == Nulled(cat, cells)
         && (e == Restricted ==> Blocked(cat, c, id) && VisitedFirst(cat, c, id, cells))
         && (e != Restricted && e != Infrastructure ==> e == BadReference && !RefsHold(cat))
  }

  /** Exactly the set_null declarations visited before the one that refused have been carried out. */
  ghost predicate VisitedFirst(cat: Catalog, c: string, id: int, cells: set<Cell>) {
    exists keys | keys <= Dependents(cat, c, SetNull) :: cells == CellsOf(cat, keys, id)
  }

  datatype Command =
    | Create(name: string, hasVector: bool, dims: int, specs: map<string, RefSpec>)
    | Rename(oldName: string, newName: string)
    | Drop(name: string)
    | Insert(name: string, item: Item)
    | BulkInsert(name: string, items: seq<Item>)
    | Update(name: string, id: int, text: string, data: Payload)
    | Delete(name: string, id: int)

  predicate TextPresent(cat: Catalog, c: string, text: string) {
    c in cat.colls && (cat.colls[c].hasVector ==> text != "")
  }

  /** Every state a request may leave, whatever fails on the way. */
  ghost predicate Step(cat: Catalog, cmd: Command, cat': Catalog) {
    cat' == cat ||
    match cmd
    case Create(name, hasVector, dims, specs) =>
      CreateAllowed(cat, name, hasVector, dims, specs) && cat' == Created(cat, name, hasVector, dims, specs)
    case Rename(oldName, newName) => RenameAllowed(cat, oldName, newName) && cat' == Renamed(cat, oldName, newName)
    case Drop(name) => name in cat.colls && cat' == Dropped(cat, name)
    case Insert(name, item) =>
      TextPresent(cat, name, item.text) && exists r :: InsertOutcome(cat, name, item, r, cat')
    case BulkInsert(name, items) =>
      && name in cat.colls && (forall j | 0 <= j < |items| :: TextPresent(cat, name, items[j].text))
      && BulkSpec(cat, name, items).0.Ok? && cat' == BulkSpec(cat, name, items).1
    case Update(name, id, text, data) =>
      TextPresent(cat, name, text) && cat' == UpdateSpec(cat, name, id, text, data).1
    case Delete(name, id) => exists r, cells :: DeleteOutcome(cat, name, id, r, cat', cells)
  }

  // ---------------------------------------------------------------- one step

  /** Invariants that hold over every run, whatever is dropped. */
  ghost predicate Consistent(cat: Catalog) {
    Sound(cat) && TextsGiven(cat)
  }

  lemma RemoveKeepsConsistent(cat: Catalog, c: string, id: int)
    requires Consistent(cat) && c in cat.colls
    ensures Consistent(RemoveDoc(cat, c, id))
    ensures Indexed(cat) ==> Indexed(RemoveDoc(cat, c, id))
  {
  }

  /** How an INSERT or an update changes a catalogue. */
  lemma WriteKeepsConsistent(cat: Catalog, c: string, coll': Coll)
    requires Consistent(cat) && c in cat.colls && SameShape(cat.colls[c], coll') && CollSound(coll')
    requires forall i | i in coll'.rows && coll'.hasVector ::
               coll'.rows[i].text != "" || (i in cat.colls[c].rows && coll'.rows[i] == cat.colls[c].rows[i])
    ensures Consistent(SetColl(cat, c, coll'))
    ensures Indexed(cat) && (coll'.hasVector ==> coll'.index.Keys == coll'.rows.Keys) ==> Indexed(SetColl(cat, c, coll'))
  {
  }

  lemma AddedKeeps(cat: Catalog, c: string, item: Item, i: int, coll': Coll)
    requires Consistent(cat) && TextPresent(cat, c, item.text) && DataValid(cat, c, item.data)
    requires i !in cat.colls[c].rows
    requires var row := StoredRow(cat.colls[c], item.text, item.data);
      coll' == AddRow(cat.colls[c], i, row) || coll' == Inserted(cat.colls[c], i, row)
    ensures Consistent(SetColl(cat, c, coll'))
    ensures RefsHold(cat) ==> RefsHold(SetColl(cat, c, coll'))
  {
    var coll, row := cat.colls[c], StoredRow(cat.colls[c], item.text, item.data);
    InsertedSound(coll, i, item.text, item.data);
    assert coll'.rows == coll.rows[i := row];
    WriteKeepsConsistent(cat, c, coll');
    if RefsHold(cat) {
      StoredIsValid(cat, c, item.data);
      forall n | n in coll'.rows ensures DataValid(cat, c, coll'.rows[n].data) {
        if n != i {
          assert DataValid(cat, c, coll.rows[n].data);
        }
      }
      WriteKeepsRefs(cat, c, coll');
    }
  }

  lemma InsertKeeps(cat: Catalog, c: string, item: Item, r: Result<int>, cat': Catalog)
    requires Consistent(cat) && TextPresent(cat, c, item.text) && InsertOutcome(cat, c, item, r, cat')
    ensures Consistent(cat')
    ensures RefsHold(cat) ==> RefsHold(cat')
    ensures Indexed(cat) ==> Indexed(cat') || InsertedUnindexed(cat, c, item, cat')
  {
    if cat' != cat {
      var coll := cat.colls[c];
      var i := ChooseId(coll, item.id).value;
      ChosenIdIsNew(coll, item.id);
      AddedKeeps(cat, c, item, i, cat'.colls[c]);
      if Indexed(cat) && cat' == InsertSpec(cat, c, item).1 {
        InsertKeepsIndexed(cat, c, i, StoredRow(coll, item.text, item.data));
      }
    }
  }

  lemma InsertKeepsIndexed(cat: Catalog, c: string, i: int, row: Row)
    requires Indexed(cat) && c in cat.colls
    ensures Indexed(SetColl(cat, c, Inserted(cat.colls[c], i, row)))
  {
  }

  lemma BulkKeeps(cat: Catalog, c: string, items: seq<Item>)
    requires Consistent(cat) && c in cat.colls && (forall j | 0 <= j < |items| :: TextPresent(cat, c, items[j].text))
    requires BulkSpec(cat, c, items).0.Ok?
    ensures Consistent(BulkSpec(cat, c, items).1)
    ensures RefsHold(cat) ==> RefsHold(BulkSpec(cat, c, items).1)
    ensures Indexed(cat) ==> Indexed(BulkSpec(cat, c, items).1)
  {
    var coll, coll' := cat.colls[c], PlaceAll(cat.colls[c], items).value.1;
    PlaceAllExtends(coll, items);
    if Indexed(cat) && coll.hasVector {
      FullyIndexed(coll);
      FullyIndexed(coll');
    }
    WriteKeepsConsistent(cat, c, coll');
    if RefsHold(cat) {
      forall n | n in coll'.rows ensures DataValid(cat, c, coll'.rows[n].data) {
        if n in coll.rows {
          assert DataValid(cat, c, coll.rows[n].data);
        } else {
          var j :| 0 <= j < |items| && coll'.rows[n] == StoredRow(coll, items[j].text, items[j].data);
          StoredIsValid(cat, c, items[j].data);
        }
      }
      WriteKeepsRefs(cat, c, coll');
    }
  }

  lemma UpdateKeeps(cat: Catalog, c: string, id: int, text: string, data: Payload)
    requires Consistent(cat) && TextPresent(cat, c, text)
    ensures var cat' := UpdateSpec(cat, c, id, text, data).1;
      Consistent(cat') && (RefsHold(cat) ==> RefsHold(cat')) && (Indexed(cat) ==> Indexed(cat'))
  {
    var coll := cat.colls[c];
    if UpdateSpec(cat, c, id, text, data).0 == Ok(true) {
      var coll' := Replaced(coll, id, StoredRow(coll, text, data));
      ReplacedSound(coll, id, text, data);
      WriteKeepsConsistent(cat, c, coll');
      if RefsHold(cat) {
        StoredIsValid(cat, c, data);
        assert forall n | n in coll.rows :: DataValid(cat, c, coll.rows[n].data);
        WriteKeepsRefs(cat, c, coll');
      }
    }
  }

  lemma DeleteKeeps(cat: Catalog, c: string, id: int, r: Result<bool>, cat': Catalog, cells: set<Cell>)
    requires Consistent(cat) && DeleteOutcome(cat, c, id, r, cat', cells)
    ensures Consistent(cat')
    ensures RefsHold(cat) ==> RefsHold(cat')
    ensures Indexed(cat) ==> Indexed(cat')
  {
    NulledKeepsSound(cat, cells);
    if RefsHold(cat) {
      NulledKeepsRefs(cat, cells);
    }
    if r == Ok(true) {
      RemoveKeepsConsistent(Nulled(cat, cells), c, id);
      if RefsHold(cat) {
        CascadeKeepsRefs(cat, c, id);
      }
    }
  }

  lemma StepKeepsConsistent(cat: Catalog, cmd: Command, cat': Catalog)
    requires Consistent(cat) && Step(cat, cmd, cat')
    ensures Consistent(cat')
  {
    if cat' == cat { return; }
    match cmd
    case Create(name, hasVector, dims, specs) => CreatedKeepsSound(cat, name, hasVector, dims, specs);
    case Rename(oldName, newName) => RenamedKeepsSound(cat, oldName, newName);
    case Drop(name) =>
    case Insert(name, item) => var r :| InsertOutcome(cat, name, item, r, cat'); InsertKeeps(cat, name, item, r, cat');
    case BulkInsert(name, items) => BulkKeeps(cat, name, items);
    case Update(name, id, text, data) => UpdateKeeps(cat, name, id, text, data);
    case Delete(name, id) =>
      var r, cells :| DeleteOutcome(cat, name, id, r, cat', cells); DeleteKeeps(cat, name, id, r, cat', cells);
  }

  /** The step cannot break a reference: all are harmless but a drop of a collection that documents
      refer into, and a rename that puts documents under declarations they do not satisfy. */
  ghost predicate Harmless(cat: Catalog, cmd: Command) {
    match cmd
    case Drop(name) => !RefersInto(cat, name)
    case Rename(oldName, newName) => oldName in cat.colls ==> RenameHarmless(cat, oldName, newName)
    case _ => true
  }

  /** A step, whatever fails in it, keeps integrity exactly when it is harmless or without effect. */
  lemma StepKeepsRefsIff(cat: Catalog, cmd: Command, cat': Catalog)
    requires Consistent(cat) && RefsHold(cat) && Step(cat, cmd, cat')
    ensures RefsHold(cat') <==> cat' == cat || Harmless(cat, cmd)
  {
    if cat' == cat { return; }
    match cmd
    case Create(name, hasVector, dims, specs) => CreatedKeepsRefs(cat, name, hasVector, dims, specs);
    case Rename(oldName, newName) => RenameKeepsRefsIff(cat, oldName, newName);
    case Drop(name) => DropKeepsRefsIff(cat, name);
    case Insert(name, item) => var r :| InsertOutcome(cat, name, item, r, cat'); InsertKeeps(cat, name, item, r, cat');
    case BulkInsert(name, items) => BulkKeeps(cat, name, items);
    case Update(name, id, text, data) => UpdateKeeps(cat, name, id, text, data);
    case Delete(name, id) =>
      var r, cells :| DeleteOutcome(cat, name, id, r, cat', cells); DeleteKeeps(cat, name, id, r, cat', cells);
  }

  // ---------------------------------------------------------------- declarations

  /** Only documents differ. */
  ghost predicate SameRegistry(cat: Catalog, cat': Catalog) {
    && cat'.refs == cat.refs && cat'.clock == cat.clock && cat'.colls.Keys == cat.colls.Keys
    && forall c | c in cat.colls :: cat'.colls[c].createdAt == cat.colls[c].createdAt
  }

  lemma SameRegistryDeclared(cat: Catalog, cat': Catalog)
    requires SameRegistry(cat, cat') && RefsDeclared(cat)
    ensures RefsDeclared(cat')
  {
  }

  lemma DataStepKeepsRegistry(cat: Catalog, cmd: Command, cat': Catalog)
    requires Consistent(cat) && Step(cat, cmd, cat') && !cmd.Create? && !cmd.Rename? && !cmd.Drop?
    ensures SameRegistry(cat, cat')
  {
    if cat' == cat { return; }
    match cmd
    case Insert(name, item) => var r :| InsertOutcome(cat, name, item, r, cat'); InsertKeepsRegistry(cat, name, item, r, cat');
    case BulkInsert(name, items) => BulkKeepsRegistry(cat, name, items);
    case Update(name, id, text, data) =>
    case Delete(name, id) => var r, cells :| DeleteOutcome(cat, name, id, r, cat', cells); DeleteKeepsRegistry(cat, name, id, r, cat', cells);
  }

  lemma InsertKeepsRegistry(cat: Catalog, name: string, item: Item, r: Result<int>, cat': Catalog)
    requires InsertOutcome(cat, name, item, r, cat')
    ensures SameRegistry(cat, cat')
  {
  }

  lemma BulkKeepsRegistry(cat: Catalog, name: string, items: seq<Item>)
    requires Consistent(cat) && name in cat.colls
    ensures SameRegistry(cat, BulkSpec(cat, name, items).1)
  {
    PlaceAllExtends(cat.colls[name], items);
  }

  lemma DeleteKeepsRegistry(cat: Catalog, name: string, id: int, r: Result<bool>, cat': Catalog, cells: set<Cell>)
    requires DeleteOutcome(cat, name, id, r, cat', cells)
    ensures SameRegistry(cat, cat')
  {
    assert SameRegistry(cat, Nulled(cat, cells));
  }

  /** A drop keeps every declaration between registered collections exactly when none mentions
      the dropped one, and every declaration with its owner exactly when it owns none. */
  lemma DropKeepsDeclaredIff(cat: Catalog, name: string)
    ensures RefsDeclared(cat) ==> (RefsDeclared(Dropped(cat, name)) <==> Unreferenced(cat, name))
    ensures OwnersRegistered(cat) ==> (OwnersRegistered(Dropped(cat, name)) <==> forall k | k in cat.refs :: k.coll != name)
  {
  }

  lemma StepKeepsDeclared(cat: Catalog, cmd: Command, cat': Catalog)
    requires Consistent(cat) && RefsDeclared(cat) && Step(cat, cmd, cat')
    requires cmd.Drop? ==> Unreferenced(cat, cmd.name)
    ensures RefsDeclared(cat')
  {
    if cat' == cat { return; }
    match cmd
    case Create(name, hasVector, dims, specs) => CreatedRefsDeclared(cat, name, hasVector, dims, specs);
    case Rename(oldName, newName) => RenamedRefsDeclared(cat, oldName, newName);
    case Drop(name) => DropKeepsDeclaredIff(cat, name);
    case _ => DataStepKeepsRegistry(cat, cmd, cat'); SameRegistryDeclared(cat, cat');
  }

  lemma RenamedOwnersRegistered(cat: Catalog, oldName: string, newName: string)
    requires OwnersRegistered(cat) && RenameAllowed(cat, oldName, newName)
    ensures OwnersRegistered(Renamed(cat, oldName, newName)) && RenameHarmless(cat, oldName, newName)
  {
    forall k | k in Renamed(cat, oldName, newName).refs ensures k.coll in Renamed(cat, oldName, newName).colls {
      RenamedRefsOrigin(cat.refs, oldName, newName, k);
      RenamedColl(cat, oldName, newName, Origin(cat.refs, oldName, newName, k).coll);
    }
  }

  /** A collection that declares nothing, and that no document refers into. */
  ghost predicate Droppable(cat: Catalog, name: string) {
    !RefersInto(cat, name) && forall k | k in cat.refs :: k.coll != name
  }

  /** As long as no declaration has lost its owner, a drop keeps integrity and owners exactly when
      the collection declares nothing and no document refers into it. */
  lemma DropKeepsHeldIff(cat: Catalog, name: string)
    requires RefsHold(cat) && OwnersRegistered(cat)
    ensures RefsHold(Dropped(cat, name)) && OwnersRegistered(Dropped(cat, name)) <==> Droppable(cat, name)
  {
    DropKeepsRefsIff(cat, name);
    DropKeepsDeclaredIff(cat, name);
  }

  /** Every step but the drop of a collection that is not droppable keeps both. */
  lemma StepKeepsHeld(cat: Catalog, cmd: Command, cat': Catalog)
    requires Consistent(cat) && RefsHold(cat) && OwnersRegistered(cat) && Step(cat, cmd, cat')
    requires cmd.Drop? ==> Droppable(cat, cmd.name)
    ensures RefsHold(cat') && OwnersRegistered(cat')
  {
    StepKeepsRefsIff(cat, cmd, cat');
    if cat' == cat { return; }
    match cmd
    case Create(name, hasVector, dims, specs) =>
    case Rename(oldName, newName) => RenamedOwnersRegistered(cat, oldName, newName);
    case Drop(name) =>
    case _ => DataStepKeepsRegistry(cat, cmd, cat');
  }

  // ---------------------------------------------------------------- the index, collection by collection

  /** The step is an insert into `c` that stopped between its commits, at document `id`. */
  ghost predicate Interrupted(cat: Catalog, cmd: Command, cat': Catalog, c: string, id: int) {
    cmd.Insert? && cmd.name == c && InsertedUnindexed(cat, c, cmd.item, cat') && ChooseId(cat.colls[c], cmd.item.id) == Ok(id)
  }

  /** The name that the collection now called `c` had before the step. */
  function NameBefore(cat: Catalog, cmd: Command, cat': Catalog, c: string): string {
    if cmd.Rename? && cat' != cat && c == cmd.newName then cmd.oldName else c
  }

  /** The collection now called `c` was there before the step, and `id` was unindexed in it. */
  ghost predicate WasUnindexed(cat: Catalog, cmd: Command, cat': Catalog, c: string, id: int)
    requires c in cat'.colls
  {
    var b := NameBefore(cat, cmd, cat', c);
    b in cat.colls && cat.colls[b].createdAt == cat'.colls[c].createdAt && id in Unindexed(cat.colls[b])
  }

  /** The step removed document `id` from the collection now called `c`, or indexed it: by a
      successful update, or by nulling a field of it. */
  ghost predicate Cured(cat: Catalog, cmd: Command, cat': Catalog, c: string, id: int)
    requires c in cat'.colls
  {
    || id !in cat'.colls[c].rows
    || (cmd.Update? && cmd.name == c && cmd.id == id && cat' != cat)
    || (cmd.Delete? && c in cat.colls && id in cat.colls[c].rows && cat'.colls[c].rows[id] != cat.colls[c].rows[id])
  }

  lemma InsertUnindexed(cat: Catalog, name: string, item: Item, r: Result<int>, cat': Catalog, c: string, id: int)
    requires Consistent(cat) && InsertOutcome(cat, name, item, r, cat') && c in cat'.colls
    ensures id in Unindexed(cat'.colls[c]) <==>
      WasUnindexed(cat, Insert(name, item), cat', c, id) || Interrupted(cat, Insert(name, item), cat', c, id)
    ensures WasUnindexed(cat, Insert(name, item), cat', c, id) ==> !Cured(cat, Insert(name, item), cat', c, id)
  {
    ChosenIdIsNew(cat.colls[name], item.id);
  }

  lemma BulkUnindexed(cat: Catalog, name: string, items: seq<Item>, c: string, id: int)
    requires Consistent(cat) && name in cat.colls && BulkSpec(cat, name, items).0.Ok? && c in BulkSpec(cat, name, items).1.colls
    ensures var cat' := BulkSpec(cat, name, items).1;
      && (id in Unindexed(cat'.colls[c]) <==> WasUnindexed(cat, BulkInsert(name, items), cat', c, id))
      && (WasUnindexed(cat, BulkInsert(name, items), cat', c, id) ==> !Cured(cat, BulkInsert(name, items), cat', c, id))
  {
    PlaceAllExtends(cat.colls[name], items);
  }

  lemma DeleteUnindexed(cat: Catalog, name: string, id0: int, r: Result<bool>, cat': Catalog, cells: set<Cell>, c: string, id: int)
    requires DeleteOutcome(cat, name, id0, r, cat', cells) && c in cat'.colls
    ensures var cmd := Delete(name, id0);
      id in Unindexed(cat'.colls[c]) <==> WasUnindexed(cat, cmd, cat', c, id) && !Cured(cat, cmd, cat', c, id)
  {
    assert Nulled(cat, cells).colls[c] == NulledColl(cat.colls[c], c, cells);
    NulledUnindexed(cat, name, id0, c, cells, id);
  }

  /** Nulling set_null cells indexes exactly the documents it changes. */
  lemma NulledUnindexed(cat: Catalog, name: string, id0: int, c: string, cells: set<Cell>, id: int)
    requires c in cat.colls && cells <= SetNullCells(cat, name, id0)
    ensures var coll, coll' := cat.colls[c], NulledColl(cat.colls[c], c, cells);
      && coll'.rows.Keys == coll.rows.Keys
      && (id in Unindexed(coll') <==> id in Unindexed(coll) && coll'.rows[id] == coll.rows[id])
  {
    var coll, coll' := cat.colls[c], NulledColl(cat.colls[c], c, cells);
    if id in coll.rows {
      if id in TouchedIds(c, cells) {
        var m :| m in cells && m.coll == c && m.id == id;
        NulledFieldOf(coll.rows[id].data, c, id, cells, m.field);
        assert Field(coll'.rows[id].data, m.field) != Field(coll.rows[id].data, m.field);
      } else {
        NothingNulled(coll.rows[id].data, c, id, cells);
      }
    }
  }

  lemma NothingNulled(data: Payload, c: string, id: int, cells: set<Cell>)
    requires id !in TouchedIds(c, cells)
    ensures NulledData(data, c, id, cells) == data
  {
    assert forall f :: Cell(c, id, f) in cells ==> id in TouchedIds(c, cells);
  }

  lemma UpdateUnindexed(cat: Catalog, name: string, i: int, text: string, data: Payload, c: string, id: int)
    requires Consistent(cat) && name in cat.colls && c in cat.colls
    ensures var cmd, cat' := Update(name, i, text, data), UpdateSpec(cat, name, i, text, data).1;
      id in Unindexed(cat'.colls[c]) <==> WasUnindexed(cat, cmd, cat', c, id) && !Cured(cat, cmd, cat', c, id)
  {
    if UpdateSpec(cat, name, i, text, data).0 == Ok(true) && id == i && c == name && id in Unindexed(cat.colls[c]) {
      assert id in UpdateSpec(cat, name, i, text, data).1.colls[c].index;
    }
  }

  /** In any state, and whatever fails: a document is unindexed after a request exactly when it was
      so before, in the same collection, and the request has not removed or indexed it; or the
      request is its insert, stopped between its commits. */
  lemma StepUnindexed(cat: Catalog, cmd: Command, cat': Catalog, c: string, id: int)
    requires Consistent(cat) && Step(cat, cmd, cat') && c in cat'.colls
    ensures id in Unindexed(cat'.colls[c])
            <==> (WasUnindexed(cat, cmd, cat', c, id) && !Cured(cat, cmd, cat', c, id)) || Interrupted(cat, cmd, cat', c, id)
  {
    if cat' == cat {
      NotInterrupted(cat, cmd, c, id);
      return;
    }
    match cmd
    case Create(name, hasVector, dims, specs) =>
    case Rename(oldName, newName) =>
    case Drop(name) =>
    case Insert(name, item) => var r :| InsertOutcome(cat, name, item, r, cat'); InsertUnindexed(cat, name, item, r, cat', c, id);
    case BulkInsert(name, items) => BulkUnindexed(cat, name, items, c, id);
    case Update(name, i, text, data) => UpdateUnindexed(cat, name, i, text, data, c, id);
    case Delete(name, i) =>
      var r, cells :| DeleteOutcome(cat, name, i, r, cat', cells); DeleteUnindexed(cat, name, i, r, cat', cells, c, id);
  }

  /** An insert that stopped between its commits has had an effect. */
  lemma NotInterrupted(cat: Catalog, cmd: Command, c: string, id: int)
    requires Consistent(cat)
    ensures !Interrupted(cat, cmd, cat, c, id)
  {
    if cmd.Insert? && c in cat.colls {
      ChosenIdIsNew(cat.colls[c], cmd.item.id);
    }
  }

  /** A fully indexed collection stays so, whatever the state of the others, except by an insert
      into it that stops between its commits; a new collection starts so. */
  lemma StepKeepsIndexed(cat: Catalog, cmd: Command, cat': Catalog, c: string)
    requires Consistent(cat) && Step(cat, cmd, cat') && c in cat'.colls
    requires var b := NameBefore(cat, cmd, cat', c); b in cat.colls ==> Unindexed(cat.colls[b]) == {}
    ensures Unindexed(cat'.colls[c]) == {} || (cmd.Insert? && cmd.name == c && InsertedUnindexed(cat, c, cmd.item, cat'))
  {
    var stopped := cmd.Insert? && cmd.name == c && InsertedUnindexed(cat, c, cmd.item, cat');
    forall id | id in Unindexed(cat'.colls[c]) ensures stopped {
      StepUnindexed(cat, cmd, cat', c, id);
    }
    EmptyUnless(Unindexed(cat'.colls[c]), stopped);
  }

  lemma EmptyUnless<T>(s: set<T>, p: bool)
    requires forall x | x in s :: p
    ensures s == {} || p
  {
    if s != {} {
      var x :| x in s;
    }
  }

  /** In any state, an update that succeeds indexes its document with the new text, and changes
      nothing about which other documents are indexed. */
  lemma UpdateRestoresIndex(cat: Catalog, c: string, id: int, text: string, data: Payload)
    requires Consistent(cat) && c in cat.colls && cat.colls[c].hasVector && UpdateSpec(cat, c, id, text, data).0 == Ok(true)
    ensures var cat' := UpdateSpec(cat, c, id, text, data).1;
      && id in cat'.colls[c].index && cat'.colls[c].index[id] == text && cat'.colls[c].rows[id].text == text
      && Unindexed(cat'.colls[c]) == Unindexed(cat.colls[c]) - {id}
      && forall d | d in cat.colls && d != c :: cat'.colls[d] == cat.colls[d]
  {
  }

  // ---------------------------------------------------------------- every run

  /** `cats[n]` is the state before the n-th request of a run from the empty store. */
  ghost predicate Run(cats: seq<Catalog>, cmds: seq<Command>) {
    && |cats| == |cmds| + 1 && cats[0] == EMPTY
    && forall n | 0 <= n < |cmds| :: StepAt(cats, cmds, n)
  }

  ghost predicate StepAt(cats: seq<Catalog>, cmds: seq<Command>, n: nat)
    requires n < |cmds| && |cats| == |cmds| + 1
  {
    Step(cats[n], cmds[n], cats[n + 1])
  }

  lemma RunOneMore(cats: seq<Catalog>, cmds: seq<Command>, n: nat, cat: Catalog)
    requires n < |cmds| && Run(cats, cmds[..n]) && Step(cats[n], cmds[n], cat)
    ensures Run(cats + [cat], cmds[..n + 1])
  {
    var cats', cmds' := cats + [cat], cmds[..n + 1];
    forall m | 0 <= m < |cmds'| ensures StepAt(cats', cmds', m) {
      if m < n { assert StepAt(cats, cmds[..n], m); }
    }
  }

  ghost predicate DropsUnreferenced(cats: seq<Catalog>, cmds: seq<Command>)
    requires |cats| == |cmds| + 1
  {
    forall n | 0 <= n < |cmds| && cmds[n].Drop? :: Unreferenced(cats[n], cmds[n].name)
  }

  /** Some run ends here; a restricted one drops only collections that no declaration mentions. */
  ghost predicate Reachable(cat: Catalog, restricted: bool) {
    exists cats, cmds :: Run(cats, cmds) && (restricted ==> DropsUnreferenced(cats, cmds)) && cats[|cmds|] == cat
  }

  lemma StartReachable(restricted: bool)
    ensures Reachable(EMPTY, restricted)
  {
    assert Run([EMPTY], []) && DropsUnreferenced([EMPTY], []);
  }

  lemma StepReachable(cat: Catalog, cmd: Command, cat': Catalog, restricted: bool)
    requires Reachable(cat, restricted) && Step(cat, cmd, cat')
    requires restricted && cmd.Drop? ==> Unreferenced(cat, cmd.name)
    ensures Reachable(cat', restricted)
  {
    var cats, cmds :| Run(cats, cmds) && (restricted ==> DropsUnreferenced(cats, cmds)) && cats[|cmds|] == cat;
    var more := cmds + [cmd];
    assert more[..|cmds|] == cmds && more[..|cmds| + 1] == more;
    RunOneMore(cats, more, |cmds|, cat');
    assert restricted ==> DropsUnreferenced(cats + [cat'], more);
  }

  lemma ReachableIsConsistent(cat: Catalog, restricted: bool)
    requires Reachable(cat, restricted)
    ensures Consistent(cat) && (restricted ==> Closed(cat))
  {
    var cats, cmds :| Run(cats, cmds) && (restricted ==> DropsUnreferenced(cats, cmds)) && cats[|cmds|] == cat;
    RunKeepsConsistent(cats, cmds, |cmds|);
    if restricted {
      RunKeepsClosed(cats, cmds, |cmds|);
    }
  }

  function NewColl(cat: Catalog): Coll { Coll(false, 0, cat.clock, map[], 0, map[]) }

  /** A collection without references may be created under any free name. */
  lemma CreatePlain(cat: Catalog, name: string, restricted: bool) returns (cat': Catalog)
    requires Reachable(cat, restricted) && IsName(name) && name !in cat.colls
    ensures Reachable(cat', restricted) && cat'.refs == cat.refs && cat'.colls == cat.colls[name := NewColl(cat)]
  {
    cat' := Created(cat, name, false, 0, map[]);
    assert Declared(name, map[]) == map[];
    StepReachable(cat, Create(name, false, 0, map[]), cat', restricted);
  }

  /** And one with a reference from `field` to an existing collection. */
  lemma CreateReferring(cat: Catalog, k: RefKey, target: string, onDelete: string, restricted: bool) returns (cat': Catalog)
    requires Reachable(cat, restricted) && IsName(k.coll) && IsName(k.field) && k.coll !in cat.colls && target in cat.colls
    requires OnDeleteOf(onDelete).Some? && forall d | d in cat.refs :: d.coll != k.coll
    ensures Reachable(cat', restricted) && cat'.colls == cat.colls[k.coll := NewColl(cat)]
    ensures cat'.refs == cat.refs[k := RefDecl(target, OnDeleteOf(onDelete).value)]
  {
    var specs := map[k.field := RefSpec(target, onDelete)];
    cat' := Created(cat, k.coll, false, 0, specs);
    DeclaredOne(k, target, onDelete);
    StepReachable(cat, Create(k.coll, false, 0, specs), cat', restricted);
  }

  lemma DeclaredOne(k: RefKey, target: string, onDelete: string)
    requires IsName(k.field) && OnDeleteOf(onDelete).Some?
    ensures SpecsWellFormed(map[k.field := RefSpec(target, onDelete)])
    ensures Declared(k.coll, map[k.field := RefSpec(target, onDelete)]) == map[k := RefDecl(target, OnDeleteOf(onDelete).value)]
  {
  }

  lemma {:induction false} RunKeepsConsistent(cats: seq<Catalog>, cmds: seq<Command>, n: nat)
    requires Run(cats, cmds) && n < |cats|
    ensures Consistent(cats[n])
  {
    if n > 0 {
      RunKeepsConsistent(cats, cmds, n - 1);
      assert StepAt(cats, cmds, n - 1);
      StepKeepsConsistent(cats[n - 1], cmds[n - 1], cats[n]);
    }
  }

  /** Creation times tell collections apart, also through renames. */
  ghost predicate BornApart(cat: Catalog) {
    forall c, d | c in cat.colls && d in cat.colls && c != d :: cat.colls[c].createdAt != cat.colls[d].createdAt
  }

  /** Every collection after a step is one from before, or new. */
  lemma StepKeepsBirths(cat: Catalog, cmd: Command, cat': Catalog, c: string)
    requires Consistent(cat) && Step(cat, cmd, cat') && c in cat'.colls
    ensures var b := NameBefore(cat, cmd, cat', c);
      if b in cat.colls then cat'.colls[c].createdAt == cat.colls[b].createdAt
      else cmd.Create? && c == cmd.name && cat'.colls[c].createdAt == cat.clock
  {
    if !cmd.Create? && !cmd.Rename? && !cmd.Drop? {
      DataStepKeepsRegistry(cat, cmd, cat');
    }
  }

  lemma {:induction false} RunKeepsBornApart(cats: seq<Catalog>, cmds: seq<Command>, n: nat)
    requires Run(cats, cmds) && n < |cats|
    ensures BornApart(cats[n])
  {
    if n > 0 {
      RunKeepsBornApart(cats, cmds, n - 1);
      RunKeepsConsistent(cats, cmds, n - 1);
      assert StepAt(cats, cmds, n - 1);
      forall c, d | c in cats[n].colls && d in cats[n].colls && c != d
        ensures cats[n].colls[c].createdAt != cats[n].colls[d].createdAt
      {
        StepKeepsBirths(cats[n - 1], cmds[n - 1], cats[n], c);
        StepKeepsBirths(cats[n - 1], cmds[n - 1], cats[n], d);
      }
    }
  }

  lemma {:induction false} ClockGoesOn(cats: seq<Catalog>, cmds: seq<Command>, m: nat, n: nat)
    requires Run(cats, cmds) && m <= n < |cats|
    ensures cats[m].clock <= cats[n].clock
  {
    if m < n {
      ClockGoesOn(cats, cmds, m, n - 1);
      RunKeepsConsistent(cats, cmds, n - 1);
      assert StepAt(cats, cmds, n - 1);
      StepKeepsClock(cats[n - 1], cmds[n - 1], cats[n]);
    }
  }

  lemma StepKeepsClock(cat: Catalog, cmd: Command, cat': Catalog)
    requires Consistent(cat) && Step(cat, cmd, cat')
    ensures cat.clock <= cat'.clock
  {
    if !cmd.Create? && !cmd.Rename? && !cmd.Drop? {
      DataStepKeepsRegistry(cat, cmd, cat');
    }
  }

  /** The collection created at `born` is still there, under whatever name, and the step has
      neither removed nor indexed its document `id`. */
  ghost predicate Kept(cat: Catalog, cmd: Command, cat': Catalog, born: nat, id: int) {
    exists d | d in cat'.colls :: cat'.colls[d].createdAt == born && !Cured(cat, cmd, cat', d, id)
  }

  ghost predicate InterruptedIn(cat: Catalog, cmd: Command, cat': Catalog, born: nat, id: int) {
    exists c | c in cat.colls :: Interrupted(cat, cmd, cat', c, id) && cat.colls[c].createdAt == born
  }

  /** Request `m` is the insert of `id` into the collection created at `born`, stopped between its
      commits, and no request since then has removed or indexed the document. */
  ghost predicate InterruptedSince(cats: seq<Catalog>, cmds: seq<Command>, m: nat, n: nat, born: nat, id: int)
    requires |cats| == |cmds| + 1 && n < |cats|
  {
    && m < n && InterruptedIn(cats[m], cmds[m], cats[m + 1], born, id)
    && forall j | m < j < n :: KeptAt(cats, cmds, j, born, id)
  }

  ghost predicate KeptAt(cats: seq<Catalog>, cmds: seq<Command>, j: nat, born: nat, id: int)
    requires |cats| == |cmds| + 1 && j < |cmds|
  {
    Kept(cats[j], cmds[j], cats[j + 1], born, id)
  }

  /** In every state of every run, the documents missing from an index are exactly those whose
      insert stopped between its commits and that no request has removed or indexed since. */
  lemma UnindexedIff(cats: seq<Catalog>, cmds: seq<Command>, n: nat, c: string, id: int)
    requires Run(cats, cmds) && n < |cats| && c in cats[n].colls
    ensures id in Unindexed(cats[n].colls[c])
            <==> exists m: nat :: InterruptedSince(cats, cmds, m, n, cats[n].colls[c].createdAt, id)
  {
    if id in Unindexed(cats[n].colls[c]) {
      var m := UnindexedWasInterrupted(cats, cmds, n, c, id);
    }
    if m: nat :| InterruptedSince(cats, cmds, m, n, cats[n].colls[c].createdAt, id) {
      InterruptedStaysUnindexed(cats, cmds, m, n, c, id);
    }
  }

  lemma {:induction false} UnindexedWasInterrupted(cats: seq<Catalog>, cmds: seq<Command>, n: nat, c: string, id: int) returns (m: nat)
    requires Run(cats, cmds) && n < |cats| && c in cats[n].colls && id in Unindexed(cats[n].colls[c])
    ensures InterruptedSince(cats, cmds, m, n, cats[n].colls[c].createdAt, id)
    decreases n
  {
    assert n > 0;
    var cat, cmd, cat' := cats[n - 1], cmds[n - 1], cats[n];
    RunKeepsConsistent(cats, cmds, n - 1);
    assert StepAt(cats, cmds, n - 1);
    StepUnindexed(cat, cmd, cat', c, id);
    if Interrupted(cat, cmd, cat', c, id) {
      StepKeepsBirths(cat, cmd, cat', c);
      m := n - 1;
    } else {
      m := UnindexedWasInterrupted(cats, cmds, n - 1, NameBefore(cat, cmd, cat', c), id);
      assert KeptAt(cats, cmds, n - 1, cat'.colls[c].createdAt, id);
    }
  }

  lemma {:induction false} InterruptedStaysUnindexed(cats: seq<Catalog>, cmds: seq<Command>, m: nat, n: nat, c: string, id: int)
    requires Run(cats, cmds) && n < |cats| && c in cats[n].colls
    requires InterruptedSince(cats, cmds, m, n, cats[n].colls[c].createdAt, id)
    ensures id in Unindexed(cats[n].colls[c])
    decreases n
  {
    var born := cats[n].colls[c].createdAt;
    if m == n - 1 {
      assert StepAt(cats, cmds, m);
      RunKeepsConsistent(cats, cmds, m);
      RunKeepsBornApart(cats, cmds, n);
      JustInterrupted(cats[m], cmds[m], cats[n], born, c, id);
    } else {
      assert KeptAt(cats, cmds, n - 1, born, id);
      WasThereBefore(cats, cmds, m, n, born, id);
      KeptInRun(cats, cmds, n - 1, born, c, id);
      InterruptedStaysUnindexed(cats, cmds, m, n - 1, NameBefore(cats[n - 1], cmds[n - 1], cats[n], c), id);
    }
  }

  lemma KeptInRun(cats: seq<Catalog>, cmds: seq<Command>, j: nat, born: nat, c: string, id: int)
    requires Run(cats, cmds) && j < |cmds| && KeptAt(cats, cmds, j, born, id)
    requires c in cats[j + 1].colls && cats[j + 1].colls[c].createdAt == born < cats[j].clock
    ensures var b := NameBefore(cats[j], cmds[j], cats[j + 1], c);
      && b in cats[j].colls && cats[j].colls[b].createdAt == born
      && (id in Unindexed(cats[j].colls[b]) ==> id in Unindexed(cats[j + 1].colls[c]))
  {
    assert StepAt(cats, cmds, j);
    RunKeepsConsistent(cats, cmds, j);
    RunKeepsBornApart(cats, cmds, j + 1);
    KeptSinceBefore(cats[j], cmds[j], cats[j + 1], born, c, id);
  }

  lemma JustInterrupted(cat: Catalog, cmd: Command, cat': Catalog, born: nat, c: string, id: int)
    requires Consistent(cat) && Step(cat, cmd, cat') && BornApart(cat') && InterruptedIn(cat, cmd, cat', born, id)
    requires c in cat'.colls && cat'.colls[c].createdAt == born
    ensures id in Unindexed(cat'.colls[c])
  {
    var c0 :| c0 in cat.colls && Interrupted(cat, cmd, cat', c0, id) && cat.colls[c0].createdAt == born;
    StepKeepsBirths(cat, cmd, cat', c0);
    StepUnindexed(cat, cmd, cat', c0, id);
  }

  lemma KeptSinceBefore(cat: Catalog, cmd: Command, cat': Catalog, born: nat, c: string, id: int)
    requires Consistent(cat) && Step(cat, cmd, cat') && BornApart(cat') && Kept(cat, cmd, cat', born, id)
    requires c in cat'.colls && cat'.colls[c].createdAt == born < cat.clock
    ensures var b := NameBefore(cat, cmd, cat', c);
      && b in cat.colls && cat.colls[b].createdAt == born
      && (id in Unindexed(cat.colls[b]) ==> id in Unindexed(cat'.colls[c]))
  {
    StepKeepsBirths(cat, cmd, cat', c);
    StepUnindexed(cat, cmd, cat', c, id);
  }

  lemma WasThereBefore(cats: seq<Catalog>, cmds: seq<Command>, m: nat, n: nat, born: nat, id: int)
    requires Run(cats, cmds) && m < n < |cats| && InterruptedIn(cats[m], cmds[m], cats[m + 1], born, id)
    ensures born < cats[n - 1].clock
  {
    RunKeepsConsistent(cats, cmds, m);
    ClockGoesOn(cats, cmds, m, n - 1);
  }

  /** Referential integrity over whole runs, exactly: it holds in every state if and only if every
      step with an effect was harmless. */
  lemma RunKeepsRefsIff(cats: seq<Catalog>, cmds: seq<Command>)
    requires Run(cats, cmds)
    ensures (forall n | 0 <= n < |cats| :: RefsHold(cats[n]))
            <==> forall n | 0 <= n < |cmds| :: cats[n + 1] == cats[n] || Harmless(cats[n], cmds[n])
  {
    if forall n | 0 <= n < |cats| :: RefsHold(cats[n]) {
      forall n | 0 <= n < |cmds| ensures cats[n + 1] == cats[n] || Harmless(cats[n], cmds[n]) {
        RunKeepsConsistent(cats, cmds, n);
        assert StepAt(cats, cmds, n);
        StepKeepsRefsIff(cats[n], cmds[n], cats[n + 1]);
      }
    }
    if forall n | 0 <= n < |cmds| :: cats[n + 1] == cats[n] || Harmless(cats[n], cmds[n]) {
      forall n | 0 <= n < |cats| ensures RefsHold(cats[n]) {
        HarmlessRun(cats, cmds, n);
      }
    }
  }

  lemma {:induction false} HarmlessRun(cats: seq<Catalog>, cmds: seq<Command>, n: nat)
    requires Run(cats, cmds) && n < |cats|
    requires forall m | 0 <= m < |cmds| :: cats[m + 1] == cats[m] || Harmless(cats[m], cmds[m])
    ensures RefsHold(cats[n])
  {
    if n > 0 {
      HarmlessRun(cats, cmds, n - 1);
      RunKeepsConsistent(cats, cmds, n - 1);
      assert StepAt(cats, cmds, n - 1);
      StepKeepsRefsIff(cats[n - 1], cmds[n - 1], cats[n]);
    }
  }

  /** Referential integrity in every state of a run that drops only collections that declare nothing
      and that no document refers into. */
  lemma {:induction false} RunKeepsIntegrity(cats: seq<Catalog>, cmds: seq<Command>, n: nat)
    requires Run(cats, cmds) && n < |cats|
    requires forall m | 0 <= m < |cmds| && cmds[m].Drop? :: Droppable(cats[m], cmds[m].name)
    ensures RefsHold(cats[n]) && OwnersRegistered(cats[n])
  {
    if n > 0 {
      RunKeepsIntegrity(cats, cmds, n - 1);
      RunKeepsConsistent(cats, cmds, n - 1);
      assert StepAt(cats, cmds, n - 1);
      StepKeepsHeld(cats[n - 1], cmds[n - 1], cats[n]);
    }
  }

  /** With drops of unmentioned collections only, declarations also stay between registered
      collections and point at older ones. */
  lemma {:induction false} RunKeepsClosed(cats: seq<Catalog>, cmds: seq<Command>, n: nat)
    requires Run(cats, cmds) && DropsUnreferenced(cats, cmds) && n < |cats|
    ensures Closed(cats[n])
  {
    if n > 0 {
      RunKeepsClosed(cats, cmds, n - 1);
      RunKeepsConsistent(cats, cmds, n - 1);
      assert StepAt(cats, cmds, n - 1);
      StepKeepsDeclared(cats[n - 1], cmds[n - 1], cats[n]);
      StepKeepsHeld(cats[n - 1], cmds[n - 1], cats[n]);
    }
  }

  /** Collection `a` declares a reference to collection `b`. */
  predicate RefersTo(cat: Catalog, a: string, b: string) {
    exists k | k in cat.refs :: k.coll == a && cat.refs[k].target == b
  }

  /** A walk along declared references. */
  ghost predicate RefPath(cat: Catalog, path: seq<string>) {
    forall j | 0 <= j < |path| - 1 :: RefersTo(cat, path[j], path[j + 1])
  }

  lemma {:induction false} PathGoesBackInTime(cat: Catalog, path: seq<string>, n: nat)
    requires RefsDeclared(cat) && RefPath(cat, path) && 0 < n < |path|
    ensures path[0] in cat.colls && path[n] in cat.colls
    ensures cat.colls[path[n]].createdAt < cat.colls[path[0]].createdAt
  {
    var j := n - 1;
    assert RefersTo(cat, path[j], path[j + 1]);
    if n > 1 {
      PathGoesBackInTime(cat, path, n - 1);
    }
  }

  /** No cycle of references, and in particular no self-reference, is ever reachable. */
  lemma ReferenceGraphAcyclic(cats: seq<Catalog>, cmds: seq<Command>, n: nat, path: seq<string>)
    requires Run(cats, cmds) && DropsUnreferenced(cats, cmds) && n < |cats|
    requires RefPath(cats[n], path) && |path| >= 2
    ensures path[0] != path[|path| - 1]
  {
    RunKeepsClosed(cats, cmds, n);
    PathGoesBackInTime(cats[n], path, |path| - 1);
  }

  /** Without the restriction on drops this fails from any state that has a reference: drop the
      declaring collection, rename the target into its name, and it refers to itself. */
  lemma DropThenRenameMakesSelfReference(cat: Catalog, k: RefKey)
    requires k in cat.refs && k.coll in cat.colls && IsName(k.coll)
    requires cat.refs[k].target in cat.colls && cat.refs[k].target != k.coll
    requires forall d | d in cat.refs :: d.coll != cat.refs[k].target
    ensures var (a, b, dropped) := (k.coll, cat.refs[k].target, Dropped(cat, k.coll));
      && Step(cat, Drop(a), dropped)
      && b in dropped.colls && Step(dropped, Rename(b, a), Renamed(dropped, b, a))
      && RefersTo(Renamed(dropped, b, a), a, a)
  {
  }
}
