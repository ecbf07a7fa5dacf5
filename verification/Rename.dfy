/** renameCollection to a name that no declaration mentions is an isomorphism: every operation on
    the renamed store gives the verdict it gave before and leaves the renamed result; renaming back
    restores the store, and does so for no other name. */
module Renames {
  import opened Documents
  import opened Catalogs
  import opened Integrity
  import opened Runs

  /** Renaming does not disturb the documents of any collection: get and list read the same rows. */
  lemma RenamedSetColl(cat: Catalog, oldName: string, newName: string, c: string, coll: Coll)
    requires c in cat.colls && RenameAllowed(cat, oldName, newName)
    ensures Renamed(SetColl(cat, c, coll), oldName, newName)
            == SetColl(Renamed(cat, oldName, newName), Substitute(c, oldName, newName), coll)
  {
  }

  lemma InsertCommutes(cat: Catalog, oldName: string, newName: string, c: string, item: Item)
    requires RenameAllowed(cat, oldName, newName) && ValidationUnchanged(cat, oldName, newName) && c in cat.colls
    ensures var (r, cat') := InsertSpec(cat, c, item);
      && Substitute(c, oldName, newName) in Renamed(cat, oldName, newName).colls
      && InsertSpec(Renamed(cat, oldName, newName), Substitute(c, oldName, newName), item)
         == (r, Renamed(cat', oldName, newName))
  {
    RenamedColl(cat, oldName, newName, c);
    RenamedDataValid(cat, oldName, newName, c, item.data);
    if InsertSpec(cat, c, item).0.Ok? {
      RenamedSetColl(cat, oldName, newName, c, InsertSpec(cat, c, item).1.colls[c]);
    }
  }

  lemma BulkCommutes(cat: Catalog, oldName: string, newName: string, c: string, items: seq<Item>)
    requires RenameAllowed(cat, oldName, newName) && ValidationUnchanged(cat, oldName, newName) && c in cat.colls
    ensures var (r, cat') := BulkSpec(cat, c, items);
      && Substitute(c, oldName, newName) in Renamed(cat, oldName, newName).colls
      && BulkSpec(Renamed(cat, oldName, newName), Substitute(c, oldName, newName), items)
         == (r, Renamed(cat', oldName, newName))
  {
    RenamedColl(cat, oldName, newName, c);
    forall j | 0 <= j < |items|
      ensures DataValid(Renamed(cat, oldName, newName), Substitute(c, oldName, newName), items[j].data)
              <==> DataValid(cat, c, items[j].data)
    {
      RenamedDataValid(cat, oldName, newName, c, items[j].data);
    }
    if BulkSpec(cat, c, items).0.Ok? {
      RenamedSetColl(cat, oldName, newName, c, BulkSpec(cat, c, items).1.colls[c]);
    }
  }

  lemma UpdateCommutes(cat: Catalog, oldName: string, newName: string, c: string, id: int, text: string, data: Payload)
    requires RenameAllowed(cat, oldName, newName) && ValidationUnchanged(cat, oldName, newName) && c in cat.colls
    ensures var (r, cat') := UpdateSpec(cat, c, id, text, data);
      && Substitute(c, oldName, newName) in Renamed(cat, oldName, newName).colls
      && UpdateSpec(Renamed(cat, oldName, newName), Substitute(c, oldName, newName), id, text, data)
         == (r, Renamed(cat', oldName, newName))
  {
    RenamedColl(cat, oldName, newName, c);
    RenamedDataValid(cat, oldName, newName, c, data);
    if UpdateSpec(cat, c, id, text, data).0 == Ok(true) {
      RenamedSetColl(cat, oldName, newName, c, UpdateSpec(cat, c, id, text, data).1.colls[c]);
    }
  }

  // ---------------------------------------------------------------- delete

  function RenamedCells(cells: set<Cell>, oldName: string, newName: string): set<Cell> {
    set m | m in cells :: Cell(Substitute(m.coll, oldName, newName), m.id, m.field)
  }

  /** Every restrict and set_null effect of a delete is the same on the renamed store. */
  lemma RenamedCellsOf(cat: Catalog, oldName: string, newName: string, c: string, id: int, onDelete: OnDelete)
    requires RenameAllowed(cat, oldName, newName) && Fresh(cat, oldName, newName) && c in cat.colls
    ensures var cat' := Renamed(cat, oldName, newName);
      CellsOf(cat', Dependents(cat', Substitute(c, oldName, newName), onDelete), id)
      == RenamedCells(CellsOf(cat, Dependents(cat, c, onDelete), id), oldName, newName)
  {
    var cat', d := Renamed(cat, oldName, newName), Substitute(c, oldName, newName);
    var here, there := CellsOf(cat, Dependents(cat, c, onDelete), id), CellsOf(cat', Dependents(cat', d, onDelete), id);
    forall m | m in there ensures m in RenamedCells(here, oldName, newName) {
      var k := RefKey(m.coll, m.field);
      RenamedRefsOrigin(cat.refs, oldName, newName, k);
      var o := Origin(cat.refs, oldName, newName, k);
      RenamedColl(cat, oldName, newName, o.coll);
      assert Cell(o.coll, m.id, o.field) in here;
    }
    forall m | m in here
      ensures Cell(Substitute(m.coll, oldName, newName), m.id, m.field) in there
    {
      var o := RefKey(m.coll, m.field);
      var k := RefKey(Substitute(m.coll, oldName, newName), m.field);
      assert k in cat'.refs;
      RenamedRefsOrigin(cat.refs, oldName, newName, k);
      RenamedColl(cat, oldName, newName, o.coll);
      assert k in Dependents(cat', d, onDelete);
    }
  }

  lemma NulledCollDependsOnCells(coll: Coll, c: string, cells: set<Cell>, d: string, cells': set<Cell>)
    requires forall i, f :: Cell(c, i, f) in cells <==> Cell(d, i, f) in cells'
    ensures NulledColl(coll, c, cells) == NulledColl(coll, d, cells')
  {
    forall i | i in coll.rows
      ensures NulledData(coll.rows[i].data, c, i, cells) == NulledData(coll.rows[i].data, d, i, cells')
    {
    }
    assert NulledRows(coll.rows, c, cells) == NulledRows(coll.rows, d, cells');
    forall i ensures i in TouchedIds(c, cells) <==> i in TouchedIds(d, cells') {
      if i in TouchedIds(c, cells) {
        var m :| m in cells && m.coll == c && m.id == i;
        assert Cell(d, i, m.field) in cells';
      }
      if i in TouchedIds(d, cells') {
        var m :| m in cells' && m.coll == d && m.id == i;
        assert Cell(c, i, m.field) in cells;
      }
    }
    assert TouchedIds(c, cells) == TouchedIds(d, cells');
  }

  lemma RenamedNulled(cat: Catalog, oldName: string, newName: string, cells: set<Cell>)
    requires RenameAllowed(cat, oldName, newName) && forall m | m in cells :: m.coll in cat.colls
    ensures Renamed(Nulled(cat, cells), oldName, newName)
            == Nulled(Renamed(cat, oldName, newName), RenamedCells(cells, oldName, newName))
  {
    var left, right := Renamed(Nulled(cat, cells), oldName, newName), Nulled(Renamed(cat, oldName, newName), RenamedCells(cells, oldName, newName));
    forall n | n in right.colls ensures n in left.colls && left.colls[n] == right.colls[n] {
      RenamedNulledAt(cat, oldName, newName, cells, if n == newName then oldName else n);
    }
    assert left.colls == right.colls;
  }

  lemma RenamedNulledAt(cat: Catalog, oldName: string, newName: string, cells: set<Cell>, c: string)
    requires RenameAllowed(cat, oldName, newName) && c in cat.colls && forall m | m in cells :: m.coll in cat.colls
    ensures var d := Substitute(c, oldName, newName);
      && d in Renamed(Nulled(cat, cells), oldName, newName).colls && d in Renamed(cat, oldName, newName).colls
      && Renamed(Nulled(cat, cells), oldName, newName).colls[d]
         == Nulled(Renamed(cat, oldName, newName), RenamedCells(cells, oldName, newName)).colls[d]
  {
    var d := Substitute(c, oldName, newName);
    RenamedCellsAt(cat, oldName, newName, cells, c);
    RenamedColl(cat, oldName, newName, c);
    RenamedColl(Nulled(cat, cells), oldName, newName, c);
    NulledCollDependsOnCells(cat.colls[c], c, cells, d, RenamedCells(cells, oldName, newName));
  }

  lemma RenamedCellsAt(cat: Catalog, oldName: string, newName: string, cells: set<Cell>, c: string)
    requires RenameAllowed(cat, oldName, newName) && c in cat.colls && forall m | m in cells :: m.coll in cat.colls
    ensures forall i, f ::
      Cell(c, i, f) in cells <==> Cell(Substitute(c, oldName, newName), i, f) in RenamedCells(cells, oldName, newName)
  {
  }

  lemma DeleteCommutes(cat: Catalog, oldName: string, newName: string, c: string, id: int)
    requires RenameAllowed(cat, oldName, newName) && Fresh(cat, oldName, newName) && c in cat.colls
    ensures var (r, cat') := DeleteSpec(cat, c, id);
      && Substitute(c, oldName, newName) in Renamed(cat, oldName, newName).colls
      && DeleteSpec(Renamed(cat, oldName, newName), Substitute(c, oldName, newName), id)
         == (r, Renamed(cat', oldName, newName))
  {
    var d := Substitute(c, oldName, newName);
    RenamedColl(cat, oldName, newName, c);
    RenamedCellsOf(cat, oldName, newName, c, id, Restrict);
    RenamedCellsOf(cat, oldName, newName, c, id, SetNull);
    var blocking := CellsOf(cat, Dependents(cat, c, Restrict), id);
    assert forall m | m in blocking :: Cell(Substitute(m.coll, oldName, newName), m.id, m.field) in RenamedCells(blocking, oldName, newName);
    assert blocking == {} <==> RenamedCells(blocking, oldName, newName) == {};
    if DeleteSpec(cat, c, id).0 == Ok(true) {
      var cells := SetNullCells(cat, c, id);
      var mid := Nulled(cat, cells);
      RenamedNulled(cat, oldName, newName, cells);
      RenamedColl(mid, oldName, newName, c);
      RenamedSetColl(mid, oldName, newName, c, RemoveDoc(mid, c, id).colls[c]);
    }
  }

  // ---------------------------------------------------------------- there and back

  lemma RenameBackColls<V>(colls: map<string, V>, oldName: string, newName: string)
    requires oldName in colls && (oldName == newName || newName !in colls)
    ensures RenamedColls(RenamedColls(colls, oldName, newName), newName, oldName) == colls
  {
  }

  lemma OriginalIsBack(refs: map<RefKey, RefDecl>, there: map<RefKey, RefDecl>, oldName: string, newName: string, k: RefKey)
    requires oldName == newName || forall k0 | k0 in refs :: k0.coll != newName && refs[k0].target != newName
    requires there == RenamedRefs(refs, oldName, newName) && k in refs
    ensures k in RenamedRefs(there, newName, oldName)
  {
  }

  lemma BackWithin(refs: map<RefKey, RefDecl>, there: map<RefKey, RefDecl>, oldName: string, newName: string)
    requires oldName == newName || forall k | k in refs :: k.coll != newName && refs[k].target != newName
    requires there == RenamedRefs(refs, oldName, newName)
    ensures forall k | k in RenamedRefs(there, newName, oldName) :: k in refs && RenamedRefs(there, newName, oldName)[k] == refs[k]
  {
  }

  lemma BackCovers(refs: map<RefKey, RefDecl>, there: map<RefKey, RefDecl>, oldName: string, newName: string)
    requires oldName == newName || forall k | k in refs :: k.coll != newName && refs[k].target != newName
    requires there == RenamedRefs(refs, oldName, newName)
    ensures refs.Keys <= RenamedRefs(there, newName, oldName).Keys
  {
    forall k | k in refs ensures k in RenamedRefs(there, newName, oldName) {
      OriginalIsBack(refs, there, oldName, newName, k);
    }
  }

  lemma SameEntries(a: map<RefKey, RefDecl>, b: map<RefKey, RefDecl>)
    requires b.Keys <= a.Keys && forall k | k in a :: k in b && a[k] == b[k]
    ensures a == b
  {
  }

  lemma RestoredRefs(refs: map<RefKey, RefDecl>, oldName: string, newName: string)
    requires oldName == newName || forall k | k in refs :: k.coll != newName && refs[k].target != newName
    ensures RenamedRefs(RenamedRefs(refs, oldName, newName), newName, oldName) == refs
  {
    BackWithin(refs, RenamedRefs(refs, oldName, newName), oldName, newName);
    BackCovers(refs, RenamedRefs(refs, oldName, newName), oldName, newName);
    SameEntries(RenamedRefs(RenamedRefs(refs, oldName, newName), newName, oldName), refs);
  }

  /** After a rename no declaration mentions the old name. */
  lemma OldNameIsGone(refs: map<RefKey, RefDecl>, oldName: string, newName: string)
    requires oldName != newName
    ensures forall k | k in RenamedRefs(refs, oldName, newName) ::
      k.coll != oldName && RenamedRefs(refs, oldName, newName)[k].target != oldName
  {
    forall k | k in RenamedRefs(refs, oldName, newName)
      ensures k.coll != oldName && RenamedRefs(refs, oldName, newName)[k].target != oldName
    {
      RenamedRefsOrigin(refs, oldName, newName, k);
    }
  }

  /** Renaming back restores the store exactly when no declaration mentioned the new name. */
  lemma RenameBackIff(cat: Catalog, oldName: string, newName: string)
    requires RenameAllowed(cat, oldName, newName)
    ensures newName in Renamed(cat, oldName, newName).colls
    ensures Renamed(Renamed(cat, oldName, newName), newName, oldName) == cat <==> Fresh(cat, oldName, newName)
    ensures Fresh(cat, oldName, newName) && IsName(oldName) ==> RenameAllowed(Renamed(cat, oldName, newName), newName, oldName)
  {
    RenameBackColls(cat.colls, oldName, newName);
    if Fresh(cat, oldName, newName) {
      RestoredRefs(cat.refs, oldName, newName);
    }
    if oldName != newName {
      OldNameIsGone(cat.refs, oldName, newName);
      OldNameIsGone(RenamedRefs(cat.refs, oldName, newName), newName, oldName);
    }
  }

  // ---------------------------------------------------------------- declarations left behind

  /** A text in the field of a declaration left behind under the new name: accepted before the
      rename, refused after it. */
  lemma RefusedAfterRename(cat: Catalog, oldName: string, newName: string, k: RefKey) returns (item: Item)
    requires RenameAllowed(cat, oldName, newName) && oldName != newName && k in cat.refs && k.coll == newName
    ensures InsertSpec(cat, oldName, item).0.Ok? && item == Item(None, "text", Obj(map[k.field := JText("text")]))
    ensures newName in Renamed(cat, oldName, newName).colls
    ensures InsertSpec(Renamed(cat, oldName, newName), newName, item).0 == Err(BadReference)
  {
    var data := Obj(map[k.field := JText("text")]);
    item := Item(None, "text", data);
    assert DataValid(cat, oldName, data) by {
      forall d | d in cat.refs && d.coll == oldName ensures RefFieldValid(cat, cat.refs[d].target, Field(data, d.field)) {
        assert RefKey(newName, d.field) !in cat.refs;
        assert d.field != k.field by { assert k == RefKey(newName, k.field); }
      }
    }
    RenamedKey(cat, oldName, newName, k);
    var cat' := Renamed(cat, oldName, newName);
    assert k in cat'.refs && !RefFieldValid(cat', cat'.refs[k].target, Field(data, k.field));
  }

  /** The id of a document of the renamed collection, in a field that was left pointing at its new
      name: refused before the rename, accepted after it. */
  lemma AcceptedAfterRename(cat: Catalog, oldName: string, newName: string, k: RefKey, i: int)
    requires RenameAllowed(cat, oldName, newName) && oldName != newName && i in cat.colls[oldName].rows
    requires (forall d | d in cat.refs :: d.coll != newName) && k in cat.refs && k.coll in cat.colls && cat.refs[k].target == newName
    ensures var data := Obj(map[k.field := JInt(i)]);
      !DataValid(cat, k.coll, data) && DataValid(Renamed(cat, oldName, newName), Substitute(k.coll, oldName, newName), data)
  {
    var data, cat', d := Obj(map[k.field := JInt(i)]), Renamed(cat, oldName, newName), Substitute(k.coll, oldName, newName);
    assert !RefFieldValid(cat, cat.refs[k].target, Field(data, k.field));
    RenamedKey(cat, oldName, newName, k);
    RenamedColl(cat, oldName, newName, oldName);
    forall k' | k' in cat'.refs && k'.coll == d ensures RefFieldValid(cat', cat'.refs[k'].target, Field(data, k'.field)) {
      if k'.field == k.field { assert k' == RefKey(d, k.field); }
    }
  }

  ghost predicate SameVerdict(cat: Catalog, oldName: string, newName: string, c: string, data: Payload)
    requires oldName in cat.colls
  {
    DataValid(Renamed(cat, oldName, newName), Substitute(c, oldName, newName), data) <==> DataValid(cat, c, data)
  }

  lemma SomeVerdictDiffers(cat: Catalog, oldName: string, newName: string) returns (c: string, data: Payload)
    requires RenameAllowed(cat, oldName, newName) && !ValidationUnchanged(cat, oldName, newName)
    ensures c in cat.colls && !SameVerdict(cat, oldName, newName, c, data)
  {
    if k :| k in cat.refs && k.coll == newName {
      var item := RefusedAfterRename(cat, oldName, newName, k);
      return oldName, item.data;
    }
    var k :| k in cat.refs && cat.refs[k].target == newName && k.coll in cat.colls && cat.colls[oldName].rows != map[];
    var i := SomeKey(cat.colls[oldName].rows);
    AcceptedAfterRename(cat, oldName, newName, k, i);
    return k.coll, Obj(map[k.field := JInt(i)]);
  }

  /** Every collection accepts after the rename exactly the data it accepted before, if and only if
      nothing left behind gets in the way. */
  lemma RenamedDataValidIff(cat: Catalog, oldName: string, newName: string)
    requires RenameAllowed(cat, oldName, newName)
    ensures (forall c, data | c in cat.colls :: SameVerdict(cat, oldName, newName, c, data)) <==> ValidationUnchanged(cat, oldName, newName)
  {
    if ValidationUnchanged(cat, oldName, newName) {
      forall c, data | c in cat.colls ensures SameVerdict(cat, oldName, newName, c, data) {
        RenamedDataValid(cat, oldName, newName, c, data);
      }
    } else {
      var c, data := SomeVerdictDiffers(cat, oldName, newName);
    }
  }

  lemma SomeKey<K, V>(m: map<K, V>) returns (k: K)
    requires m != map[]
    ensures k in m
  {
    assert m.Keys != {};
    k :| k in m.Keys;
  }

  /** Every insert gives on the renamed store what it gave before, if and only if nothing left
      behind gets in the way. */
  lemma InsertsCommuteIff(cat: Catalog, oldName: string, newName: string)
    requires RenameAllowed(cat, oldName, newName)
    ensures (forall c, item | c in cat.colls :: InsertAgrees(cat, oldName, newName, c, item))
            <==> ValidationUnchanged(cat, oldName, newName)
  {
    if ValidationUnchanged(cat, oldName, newName) {
      forall c, item | c in cat.colls ensures InsertAgrees(cat, oldName, newName, c, item) {
        InsertCommutes(cat, oldName, newName, c, item);
      }
    } else {
      var c, data := SomeVerdictDiffers(cat, oldName, newName);
      VerdictDecidesInsert(cat, oldName, newName, c, Item(None, "text", data));
      assert !InsertAgrees(cat, oldName, newName, c, Item(None, "text", data));
    }
  }

  lemma VerdictDecidesInsert(cat: Catalog, oldName: string, newName: string, c: string, item: Item)
    requires RenameAllowed(cat, oldName, newName) && c in cat.colls && item.id.None?
    ensures InsertAgrees(cat, oldName, newName, c, item) ==> SameVerdict(cat, oldName, newName, c, item.data)
  {
  }

  ghost predicate InsertAgrees(cat: Catalog, oldName: string, newName: string, c: string, item: Item)
    requires oldName in cat.colls && c in cat.colls
  {
    var d := Substitute(c, oldName, newName);
    d in Renamed(cat, oldName, newName).colls
    && InsertSpec(Renamed(cat, oldName, newName), d, item)
       == (InsertSpec(cat, c, item).0, Renamed(InsertSpec(cat, c, item).1, oldName, newName))
  }

  /** Create `t`, create `b` that refers to it, drop `b`, create `a`: a declaration is left under
      `b`, and `a` may be renamed to it. */
  lemma LeftoverReached(t: string, a: string, b: string, field: string) returns (cat: Catalog)
    requires IsName(t) && IsName(a) && IsName(b) && IsName(field) && t != a && a != b && b != t
    ensures Reachable(cat, false) && RefsHold(cat) && RenameAllowed(cat, a, b) && RefKey(b, field) in cat.refs
    ensures cat.colls[a].rows == map[] && cat.colls[a].lastId == 0 && !cat.colls[a].hasVector
  {
    StartReachable(false);
    cat := CreatePlain(EMPTY, t, false);
    cat := CreateReferring(cat, RefKey(b, field), t, "restrict", false);
    StepReachable(cat, Drop(b), Dropped(cat, b), false);
    cat := CreatePlain(Dropped(cat, b), a, false);
  }

  /** A reachable rename after which an insert that was accepted is refused. */
  lemma RefusedAfterRenameReached(t: string, a: string, b: string, field: string) returns (cat: Catalog, item: Item)
    requires IsName(t) && IsName(a) && IsName(b) && IsName(field) && t != a && a != b && b != t
    ensures Reachable(cat, false) && RenameAllowed(cat, a, b) && b in Renamed(cat, a, b).colls
    ensures InsertSpec(cat, a, item).0.Ok? && InsertSpec(Renamed(cat, a, b), b, item).0 == Err(BadReference)
  {
    cat := LeftoverReached(t, a, b, field);
    item := RefusedAfterRename(cat, a, b, RefKey(b, field));
  }

  /** An insert that is accepted, as a step. */
  lemma InsertAccepted(cat: Catalog, c: string, item: Item) returns (cat': Catalog, i: int)
    requires Consistent(cat) && RefsHold(cat) && c in cat.colls && InsertSpec(cat, c, item).0.Ok? && item.text != ""
    ensures Step(cat, Insert(c, item), cat') && RefsHold(cat') && cat'.refs == cat.refs && cat'.colls.Keys == cat.colls.Keys
    ensures i in cat'.colls[c].rows && cat'.colls[c].rows[i].data == Stored(item.data)
  {
    cat' := InsertSpec(cat, c, item).1;
    i := InsertSpec(cat, c, item).0.value;
    assert InsertOutcome(cat, c, item, Ok(i), cat');
    InsertKeeps(cat, c, item, Ok(i), cat');
  }

  /** With a document that a declaration left behind does not accept, the rename breaks a reference. */
  lemma RenameBreaksReference(cat: Catalog, oldName: string, newName: string, k: RefKey, i: int)
    requires RefsHold(cat) && RenameAllowed(cat, oldName, newName) && oldName != newName && k in cat.refs && k.coll == newName
    requires i in cat.colls[oldName].rows && Field(cat.colls[oldName].rows[i].data, k.field).JText?
    ensures !RefsHold(Renamed(cat, oldName, newName))
  {
    RenameKeepsRefsIff(cat, oldName, newName);
    NotAcceptedByLeftover(cat, oldName, newName, k, cat.colls[oldName].rows[i].data);
  }

  lemma NotAcceptedByLeftover(cat: Catalog, oldName: string, newName: string, k: RefKey, data: Payload)
    requires oldName in cat.colls && k in cat.refs && k.coll == newName && Field(data, k.field).JText?
    ensures !LeftoversAccept(cat, oldName, newName, data)
  {
    assert !RefFieldValid(Renamed(cat, oldName, newName), Substitute(cat.refs[k].target, oldName, newName), Field(data, k.field));
  }

  lemma RenameBreaksReferenceReached(t: string, a: string, b: string, field: string) returns (cat: Catalog)
    requires IsName(t) && IsName(a) && IsName(b) && IsName(field) && t != a && a != b && b != t
    ensures Reachable(cat, false) && RefsHold(cat) && RenameAllowed(cat, a, b) && !RefsHold(Renamed(cat, a, b))
  {
    var before := LeftoverReached(t, a, b, field);
    ReachableIsConsistent(before, false);
    var item := RefusedAfterRename(before, a, b, RefKey(b, field));
    var i;
    cat, i := InsertAccepted(before, a, item);
    StepReachable(before, Insert(a, item), cat, false);
    RenameBreaksReference(cat, a, b, RefKey(b, field), i);
  }
}
