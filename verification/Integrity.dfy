/** What every run of the store keeps: local consistency of each collection, and, as long as
    only unreferenced collections are dropped, referential integrity and an acyclic
    reference graph. */
module Integrity {
  import opened Documents
  import opened Catalogs

  // ---------------------------------------------------------------- the invariants

  /** Ids stay at or below the counter, the index is a sub-map of the documents, and only
      vector collections have texts. */
  ghost predicate CollSound(coll: Coll) {
    && coll.lastId >= 0
    && (forall i | i in coll.rows :: i <= coll.lastId && !coll.rows[i].data.Missing?)
    && coll.index.Keys <= coll.rows.Keys
    && (forall i | i in coll.index :: coll.index[i] == coll.rows[i].text)
    && (!coll.hasVector ==> coll.index == map[] && forall i | i in coll.rows :: coll.rows[i].text == "")
  }

  ghost predicate Sound(cat: Catalog) {
    forall c | c in cat.colls :: CollSound(cat.colls[c]) && cat.colls[c].createdAt < cat.clock
  }

  /** Every declaration joins two registered collections and points at the older one. */
  ghost predicate RefsDeclared(cat: Catalog) {
    forall k | k in cat.refs ::
      && k.coll in cat.colls && cat.refs[k].target in cat.colls
      && cat.colls[cat.refs[k].target].createdAt < cat.colls[k.coll].createdAt
  }

  /** Every reference field of every document is null or the id of a document of its target. */
  ghost predicate RefsHold(cat: Catalog) {
    forall c, i | c in cat.colls && i in cat.colls[c].rows :: DataValid(cat, c, cat.colls[c].rows[i].data)
  }

  ghost predicate Closed(cat: Catalog) {
    RefsDeclared(cat) && RefsHold(cat)
  }

  /** Every declaration belongs to a registered collection. */
  ghost predicate OwnersRegistered(cat: Catalog) {
    forall k | k in cat.refs :: k.coll in cat.colls
  }

  /** The documents of a vector collection that full-text search cannot find. */
  function Unindexed(coll: Coll): set<int> {
    if coll.hasVector then coll.rows.Keys - coll.index.Keys else {}
  }

  /** Every vector document is indexed. */
  ghost predicate Indexed(cat: Catalog) {
    forall c | c in cat.colls && cat.colls[c].hasVector :: cat.colls[c].index.Keys == cat.colls[c].rows.Keys
  }

  lemma FullyIndexed(coll: Coll)
    requires CollSound(coll) && coll.hasVector
    ensures Unindexed(coll) == {} <==> coll.index.Keys == coll.rows.Keys
  {
    if Unindexed(coll) == {} {
      forall i | i in coll.rows ensures i in coll.index {
        assert i !in Unindexed(coll);
      }
    }
  }

  /** Every vector document has a text, as the handlers demand. */
  ghost predicate TextsGiven(cat: Catalog) {
    forall c, i | c in cat.colls && i in cat.colls[c].rows && cat.colls[c].hasVector :: cat.colls[c].rows[i].text != ""
  }

  // ---------------------------------------------------------------- validation depends on ids only

  /** Same declarations, and every document of `cat` is still there in `cat'`. */
  ghost predicate IdsGrow(cat: Catalog, cat': Catalog) {
    && cat.refs == cat'.refs
    && forall c | c in cat.colls :: c in cat'.colls && cat.colls[c].rows.Keys <= cat'.colls[c].rows.Keys
  }

  lemma DataValidGrows(cat: Catalog, cat': Catalog, c: string, data: Payload)
    requires IdsGrow(cat, cat') && DataValid(cat, c, data)
    ensures DataValid(cat', c, data)
  {
  }

  // ---------------------------------------------------------------- one collection

  lemma ChosenIdIsNew(coll: Coll, id: Option<int>)
    requires CollSound(coll)
    ensures ChooseId(coll, id).Ok? ==> ChooseId(coll, id).value !in coll.rows
  {
  }

  lemma InsertedSound(coll: Coll, id: int, text: string, data: Payload)
    requires CollSound(coll) && id !in coll.rows
    ensures CollSound(AddRow(coll, id, StoredRow(coll, text, data)))
    ensures CollSound(Inserted(coll, id, StoredRow(coll, text, data)))
  {
  }

  lemma ReplacedSound(coll: Coll, id: int, text: string, data: Payload)
    requires CollSound(coll) && id in coll.rows
    ensures CollSound(Replaced(coll, id, StoredRow(coll, text, data)))
  {
  }

  lemma NulledSound(coll: Coll, c: string, cells: set<Cell>)
    requires CollSound(coll)
    ensures CollSound(NulledColl(coll, c, cells))
  {
  }

  /** The documents a batch adds are those of its items. */
  ghost predicate RowOfBatch(coll: Coll, items: seq<Item>, row: Row) {
    exists j | 0 <= j < |items| :: row == StoredRow(coll, items[j].text, items[j].data)
  }

  ghost predicate SameShape(coll: Coll, coll': Coll) {
    coll.hasVector == coll'.hasVector && coll.dims == coll'.dims && coll.createdAt == coll'.createdAt
  }

  /** What a placed batch leaves: every old document, plus documents of the batch, all indexed. */
  ghost predicate Extended(coll: Coll, items: seq<Item>, coll': Coll) {
    && SameShape(coll, coll') && CollSound(coll') && coll.rows.Keys <= coll'.rows.Keys
    && (forall i | i in coll.rows :: coll'.rows[i] == coll.rows[i])
    && (forall i | i in coll'.rows && i !in coll.rows :: RowOfBatch(coll, items, coll'.rows[i]))
    && Unindexed(coll') == Unindexed(coll)
  }

  lemma {:induction false} PlaceAllExtends(coll: Coll, items: seq<Item>)
    requires CollSound(coll)
    ensures PlaceAll(coll, items).Ok? ==>
      |PlaceAll(coll, items).value.0| == |items| && Extended(coll, items, PlaceAll(coll, items).value.1)
    decreases |items|
  {
    if |items| == 0 || PlaceAll(coll, items).Err? { return; }
    var init, item := items[..|items|-1], items[|items|-1];
    PlaceAllExtends(coll, init);
    var before, coll' := PlaceAll(coll, init).value.1, PlaceAll(coll, items).value.1;
    var i := ChooseId(before, item.id).value;
    ChosenIdIsNew(before, item.id);
    InsertedSound(before, i, item.text, item.data);
    forall n | n in coll'.rows && n !in coll.rows ensures RowOfBatch(coll, items, coll'.rows[n]) {
      if n == i {
        assert coll'.rows[n] == StoredRow(coll, items[|items|-1].text, items[|items|-1].data);
      } else {
        var j :| 0 <= j < |init| && coll'.rows[n] == StoredRow(coll, init[j].text, init[j].data);
        assert items[j] == init[j];
      }
    }
  }

  // ---------------------------------------------------------------- one operation

  /** Rewriting one collection keeps integrity when no id goes away and every document is valid. */
  lemma WriteKeepsRefs(cat: Catalog, c: string, coll': Coll)
    requires RefsHold(cat) && c in cat.colls && cat.colls[c].rows.Keys <= coll'.rows.Keys
    requires forall i | i in coll'.rows :: DataValid(cat, c, coll'.rows[i].data)
    ensures RefsHold(SetColl(cat, c, coll'))
  {
  }

  lemma StoredIsValid(cat: Catalog, c: string, data: Payload)
    requires DataValid(cat, c, data)
    ensures DataValid(cat, c, Stored(data))
  {
  }

  lemma NulledFieldOf(data: Payload, c: string, id: int, cells: set<Cell>, f: string)
    ensures Field(NulledData(data, c, id, cells), f) == if Cell(c, id, f) in cells then JNull else Field(data, f)
  {
  }

  /** Nulling any cells whatever keeps integrity. */
  lemma NulledKeepsRefs(cat: Catalog, cells: set<Cell>)
    requires RefsHold(cat)
    ensures RefsHold(Nulled(cat, cells))
  {
  }

  lemma NulledKeepsSound(cat: Catalog, cells: set<Cell>)
    requires Sound(cat)
    ensures Sound(Nulled(cat, cells))
    ensures Indexed(cat) ==> Indexed(Nulled(cat, cells))
    ensures TextsGiven(cat) ==> TextsGiven(Nulled(cat, cells))
  {
    var cat' := Nulled(cat, cells);
    forall c | c in cat'.colls ensures CollSound(cat'.colls[c]) {
      NulledSound(cat.colls[c], c, cells);
    }
    if Indexed(cat) {
      forall c | c in cat'.colls && cat'.colls[c].hasVector
        ensures cat'.colls[c].index.Keys == cat'.colls[c].rows.Keys
      {
        assert cat.colls[c].index.Keys == cat.colls[c].rows.Keys;
      }
    }
  }

  /** After the cascade no reference field of any document holds the id any more. */
  lemma CascadeLeavesNoReference(cat: Catalog, c: string, id: int, k: RefKey, i: int)
    requires !Blocked(cat, c, id)
    requires k in cat.refs && cat.refs[k].target == c && k.coll in cat.colls && i in cat.colls[k.coll].rows
    ensures !MatchesId(Field(Nulled(cat, SetNullCells(cat, c, id)).colls[k.coll].rows[i].data, k.field), id)
  {
    var data := cat.colls[k.coll].rows[i].data;
    NulledFieldOf(data, k.coll, i, SetNullCells(cat, c, id), k.field);
    if MatchesId(Field(data, k.field), id) {
      var keys := Dependents(cat, c, cat.refs[k].onDelete);
      assert Cell(k.coll, i, k.field) in CellsOf(cat, keys, id);
    }
  }

  lemma RemoveKeepsRefs(cat: Catalog, c: string, id: int)
    requires RefsHold(cat) && c in cat.colls
    requires forall k, i | k in cat.refs && cat.refs[k].target == c && k.coll in cat.colls && i in cat.colls[k.coll].rows ::
               !MatchesId(Field(cat.colls[k.coll].rows[i].data, k.field), id)
    ensures RefsHold(RemoveDoc(cat, c, id))
  {
  }

  lemma CascadeKeepsRefs(cat: Catalog, c: string, id: int)
    requires RefsHold(cat) && c in cat.colls && !Blocked(cat, c, id)
    ensures RefsHold(RemoveDoc(Nulled(cat, SetNullCells(cat, c, id)), c, id))
  {
    var mid := Nulled(cat, SetNullCells(cat, c, id));
    NulledKeepsRefs(cat, SetNullCells(cat, c, id));
    forall k, i | k in mid.refs && mid.refs[k].target == c && k.coll in mid.colls && i in mid.colls[k.coll].rows
      ensures !MatchesId(Field(mid.colls[k.coll].rows[i].data, k.field), id)
    {
      CascadeLeavesNoReference(cat, c, id, k, i);
    }
    RemoveKeepsRefs(mid, c, id);
  }

  lemma CreatedKeepsSound(cat: Catalog, name: string, hasVector: bool, dims: int, specs: map<string, RefSpec>)
    requires Sound(cat) && CreateAllowed(cat, name, hasVector, dims, specs)
    ensures Sound(Created(cat, name, hasVector, dims, specs))
    ensures Indexed(cat) ==> Indexed(Created(cat, name, hasVector, dims, specs))
    ensures TextsGiven(cat) ==> TextsGiven(Created(cat, name, hasVector, dims, specs))
  {
  }

  /** A new collection keeps integrity: no document has the new declarations, and a value in a
      field declared to point at the new name was null before. */
  lemma CreatedKeepsRefs(cat: Catalog, name: string, hasVector: bool, dims: int, specs: map<string, RefSpec>)
    requires RefsHold(cat) && CreateAllowed(cat, name, hasVector, dims, specs)
    ensures RefsHold(Created(cat, name, hasVector, dims, specs))
  {
    var cat' := Created(cat, name, hasVector, dims, specs);
    forall d, i | d in cat'.colls && i in cat'.colls[d].rows
      ensures DataValid(cat', d, cat'.colls[d].rows[i].data)
    {
      DataValidElsewhere(cat, cat', d, cat.colls[d].rows[i].data);
    }
  }

  lemma CreatedRefsDeclared(cat: Catalog, name: string, hasVector: bool, dims: int, specs: map<string, RefSpec>)
    requires Sound(cat) && RefsDeclared(cat) && CreateAllowed(cat, name, hasVector, dims, specs)
    ensures RefsDeclared(Created(cat, name, hasVector, dims, specs))
  {
    var cat' := Created(cat, name, hasVector, dims, specs);
    forall k | k in cat'.refs
      ensures k.coll in cat'.colls && cat'.refs[k].target in cat'.colls
      ensures cat'.colls[cat'.refs[k].target].createdAt < cat'.colls[k.coll].createdAt
    {
      if k in Declared(name, specs) {
        assert cat'.refs[k].target == specs[k.field].target;
      }
    }
  }

  /** Declarations of other collections do not matter. */
  lemma DataValidElsewhere(cat: Catalog, cat': Catalog, c: string, data: Payload)
    requires DataValid(cat, c, data)
    requires forall k | k in cat'.refs && k.coll == c :: k in cat.refs && cat'.refs[k] == cat.refs[k]
    requires forall d | d in cat.colls :: d in cat'.colls && cat.colls[d].rows.Keys <= cat'.colls[d].rows.Keys
    ensures DataValid(cat', c, data)
  {
  }

  /** The declaration that a rename moved to `k`. */
  function Origin(refs: map<RefKey, RefDecl>, oldName: string, newName: string, k: RefKey): RefKey {
    if k.coll == newName && RefKey(oldName, k.field) in refs then RefKey(oldName, k.field) else k
  }

  lemma RenamedRefsOrigin(refs: map<RefKey, RefDecl>, oldName: string, newName: string, k: RefKey)
    requires k in RenamedRefs(refs, oldName, newName)
    ensures var o := Origin(refs, oldName, newName, k);
      && o in refs && k == RefKey(Substitute(o.coll, oldName, newName), o.field)
      && RenamedRefs(refs, oldName, newName)[k]
         == RefDecl(Substitute(refs[o].target, oldName, newName), refs[o].onDelete)
  {
  }

  lemma RenamedColl(cat: Catalog, oldName: string, newName: string, c: string)
    requires c in cat.colls && oldName in cat.colls && (oldName == newName || newName !in cat.colls)
    ensures var d := Substitute(c, oldName, newName);
      d in Renamed(cat, oldName, newName).colls && Renamed(cat, oldName, newName).colls[d] == cat.colls[c]
  {
  }

  lemma RenamedKeepsSound(cat: Catalog, oldName: string, newName: string)
    requires Sound(cat) && RenameAllowed(cat, oldName, newName)
    ensures Sound(Renamed(cat, oldName, newName))
    ensures Indexed(cat) ==> Indexed(Renamed(cat, oldName, newName))
    ensures TextsGiven(cat) ==> TextsGiven(Renamed(cat, oldName, newName))
  {
  }

  lemma RenamedRefsDeclared(cat: Catalog, oldName: string, newName: string)
    requires RefsDeclared(cat) && RenameAllowed(cat, oldName, newName)
    ensures RefsDeclared(Renamed(cat, oldName, newName))
  {
    var cat' := Renamed(cat, oldName, newName);
    forall k | k in cat'.refs
      ensures k.coll in cat'.colls && cat'.refs[k].target in cat'.colls
      ensures cat'.colls[cat'.refs[k].target].createdAt < cat'.colls[k.coll].createdAt
    {
      RenamedRefsOrigin(cat.refs, oldName, newName, k);
      var o := Origin(cat.refs, oldName, newName, k);
      RenamedColl(cat, oldName, newName, o.coll);
      RenamedColl(cat, oldName, newName, cat.refs[o].target);
    }
  }

  /** A declaration keeps its place under a rename, unless a rename moves another one there. */
  lemma RenamedKey(cat: Catalog, oldName: string, newName: string, k: RefKey)
    requires RenameAllowed(cat, oldName, newName) && k in cat.refs
    ensures var k' := RefKey(Substitute(k.coll, oldName, newName), k.field);
      k' in RenamedRefs(cat.refs, oldName, newName)
      && RenamedRefs(cat.refs, oldName, newName)[k'] == RefDecl(Substitute(cat.refs[k].target, oldName, newName), cat.refs[k].onDelete)
  {
    var k' := RefKey(Substitute(k.coll, oldName, newName), k.field);
    assert k' in RenamedOwners(cat.refs, oldName, newName);
    RenamedRefsOrigin(cat.refs, oldName, newName, k');
  }

  lemma RenamedTargetIds(cat: Catalog, oldName: string, newName: string, target: string, v: Json)
    requires RenameAllowed(cat, oldName, newName)
    ensures RefFieldValid(cat, target, v) ==> RefFieldValid(Renamed(cat, oldName, newName), Substitute(target, oldName, newName), v)
    ensures oldName == newName || target != newName ==>
      (RefFieldValid(Renamed(cat, oldName, newName), Substitute(target, oldName, newName), v) <==> RefFieldValid(cat, target, v))
  {
  }

  /** The data of a document of `oldName` satisfies the declarations left behind under `newName`. */
  ghost predicate LeftoversAccept(cat: Catalog, oldName: string, newName: string, data: Payload)
    requires oldName in cat.colls
  {
    forall k | k in cat.refs && k.coll == newName ::
      !data.NonObj? && RefFieldValid(Renamed(cat, oldName, newName), Substitute(cat.refs[k].target, oldName, newName), Field(data, k.field))
  }

  /** Valid data stays valid under a rename, except that the renamed collection comes under the
      declarations left behind under its new name. */
  lemma RenamedStaysValid(cat: Catalog, oldName: string, newName: string, c: string, data: Payload)
    requires RenameAllowed(cat, oldName, newName) && c in cat.colls && DataValid(cat, c, data)
    ensures DataValid(Renamed(cat, oldName, newName), Substitute(c, oldName, newName), data)
            <==> (c == oldName && oldName != newName ==> LeftoversAccept(cat, oldName, newName, data))
  {
    var cat', d := Renamed(cat, oldName, newName), Substitute(c, oldName, newName);
    if c == oldName && oldName != newName && DataValid(cat', d, data) {
      forall k | k in cat.refs && k.coll == newName
        ensures !data.NonObj? && RefFieldValid(cat', Substitute(cat.refs[k].target, oldName, newName), Field(data, k.field))
      {
        RenamedKey(cat, oldName, newName, k);
        assert k in cat'.refs && k.coll == d;
      }
    }
    if c == oldName && oldName != newName ==> LeftoversAccept(cat, oldName, newName, data) {
      forall k' | k' in cat'.refs && k'.coll == d
        ensures !data.NonObj? && RefFieldValid(cat', cat'.refs[k'].target, Field(data, k'.field))
      {
        RenamedRefsOrigin(cat.refs, oldName, newName, k');
        var o := Origin(cat.refs, oldName, newName, k');
        RenamedTargetIds(cat, oldName, newName, cat.refs[o].target, Field(data, k'.field));
        assert o.coll == c || (c == oldName && o.coll == newName);
      }
    }
  }

  ghost predicate RenameHarmless(cat: Catalog, oldName: string, newName: string)
    requires oldName in cat.colls
  {
    oldName == newName || forall i | i in cat.colls[oldName].rows :: LeftoversAccept(cat, oldName, newName, cat.colls[oldName].rows[i].data)
  }

  /** A rename keeps integrity exactly when the documents of the collection satisfy whatever
      declarations were left behind under its new name. */
  lemma RenameKeepsRefsIff(cat: Catalog, oldName: string, newName: string)
    requires RefsHold(cat) && RenameAllowed(cat, oldName, newName)
    ensures RefsHold(Renamed(cat, oldName, newName)) <==> RenameHarmless(cat, oldName, newName)
  {
    var cat' := Renamed(cat, oldName, newName);
    forall c, i | c in cat.colls && i in cat.colls[c].rows
      ensures var d := Substitute(c, oldName, newName); d in cat'.colls && cat'.colls[d] == cat.colls[c]
      ensures DataValid(cat', Substitute(c, oldName, newName), cat.colls[c].rows[i].data)
        <==> (c == oldName && oldName != newName ==> LeftoversAccept(cat, oldName, newName, cat.colls[c].rows[i].data))
    {
      RenamedColl(cat, oldName, newName, c);
      RenamedStaysValid(cat, oldName, newName, c, cat.colls[c].rows[i].data);
    }
    if RenameHarmless(cat, oldName, newName) {
      forall d, i | d in cat'.colls && i in cat'.colls[d].rows ensures DataValid(cat', d, cat'.colls[d].rows[i].data) {
        var c := if d == newName then oldName else d;
        assert c in cat.colls && Substitute(c, oldName, newName) == d && i in cat.colls[c].rows;
      }
    }
  }

  /** dropCollection leaves collection_references alone: it keeps integrity exactly when no
      document of another collection refers into the dropped one. */
  lemma DropKeepsRefsIff(cat: Catalog, name: string)
    requires RefsHold(cat)
    ensures RefsHold(Dropped(cat, name)) <==> !RefersInto(cat, name)
  {
    var cat' := Dropped(cat, name);
    if RefersInto(cat, name) {
      var k, i :| k in cat.refs && k.coll in cat.colls && i in cat.colls[k.coll].rows && cat.refs[k].target == name
        && k.coll != name && Field(cat.colls[k.coll].rows[i].data, k.field) != JNull;
      assert !RefFieldValid(cat', cat'.refs[k].target, Field(cat'.colls[k.coll].rows[i].data, k.field));
      assert !DataValid(cat', k.coll, cat'.colls[k.coll].rows[i].data);
    } else {
      forall c, i | c in cat'.colls && i in cat'.colls[c].rows ensures DataValid(cat', c, cat'.colls[c].rows[i].data) {
        assert DataValid(cat, c, cat.colls[c].rows[i].data);
      }
    }
  }

  /** No declaration is left behind under the new name, and if one points at it, the collection is
      still empty. */
  ghost predicate ValidationUnchanged(cat: Catalog, oldName: string, newName: string)
    requires oldName in cat.colls
  {
    oldName == newName || forall k | k in cat.refs ::
      && k.coll != newName
      && (cat.refs[k].target == newName && k.coll in cat.colls ==> cat.colls[oldName].rows == map[])
  }

  /** Then, and in particular when no declaration mentions the new name, a renamed collection
      accepts exactly the data it accepted before. */
  lemma RenamedDataValid(cat: Catalog, oldName: string, newName: string, c: string, data: Payload)
    requires RenameAllowed(cat, oldName, newName) && ValidationUnchanged(cat, oldName, newName) && c in cat.colls
    ensures DataValid(Renamed(cat, oldName, newName), Substitute(c, oldName, newName), data) <==> DataValid(cat, c, data)
  {
    var cat', d := Renamed(cat, oldName, newName), Substitute(c, oldName, newName);
    if DataValid(cat, c, data) {
      RenamedStaysValid(cat, oldName, newName, c, data);
    }
    if DataValid(cat', d, data) {
      forall k | k in cat.refs && k.coll == c ensures !data.NonObj? && RefFieldValid(cat, cat.refs[k].target, Field(data, k.field)) {
        RenamedKey(cat, oldName, newName, k);
        RenamedTargetIds(cat, oldName, newName, cat.refs[k].target, Field(data, k.field));
        RenamedColl(cat, oldName, newName, oldName);
        assert RefKey(d, k.field) in cat'.refs;
      }
    }
  }

  // ---------------------------------------------------------------- what full-text search finds

  /** The index joined with the documents, for a full-text query that `matches` stands for. */
  function FoundByText(coll: Coll, matches: string -> bool): set<int> {
    set i | i in coll.index && matches(coll.index[i]) && i in coll.rows
  }

  function WithMatchingText(coll: Coll, matches: string -> bool): set<int> {
    set i | i in coll.rows && matches(coll.rows[i].text)
  }

  lemma FoundMatches(coll: Coll, matches: string -> bool)
    requires CollSound(coll)
    ensures FoundByText(coll, matches) <= WithMatchingText(coll, matches)
    ensures coll.index.Keys == coll.rows.Keys ==> FoundByText(coll, matches) == WithMatchingText(coll, matches)
  {
    forall i | i in FoundByText(coll, matches) ensures i in WithMatchingText(coll, matches) {
      assert coll.index[i] == coll.rows[i].text;
    }
    if coll.index.Keys == coll.rows.Keys {
      forall i | i in WithMatchingText(coll, matches) ensures i in FoundByText(coll, matches) {
        assert i in coll.index.Keys;
        assert coll.index[i] == coll.rows[i].text;
      }
    }
  }

  /** A full-text query never finds a document whose own text does not match, and every query
      finds all that do exactly when every document is indexed. */
  lemma FullTextIsFaithfulIff(coll: Coll)
    requires CollSound(coll)
    ensures forall matches: string -> bool :: FoundByText(coll, matches) <= WithMatchingText(coll, matches)
    ensures (forall matches: string -> bool :: FoundByText(coll, matches) == WithMatchingText(coll, matches))
            <==> coll.index.Keys == coll.rows.Keys
  {
    forall matches: string -> bool
      ensures FoundByText(coll, matches) <= WithMatchingText(coll, matches)
      ensures coll.index.Keys == coll.rows.Keys ==> FoundByText(coll, matches) == WithMatchingText(coll, matches)
    {
      FoundMatches(coll, matches);
    }
    var any := (text: string) => true;
    if FoundByText(coll, any) == WithMatchingText(coll, any) {
      forall i | i in coll.rows ensures i in coll.index {
        assert i in WithMatchingText(coll, any);
      }
    }
  }
}
