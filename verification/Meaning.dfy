/** What each operation leaves, written out document by document: the ids, the texts and the data,
    the index, the id counter, and everything that stays as it was. */
module Meanings {
  import opened Documents
  import opened Catalogs
  import opened Integrity
  import opened Runs
  import opened Cascade

  /** Nothing but the documents, the counter and the index of collection `c` differs. */
  ghost predicate OnlyIn(cat: Catalog, c: string, cat': Catalog)
    requires c in cat.colls
  {
    && cat'.refs == cat.refs && cat'.clock == cat.clock && cat'.colls.Keys == cat.colls.Keys
    && (forall d | d in cat.colls && d != c :: cat'.colls[d] == cat.colls[d])
    && cat'.colls[c].hasVector == cat.colls[c].hasVector && cat'.colls[c].dims == cat.colls[c].dims
    && cat'.colls[c].createdAt == cat.colls[c].createdAt
  }

  /** The document a request asks for: absent data is the empty object, and only vector collections
      keep a text. */
  ghost predicate IsStored(row: Row, hasVector: bool, text: string, data: Payload) {
    && row.text == (if hasVector then text else "")
    && row.data == (if data.Missing? then Obj(map[]) else data)
  }

  // ---------------------------------------------------------------- names and references

  /** A letter, then letters, digits and underscores, 63 characters at the most. */
  lemma IsNameIff(s: string)
    ensures IsName(s) <==>
      && 1 <= |s| <= 63 && ('a' <= s[0] <= 'z' || 'A' <= s[0] <= 'Z')
      && forall i | 0 <= i < |s| :: 'a' <= s[i] <= 'z' || 'A' <= s[i] <= 'Z' || '0' <= s[i] <= '9' || s[i] == '_'
  {
  }

  /** Data is valid when the collection declares nothing, or it is no scalar or list and each declared
      field is absent, null, or the integer id of a document of its target. */
  lemma DataValidIff(cat: Catalog, c: string, data: Payload)
    ensures DataValid(cat, c, data) <==> forall k | k in cat.refs && k.coll == c ::
      && !data.NonObj?
      && (data.Obj? && k.field in data.fields && data.fields[k.field] != JNull ==>
            && data.fields[k.field].JInt? && cat.refs[k].target in cat.colls
            && data.fields[k.field].n in cat.colls[cat.refs[k].target].rows)
  {
  }

  // ---------------------------------------------------------------- insert

  /** One document more, under the id asked for or one more than the counter, indexed in a vector
      collection. */
  lemma InsertMeaning(cat: Catalog, c: string, item: Item)
    requires c in cat.colls && InsertSpec(cat, c, item).0.Ok?
    ensures var (r, cat') := InsertSpec(cat, c, item);
      var i, coll, coll' := r.value, cat.colls[c], cat'.colls[c];
      && OnlyIn(cat, c, cat') && DataValid(cat, c, item.data)
      && i == (match item.id case Some(n) => n case None => coll.lastId + 1)
      && (item.id.Some? ==> i !in coll.rows)
      && coll'.rows.Keys == coll.rows.Keys + {i} && IsStored(coll'.rows[i], coll.hasVector, item.text, item.data)
      && (forall n | n in coll.rows && n != i :: coll'.rows[n] == coll.rows[n])
      && coll'.lastId == (if i > coll.lastId then i else coll.lastId)
      && coll'.index == if coll.hasVector then coll.index[i := item.text] else coll.index
  {
  }

  /** An insert is refused for invalid references, or because the id asked for is taken, and then
      changes nothing. */
  lemma InsertRefusedIff(cat: Catalog, c: string, item: Item)
    requires c in cat.colls
    ensures var (r, cat') := InsertSpec(cat, c, item);
      && (r.Err? <==> !DataValid(cat, c, item.data) || (item.id.Some? && item.id.value in cat.colls[c].rows))
      && (r == Err(BadReference) <==> !DataValid(cat, c, item.data))
      && (r.Err? ==> cat' == cat && (r.error == BadReference || r.error == Rejected))
  {
  }

  /** An insert stopped between its commits leaves all of that but the index entry. */
  lemma InterruptedInsertMeaning(cat: Catalog, c: string, item: Item, cat': Catalog)
    requires InsertedUnindexed(cat, c, item, cat')
    ensures var full := InsertSpec(cat, c, item).1;
      && InsertSpec(cat, c, item).0.Ok? && OnlyIn(cat, c, cat') && cat.colls[c].hasVector
      && cat'.colls[c].rows == full.colls[c].rows && cat'.colls[c].lastId == full.colls[c].lastId
      && cat'.colls[c].index == cat.colls[c].index
  {
  }

  /** A batch is refused for an item with invalid references, before any is inserted, or because an
      id it asks for is taken when its turn comes; then nothing changes. */
  lemma BulkRefusedIff(cat: Catalog, c: string, items: seq<Item>)
    requires c in cat.colls
    ensures var (r, cat') := BulkSpec(cat, c, items);
      && (r == Err(BadReference) <==> exists j | 0 <= j < |items| :: !DataValid(cat, c, items[j].data))
      && (r == Err(Rejected) <==> (forall j | 0 <= j < |items| :: DataValid(cat, c, items[j].data)) && PlaceAll(cat.colls[c], items).Err?)
      && (r.Err? ==> cat' == cat) && (r.Ok? ==> OnlyIn(cat, c, cat') && |r.value| == |items|)
  {
    PlacedShape(cat.colls[c], items);
  }

  lemma {:induction false} PlacedShape(coll: Coll, items: seq<Item>)
    ensures match PlaceAll(coll, items)
      case Err(e) => e == Rejected
      case Ok((ids, coll')) => |ids| == |items| && SameShape(coll, coll')
    decreases |items|
  {
    if |items| > 0 { PlacedShape(coll, items[..|items|-1]); }
  }

  // ---------------------------------------------------------------- update

  /** The whole document is replaced: no field of the old data survives, and nothing else changes
      but its index entry. */
  lemma UpdateMeaning(cat: Catalog, c: string, id: int, text: string, data: Payload)
    requires c in cat.colls && UpdateSpec(cat, c, id, text, data).0 == Ok(true)
    ensures var cat' := UpdateSpec(cat, c, id, text, data).1;
      var coll, coll' := cat.colls[c], cat'.colls[c];
      && OnlyIn(cat, c, cat') && DataValid(cat, c, data) && id in coll.rows
      && coll'.rows.Keys == coll.rows.Keys && coll'.lastId == coll.lastId
      && coll'.rows[id].data == (if data.Missing? then Obj(map[]) else data)
      && coll'.rows[id].text == (if coll.hasVector then text else "")
      && (forall n | n in coll.rows && n != id :: coll'.rows[n] == coll.rows[n])
      && coll'.index == if coll.hasVector then coll.index[id := text] else coll.index
  {
  }

  /** An update without effect: refused for invalid references, or there is no such document. */
  lemma UpdateRefusedIff(cat: Catalog, c: string, id: int, text: string, data: Payload)
    requires c in cat.colls
    ensures var (r, cat') := UpdateSpec(cat, c, id, text, data);
      && (r == Err(BadReference) <==> !DataValid(cat, c, data))
      && (r == Ok(false) <==> DataValid(cat, c, data) && id !in cat.colls[c].rows)
      && (r == Ok(true) <==> DataValid(cat, c, data) && id in cat.colls[c].rows)
      && (r != Ok(true) ==> cat' == cat)
  {
  }

  // ---------------------------------------------------------------- delete

  /** Field `f` of document `i` of `d` is declared to point at `c`, with this on_delete, and holds `id`. */
  ghost predicate PointsAt(cat: Catalog, d: string, i: int, f: string, c: string, id: int, onDelete: OnDelete) {
    && RefKey(d, f) in cat.refs && cat.refs[RefKey(d, f)] == RefDecl(c, onDelete)
    && d in cat.colls && i in cat.colls[d].rows && MatchesId(Field(cat.colls[d].rows[i].data, f), id)
  }

  /** Which values count as the id: the integer itself, a number equal to it, and true and false for
      1 and 0. Texts, null and nested values never do. */
  lemma MatchesIdIff(v: Json, id: int)
    ensures MatchesId(v, id) <==> v == JInt(id) || v == JReal(id as real) || (v == JBool(true) && id == 1) || (v == JBool(false) && id == 0)
  {
  }

  lemma CellMeaning(cat: Catalog, d: string, i: int, f: string, c: string, id: int, onDelete: OnDelete)
    ensures Cell(d, i, f) in CellsOf(cat, Dependents(cat, c, onDelete), id) <==> PointsAt(cat, d, i, f, c, id, onDelete)
  {
    if PointsAt(cat, d, i, f, c, id, onDelete) {
      assert RefKey(d, f) in Dependents(cat, c, onDelete);
    }
  }

  /** A delete is refused exactly when some document points at the id through a restrict reference. */
  lemma DeleteRefusedIff(cat: Catalog, c: string, id: int)
    requires c in cat.colls
    ensures DeleteSpec(cat, c, id).0 == Err(Restricted) <==> exists d, i, f :: PointsAt(cat, d, i, f, c, id, Restrict)
    ensures DeleteSpec(cat, c, id).0 == Ok(false) ==> id !in cat.colls[c].rows
    ensures DeleteSpec(cat, c, id).0 != Ok(true) ==> DeleteSpec(cat, c, id).1 == cat
  {
    if Blocked(cat, c, id) {
      var m :| m in CellsOf(cat, Dependents(cat, c, Restrict), id);
      CellMeaning(cat, m.coll, m.id, m.field, c, id, Restrict);
    }
    if d, i, f :| PointsAt(cat, d, i, f, c, id, Restrict) {
      CellMeaning(cat, d, i, f, c, id, Restrict);
    }
  }

  /** The data after a cascade that nulled `cells`: the same kind of data with the same fields, each
      null if its cell was among them and as it was otherwise. */
  ghost predicate IsNulled(data: Payload, d: string, i: int, cells: set<Cell>, data': Payload) {
    if data.Obj? then
      && data'.Obj? && data'.fields.Keys == data.fields.Keys
      && forall f | f in data.fields :: data'.fields[f] == if Cell(d, i, f) in cells then JNull else data.fields[f]
    else data' == data
  }

  ghost predicate TouchedBy(cells: set<Cell>, d: string, i: int) {
    exists f :: Cell(d, i, f) in cells
  }

  /** What any delete leaves of collection `d`, whether it succeeds, is refused or is interrupted:
      the id counter stands, and so does every document but the one deleted, with set_null fields
      that pointed at it nulled. */
  lemma DeleteLeaves(cat: Catalog, c: string, id: int, r: Result<bool>, cat': Catalog, cells: set<Cell>, d: string)
    requires DeleteOutcome(cat, c, id, r, cat', cells) && d in cat.colls
    ensures cat'.refs == cat.refs && cat'.clock == cat.clock && cat'.colls.Keys == cat.colls.Keys
    ensures forall m | m in cells :: PointsAt(cat, m.coll, m.id, m.field, c, id, SetNull)
    ensures var coll, coll' := cat.colls[d], cat'.colls[d];
      && coll'.lastId == coll.lastId
      && coll'.hasVector == coll.hasVector && coll'.dims == coll.dims && coll'.createdAt == coll.createdAt
      && coll'.rows.Keys == coll.rows.Keys - (if r == Ok(true) && d == c then {id} else {})
      && forall i | i in coll'.rows :: coll'.rows[i].text == coll.rows[i].text && IsNulled(coll.rows[i].data, d, i, cells, coll'.rows[i].data)
  {
    forall m | m in cells ensures PointsAt(cat, m.coll, m.id, m.field, c, id, SetNull) {
      CellMeaning(cat, m.coll, m.id, m.field, c, id, SetNull);
    }
    NulledMeaning(cat.colls[d], d, cells);
  }

  /** And of its index: the entries of the documents it touched are renewed, that of the deleted one
      is gone, and no other has changed. */
  lemma DeleteLeavesIndex(cat: Catalog, c: string, id: int, r: Result<bool>, cat': Catalog, cells: set<Cell>, d: string, i: int)
    requires DeleteOutcome(cat, c, id, r, cat', cells) && d in cat.colls && d in cat'.colls
    ensures var coll, coll', touched := cat.colls[d], cat'.colls[d], cat.colls[d].hasVector && TouchedBy(cells, d, i);
      && (i in coll'.index <==> (i in coll.index || touched) && !(r == Ok(true) && d == c && i == id))
      && (i in coll'.index ==> coll'.index[i] == if touched then coll.rows[i].text else coll.index[i])
  {
    forall m | m in cells ensures PointsAt(cat, m.coll, m.id, m.field, c, id, SetNull) {
      CellMeaning(cat, m.coll, m.id, m.field, c, id, SetNull);
    }
    NulledMeaning(cat.colls[d], d, cells);
    assert Nulled(cat, cells).colls[d] == NulledColl(cat.colls[d], d, cells);
  }

  lemma NulledMeaning(coll: Coll, d: string, cells: set<Cell>)
    requires forall m | m in cells && m.coll == d :: m.id in coll.rows
    ensures var coll' := NulledColl(coll, d, cells);
      && coll'.rows.Keys == coll.rows.Keys
      && (forall i | i in coll.rows :: coll'.rows[i].text == coll.rows[i].text && IsNulled(coll.rows[i].data, d, i, cells, coll'.rows[i].data))
      && (forall i | i in coll'.index ::
            coll'.index[i] == if coll.hasVector && TouchedBy(cells, d, i) then coll.rows[i].text else coll.index[i])
      && (forall i :: i in coll'.index <==> i in coll.index || (coll.hasVector && TouchedBy(cells, d, i)))
  {
    forall i ensures i in TouchedIds(d, cells) <==> TouchedBy(cells, d, i) {
      if i in TouchedIds(d, cells) {
        var m :| m in cells && m.coll == d && m.id == i;
        assert Cell(d, i, m.field) in cells;
      }
    }
  }

  // ---------------------------------------------------------------- create, rename, drop

  /** A collection is created exactly on these conditions, its table names apart. */
  lemma CreateAllowedIff(cat: Catalog, name: string, hasVector: bool, dims: int, specs: map<string, RefSpec>)
    ensures CreateAllowed(cat, name, hasVector, dims, specs) <==>
      && IsName(name) && name !in cat.colls && (hasVector ==> 1 <= dims <= 8192)
      && forall f | f in specs ::
           && IsName(f) && specs[f].onDelete in {"", "restrict", "set_null"}
           && specs[f].target in cat.colls && RefKey(name, f) !in cat.refs
  {
  }

  /** A new collection is empty, and has a declaration for every reference asked for: set_null only
      when that was asked for by name, and restrict otherwise. */
  lemma CreatedMeaning(cat: Catalog, name: string, hasVector: bool, dims: int, specs: map<string, RefSpec>)
    requires SpecsWellFormed(specs)
    ensures var cat' := Created(cat, name, hasVector, dims, specs);
      && cat'.colls.Keys == cat.colls.Keys + {name} && (forall d | d in cat.colls && d != name :: cat'.colls[d] == cat.colls[d])
      && cat'.colls[name].hasVector == hasVector && cat'.colls[name].dims == (if hasVector then dims else 0)
      && cat'.colls[name].rows == map[] && cat'.colls[name].index == map[] && cat'.colls[name].lastId == 0
      && cat'.colls[name].createdAt == cat.clock && cat'.clock == cat.clock + 1
    ensures var refs' := Created(cat, name, hasVector, dims, specs).refs;
      && (forall f | f in specs :: RefKey(name, f) in refs' && refs'[RefKey(name, f)].target == specs[f].target
            && refs'[RefKey(name, f)].onDelete == if specs[f].onDelete == "set_null" then SetNull else Restrict)
      && (forall k | k in cat.refs && !(k.coll == name && k.field in specs) :: k in refs' && refs'[k] == cat.refs[k])
      && (forall k | k in refs' :: k in cat.refs || (k.coll == name && k.field in specs))
  {
    forall f | f in specs
      ensures RefKey(name, f) in Declared(name, specs)
      ensures OnDeleteOf(specs[f].onDelete) == Some(if specs[f].onDelete == "set_null" then SetNull else Restrict)
    {
    }
  }

  /** A rename moves one collection, and carries its declarations and those that point at it along. */
  lemma RenamedMeaning(cat: Catalog, oldName: string, newName: string)
    requires RenameAllowed(cat, oldName, newName) && oldName != newName
    ensures var cat' := Renamed(cat, oldName, newName);
      && cat'.colls.Keys == cat.colls.Keys - {oldName} + {newName} && cat'.colls[newName] == cat.colls[oldName]
      && (forall d | d in cat.colls && d != oldName :: cat'.colls[d] == cat.colls[d]) && cat'.clock == cat.clock
      && (forall k | k in cat.refs ::
            var k' := RefKey(if k.coll == oldName then newName else k.coll, k.field);
            k' in cat'.refs && cat'.refs[k'].onDelete == cat.refs[k].onDelete
            && cat'.refs[k'].target == if cat.refs[k].target == oldName then newName else cat.refs[k].target)
      && (forall k | k in cat'.refs :: k in cat.refs || (k.coll == newName && RefKey(oldName, k.field) in cat.refs))
  {
    forall k | k in cat.refs
      ensures RefKey(if k.coll == oldName then newName else k.coll, k.field) in Renamed(cat, oldName, newName).refs
      ensures Renamed(cat, oldName, newName).refs[RefKey(if k.coll == oldName then newName else k.coll, k.field)]
              == RefDecl(if cat.refs[k].target == oldName then newName else cat.refs[k].target, cat.refs[k].onDelete)
    {
      RenamedKey(cat, oldName, newName, k);
    }
  }

  /** No two declarations are carried to the same place. */
  lemma RenamedCount(cat: Catalog, oldName: string, newName: string)
    requires RenameAllowed(cat, oldName, newName) && oldName != newName
    ensures |Renamed(cat, oldName, newName).refs| == |cat.refs|
  {
    var moved := (k: RefKey) => RefKey(Substitute(k.coll, oldName, newName), k.field);
    forall k, l | k in cat.refs && l in cat.refs && moved(k) == moved(l) ensures k == l {
      if k.coll == oldName { assert RefKey(newName, k.field) !in cat.refs; }
      if l.coll == oldName { assert RefKey(newName, l.field) !in cat.refs; }
    }
    var there := Renamed(cat, oldName, newName).refs.Keys;
    forall k ensures k in there <==> exists k0 | k0 in cat.refs.Keys :: moved(k0) == k {
      if k in there { RenamedRefsOrigin(cat.refs, oldName, newName, k); }
      if k0 :| k0 in cat.refs.Keys && moved(k0) == k { RenamedKey(cat, oldName, newName, k0); }
    }
    CountMoved(cat.refs.Keys, there, moved);
  }

  lemma {:induction false} CountMoved<T(!new), U(!new)>(a: set<T>, b: set<U>, f: T -> U)
    requires forall x, y | x in a && y in a && f(x) == f(y) :: x == y
    requires forall u :: u in b <==> exists x | x in a :: f(x) == u
    ensures |a| == |b|
    decreases |a|
  {
    if a == {} {
      assert b == {};
    } else {
      var x :| x in a;
      var rest := a - {x};
      forall u ensures u in b - {f(x)} <==> exists y | y in rest :: f(y) == u {
      }
      CountMoved(rest, b - {f(x)}, f);
    }
  }

  /** A drop takes one collection away and leaves every declaration. */
  lemma DroppedMeaning(cat: Catalog, name: string)
    ensures var cat' := Dropped(cat, name);
      && cat'.colls.Keys == cat.colls.Keys - {name} && (forall d | d in cat'.colls :: cat'.colls[d] == cat.colls[d])
      && cat'.refs == cat.refs && cat'.clock == cat.clock
  {
  }
}
