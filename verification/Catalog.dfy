/** The store seen through its collection names: what each operation does to the documents,
    the ids, the full-text indexes and the declared references. */
module Catalogs {
  import opened Documents
  import Decimal

  datatype OnDelete = Restrict | SetNull

  /** The primary key and the payload of a row of collection_references. */
  datatype RefKey = RefKey(coll: string, field: string)
  datatype RefDecl = RefDecl(target: string, onDelete: OnDelete)

  /** `lastId` is the AUTOINCREMENT counter, `index` the full-text companion table, and
      `createdAt` the registry's created_at column read as a logical time. */
  datatype Coll = Coll(
    hasVector: bool, dims: int, createdAt: nat,
    rows: map<int, Row>, lastId: int, index: map<int, string>)

  datatype Catalog = Catalog(colls: map<string, Coll>, refs: map<RefKey, RefDecl>, clock: nat)

  const EMPTY := Catalog(map[], map[], 0)

  /** One entry of a bulk request. */
  datatype Item = Item(id: Option<int>, text: string, data: Payload)

  function Max(a: int, b: int): int { if a < b then b else a }

  function SetColl(cat: Catalog, c: string, coll: Coll): Catalog {
    cat.(colls := cat.colls[c := coll])
  }

  // ---------------------------------------------------------------- reference validation

  predicate RefFieldValid(cat: Catalog, target: string, v: Json) {
    v.JNull? || (v.JInt? && target in cat.colls && v.n in cat.colls[target].rows)
  }

  /** What validateReferences accepts as the data of a document of collection `c`. */
  ghost predicate DataValid(cat: Catalog, c: string, data: Payload) {
    forall k | k in cat.refs && k.coll == c ::
      !data.NonObj? && RefFieldValid(cat, cat.refs[k].target, Field(data, k.field))
  }

  // ---------------------------------------------------------------- insert and update

  function StoredRow(coll: Coll, text: string, data: Payload): Row {
    Row(if coll.hasVector then text else "", Stored(data))
  }

  /** The main row only: the state between the two commits of insertDocument. */
  function AddRow(coll: Coll, id: int, row: Row): Coll {
    coll.(rows := coll.rows[id := row], lastId := Max(coll.lastId, id))
  }

  function AddIndex(coll: Coll, id: int, text: string): Coll {
    if coll.hasVector then coll.(index := coll.index[id := text]) else coll
  }

  function Inserted(coll: Coll, id: int, row: Row): Coll {
    AddIndex(AddRow(coll, id, row), id, row.text)
  }

  /** The id an INSERT gets, unless it is given one that is taken. */
  function ChooseId(coll: Coll, id: Option<int>): Result<int> {
    match id
    case None => Ok(coll.lastId + 1)
    case Some(i) => if i in coll.rows then Err(Rejected) else Ok(i)
  }

  ghost function InsertSpec(cat: Catalog, c: string, item: Item): (Result<int>, Catalog)
    requires c in cat.colls
  {
    var coll := cat.colls[c];
    if !DataValid(cat, c, item.data) then (Err(BadReference), cat)
    else
      match ChooseId(coll, item.id)
      case Err(e) => (Err(e), cat)
      case Ok(i) => (Ok(i), SetColl(cat, c, Inserted(coll, i, StoredRow(coll, item.text, item.data))))
  }

  function Replaced(coll: Coll, id: int, row: Row): Coll {
    AddIndex(coll.(rows := coll.rows[id := row]), id, row.text)
  }

  ghost function UpdateSpec(cat: Catalog, c: string, id: int, text: string, data: Payload): (Result<bool>, Catalog)
    requires c in cat.colls
  {
    var coll := cat.colls[c];
    if !DataValid(cat, c, data) then (Err(BadReference), cat)
    else if id !in coll.rows then (Ok(false), cat)
    else (Ok(true), SetColl(cat, c, Replaced(coll, id, StoredRow(coll, text, data))))
  }

  // ---------------------------------------------------------------- bulk insert

  /** The INSERT statements of a batch, in request order, on one collection. */
  function PlaceAll(coll: Coll, items: seq<Item>): Result<(seq<int>, Coll)>
    decreases |items|
  {
    if |items| == 0 then Ok(([], coll))
    else
      match PlaceAll(coll, items[..|items|-1])
      case Err(e) => Err(e)
      case Ok((ids, before)) =>
        var item := items[|items|-1];
        match ChooseId(before, item.id)
        case Err(e) => Err(e)
        case Ok(i) => Ok((ids + [i], Inserted(before, i, StoredRow(before, item.text, item.data))))
  }

  /** One more INSERT of a batch. */
  lemma PlaceOneMore(coll: Coll, items: seq<Item>, item: Item)
    ensures PlaceAll(coll, items + [item]) ==
      match PlaceAll(coll, items)
      case Err(e) => Err(e)
      case Ok((ids, before)) =>
        match ChooseId(before, item.id)
        case Err(e) => Err(e)
        case Ok(i) => Ok((ids + [i], Inserted(before, i, StoredRow(before, item.text, item.data))))
  {
  }

  /** A batch that fails in its first items fails. */
  lemma {:induction false} PlaceAllPrefix(coll: Coll, items: seq<Item>, n: nat)
    requires n <= |items| && PlaceAll(coll, items[..n]).Err?
    ensures PlaceAll(coll, items) == PlaceAll(coll, items[..n])
    decreases |items|
  {
    if n == |items| {
      assert items[..n] == items;
    } else {
      assert items[..|items|-1][..n] == items[..n];
      PlaceAllPrefix(coll, items[..|items|-1], n);
    }
  }

  ghost predicate AllValid(cat: Catalog, c: string, items: seq<Item>) {
    forall j | 0 <= j < |items| :: DataValid(cat, c, items[j].data)
  }

  ghost function BulkSpec(cat: Catalog, c: string, items: seq<Item>): (Result<seq<int>>, Catalog)
    requires c in cat.colls
  {
    if !AllValid(cat, c, items) then (Err(BadReference), cat)
    else
      match PlaceAll(cat.colls[c], items)
      case Err(e) => (Err(e), cat)
      case Ok((ids, coll)) => (Ok(ids), SetColl(cat, c, coll))
  }

  // ---------------------------------------------------------------- delete

  /** One field of one document. */
  datatype Cell = Cell(coll: string, id: int, field: string)

  /** The declarations that point at collection `c`. */
  function Dependents(cat: Catalog, c: string, onDelete: OnDelete): set<RefKey> {
    set k | k in cat.refs && cat.refs[k].target == c && cat.refs[k].onDelete == onDelete
  }

  /** The cells declared by `keys` whose value is `id`. */
  function CellsOf(cat: Catalog, keys: set<RefKey>, id: int): set<Cell> {
    set k, i | k in keys && k.coll in cat.colls && i in cat.colls[k.coll].rows
               && MatchesId(Field(cat.colls[k.coll].rows[i].data, k.field), id)
      :: Cell(k.coll, i, k.field)
  }

  function SetNullCells(cat: Catalog, c: string, id: int): set<Cell> {
    CellsOf(cat, Dependents(cat, c, SetNull), id)
  }

  /** Some document refers to `id` of `c` through a restrict reference. */
  predicate Blocked(cat: Catalog, c: string, id: int) {
    CellsOf(cat, Dependents(cat, c, Restrict), id) != {}
  }

  function NulledData(data: Payload, c: string, id: int, cells: set<Cell>): Payload {
    if data.Obj? then
      Obj(map f | f in data.fields :: if Cell(c, id, f) in cells then JNull else data.fields[f])
    else data
  }

  function TouchedIds(c: string, cells: set<Cell>): set<int> {
    set m | m in cells && m.coll == c :: m.id
  }

  function NulledRows(rows: map<int, Row>, c: string, cells: set<Cell>): map<int, Row> {
    map i | i in rows :: Row(rows[i].text, NulledData(rows[i].data, c, i, cells))
  }

  /** The touched documents are indexed again. */
  function Reindexed(index: map<int, string>, rows: map<int, Row>, touched: set<int>): map<int, string> {
    map i | i in index.Keys + touched * rows.Keys :: if i in touched && i in rows then rows[i].text else index[i]
  }

  function NulledColl(coll: Coll, c: string, cells: set<Cell>): Coll {
    coll.(
      rows := NulledRows(coll.rows, c, cells),
      index := if coll.hasVector then Reindexed(coll.index, coll.rows, TouchedIds(c, cells)) else coll.index)
  }

  /** Every cell set to null. */
  function Nulled(cat: Catalog, cells: set<Cell>): Catalog {
    cat.(colls := map c | c in cat.colls :: NulledColl(cat.colls[c], c, cells))
  }

  function RemoveDoc(cat: Catalog, c: string, id: int): Catalog
    requires c in cat.colls
  {
    var coll := cat.colls[c];
    SetColl(cat, c, coll.(rows := coll.rows - {id}, index := coll.index - {id}))
  }

  /** The one-shot meaning of a delete: refused, or every set_null field that holds the id is
      nulled and the document removed. */
  function DeleteSpec(cat: Catalog, c: string, id: int): (Result<bool>, Catalog)
    requires c in cat.colls
  {
    if Blocked(cat, c, id) then (Err(Restricted), cat)
    else if id !in cat.colls[c].rows then (Ok(false), cat)
    else (Ok(true), RemoveDoc(Nulled(cat, SetNullCells(cat, c, id)), c, id))
  }

  // ---------------------------------------------------------------- create, rename, drop

  /** A requested reference; the default on_delete is restrict. */
  datatype RefSpec = RefSpec(target: string, onDelete: string)

  function OnDeleteOf(s: string): Option<OnDelete> {
    if s == "" || s == "restrict" then Some(Restrict)
    else if s == "set_null" then Some(SetNull)
    else None
  }

  predicate IsLetter(ch: char) { 'a' <= ch <= 'z' || 'A' <= ch <= 'Z' }
  predicate IsNameChar(ch: char) { IsLetter(ch) || Decimal.IsDigit(ch) || ch == '_' }

  /** collectionNameRe: a letter, then at most 62 letters, digits or underscores. */
  predicate IsName(s: string) {
    1 <= |s| <= 63 && IsLetter(s[0]) && forall i | 0 <= i < |s| :: IsNameChar(s[i])
  }

  const MAX_DIMENSIONS := 8192

  predicate SpecsWellFormed(specs: map<string, RefSpec>) {
    forall f | f in specs :: IsName(f) && OnDeleteOf(specs[f].onDelete).Some?
  }

  function Declared(name: string, specs: map<string, RefSpec>): map<RefKey, RefDecl>
    requires SpecsWellFormed(specs)
  {
    map k | k in (set f | f in specs :: RefKey(name, f)) ::
      RefDecl(specs[k.field].target, OnDeleteOf(specs[k.field].onDelete).value)
  }

  /** Everything createCollection checks, except that the table names are free. */
  predicate CreateAllowed(cat: Catalog, name: string, hasVector: bool, dims: int, specs: map<string, RefSpec>) {
    && IsName(name)
    && (hasVector ==> 0 < dims <= MAX_DIMENSIONS)
    && SpecsWellFormed(specs)
    && name !in cat.colls
    && (forall f | f in specs :: specs[f].target in cat.colls)
    && (forall f | f in specs :: RefKey(name, f) !in cat.refs)
  }

  function Created(cat: Catalog, name: string, hasVector: bool, dims: int, specs: map<string, RefSpec>): Catalog
    requires SpecsWellFormed(specs)
  {
    Catalog(
      cat.colls[name := Coll(hasVector, if hasVector then dims else 0, cat.clock, map[], 0, map[])],
      cat.refs + Declared(name, specs),
      cat.clock + 1)
  }

  function Substitute(x: string, oldName: string, newName: string): string {
    if x == oldName then newName else x
  }

  /** No UNIQUE violation when the declarations of `oldName` are moved to `newName`. */
  predicate RefsMovable(refs: map<RefKey, RefDecl>, oldName: string, newName: string) {
    oldName == newName || forall k | k in refs && k.coll == oldName :: RefKey(newName, k.field) !in refs
  }

  predicate RenameAllowed(cat: Catalog, oldName: string, newName: string) {
    IsName(newName) && oldName in cat.colls && (oldName == newName || newName !in cat.colls) && RefsMovable(cat.refs, oldName, newName)
  }

  function RenamedOwners(refs: map<RefKey, RefDecl>, oldName: string, newName: string): map<RefKey, RefDecl> {
    map k | k in (set k0 | k0 in refs :: RefKey(Substitute(k0.coll, oldName, newName), k0.field)) ::
      if k.coll == newName && RefKey(oldName, k.field) in refs then refs[RefKey(oldName, k.field)] else refs[k]
  }

  function RenamedTargets(refs: map<RefKey, RefDecl>, oldName: string, newName: string): map<RefKey, RefDecl> {
    map k | k in refs :: RefDecl(Substitute(refs[k].target, oldName, newName), refs[k].onDelete)
  }

  function RenamedRefs(refs: map<RefKey, RefDecl>, oldName: string, newName: string): map<RefKey, RefDecl> {
    RenamedTargets(RenamedOwners(refs, oldName, newName), oldName, newName)
  }

  function RenamedColls<V>(colls: map<string, V>, oldName: string, newName: string): map<string, V>
    requires oldName in colls
  {
    map n | n in (colls.Keys - {oldName}) + {newName} :: if n == newName then colls[oldName] else colls[n]
  }

  function Renamed(cat: Catalog, oldName: string, newName: string): Catalog
    requires oldName in cat.colls
  {
    Catalog(
      RenamedColls(cat.colls, oldName, newName),
      RenamedRefs(cat.refs, oldName, newName),
      cat.clock)
  }

  /** The declarations of a dropped collection, and those that point at it, stay behind. */
  function Dropped(cat: Catalog, name: string): Catalog {
    cat.(colls := cat.colls - {name})
  }

  /** No declaration mentions the name. */
  predicate Unreferenced(cat: Catalog, name: string) {
    forall k | k in cat.refs :: k.coll != name && cat.refs[k].target != name
  }

  /** A rename to a name that no declaration mentions, or to the same name. */
  predicate Fresh(cat: Catalog, oldName: string, newName: string) {
    oldName == newName || Unreferenced(cat, newName)
  }

  /** A document of another collection holds a value in a field declared to point at `name`. */
  predicate RefersInto(cat: Catalog, name: string) {
    exists k, i | k in cat.refs && k.coll in cat.colls && i in cat.colls[k.coll].rows ::
      cat.refs[k].target == name && k.coll != name && Field(cat.colls[k.coll].rows[i].data, k.field) != JNull
  }
}
