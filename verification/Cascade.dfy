/** Deleting a referenced document: the algebra of nulled cells, the one-shot meaning of a
    completed delete, and how far a refused or interrupted one can go. */
module Cascade {
  import opened Documents
  import opened Catalogs
  import opened Integrity
  import opened Runs

  // ---------------------------------------------------------------- nulled cells

  lemma NulledDataTwice(data: Payload, c: string, id: int, first: set<Cell>, second: set<Cell>)
    ensures NulledData(NulledData(data, c, id, first), c, id, second) == NulledData(data, c, id, first + second)
  {
  }

  lemma NulledRowsTwice(rows: map<int, Row>, c: string, first: set<Cell>, second: set<Cell>)
    ensures NulledRows(NulledRows(rows, c, first), c, second) == NulledRows(rows, c, first + second)
  {
    forall i | i in rows
      ensures NulledRows(NulledRows(rows, c, first), c, second)[i] == NulledRows(rows, c, first + second)[i]
    {
      NulledDataTwice(rows[i].data, c, i, first, second);
    }
  }

  lemma NulledCollTwice(coll: Coll, c: string, first: set<Cell>, second: set<Cell>)
    ensures NulledColl(NulledColl(coll, c, first), c, second) == NulledColl(coll, c, first + second)
  {
    NulledRowsTwice(coll.rows, c, first, second);
    assert TouchedIds(c, first + second) == TouchedIds(c, first) + TouchedIds(c, second);
    ReindexedTwice(coll.index, coll.rows, NulledRows(coll.rows, c, first), TouchedIds(c, first), TouchedIds(c, second));
  }

  lemma ReindexedTwice(index: map<int, string>, rows: map<int, Row>, rows': map<int, Row>, first: set<int>, second: set<int>)
    requires rows.Keys == rows'.Keys && forall i | i in rows :: rows[i].text == rows'[i].text
    ensures Reindexed(Reindexed(index, rows, first), rows', second) == Reindexed(index, rows, first + second)
  {
    var twice, once := Reindexed(Reindexed(index, rows, first), rows', second), Reindexed(index, rows, first + second);
    assert twice.Keys == once.Keys;
    forall i | i in once ensures twice[i] == once[i] {
      if i in second && i in rows {
        assert twice[i] == rows'[i].text;
      }
    }
  }

  /** Cells may be nulled in any grouping and any order. */
  lemma NulledTwice(cat: Catalog, first: set<Cell>, second: set<Cell>)
    ensures Nulled(Nulled(cat, first), second) == Nulled(cat, first + second)
  {
    forall c | c in cat.colls
      ensures NulledColl(NulledColl(cat.colls[c], c, first), c, second) == NulledColl(cat.colls[c], c, first + second)
    {
      NulledCollTwice(cat.colls[c], c, first, second);
    }
    assert Nulled(Nulled(cat, first), second).colls == Nulled(cat, first + second).colls;
  }

  lemma NulledNothing(cat: Catalog)
    ensures Nulled(cat, {}) == cat
  {
    forall c | c in cat.colls ensures NulledColl(cat.colls[c], c, {}) == cat.colls[c] {
      var coll := cat.colls[c];
      forall i | i in coll.rows ensures NulledData(coll.rows[i].data, c, i, {}) == coll.rows[i].data {
      }
      assert NulledColl(coll, c, {}).rows == coll.rows;
      assert NulledColl(coll, c, {}).index == coll.index;
    }
    assert Nulled(cat, {}).colls == cat.colls;
  }

  /** The re-encoded data of one step of the cascade. */
  function WithNull(data: Payload, field: string): Payload
    requires data.Obj?
  {
    Obj(data.fields[field := JNull])
  }

  /** One step of the cascade is an ordinary update of the referring document. */
  lemma NulledOne(cat: Catalog, c: string, i: int, field: string)
    requires Sound(cat) && c in cat.colls && i in cat.colls[c].rows
    requires cat.colls[c].rows[i].data.Obj? && field in cat.colls[c].rows[i].data.fields
    ensures var row := cat.colls[c].rows[i];
      SetColl(cat, c, Replaced(cat.colls[c], i, StoredRow(cat.colls[c], row.text, WithNull(row.data, field))))
      == Nulled(cat, {Cell(c, i, field)})
  {
    var coll, cells := cat.colls[c], {Cell(c, i, field)};
    NulledCollOne(coll, c, i, field);
    forall d | d in cat.colls && d != c ensures NulledColl(cat.colls[d], d, cells) == cat.colls[d] {
      UntouchedColl(cat.colls[d], d, cells);
    }
    assert SetColl(cat, c, NulledColl(coll, c, cells)).colls == Nulled(cat, cells).colls;
  }

  lemma NulledCollOne(coll: Coll, c: string, i: int, field: string)
    requires CollSound(coll) && i in coll.rows && coll.rows[i].data.Obj? && field in coll.rows[i].data.fields
    ensures NulledColl(coll, c, {Cell(c, i, field)})
            == Replaced(coll, i, StoredRow(coll, coll.rows[i].text, WithNull(coll.rows[i].data, field)))
  {
    var cells, row := {Cell(c, i, field)}, StoredRow(coll, coll.rows[i].text, WithNull(coll.rows[i].data, field));
    NulledRowsOne(coll.rows, c, i, field);
    assert TouchedIds(c, cells) == {i};
    assert Reindexed(coll.index, coll.rows, {i}) == coll.index[i := row.text];
  }

  lemma NulledRowsOne(rows: map<int, Row>, c: string, i: int, field: string)
    requires i in rows && rows[i].data.Obj? && field in rows[i].data.fields
    ensures NulledRows(rows, c, {Cell(c, i, field)}) == rows[i := Row(rows[i].text, WithNull(rows[i].data, field))]
  {
    var cells := {Cell(c, i, field)};
    forall n | n in rows && n != i ensures NulledData(rows[n].data, c, n, cells) == rows[n].data {
      UntouchedData(rows[n].data, c, n, cells);
    }
    assert NulledData(rows[i].data, c, i, cells) == WithNull(rows[i].data, field);
  }

  lemma UntouchedData(data: Payload, c: string, id: int, cells: set<Cell>)
    requires forall f :: Cell(c, id, f) !in cells
    ensures NulledData(data, c, id, cells) == data
  {
  }

  lemma UntouchedColl(coll: Coll, c: string, cells: set<Cell>)
    requires forall m | m in cells :: m.coll != c
    ensures NulledColl(coll, c, cells) == coll
  {
    forall i | i in coll.rows ensures NulledData(coll.rows[i].data, c, i, cells) == coll.rows[i].data {
      UntouchedData(coll.rows[i].data, c, i, cells);
    }
    assert NulledColl(coll, c, cells).rows == coll.rows;
    assert NulledColl(coll, c, cells).index == coll.index;
  }

  /** The update inside the cascade: it passes validation in a state with integrity, and then
      nulls exactly one more cell. */
  lemma NullStep(cat: Catalog, cells: set<Cell>, c: string, i: int, field: string)
    requires Sound(cat) && c in cat.colls && i in cat.colls[c].rows
    requires Field(cat.colls[c].rows[i].data, field) != JNull
    ensures var mid := Nulled(cat, cells);
      && mid.colls[c].rows[i].data.Obj?
      && var row := mid.colls[c].rows[i];
         var (r, after) := UpdateSpec(mid, c, i, row.text, WithNull(row.data, field));
         if r.Ok? then r == Ok(true) && after == Nulled(cat, cells + {Cell(c, i, field)})
         else r == Err(BadReference) && !RefsHold(cat)
  {
    var mid := Nulled(cat, cells);
    NulledKeepsSound(cat, cells);
    NulledOne(mid, c, i, field);
    NulledTwice(cat, cells, {Cell(c, i, field)});
    if RefsHold(cat) {
      NulledKeepsRefs(cat, cells);
      WithNullStaysValid(mid, c, i, field);
    }
  }

  lemma WithNullStaysValid(cat: Catalog, c: string, i: int, field: string)
    requires RefsHold(cat) && c in cat.colls && i in cat.colls[c].rows && cat.colls[c].rows[i].data.Obj?
    ensures DataValid(cat, c, WithNull(cat.colls[c].rows[i].data, field))
  {
  }

  lemma NoCellsWithoutCollection(cat: Catalog, cells: set<Cell>, k: RefKey, id: int)
    ensures k.coll in Nulled(cat, cells).colls <==> k.coll in cat.colls
    ensures k.coll !in cat.colls ==> CellsOf(cat, {k}, id) == {}
  {
  }

  function RowCells(k: RefKey, ids: seq<int>): set<Cell> {
    set i | i in ids :: Cell(k.coll, i, k.field)
  }

  /** `ids` are the rows whose field holds `id`. */
  ghost predicate AreMatches(rows: map<int, Row>, field: string, id: int, ids: seq<int>) {
    && (forall n | 0 <= n < |ids| :: ids[n] in rows && MatchesId(Field(rows[ids[n]].data, field), id))
    && (forall i | i in rows && MatchesId(Field(rows[i].data, field), id) :: i in ids)
  }

  /** Rows of `cat` whose field is set. */
  ghost predicate AreSet(cat: Catalog, k: RefKey, ids: seq<int>) {
    k.coll in cat.colls && forall n | 0 <= n < |ids| ::
      ids[n] in cat.colls[k.coll].rows && Field(cat.colls[k.coll].rows[ids[n]].data, k.field) != JNull
  }

  /** The rows a declaration matches while others are being carried out. */
  lemma MatchedRows(cat: Catalog, cells: set<Cell>, k: RefKey, id: int, ids: seq<int>)
    requires k.coll in cat.colls && forall i :: Cell(k.coll, i, k.field) !in cells
    requires AreMatches(Nulled(cat, cells).colls[k.coll].rows, k.field, id, ids)
    ensures RowCells(k, ids) == CellsOf(cat, {k}, id) && AreSet(cat, k, ids)
    ensures |ids| == 0 <==> CellsOf(cat, {k}, id) == {}
  {
    var rows := cat.colls[k.coll].rows;
    forall i | i in rows
      ensures Field(Nulled(cat, cells).colls[k.coll].rows[i].data, k.field) == Field(rows[i].data, k.field)
    {
      NulledFieldOf(rows[i].data, k.coll, i, cells, k.field);
    }
    if |ids| > 0 {
      assert Cell(k.coll, ids[0], k.field) in RowCells(k, ids);
    }
  }

  lemma RowCellsNext(cells: set<Cell>, k: RefKey, ids: seq<int>, n: nat)
    requires n < |ids|
    ensures cells + RowCells(k, ids[..n]) + {Cell(k.coll, ids[n], k.field)} == cells + RowCells(k, ids[..n + 1])
    ensures RowCells(k, ids[..n]) <= RowCells(k, ids)
  {
    assert ids[..n + 1] == ids[..n] + [ids[n]];
  }

  /** The declarations of one kind among those visited so far. */
  function Visited(cat: Catalog, deps: seq<RefKey>, onDelete: OnDelete): set<RefKey> {
    set k | k in deps && k in cat.refs && cat.refs[k].onDelete == onDelete
  }

  ghost predicate Targeting(cat: Catalog, name: string, deps: seq<RefKey>) {
    && (forall n | 0 <= n < |deps| :: deps[n] in cat.refs && cat.refs[deps[n]].target == name)
    && (forall k | k in cat.refs && cat.refs[k].target == name :: k in deps)
    && (forall n, m | 0 <= n < m < |deps| :: deps[n] != deps[m])
  }

  /** Where the cascade stands after `n` declarations: the set_null cells among them are nulled,
      and no restrict declaration among them had a match. */
  ghost predicate Cascaded(cat: Catalog, deps: seq<RefKey>, n: nat, id: int, cells: set<Cell>)
    requires n <= |deps|
  {
    cells == CellsOf(cat, Visited(cat, deps[..n], SetNull), id) && CellsOf(cat, Visited(cat, deps[..n], Restrict), id) == {}
  }

  /** The cells of a declaration are untouched until it is its turn. */
  lemma NotYetNulled(cat: Catalog, name: string, deps: seq<RefKey>, n: nat, id: int, cells: set<Cell>)
    requires Targeting(cat, name, deps) && n < |deps| && Cascaded(cat, deps, n, id, cells)
    ensures forall i :: Cell(deps[n].coll, i, deps[n].field) !in cells
  {
  }

  lemma CascadedNext(cat: Catalog, name: string, deps: seq<RefKey>, n: nat, id: int, cells: set<Cell>, cells': set<Cell>)
    requires Targeting(cat, name, deps) && n < |deps| && Cascaded(cat, deps, n, id, cells)
    requires if cat.refs[deps[n]].onDelete == SetNull then cells' == cells + CellsOf(cat, {deps[n]}, id)
             else cells' == cells && CellsOf(cat, {deps[n]}, id) == {}
    ensures Cascaded(cat, deps, n + 1, id, cells')
  {
  }

  /** A cascade that stops at declaration `n` has nulled set_null cells only; if it stops because
      that declaration refuses, exactly those of the declarations before it. */
  lemma CascadeStopped(cat: Catalog, name: string, deps: seq<RefKey>, n: nat, id: int, cells: set<Cell>, cells': set<Cell>)
    requires Targeting(cat, name, deps) && n < |deps| && Cascaded(cat, deps, n, id, cells)
    requires cells' <= cells + (if cat.refs[deps[n]].onDelete == SetNull then CellsOf(cat, {deps[n]}, id) else {})
    ensures cells' <= SetNullCells(cat, name, id)
    ensures cells' == cells ==> VisitedFirst(cat, name, id, cells')
    ensures cat.refs[deps[n]].onDelete == Restrict && CellsOf(cat, {deps[n]}, id) != {} ==> Blocked(cat, name, id)
  {
  }

  lemma CascadeFinished(cat: Catalog, name: string, deps: seq<RefKey>, id: int, cells: set<Cell>)
    requires Targeting(cat, name, deps) && Cascaded(cat, deps, |deps|, id, cells)
    ensures cells == SetNullCells(cat, name, id) && !Blocked(cat, name, id)
  {
  }

  // ---------------------------------------------------------------- a completed delete

  /** Nothing refers to an id that does not exist. */
  lemma NoCellsOfAbsentId(cat: Catalog, c: string, id: int, onDelete: OnDelete)
    requires RefsHold(cat) && c in cat.colls && id !in cat.colls[c].rows
    ensures CellsOf(cat, Dependents(cat, c, onDelete), id) == {}
  {
  }

  /** From a state with integrity a delete whose statements all succeed does exactly what the
      one-shot specification says, in whatever order the declarations were visited. */
  lemma DeleteRefinesSpec(cat: Catalog, c: string, id: int, r: Result<bool>, cat': Catalog, cells: set<Cell>)
    requires RefsHold(cat) && DeleteOutcome(cat, c, id, r, cat', cells) && r != Err(Infrastructure)
    ensures r == DeleteSpec(cat, c, id).0
    ensures r.Ok? ==> cat' == DeleteSpec(cat, c, id).1
    ensures r.Err? <==> Blocked(cat, c, id)
  {
    if id !in cat.colls[c].rows {
      NoCellsOfAbsentId(cat, c, id, SetNull);
      NulledNothing(cat);
    }
  }

  /** The removed document is gone, every set_null field that held its id is null, and nothing
      else about any document has changed. */
  lemma DeletedMeaning(cat: Catalog, c: string, id: int, d: string, i: int, field: string)
    requires RefsHold(cat) && c in cat.colls && DeleteSpec(cat, c, id).0 == Ok(true)
    requires d in cat.colls && i in cat.colls[d].rows
    ensures var cat' := DeleteSpec(cat, c, id).1;
      && d in cat'.colls
      && (i in cat'.colls[d].rows <==> (d, i) != (c, id))
      && ((d, i) != (c, id) ==>
            && cat'.colls[d].rows[i].text == cat.colls[d].rows[i].text
            && Field(cat'.colls[d].rows[i].data, field) ==
               (if RefKey(d, field) in Dependents(cat, c, SetNull) && Field(cat.colls[d].rows[i].data, field) == JInt(id)
                then JNull else Field(cat.colls[d].rows[i].data, field)))
  {
    var cells := SetNullCells(cat, c, id);
    NulledFieldOf(cat.colls[d].rows[i].data, d, i, cells, field);
    if RefKey(d, field) in Dependents(cat, c, SetNull) {
      assert DataValid(cat, d, cat.colls[d].rows[i].data);
    }
  }

  // ---------------------------------------------------------------- a refused or interrupted delete

  /** Whatever stops a delete, the target is still there, no id of any collection is lost, and
      only set_null fields that held the id differ: they are null now. */
  lemma UnfinishedDeleteIsBounded(cat: Catalog, c: string, id: int, r: Result<bool>, cat': Catalog, cells: set<Cell>,
                                  d: string, i: int, field: string)
    requires DeleteOutcome(cat, c, id, r, cat', cells) && r.Err?
    requires d in cat.colls && i in cat.colls[d].rows
    ensures cat'.colls.Keys == cat.colls.Keys && cat'.refs == cat.refs
    ensures cat'.colls[d].rows.Keys == cat.colls[d].rows.Keys && cat'.colls[d].lastId == cat.colls[d].lastId
    ensures cat'.colls[d].rows[i].text == cat.colls[d].rows[i].text
    ensures Field(cat'.colls[d].rows[i].data, field) == Field(cat.colls[d].rows[i].data, field)
            || (RefKey(d, field) in Dependents(cat, c, SetNull) && MatchesId(Field(cat.colls[d].rows[i].data, field), id)
                && Field(cat'.colls[d].rows[i].data, field) == JNull)
    ensures Unindexed(cat'.colls[d]) <= Unindexed(cat.colls[d]) && (RefsHold(cat) ==> RefsHold(cat'))
  {
    assert cat' == Nulled(cat, cells) && cells <= SetNullCells(cat, c, id);
    NulledIsBounded(cat, c, id, cells, d, i, field);
    forall n | n in Unindexed(cat'.colls[d]) ensures n in Unindexed(cat.colls[d]) {
      NulledUnindexed(cat, c, id, d, cells, n);
    }
    if RefsHold(cat) {
      NulledKeepsRefs(cat, cells);
    }
  }

  lemma NulledIsBounded(cat: Catalog, c: string, id: int, cells: set<Cell>, d: string, i: int, field: string)
    requires cells <= SetNullCells(cat, c, id) && d in cat.colls && i in cat.colls[d].rows
    ensures var (coll, coll') := (cat.colls[d], Nulled(cat, cells).colls[d]);
      && coll'.rows.Keys == coll.rows.Keys && coll'.lastId == coll.lastId && coll'.rows[i].text == coll.rows[i].text
      && (|| Field(coll'.rows[i].data, field) == Field(coll.rows[i].data, field)
          || (RefKey(d, field) in Dependents(cat, c, SetNull) && MatchesId(Field(coll.rows[i].data, field), id)
              && Field(coll'.rows[i].data, field) == JNull))
  {
  }

  /** A refused delete is not always without effect: set_null declarations visited before the
      one that refuses have been carried out. It surely changes nothing exactly when no
      document holds the id in a set_null field. */
  lemma RefusalIsSilentIff(cat: Catalog, c: string, id: int)
    requires Sound(cat) && c in cat.colls && Blocked(cat, c, id)
    ensures (forall cat', cells | DeleteOutcome(cat, c, id, Err(Restricted), cat', cells) :: cat' == cat)
            <==> SetNullCells(cat, c, id) == {}
  {
    var cells := SetNullCells(cat, c, id);
    if cells == {} {
      NulledNothing(cat);
      forall cat', none | DeleteOutcome(cat, c, id, Err(Restricted), cat', none) ensures cat' == cat {
        assert none == {};
      }
    } else {
      var cat' := Nulled(cat, cells);
      var m :| m in cells;
      NulledFieldOf(cat.colls[m.coll].rows[m.id].data, m.coll, m.id, cells, m.field);
      assert Field(cat'.colls[m.coll].rows[m.id].data, m.field) == JNull;
      assert cells == CellsOf(cat, Dependents(cat, c, SetNull), id);
      assert DeleteOutcome(cat, c, id, Err(Restricted), cat', cells);
    }
  }

  /** A document goes into an empty collection without vectors under id 1. */
  lemma FirstDocument(cat: Catalog, c: string, data: Payload) returns (cat': Catalog)
    requires Reachable(cat, true) && c in cat.colls && !cat.colls[c].hasVector
    requires cat.colls[c].rows == map[] && cat.colls[c].lastId == 0 && DataValid(cat, c, data)
    ensures Reachable(cat', true) && cat'.refs == cat.refs && cat'.colls.Keys == cat.colls.Keys
    ensures forall d | d in cat.colls && d != c :: cat'.colls[d] == cat.colls[d]
    ensures cat'.colls[c].rows == map[1 := Row("", Stored(data))]
  {
    var item := Item(None, "", data);
    cat' := InsertSpec(cat, c, item).1;
    assert InsertOutcome(cat, c, item, Ok(1), cat');
    StepReachable(cat, Insert(c, item), cat', true);
  }

  /** Three collections: `s` refers to `t` with set_null and `r` refers to `t` with restrict. */
  lemma TwoDependents(t: string, s: string, r: string, f: string) returns (cat: Catalog)
    requires IsName(t) && IsName(s) && IsName(r) && IsName(f) && t != s && s != r && r != t
    ensures Reachable(cat, true) && cat.colls.Keys == {t, s, r}
    ensures cat.refs == map[RefKey(s, f) := RefDecl(t, SetNull), RefKey(r, f) := RefDecl(t, Restrict)]
    ensures forall c | c in cat.colls :: !cat.colls[c].hasVector && cat.colls[c].rows == map[] && cat.colls[c].lastId == 0
  {
    StartReachable(true);
    cat := CreatePlain(EMPTY, t, true);
    cat := CreateReferring(cat, RefKey(s, f), t, "set_null", true);
    cat := CreateReferring(cat, RefKey(r, f), t, "restrict", true);
  }

  /** A document of `t`, and one of `s` and one of `r` that refer to it. */
  lemma TwoReferrers(t: string, s: string, r: string, f: string) returns (cat: Catalog)
    requires IsName(t) && IsName(s) && IsName(r) && IsName(f) && t != s && s != r && r != t
    ensures Reachable(cat, true) && cat.colls.Keys == {t, s, r}
    ensures cat.refs == map[RefKey(s, f) := RefDecl(t, SetNull), RefKey(r, f) := RefDecl(t, Restrict)]
    ensures forall c | c in {s, r} :: cat.colls[c].rows == map[1 := Row("", Obj(map[f := JInt(1)]))]
  {
    var data := Obj(map[f := JInt(1)]);
    cat := TwoDependents(t, s, r, f);
    cat := FirstDocument(cat, t, Obj(map[]));
    assert DataValid(cat, s, data) && DataValid(cat, r, data);
    cat := FirstDocument(cat, s, data);
    cat := FirstDocument(cat, r, data);
  }

  /** A state reached without any drop in which a refused delete changes a document. */
  lemma RefusalWithEffectReached(t: string, s: string, r: string, f: string) returns (cat: Catalog, cat': Catalog, cells: set<Cell>)
    requires IsName(t) && IsName(s) && IsName(r) && IsName(f) && t != s && s != r && r != t
    ensures Reachable(cat, true) && DeleteOutcome(cat, t, 1, Err(Restricted), cat', cells) && cat' != cat
  {
    cat := TwoReferrers(t, s, r, f);
    ReachableIsConsistent(cat, true);
    assert RefKey(s, f) in Dependents(cat, t, SetNull) && RefKey(r, f) in Dependents(cat, t, Restrict);
    assert Cell(s, 1, f) in SetNullCells(cat, t, 1);
    assert Cell(r, 1, f) in CellsOf(cat, Dependents(cat, t, Restrict), 1);
    RefusalIsSilentIff(cat, t, 1);
    cat', cells :| DeleteOutcome(cat, t, 1, Err(Restricted), cat', cells) && cat' != cat;
  }
}
