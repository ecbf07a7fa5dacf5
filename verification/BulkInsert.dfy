/** A bulk insert against the same items inserted one by one. */
module BulkInserts {
  import opened Documents
  import opened Catalogs
  import opened Integrity
  import opened Runs

  /** The items sent through insertDocument in turn, stopping at the first failure. */
  ghost function OneByOne(cat: Catalog, c: string, items: seq<Item>): (r: Result<(seq<int>, Catalog)>)
    requires c in cat.colls
    ensures r.Ok? ==> c in r.value.1.colls
    decreases |items|
  {
    if |items| == 0 then Ok(([], cat))
    else
      match OneByOne(cat, c, items[..|items|-1])
      case Err(e) => Err(e)
      case Ok((ids, before)) =>
        match InsertSpec(before, c, items[|items|-1])
        case (Err(e), _) => Err(e)
        case (Ok(i), after) => Ok((ids + [i], after))
  }

  ghost predicate SelfReferencing(cat: Catalog, c: string) {
    exists k | k in cat.refs :: k.coll == c && cat.refs[k].target == c
  }

  /** Two states that differ in the documents of `c` only. */
  lemma DataValidWithoutSelfReference(cat: Catalog, c: string, coll': Coll, data: Payload)
    requires c in cat.colls && !SelfReferencing(cat, c)
    ensures DataValid(SetColl(cat, c, coll'), c, data) <==> DataValid(cat, c, data)
  {
  }

  /** A batch that lands is what its items inserted one by one leave: same ids, same state. */
  lemma {:induction false} LandedBatchIsOneByOne(cat: Catalog, c: string, items: seq<Item>)
    requires Sound(cat) && c in cat.colls && AllValid(cat, c, items) && PlaceAll(cat.colls[c], items).Ok?
    ensures var (ids, coll) := PlaceAll(cat.colls[c], items).value;
      OneByOne(cat, c, items) == Ok((ids, SetColl(cat, c, coll)))
    decreases |items|
  {
    if |items| == 0 {
      assert SetColl(cat, c, cat.colls[c]).colls == cat.colls;
      return;
    }
    var init, item := items[..|items|-1], items[|items|-1];
    LandedBatchIsOneByOne(cat, c, init);
    PlaceAllExtends(cat.colls[c], init);
    LandedOneMore(cat, c, PlaceAll(cat.colls[c], init).value.1, item);
  }

  lemma LandedOneMore(cat: Catalog, c: string, before: Coll, item: Item)
    requires c in cat.colls && cat.colls[c].rows.Keys <= before.rows.Keys && DataValid(cat, c, item.data)
    ensures InsertSpec(SetColl(cat, c, before), c, item) ==
      match ChooseId(before, item.id)
      case Err(e) => (Err(e), SetColl(cat, c, before))
      case Ok(i) => (Ok(i), SetColl(cat, c, Inserted(before, i, StoredRow(before, item.text, item.data))))
  {
    var mid := SetColl(cat, c, before);
    DataValidGrows(cat, mid, c, item.data);
    if ChooseId(before, item.id).Ok? {
      var i := ChooseId(before, item.id).value;
      var after := Inserted(before, i, StoredRow(before, item.text, item.data));
      assert SetColl(mid, c, after).colls == SetColl(cat, c, after).colls;
    }
  }

  /** Without a self-reference no item can depend on an earlier one of its own batch. */
  lemma {:induction false} OneByOneLands(cat: Catalog, c: string, items: seq<Item>)
    requires Sound(cat) && c in cat.colls && !SelfReferencing(cat, c) && OneByOne(cat, c, items).Ok?
    ensures AllValid(cat, c, items) && PlaceAll(cat.colls[c], items).Ok?
    decreases |items|
  {
    if |items| == 0 { return; }
    var init, item := items[..|items|-1], items[|items|-1];
    OneByOneLands(cat, c, init);
    LandedBatchIsOneByOne(cat, c, init);
    DataValidWithoutSelfReference(cat, c, PlaceAll(cat.colls[c], init).value.1, item.data);
    forall j | 0 <= j < |items| ensures DataValid(cat, c, items[j].data) {
      if j < |init| {
        assert items[j] == init[j];
      }
    }
  }

  /** The batch gives what its items inserted one by one give: the same ids in request order and
      the same final state, or a refusal that changes nothing. */
  ghost predicate Agrees(cat: Catalog, c: string, items: seq<Item>)
    requires c in cat.colls
  {
    var (r, cat') := BulkSpec(cat, c, items);
    && (r.Ok? <==> OneByOne(cat, c, items).Ok?)
    && (r.Ok? ==> OneByOne(cat, c, items) == Ok((r.value, cat')))
    && (r.Err? ==> cat' == cat)
  }

  lemma BulkRefinesOneByOne(cat: Catalog, c: string, items: seq<Item>)
    requires Sound(cat) && c in cat.colls && !SelfReferencing(cat, c)
    ensures Agrees(cat, c, items)
  {
    if OneByOne(cat, c, items).Ok? {
      OneByOneLands(cat, c, items);
    }
    if BulkSpec(cat, c, items).0.Ok? {
      LandedBatchIsOneByOne(cat, c, items);
    }
  }

  /** A document, and one that refers to it through the self-reference `k`. */
  function LinkedPair(coll: Coll, k: RefKey): seq<Item> {
    [Item(None, "text", Obj(map[])), Item(None, "text", Obj(map[k.field := JInt(coll.lastId + 1)]))]
  }

  lemma OneMore(cat: Catalog, c: string, items: seq<Item>, item: Item)
    requires c in cat.colls && OneByOne(cat, c, items).Ok?
    ensures var (r, after) := InsertSpec(OneByOne(cat, c, items).value.1, c, item);
      if r.Ok? then OneByOne(cat, c, items + [item]).Ok? && OneByOne(cat, c, items + [item]).value.1 == after
      else OneByOne(cat, c, items + [item]).Err?
  {
    assert (items + [item])[..|items|] == items;
  }

  lemma LinkedPairIsRefused(cat: Catalog, k: RefKey)
    requires Sound(cat) && k in cat.refs && k.coll in cat.colls && cat.refs[k].target == k.coll
    ensures BulkSpec(cat, k.coll, LinkedPair(cat.colls[k.coll], k)).0 == Err(BadReference)
  {
    var items := LinkedPair(cat.colls[k.coll], k);
    assert !RefFieldValid(cat, k.coll, Field(items[1].data, k.field));
    assert !DataValid(cat, k.coll, items[1].data);
  }

  lemma LinkedPairLands(cat: Catalog, k: RefKey)
    requires Sound(cat) && k in cat.refs && k.coll in cat.colls && cat.refs[k].target == k.coll
    ensures OneByOne(cat, k.coll, LinkedPair(cat.colls[k.coll], k)).Ok?
  {
    var c, items := k.coll, LinkedPair(cat.colls[k.coll], k);
    var first, second := items[0], items[1];
    var mid := InsertSpec(cat, c, first).1;
    assert DataValid(cat, c, first.data);
    OneMore(cat, c, [], first);
    OneMore(cat, c, [first], second);
    assert [] + [first] == [first] && [first] + [second] == items;
    forall k' | k' in mid.refs && k'.coll == c ensures RefFieldValid(mid, mid.refs[k'].target, Field(second.data, k'.field)) {
      if k'.field == k.field { assert k' == k; }
    }
  }

  /** A batch and its items one by one agree on all requests exactly when the collection does not
      refer to itself. */
  lemma BulkAgreesIff(cat: Catalog, c: string)
    requires Sound(cat) && c in cat.colls
    ensures (forall items :: Agrees(cat, c, items)) <==> !SelfReferencing(cat, c)
  {
    if SelfReferencing(cat, c) {
      var k :| k in cat.refs && k.coll == c && cat.refs[k].target == c;
      LinkedPairIsRefused(cat, k);
      LinkedPairLands(cat, k);
      assert !Agrees(cat, c, LinkedPair(cat.colls[c], k));
    } else {
      forall items ensures Agrees(cat, c, items) {
        BulkRefinesOneByOne(cat, c, items);
      }
    }
  }

  /** They agree in every state of a run that drops only collections no declaration mentions. */
  lemma BulkAgreesInRuns(cats: seq<Catalog>, cmds: seq<Command>, n: nat, c: string, items: seq<Item>)
    requires Run(cats, cmds) && DropsUnreferenced(cats, cmds) && n < |cats| && c in cats[n].colls
    ensures Agrees(cats[n], c, items)
  {
    RunKeepsConsistent(cats, cmds, n);
    if SelfReferencing(cats[n], c) {
      assert RefersTo(cats[n], c, c);
      assert RefPath(cats[n], [c, c]);
      ReferenceGraphAcyclic(cats, cmds, n, [c, c]);
      assert false;
    }
    BulkRefinesOneByOne(cats[n], c, items);
  }

  /** Without that restriction a collection that refers to itself can be reached: create `b`,
      create `a` that refers to `b`, drop `a`, rename `b` to `a`. */
  lemma SelfReferenceReached(a: string, b: string, field: string) returns (cat: Catalog)
    requires IsName(a) && IsName(b) && IsName(field) && a != b
    ensures Reachable(cat, false) && a in cat.colls
    ensures RefKey(a, field) in cat.refs && cat.refs[RefKey(a, field)].target == a
  {
    StartReachable(false);
    var first := CreatePlain(EMPTY, b, false);
    var both := CreateReferring(first, RefKey(a, field), b, "restrict", false);
    cat := AfterDropAndRename(both, RefKey(a, field));
  }

  lemma AfterDropAndRename(cat: Catalog, k: RefKey) returns (after: Catalog)
    requires Reachable(cat, false) && k in cat.refs && k.coll in cat.colls && IsName(k.coll)
    requires cat.refs[k].target in cat.colls && cat.refs[k].target != k.coll
    requires forall d | d in cat.refs :: d.coll != cat.refs[k].target
    ensures Reachable(after, false) && k.coll in after.colls && k in after.refs && after.refs[k].target == k.coll
  {
    var a, b, dropped := k.coll, cat.refs[k].target, Dropped(cat, k.coll);
    DropThenRenameMakesSelfReference(cat, k);
    StepReachable(cat, Drop(a), dropped, false);
    after := Renamed(dropped, b, a);
    StepReachable(dropped, Rename(b, a), after, false);
    assert k in RenamedOwners(cat.refs, b, a);
    RenamedRefsOrigin(cat.refs, b, a, k);
  }

  /** There a batch whose second item refers to its first is refused, and lands one by one. */
  lemma SelfReferencingBatch(a: string, b: string, field: string) returns (cat: Catalog, items: seq<Item>)
    requires IsName(a) && IsName(b) && IsName(field) && a != b
    ensures Reachable(cat, false) && a in cat.colls
    ensures BulkSpec(cat, a, items).0 == Err(BadReference) && OneByOne(cat, a, items).Ok?
  {
    cat := SelfReferenceReached(a, b, field);
    ReachableIsConsistent(cat, false);
    var k := RefKey(a, field);
    items := LinkedPair(cat.colls[a], k);
    LinkedPairIsRefused(cat, k);
    LinkedPairLands(cat, k);
  }
}
