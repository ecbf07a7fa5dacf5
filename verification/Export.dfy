/** Export and reload: a collection read in id order, cut into batches and posted again. */
module Export {
  import opened Documents
  import opened Catalogs
  import opened Integrity
  import opened Runs
  import opened Sorting
  import QueryBuilder
  import Search

  /** A document as list and export return it. */
  datatype Document = Document(id: int, text: string, data: Payload)

  const MAX_LIST_LIMIT := 1000
  const BULK_MAX_ITEMS := 100
  const ID_ORDER: (int, int) -> bool := (a: int, b: int) => a < b

  // ---------------------------------------------------------------- listing and paging

  ghost function SortedIds(rows: map<int, Row>): seq<int> {
    SortedList(rows.Keys, ID_ORDER)
  }

  function DocumentsAt(rows: map<int, Row>, ids: seq<int>): seq<Document>
    requires forall i | 0 <= i < |ids| :: ids[i] in rows
  {
    seq(|ids|, i requires 0 <= i < |ids| => Document(ids[i], rows[ids[i]].text, rows[ids[i]].data))
  }

  /** Every document, in ascending id order. */
  ghost function Listing(rows: map<int, Row>): (docs: seq<Document>)
    ensures |docs| == |rows|
    ensures forall i, j | 0 <= i < j < |docs| :: docs[i].id < docs[j].id
    ensures forall i | 0 <= i < |docs| :: docs[i].id in rows && rows[docs[i].id] == Row(docs[i].text, docs[i].data)
  {
    var ids := SortedIds(rows);
    assert forall i | 0 <= i < |ids| :: ids[i] in ids;
    DocumentsAt(rows, ids)
  }

  lemma ListingIsComplete(rows: map<int, Row>, id: int)
    requires id in rows
    ensures Document(id, rows[id].text, rows[id].data) in Listing(rows)
  {
    var ids := SortedIds(rows);
    assert id in ids;
    var i :| 0 <= i < |ids| && ids[i] == id;
    assert Listing(rows)[i] == Document(id, rows[id].text, rows[id].data);
  }

  // ---------------------------------------------------------------- filters and sort orders

  /** The meaning of one comparison, `json_extract(data, field) op value`. */
  type Comparison = (Json, string, QueryBuilder.Value) -> bool

  predicate Satisfies(holds: Comparison, conds: seq<QueryBuilder.Condition>, doc: Document) {
    forall i | 0 <= i < |conds| :: holds(Field(doc.data, conds[i].field), conds[i].op, conds[i].value)
  }

  /** The documents that satisfy every condition, in their order. */
  function Selected(holds: Comparison, conds: seq<QueryBuilder.Condition>, docs: seq<Document>): (q: seq<Document>)
    ensures forall doc | doc in q :: doc in docs && Satisfies(holds, conds, doc)
    ensures forall doc | doc in docs && Satisfies(holds, conds, doc) :: doc in q
  {
    if |docs| == 0 then []
    else
      var rest := Selected(holds, conds, docs[..|docs|-1]);
      assert docs == docs[..|docs|-1] + [docs[|docs|-1]];
      if Satisfies(holds, conds, docs[|docs|-1]) then rest + [docs[|docs|-1]] else rest
  }

  lemma {:induction false} SelectedAll(holds: Comparison, docs: seq<Document>)
    ensures Selected(holds, [], docs) == docs
    decreases |docs|
  {
    if |docs| > 0 {
      SelectedAll(holds, docs[..|docs|-1]);
      assert docs == docs[..|docs|-1] + [docs[|docs|-1]];
    }
  }

  predicate InOrder(sort: QueryBuilder.SortSpec, a: Document, b: Document) {
    Search.InFieldOrder(sort.field, sort.desc, a.data, b.data)
  }

  ghost predicate Arranged(sort: QueryBuilder.SortSpec, docs: seq<Document>) {
    forall i, j | 0 <= i < j < |docs| :: InOrder(sort, docs[i], docs[j])
  }

  /** `full` is what a listing without LIMIT returns: by id, or by the field with ties in any order. */
  ghost predicate IsListing(full: seq<Document>, rows: map<int, Row>, holds: Comparison, conds: seq<QueryBuilder.Condition>,
                            sort: Option<QueryBuilder.SortSpec>)
  {
    var chosen := Selected(holds, conds, Listing(rows));
    match sort
    case None => full == chosen
    case Some(s) => multiset(full) == multiset(chosen) && Arranged(s, full)
  }

  // ---------------------------------------------------------------- what a listing is

  ghost predicate IdsIncrease(docs: seq<Document>) {
    forall i, j | 0 <= i < j < |docs| :: docs[i].id < docs[j].id
  }

  /** The document is a row that satisfies every condition. */
  ghost predicate IsChosen(doc: Document, rows: map<int, Row>, holds: Comparison, conds: seq<QueryBuilder.Condition>) {
    && doc.id in rows && rows[doc.id] == Row(doc.text, doc.data)
    && forall c | c in conds :: holds(Field(doc.data, c.field), c.op, c.value)
  }

  lemma {:induction false} SelectedIncreases(holds: Comparison, conds: seq<QueryBuilder.Condition>, docs: seq<Document>)
    requires IdsIncrease(docs)
    ensures IdsIncrease(Selected(holds, conds, docs))
    decreases |docs|
  {
    if |docs| > 0 {
      var init, last := docs[..|docs|-1], docs[|docs|-1];
      var rest := Selected(holds, conds, init);
      SelectedIncreases(holds, conds, init);
      forall i | 0 <= i < |rest| ensures rest[i].id < last.id {
        assert rest[i] in init;
        var j :| 0 <= j < |init| && init[j] == rest[i];
      }
    }
  }

  lemma SelectedIsChosen(doc: Document, rows: map<int, Row>, holds: Comparison, conds: seq<QueryBuilder.Condition>)
    ensures doc in Selected(holds, conds, Listing(rows)) <==> IsChosen(doc, rows, holds, conds)
  {
    if IsChosen(doc, rows, holds, conds) {
      ListingIsComplete(rows, doc.id);
      assert Satisfies(holds, conds, doc);
    }
    if doc in Selected(holds, conds, Listing(rows)) {
      assert doc in Listing(rows) && Satisfies(holds, conds, doc);
      forall c | c in conds ensures holds(Field(doc.data, c.field), c.op, c.value) {
        var i :| 0 <= i < |conds| && conds[i] == c;
      }
    }
  }

  /** Documents in id order are determined by which they are. */
  lemma {:induction false} IncreasingUnique(p: seq<Document>, q: seq<Document>)
    requires IdsIncrease(p) && IdsIncrease(q) && forall doc :: doc in p <==> doc in q
    ensures p == q
    decreases |p|
  {
    assert |p| > 0 ==> p[0] in q;
    assert |q| > 0 ==> q[0] in p;
    if p == [] || q == [] { return; }
    var i :| 0 <= i < |q| && q[i] == p[0];
    var j :| 0 <= j < |p| && p[j] == q[0];
    assert p[0] == q[0];
    forall doc ensures doc in p[1..] <==> doc in q[1..] {
      assert doc in p <==> doc == p[0] || doc in p[1..];
      assert doc in q <==> doc == q[0] || doc in q[1..];
      assert p[0] !in p[1..] && q[0] !in q[1..];
    }
    IncreasingUnique(p[1..], q[1..]);
  }

  lemma {:induction false} OnceEach(docs: seq<Document>, doc: Document)
    requires IdsIncrease(docs)
    ensures multiset(docs)[doc] == if doc in docs then 1 else 0
    decreases |docs|
  {
    if |docs| > 0 {
      var init, last := docs[..|docs|-1], docs[|docs|-1];
      assert docs == init + [last];
      OnceEach(init, doc);
    }
  }

  /** A listing without a sort order: the rows that satisfy every condition, and no others, in
      ascending id order. */
  lemma UnsortedListingIff(full: seq<Document>, rows: map<int, Row>, holds: Comparison, conds: seq<QueryBuilder.Condition>)
    ensures IsListing(full, rows, holds, conds, None)
            <==> IdsIncrease(full) && forall doc :: doc in full <==> IsChosen(doc, rows, holds, conds)
  {
    var chosen := Selected(holds, conds, Listing(rows));
    SelectedIncreases(holds, conds, Listing(rows));
    forall doc ensures doc in chosen <==> IsChosen(doc, rows, holds, conds) {
      SelectedIsChosen(doc, rows, holds, conds);
    }
    if IdsIncrease(full) && forall doc :: doc in full <==> IsChosen(doc, rows, holds, conds) {
      IncreasingUnique(full, chosen);
    }
  }

  /** A sorted listing: each row that satisfies every condition once, and no others, arranged by the
      field. */
  lemma SortedListingIff(full: seq<Document>, rows: map<int, Row>, holds: Comparison, conds: seq<QueryBuilder.Condition>,
                         sort: QueryBuilder.SortSpec)
    ensures IsListing(full, rows, holds, conds, Some(sort))
            <==> Arranged(sort, full) && forall doc :: multiset(full)[doc] == if IsChosen(doc, rows, holds, conds) then 1 else 0
  {
    var chosen := Selected(holds, conds, Listing(rows));
    SelectedIncreases(holds, conds, Listing(rows));
    forall doc ensures multiset(chosen)[doc] == if IsChosen(doc, rows, holds, conds) then 1 else 0 {
      SelectedIsChosen(doc, rows, holds, conds);
      OnceEach(chosen, doc);
    }
  }

  /** ORDER BY json_extract(data, field): an insertion sort stands for whatever the database does. */
  method Arrange(docs: seq<Document>, sort: QueryBuilder.SortSpec) returns (q: seq<Document>)
    ensures multiset(q) == multiset(docs) && Arranged(sort, q)
  {
    q := [];
    for n := 0 to |docs|
      invariant multiset(q) == multiset(docs[..n]) && Arranged(sort, q)
    {
      q := ArrangeInto(q, docs[n], sort);
      assert docs[..n + 1] == docs[..n] + [docs[n]];
    }
    assert docs[..|docs|] == docs;
  }

  method ArrangeInto(q: seq<Document>, doc: Document, sort: QueryBuilder.SortSpec) returns (more: seq<Document>)
    requires Arranged(sort, q)
    ensures multiset(more) == multiset(q) + multiset{doc} && Arranged(sort, more)
  {
    var k := |q|;
    while k > 0 && !InOrder(sort, q[k - 1], doc)
      invariant 0 <= k <= |q| && forall i | k <= i < |q| :: InOrder(sort, doc, q[i])
    {
      Search.InFieldOrderIsPreorder(sort.field, sort.desc, q[k - 1].data, doc.data, doc.data);
      k := k - 1;
    }
    ArrangedWith(sort, q, k, doc);
    InsertedOnce(q, k, doc);
    more := q[..k] + [doc] + q[k..];
  }

  lemma InsertedOnce<T>(q: seq<T>, k: nat, x: T)
    requires k <= |q|
    ensures multiset(q[..k] + [x] + q[k..]) == multiset(q) + multiset{x}
  {
    assert q == q[..k] + q[k..];
  }

  lemma ArrangedWith(sort: QueryBuilder.SortSpec, q: seq<Document>, k: nat, doc: Document)
    requires Arranged(sort, q) && k <= |q| && (k > 0 ==> InOrder(sort, q[k - 1], doc))
    requires forall i | k <= i < |q| :: InOrder(sort, doc, q[i])
    ensures Arranged(sort, q[..k] + [doc] + q[k..])
  {
    forall i | 0 <= i < k ensures InOrder(sort, q[i], doc) {
      if i < k - 1 { Search.InFieldOrderIsPreorder(sort.field, sort.desc, q[i].data, q[k - 1].data, doc.data); }
    }
  }

  // ---------------------------------------------------------------- pages

  /** LIMIT ? OFFSET ? applied to a listing. */
  function Page<T>(docs: seq<T>, limit: nat, offset: nat): seq<T> {
    docs[AtMost(offset, |docs|)..AtMost(offset + limit, |docs|)]
  }

  /** A page holds the documents at its positions, as many as there are. */
  lemma PageMeaning<T>(docs: seq<T>, limit: nat, offset: nat)
    ensures var page := Page(docs, limit, offset);
      && |page| == (if |docs| <= offset then 0 else if |docs| - offset < limit then |docs| - offset else limit)
      && forall i | 0 <= i < |page| :: page[i] == docs[offset + i]
  {
  }

  /** A batch is let through exactly when it has 1 to 100 items, each with a text in a vector collection. */
  lemma BatchErrorMeaning(hasVector: bool, items: seq<Item>)
    ensures BatchError(hasVector, items).None? <==> 1 <= |items| <= 100 && (hasVector ==> forall i | 0 <= i < |items| :: items[i].text != "")
    ensures BatchError(hasVector, items) == Some(EmptyBatch) <==> items == []
    ensures BatchError(hasVector, items) == Some(BatchTooLarge) <==> |items| > 100
  {
  }

  /** One more page: it ends the listing exactly when it is short. */
  lemma NextPage<T>(docs: seq<T>, limit: nat, offset: nat)
    requires offset <= |docs| && limit > 0
    ensures var page := Page(docs, limit, offset);
      && docs[..offset] + page == docs[..AtMost(offset + limit, |docs|)]
      && (|page| < limit ==> docs[..offset] + page == docs)
      && (|page| >= limit ==> offset + limit <= |docs|)
  {
  }

  // ---------------------------------------------------------------- posting again

  function AsItem(doc: Document): Item {
    Item(Some(doc.id), doc.text, doc.data)
  }

  function AsItems(docs: seq<Document>): seq<Item> {
    seq(|docs|, i requires 0 <= i < |docs| => AsItem(docs[i]))
  }

  /** The batch checks of handleBulkInsertDocument. */
  function BatchError(hasVector: bool, items: seq<Item>): Option<StoreError> {
    if |items| == 0 then Some(EmptyBatch)
    else if |items| > BULK_MAX_ITEMS then Some(BatchTooLarge)
    else if hasVector && exists j | 0 <= j < |items| :: items[j].text == "" then Some(TextRequired)
    else None
  }

  /** A bulk request: the batch checks, then insertDocumentBulk. */
  ghost function BulkRequest(cat: Catalog, c: string, items: seq<Item>): (Result<seq<int>>, Catalog)
    requires c in cat.colls
  {
    match BatchError(cat.colls[c].hasVector, items)
    case Some(e) => (Err(e), cat)
    case None => BulkSpec(cat, c, items)
  }

  /** The batches posted one after the other, stopping at the first refusal. */
  ghost function Reload(cat: Catalog, c: string, batches: seq<seq<Document>>): (r: Result<Catalog>)
    requires c in cat.colls
    ensures r.Ok? ==> c in r.value.colls
    decreases |batches|
  {
    if |batches| == 0 then Ok(cat)
    else
      match Reload(cat, c, batches[..|batches|-1])
      case Err(e) => Err(e)
      case Ok(mid) =>
        match BulkRequest(mid, c, AsItems(batches[|batches|-1]))
        case (Err(e), _) => Err(e)
        case (Ok(_), after) => Ok(after)
  }

  function Concat<T>(parts: seq<seq<T>>): seq<T> {
    if |parts| == 0 then [] else Concat(parts[..|parts|-1]) + parts[|parts|-1]
  }

  // ---------------------------------------------------------------- one batch

  ghost predicate DistinctIds(docs: seq<Document>) {
    forall i, j | 0 <= i < j < |docs| :: docs[i].id != docs[j].id
  }

  function Ids(docs: seq<Document>): set<int> {
    set doc | doc in docs :: doc.id
  }

  /** Documents a collection of this kind can have stored. */
  ghost predicate Storable(hasVector: bool, docs: seq<Document>) {
    forall doc | doc in docs :: !doc.data.Missing? && (!hasVector ==> doc.text == "")
  }

  ghost predicate Holds(coll: Coll, doc: Document) {
    doc.id in coll.rows && coll.rows[doc.id] == Row(doc.text, doc.data)
  }

  /** `coll'` is `coll` plus exactly these documents, all of them indexed. */
  ghost predicate Loaded(coll: Coll, docs: seq<Document>, coll': Coll) {
    && SameShape(coll, coll') && CollSound(coll')
    && coll'.rows.Keys == coll.rows.Keys + Ids(docs)
    && (forall i | i in coll.rows :: coll'.rows[i] == coll.rows[i])
    && (forall doc | doc in docs :: Holds(coll', doc))
    && (coll.hasVector && coll.index.Keys == coll.rows.Keys ==> coll'.index.Keys == coll'.rows.Keys)
  }

  lemma LoadedThenLoaded(coll: Coll, first: seq<Document>, mid: Coll, second: seq<Document>, coll': Coll)
    requires Loaded(coll, first, mid) && Loaded(mid, second, coll')
    ensures Loaded(coll, first + second, coll')
  {
  }

  lemma PlaceDoc(coll: Coll, doc: Document)
    requires CollSound(coll) && doc.id !in coll.rows && Storable(coll.hasVector, [doc])
    ensures ChooseId(coll, AsItem(doc).id) == Ok(doc.id)
    ensures Loaded(coll, [doc], Inserted(coll, doc.id, StoredRow(coll, doc.text, doc.data)))
  {
  }

  lemma {:induction false} PlaceDocs(coll: Coll, docs: seq<Document>)
    requires CollSound(coll) && DistinctIds(docs) && Storable(coll.hasVector, docs)
    requires forall doc | doc in docs :: doc.id !in coll.rows
    ensures PlaceAll(coll, AsItems(docs)).Ok?
    ensures Loaded(coll, docs, PlaceAll(coll, AsItems(docs)).value.1)
    decreases |docs|
  {
    if |docs| == 0 { return; }
    var init, doc := docs[..|docs|-1], docs[|docs|-1];
    assert docs == init + [doc] && AsItems(docs) == AsItems(init) + [AsItem(doc)];
    PlaceDocs(coll, init);
    var before := PlaceAll(coll, AsItems(init)).value.1;
    PlaceDoc(before, doc);
    PlaceOneMore(coll, AsItems(init), AsItem(doc));
    LoadedThenLoaded(coll, init, before, [doc], Inserted(before, doc.id, StoredRow(before, doc.text, doc.data)));
  }

  // ---------------------------------------------------------------- the round trip

  function IdsIn(cat: Catalog, name: string): set<int> {
    if name in cat.colls then cat.colls[name].rows.Keys else {}
  }

  /** `c0` declares no reference that `c` lacks, and the documents it may point at are all there. */
  ghost predicate SameTargets(cat: Catalog, c: string, cat0: Catalog, c0: string) {
    forall k | k in cat0.refs && k.coll == c0 ::
      && RefKey(c, k.field) in cat.refs && cat0.refs[k].target != c0
      && IdsIn(cat, cat.refs[RefKey(c, k.field)].target) <= IdsIn(cat0, cat0.refs[k].target)
  }

  lemma TargetsAccept(cat: Catalog, c: string, cat0: Catalog, c0: string, coll': Coll, data: Payload)
    requires SameTargets(cat, c, cat0, c0) && DataValid(cat, c, data) && c0 in cat0.colls
    ensures DataValid(SetColl(cat0, c0, coll'), c0, data)
  {
  }

  /** What the batches carry: documents of collection `c` of `cat`, each once. */
  ghost predicate Exported(cat: Catalog, c: string, docs: seq<Document>) {
    c in cat.colls && DistinctIds(docs) && forall doc | doc in docs :: Holds(cat.colls[c], doc)
  }

  /** The documents of this one collection satisfy its declarations. */
  ghost predicate CollRefsHold(cat: Catalog, c: string)
    requires c in cat.colls
  {
    forall i | i in cat.colls[c].rows :: DataValid(cat, c, cat.colls[c].rows[i].data)
  }

  /** The collection being filled: what has been loaded so far is there and nothing else. */
  ghost predicate Filling(cat: Catalog, c: string, cat0: Catalog, c0: string, loaded: seq<Document>, coll: Coll) {
    && c in cat.colls && c0 in cat0.colls && cat0.colls[c0].rows == map[]
    && cat0.colls[c0].hasVector == cat.colls[c].hasVector
    && SameTargets(cat, c, cat0, c0) && Loaded(cat0.colls[c0], loaded, coll)
  }

  lemma BatchIsAccepted(cat: Catalog, c: string, cat0: Catalog, c0: string, coll: Coll, batch: seq<Document>)
    requires Consistent(cat) && Exported(cat, c, batch) && CollRefsHold(cat, c) && 1 <= |batch| <= BULK_MAX_ITEMS
    requires c0 in cat0.colls && coll.hasVector == cat.colls[c].hasVector && SameTargets(cat, c, cat0, c0)
    ensures AllValid(SetColl(cat0, c0, coll), c0, AsItems(batch))
    ensures BulkRequest(SetColl(cat0, c0, coll), c0, AsItems(batch)) == BulkSpec(SetColl(cat0, c0, coll), c0, AsItems(batch))
    ensures Storable(coll.hasVector, batch)
  {
    forall doc | doc in batch
      ensures DataValid(SetColl(cat0, c0, coll), c0, doc.data) && !doc.data.Missing?
      ensures if coll.hasVector then doc.text != "" else doc.text == ""
    {
      assert Holds(cat.colls[c], doc);
      assert DataValid(cat, c, cat.colls[c].rows[doc.id].data);
      TargetsAccept(cat, c, cat0, c0, coll, doc.data);
    }
  }

  lemma BatchLoads(cat: Catalog, c: string, cat0: Catalog, c0: string, coll: Coll, loaded: seq<Document>, batch: seq<Document>)
    requires Consistent(cat) && Exported(cat, c, loaded + batch) && CollRefsHold(cat, c) && 1 <= |batch| <= BULK_MAX_ITEMS
    requires Filling(cat, c, cat0, c0, loaded, coll)
    ensures var (r, after) := BulkRequest(SetColl(cat0, c0, coll), c0, AsItems(batch));
      r.Ok? && c0 in after.colls && Filling(cat, c, cat0, c0, loaded + batch, after.colls[c0])
      && after == SetColl(cat0, c0, after.colls[c0])
  {
    ExportedSuffix(cat, c, loaded, batch);
    BatchIsAccepted(cat, c, cat0, c0, coll, batch);
    BatchIsNew(loaded, batch);
    PlaceDocs(coll, batch);
    var coll' := PlaceAll(coll, AsItems(batch)).value.1;
    LoadedThenLoaded(cat0.colls[c0], loaded, coll, batch, coll');
    SetCollTwice(cat0, c0, coll, coll');
  }

  lemma SetCollTwice(cat: Catalog, c: string, first: Coll, second: Coll)
    ensures SetColl(SetColl(cat, c, first), c, second) == SetColl(cat, c, second)
  {
  }

  lemma ExportedSuffix(cat: Catalog, c: string, first: seq<Document>, second: seq<Document>)
    requires Exported(cat, c, first + second)
    ensures Exported(cat, c, second)
  {
    assert forall i | 0 <= i < |second| :: second[i] == (first + second)[|first| + i];
    assert forall doc | doc in second :: doc in first + second;
  }

  lemma BatchIsNew(loaded: seq<Document>, batch: seq<Document>)
    requires DistinctIds(loaded + batch)
    ensures forall doc | doc in batch :: doc.id !in Ids(loaded)
  {
    var docs := loaded + batch;
    forall i, j | 0 <= i < |loaded| && 0 <= j < |batch| ensures loaded[i].id != batch[j].id {
      assert docs[i] == loaded[i] && docs[|loaded| + j] == batch[j];
    }
  }

  lemma {:induction false} ReloadLoads(cat: Catalog, c: string, cat0: Catalog, c0: string, batches: seq<seq<Document>>)
    requires Consistent(cat) && Exported(cat, c, Concat(batches)) && CollRefsHold(cat, c)
    requires c0 in cat0.colls && CollSound(cat0.colls[c0]) && Filling(cat, c, cat0, c0, [], cat0.colls[c0])
    requires forall b | 0 <= b < |batches| :: 1 <= |batches[b]| <= BULK_MAX_ITEMS
    ensures Reload(cat0, c0, batches).Ok?
    ensures var cat' := Reload(cat0, c0, batches).value;
      Filling(cat, c, cat0, c0, Concat(batches), cat'.colls[c0]) && cat' == SetColl(cat0, c0, cat'.colls[c0])
    decreases |batches|
  {
    if |batches| == 0 {
      assert SetColl(cat0, c0, cat0.colls[c0]).colls == cat0.colls;
      return;
    }
    var init, batch := batches[..|batches|-1], batches[|batches|-1];
    assert Concat(batches) == Concat(init) + batch;
    ExportedPrefix(cat, c, Concat(init), batch);
    ReloadLoads(cat, c, cat0, c0, init);
    BatchLoads(cat, c, cat0, c0, Reload(cat0, c0, init).value.colls[c0], Concat(init), batch);
  }

  lemma ExportedPrefix(cat: Catalog, c: string, first: seq<Document>, second: seq<Document>)
    requires Exported(cat, c, first + second)
    ensures Exported(cat, c, first)
  {
    assert forall i | 0 <= i < |first| :: first[i] == (first + second)[i];
    assert forall doc | doc in first :: doc in first + second;
  }

  /** Reloading an export into an empty collection of the same kind, in any split into batches of
      at most 100, rebuilds the same documents under the same ids, all indexed, and touches
      nothing else. */
  lemma ExportReloadRoundTrip(cat: Catalog, c: string, cat0: Catalog, c0: string, batches: seq<seq<Document>>)
    requires Consistent(cat) && c in cat.colls && CollRefsHold(cat, c)
    requires Concat(batches) == Listing(cat.colls[c].rows)
    requires forall b | 0 <= b < |batches| :: 1 <= |batches[b]| <= BULK_MAX_ITEMS
    requires c0 in cat0.colls && CollSound(cat0.colls[c0]) && cat0.colls[c0].rows == map[]
    requires cat0.colls[c0].hasVector == cat.colls[c].hasVector && SameTargets(cat, c, cat0, c0)
    ensures Reload(cat0, c0, batches).Ok?
    ensures var cat' := Reload(cat0, c0, batches).value;
      && cat'.colls[c0].rows == cat.colls[c].rows
      && (cat'.colls[c0].hasVector ==> cat'.colls[c0].index.Keys == cat'.colls[c0].rows.Keys)
      && cat' == SetColl(cat0, c0, cat'.colls[c0])
  {
    var docs := Concat(batches);
    ListingIsExported(cat, c);
    NothingLoaded(cat0.colls[c0]);
    ReloadLoads(cat, c, cat0, c0, batches);
    var coll' := Reload(cat0, c0, batches).value.colls[c0];
    LoadedIntoEmpty(cat0.colls[c0], docs, coll');
    ListingRebuilds(cat.colls[c].rows, docs, coll');
  }

  lemma NothingLoaded(coll: Coll)
    requires CollSound(coll)
    ensures Loaded(coll, [], coll)
  {
  }

  lemma LoadedIntoEmpty(coll: Coll, docs: seq<Document>, coll': Coll)
    requires CollSound(coll) && coll.rows == map[] && Loaded(coll, docs, coll')
    ensures coll'.rows.Keys == Ids(docs) && forall doc | doc in docs :: Holds(coll', doc)
    ensures coll'.hasVector ==> coll'.index.Keys == coll'.rows.Keys
  {
  }

  lemma ListingIsExported(cat: Catalog, c: string)
    requires c in cat.colls
    ensures Exported(cat, c, Listing(cat.colls[c].rows))
  {
  }

  lemma ListingRebuilds(rows: map<int, Row>, docs: seq<Document>, coll': Coll)
    requires docs == Listing(rows) && coll'.rows.Keys == Ids(docs) && forall doc | doc in docs :: Holds(coll', doc)
    ensures coll'.rows == rows
  {
    forall id | id in rows ensures id in coll'.rows && coll'.rows[id] == rows[id] {
      ListingIsComplete(rows, id);
      assert Holds(coll', Document(id, rows[id].text, rows[id].data));
    }
    forall id | id in coll'.rows ensures id in rows {
      var doc :| doc in docs && doc.id == id;
    }
  }
}
