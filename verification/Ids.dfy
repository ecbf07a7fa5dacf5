/** Ids over whole runs: the counter of a collection is the largest id it ever held, so an id is
    never given out twice, whatever has been deleted in between. */
module Ids {
  import opened Documents
  import opened Catalogs
  import opened Integrity
  import opened Runs
  import opened Meanings

  /** No id of a collection is ever taken back by a step, and its counter only moves to an id that
      the step has just stored. */
  ghost predicate CounterMoves(coll: Coll, coll': Coll) {
    && coll.lastId <= coll'.lastId && (coll'.lastId == coll.lastId || coll'.lastId in coll'.rows)
    && coll'.createdAt == coll.createdAt
  }

  lemma InsertMovesCounter(cat: Catalog, name: string, item: Item, r: Result<int>, cat': Catalog, c: string)
    requires InsertOutcome(cat, name, item, r, cat') && c in cat.colls
    ensures c in cat'.colls && CounterMoves(cat.colls[c], cat'.colls[c])
  {
    if cat' != cat {
      if InsertedUnindexed(cat, name, item, cat') {
        InterruptedInsertMeaning(cat, name, item, cat');
      }
      InsertMeaning(cat, name, item);
    }
  }

  lemma {:induction false} PlacingMovesCounter(coll: Coll, items: seq<Item>)
    requires CollSound(coll) && PlaceAll(coll, items).Ok?
    ensures CounterMoves(coll, PlaceAll(coll, items).value.1)
    decreases |items|
  {
    if |items| > 0 {
      PlacingMovesCounter(coll, items[..|items|-1]);
      PlaceAllExtends(coll, items[..|items|-1]);
    }
  }

  /** Every step, whatever fails in it, for every collection that was there before. */
  lemma StepMovesCounter(cat: Catalog, cmd: Command, cat': Catalog, c: string)
    requires Consistent(cat) && Step(cat, cmd, cat') && c in cat'.colls
    ensures var b := NameBefore(cat, cmd, cat', c);
      if b in cat.colls then CounterMoves(cat.colls[b], cat'.colls[c])
      else cat'.colls[c].lastId == 0 && cat'.colls[c].rows == map[] && cat'.colls[c].createdAt == cat.clock
  {
    if cat' == cat { return; }
    match cmd
    case Create(name, hasVector, dims, specs) => CreatedMeaning(cat, name, hasVector, dims, specs);
    case Rename(oldName, newName) =>
    case Drop(name) =>
    case Insert(name, item) => var r :| InsertOutcome(cat, name, item, r, cat'); InsertMovesCounter(cat, name, item, r, cat', c);
    case BulkInsert(name, items) => PlacingMovesCounter(cat.colls[name], items);
    case Update(name, id, text, data) => UpdateMeaning(cat, name, id, text, data);
    case Delete(name, id) => var r, cells :| DeleteOutcome(cat, name, id, r, cat', cells); DeleteLeaves(cat, name, id, r, cat', cells, c);
  }

  /** The collection created at `born` holds a document `id`, under whatever name. */
  ghost predicate Holds(cat: Catalog, born: nat, id: int) {
    exists d | d in cat.colls :: cat.colls[d].createdAt == born && id in cat.colls[d].rows
  }

  ghost predicate HoldsAt(cats: seq<Catalog>, m: nat, born: nat, id: int)
    requires m < |cats|
  {
    Holds(cats[m], born, id)
  }

  /** `last` is the largest id that the collection created at `born` held in states 0 to `n`, or 0
      if it never held a positive one. */
  ghost predicate LargestEver(cats: seq<Catalog>, n: nat, born: nat, last: int)
    requires n < |cats|
  {
    && last >= 0 && (last == 0 || exists m: nat :: m <= n && HoldsAt(cats, m, born, last))
    && forall m: nat, id | m <= n && HoldsAt(cats, m, born, id) :: id <= last
  }

  lemma HeldIsAtMostLast(cat: Catalog, c: string, id: int)
    requires Consistent(cat) && BornApart(cat) && c in cat.colls && Holds(cat, cat.colls[c].createdAt, id)
    ensures id in cat.colls[c].rows && id <= cat.colls[c].lastId
  {
  }

  lemma NeverHeld(cats: seq<Catalog>, cmds: seq<Command>, m: nat, n: nat, id: int)
    requires Run(cats, cmds) && m <= n < |cats|
    ensures !HoldsAt(cats, m, cats[n].clock, id)
  {
    RunKeepsConsistent(cats, cmds, m);
    ClockGoesOn(cats, cmds, m, n);
  }

  lemma {:induction false} CounterIsLargestEver(cats: seq<Catalog>, cmds: seq<Command>, n: nat, c: string)
    requires Run(cats, cmds) && n < |cats| && c in cats[n].colls
    ensures LargestEver(cats, n, cats[n].colls[c].createdAt, cats[n].colls[c].lastId)
    decreases n
  {
    RunKeepsConsistent(cats, cmds, n);
    RunKeepsBornApart(cats, cmds, n);
    assert n > 0;
    var before, b := cats[n - 1], NameBefore(cats[n - 1], cmds[n - 1], cats[n], c);
    StepInRun(cats, cmds, n - 1, c);
    if b in before.colls {
      CounterIsLargestEver(cats, cmds, n - 1, b);
      LargestStays(cats, n, c, before.colls[b].lastId);
    } else {
      LargestOfNew(cats, cmds, n, c);
    }
  }

  lemma StepInRun(cats: seq<Catalog>, cmds: seq<Command>, j: nat, c: string)
    requires Run(cats, cmds) && j < |cmds| && c in cats[j + 1].colls
    ensures var b := NameBefore(cats[j], cmds[j], cats[j + 1], c);
      if b in cats[j].colls then CounterMoves(cats[j].colls[b], cats[j + 1].colls[c])
      else cats[j + 1].colls[c].lastId == 0 && cats[j + 1].colls[c].rows == map[] && cats[j + 1].colls[c].createdAt == cats[j].clock
  {
    assert StepAt(cats, cmds, j);
    RunKeepsConsistent(cats, cmds, j);
    StepMovesCounter(cats[j], cmds[j], cats[j + 1], c);
  }

  lemma LargestStays(cats: seq<Catalog>, n: nat, c: string, last: int)
    requires 0 < n < |cats| && c in cats[n].colls && Consistent(cats[n]) && BornApart(cats[n])
    requires var coll := cats[n].colls[c];
      && LargestEver(cats, n - 1, coll.createdAt, last) && last <= coll.lastId
      && (coll.lastId == last || coll.lastId in coll.rows)
    ensures LargestEver(cats, n, cats[n].colls[c].createdAt, cats[n].colls[c].lastId)
  {
    var born, last' := cats[n].colls[c].createdAt, cats[n].colls[c].lastId;
    forall m: nat, id | m <= n && HoldsAt(cats, m, born, id) ensures id <= last' {
      if m == n {
        HeldIsAtMostLast(cats[n], c, id);
      } else {
        assert m <= n - 1 && HoldsAt(cats, m, born, id);
      }
    }
    if last' != 0 {
      if last' in cats[n].colls[c].rows {
        assert HoldsAt(cats, n, born, last');
      } else {
        var m: nat :| m <= n - 1 && HoldsAt(cats, m, born, last);
        assert m <= n && HoldsAt(cats, m, born, last');
      }
    }
  }

  lemma LargestOfNew(cats: seq<Catalog>, cmds: seq<Command>, n: nat, c: string)
    requires Run(cats, cmds) && 0 < n < |cats| && c in cats[n].colls && BornApart(cats[n])
    requires cats[n].colls[c].lastId == 0 && cats[n].colls[c].rows == map[] && cats[n].colls[c].createdAt == cats[n - 1].clock
    ensures LargestEver(cats, n, cats[n].colls[c].createdAt, 0)
  {
    var born := cats[n].colls[c].createdAt;
    forall m: nat, id | m <= n ensures !HoldsAt(cats, m, born, id) {
      if m < n {
        NeverHeld(cats, cmds, m, n - 1, id);
      }
    }
  }

  /** An insert without an id gets one more than the largest id the collection ever held: greater
      than every id it held in any state so far, documents deleted since included, and with no gap. */
  lemma InsertGetsFreshId(cats: seq<Catalog>, cmds: seq<Command>, n: nat, c: string, text: string, data: Payload)
    requires Run(cats, cmds) && n < |cats| && c in cats[n].colls && InsertSpec(cats[n], c, Item(None, text, data)).0.Ok?
    ensures var i, born := InsertSpec(cats[n], c, Item(None, text, data)).0.value, cats[n].colls[c].createdAt;
      && (forall m: nat, id | m <= n && HoldsAt(cats, m, born, id) :: id < i)
      && LargestEver(cats, n, born, i - 1)
  {
    CounterIsLargestEver(cats, cmds, n, c);
    InsertMeaning(cats[n], c, Item(None, text, data));
  }
}
