/** Vector search in two stages: the nearest rows by Hamming distance, then ranked exactly.
    SQLite's answers are described by what ORDER BY ... LIMIT and vec0's MATCH promise; ties
    may be broken in any way. */
module Search {
  import opened Documents
  import Sorting

  // ---------------------------------------------------------------- ORDER BY ... LIMIT

  ghost predicate Preorder<T(!new)>(leq: (T, T) -> bool) {
    && (forall a, b :: leq(a, b) || leq(b, a))
    && (forall a, b, c :: leq(a, b) && leq(b, c) ==> leq(a, c))
  }

  ghost predicate NoDuplicates<T>(q: seq<T>) {
    forall i, j | 0 <= i < j < |q| :: q[i] != q[j]
  }

  /** `q` is a result of "SELECT ... FROM rows ORDER BY leq LIMIT limit". */
  ghost predicate TopBy<T(!new)>(q: seq<T>, rows: set<T>, leq: (T, T) -> bool, limit: nat) {
    && |q| == AtMost(limit, |rows|) && NoDuplicates(q)
    && (forall i | 0 <= i < |q| :: q[i] in rows)
    && (forall i, j | 0 <= i < j < |q| :: leq(q[i], q[j]))
    && (forall x, i | x in rows && x !in q && 0 <= i < |q| :: leq(q[i], x))
  }

  ghost predicate Least<T(!new)>(m: T, rows: set<T>, leq: (T, T) -> bool) {
    m in rows && forall x | x in rows :: leq(m, x)
  }

  lemma FirstExists<T(!new)>(rows: set<T>, leq: (T, T) -> bool) returns (first: T)
    requires Preorder(leq) && rows != {}
    ensures Least(first, rows, leq)
    decreases |rows|
  {
    var m :| m in rows;
    var rest := rows - {m};
    assert rows == rest + {m};
    first := m;
    if rest != {} {
      var n := FirstExists(rest, leq);
      first := FirstOfMore(m, n, rest, leq);
    }
  }

  lemma FirstOfMore<T(!new)>(m: T, n: T, rest: set<T>, leq: (T, T) -> bool) returns (first: T)
    requires Preorder(leq) && Least(n, rest, leq)
    ensures Least(first, rest + {m}, leq)
  {
    first := if leq(m, n) then m else n;
    forall x | x in rest + {m} ensures leq(first, x) {
      assert x != m ==> leq(n, x);
    }
  }

  /** Every such query has an answer. */
  lemma {:induction false} TopByExists<T(!new)>(rows: set<T>, leq: (T, T) -> bool, limit: nat)
    requires Preorder(leq)
    ensures exists q :: TopBy(q, rows, leq, limit)
    decreases limit
  {
    if limit == 0 || rows == {} {
      assert TopBy([], rows, leq, limit);
      return;
    }
    var m := FirstExists(rows, leq);
    TopByExists(rows - {m}, leq, limit - 1);
    var rest :| TopBy(rest, rows - {m}, leq, limit - 1);
    FirstThenRest(m, rest, rows, leq, limit);
  }

  lemma FirstThenRest<T(!new)>(m: T, rest: seq<T>, rows: set<T>, leq: (T, T) -> bool, limit: nat)
    requires limit > 0 && m in rows && (forall x | x in rows :: leq(m, x)) && TopBy(rest, rows - {m}, leq, limit - 1)
    ensures TopBy([m] + rest, rows, leq, limit)
  {
  }

  function Elements<T>(q: seq<T>): set<T> {
    set x | x in q
  }

  lemma {:induction false} CountElements<T>(q: seq<T>)
    requires NoDuplicates(q)
    ensures |Elements(q)| == |q|
    decreases |q|
  {
    if |q| > 0 {
      var init, x := q[..|q|-1], q[|q|-1];
      CountElements(init);
      assert q == init + [x];
      assert Elements(q) == Elements(init) + {x};
      assert x !in Elements(init);
    }
  }

  lemma SubsetCount<T>(a: set<T>, b: set<T>)
    requires a <= b
    ensures |a| <= |b|
  {
    assert b == a + (b - a);
  }

  /** What precedes position `i` of one answer cannot all be beaten by position `i` of another. */
  lemma RankAtMost<T(!new)>(p: seq<T>, q: seq<T>, rows: set<T>, leq: (T, T) -> bool, limit: nat, i: nat)
    requires Preorder(leq) && TopBy(p, rows, leq, limit) && TopBy(q, rows, leq, limit) && i < |p|
    ensures leq(p[i], q[i])
  {
    if !leq(p[i], q[i]) {
      var head := q[..i + 1];
      forall x | x in Elements(head) ensures x in Elements(p[..i]) {
        var j :| 0 <= j < i + 1 && head[j] == x;
        assert leq(q[j], q[i]) && !leq(p[i], x);
        assert x in p;
        var k :| 0 <= k < |p| && p[k] == x;
        assert k < i;
        assert p[..i][k] == x;
      }
      SubsetCount(Elements(head), Elements(p[..i]));
      CountElements(head);
      CountElements(p[..i]);
      assert false;
    }
  }

  /** All answers to the same query rank equally, position by position. */
  lemma TopByUnique<T(!new)>(p: seq<T>, q: seq<T>, rows: set<T>, leq: (T, T) -> bool, limit: nat)
    requires Preorder(leq) && TopBy(p, rows, leq, limit) && TopBy(q, rows, leq, limit)
    ensures |p| == |q| && forall i | 0 <= i < |p| :: leq(p[i], q[i]) && leq(q[i], p[i])
  {
    forall i | 0 <= i < |p| ensures leq(p[i], q[i]) && leq(q[i], p[i]) {
      RankAtMost(p, q, rows, leq, limit, i);
      RankAtMost(q, p, rows, leq, limit, i);
    }
  }

  /** An answer over all rows is an answer over any part of them that contains it. */
  lemma TopOfPart<T(!new)>(q: seq<T>, part: set<T>, rows: set<T>, leq: (T, T) -> bool, limit: nat)
    requires TopBy(q, rows, leq, limit) && part <= rows && Elements(q) <= part
    ensures TopBy(q, part, leq, limit)
  {
    CountElements(q);
    SubsetCount(Elements(q), part);
    SubsetCount(part, rows);
    forall i | 0 <= i < |q| ensures q[i] in part {
      assert q[i] in Elements(q);
    }
  }

  /** An answer that leaves nothing out is the whole set. */
  lemma ShortAnswerIsEverything<T(!new)>(q: seq<T>, rows: set<T>, leq: (T, T) -> bool, limit: nat)
    requires TopBy(q, rows, leq, limit) && |rows| <= limit
    ensures Elements(q) == rows
  {
    CountElements(q);
    SubsetOfSameSize(Elements(q), rows);
  }

  lemma SubsetOfSameSize<T>(a: set<T>, b: set<T>)
    requires a <= b && |a| == |b|
    ensures a == b
  {
    assert b == a + (b - a);
  }

  // ---------------------------------------------------------------- the search

  /** A row with its two distances to the query vector. */
  datatype Hit = Hit(id: int, row: Row, hamming: int, l2: real)

  const OVERSAMPLE_FACTOR := 8
  const BY_HAMMING: (Hit, Hit) -> bool := (a: Hit, b: Hit) => a.hamming <= b.hamming
  const BY_L2: (Hit, Hit) -> bool := (a: Hit, b: Hit) => a.l2 <= b.l2

  /** embedding_bit MATCH ... k = n: some n rows nearest by Hamming distance. */
  ghost predicate Nearest(near: set<Hit>, table: set<Hit>, k: nat) {
    && near <= table && |near| == AtMost(k, |table|)
    && forall x, y | x in near && y in table && y !in near :: x.hamming <= y.hamming
  }

  function Accepted(rows: set<Hit>, accepts: Hit -> bool): set<Hit> {
    set x | x in rows && accepts(x)
  }

  /** The search as requested: the filters if any, and the sort order if any. */
  datatype Request = Request(limit: nat, rerank: bool, filter: Option<Hit -> bool>, sort: Option<(Hit, Hit) -> bool>)

  function Accepts(req: Request): Hit -> bool {
    if req.filter.Some? then req.filter.value else _ => true
  }

  function FinalOrder(req: Request): (Hit, Hit) -> bool {
    match req.sort
    case Some(leq) => leq
    case None => if req.rerank then BY_L2 else BY_HAMMING
  }

  /** How many rows the binary index is asked for. */
  function CandidateCount(req: Request): nat {
    if !req.rerank && req.filter.None? && req.sort.None? then req.limit else req.limit * OVERSAMPLE_FACTOR
  }

  /** The rows that reach the final ORDER BY: the filter is applied to the nearest rows. */
  ghost predicate Candidates(rows: set<Hit>, table: set<Hit>, req: Request) {
    exists near :: Nearest(near, table, CandidateCount(req)) && rows == Accepted(near, Accepts(req))
  }

  /** The four queries of searchDocuments. With rerank the coarse stage has a LIMIT of its own. */
  ghost predicate Outcome(q: seq<Hit>, table: set<Hit>, req: Request) {
    if !req.rerank then
      if req.filter.None? && req.sort.None? then TopBy(q, table, BY_HAMMING, req.limit)
      else
        exists near :: Nearest(near, table, req.limit * OVERSAMPLE_FACTOR)
          && TopBy(q, Accepted(near, Accepts(req)), FinalOrder(req), req.limit)
    else
      var coarse := req.limit * OVERSAMPLE_FACTOR;
      match req.filter
      case None =>
        exists c :: TopBy(c, table, BY_HAMMING, coarse) && TopBy(q, Elements(c), FinalOrder(req), req.limit)
      case Some(accepts) =>
        exists near, c :: Nearest(near, table, coarse) && TopBy(c, Accepted(near, accepts), BY_HAMMING, coarse)
          && TopBy(q, Elements(c), FinalOrder(req), req.limit)
  }

  lemma CoarseIsNearest(c: seq<Hit>, table: set<Hit>, k: nat)
    requires TopBy(c, table, BY_HAMMING, k)
    ensures Nearest(Elements(c), table, k)
  {
    CountElements(c);
    forall x, y | x in Elements(c) && y in table && y !in Elements(c) ensures x.hamming <= y.hamming {
      var i :| 0 <= i < |c| && c[i] == x;
      assert BY_HAMMING(c[i], y);
    }
  }

  /** Any nearest rows are the rows of some coarse stage. */
  lemma NearestIsCoarse(near: set<Hit>, table: set<Hit>, k: nat) returns (c: seq<Hit>)
    requires Nearest(near, table, k)
    ensures TopBy(c, table, BY_HAMMING, k) && Elements(c) == near
  {
    TopByExists(near, BY_HAMMING, k);
    c :| TopBy(c, near, BY_HAMMING, k);
    ShortAnswerIsEverything(c, near, BY_HAMMING, k);
    CountElements(c);
    forall x, i | x in table && x !in c && 0 <= i < |c| ensures BY_HAMMING(c[i], x) {
      assert c[i] in Elements(c) && x !in Elements(c);
    }
  }

  lemma AcceptAll(rows: set<Hit>, req: Request)
    requires req.filter.None?
    ensures Accepted(rows, Accepts(req)) == rows
  {
  }

  lemma AcceptedIsSmall(near: set<Hit>, table: set<Hit>, k: nat, accepts: Hit -> bool)
    requires Nearest(near, table, k)
    ensures |Accepted(near, accepts)| <= k
  {
    SubsetCount(Accepted(near, accepts), near);
  }

  ghost predicate Ranks(q: seq<Hit>, table: set<Hit>, req: Request) {
    exists rows :: Candidates(rows, table, req) && TopBy(q, rows, FinalOrder(req), req.limit)
  }

  /** All four queries come to the same: rank the accepted ones of the nearest rows. */
  lemma OutcomeRanksCandidates(q: seq<Hit>, table: set<Hit>, req: Request)
    ensures Outcome(q, table, req) <==> Ranks(q, table, req)
  {
    if Outcome(q, table, req) {
      OutcomeRanks(q, table, req);
    }
    if Ranks(q, table, req) {
      RankedIsOutcome(q, table, req);
    }
  }

  lemma OutcomeRanks(q: seq<Hit>, table: set<Hit>, req: Request)
    requires Outcome(q, table, req)
    ensures Ranks(q, table, req)
  {
    var coarse := req.limit * OVERSAMPLE_FACTOR;
    if !req.rerank {
      if req.filter.None? && req.sort.None? {
        CoarseIsNearest(q, table, req.limit);
        AcceptAll(Elements(q), req);
        assert Candidates(Elements(q), table, req);
        TopOfPart(q, Elements(q), table, BY_HAMMING, req.limit);
      } else {
        var near :| Nearest(near, table, coarse) && TopBy(q, Accepted(near, Accepts(req)), FinalOrder(req), req.limit);
        assert Candidates(Accepted(near, Accepts(req)), table, req);
      }
    } else if req.filter.None? {
      var c :| TopBy(c, table, BY_HAMMING, coarse) && TopBy(q, Elements(c), FinalOrder(req), req.limit);
      CoarseIsNearest(c, table, coarse);
      AcceptAll(Elements(c), req);
      assert Candidates(Elements(c), table, req);
    } else {
      var accepts := req.filter.value;
      var near, c :| Nearest(near, table, coarse) && TopBy(c, Accepted(near, accepts), BY_HAMMING, coarse)
        && TopBy(q, Elements(c), FinalOrder(req), req.limit);
      AcceptedIsSmall(near, table, coarse, accepts);
      ShortAnswerIsEverything(c, Accepted(near, accepts), BY_HAMMING, coarse);
      assert Nearest(near, table, CandidateCount(req)) && Elements(c) == Accepted(near, Accepts(req));
      assert Candidates(Elements(c), table, req);
    }
  }

  lemma RankedIsOutcome(q: seq<Hit>, table: set<Hit>, req: Request)
    requires Ranks(q, table, req)
    ensures Outcome(q, table, req)
  {
    var rows :| Candidates(rows, table, req) && TopBy(q, rows, FinalOrder(req), req.limit);
    var near :| Nearest(near, table, CandidateCount(req)) && rows == Accepted(near, Accepts(req));
    if req.filter.None? {
      AcceptAll(near, req);
      if req.rerank {
        var c := NearestIsCoarse(near, table, CandidateCount(req));
      } else if req.sort.None? {
        WholeOfNearest(q, near, table, req.limit);
      }
    } else if req.rerank {
      AcceptedIsSmall(near, table, CandidateCount(req), req.filter.value);
      TopByExists(rows, BY_HAMMING, CandidateCount(req));
      var c :| TopBy(c, rows, BY_HAMMING, CandidateCount(req));
      ShortAnswerIsEverything(c, rows, BY_HAMMING, CandidateCount(req));
    }
  }

  lemma WholeOfNearest(q: seq<Hit>, near: set<Hit>, table: set<Hit>, limit: nat)
    requires Nearest(near, table, limit) && TopBy(q, near, BY_HAMMING, limit)
    ensures TopBy(q, table, BY_HAMMING, limit)
  {
    ShortAnswerIsEverything(q, near, BY_HAMMING, limit);
    forall x, i | x in table && x !in q && 0 <= i < |q| ensures BY_HAMMING(q[i], x) {
      assert q[i] in Elements(q) && x !in Elements(q);
    }
  }

  // ---------------------------------------------------------------- what a result is worth

  /** Every result satisfies the filters and is one of the nearest rows by Hamming distance. */
  lemma ResultsAreSound(q: seq<Hit>, table: set<Hit>, req: Request)
    requires Outcome(q, table, req)
    ensures |q| <= req.limit
    ensures exists near :: Nearest(near, table, CandidateCount(req))
              && forall i | 0 <= i < |q| :: q[i] in near && Accepts(req)(q[i])
  {
    OutcomeRanksCandidates(q, table, req);
    var rows :| Candidates(rows, table, req) && TopBy(q, rows, FinalOrder(req), req.limit);
    var near :| Nearest(near, table, CandidateCount(req)) && rows == Accepted(near, Accepts(req));
    assert forall i | 0 <= i < |q| :: q[i] in near && Accepts(req)(q[i]);
  }

  lemma SameDistances(rows: set<Hit>, all: set<Hit>, q: seq<Hit>, truth: seq<Hit>, limit: nat)
    requires rows <= all && TopBy(q, rows, BY_L2, limit)
    requires TopBy(truth, all, BY_L2, limit) && Elements(truth) <= rows
    ensures |q| == |truth| && forall i | 0 <= i < |q| :: q[i].l2 == truth[i].l2
  {
    TopOfPart(truth, rows, all, BY_L2, limit);
    TopByUnique(q, truth, rows, BY_L2, limit);
    forall i | 0 <= i < |q| ensures q[i].l2 == truth[i].l2 {
      assert BY_L2(q[i], truth[i]) && BY_L2(truth[i], q[i]);
    }
  }

  /** Reranking is exact whenever the true answer, the nearest of all accepted rows, survives the
      coarse stage: the distances of the result are then those of the true answer. */
  lemma RerankIsExact(q: seq<Hit>, table: set<Hit>, req: Request, truth: seq<Hit>)
    requires req.rerank && req.sort.None? && Outcome(q, table, req)
    requires TopBy(truth, Accepted(table, Accepts(req)), BY_L2, req.limit)
    requires forall rows | Candidates(rows, table, req) :: Elements(truth) <= rows
    ensures |q| == |truth| && forall i | 0 <= i < |q| :: q[i].l2 == truth[i].l2
  {
    OutcomeRanksCandidates(q, table, req);
    var rows :| Candidates(rows, table, req) && TopBy(q, rows, FinalOrder(req), req.limit);
    SameDistances(rows, Accepted(table, Accepts(req)), q, truth, req.limit);
  }

  /** With at most 8 * limit rows nothing is lost: every search that oversamples answers exactly
      "filter the whole table, then rank". */
  lemma SmallTableIsExact(q: seq<Hit>, table: set<Hit>, req: Request)
    requires Outcome(q, table, req) && |table| <= 8 * req.limit
    ensures TopBy(q, Accepted(table, Accepts(req)), FinalOrder(req), req.limit)
  {
    OutcomeRanksCandidates(q, table, req);
    if !req.rerank && req.filter.None? && req.sort.None? {
      AcceptAll(table, req);
      return;
    }
    var rows :| Candidates(rows, table, req) && TopBy(q, rows, FinalOrder(req), req.limit);
    var near :| Nearest(near, table, CandidateCount(req)) && rows == Accepted(near, Accepts(req));
    SubsetOfSameSize(near, table);
  }

  /** With rerank, what a sorted search can return is a ranking of the candidates that the same
      search without a sort order has. */
  lemma RerankCandidatesIgnoreSort(q: seq<Hit>, table: set<Hit>, req: Request)
    requires req.rerank
    ensures Outcome(q, table, req) <==>
              exists rows :: Candidates(rows, table, req.(sort := None)) && TopBy(q, rows, FinalOrder(req), req.limit)
  {
    OutcomeRanksCandidates(q, table, req);
    var plain := req.(sort := None);
    assert Accepts(plain) == Accepts(req);
    forall rows ensures Candidates(rows, table, req) <==> Candidates(rows, table, plain) {
      if Candidates(rows, table, req) { SameCandidates(rows, table, req, plain); }
      if Candidates(rows, table, plain) { SameCandidates(rows, table, plain, req); }
    }
  }

  lemma SameCandidates(rows: set<Hit>, table: set<Hit>, req: Request, req': Request)
    requires CandidateCount(req) == CandidateCount(req') && Accepts(req) == Accepts(req') && Candidates(rows, table, req)
    ensures Candidates(rows, table, req')
  {
    var near :| Nearest(near, table, CandidateCount(req)) && rows == Accepted(near, Accepts(req));
    assert Nearest(near, table, CandidateCount(req')) && rows == Accepted(near, Accepts(req'));
  }

  // ---------------------------------------------------------------- sorted searches

  /** Null sorts before numbers, and those before texts; booleans are 0 and 1. */
  function Class(v: Json): nat {
    match v
    case JNull => 0
    case JBool(_) => 1
    case JInt(_) => 1
    case JReal(_) => 1
    case JText(_) => 2
    case JNested(_) => 2
  }

  function Number(v: Json): real {
    match v
    case JBool(b) => if b then 1.0 else 0.0
    case JInt(n) => n as real
    case JReal(r) => r
    case _ => 0.0
  }

  function Words(v: Json): string {
    match v
    case JText(s) => s
    case JNested(raw) => raw
    case _ => ""
  }

  /** SQLite's order of the values that json_extract returns. */
  predicate AtOrBefore(v: Json, w: Json) {
    || Class(v) < Class(w)
    || (Class(v) == Class(w) && Number(v) < Number(w))
    || (Class(v) == Class(w) && Number(v) == Number(w) && !Sorting.Less(Words(w), Words(v)))
  }

  /** The order written out: null, then numbers by value with booleans as 0 and 1, then texts. */
  lemma FieldValuesOrder(m: int, n: int, x: real, b: bool, s: string, t: string, v: Json)
    ensures AtOrBefore(JNull, v) && (AtOrBefore(v, JNull) <==> v.JNull?)
    ensures AtOrBefore(JInt(m), JInt(n)) <==> m <= n
    ensures (AtOrBefore(JInt(m), JReal(x)) <==> m as real <= x) && (AtOrBefore(JReal(x), JInt(m)) <==> x <= m as real)
    ensures (AtOrBefore(JBool(b), v) <==> AtOrBefore(JInt(if b then 1 else 0), v)) && (AtOrBefore(v, JBool(b)) <==> AtOrBefore(v, JInt(if b then 1 else 0)))
    ensures AtOrBefore(JInt(m), JText(s)) && !AtOrBefore(JText(s), JInt(m)) && AtOrBefore(JReal(x), JText(s)) && !AtOrBefore(JText(s), JReal(x))
    ensures AtOrBefore(JText(s), JText(t)) <==> s == t || Sorting.Less(s, t)
    ensures (AtOrBefore(JNested(s), v) <==> AtOrBefore(JText(s), v)) && (AtOrBefore(v, JNested(s)) <==> AtOrBefore(v, JText(s)))
  {
    Sorting.LessIrreflexive("");
    Sorting.LessIrreflexive(s);
    Sorting.LessTotal(s, t);
    NotLessTotal(s, t);
  }

  /** The order a sort parameter asks for. */
  predicate InFieldOrder(field: string, desc: bool, a: Payload, b: Payload) {
    if desc then AtOrBefore(Field(b, field), Field(a, field)) else AtOrBefore(Field(a, field), Field(b, field))
  }

  /** Descending is ascending the other way round. */
  lemma FieldDirections(field: string, a: Payload, b: Payload, m: int, n: int)
    ensures InFieldOrder(field, true, a, b) <==> InFieldOrder(field, false, b, a)
    ensures Field(a, field) == JInt(m) && Field(b, field) == JInt(n) ==> (InFieldOrder(field, false, a, b) <==> m <= n)
  {
  }

  function FieldOrder(field: string, desc: bool): (Hit, Hit) -> bool {
    (a: Hit, b: Hit) => InFieldOrder(field, desc, a.row.data, b.row.data)
  }

  lemma NotLessTransitive(a: string, b: string, c: string)
    requires !Sorting.Less(b, a) && !Sorting.Less(c, b)
    ensures !Sorting.Less(c, a)
  {
    if Sorting.Less(c, a) {
      Sorting.LessTotal(a, b);
      if a != b { Sorting.LessTransitive(c, a, b); }
    }
  }

  lemma NotLessTotal(a: string, b: string)
    ensures !Sorting.Less(b, a) || !Sorting.Less(a, b)
  {
    if Sorting.Less(a, b) && Sorting.Less(b, a) {
      Sorting.LessTransitive(a, b, a);
      Sorting.LessIrreflexive(a);
    }
  }

  lemma FieldOrderIsPreorder(field: string, desc: bool)
    ensures Preorder(FieldOrder(field, desc))
  {
    var leq := FieldOrder(field, desc);
    forall a: Hit, b: Hit ensures leq(a, b) || leq(b, a) {
      InFieldOrderIsPreorder(field, desc, a.row.data, b.row.data, b.row.data);
    }
    forall a: Hit, b: Hit, c: Hit | leq(a, b) && leq(b, c) ensures leq(a, c) {
      InFieldOrderIsPreorder(field, desc, a.row.data, b.row.data, c.row.data);
    }
  }

  lemma InFieldOrderIsPreorder(field: string, desc: bool, a: Payload, b: Payload, c: Payload)
    ensures InFieldOrder(field, desc, a, b) || InFieldOrder(field, desc, b, a)
    ensures InFieldOrder(field, desc, a, b) && InFieldOrder(field, desc, b, c) ==> InFieldOrder(field, desc, a, c)
  {
    var u, v, w := Field(a, field), Field(b, field), Field(c, field);
    AtOrBeforeTotal(u, v);
    if desc && AtOrBefore(w, v) && AtOrBefore(v, u) {
      AtOrBeforeTransitive(w, v, u);
    }
    if !desc && AtOrBefore(u, v) && AtOrBefore(v, w) {
      AtOrBeforeTransitive(u, v, w);
    }
  }

  lemma AtOrBeforeTotal(v: Json, w: Json)
    ensures AtOrBefore(v, w) || AtOrBefore(w, v)
  {
    NotLessTotal(Words(v), Words(w));
  }

  lemma AtOrBeforeTransitive(u: Json, v: Json, w: Json)
    requires AtOrBefore(u, v) && AtOrBefore(v, w)
    ensures AtOrBefore(u, w)
  {
    if !Sorting.Less(Words(v), Words(u)) && !Sorting.Less(Words(w), Words(v)) {
      NotLessTransitive(Words(u), Words(v), Words(w));
    }
  }

  /** An unfiltered search, without and with a sort parameter. */
  function Unsorted(limit: nat, rerank: bool): Request { Request(limit, rerank, None, None) }

  function SortedBy(limit: nat, rerank: bool, field: string, desc: bool): Request {
    Request(limit, rerank, None, Some(FieldOrder(field, desc)))
  }

  /** Sorting by this field, either way, leaves the set of results what it is without sorting. */
  ghost predicate SortKeepsResults(table: set<Hit>, limit: nat, rerank: bool, field: string) {
    forall desc, p, q | Outcome(p, table, Unsorted(limit, rerank)) && Outcome(q, table, SortedBy(limit, rerank, field, desc)) ::
      Elements(p) == Elements(q)
  }

  /** A row left out of the answers in both directions ties with all of them, and could have been
      returned just as well. */
  lemma TiedRowTakesAPlace<T(!new)>(q: seq<T>, rows: set<T>, leq: (T, T) -> bool, limit: nat, x: T)
    requires Preorder(leq) && TopBy(q, rows, leq, limit) && |q| > 0 && x in rows && x !in q
    requires forall i | 0 <= i < |q| :: leq(x, q[i])
    ensures TopBy(q[..|q| - 1] + [x], rows, leq, limit)
  {
    var q' := q[..|q| - 1] + [x];
    assert forall j | 0 <= j < |q| - 1 :: q'[j] == q[j] && q'[j] in q';
    forall y, i | y in rows && y !in q' && 0 <= i < |q'| ensures leq(q'[i], y) {
      var z := q[|q| - 1];
      if y in q {
        var j :| 0 <= j < |q| && q[j] == y;
        assert j == |q| - 1;
        assert leq(q'[i], x) && leq(x, y);
      } else {
        assert leq(q'[i], x) && leq(x, z) && leq(z, y);
      }
    }
  }

  /** Some candidates of an unfiltered search that may still be reordered by a sort parameter. */
  lemma SomeCandidates(table: set<Hit>, limit: nat, rerank: bool) returns (near: set<Hit>)
    ensures Nearest(near, table, limit * OVERSAMPLE_FACTOR)
    ensures forall field, desc, q | TopBy(q, near, FieldOrder(field, desc), limit) :: Outcome(q, table, SortedBy(limit, rerank, field, desc))
  {
    TopByExists(table, BY_HAMMING, limit * OVERSAMPLE_FACTOR);
    var c :| TopBy(c, table, BY_HAMMING, limit * OVERSAMPLE_FACTOR);
    CoarseIsNearest(c, table, limit * OVERSAMPLE_FACTOR);
    near := Elements(c);
    forall field, desc, q | TopBy(q, near, FieldOrder(field, desc), limit) ensures Outcome(q, table, SortedBy(limit, rerank, field, desc)) {
      var req := SortedBy(limit, rerank, field, desc);
      AcceptAll(near, req);
      assert Candidates(near, table, req);
      OutcomeRanksCandidates(q, table, req);
    }
  }

  lemma OutcomeExists(table: set<Hit>, limit: nat, rerank: bool) returns (p: seq<Hit>)
    ensures Outcome(p, table, Unsorted(limit, rerank)) && NoDuplicates(p) && |p| <= limit
  {
    var req := Unsorted(limit, rerank);
    TopByExists(table, BY_HAMMING, CandidateCount(req));
    var c :| TopBy(c, table, BY_HAMMING, CandidateCount(req));
    CoarseIsNearest(c, table, CandidateCount(req));
    AcceptAll(Elements(c), req);
    TopByExists(Elements(c), FinalOrder(req), limit);
    p :| TopBy(p, Elements(c), FinalOrder(req), limit);
    assert Candidates(Elements(c), table, req);
    OutcomeRanksCandidates(p, table, req);
  }

  /** Whatever the field: a sort parameter changes which rows are returned, not only their order,
      unless the table has no more rows than the limit. */
  lemma SortKeepsResultsIff(table: set<Hit>, limit: nat, rerank: bool, field: string)
    requires limit > 0
    ensures SortKeepsResults(table, limit, rerank, field) <==> |table| <= limit
  {
    if |table| <= limit {
      forall desc, p, q | Outcome(p, table, Unsorted(limit, rerank)) && Outcome(q, table, SortedBy(limit, rerank, field, desc))
        ensures Elements(p) == Elements(q)
      {
        EverythingIsReturned(p, table, Unsorted(limit, rerank));
        EverythingIsReturned(q, table, SortedBy(limit, rerank, field, desc));
      }
    } else if SortKeepsResults(table, limit, rerank, field) {
      BothDirectionsDiffer(table, limit, rerank, field);
    }
  }

  lemma EverythingIsReturned(q: seq<Hit>, table: set<Hit>, req: Request)
    requires req.filter.None? && Outcome(q, table, req) && |table| <= req.limit
    ensures Elements(q) == table
  {
    SmallTableIsExact(q, table, req);
    AcceptAll(table, req);
    ShortAnswerIsEverything(q, table, FinalOrder(req), req.limit);
  }

  lemma BothDirectionsDiffer(table: set<Hit>, limit: nat, rerank: bool, field: string)
    requires 0 < limit < |table|
    ensures !SortKeepsResults(table, limit, rerank, field)
  {
    var near := SomeCandidates(table, limit, rerank);
    var p := OutcomeExists(table, limit, rerank);
    var x := LeftOut(p, near);
    FieldOrderIsPreorder(field, false);
    FieldOrderIsPreorder(field, true);
    var desc, q := AnotherAnswer(near, limit, FieldOrder(field, false), FieldOrder(field, true), Elements(p), x);
    assert TopBy(q, near, FieldOrder(field, desc), limit);
    assert Outcome(q, table, SortedBy(limit, rerank, field, desc));
  }

  /** Ranking one way or the other way round gives an answer other than the rows `some`, which
      lack `x`. */
  lemma AnotherAnswer<T(!new)>(near: set<T>, limit: nat, up: (T, T) -> bool, down: (T, T) -> bool, some: set<T>, x: T)
    returns (desc: bool, q: seq<T>)
    requires 0 < limit < |near| && x in near && x !in some
    requires Preorder(up) && Preorder(down) && forall a, b :: down(a, b) ==> up(b, a)
    ensures TopBy(q, near, if desc then down else up, limit) && Elements(q) != some
  {
    TopByExists(near, up, limit);
    TopByExists(near, down, limit);
    q :| TopBy(q, near, up, limit);
    var r :| TopBy(r, near, down, limit);
    if Elements(r) != some { return true, r; }
    desc := false;
    if Elements(q) == some {
      assert x !in Elements(q) && x !in Elements(r);
      forall i | 0 <= i < |q| ensures up(x, q[i]) {
        assert q[i] in Elements(r);
        var j :| 0 <= j < |r| && r[j] == q[i];
        assert down(r[j], x);
      }
      TiedRowTakesAPlace(q, near, up, limit, x);
      q := q[..|q| - 1] + [x];
      assert q[|q| - 1] == x && x in Elements(q);
    }
  }

  lemma LeftOut<T>(p: seq<T>, rows: set<T>) returns (x: T)
    requires NoDuplicates(p) && |p| < |rows|
    ensures x in rows && x !in p
  {
    CountElements(p);
    if rows <= Elements(p) {
      SubsetCount(rows, Elements(p));
    }
    x :| x in rows && x !in Elements(p);
  }

  /** Two documents, a limit of one: the nearest is returned, and sorted by a field the other one. */
  lemma SortReturnsAnotherDocument(a: Hit, b: Hit, q: seq<Hit>)
    requires a.hamming < b.hamming && a.l2 < b.l2
    requires Field(a.row.data, "f") == JInt(2) && Field(b.row.data, "f") == JInt(1)
    ensures Outcome(q, {a, b}, Unsorted(1, true)) <==> q == [a]
    ensures Outcome(q, {a, b}, SortedBy(1, true, "f", false)) <==> q == [b]
  {
    OneOfTwo(q, a, b, Unsorted(1, true));
    OneOfTwo(q, b, a, SortedBy(1, true, "f", false));
  }

  lemma OneOfTwo(q: seq<Hit>, a: Hit, b: Hit, req: Request)
    requires a != b && req.limit == 1 && req.rerank && req.filter.None?
    requires FinalOrder(req)(a, b) && !FinalOrder(req)(b, a)
    ensures Outcome(q, {a, b}, req) <==> q == [a]
  {
    var table := {a, b};
    AcceptAll(table, req);
    if Outcome(q, table, req) {
      SmallTableIsExact(q, table, req);
      assert |q| == 1 && q == [q[0]] && a in Accepted(table, Accepts(req));
    } else if q == [a] {
      assert TopBy(q, table, FinalOrder(req), 1);
      assert Nearest(table, table, CandidateCount(req));
      assert Candidates(table, table, req);
      OutcomeRanksCandidates(q, table, req);
    }
  }
}
