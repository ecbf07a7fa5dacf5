/** Full-text search: the page that a bound query asks for, and what a sort parameter does to it. */
module FullText {
  import opened Documents
  import opened Search
  import opened QueryMeaning
  import QueryBuilder
  import Export

  /** A document whose text matches the query, with the rank that the index gives it. */
  datatype Match = Match(id: int, row: Row, rank: real)

  const BY_RANK: (Match, Match) -> bool := (a: Match, b: Match) => a.rank <= b.rank

  function MatchOrder(sort: Option<QueryBuilder.SortSpec>): (Match, Match) -> bool {
    match sort
    case None => BY_RANK
    case Some(s) => ByField(s.field, s.desc)
  }

  function ByField(field: string, desc: bool): (Match, Match) -> bool {
    (a: Match, b: Match) => InFieldOrder(field, desc, a.row.data, b.row.data)
  }

  lemma MatchOrderIsPreorder(sort: Option<QueryBuilder.SortSpec>)
    ensures Preorder(MatchOrder(sort))
  {
    if sort.Some? {
      var s, leq := sort.value, MatchOrder(sort);
      forall a: Match, b: Match ensures leq(a, b) || leq(b, a) {
        InFieldOrderIsPreorder(s.field, s.desc, a.row.data, b.row.data, b.row.data);
      }
      forall a: Match, b: Match, c: Match | leq(a, b) && leq(b, c) ensures leq(a, c) {
        InFieldOrderIsPreorder(s.field, s.desc, a.row.data, b.row.data, c.row.data);
      }
    }
  }

  /** The matches that satisfy every condition. */
  function Chosen(matches: set<Match>, holds: (Json, string, QueryBuilder.Value) -> bool, conds: seq<QueryBuilder.Condition>): set<Match> {
    set m | m in matches && forall c | c in conds :: holds(Field(m.row.data, c.field), c.op, c.value)
  }

  /** `q` is a page of a full ranking of the chosen matches. */
  ghost predicate Page(q: seq<Match>, chosen: set<Match>, sort: Option<QueryBuilder.SortSpec>, limit: nat, offset: nat) {
    exists full :: TopBy(full, chosen, MatchOrder(sort), |chosen|) && q == Export.Page(full, limit, offset)
  }

  /** What the database may return for a bound query, `matches` being those of the text searched for. */
  ghost predicate SqlAnswers(q: seq<Match>, matches: set<Match>, p: seq<QueryBuilder.Piece>,
                             holds: (Json, string, QueryBuilder.Value) -> bool)
  {
    match ReadFullText(p)
    case Some((_, Listed(conds, sort, VInt(limit), VInt(offset)))) =>
      limit >= 0 && offset >= 0 && Page(q, Chosen(matches, holds, conds), sort, limit, offset)
    case _ => false
  }

  /** The generated query asks for that page of the matches that satisfy the filters, in the order of
      the field or by rank. */
  lemma FullTextSqlAnswers(q: seq<Match>, matches: set<Match>, fts: string, table: string, text: string, conds: seq<QueryBuilder.Condition>,
                           sort: Option<QueryBuilder.SortSpec>, limit: nat, offset: nat, holds: (Json, string, QueryBuilder.Value) -> bool)
    ensures SqlAnswers(q, matches, QueryBuilder.FullTextSql(fts, table, text, conds, sort, limit, offset), holds)
            <==> Page(q, Chosen(matches, holds, conds), sort, limit, offset)
  {
    FullTextIsRead(fts, table, text, conds, sort, limit, offset);
  }

  // ---------------------------------------------------------------- the first page

  /** The best `limit` rows can be extended to a full ranking. */
  lemma FullRanking(q: seq<Match>, rows: set<Match>, leq: (Match, Match) -> bool, limit: nat) returns (full: seq<Match>)
    requires Preorder(leq) && TopBy(q, rows, leq, limit)
    ensures TopBy(full, rows, leq, |rows|) && |q| <= |full| && full[..|q|] == q
  {
    var rest := rows - Elements(q);
    CountElements(q);
    assert rows == Elements(q) + rest && Elements(q) * rest == {};
    TopByExists(rest, leq, |rest|);
    var r :| TopBy(r, rest, leq, |rest|);
    ShortAnswerIsEverything(r, rest, leq, |rest|);
    full := q + r;
    RankedTogether(q, r, rows, leq, limit);
  }

  lemma RankedTogether(q: seq<Match>, r: seq<Match>, rows: set<Match>, leq: (Match, Match) -> bool, limit: nat)
    requires TopBy(q, rows, leq, limit) && TopBy(r, rows - Elements(q), leq, |r|)
    requires Elements(r) == rows - Elements(q) && |q| + |r| == |rows|
    ensures TopBy(q + r, rows, leq, |rows|)
  {
    var full := q + r;
    assert forall i | 0 <= i < |q| :: q[i] in Elements(q);
    assert forall i | 0 <= i < |r| :: r[i] in Elements(r) && r[i] !in q;
    forall i, j | 0 <= i < j < |full| ensures full[i] != full[j] && leq(full[i], full[j]) {
      if i < |q| && j >= |q| { assert full[j] == r[j - |q|]; }
    }
    forall x | x in rows ensures x in full {
      InOneOfBoth(q, r, x);
    }
  }

  lemma InOneOfBoth<T>(q: seq<T>, r: seq<T>, x: T)
    requires x in Elements(q) || x in Elements(r)
    ensures x in q + r
  {
  }

  /** The first page holds the best `limit` matches, and only that. */
  lemma FirstPage(q: seq<Match>, chosen: set<Match>, sort: Option<QueryBuilder.SortSpec>, limit: nat)
    requires TopBy(q, chosen, MatchOrder(sort), limit)
    ensures Page(q, chosen, sort, limit, 0)
  {
    MatchOrderIsPreorder(sort);
    var full := FullRanking(q, chosen, MatchOrder(sort), limit);
    assert q == Export.Page(full, limit, 0);
  }

  /** Sorting the matches by this field, either way, leaves the first page the same set of documents. */
  ghost predicate SortKeepsFirstPage(chosen: set<Match>, limit: nat, field: string) {
    forall desc, p, q | Page(p, chosen, None, limit, 0) && Page(q, chosen, Some(QueryBuilder.SortSpec(field, desc)), limit, 0) ::
      Elements(p) == Elements(q)
  }

  /** Whatever the field: a sort parameter changes which matches are on the first page, not only
      their order, unless there are no more of them than the limit. */
  lemma SortKeepsFirstPageIff(chosen: set<Match>, limit: nat, field: string)
    requires limit > 0
    ensures SortKeepsFirstPage(chosen, limit, field) <==> |chosen| <= limit
  {
    if |chosen| <= limit {
      forall desc, p, q | Page(p, chosen, None, limit, 0) && Page(q, chosen, Some(QueryBuilder.SortSpec(field, desc)), limit, 0)
        ensures Elements(p) == Elements(q)
      {
        OnePageIsEverything(p, chosen, None, limit);
        OnePageIsEverything(q, chosen, Some(QueryBuilder.SortSpec(field, desc)), limit);
      }
    } else {
      AnotherFirstPage(chosen, limit, field);
    }
  }

  lemma OnePageIsEverything(q: seq<Match>, chosen: set<Match>, sort: Option<QueryBuilder.SortSpec>, limit: nat)
    requires Page(q, chosen, sort, limit, 0) && |chosen| <= limit
    ensures Elements(q) == chosen
  {
    var full :| TopBy(full, chosen, MatchOrder(sort), |chosen|) && q == Export.Page(full, limit, 0);
    assert q == full;
    ShortAnswerIsEverything(full, chosen, MatchOrder(sort), |chosen|);
  }

  lemma AnotherFirstPage(chosen: set<Match>, limit: nat, field: string)
    requires 0 < limit < |chosen|
    ensures !SortKeepsFirstPage(chosen, limit, field)
  {
    var up, down := Some(QueryBuilder.SortSpec(field, false)), Some(QueryBuilder.SortSpec(field, true));
    MatchOrderIsPreorder(None);
    MatchOrderIsPreorder(up);
    MatchOrderIsPreorder(down);
    TopByExists(chosen, BY_RANK, limit);
    var p :| TopBy(p, chosen, BY_RANK, limit);
    FirstPage(p, chosen, None, limit);
    var x := LeftOut(p, chosen);
    var desc, q := AnotherAnswer(chosen, limit, ByField(field, false), ByField(field, true), Elements(p), x);
    FirstPage(q, chosen, if desc then down else up, limit);
    assert Page(q, chosen, Some(QueryBuilder.SortSpec(field, desc)), limit, 0);
  }
}
