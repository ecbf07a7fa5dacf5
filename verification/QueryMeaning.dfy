/** What the database makes of a generated query: bound SQL is read back into conditions, an order
    and bounds, and the searches are given the meaning of their clauses. */
module QueryMeaning {
  import opened Documents
  import opened QueryBuilder
  import opened Search

  // ---------------------------------------------------------------- reading clauses

  const EXTRACT := "json_extract(data, "

  function PathField(v: Value): Option<string> {
    if v.VText? && |v.s| >= 2 && v.s[..2] == "$." then Some(v.s[2..]) else None
  }

  /** ") op " */
  function OpOf(text: string): Option<string> {
    if |text| >= 3 && text[..2] == ") " && text[|text| - 1] == ' ' then Some(text[2..|text| - 1]) else None
  }

  function ReadCondition(p: seq<Piece>): Option<Condition>
    requires |p| >= 4
  {
    if p[0] != Text(EXTRACT) || !p[1].Val? || !p[2].Text? || !p[3].Val? then None
    else
      match (PathField(p[1].value), OpOf(p[2].text))
      case (Some(field), Some(op)) => Some(Condition(field, op, p[3].value))
      case _ => None
  }

  /** One or more conditions joined by AND, and what follows them. */
  function ReadConditions(p: seq<Piece>): Option<(seq<Condition>, seq<Piece>)> {
    if |p| < 4 then None
    else
      match ReadCondition(p)
      case None => None
      case Some(c) =>
        if |p| > 4 && p[4] == Text(" AND ") then
          match ReadConditions(p[5..])
          case None => None
          case Some((conds, rest)) => Some(([c] + conds, rest))
        else Some(([c], p[4..]))
  }

  function ReadClause(p: seq<Piece>, intro: string): Option<(seq<Condition>, seq<Piece>)> {
    if |p| > 0 && p[0] == Text(intro) then ReadConditions(p[1..]) else Some(([], p))
  }

  function ReadOrder(p: seq<Piece>, default: string): Option<(Option<SortSpec>, seq<Piece>)> {
    if |p| >= 1 && p[0] == Text(default) then Some((None, p[1..]))
    else if |p| >= 3 && p[0] == Text(EXTRACT) && p[1].Val? && (p[2] == Text(") DESC") || p[2] == Text(") ASC")) then
      match PathField(p[1].value)
      case Some(field) => Some((Some(SortSpec(field, p[2] == Text(") DESC"))), p[3..]))
      case None => None
    else None
  }

  /** The conditions, the order, and the pieces after them. */
  datatype Selection = Selection(conds: seq<Condition>, sort: Option<SortSpec>, rest: seq<Piece>)

  function ReadSelection(p: seq<Piece>, intro: string, default: string): Option<Selection> {
    match ReadClause(p, intro)
    case None => None
    case Some((conds, q)) =>
      if |q| == 0 || q[0] != Text(" ORDER BY ") then None
      else
        match ReadOrder(q[1..], default)
        case None => None
        case Some((sort, rest)) => Some(Selection(conds, sort, rest))
  }

  lemma PathIsRead(field: string)
    ensures PathField(Path(field)) == Some(field)
  {
  }

  lemma ConditionIsRead(c: Condition, rest: seq<Piece>)
    ensures ReadCondition(ConditionSql(c) + rest) == Some(c)
  {
  }

  lemma {:induction false} ConjunctionFromTheFront(conds: seq<Condition>)
    requires |conds| > 1
    ensures ConjunctionSql(conds) == ConditionSql(conds[0]) + [Text(" AND ")] + ConjunctionSql(conds[1..])
    decreases |conds|
  {
    var n := |conds| - 1;
    if n > 1 {
      ConjunctionFromTheFront(conds[..n]);
      assert conds[..n][1..] == conds[1..][..n - 1];
    } else {
      assert conds[..n] == [conds[0]] && conds[1..] == [conds[1]];
    }
  }

  /** Every conjunction is read back as its conditions, in order. */
  lemma {:induction false} ConjunctionIsRead(conds: seq<Condition>, rest: seq<Piece>)
    requires |conds| > 0 && (|rest| > 0 ==> rest[0] != Text(" AND "))
    ensures ReadConditions(ConjunctionSql(conds) + rest) == Some((conds, rest))
    decreases |conds|
  {
    if |conds| == 1 {
      assert conds == [conds[0]];
      LastIsRead(conds[0], rest);
    } else {
      ConjunctionFromTheFront(conds);
      ConjunctionIsRead(conds[1..], rest);
      NextIsRead(conds[0], ConjunctionSql(conds[1..]) + rest, conds[1..], rest);
      Reassociate(ConditionSql(conds[0]), [Text(" AND ")], ConjunctionSql(conds[1..]), rest);
      assert conds == [conds[0]] + conds[1..];
    }
  }

  lemma Reassociate<T>(a: seq<T>, b: seq<T>, c: seq<T>, d: seq<T>)
    ensures a + b + c + d == a + (b + (c + d))
  {
  }

  lemma Behind<T>(a: seq<T>, b: seq<T>)
    ensures (a + b)[|a|..] == b
  {
  }

  lemma LastIsRead(c: Condition, rest: seq<Piece>)
    requires |rest| > 0 ==> rest[0] != Text(" AND ")
    ensures ReadConditions(ConditionSql(c) + rest) == Some(([c], rest))
  {
    ConditionIsRead(c, rest);
    assert (ConditionSql(c) + rest)[4..] == rest;
  }

  lemma NextIsRead(c: Condition, more: seq<Piece>, conds: seq<Condition>, rest: seq<Piece>)
    requires ReadConditions(more) == Some((conds, rest))
    ensures ReadConditions(ConditionSql(c) + ([Text(" AND ")] + more)) == Some(([c] + conds, rest))
  {
    var p := ConditionSql(c) + ([Text(" AND ")] + more);
    ConditionIsRead(c, [Text(" AND ")] + more);
    assert p[4] == Text(" AND ") && p[5..] == more;
  }

  lemma ClauseIsRead(intro: string, conds: seq<Condition>, rest: seq<Piece>)
    requires |rest| > 0 ==> rest[0] != Text(" AND ") && rest[0] != Text(intro)
    ensures ReadClause(ClauseSql(intro, conds) + rest, intro) == Some((conds, rest))
  {
    if |conds| == 0 {
      assert ClauseSql(intro, conds) + rest == rest;
    } else {
      assert ClauseSql(intro, conds) + rest == [Text(intro)] + (ConjunctionSql(conds) + rest);
      ConjunctionIsRead(conds, rest);
      IntroIsRead(intro, ConjunctionSql(conds) + rest, conds, rest);
    }
  }

  lemma IntroIsRead(intro: string, p: seq<Piece>, conds: seq<Condition>, rest: seq<Piece>)
    requires ReadConditions(p) == Some((conds, rest))
    ensures ReadClause([Text(intro)] + p, intro) == Some((conds, rest))
  {
    Behind([Text(intro)], p);
  }

  lemma OrderIsRead(sort: Option<SortSpec>, default: string, rest: seq<Piece>)
    requires default != EXTRACT
    ensures ReadOrder(OrderSql(sort, default) + rest, default) == Some((sort, rest))
  {
  }

  /** The part that all queries share says what was asked for. */
  lemma SelectionIsRead(intro: string, conds: seq<Condition>, sort: Option<SortSpec>, default: string, rest: seq<Piece>)
    requires intro != " ORDER BY " && default != EXTRACT
    ensures ReadSelection(ClauseSql(intro, conds) + [Text(" ORDER BY ")] + OrderSql(sort, default) + rest, intro, default)
            == Some(Selection(conds, sort, rest))
  {
    var tail := [Text(" ORDER BY ")] + (OrderSql(sort, default) + rest);
    assert ClauseSql(intro, conds) + [Text(" ORDER BY ")] + OrderSql(sort, default) + rest == ClauseSql(intro, conds) + tail;
    ClauseIsRead(intro, conds, tail);
    assert tail[1..] == OrderSql(sort, default) + rest;
    OrderIsRead(sort, default, rest);
  }

  // ---------------------------------------------------------------- which documents a clause selects

  ghost predicate Selects(holds: (Json, string, Value) -> bool, p: seq<Piece>, intro: string, data: Payload) {
    match ReadClause(p, intro)
    case Some((conds, _)) => SatisfiesAll(holds, conds, data)
    case None => false
  }

  /** A generated clause selects exactly the documents that satisfy every filter, whatever the
      order in which the filters were found. */
  lemma ClauseSelectsConjunction(holds: (Json, string, Value) -> bool, intro: string, asked: seq<Condition>, found: seq<Condition>,
                                 data: Payload)
    requires forall c :: c in asked <==> c in found
    ensures Selects(holds, ClauseSql(intro, found), intro, data) <==> SatisfiesAll(holds, asked, data)
  {
    ClauseIsRead(intro, found, []);
    assert ClauseSql(intro, found) + [] == ClauseSql(intro, found);
    ConjunctionIgnoresOrder(holds, asked, found, data);
  }

  // ---------------------------------------------------------------- listing and full-text search

  /** LIMIT and OFFSET. */
  datatype Listed = Listed(conds: seq<Condition>, sort: Option<SortSpec>, limit: Value, offset: Value)

  function ReadPage(s: Selection): Option<Listed> {
    if |s.rest| == 4 && s.rest[0] == Text(" LIMIT ") && s.rest[1].Val? && s.rest[2] == Text(" OFFSET ") && s.rest[3].Val?
    then Some(Listed(s.conds, s.sort, s.rest[1].value, s.rest[3].value)) else None
  }

  function ReadList(p: seq<Piece>): Option<Listed> {
    if |p| == 0 then None
    else
      match ReadSelection(p[1..], "WHERE ", "id")
      case Some(s) => ReadPage(s)
      case None => None
  }

  /** The text searched for, and the listing of the matches. */
  function ReadFullText(p: seq<Piece>): Option<(Value, Listed)> {
    if |p| < 2 || !p[1].Val? then None
    else
      match ReadSelection(p[2..], " AND ", "rank")
      case None => None
      case Some(s) =>
        match ReadPage(s)
        case Some(listed) => Some((p[1].value, listed))
        case None => None
  }

  /** What is selected, and from where. */
  lemma HeadsAre(table: string, fts: string, q: string, conds: seq<Condition>, sort: Option<SortSpec>, limit: int, offset: int)
    ensures ListSql(table, true, conds, sort, limit, offset)[0] == Text("SELECT id, text, data FROM " + table + " ")
    ensures ListSql(table, false, conds, sort, limit, offset)[0] == Text("SELECT id, data FROM " + table + " ")
    ensures FullTextSql(fts, table, q, conds, sort, limit, offset)[0]
            == Text("SELECT m.id, m.text, m.data FROM " + fts + " f JOIN " + table + " m ON m.id = f.rowid WHERE f.text MATCH ")
    ensures KnnHead(table) == "SELECT id, text, data, distance FROM " + table + " WHERE embedding_bit MATCH vec_quantize_binary("
    ensures CoarseHead(table) == "WITH coarse_matches AS (" + "SELECT id, embedding, text, data FROM " + table
                                 + " WHERE embedding_bit MATCH vec_quantize_binary("
    ensures RERANK_HEAD == ") SELECT id, text, data, vec_distance_L2(embedding, " && RERANK_TAIL == ") AS distance FROM coarse_matches ORDER BY "
  {
  }

  lemma ListIsRead(table: string, hasVector: bool, conds: seq<Condition>, sort: Option<SortSpec>, limit: int, offset: int)
    ensures ReadList(ListSql(table, hasVector, conds, sort, limit, offset)) == Some(Listed(conds, sort, VInt(limit), VInt(offset)))
  {
    var rest := [Text(" LIMIT "), Val(VInt(limit)), Text(" OFFSET "), Val(VInt(offset))];
    SelectionIsRead("WHERE ", conds, sort, "id", rest);
    Behind([Text(ListHead(table, hasVector))], ClauseSql("WHERE ", conds) + [Text(" ORDER BY ")] + OrderSql(sort, "id") + rest);
  }

  lemma FullTextIsRead(fts: string, table: string, q: string, conds: seq<Condition>, sort: Option<SortSpec>, limit: int, offset: int)
    ensures ReadFullText(FullTextSql(fts, table, q, conds, sort, limit, offset))
            == Some((VText(q), Listed(conds, sort, VInt(limit), VInt(offset))))
  {
    var rest := [Text(" LIMIT "), Val(VInt(limit)), Text(" OFFSET "), Val(VInt(offset))];
    SelectionIsRead(" AND ", conds, sort, "rank", rest);
    Behind([Text(FullTextHead(fts, table)), Val(VText(q))], ClauseSql(" AND ", conds) + [Text(" ORDER BY ")] + OrderSql(sort, "rank") + rest);
  }

  // ---------------------------------------------------------------- aggregation

  /** A function over a field (or over whole rows), of the documents selected, per group or not. */
  datatype Aggregated = Aggregated(groupBy: Option<string>, fn: string, field: Option<string>, conds: seq<Condition>)

  const CALL := "(json_extract(data, "

  function FnOf(text: string): Option<string> {
    if |text| >= |CALL| && text[|text| - |CALL|..] == CALL then Some(text[..|text| - |CALL|]) else None
  }

  function ReadExpr(p: seq<Piece>): Option<(string, Option<string>, seq<Piece>)> {
    if |p| >= 1 && p[0] == Text("COUNT(*)") then Some(("COUNT", None, p[1..]))
    else if |p| >= 3 && p[0].Text? && p[1].Val? && p[2] == Text("))") then
      match (FnOf(p[0].text), PathField(p[1].value))
      case (Some(fn), Some(field)) => Some((fn, Some(field), p[3..]))
      case _ => None
    else None
  }

  /** From the expression on. */
  function ReadFrom(p: seq<Piece>, from: string, groupBy: Option<string>): Option<Aggregated> {
    match ReadExpr(p)
    case None => None
    case Some((fn, field, q)) =>
      if |q| == 0 || q[0] != Text(from) then None
      else
        match ReadClause(q[1..], "WHERE ")
        case None => None
        case Some((conds, end)) =>
          if end == (if groupBy.None? then [] else [Text(" GROUP BY grp ORDER BY grp")])
          then Some(Aggregated(groupBy, fn, field, conds)) else None
  }

  function ReadAggregate(p: seq<Piece>, table: string): Option<Aggregated> {
    var from := " FROM " + table + " ";
    if |p| >= 1 && p[0] == Text("SELECT ") then ReadFrom(p[1..], from, None)
    else if |p| >= 3 && p[0] == Text("SELECT json_extract(data, ") && p[1].Val? && p[2] == Text(") AS grp, ") then
      match PathField(p[1].value)
      case Some(field) => ReadFrom(p[3..], from, Some(field))
      case None => None
    else None
  }

  lemma ExprIsRead(op: string, field: string, rest: seq<Piece>)
    requires op in AGG_OPS && (field == "" ==> op == "count")
    ensures ReadExpr(AggExprSql(op, field) + rest) == Some((AGG_OPS[op], if field == "" then None else Some(field), rest))
  {
  }

  lemma FromIsRead(op: string, field: string, from: string, conds: seq<Condition>, groupBy: Option<string>)
    requires op in AGG_OPS && (field == "" ==> op == "count")
    ensures var end := if groupBy.None? then [] else [Text(" GROUP BY grp ORDER BY grp")];
      ReadFrom(AggExprSql(op, field) + [Text(from)] + ClauseSql("WHERE ", conds) + end, from, groupBy)
      == Some(Aggregated(groupBy, AGG_OPS[op], if field == "" then None else Some(field), conds))
  {
    var end := if groupBy.None? then [] else [Text(" GROUP BY grp ORDER BY grp")];
    var tail := ClauseSql("WHERE ", conds) + end;
    Reassociate(AggExprSql(op, field), [Text(from)], ClauseSql("WHERE ", conds), end);
    ExprIsRead(op, field, [Text(from)] + tail);
    Behind([Text(from)], tail);
    ClauseIsRead("WHERE ", conds, end);
  }

  /** Every aggregation that is let through, bound, says what was asked for. */
  lemma AggregateIsRead(table: string, op: string, field: string, groupBy: string, conds: seq<Condition>)
    requires AggregateAllowed(op, field, groupBy)
    ensures ReadAggregate(AggregateSql(table, op, field, groupBy, conds), table)
            == Some(Aggregated(if groupBy == "" then None else Some(groupBy), AGG_OPS[op], if field == "" then None else Some(field), conds))
  {
    var from := " FROM " + table + " ";
    var body := AggExprSql(op, field) + [Text(from)] + ClauseSql("WHERE ", conds);
    if groupBy == "" {
      FromIsRead(op, field, from, conds, None);
      Behind([Text("SELECT ")], body + []);
    } else {
      FromIsRead(op, field, from, conds, Some(groupBy));
      PathIsRead(groupBy);
      Behind([Text("SELECT json_extract(data, "), Val(Path(groupBy)), Text(") AS grp, ")], body + [Text(" GROUP BY grp ORDER BY grp")]);
    }
  }

  // ---------------------------------------------------------------- vector search

  /** The clauses of a search, as the database executes them. */
  datatype Plan =
    | Knn(limit: int)
    | Wide(k: int, conds: seq<Condition>, sort: Option<SortSpec>, limit: int)
    | Reranked(coarse: Coarse, sort: Option<SortSpec>, limit: int)

  datatype Coarse =
    | Nearby(limit: int)
    | NearbyWhere(k: int, conds: seq<Condition>, limit: int)

  function ReadInt(p: seq<Piece>, word: string): Option<(int, seq<Piece>)> {
    if |p| >= 2 && p[0] == Text(word) && p[1].Val? && p[1].value.VInt? then Some((p[1].value.n, p[2..])) else None
  }

  /** The single-stage forms, after the query vector. */
  function ReadKnn(p: seq<Piece>): Option<Plan> {
    match ReadInt(p, ") ORDER BY distance LIMIT ")
    case Some((limit, rest)) => if rest == [] then Some(Knn(limit)) else None
    case None =>
      match ReadInt(p, ") AND k = ")
      case None => None
      case Some((k, tail)) =>
        match ReadSelection(tail, " AND ", "distance")
        case None => None
        case Some(s) =>
          match ReadInt(s.rest, " LIMIT ")
          case Some((limit, end)) => if end == [] then Some(Wide(k, s.conds, s.sort, limit)) else None
          case None => None
  }

  /** The coarse stage, after the query vector. */
  function ReadCoarse(p: seq<Piece>): Option<(Coarse, seq<Piece>)> {
    match ReadInt(p, ") ORDER BY distance LIMIT ")
    case Some((limit, rest)) => Some((Nearby(limit), rest))
    case None =>
      match ReadInt(p, ") AND k = ")
      case None => None
      case Some((k, tail)) =>
        match ReadClause(tail, " AND ")
        case None => None
        case Some((conds, end)) =>
          match ReadInt(end, " ORDER BY distance LIMIT ")
          case Some((limit, rest)) => Some((NearbyWhere(k, conds, limit), rest))
          case None => None
  }

  /** The final stage of a reranked search, with the same query vector. */
  function ReadRerank(p: seq<Piece>, vec: Value, coarse: Coarse): Option<Plan> {
    if |p| < 3 || p[0] != Text(RERANK_HEAD) || p[1] != Val(vec) || p[2] != Text(RERANK_TAIL) then None
    else
      match ReadOrder(p[3..], "distance")
      case None => None
      case Some((sort, tail)) =>
        match ReadInt(tail, " LIMIT ")
        case Some((limit, end)) => if end == [] then Some(Reranked(coarse, sort, limit)) else None
        case None => None
  }

  function ReadSearch(p: seq<Piece>, table: string): Option<(Value, Plan)> {
    if |p| < 2 || !p[1].Val? then None
    else if p[0] == Text(KnnHead(table)) then
      match ReadKnn(p[2..])
      case Some(plan) => Some((p[1].value, plan))
      case None => None
    else if p[0] == Text(CoarseHead(table)) then
      match ReadCoarse(p[2..])
      case None => None
      case Some((coarse, rest)) =>
        match ReadRerank(rest, p[1].value, coarse)
        case Some(plan) => Some((p[1].value, plan))
        case None => None
    else None
  }

  /** The plan of a request. */
  function PlanOf(limit: int, rerank: bool, conds: seq<Condition>, sort: Option<SortSpec>): Plan {
    var wide := limit * 8;
    if !rerank then (if |conds| == 0 && sort.None? then Knn(limit) else Wide(wide, conds, sort, limit))
    else Reranked(CoarseOf(limit, conds), sort, limit)
  }

  lemma WideIsRead(k: int, conds: seq<Condition>, sort: Option<SortSpec>, limit: int)
    ensures ReadKnn([Text(") AND k = "), Val(VInt(k))]
                    + (ClauseSql(" AND ", conds) + [Text(" ORDER BY ")] + OrderSql(sort, "distance") + [Text(" LIMIT "), Val(VInt(limit))]))
            == Some(Wide(k, conds, sort, limit))
  {
    var end := [Text(" LIMIT "), Val(VInt(limit))];
    var tail := ClauseSql(" AND ", conds) + [Text(" ORDER BY ")] + OrderSql(sort, "distance") + end;
    SelectionIsRead(" AND ", conds, sort, "distance", end);
    Behind([Text(") AND k = "), Val(VInt(k))], tail);
  }

  lemma RerankIsRead(vec: Value, coarse: Coarse, sort: Option<SortSpec>, limit: int)
    ensures ReadRerank([Text(RERANK_HEAD), Val(vec)] + [Text(RERANK_TAIL)] + OrderSql(sort, "distance") + [Text(" LIMIT "), Val(VInt(limit))],
                       vec, coarse)
            == Some(Reranked(coarse, sort, limit))
  {
  }

  function CoarseOf(limit: int, conds: seq<Condition>): Coarse {
    var wide := limit * 8;
    if |conds| == 0 then Nearby(wide) else NearbyWhere(wide, conds, wide)
  }

  lemma NearbyIsRead(wide: int, rest: seq<Piece>)
    ensures ReadCoarse([Text(") ORDER BY distance LIMIT "), Val(VInt(wide))] + rest) == Some((Nearby(wide), rest))
  {
  }

  lemma NearbyWhereIsRead(wide: int, conds: seq<Condition>, rest: seq<Piece>)
    ensures ReadCoarse([Text(") AND k = "), Val(VInt(wide))]
                       + (ClauseSql(" AND ", conds) + ([Text(" ORDER BY distance LIMIT "), Val(VInt(wide))] + rest)))
            == Some((NearbyWhere(wide, conds, wide), rest))
  {
    var end := [Text(" ORDER BY distance LIMIT "), Val(VInt(wide))] + rest;
    var tail := ClauseSql(" AND ", conds) + end;
    assert ([Text(") AND k = "), Val(VInt(wide))] + tail)[2..] == tail && end[2..] == rest;
    ClauseIsRead(" AND ", conds, end);
  }

  /** The coarse stage: its head, the vector, and the rest. */
  lemma CoarseIsRead(table: string, vec: seq<real>, limit: int, conds: seq<Condition>, rest: seq<Piece>)
    ensures CoarseSql(table, vec, limit, conds) + rest == [Text(CoarseHead(table)), Val(VVector(vec))] + CoarseTail(limit, conds, rest)
    ensures ReadCoarse(CoarseTail(limit, conds, rest)) == Some((CoarseOf(limit, conds), rest))
  {
    CoarseSplits(table, vec, limit, conds, rest);
    if |conds| == 0 {
      NearbyIsRead(limit * OVERSAMPLE_FACTOR, rest);
    } else {
      NearbyWhereIsRead(limit * OVERSAMPLE_FACTOR, conds, rest);
    }
  }

  function CoarseTail(limit: int, conds: seq<Condition>, rest: seq<Piece>): seq<Piece> {
    var wide := Val(VInt(limit * OVERSAMPLE_FACTOR));
    if |conds| == 0 then [Text(") ORDER BY distance LIMIT "), wide] + rest
    else [Text(") AND k = "), wide] + (ClauseSql(" AND ", conds) + ([Text(" ORDER BY distance LIMIT "), wide] + rest))
  }

  lemma CoarseSplits(table: string, vec: seq<real>, limit: int, conds: seq<Condition>, rest: seq<Piece>)
    ensures CoarseSql(table, vec, limit, conds) + rest == [Text(CoarseHead(table)), Val(VVector(vec))] + CoarseTail(limit, conds, rest)
  {
  }

  lemma Regroup<T>(a: T, b: T, c: T, d: T, x: seq<T>, y: seq<T>, rest: seq<T>)
    ensures [a, b, c, d] + (x + y) + rest == [a, b] + ([c, d] + (x + (y + rest)))
    ensures [a, b, c, d] + rest == [a, b] + ([c, d] + rest)
  {
  }

  lemma KnnIsRead(vec: Value, table: string, p: seq<Piece>, plan: Plan)
    requires ReadKnn(p) == Some(plan)
    ensures ReadSearch([Text(KnnHead(table)), Val(vec)] + p, table) == Some((vec, plan))
  {
  }

  lemma RerankedIsRead(vec: Value, table: string, p: seq<Piece>, coarse: Coarse, rest: seq<Piece>, plan: Plan)
    requires ReadCoarse(p) == Some((coarse, rest)) && ReadRerank(rest, vec, coarse) == Some(plan)
    ensures ReadSearch([Text(CoarseHead(table)), Val(vec)] + p, table) == Some((vec, plan))
  {
  }

  /** Every form of the search query, bound, says what was asked for: the query vector, the
      filters, the order, and each bound in its own place. */
  lemma SearchIsRead(table: string, vec: seq<real>, limit: int, rerank: bool, conds: seq<Condition>, sort: Option<SortSpec>)
    ensures ReadSearch(SearchSql(table, vec, limit, rerank, conds, sort), table)
            == Some((VVector(vec), PlanOf(limit, rerank, conds, sort)))
  {
    if rerank {
      RerankedSearchIsRead(table, vec, limit, conds, sort);
    } else {
      SingleStageIsRead(table, vec, limit, conds, sort);
    }
  }

  lemma SingleStageIsRead(table: string, vec: seq<real>, limit: int, conds: seq<Condition>, sort: Option<SortSpec>)
    ensures ReadSearch(SearchSql(table, vec, limit, false, conds, sort), table)
            == Some((VVector(vec), PlanOf(limit, false, conds, sort)))
  {
    var head, v, wide := Text(KnnHead(table)), Val(VVector(vec)), limit * OVERSAMPLE_FACTOR;
    if |conds| == 0 && sort.None? {
      var p := [Text(") ORDER BY distance LIMIT "), Val(VInt(limit))];
      assert ReadKnn(p) == Some(Knn(limit));
      KnnIsRead(VVector(vec), table, p, Knn(limit));
      Regroup(head, v, p[0], p[1], [], [], []);
    } else {
      var tail := ClauseSql(" AND ", conds) + [Text(" ORDER BY ")] + OrderSql(sort, "distance") + [Text(" LIMIT "), Val(VInt(limit))];
      WideIsRead(wide, conds, sort, limit);
      KnnIsRead(VVector(vec), table, [Text(") AND k = "), Val(VInt(wide))] + tail, Wide(wide, conds, sort, limit));
      Regroup(head, v, Text(") AND k = "), Val(VInt(wide)), [], [], tail);
    }
  }

  lemma RerankedSearchIsRead(table: string, vec: seq<real>, limit: int, conds: seq<Condition>, sort: Option<SortSpec>)
    ensures ReadSearch(SearchSql(table, vec, limit, true, conds, sort), table)
            == Some((VVector(vec), PlanOf(limit, true, conds, sort)))
  {
    var final := [Text(RERANK_HEAD), Val(VVector(vec))] + [Text(RERANK_TAIL)] + OrderSql(sort, "distance") + [Text(" LIMIT "), Val(VInt(limit))];
    RerankIsRead(VVector(vec), CoarseOf(limit, conds), sort, limit);
    CoarseIsRead(table, vec, limit, conds, final);
    RerankedIsRead(VVector(vec), table, CoarseTail(limit, conds, final), CoarseOf(limit, conds), final, PlanOf(limit, true, conds, sort));
  }

  // ---------------------------------------------------------------- what a plan returns

  function AcceptsAll(holds: (Json, string, Value) -> bool, conds: seq<Condition>): Hit -> bool {
    (h: Hit) => forall c | c in conds :: holds(Field(h.row.data, c.field), c.op, c.value)
  }

  function OrderOf(sort: Option<SortSpec>, default: (Hit, Hit) -> bool): (Hit, Hit) -> bool {
    if sort.Some? then FieldOrder(sort.value.field, sort.value.desc) else default
  }

  ghost predicate CoarseAnswers(c: seq<Hit>, table: set<Hit>, coarse: Coarse, holds: (Json, string, Value) -> bool) {
    match coarse
    case Nearby(limit) => limit >= 0 && TopBy(c, table, BY_HAMMING, limit)
    case NearbyWhere(k, conds, limit) =>
      k >= 0 && limit >= 0 &&
      exists near :: Nearest(near, table, k) && TopBy(c, Accepted(near, AcceptsAll(holds, conds)), BY_HAMMING, limit)
  }

  /** The results each plan allows: MATCH ... k, then WHERE, then ORDER BY ... LIMIT. */
  ghost predicate PlanAnswers(q: seq<Hit>, table: set<Hit>, plan: Plan, holds: (Json, string, Value) -> bool) {
    match plan
    case Knn(limit) => limit >= 0 && TopBy(q, table, BY_HAMMING, limit)
    case Wide(k, conds, sort, limit) =>
      k >= 0 && limit >= 0 &&
      exists near :: Nearest(near, table, k)
        && TopBy(q, Accepted(near, AcceptsAll(holds, conds)), OrderOf(sort, BY_HAMMING), limit)
    case Reranked(coarse, sort, limit) =>
      limit >= 0 &&
      exists c :: CoarseAnswers(c, table, coarse, holds) && TopBy(q, Elements(c), OrderOf(sort, BY_L2), limit)
  }

  function RequestOf(limit: nat, rerank: bool, conds: seq<Condition>, sort: Option<SortSpec>,
                     holds: (Json, string, Value) -> bool): Search.Request {
    Search.Request(limit, rerank, if |conds| == 0 then None else Some(AcceptsAll(holds, conds)),
                   if sort.Some? then Some(FieldOrder(sort.value.field, sort.value.desc)) else None)
  }

  lemma NoConditions(rows: set<Hit>, holds: (Json, string, Value) -> bool)
    ensures Accepted(rows, AcceptsAll(holds, [])) == rows
  {
  }

  /** Running the generated SQL gives the results that the search promises, and no others. */
  lemma SearchSqlAnswers(q: seq<Hit>, rows: set<Hit>, table: string, vec: seq<real>, limit: nat, rerank: bool,
                         conds: seq<Condition>, sort: Option<SortSpec>,
                         holds: (Json, string, Value) -> bool)
    ensures var p := SearchSql(table, vec, limit, rerank, conds, sort);
      ReadSearch(p, table).Some? &&
      (PlanAnswers(q, rows, ReadSearch(p, table).value.1, holds)
       <==> Outcome(q, rows, RequestOf(limit, rerank, conds, sort, holds)))
  {
    SearchIsRead(table, vec, limit, rerank, conds, sort);
    PlanMeansOutcome(q, rows, limit, rerank, conds, sort, holds);
  }

  lemma PlanMeansOutcome(q: seq<Hit>, rows: set<Hit>, limit: nat, rerank: bool, conds: seq<Condition>, sort: Option<SortSpec>,
                         holds: (Json, string, Value) -> bool)
    ensures PlanAnswers(q, rows, PlanOf(limit, rerank, conds, sort), holds)
            <==> Outcome(q, rows, RequestOf(limit, rerank, conds, sort, holds))
  {
    var req := RequestOf(limit, rerank, conds, sort, holds);
    if !rerank && |conds| == 0 && sort.Some? {
      assert conds == [];
      forall near: set<Hit> ensures Accepted(near, AcceptsAll(holds, conds)) == Accepted(near, Accepts(req)) {
        NoConditions(near, holds);
        AcceptAll(near, req);
      }
    }
  }
}
