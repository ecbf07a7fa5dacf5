/** How filters, sort and limits become SQL text with placeholders and a separate argument list. */
module QueryBuilder {
  import opened Documents
  import Catalogs
  import Decimal
  import Search

  // ---------------------------------------------------------------- filters

  datatype Value = VBool(b: bool) | VInt(n: int) | VFloat(r: real) | VText(s: string) | VVector(v: seq<real>)

  /** filterCondition. */
  datatype Condition = Condition(field: string, op: string, value: Value)

  const FILTER_OPS: map<string, string> :=
    map["eq" := "=", "ne" := "!=", "lt" := "<", "lte" := "<=", "gt" := ">", "gte" := ">=", "like" := "LIKE"]

  const RESERVED: set<string> := {"limit", "offset", "q", "rerank", "sort", "op", "field", "group_by"}

  /** The operators of a filter, and the parameters that are never filters. */
  lemma OperatorsAre(op: string)
    ensures op in FILTER_OPS <==> op in {"eq", "ne", "lt", "lte", "gt", "gte", "like"}
    ensures FILTER_OPS["eq"] == "=" && FILTER_OPS["ne"] == "!=" && FILTER_OPS["lt"] == "<" && FILTER_OPS["lte"] == "<="
    ensures FILTER_OPS["gt"] == ">" && FILTER_OPS["gte"] == ">=" && FILTER_OPS["like"] == "LIKE"
    ensures op in RESERVED <==> op in {"limit", "offset", "q", "rerank", "sort", "op", "field", "group_by"}
  {
  }

  /** strings.LastIndex(key, "__"). */
  function LastDouble(s: string): int
    decreases |s|
  {
    if |s| < 2 then -1
    else if s[|s|-2] == '_' && s[|s|-1] == '_' then |s| - 2
    else LastDouble(s[..|s|-1])
  }

  /** The field and the SQL operator a parameter name stands for. */
  function ParseKey(key: string): Option<(string, string)> {
    var idx := LastDouble(key);
    var field := if idx > 0 && idx + 2 <= |key| then key[..idx] else key;
    var op := if idx > 0 && idx + 2 <= |key| then key[idx + 2..] else "eq";
    if !Catalogs.IsName(field) || op !in FILTER_OPS then None else Some((field, FILTER_OPS[op]))
  }

  lemma {:induction false} LastDoubleMeaning(s: string)
    ensures LastDouble(s) == -1 || 0 <= LastDouble(s) <= |s| - 2
    ensures LastDouble(s) >= 0 ==> s[LastDouble(s)] == '_' && s[LastDouble(s) + 1] == '_'
    ensures forall j | LastDouble(s) < j < |s| - 1 && j >= 0 :: s[j] != '_' || s[j + 1] != '_'
    decreases |s|
  {
    if |s| >= 2 && !(s[|s|-2] == '_' && s[|s|-1] == '_') {
      var init := s[..|s|-1];
      LastDoubleMeaning(init);
      forall j | LastDouble(s) < j < |s| - 1 && j >= 0 ensures s[j] != '_' || s[j + 1] != '_' {
        if j < |s| - 2 { assert init[j] == s[j] && init[j + 1] == s[j + 1]; }
      }
    }
  }

  lemma OpsHaveNoUnderscore(op: string)
    requires op in FILTER_OPS
    ensures |op| >= 2 && forall i | 0 <= i < |op| :: op[i] != '_'
  {
  }

  /** field__op is read back as that field and operator, even when the field ends in underscores. */
  lemma KeyRoundTrip(field: string, op: string)
    requires Catalogs.IsName(field) && op in FILTER_OPS
    ensures ParseKey(field + "__" + op) == Some((field, FILTER_OPS[op]))
  {
    var key := field + "__" + op;
    LastDoubleMeaning(key);
    OpsHaveNoUnderscore(op);
    var i := LastDouble(key);
    assert key[|field|] == '_' && key[|field| + 1] == '_';
    assert i >= |field|;
    assert forall j | |field| + 2 <= j < |key| :: key[j] == op[j - |field| - 2];
    assert key[..|field|] == field && key[|field| + 2..] == op;
  }

  /** A bare field name means equality exactly when the name has no double underscore in it. */
  lemma BareKeyMeansEquality(field: string)
    requires Catalogs.IsName(field)
    ensures ParseKey(field) == Some((field, "=")) <==>
              forall j | 0 <= j < |field| - 1 :: field[j] != '_' || field[j + 1] != '_'
  {
    LastDoubleMeaning(field);
    var i := LastDouble(field);
    if i >= 0 {
      assert i != 0;
      assert |field[..i]| < |field|;
    }
  }

  /** A parameter name is read as a field and an operator joined by a double underscore, or as a
      bare field without one, which means equality; any other name is an error. */
  lemma ParseKeyIff(key: string, field: string, word: string)
    ensures ParseKey(key) == Some((field, word)) <==>
      && Catalogs.IsName(field)
      && (|| (exists op :: op in FILTER_OPS && key == field + "__" + op && word == FILTER_OPS[op])
          || (key == field && word == "=" && forall j | 0 <= j < |field| - 1 :: field[j] != '_' || field[j + 1] != '_'))
  {
    LastDoubleMeaning(key);
    if ParseKey(key) == Some((field, word)) {
      var i := LastDouble(key);
      if i > 0 {
        assert key == key[..i] + "__" + key[i + 2..];
      } else {
        assert key == field;
      }
    }
    if op :| Catalogs.IsName(field) && op in FILTER_OPS && key == field + "__" + op && word == FILTER_OPS[op] {
      KeyRoundTrip(field, op);
    }
    if Catalogs.IsName(field) && key == field {
      BareKeyMeansEquality(field);
    }
  }

  /** parseFilterValue; `parseFloat` stands for strconv.ParseFloat. */
  function ParseFilterValue(raw: string, parseFloat: string -> Option<real>): Value {
    if raw == "true" then VBool(true)
    else if raw == "false" then VBool(false)
    else
      match Decimal.ParseInt(raw)
      case Some(n) => VInt(n)
      case None =>
        match parseFloat(raw)
        case Some(r) => VFloat(r)
        case None => VText(raw)
  }

  /** A printed 64-bit integer is bound as that integer, not as text. */
  lemma IntegersAreBoundAsIntegers(n: int, parseFloat: string -> Option<real>)
    requires Decimal.MIN_INT64 <= n <= Decimal.MAX_INT64
    ensures ParseFilterValue(Decimal.Format(n), parseFloat) == VInt(n)
  {
    Decimal.FormatRoundTrip(n);
    Decimal.FormatChars(n);
    var s := Decimal.Format(n);
    assert s[0] != 't' && s[0] != 'f';
  }

  /** Which reading of a value is taken. */
  lemma FilterValueMeaning(raw: string, parseFloat: string -> Option<real>)
    ensures var v := ParseFilterValue(raw, parseFloat);
      && (forall b :: v == VBool(b) <==> raw == if b then "true" else "false")
      && (forall n :: v == VInt(n) <==> Decimal.ParseInt(raw) == Some(n))
      && (forall x :: v == VFloat(x) <==> parseFloat(raw) == Some(x) && Decimal.ParseInt(raw).None? && raw != "true" && raw != "false")
      && (forall s :: v == VText(s) <==> s == raw && parseFloat(raw).None? && Decimal.ParseInt(raw).None? && raw != "true" && raw != "false")
  {
    assert !Decimal.IsDigit("true"[0]) && !Decimal.IsDigit("false"[0]);
  }

  ghost predicate GoodKeys(query: map<string, seq<string>>) {
    forall key | key in query && key !in RESERVED :: ParseKey(key).Some?
  }

  /** The condition that value `j` of parameter `key` asks for. */
  function Asked(query: map<string, seq<string>>, key: string, j: nat, parseFloat: string -> Option<real>): Condition
    requires key in query && j < |query[key]| && ParseKey(key).Some?
  {
    Condition(ParseKey(key).value.0, ParseKey(key).value.1, ParseFilterValue(query[key][j], parseFloat))
  }

  /** The conditions that one parameter asks for, one for each of its values, in order. */
  function AskedBy(query: map<string, seq<string>>, key: string, parseFloat: string -> Option<real>): seq<Condition>
    requires key in query && ParseKey(key).Some?
  {
    seq(|query[key]|, j requires 0 <= j < |query[key]| => Asked(query, key, j, parseFloat))
  }

  /** The conditions of several parameters, in this order. */
  function AskedByAll(query: map<string, seq<string>>, keys: seq<string>, parseFloat: string -> Option<real>): seq<Condition>
    requires forall key | key in keys :: key in query && ParseKey(key).Some?
  {
    if |keys| == 0 then []
    else AskedByAll(query, keys[..|keys|-1], parseFloat) + AskedBy(query, keys[|keys|-1], parseFloat)
  }

  lemma AskedByOneMore(query: map<string, seq<string>>, keys: seq<string>, key: string, parseFloat: string -> Option<real>)
    requires forall k | k in keys + [key] :: k in query && ParseKey(k).Some?
    ensures AskedByAll(query, keys + [key], parseFloat) == AskedByAll(query, keys, parseFloat) + AskedBy(query, key, parseFloat)
  {
    assert (keys + [key])[..|keys|] == keys;
  }

  /** `keys` are the parameters that are filters, each once. */
  ghost predicate FilterKeys(query: map<string, seq<string>>, keys: seq<string>) {
    && (forall key :: key in keys <==> key in query && key !in RESERVED)
    && (forall i, j | 0 <= i < j < |keys| :: keys[i] != keys[j])
  }

  /** parseFilters, over the parameters in whatever order the map yields them: an error exactly
      when some parameter is malformed, and otherwise one condition per value and no other. */
  method ParseFilters(query: map<string, seq<string>>, parseFloat: string -> Option<real>) returns (r: Option<seq<Condition>>)
    ensures r.Some? <==> GoodKeys(query)
    ensures r.Some? ==> exists keys :: FilterKeys(query, keys) && r.value == AskedByAll(query, keys, parseFloat)
  {
    var conds: seq<Condition> := [];
    ghost var keys: seq<string> := [];
    var rest := query.Keys;
    while rest != {}
      invariant rest <= query.Keys
      invariant forall key :: key in keys <==> key in query && key !in RESERVED && key !in rest
      invariant forall i, j | 0 <= i < j < |keys| :: keys[i] != keys[j]
      invariant forall key | key in keys :: ParseKey(key).Some?
      invariant conds == AskedByAll(query, keys, parseFloat)
      decreases |rest|
    {
      var key :| key in rest;
      rest := rest - {key};
      if key in RESERVED { continue; }
      var parsed := ParseKey(key);
      if parsed.None? { return None; }
      var more := ParseValues(query, key, parsed.value, parseFloat);
      AskedByOneMore(query, keys, key, parseFloat);
      conds, keys := conds + more, keys + [key];
    }
    assert FilterKeys(query, keys);
    r := Some(conds);
  }

  /** The inner loop, over the values of one parameter. */
  method ParseValues(query: map<string, seq<string>>, key: string, parsed: (string, string), parseFloat: string -> Option<real>)
    returns (conds: seq<Condition>)
    requires key in query && ParseKey(key) == Some(parsed)
    ensures conds == AskedBy(query, key, parseFloat)
  {
    conds := [];
    for n := 0 to |query[key]|
      invariant conds == AskedBy(query, key, parseFloat)[..n]
    {
      conds := conds + [Condition(parsed.0, parsed.1, ParseFilterValue(query[key][n], parseFloat))];
    }
  }

  /** A conjunction of conditions, under any meaning of a single comparison. */
  ghost predicate SatisfiesAll(holds: (Json, string, Value) -> bool, conds: seq<Condition>, data: Payload) {
    forall c | c in conds :: holds(Field(data, c.field), c.op, c.value)
  }

  /** The order in which the conditions were found does not matter. */
  lemma ConjunctionIgnoresOrder(holds: (Json, string, Value) -> bool, a: seq<Condition>, b: seq<Condition>, data: Payload)
    requires forall c :: c in a <==> c in b
    ensures SatisfiesAll(holds, a, data) <==> SatisfiesAll(holds, b, data)
  {
  }

  // ---------------------------------------------------------------- SQL text and arguments

  /** SQL text: fixed words, and placeholders. */
  datatype Token = Sql(text: string) | Hole

  /** SQL with the values in place. */
  datatype Piece = Text(text: string) | Val(value: Value)

  /** What the database makes of a text and an argument list: values by position. */
  function Bind(text: seq<Token>, args: seq<Value>): Option<seq<Piece>> {
    if |text| == 0 then (if |args| == 0 then Some([]) else None)
    else
      match text[0]
      case Sql(w) =>
        (match Bind(text[1..], args)
         case Some(rest) => Some([Text(w)] + rest)
         case None => None)
      case Hole =>
        if |args| == 0 then None
        else
          match Bind(text[1..], args[1..])
          case Some(rest) => Some([Val(args[0])] + rest)
          case None => None
  }

  function Holes(text: seq<Token>): nat {
    if |text| == 0 then 0 else (if text[0].Hole? then 1 else 0) + Holes(text[1..])
  }

  /** A text can be bound exactly when it has as many placeholders as there are arguments. */
  lemma {:induction false} BindCounts(text: seq<Token>, args: seq<Value>)
    ensures Bind(text, args).Some? <==> Holes(text) == |args|
  {
    if |text| > 0 {
      if text[0].Sql? {
        BindCounts(text[1..], args);
      } else if |args| > 0 {
        BindCounts(text[1..], args[1..]);
      }
    }
  }

  /** Texts bound to their own arguments may be joined. */
  lemma {:induction false} BindJoins(a: seq<Token>, x: seq<Value>, p: seq<Piece>, b: seq<Token>, y: seq<Value>, q: seq<Piece>)
    requires Bind(a, x) == Some(p) && Bind(b, y) == Some(q)
    ensures Bind(a + b, x + y) == Some(p + q)
    decreases |a|
  {
    if |a| == 0 {
      assert a + b == b && x + y == y && p + q == q;
    } else {
      assert (a + b)[1..] == a[1..] + b;
      if a[0].Sql? {
        var rest := Bind(a[1..], x).value;
        BindJoins(a[1..], x, rest, b, y, q);
        assert p + q == [Text(a[0].text)] + (rest + q);
      } else {
        var rest := Bind(a[1..], x[1..]).value;
        assert (x + y)[1..] == x[1..] + y && (x + y)[0] == x[0];
        BindJoins(a[1..], x[1..], rest, b, y, q);
        assert p + q == [Val(x[0])] + (rest + q);
      }
    }
  }

  lemma BindWord(word: string)
    ensures Bind([Sql(word)], []) == Some([Text(word)])
  {
    assert [Sql(word)][1..] == [] && [Text(word)] + [] == [Text(word)];
    assert Bind([], []) == Some([]);
  }

  lemma BindHole(value: Value)
    ensures Bind([Hole], [value]) == Some([Val(value)])
  {
    assert [Hole][1..] == [] && [value][1..] == [] && [Val(value)] + [] == [Val(value)];
    assert Bind([], []) == Some([]);
  }

  lemma BindOne(word: string, value: Value)
    ensures Bind([Sql(word), Hole], [value]) == Some([Text(word), Val(value)])
  {
    BindWord(word);
    BindHole(value);
    BindJoins([Sql(word)], [], [Text(word)], [Hole], [value], [Val(value)]);
    assert [Sql(word)] + [Hole] == [Sql(word), Hole] && [] + [value] == [value];
    assert [Text(word)] + [Val(value)] == [Text(word), Val(value)];
  }

  lemma BindTwo(first: string, x: Value, second: string, y: Value)
    ensures Bind([Sql(first), Hole, Sql(second), Hole], [x, y]) == Some([Text(first), Val(x), Text(second), Val(y)])
  {
    BindOne(first, x);
    BindOne(second, y);
    BindJoins([Sql(first), Hole], [x], [Text(first), Val(x)], [Sql(second), Hole], [y], [Text(second), Val(y)]);
    assert [Sql(first), Hole] + [Sql(second), Hole] == [Sql(first), Hole, Sql(second), Hole] && [x] + [y] == [x, y];
    assert [Text(first), Val(x)] + [Text(second), Val(y)] == [Text(first), Val(x), Text(second), Val(y)];
  }

  // ---------------------------------------------------------------- conditions and orders

  function Path(field: string): Value { VText("$." + field) }

  /** What a condition means, written with its values in place. */
  function ConditionSql(c: Condition): seq<Piece> {
    [Text("json_extract(data, "), Val(Path(c.field)), Text(") " + c.op + " "), Val(c.value)]
  }

  function ConjunctionSql(conds: seq<Condition>): seq<Piece>
    requires |conds| > 0
  {
    if |conds| == 1 then ConditionSql(conds[0])
    else ConjunctionSql(conds[..|conds|-1]) + [Text(" AND ")] + ConditionSql(conds[|conds|-1])
  }

  /** "WHERE" or "AND" and the conjunction, or nothing when there are no conditions. */
  function ClauseSql(intro: string, conds: seq<Condition>): seq<Piece> {
    if |conds| == 0 then [] else [Text(intro)] + ConjunctionSql(conds)
  }

  datatype SortSpec = SortSpec(field: string, desc: bool)

  function OrderSql(sort: Option<SortSpec>, default: string): seq<Piece> {
    match sort
    case None => [Text(default)]
    case Some(s) => [Text("json_extract(data, "), Val(Path(s.field)), Text(if s.desc then ") DESC" else ") ASC")]
  }

  function ParseSort(raw: string): Option<Option<SortSpec>> {
    if raw == "" then Some(None)
    else
      var desc := raw[0] == '-';
      var field := if desc then raw[1..] else raw;
      if Catalogs.IsName(field) then Some(Some(SortSpec(field, desc))) else None
  }

  /** The sort parameter is a field name, with a minus sign for descending order, and nothing else. */
  lemma SortKeyMeaning(raw: string, s: SortSpec)
    ensures ParseSort(raw) == Some(Some(s)) <==> Catalogs.IsName(s.field) && raw == (if s.desc then "-" else "") + s.field
  {
    if raw != "" && raw[0] == '-' {
      assert raw == "-" + raw[1..];
    }
    assert ("-" + s.field)[0] == '-' && ("-" + s.field)[1..] == s.field && "" + s.field == s.field;
  }

  /** filterWhereSQL. */
  method FilterWhereSQL(conds: seq<Condition>) returns (text: seq<Token>, args: seq<Value>)
    ensures |conds| == 0 ==> text == [] && args == []
    ensures |conds| > 0 ==> Bind(text, args) == Some(ConjunctionSql(conds))
  {
    text, args := [], [];
    for n := 0 to |conds|
      invariant n == 0 ==> text == [] && args == []
      invariant n > 0 ==> Bind(text, args) == Some(ConjunctionSql(conds[..n]))
    {
      var c := conds[n];
      var part, values := [Sql("json_extract(data, "), Hole, Sql(") " + c.op + " "), Hole], [Path(c.field), c.value];
      BindTwo("json_extract(data, ", Path(c.field), ") " + c.op + " ", c.value);
      if n == 0 {
        assert conds[..1] == [c];
        text, args := part, values;
      } else {
        assert conds[..n + 1][..n] == conds[..n];
        BindWord(" AND ");
        BindJoins(text, args, ConjunctionSql(conds[..n]), [Sql(" AND ")], [], [Text(" AND ")]);
        BindJoins(text + [Sql(" AND ")], args + [], ConjunctionSql(conds[..n]) + [Text(" AND ")], part, values, ConditionSql(c));
        text, args := text + [Sql(" AND ")] + part, args + [] + values;
      }
    }
    assert conds[..|conds|] == conds;
  }

  // ---------------------------------------------------------------- the queries

  /** orderBySQL, or the caller's default order. */
  method OrderBySQL(sort: Option<SortSpec>, default: string) returns (text: seq<Token>, args: seq<Value>)
    ensures Bind(text, args) == Some(OrderSql(sort, default))
  {
    if sort.None? {
      BindWord(default);
      return [Sql(default)], [];
    }
    var dir := if sort.value.desc then ") DESC" else ") ASC";
    BindOne("json_extract(data, ", Path(sort.value.field));
    BindWord(dir);
    BindJoins([Sql("json_extract(data, "), Hole], [Path(sort.value.field)],
              [Text("json_extract(data, "), Val(Path(sort.value.field))], [Sql(dir)], [], [Text(dir)]);
    text, args := [Sql("json_extract(data, "), Hole] + [Sql(dir)], [Path(sort.value.field)] + [];
    assert OrderSql(sort, default) == [Text("json_extract(data, "), Val(Path(sort.value.field))] + [Text(dir)];
  }

  method FilterClause(intro: string, conds: seq<Condition>) returns (text: seq<Token>, args: seq<Value>)
    ensures Bind(text, args) == Some(ClauseSql(intro, conds))
  {
    text, args := FilterWhereSQL(conds);
    if |conds| > 0 {
      BindWord(intro);
      BindJoins([Sql(intro)], [], [Text(intro)], text, args, ConjunctionSql(conds));
      assert [] + args == args;
      text := [Sql(intro)] + text;
    }
  }

  /** The tail that every query shares: a clause, an order, and what follows it. */
  lemma BindTail(clause: seq<Token>, clauseArgs: seq<Value>, clauseSql: seq<Piece>, keyword: string,
                 order: seq<Token>, orderArgs: seq<Value>, orderSql: seq<Piece>,
                 end: seq<Token>, endArgs: seq<Value>, endSql: seq<Piece>)
    requires Bind(clause, clauseArgs) == Some(clauseSql) && Bind(order, orderArgs) == Some(orderSql) && Bind(end, endArgs) == Some(endSql)
    ensures Bind(clause + [Sql(keyword)] + order + end, clauseArgs + orderArgs + endArgs)
            == Some(clauseSql + [Text(keyword)] + orderSql + endSql)
  {
    BindWord(keyword);
    BindJoins(clause, clauseArgs, clauseSql, [Sql(keyword)], [], [Text(keyword)]);
    assert clauseArgs + [] == clauseArgs;
    BindJoins(clause + [Sql(keyword)], clauseArgs, clauseSql + [Text(keyword)], order, orderArgs, orderSql);
    BindJoins(clause + [Sql(keyword)] + order, clauseArgs + orderArgs, clauseSql + [Text(keyword)] + orderSql, end, endArgs, endSql);
  }

  function ListHead(table: string, hasVector: bool): string {
    (if hasVector then "SELECT id, text, data FROM " else "SELECT id, data FROM ") + table + " "
  }

  /** The listing asked for: these conditions, this order, this page. */
  function ListSql(table: string, hasVector: bool, conds: seq<Condition>, sort: Option<SortSpec>, limit: int, offset: int): seq<Piece> {
    [Text(ListHead(table, hasVector))] +
    (ClauseSql("WHERE ", conds) + [Text(" ORDER BY ")] + OrderSql(sort, "id")
     + [Text(" LIMIT "), Val(VInt(limit)), Text(" OFFSET "), Val(VInt(offset))])
  }

  /** The query of listDocuments. */
  method ListQuery(table: string, hasVector: bool, conds: seq<Condition>, sort: Option<SortSpec>, limit: int, offset: int)
    returns (text: seq<Token>, args: seq<Value>)
    ensures Holes(text) == |args|
    ensures Bind(text, args) == Some(ListSql(table, hasVector, conds, sort, limit, offset))
  {
    var where, whereArgs := FilterClause("WHERE ", conds);
    var orderBy, orderArgs := OrderBySQL(sort, "id");
    text := [Sql(ListHead(table, hasVector))] + (where + [Sql(" ORDER BY ")] + orderBy + [Sql(" LIMIT "), Hole, Sql(" OFFSET "), Hole]);
    args := whereArgs + orderArgs;
    args := args + [VInt(limit), VInt(offset)];

    BindTwo(" LIMIT ", VInt(limit), " OFFSET ", VInt(offset));
    BindTail(where, whereArgs, ClauseSql("WHERE ", conds), " ORDER BY ", orderBy, orderArgs, OrderSql(sort, "id"),
             [Sql(" LIMIT "), Hole, Sql(" OFFSET "), Hole], [VInt(limit), VInt(offset)],
             [Text(" LIMIT "), Val(VInt(limit)), Text(" OFFSET "), Val(VInt(offset))]);
    BindWord(ListHead(table, hasVector));
    BindJoins([Sql(ListHead(table, hasVector))], [], [Text(ListHead(table, hasVector))],
              where + [Sql(" ORDER BY ")] + orderBy + [Sql(" LIMIT "), Hole, Sql(" OFFSET "), Hole], args,
              ClauseSql("WHERE ", conds) + [Text(" ORDER BY ")] + OrderSql(sort, "id")
              + [Text(" LIMIT "), Val(VInt(limit)), Text(" OFFSET "), Val(VInt(offset))]);
    assert [] + args == args;
    BindCounts(text, args);
  }

  function FullTextHead(fts: string, table: string): string {
    "SELECT m.id, m.text, m.data FROM " + fts + " f JOIN " + table + " m ON m.id = f.rowid WHERE f.text MATCH "
  }

  function FullTextSql(fts: string, table: string, q: string, conds: seq<Condition>, sort: Option<SortSpec>, limit: int, offset: int): seq<Piece> {
    [Text(FullTextHead(fts, table)), Val(VText(q))] +
    (ClauseSql(" AND ", conds) + [Text(" ORDER BY ")] + OrderSql(sort, "rank")
     + [Text(" LIMIT "), Val(VInt(limit)), Text(" OFFSET "), Val(VInt(offset))])
  }

  /** The query of fullTextSearchDocuments. */
  method FullTextQuery(fts: string, table: string, q: string, conds: seq<Condition>, sort: Option<SortSpec>, limit: int, offset: int)
    returns (text: seq<Token>, args: seq<Value>)
    ensures Holes(text) == |args|
    ensures Bind(text, args) == Some(FullTextSql(fts, table, q, conds, sort, limit, offset))
  {
    var extra, whereArgs := FilterClause(" AND ", conds);
    var orderBy, orderArgs := OrderBySQL(sort, "rank");
    text := [Sql(FullTextHead(fts, table)), Hole] + (extra + [Sql(" ORDER BY ")] + orderBy + [Sql(" LIMIT "), Hole, Sql(" OFFSET "), Hole]);
    args := [VText(q)] + (whereArgs + orderArgs + [VInt(limit), VInt(offset)]);

    BindTwo(" LIMIT ", VInt(limit), " OFFSET ", VInt(offset));
    BindTail(extra, whereArgs, ClauseSql(" AND ", conds), " ORDER BY ", orderBy, orderArgs, OrderSql(sort, "rank"),
             [Sql(" LIMIT "), Hole, Sql(" OFFSET "), Hole], [VInt(limit), VInt(offset)],
             [Text(" LIMIT "), Val(VInt(limit)), Text(" OFFSET "), Val(VInt(offset))]);
    BindOne(FullTextHead(fts, table), VText(q));
    BindJoins([Sql(FullTextHead(fts, table)), Hole], [VText(q)], [Text(FullTextHead(fts, table)), Val(VText(q))],
              extra + [Sql(" ORDER BY ")] + orderBy + [Sql(" LIMIT "), Hole, Sql(" OFFSET "), Hole],
              whereArgs + orderArgs + [VInt(limit), VInt(offset)],
              ClauseSql(" AND ", conds) + [Text(" ORDER BY ")] + OrderSql(sort, "rank")
              + [Text(" LIMIT "), Val(VInt(limit)), Text(" OFFSET "), Val(VInt(offset))]);
    BindCounts(text, args);
  }

  // ---------------------------------------------------------------- vector search

  function KnnHead(table: string): string {
    "SELECT id, text, data, distance FROM " + table + " WHERE embedding_bit MATCH vec_quantize_binary("
  }

  function CoarseHead(table: string): string {
    "WITH coarse_matches AS (" + "SELECT id, embedding, text, data FROM " + table + " WHERE embedding_bit MATCH vec_quantize_binary("
  }

  const RERANK_HEAD := ") SELECT id, text, data, vec_distance_L2(embedding, "
  const RERANK_TAIL := ") AS distance FROM coarse_matches ORDER BY "

  /** The search asked for, one form for each combination of rerank and filters. */
  function SearchSql(table: string, vec: seq<real>, limit: int, rerank: bool, conds: seq<Condition>, sort: Option<SortSpec>): seq<Piece> {
    var wide := VInt(limit * Search.OVERSAMPLE_FACTOR);
    if !rerank then
      if |conds| == 0 && sort.None? then
        [Text(KnnHead(table)), Val(VVector(vec)), Text(") ORDER BY distance LIMIT "), Val(VInt(limit))]
      else
        [Text(KnnHead(table)), Val(VVector(vec)), Text(") AND k = "), Val(wide)] +
        (ClauseSql(" AND ", conds) + [Text(" ORDER BY ")] + OrderSql(sort, "distance") + [Text(" LIMIT "), Val(VInt(limit))])
    else
      CoarseSql(table, vec, limit, conds) +
      ([Text(RERANK_HEAD), Val(VVector(vec))] + [Text(RERANK_TAIL)] + OrderSql(sort, "distance") + [Text(" LIMIT "), Val(VInt(limit))])
  }

  /** The coarse stage: its order never depends on the requested sort. */
  function CoarseSql(table: string, vec: seq<real>, limit: int, conds: seq<Condition>): seq<Piece> {
    var wide := VInt(limit * Search.OVERSAMPLE_FACTOR);
    if |conds| == 0 then [Text(CoarseHead(table)), Val(VVector(vec)), Text(") ORDER BY distance LIMIT "), Val(wide)]
    else
      [Text(CoarseHead(table)), Val(VVector(vec)), Text(") AND k = "), Val(wide)] +
      (ClauseSql(" AND ", conds) + [Text(" ORDER BY distance LIMIT "), Val(wide)])
  }

  /** The queries of searchDocuments. */
  method SearchQuery(table: string, vec: seq<real>, limit: int, rerank: bool, conds: seq<Condition>, sort: Option<SortSpec>)
    returns (text: seq<Token>, args: seq<Value>)
    ensures Holes(text) == |args|
    ensures Bind(text, args) == Some(SearchSql(table, vec, limit, rerank, conds, sort))
  {
    var extra, whereArgs := FilterClause(" AND ", conds);
    var orderBy, sortArgs := OrderBySQL(sort, "distance");
    BindOne(" LIMIT ", VInt(limit));
    if !rerank {
      if |conds| == 0 && sort.None? {
        text := [Sql(KnnHead(table)), Hole, Sql(") ORDER BY distance LIMIT "), Hole];
        args := [VVector(vec), VInt(limit)];
        BindTwo(KnnHead(table), VVector(vec), ") ORDER BY distance LIMIT ", VInt(limit));
      } else {
        var k := limit * Search.OVERSAMPLE_FACTOR;
        text := [Sql(KnnHead(table)), Hole, Sql(") AND k = "), Hole] + (extra + [Sql(" ORDER BY ")] + orderBy + [Sql(" LIMIT "), Hole]);
        args := [VVector(vec), VInt(k)] + (whereArgs + sortArgs + [VInt(limit)]);
        BindTwo(KnnHead(table), VVector(vec), ") AND k = ", VInt(k));
        BindTail(extra, whereArgs, ClauseSql(" AND ", conds), " ORDER BY ", orderBy, sortArgs, OrderSql(sort, "distance"),
                 [Sql(" LIMIT "), Hole], [VInt(limit)], [Text(" LIMIT "), Val(VInt(limit))]);
        BindJoins([Sql(KnnHead(table)), Hole, Sql(") AND k = "), Hole], [VVector(vec), VInt(k)],
                  [Text(KnnHead(table)), Val(VVector(vec)), Text(") AND k = "), Val(VInt(k))],
                  extra + [Sql(" ORDER BY ")] + orderBy + [Sql(" LIMIT "), Hole], whereArgs + sortArgs + [VInt(limit)],
                  ClauseSql(" AND ", conds) + [Text(" ORDER BY ")] + OrderSql(sort, "distance") + [Text(" LIMIT "), Val(VInt(limit))]);
      }
    } else {
      var coarse, coarseArgs := CoarseQuery(table, vec, limit, conds);
      text := coarse + ([Sql(RERANK_HEAD), Hole] + [Sql(RERANK_TAIL)] + orderBy + [Sql(" LIMIT "), Hole]);
      args := coarseArgs + ([VVector(vec)] + sortArgs + [VInt(limit)]);
      BindOne(RERANK_HEAD, VVector(vec));
      BindTail([Sql(RERANK_HEAD), Hole], [VVector(vec)], [Text(RERANK_HEAD), Val(VVector(vec))], RERANK_TAIL,
               orderBy, sortArgs, OrderSql(sort, "distance"), [Sql(" LIMIT "), Hole], [VInt(limit)], [Text(" LIMIT "), Val(VInt(limit))]);
      BindJoins(coarse, coarseArgs, CoarseSql(table, vec, limit, conds),
                [Sql(RERANK_HEAD), Hole] + [Sql(RERANK_TAIL)] + orderBy + [Sql(" LIMIT "), Hole], [VVector(vec)] + sortArgs + [VInt(limit)],
                [Text(RERANK_HEAD), Val(VVector(vec))] + [Text(RERANK_TAIL)] + OrderSql(sort, "distance") + [Text(" LIMIT "), Val(VInt(limit))]);
    }
    BindCounts(text, args);
  }

  method CoarseQuery(table: string, vec: seq<real>, limit: int, conds: seq<Condition>) returns (text: seq<Token>, args: seq<Value>)
    ensures Bind(text, args) == Some(CoarseSql(table, vec, limit, conds))
  {
    var wide := VInt(limit * Search.OVERSAMPLE_FACTOR);
    if |conds| == 0 {
      BindTwo(CoarseHead(table), VVector(vec), ") ORDER BY distance LIMIT ", wide);
      return [Sql(CoarseHead(table)), Hole, Sql(") ORDER BY distance LIMIT "), Hole], [VVector(vec), wide];
    }
    var extra, whereArgs := FilterClause(" AND ", conds);
    text := [Sql(CoarseHead(table)), Hole, Sql(") AND k = "), Hole] + (extra + [Sql(" ORDER BY distance LIMIT "), Hole]);
    args := [VVector(vec), wide] + (whereArgs + [wide]);
    BindOne(" ORDER BY distance LIMIT ", wide);
    BindTwo(CoarseHead(table), VVector(vec), ") AND k = ", wide);
    BindJoins(extra, whereArgs, ClauseSql(" AND ", conds), [Sql(" ORDER BY distance LIMIT "), Hole], [wide],
              [Text(" ORDER BY distance LIMIT "), Val(wide)]);
    BindJoins([Sql(CoarseHead(table)), Hole, Sql(") AND k = "), Hole], [VVector(vec), wide],
              [Text(CoarseHead(table)), Val(VVector(vec)), Text(") AND k = "), Val(wide)],
              extra + [Sql(" ORDER BY distance LIMIT "), Hole], whereArgs + [wide],
              ClauseSql(" AND ", conds) + [Text(" ORDER BY distance LIMIT "), Val(wide)]);
  }

  // ---------------------------------------------------------------- aggregation

  const AGG_OPS: map<string, string> := map["count" := "COUNT", "sum" := "SUM", "avg" := "AVG", "min" := "MIN", "max" := "MAX"]

  lemma AggregateAllowedIff(op: string, field: string, groupBy: string)
    ensures AggregateAllowed(op, field, groupBy) <==>
      && op in {"count", "sum", "avg", "min", "max"} && (field == "" ==> op == "count")
      && (field == "" || Catalogs.IsName(field)) && (groupBy == "" || Catalogs.IsName(groupBy))
  {
  }

  lemma AggregatesAre(op: string)
    ensures op in AGG_OPS <==> op in {"count", "sum", "avg", "min", "max"}
    ensures AGG_OPS["count"] == "COUNT" && AGG_OPS["sum"] == "SUM" && AGG_OPS["avg"] == "AVG"
    ensures AGG_OPS["min"] == "MIN" && AGG_OPS["max"] == "MAX"
  {
  }

  predicate AggregateAllowed(op: string, field: string, groupBy: string) {
    && op in AGG_OPS && (op == "count" || field != "")
    && (field != "" ==> Catalogs.IsName(field)) && (groupBy != "" ==> Catalogs.IsName(groupBy))
  }

  function AggExprSql(op: string, field: string): seq<Piece>
    requires op in AGG_OPS
  {
    if field == "" then [Text("COUNT(*)")]
    else [Text(AGG_OPS[op] + "(json_extract(data, "), Val(Path(field)), Text("))")]
  }

  /** The aggregation asked for, overall or per group. */
  function AggregateSql(table: string, op: string, field: string, groupBy: string, conds: seq<Condition>): seq<Piece>
    requires op in AGG_OPS
  {
    if groupBy == "" then
      [Text("SELECT ")] + (AggExprSql(op, field) + [Text(" FROM " + table + " ")] + ClauseSql("WHERE ", conds) + [])
    else
      [Text("SELECT json_extract(data, "), Val(Path(groupBy)), Text(") AS grp, ")] +
      (AggExprSql(op, field) + [Text(" FROM " + table + " ")] + ClauseSql("WHERE ", conds) + [Text(" GROUP BY grp ORDER BY grp")])
  }

  lemma BindThree(first: string, x: Value, second: string)
    ensures Bind([Sql(first), Hole, Sql(second)], [x]) == Some([Text(first), Val(x), Text(second)])
  {
    BindOne(first, x);
    BindWord(second);
    BindJoins([Sql(first), Hole], [x], [Text(first), Val(x)], [Sql(second)], [], [Text(second)]);
    assert [Sql(first), Hole] + [Sql(second)] == [Sql(first), Hole, Sql(second)] && [x] + [] == [x];
    assert [Text(first), Val(x)] + [Text(second)] == [Text(first), Val(x), Text(second)];
  }

  /** The query of aggregateDocuments; None is a rejected request. */
  method AggregateQuery(table: string, op: string, field: string, groupBy: string, conds: seq<Condition>)
    returns (r: Option<(seq<Token>, seq<Value>)>)
    ensures r.Some? <==> AggregateAllowed(op, field, groupBy)
    ensures r.Some? ==> Holes(r.value.0) == |r.value.1|
    ensures r.Some? ==> Bind(r.value.0, r.value.1) == Some(AggregateSql(table, op, field, groupBy, conds))
  {
    if op !in AGG_OPS || (op != "count" && field == "") { return None; }
    if field != "" && !Catalogs.IsName(field) { return None; }
    if groupBy != "" && !Catalogs.IsName(groupBy) { return None; }
    var where, whereArgs := FilterClause("WHERE ", conds);
    var aggExpr, aggArgs := [Sql("COUNT(*)")], [];
    BindWord("COUNT(*)");
    if field != "" {
      aggExpr, aggArgs := [Sql(AGG_OPS[op] + "(json_extract(data, "), Hole, Sql("))")], [Path(field)];
      BindThree(AGG_OPS[op] + "(json_extract(data, ", Path(field), "))");
    }
    var from := " FROM " + table + " ";
    var text: seq<Token>, args: seq<Value>;
    if groupBy == "" {
      text := [Sql("SELECT ")] + (aggExpr + [Sql(from)] + where + []);
      args := aggArgs + whereArgs;
      BindNothing();
      BindTail(aggExpr, aggArgs, AggExprSql(op, field), from, where, whereArgs, ClauseSql("WHERE ", conds), [], [], []);
      BindWord("SELECT ");
      BindJoins([Sql("SELECT ")], [], [Text("SELECT ")], aggExpr + [Sql(from)] + where + [], aggArgs + whereArgs + [],
                AggExprSql(op, field) + [Text(from)] + ClauseSql("WHERE ", conds) + []);
      assert [] + (aggArgs + whereArgs + []) == args;
    } else {
      var head := ") AS grp, ";
      text := [Sql("SELECT json_extract(data, "), Hole, Sql(head)] + (aggExpr + [Sql(from)] + where + [Sql(" GROUP BY grp ORDER BY grp")]);
      args := [Path(groupBy)] + (aggArgs + whereArgs + []);
      BindWord(" GROUP BY grp ORDER BY grp");
      BindTail(aggExpr, aggArgs, AggExprSql(op, field), from, where, whereArgs, ClauseSql("WHERE ", conds),
               [Sql(" GROUP BY grp ORDER BY grp")], [], [Text(" GROUP BY grp ORDER BY grp")]);
      BindThree("SELECT json_extract(data, ", Path(groupBy), head);
      BindJoins([Sql("SELECT json_extract(data, "), Hole, Sql(head)], [Path(groupBy)],
                [Text("SELECT json_extract(data, "), Val(Path(groupBy)), Text(head)],
                aggExpr + [Sql(from)] + where + [Sql(" GROUP BY grp ORDER BY grp")], aggArgs + whereArgs + [],
                AggExprSql(op, field) + [Text(from)] + ClauseSql("WHERE ", conds) + [Text(" GROUP BY grp ORDER BY grp")]);
    }
    BindCounts(text, args);
    r := Some((text, args));
  }

  lemma BindNothing()
    ensures Bind([], []) == Some([])
  {
  }
}
