/** Documents as the store keeps them: a text, and the JSON object called "data". */
module Documents {

  datatype Option<+T> = None | Some(value: T)

  function AtMost(a: int, b: int): int { if a < b then a else b }

  /** What can go wrong in a store call. `Rejected` is a constraint failure reported by
      SQLite (a taken id or table name); `Infrastructure` is any failing statement,
      commit or embedding call. */
  datatype StoreError =
    | InvalidName | InvalidDimensions | InvalidReference | UnknownTarget
    | AlreadyExists | NotFound | BadReference | Restricted
    | TextRequired | EmptyBatch | BatchTooLarge
    | Rejected | Infrastructure

  datatype Result<+T> = Ok(value: T) | Err(error: StoreError)

  /** A value found in a top-level field of "data". */
  datatype Json =
    | JNull | JBool(b: bool) | JInt(n: int) | JReal(r: real) | JText(s: string) | JNested(raw: string)

  /** The raw "data" of a request: absent, the literal null, an object, or any other JSON value. */
  datatype Payload = Missing | NullDoc | Obj(fields: map<string, Json>) | NonObj(raw: string)

  /** A stored document. Collections without vectors store no text: theirs is "". */
  datatype Row = Row(text: string, data: Payload)

  /** dataOrEmpty: an absent "data" is stored as the empty object. */
  function Stored(data: Payload): Payload {
    if data.Missing? then Obj(map[]) else data
  }

  /** The value of a top-level field, where an unset field reads as null. */
  function Field(data: Payload, field: string): Json {
    if data.Obj? && field in data.fields then data.fields[field] else JNull
  }

  /** SQLite's `json_extract(data, path) = id`: booleans compare as 0 and 1, reals numerically. */
  predicate MatchesId(v: Json, id: int) {
    match v
    case JInt(n) => n == id
    case JBool(b) => id == if b then 1 else 0
    case JReal(r) => r == id as real
    case _ => false
  }
}
