/** The field values a table row holds, and the JavaScript coercions the table code applies
    to them. Rows are open records: a map from field name to value, a missing field reading
    as `undefined`. */
module Values {
  import opened Wrappers
  import opened Text
  import opened Dates

  /** A finite number, NaN, a string, or `undefined`. */
  datatype Value = Num(x: real) | NaN | Str(s: string) | Undef

  type Row = map<string, Value>

  /** A column definition `{ key, label }`. */
  datatype Column = Column(key: string, title: string)

  function ColumnKeys(columns: seq<Column>): set<string>
  {
    set c | c in columns :: c.key
  }

  /** `row[key]`. */
  function Get(row: Row, key: string): (v: Value)
    ensures key !in row ==> v == Undef
    ensures key in row ==> v == row[key]
  {
    if key in row then row[key] else Undef
  }

  /** `String(v)`. */
  function ToText(v: Value): string
  {
    match v
    case Num(x) => NumberToString(x)
    case NaN => "NaN"
    case Str(s) => s
    case Undef => "undefined"
  }

  /** JavaScript truthiness: zero, NaN, the empty string and `undefined` are falsy. */
  predicate Truthy(v: Value)
  {
    match v
    case Num(x) => x != 0.0
    case NaN => false
    case Str(s) => s != ""
    case Undef => false
  }

  /** The number a value denotes when `isNaN` is false for it. Only numbers count: the
      model does not coerce numeric-looking strings. */
  function NumberOf(v: Value): (r: Option<real>)
    ensures r.Some? <==> v.Num?
  {
    if v.Num? then Some(v.x) else None
  }

  /** `new Date(v)`. */
  function NewDate(parse: DateParser, v: Value): Instant
  {
    match v
    case Num(x) => TimeClip(x)
    case NaN => InvalidDate
    case Str(s) => parse(s)
    case Undef => InvalidDate
  }
}
