/** JSON-like values as the modelled Python code receives them from `json.load`,
    with Python's truthiness. Numbers are integers: floats are not modelled. */
module JsonValue {

  datatype Value =
    | Null
    | Bool(b: bool)
    | Num(n: int)
    | Str(s: string)
    | Arr(items: seq<Value>)
    | Obj(fields: map<string, Value>)

  /** `bool(v)`: null, false, zero and empty strings, lists and dicts are falsy. */
  predicate Truthy(v: Value) {
    match v
    case Null => false
    case Bool(b) => b
    case Num(n) => n != 0
    case Str(s) => s != ""
    case Arr(items) => items != []
    case Obj(fields) => fields != map[]
  }

  /** Values Python can put in a `set`: lists and dicts are unhashable. */
  predicate Hashable(v: Value) {
    !v.Arr? && !v.Obj?
  }

  /** `d[key]` is present and truthy. */
  predicate FieldOk(d: map<string, Value>, key: string) {
    key in d && Truthy(d[key])
  }
}
