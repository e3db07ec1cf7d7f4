/** Python runtime values that the access-control layer passes around. */
module Py {

  /** `None` or a value. */
  datatype Option<+T> = None | Some(value: T)

  /** The outcome of a Python expression that either evaluates to a value or
      raises an exception that is not caught where it is raised. */
  datatype Checked<+T> = Returns(value: T) | Raises(error: string)

  /** A JSON-shaped Python value, as the session serializer hands it back. */
  datatype Value =
    | Null
    | Bool(b: bool)
    | Num(n: int)
    | Str(s: string)
    | Arr(items: seq<Value>)
    | Obj(fields: map<string, Value>)

  /** Python truthiness, as `if not x:` tests it. */
  predicate Truthy(v: Value)
  {
    match v
    case Null => false
    case Bool(b) => b
    case Num(n) => n != 0
    case Str(s) => s != []
    case Arr(items) => items != []
    case Obj(fields) => fields != map[]
  }

  /** Truthiness of an optional value: `None` is falsy. */
  predicate TruthyOpt(v: Option<Value>)
  {
    v.Some? && Truthy(v.value)
  }

  /** `d.get(key)` on a dictionary of values. */
  function Get(d: map<string, Value>, key: string): Option<Value>
  {
    if key in d then Some(d[key]) else None
  }
}
