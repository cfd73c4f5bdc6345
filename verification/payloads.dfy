/** Python values as they travel through the integration hub: payload dicts,
    their entries, `dict.get` and Python truthiness. */
module Payloads {

  /** A JSON-like Python value. `None` is Python's `None`; floats are not modelled. */
  datatype Value =
    | None
    | Bool(b: bool)
    | Int(i: int)
    | Str(s: string)
    | List(items: seq<Value>)
    | Dict(entries: map<string, Value>)

  /** A payload or configuration dict with string keys. */
  type Payload = map<string, Value>

  /** `d.get(key)`: the entry under `key`, or `None` when the key is absent. */
  function Get(d: Payload, key: string): (r: Value)
  {
    if key in d then d[key] else None
  }

  /** Python truthiness, as `if v:` evaluates it. */
  predicate Truthy(v: Value)
  {
    match v
    case None => false
    case Bool(b) => b
    case Int(i) => i != 0
    case Str(s) => s != []
    case List(items) => items != []
    case Dict(entries) => entries != map[]
  }
}
