/**
  Values exchanged between the weather service's components.

  The fetcher hands the rest of the service a decoded JSON document; `Value`
  is that document's shape (null, booleans, integers, floats, strings, arrays
  and objects), and a `Snapshot` is a JSON object at the top level.
 */
module Values {

  /** The conventional optional value, used for Python's "raised instead of returning". */
  datatype Option<+T> = None | Some(value: T)

  /** A decoded JSON value. Python keeps `0` (int) and `0.00` (float) apart, and so does this type. */
  datatype Value =
    | Null
    | Bool(b: bool)
    | Int(i: int)
    | Real(r: real)
    | Str(s: string)
    | List(items: seq<Value>)
    | Dict(entries: map<string, Value>)

  /** A JSON object: what a fetch returns (`{}` when the fetch failed). */
  type Snapshot = map<string, Value>

  /** Python's `d.get(key, default)`. */
  function Get(d: map<string, Value>, key: string, default: Value): (v: Value)
    ensures key in d ==> v == d[key]
    ensures key !in d ==> v == default
  {
    if key in d then d[key] else default
  }
}
