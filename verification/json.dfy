/** The JSON-like values that flow between the service and the hosted table:
    Python dicts, lists and scalars, plus `datetime` objects before they are
    rendered as text. */
module Json {

  /** A point in time. Only equality of instants matters to the model; the
      text form of an instant is left to `Codec.IsoFormat`. */
  datatype Timestamp = Instant(micros: int)

  /** A Python value as the persistence layer sees it. Floating-point numbers
      are not modelled. */
  datatype Value =
    | Null
    | Bool(b: bool)
    | Int(i: int)
    | Str(s: string)
    | Time(t: Timestamp)
    | Array(items: seq<Value>)
    | Object(fields: map<string, Value>)

  /** A Python `dict` with string keys: a row, a payload or a nested object. */
  type Object = map<string, Value>

  /** Python truthiness: None, False, 0, "" and empty containers are false. */
  predicate Truthy(v: Value) {
    match v
    case Null => false
    case Bool(b) => b
    case Int(i) => i != 0
    case Str(s) => s != ""
    case Time(_) => true
    case Array(xs) => |xs| > 0
    case Object(m) => |m| > 0
  }

  /** `d.get(k)`: the value at `k`, or None when the key is missing. */
  function Get(d: Object, k: string): (r: Value)
    ensures k !in d ==> r == Null
    ensures k in d ==> r == d[k]
  {
    if k in d then d[k] else Null
  }

  /** Two maps with the same keys and the same value at every key are equal. */
  lemma MapsAgree<K, V>(a: map<K, V>, b: map<K, V>)
    requires a.Keys == b.Keys
    requires forall k :: k in a ==> a[k] == b[k]
    ensures a == b
  {
  }
}
