/**
 * The Go values the decoder builds: an `interface{}` holding nil, a bool, an
 * int, a float64, a string, a `[]interface{}` or a
 * `map[interface{}]interface{}`.
 */
module GoValue {

  datatype Value =
    | Nil
    | Bool(b: bool)
    | Int(n: int)
    | Float64(bits: bv64)
    | String(s: string)
    | Slice(items: seq<Value>)
    | Map(entries: map<Value, Value>)

  /** Whether Go can use the value as a map key (slices and maps cannot). */
  predicate Hashable(g: Value) {
    !g.Slice? && !g.Map?
  }
}
