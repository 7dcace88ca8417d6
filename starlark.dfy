/**
 * Starlark values as the decoder sees them: the closed set of kinds its type
 * switch distinguishes, and one catch-all for every other kind.
 */
module Starlark {

  /** The IEEE-754 bit pattern of a Starlark float, kept opaque. */
  type Float64 = bv64

  datatype Value =
    | None
    | Bool(truth: bool)
    | Int(n: int)
    | Float(bits: Float64)
    | String(s: string)
    | List(items: seq<Value>)
    | Tuple(items: seq<Value>)
    /** A dict's entries in its insertion (iteration) order. */
    | Dict(entries: seq<Entry>)
    /** Any other kind (a function, a set, bytes, ...), named by its type. */
    | Other(typeName: string)

  datatype Entry = Entry(key: Value, value: Value)

  predicate IsContainer(v: Value) {
    v.List? || v.Tuple? || v.Dict?
  }

  /**
   * No dict nested anywhere in `v` has a container key. A Starlark dict can
   * only hold hashable keys, so in practice this rules out tuple keys, which
   * the decoder turns into Go slices and then uses as Go map keys: a run-time
   * panic, not an error.
   */
  predicate HashableKeys(v: Value)
    decreases v
  {
    match v
    case List(items) => forall i | 0 <= i < |items| :: HashableKeys(items[i])
    case Tuple(items) => forall i | 0 <= i < |items| :: HashableKeys(items[i])
    case Dict(entries) => forall i | 0 <= i < |entries| :: EntryHashable(entries[i])
    case _ => true
  }

  predicate EntryHashable(e: Entry)
    decreases e
  {
    !IsContainer(e.key) && HashableKeys(e.value)
  }
}
