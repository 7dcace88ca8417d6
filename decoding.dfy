/**
 * The meaning of the decoder as pure functions: `Decode` is the recursive
 * kind dispatch of decoder.go, `CollectArgs` the keyword-argument loop of
 * `DecodeKWargs` up to the hand-off to the struct-binding library.
 */
module Decoding {
  import S = Starlark
  import G = GoValue
  import opened Errors

  const MinInt32: int := -0x8000_0000
  const MaxInt32: int := 0x7fff_ffff

  predicate InInt32(n: int) {
    MinInt32 <= n <= MaxInt32
  }

  /** The errors a decode can end with: an unsupported kind or a too-wide integer. */
  predicate IsDecodeError(e: Error) {
    e.UnsupportedType? || (e.OutOfRange? && !InInt32(e.n))
  }

  /**
   * Reference characterisation of success, independent of traversal order:
   * every integer fits 32 bits and no unsupported kind occurs anywhere.
   */
  predicate Decodable(v: S.Value)
    decreases v
  {
    match v
    case Int(n) => InInt32(n)
    case Other(_) => false
    case List(items) => forall i | 0 <= i < |items| :: Decodable(items[i])
    case Tuple(items) => forall i | 0 <= i < |items| :: Decodable(items[i])
    case Dict(entries) => forall i | 0 <= i < |entries| :: EntryDecodable(entries[i])
    case _ => true
  }

  predicate EntryDecodable(e: S.Entry)
    decreases e
  {
    Decodable(e.key) && Decodable(e.value)
  }

  /**
   * Decodes one Starlark value. None, Bool, Float and String are copied, an
   * Int must fit 32 bits, a List or Tuple becomes a slice, a non-empty Dict a
   * map and an empty Dict nil (the map is only published after its first
   * entry); every other kind is unsupported. The first error wins.
   */
  function Decode(v: S.Value): (r: Result<G.Value>)
    requires S.HashableKeys(v)
    ensures r.Success? <==> Decodable(v)
    ensures r.Failure? ==> IsDecodeError(r.error)
    decreases v
  {
    match v
    case None => Success(G.Nil)
    case Bool(t) => Success(G.Bool(t))
    case Int(n) => if InInt32(n) then Success(G.Int(n)) else Failure(OutOfRange(n))
    case Float(bits) => Success(G.Float64(bits))
    case String(s) => Success(G.String(s))
    case List(items) =>
      var slice :- DecodeItems(items);
      Success(G.Slice(slice))
    case Tuple(items) =>
      var slice :- DecodeItems(items);
      Success(G.Slice(slice))
    case Dict(entries) =>
      if entries == [] then Success(G.Nil)
      else
        var hmap :- DecodeEntries(entries, map[]);
        Success(G.Map(hmap))
    case Other(_) => Failure(UnsupportedType)
  }

  predicate ItemsHashable(items: seq<S.Value>) {
    forall i | 0 <= i < |items| :: S.HashableKeys(items[i])
  }

  /** The elements of a List or Tuple, decoded front to back. */
  function DecodeItems(items: seq<S.Value>): (r: Result<seq<G.Value>>)
    requires ItemsHashable(items)
    ensures r.Success? <==> forall i | 0 <= i < |items| :: Decodable(items[i])
    ensures r.Failure? ==> IsDecodeError(r.error)
    decreases items
  {
    if items == [] then Success([])
    else
      var head :- Decode(items[0]);
      var tail :- DecodeItems(items[1..]);
      Success([head] + tail)
  }

  /**
   * One iteration of the dict loop: the key is decoded first, then the value
   * looked up under that key (always present, since the key comes from the
   * dict's own iteration).
   */
  function DecodeEntry(e: S.Entry): (r: Result<(G.Value, G.Value)>)
    requires S.EntryHashable(e)
    ensures r.Success? <==> EntryDecodable(e)
    ensures r.Success? ==> G.Hashable(r.value.0)
    ensures r.Failure? ==> IsDecodeError(r.error)
    decreases e
  {
    var k :- Decode(e.key);
    var g :- Decode(e.value);
    Success((k, g))
  }

  predicate EntriesHashable(entries: seq<S.Entry>) {
    forall i | 0 <= i < |entries| :: S.EntryHashable(entries[i])
  }

  predicate EntriesDecodable(entries: seq<S.Entry>) {
    forall i | 0 <= i < |entries| :: EntryDecodable(entries[i])
  }

  /** The dict loop from `hmap` on: every decoded pair is stored, later ones overwriting. */
  function DecodeEntries(entries: seq<S.Entry>, hmap: map<G.Value, G.Value>): (r: Result<map<G.Value, G.Value>>)
    requires EntriesHashable(entries)
    ensures r.Success? <==> EntriesDecodable(entries)
    ensures r.Failure? ==> IsDecodeError(r.error)
    decreases entries
  {
    if entries == [] then Success(hmap)
    else
      var kv :- DecodeEntry(entries[0]);
      DecodeEntries(entries[1..], hmap[kv.0 := kv.1])
  }

  /**
   * A keyword argument as the interpreter passes it: a tuple whose first item
   * is the name (a String) and whose second is the value; further items are
   * ignored. Anything else makes the source panic.
   */
  predicate WellFormedArg(arg: seq<S.Value>) {
    |arg| >= 2 && arg[0].String? && S.HashableKeys(arg[1])
  }

  predicate WellFormedArgs(kwargs: seq<seq<S.Value>>) {
    forall i | 0 <= i < |kwargs| :: WellFormedArg(kwargs[i])
  }

  predicate ArgsDecodable(kwargs: seq<seq<S.Value>>)
    requires WellFormedArgs(kwargs)
  {
    forall i | 0 <= i < |kwargs| :: Decodable(kwargs[i][1])
  }

  /** The `input` map of `DecodeKWargs`, filled from `input` on, stopping at the first failure. */
  function CollectArgs(kwargs: seq<seq<S.Value>>, input: map<string, G.Value>): (r: Result<map<string, G.Value>>)
    requires WellFormedArgs(kwargs)
    ensures r.Success? <==> ArgsDecodable(kwargs)
    ensures r.Failure? ==> IsDecodeError(r.error)
    decreases kwargs
  {
    if kwargs == [] then Success(input)
    else
      var value :- Decode(kwargs[0][1]);
      CollectArgs(kwargs[1..], input[kwargs[0][0].s := value])
  }
}
