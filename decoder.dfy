/**
 * The decoder as the Go code runs it: one recursive type switch whose List and
 * Tuple arm fills a preallocated slice in place, whose Dict arm inserts into a
 * map entry by entry, and a keyword-argument loop that fills the input map of
 * the struct-binding step. Each method is proved equal to its specification in
 * `Decoding`.
 */
module Decoder {
  import S = Starlark
  import G = GoValue
  import opened Errors
  import Decoding
  import Properties

  /** Decodes `v`; the result is the one `Decoding.Decode` specifies. */
  method Decode(v: S.Value) returns (r: Result<G.Value>)
    requires S.HashableKeys(v)
    ensures r == Decoding.Decode(v)
    decreases v
  {
    match v {
      case None =>
        r := Success(G.Nil);
      case Bool(t) =>
        r := Success(G.Bool(t));
      case Int(n) =>
        if Decoding.InInt32(n) {
          r := Success(G.Int(n));
        } else {
          r := Failure(OutOfRange(n));
        }
      case Float(bits) =>
        r := Success(G.Float64(bits));
      case String(s) =>
        r := Success(G.String(s));
      case List(_) | Tuple(_) =>
        var items := v.items;
        var slice := new G.Value[|items|];
        var index := 0;
        while index < |items|
          invariant index <= |items|
          invariant forall j | 0 <= j < index :: Decoding.Decode(items[j]) == Success(slice[j])
        {
          assert items[index] in items;
          var item := Decode(items[index]);
          if item.Failure? {
            assert Properties.FirstFailingItem(items, index, item.error);
            Properties.ItemsFirstError(items, item.error);
            r := Failure(item.error);
            return;
          }
          slice[index] := item.value;
          index := index + 1;
        }
        Properties.ItemsElementwise(items, slice[..]);
        r := Success(G.Slice(slice[..]));
      case Dict(entries) =>
        var hmap: map<G.Value, G.Value> := map[];
        var g := G.Nil;
        var i := 0;
        while i < |entries|
          invariant i <= |entries|
          invariant Decoding.DecodeEntries(entries, map[]) == Decoding.DecodeEntries(entries[i..], hmap)
          invariant g == if i == 0 then G.Nil else G.Map(hmap)
        {
          var entry := entries[i];
          assert entry in entries;
          assert entries[i..][1..] == entries[i + 1..];
          var k := Decode(entry.key);
          if k.Failure? {
            r := Failure(k.error);
            return;
          }
          // The value is looked up under the key being iterated, so it is always found.
          var value := Decode(entry.value);
          if value.Failure? {
            r := Failure(value.error);
            return;
          }
          hmap := hmap[k.value := value.value];
          g := G.Map(hmap);
          i := i + 1;
        }
        r := Success(g);
      case Other(_) =>
        r := Failure(UnsupportedType);
    }
  }

  /**
   * Collects keyword arguments into the name-keyed map handed to the
   * struct-binding step. `configOk` stands for the outcome of configuring that
   * step, which happens first; on success the result is the map it receives.
   */
  method DecodeKWargs(kwargs: seq<seq<S.Value>>, configOk: bool) returns (r: Result<map<string, G.Value>>)
    requires configOk ==> Decoding.WellFormedArgs(kwargs)
    ensures !configOk ==> r == Failure(InvalidConfig)
    ensures configOk ==> r == Decoding.CollectArgs(kwargs, map[])
  {
    if !configOk {
      return Failure(InvalidConfig);
    }
    var input: map<string, G.Value> := map[];
    var i := 0;
    while i < |kwargs|
      invariant i <= |kwargs|
      invariant Decoding.CollectArgs(kwargs, map[]) == Decoding.CollectArgs(kwargs[i..], input)
    {
      var arg := kwargs[i];
      assert kwargs[i..][1..] == kwargs[i + 1..];
      var name, argValue := arg[0].s, arg[1];
      var value := Decode(argValue);
      if value.Failure? {
        return Failure(value.error);
      }
      input := input[name := value.value];
      i := i + 1;
    }
    r := Success(input);
  }
}
