/**
 * The decoder's range. `DecodedEncodable` shows that every successful
 * decoding is `Encodable`; `Encode` maps an `Encodable` Go value back to a
 * Starlark value and `DecodeEncode` proves that decoding undoes it, so
 * `Encodable` is exactly the set of values the decoder can produce.
 */
module RoundTrip {
  import S = Starlark
  import G = GoValue
  import opened Errors
  import opened Decoding
  import Properties

  /**
   * Integers fit 32 bits, maps are non-empty (an empty dict decodes to nil)
   * and map keys are hashable: the shape of every successful decoding.
   */
  predicate Encodable(g: G.Value)
    decreases g
  {
    match g
    case Int(n) => InInt32(n)
    case Slice(items) => forall i | 0 <= i < |items| :: Encodable(items[i])
    case Map(m) => m != map[] && forall k | k in m :: G.Hashable(k) && Encodable(k) && Encodable(m[k])
    case _ => true
  }

  /** The keys of `m`, each once, in an arbitrary but fixed order. */
  ghost function KeysOf<K, V>(m: map<K, V>): (ks: seq<K>)
    ensures |ks| == |m|
    ensures forall i | 0 <= i < |ks| :: ks[i] in m
    ensures forall k | k in m :: k in ks
    decreases |m|
  {
    if m == map[] then []
    else
      var k :| k in m;
      [k] + KeysOf(m - {k})
  }

  /** A Starlark value that decodes to `g`: lists for slices, dicts for maps. */
  ghost function Encode(g: G.Value): (v: S.Value)
    requires Encodable(g)
    ensures S.HashableKeys(v)
    ensures S.IsContainer(v) <==> !G.Hashable(g)
    decreases g, 1
  {
    match g
    case Nil => S.None
    case Bool(b) => S.Bool(b)
    case Int(n) => S.Int(n)
    case Float64(bits) => S.Float(bits)
    case String(s) => S.String(s)
    case Slice(items) => S.List(seq(|items|, i requires 0 <= i < |items| => Encode(items[i])))
    case Map(_) => S.Dict(EncodeEntries(g))
  }

  /** One dict entry per pair of the map, each key and value encoded. */
  ghost function EncodeEntries(g: G.Value): (es: seq<S.Entry>)
    requires g.Map? && Encodable(g)
    ensures |es| == |g.entries| > 0
    ensures forall i | 0 <= i < |es| :: S.EntryHashable(es[i])
    decreases g, 0
  {
    var ks := KeysOf(g.entries);
    seq(|ks|, i requires 0 <= i < |ks| => S.Entry(Encode(ks[i]), Encode(g.entries[ks[i]])))
  }

  /** Decoding undoes encoding: every `Encodable` value is the decoding of its encoding. */
  lemma {:induction false} DecodeEncode(g: G.Value)
    requires Encodable(g)
    ensures Decode(Encode(g)) == Success(g)
    decreases g, 2
  {
    match g
    case Nil =>
    case Bool(_) =>
    case Int(_) =>
    case Float64(_) =>
    case String(_) =>
    case Slice(_) => DecodeEncodeSlice(g);
    case Map(_) => DecodeEncodeMap(g);
  }

  /** The decoder's range is exactly the set of `Encodable` values. */
  lemma DecoderRange(g: G.Value)
    ensures Encodable(g) <==> exists v :: S.HashableKeys(v) && Decode(v) == Success(g)
  {
    if Encodable(g) {
      DecodeEncode(g);
    }
    if v :| S.HashableKeys(v) && Decode(v) == Success(g) {
      DecodedEncodable(v);
    }
  }

  /** Every successful decoding is `Encodable`. */
  lemma {:induction false} DecodedEncodable(v: S.Value)
    requires S.HashableKeys(v) && Decode(v).Success?
    ensures Encodable(Decode(v).value)
    decreases v
  {
    match v
    case List(items) => ItemsEncodable(items, DecodeItems(items).value);
    case Tuple(items) => ItemsEncodable(items, DecodeItems(items).value);
    case Dict(entries) =>
      if entries != [] {
        var m := Decode(v).value.entries;
        forall i | 0 <= i < |entries|
          ensures DecodeEntry(entries[i]).Success? ==>
                    Encodable(DecodeEntry(entries[i]).value.0) && Encodable(DecodeEntry(entries[i]).value.1)
        {
          EntryEncodable(entries[i]);
        }
        EntriesEncodable(entries, map[], m);
        Properties.DictDecoded(entries, m);
        assert Properties.Pair(entries[0]).0 in m;
      }
    case _ =>
  }

  /** The elements of a decoded List or Tuple are `Encodable`. */
  lemma {:induction false} ItemsEncodable(items: seq<S.Value>, gs: seq<G.Value>)
    requires ItemsHashable(items) && DecodeItems(items) == Success(gs)
    ensures forall i | 0 <= i < |gs| :: Encodable(gs[i])
    decreases items
  {
    Properties.ItemsElementwise(items, gs);
    forall i | 0 <= i < |items| ensures Encodable(gs[i]) {
      DecodedEncodable(items[i]);
    }
  }

  /** The decoded key and value of a dict entry are `Encodable`. */
  lemma {:induction false} EntryEncodable(e: S.Entry)
    requires S.EntryHashable(e)
    ensures DecodeEntry(e).Success? ==>
              Encodable(DecodeEntry(e).value.0) && Encodable(DecodeEntry(e).value.1)
    decreases e
  {
    if DecodeEntry(e).Success? {
      DecodedEncodable(e.key);
      DecodedEncodable(e.value);
    }
  }

  /**
   * The dict loop from `hmap` keeps every key hashable and every key and
   * value `Encodable`, when each entry decodes to `Encodable` parts.
   */
  lemma {:induction false} EntriesEncodable(entries: seq<S.Entry>, hmap: map<G.Value, G.Value>, m: map<G.Value, G.Value>)
    requires EntriesHashable(entries)
    requires forall i | 0 <= i < |entries| :: DecodeEntry(entries[i]).Success? ==>
               Encodable(DecodeEntry(entries[i]).value.0) && Encodable(DecodeEntry(entries[i]).value.1)
    requires forall k | k in hmap :: G.Hashable(k) && Encodable(k) && Encodable(hmap[k])
    requires DecodeEntries(entries, hmap) == Success(m)
    ensures forall k | k in m :: G.Hashable(k) && Encodable(k) && Encodable(m[k])
    decreases entries
  {
    if entries != [] {
      var kv := DecodeEntry(entries[0]).value;
      assert forall i | 0 <= i < |entries| - 1 :: entries[1..][i] == entries[i + 1];
      EntriesEncodable(entries[1..], hmap[kv.0 := kv.1], m);
    }
  }

  /** A slice is the decoding of the list of its encoded elements. */
  lemma {:induction false} DecodeEncodeSlice(g: G.Value)
    requires g.Slice? && Encodable(g)
    ensures Decode(Encode(g)) == Success(g)
    decreases g, 0
  {
    var vs := Encode(g).items;
    forall i | 0 <= i < |g.items| ensures Decode(vs[i]) == Success(g.items[i]) {
      DecodeEncode(g.items[i]);
    }
    Properties.ItemsElementwise(vs, g.items);
  }

  /** One pair of a map is the decoding of the entry of its encoded key and value. */
  lemma {:induction false} DecodeEncodePair(g: G.Value, k: G.Value)
    requires g.Map? && Encodable(g) && k in g.entries
    ensures S.EntryHashable(S.Entry(Encode(k), Encode(g.entries[k])))
    ensures DecodeEntry(S.Entry(Encode(k), Encode(g.entries[k]))) == Success((k, g.entries[k]))
    decreases g, 0
  {
    DecodeEncode(k);
    DecodeEncode(g.entries[k]);
  }

  /** A non-empty map is the decoding of the dict of its encoded pairs. */
  lemma {:induction false} DecodeEncodeMap(g: G.Value)
    requires g.Map? && Encodable(g)
    ensures Decode(Encode(g)) == Success(g)
    decreases g, 1
  {
    var m := g.entries;
    var ks := KeysOf(m);
    var es := seq(|ks|, i requires 0 <= i < |ks| => S.Entry(Encode(ks[i]), Encode(m[ks[i]])));
    assert Encode(g) == S.Dict(es) by {
      assert EncodeEntries(g) == es;
    }
    assert DecodeEntries(es, map[]) == Success(m) by {
      forall i | 0 <= i < |ks|
        ensures S.EntryHashable(es[i]) && DecodeEntry(es[i]) == Success((ks[i], m[ks[i]]))
      {
        DecodeEncodePair(g, ks[i]);
      }
      DecodePairsOf(es, ks, m, map[]);
      RestrictAll(m, ks);
    }
  }

  /**
   * The dict loop over entries that decode to pairs of `m`, keyed by `ks`,
   * adds to `acc` exactly the pairs of `m` under those keys.
   */
  lemma {:induction false} DecodePairsOf(es: seq<S.Entry>, ks: seq<G.Value>, m: map<G.Value, G.Value>, acc: map<G.Value, G.Value>)
    requires |es| == |ks|
    requires forall i | 0 <= i < |ks| :: ks[i] in m
    requires forall i | 0 <= i < |es| :: S.EntryHashable(es[i])
    requires forall i | 0 <= i < |es| :: DecodeEntry(es[i]) == Success((ks[i], m[ks[i]]))
    ensures DecodeEntries(es, acc) == Success(acc + Restrict(m, ks))
    decreases es
  {
    if es == [] {
      assert Restrict(m, ks) == map[];
      assert acc + map[] == acc;
    } else {
      var k := ks[0];
      assert forall i | 0 <= i < |es| - 1 :: es[1..][i] == es[i + 1] && ks[1..][i] == ks[i + 1];
      DecodePairsOf(es[1..], ks[1..], m, acc[k := m[k]]);
      StoreThenRest(acc, m, ks);
    }
  }

  /** The pairs of `m` under the keys listed in `ks`. */
  function Restrict(m: map<G.Value, G.Value>, ks: seq<G.Value>): (r: map<G.Value, G.Value>) {
    map k | k in ks && k in m :: m[k]
  }

  /** Storing the first key's pair and then the others is the same as storing them all. */
  lemma StoreThenRest(acc: map<G.Value, G.Value>, m: map<G.Value, G.Value>, ks: seq<G.Value>)
    requires ks != []
    requires forall i | 0 <= i < |ks| :: ks[i] in m
    ensures acc[ks[0] := m[ks[0]]] + Restrict(m, ks[1..]) == acc + Restrict(m, ks)
  {
  }

  /** Restricting to a list of all the keys changes nothing. */
  lemma RestrictAll(m: map<G.Value, G.Value>, ks: seq<G.Value>)
    requires forall k | k in m :: k in ks
    ensures map[] + Restrict(m, ks) == m
  {
  }
}
