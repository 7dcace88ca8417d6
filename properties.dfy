/**
 * What the decoder promises, stated over the functions of `Decoding`.
 */
module Properties {
  import S = Starlark
  import G = GoValue
  import opened Errors
  import opened Decoding

  /** None, Bool, Float and String are copied through with the same payload. */
  lemma ScalarsCopied(v: S.Value)
    ensures v.None? ==> Decode(v) == Success(G.Nil)
    ensures v.Bool? ==> Decode(v) == Success(G.Bool(v.truth))
    ensures v.Float? ==> Decode(v) == Success(G.Float64(v.bits))
    ensures v.String? ==> Decode(v) == Success(G.String(v.s))
  {
  }

  /** An Int decodes to itself exactly when it fits 32 signed bits, and to a range error otherwise. */
  lemma IntRangeChecked(n: int)
    ensures Decode(S.Int(n)).Success? <==> -0x8000_0000 <= n <= 0x7fff_ffff
    ensures Decode(S.Int(n)).Success? ==> Decode(S.Int(n)).value == G.Int(n)
    ensures Decode(S.Int(n)).Failure? ==> Decode(S.Int(n)).error == OutOfRange(n)
  {
  }

  /** Every kind outside the supported ones is refused with the unsupported-type sentinel. */
  lemma OtherUnsupported(name: string)
    ensures Decode(S.Other(name)) == Failure(UnsupportedType)
  {
  }

  /** The slice built from a sequence: same length, element i is the decoding of element i. */
  lemma {:induction false} ItemsElementwise(items: seq<S.Value>, gs: seq<G.Value>)
    requires ItemsHashable(items)
    ensures DecodeItems(items) == Success(gs) <==>
            |gs| == |items| && forall i | 0 <= i < |items| :: Decode(items[i]) == Success(gs[i])
    decreases items
  {
    if items != [] && gs != [] {
      ItemsElementwise(items[1..], gs[1..]);
      assert gs == [gs[0]] + gs[1..];
      if |gs| == |items| && forall i | 0 <= i < |items| :: Decode(items[i]) == Success(gs[i]) {
        assert Decode(items[0]) == Success(gs[0]);
        forall i | 0 <= i < |items| - 1
          ensures Decode(items[1..][i]) == Success(gs[1..][i])
        {
          assert items[1..][i] == items[i + 1];
        }
      }
    }
  }

  /** The elements before index `k` decode and element `k` fails with `e`. */
  predicate FirstFailingItem(items: seq<S.Value>, k: int, e: Error)
    requires ItemsHashable(items)
  {
    && 0 <= k < |items|
    && (forall j | 0 <= j < k :: Decode(items[j]).Success?)
    && Decode(items[k]) == Failure(e)
  }

  /**
   * A sequence fails with `e` exactly when some element fails with `e` and
   * every element before it decodes: the first error is returned unchanged
   * and nothing after it matters.
   */
  lemma {:induction false} ItemsFirstError(items: seq<S.Value>, e: Error)
    requires ItemsHashable(items)
    ensures DecodeItems(items) == Failure(e) <==> exists k :: FirstFailingItem(items, k, e)
    decreases items
  {
    if items != [] {
      var rest := items[1..];
      ItemsFirstError(rest, e);
      if Decode(items[0]).Failure? {
        if Decode(items[0]) == Failure(e) {
          assert FirstFailingItem(items, 0, e);
        }
      } else {
        if DecodeItems(items) == Failure(e) {
          var k :| FirstFailingItem(rest, k, e);
          forall j | 0 <= j < k + 1 ensures Decode(items[j]).Success? {
            if j > 0 { assert items[j] == rest[j - 1]; }
          }
          assert items[k + 1] == rest[k];
          assert FirstFailingItem(items, k + 1, e);
        }
        if exists k :: FirstFailingItem(items, k, e) {
          var k :| FirstFailingItem(items, k, e);
          assert k > 0;
          forall j | 0 <= j < k - 1 ensures Decode(rest[j]).Success? {
            assert rest[j] == items[j + 1];
          }
          assert rest[k - 1] == items[k];
          assert FirstFailingItem(rest, k - 1, e);
        }
      }
    }
  }

  /** A List or Tuple decodes to a slice of the same length, element by element, in order. */
  lemma SequenceDecoded(v: S.Value, g: G.Value)
    requires v.List? || v.Tuple?
    requires S.HashableKeys(v)
    ensures Decode(v) == Success(g) <==>
            g.Slice? && |g.items| == |v.items| &&
            forall i | 0 <= i < |v.items| :: Decode(v.items[i]) == Success(g.items[i])
  {
    if g.Slice? {
      ItemsElementwise(v.items, g.items);
    }
  }

  /** A List or Tuple fails with the error of its first failing element. */
  lemma SequenceFirstError(v: S.Value, e: Error)
    requires v.List? || v.Tuple?
    requires S.HashableKeys(v)
    ensures Decode(v) == Failure(e) <==> exists k :: FirstFailingItem(v.items, k, e)
  {
    ItemsFirstError(v.items, e);
  }

  /** The decoded (key, value) pair of an entry that decodes. */
  function Pair(e: S.Entry): (kv: (G.Value, G.Value))
    requires S.EntryHashable(e) && EntryDecodable(e)
  {
    DecodeEntry(e).value
  }

  /** No entry after index `i` has a key that decodes to the same Go value. */
  predicate LastWithKey(entries: seq<S.Entry>, i: int)
    requires EntriesHashable(entries) && EntriesDecodable(entries)
    requires 0 <= i < |entries|
  {
    forall j | i < j < |entries| :: Pair(entries[j]).0 != Pair(entries[i]).0
  }

  /**
   * The dict loop, run from `hmap`, keeps the keys it started with, stores
   * every decoded key and adds no other key.
   */
  lemma {:induction false} EntriesKeys(entries: seq<S.Entry>, hmap: map<G.Value, G.Value>, m: map<G.Value, G.Value>)
    requires EntriesHashable(entries)
    requires DecodeEntries(entries, hmap) == Success(m)
    ensures EntriesDecodable(entries)
    ensures forall k | k in hmap :: k in m
    ensures forall i | 0 <= i < |entries| :: Pair(entries[i]).0 in m
    ensures forall k | k in m :: k in hmap || exists i | 0 <= i < |entries| :: Pair(entries[i]).0 == k
    decreases entries
  {
    if entries != [] {
      var rest := entries[1..];
      var (k0, g0) := Pair(entries[0]);
      assert forall i | 0 <= i < |rest| :: rest[i] == entries[i + 1];
      EntriesKeys(rest, hmap[k0 := g0], m);
      forall k | k in m ensures k in hmap || exists i | 0 <= i < |entries| :: Pair(entries[i]).0 == k {
        if k == k0 {
          assert Pair(entries[0]).0 == k;
        } else if k !in hmap {
          var i :| 0 <= i < |rest| && Pair(rest[i]).0 == k;
          assert Pair(entries[i + 1]).0 == k;
        }
      }
    }
  }

  /** A key no entry decodes to keeps the value it had before the dict loop. */
  lemma {:induction false} EntriesUntouched(entries: seq<S.Entry>, hmap: map<G.Value, G.Value>, m: map<G.Value, G.Value>, k: G.Value)
    requires EntriesHashable(entries)
    requires DecodeEntries(entries, hmap) == Success(m)
    requires k in hmap
    requires forall i | 0 <= i < |entries| :: Pair(entries[i]).0 != k
    ensures k in m && m[k] == hmap[k]
    decreases entries
  {
    if entries != [] {
      var rest := entries[1..];
      var (k0, g0) := Pair(entries[0]);
      assert forall i | 0 <= i < |rest| :: rest[i] == entries[i + 1];
      EntriesUntouched(rest, hmap[k0 := g0], m, k);
    }
  }

  /**
   * After the dict loop, the key of entry `i` holds that entry's value when
   * no later entry's key decodes to the same Go value: the last write wins.
   */
  lemma {:induction false} EntriesLastWins(entries: seq<S.Entry>, hmap: map<G.Value, G.Value>, m: map<G.Value, G.Value>, i: int)
    requires EntriesHashable(entries)
    requires DecodeEntries(entries, hmap) == Success(m)
    requires 0 <= i < |entries|
    requires LastWithKey(entries, i)
    ensures Pair(entries[i]).0 in m && m[Pair(entries[i]).0] == Pair(entries[i]).1
    decreases entries
  {
    var rest := entries[1..];
    var (k0, g0) := Pair(entries[0]);
    assert forall j | 0 <= j < |rest| :: rest[j] == entries[j + 1];
    if i == 0 {
      EntriesUntouched(rest, hmap[k0 := g0], m, k0);
    } else {
      assert LastWithKey(rest, i - 1);
      EntriesLastWins(rest, hmap[k0 := g0], m, i - 1);
    }
  }

  /**
   * A non-empty dict decodes to the Go map holding exactly the decoded keys,
   * each with the value of the last entry whose key decodes to it.
   */
  lemma DictDecoded(entries: seq<S.Entry>, m: map<G.Value, G.Value>)
    requires S.HashableKeys(S.Dict(entries))
    requires Decode(S.Dict(entries)) == Success(G.Map(m))
    ensures entries != []
    ensures EntriesDecodable(entries)
    ensures forall i | 0 <= i < |entries| :: Pair(entries[i]).0 in m
    ensures forall k | k in m :: exists i | 0 <= i < |entries| :: Pair(entries[i]).0 == k
    ensures forall i | 0 <= i < |entries| && LastWithKey(entries, i) :: Pair(entries[i]).0 in m && m[Pair(entries[i]).0] == Pair(entries[i]).1
  {
    EntriesKeys(entries, map[], m);
    forall i | 0 <= i < |entries| && LastWithKey(entries, i)
      ensures m[Pair(entries[i]).0] == Pair(entries[i]).1
    {
      EntriesLastWins(entries, map[], m, i);
    }
  }

  /** An empty dict decodes to nil, never to an empty map; a non-empty one to a map. */
  lemma DictShape(entries: seq<S.Entry>)
    requires S.HashableKeys(S.Dict(entries))
    requires Decode(S.Dict(entries)).Success?
    ensures Decode(S.Dict(entries)).value == G.Nil <==> entries == []
    ensures Decode(S.Dict(entries)).value.Map? <==> entries != []
  {
  }

  /** Entry `k` is the first one to fail, with `e`, its key being tried before its value. */
  predicate FirstFailingEntry(entries: seq<S.Entry>, k: int, e: Error)
    requires EntriesHashable(entries)
  {
    && 0 <= k < |entries|
    && (forall j | 0 <= j < k :: DecodeEntry(entries[j]).Success?)
    && (|| Decode(entries[k].key) == Failure(e)
        || (Decode(entries[k].key).Success? && Decode(entries[k].value) == Failure(e)))
  }

  /** The dict loop fails with `e` exactly when `e` is the error of the first failing key or value. */
  lemma {:induction false} EntriesFirstError(entries: seq<S.Entry>, hmap: map<G.Value, G.Value>, e: Error)
    requires EntriesHashable(entries)
    ensures DecodeEntries(entries, hmap) == Failure(e) <==> exists k :: FirstFailingEntry(entries, k, e)
    decreases entries
  {
    if entries != [] {
      var rest := entries[1..];
      if DecodeEntry(entries[0]).Failure? {
        if DecodeEntry(entries[0]) == Failure(e) {
          assert FirstFailingEntry(entries, 0, e);
        }
      } else {
        var kv := DecodeEntry(entries[0]).value;
        EntriesFirstError(rest, hmap[kv.0 := kv.1], e);
        if DecodeEntries(entries, hmap) == Failure(e) {
          var k :| FirstFailingEntry(rest, k, e);
          forall j | 0 <= j < k + 1 ensures DecodeEntry(entries[j]).Success? {
            if j > 0 { assert entries[j] == rest[j - 1]; }
          }
          assert entries[k + 1] == rest[k];
          assert FirstFailingEntry(entries, k + 1, e);
        }
        if exists k :: FirstFailingEntry(entries, k, e) {
          var k :| FirstFailingEntry(entries, k, e);
          assert k > 0;
          forall j | 0 <= j < k - 1 ensures DecodeEntry(rest[j]).Success? {
            assert rest[j] == entries[j + 1];
          }
          assert rest[k - 1] == entries[k];
          assert FirstFailingEntry(rest, k - 1, e);
        }
      }
    }
  }

  /** A dict fails with the error of its first failing key or value, in iteration order. */
  lemma DictFirstError(entries: seq<S.Entry>, e: Error)
    requires S.HashableKeys(S.Dict(entries))
    ensures Decode(S.Dict(entries)) == Failure(e) <==> exists k :: FirstFailingEntry(entries, k, e)
  {
    EntriesFirstError(entries, map[], e);
  }

  /** The decoded value of a well-formed keyword argument that decodes. */
  function ArgValue(arg: seq<S.Value>): (g: G.Value)
    requires WellFormedArg(arg) && Decodable(arg[1])
  {
    Decode(arg[1]).value
  }

  /** No argument after index `i` repeats its name. */
  predicate LastWithName(kwargs: seq<seq<S.Value>>, i: int)
    requires WellFormedArgs(kwargs)
    requires 0 <= i < |kwargs|
  {
    forall j | i < j < |kwargs| :: kwargs[j][0].s != kwargs[i][0].s
  }

  /**
   * Argument collection, run from `input`, keeps the names it started with,
   * stores every argument's name and adds no other name.
   */
  lemma {:induction false} ArgsKeys(kwargs: seq<seq<S.Value>>, input: map<string, G.Value>, m: map<string, G.Value>)
    requires WellFormedArgs(kwargs)
    requires CollectArgs(kwargs, input) == Success(m)
    ensures ArgsDecodable(kwargs)
    ensures forall name | name in input :: name in m
    ensures forall i | 0 <= i < |kwargs| :: kwargs[i][0].s in m
    ensures forall name | name in m :: name in input || exists i | 0 <= i < |kwargs| :: kwargs[i][0].s == name
    decreases kwargs
  {
    if kwargs != [] {
      var rest := kwargs[1..];
      var name0 := kwargs[0][0].s;
      assert forall i | 0 <= i < |rest| :: rest[i] == kwargs[i + 1];
      ArgsKeys(rest, input[name0 := ArgValue(kwargs[0])], m);
      forall name | name in m ensures name in input || exists i | 0 <= i < |kwargs| :: kwargs[i][0].s == name {
        if name == name0 {
          assert kwargs[0][0].s == name;
        } else if name !in input {
          var i :| 0 <= i < |rest| && rest[i][0].s == name;
          assert kwargs[i + 1][0].s == name;
        }
      }
    }
  }

  /** A name no argument uses keeps the value it had before collection. */
  lemma {:induction false} ArgsUntouched(kwargs: seq<seq<S.Value>>, input: map<string, G.Value>, m: map<string, G.Value>, name: string)
    requires WellFormedArgs(kwargs)
    requires CollectArgs(kwargs, input) == Success(m)
    requires name in input
    requires forall i | 0 <= i < |kwargs| :: kwargs[i][0].s != name
    ensures name in m && m[name] == input[name]
    decreases kwargs
  {
    if kwargs != [] {
      var rest := kwargs[1..];
      assert forall i | 0 <= i < |rest| :: rest[i] == kwargs[i + 1];
      ArgsUntouched(rest, input[kwargs[0][0].s := ArgValue(kwargs[0])], m, name);
    }
  }

  /**
   * After collection, the name of argument `i` holds its decoded value when
   * no later argument repeats the name: the last write wins.
   */
  lemma {:induction false} ArgsLastWins(kwargs: seq<seq<S.Value>>, input: map<string, G.Value>, m: map<string, G.Value>, i: int)
    requires WellFormedArgs(kwargs)
    requires CollectArgs(kwargs, input) == Success(m)
    requires 0 <= i < |kwargs|
    requires LastWithName(kwargs, i)
    ensures ArgsDecodable(kwargs)
    ensures kwargs[i][0].s in m && m[kwargs[i][0].s] == ArgValue(kwargs[i])
    decreases kwargs
  {
    var rest := kwargs[1..];
    var input' := input[kwargs[0][0].s := ArgValue(kwargs[0])];
    assert forall j | 0 <= j < |rest| :: rest[j] == kwargs[j + 1];
    if i == 0 {
      ArgsUntouched(rest, input', m, kwargs[0][0].s);
    } else {
      assert LastWithName(rest, i - 1);
      ArgsLastWins(rest, input', m, i - 1);
    }
  }

  /**
   * The map handed to the struct binder holds exactly the argument names,
   * each with the decoded value of the last argument of that name.
   */
  lemma KWargsCollected(kwargs: seq<seq<S.Value>>, m: map<string, G.Value>)
    requires WellFormedArgs(kwargs)
    requires CollectArgs(kwargs, map[]) == Success(m)
    ensures ArgsDecodable(kwargs)
    ensures forall i | 0 <= i < |kwargs| :: kwargs[i][0].s in m
    ensures forall name | name in m :: exists i | 0 <= i < |kwargs| :: kwargs[i][0].s == name
    ensures forall i | 0 <= i < |kwargs| && LastWithName(kwargs, i) :: m[kwargs[i][0].s] == ArgValue(kwargs[i])
  {
    ArgsKeys(kwargs, map[], m);
    forall i | 0 <= i < |kwargs| && LastWithName(kwargs, i)
      ensures m[kwargs[i][0].s] == ArgValue(kwargs[i])
    {
      ArgsLastWins(kwargs, map[], m, i);
    }
  }

  /** Collection fails with `e` exactly when argument `k` is the first one whose value fails, with `e`. */
  predicate FirstFailingArg(kwargs: seq<seq<S.Value>>, k: int, e: Error)
    requires WellFormedArgs(kwargs)
  {
    && 0 <= k < |kwargs|
    && (forall j | 0 <= j < k :: Decode(kwargs[j][1]).Success?)
    && Decode(kwargs[k][1]) == Failure(e)
  }

  /** Argument collection fails with `e` exactly when `e` is the error of the first argument that fails. */
  lemma {:induction false} ArgsFirstError(kwargs: seq<seq<S.Value>>, input: map<string, G.Value>, e: Error)
    requires WellFormedArgs(kwargs)
    ensures CollectArgs(kwargs, input) == Failure(e) <==> exists k :: FirstFailingArg(kwargs, k, e)
    decreases kwargs
  {
    if kwargs != [] {
      var rest := kwargs[1..];
      if Decode(kwargs[0][1]).Failure? {
        if Decode(kwargs[0][1]) == Failure(e) {
          assert FirstFailingArg(kwargs, 0, e);
        }
      } else {
        ArgsFirstError(rest, input[kwargs[0][0].s := Decode(kwargs[0][1]).value], e);
        if CollectArgs(kwargs, input) == Failure(e) {
          var k :| FirstFailingArg(rest, k, e);
          forall j | 0 <= j < k + 1 ensures Decode(kwargs[j][1]).Success? {
            if j > 0 { assert kwargs[j] == rest[j - 1]; }
          }
          assert kwargs[k + 1] == rest[k];
          assert FirstFailingArg(kwargs, k + 1, e);
        }
        if exists k :: FirstFailingArg(kwargs, k, e) {
          var k :| FirstFailingArg(kwargs, k, e);
          assert k > 0;
          forall j | 0 <= j < k - 1 ensures Decode(rest[j][1]).Success? {
            assert rest[j] == kwargs[j + 1];
          }
          assert rest[k - 1] == kwargs[k];
          assert FirstFailingArg(rest, k - 1, e);
        }
      }
    }
  }
}
