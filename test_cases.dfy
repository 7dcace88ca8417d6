/**
 * The inputs of the repository's tests, stated over the model. The `contact`
 * argument holds a function value, which the decoder refuses.
 */
module TestCases {
  import S = Starlark
  import G = GoValue
  import opened Errors
  import opened Decoding
  import Properties

  /** A list mixing a bool, None and a string keeps each element in place. */
  lemma MixedList()
    ensures Decode(S.List([S.Bool(true), S.None, S.String("c")]))
         == Success(G.Slice([G.Bool(true), G.Nil, G.String("c")]))
  {
    Properties.SequenceDecoded(S.List([S.Bool(true), S.None, S.String("c")]),
                               G.Slice([G.Bool(true), G.Nil, G.String("c")]));
  }

  /** A tuple holding an int, the float 1.2 and a nested list becomes a slice holding a nested slice. */
  lemma NestedTuple()
    ensures Decode(S.Tuple([S.Int(234567890), S.Float(0x3FF3333333333333), S.List([S.String("nested list")])]))
         == Success(G.Slice([G.Int(234567890), G.Float64(0x3FF3333333333333), G.Slice([G.String("nested list")])]))
  {
    var inner := S.List([S.String("nested list")]);
    Properties.SequenceDecoded(inner, G.Slice([G.String("nested list")]));
    Properties.SequenceDecoded(S.Tuple([S.Int(234567890), S.Float(0x3FF3333333333333), inner]),
                               G.Slice([G.Int(234567890), G.Float64(0x3FF3333333333333), G.Slice([G.String("nested list")])]));
  }

  /** The two-entry dict of the decode table becomes a Go map with both entries. */
  lemma TwoEntryDict()
    ensures Decode(S.Dict([S.Entry(S.String("mykey"), S.String("myvalue")),
                           S.Entry(S.String("list"), S.Tuple([S.Int(99)]))]))
         == Success(G.Map(map[G.String("list") := G.Slice([G.Int(99)]),
                              G.String("mykey") := G.String("myvalue")]))
  {
    var first := S.Entry(S.String("mykey"), S.String("myvalue"));
    var second := S.Entry(S.String("list"), S.Tuple([S.Int(99)]));
    assert [first, second][1..] == [second];
    ListEntryStored();
  }

  /** The dict loop's second step stores the `list` entry beside `mykey`. */
  lemma ListEntryStored()
    ensures DecodeEntries([S.Entry(S.String("list"), S.Tuple([S.Int(99)]))],
                          map[G.String("mykey") := G.String("myvalue")])
         == Success(map[G.String("list") := G.Slice([G.Int(99)]),
                        G.String("mykey") := G.String("myvalue")])
  {
    var second := S.Entry(S.String("list"), S.Tuple([S.Int(99)]));
    var m := map[G.String("mykey") := G.String("myvalue")];
    Properties.SequenceDecoded(second.value, G.Slice([G.Int(99)]));
    assert DecodeEntry(second) == Success((G.String("list"), G.Slice([G.Int(99)])));
    assert [second][1..] == [];
    assert m[G.String("list") := G.Slice([G.Int(99)])]
        == map[G.String("list") := G.Slice([G.Int(99)]), G.String("mykey") := G.String("myvalue")];
  }

  function ContactDict(): (v: S.Value) {
    S.Dict([S.Entry(S.String("name"), S.String("pablo")),
            S.Entry(S.String("age"), S.Int(36)),
            S.Entry(S.String("hobbies"), S.Tuple([S.String("movies"), S.String("horse riding"), S.String("car racing")])),
            S.Entry(S.String("myfn"), S.Other("function"))])
  }

  /** The dict decodes its first three entries and then fails on the function value. */
  lemma ContactDictFails()
    ensures Decode(ContactDict()) == Failure(UnsupportedType)
  {
    var entries := ContactDict().entries;
    assert Properties.FirstFailingEntry(entries, 3, UnsupportedType) by {
      assert Decodable(entries[2].value);
    }
    Properties.DictFirstError(entries, UnsupportedType);
  }

  /** The `contact` argument fails with that error, so the map never reaches the struct binder. */
  lemma ContactArgumentFails()
    ensures CollectArgs([[S.String("contact"), ContactDict()]], map[]) == Failure(UnsupportedType)
  {
    ContactDictFails();
  }

  /** A single `url` argument reaches the struct binder as the one-entry map it names. */
  lemma UrlArgument()
    ensures CollectArgs([[S.String("url"), S.String("http://slack.com")]], map[])
         == Success(map["url" := G.String("http://slack.com")])
  {
  }
}
