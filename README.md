# Starlark-to-Go value decoder, modelled in Dafny

This project models the decoder of the `stardecoder` Go package. The decoder
turns values produced by a Starlark interpreter into plain Go values. It also
collects a Starlark call's keyword arguments into a name-keyed map, which is
then handed to a struct-binding library.

- `Decode` is a type switch over the Starlark kinds:
  - None becomes nil. Bool, Float and String are copied.
  - An Int must fit 32 signed bits.
  - List and Tuple become a `[]interface{}`, filled element by element.
  - A Dict becomes a `map[interface{}]interface{}`, filled entry by entry.
    An empty Dict becomes nil, because the map is only published inside the loop.
  - Every other kind fails with the unsupported-type sentinel.
  - The first error aborts the whole decode.
- `DecodeKWargs` first configures the struct binder. It then decodes every
  `(name, value)` argument into a map; a repeated name keeps the last value.
  On the first failure it returns that error before the binder sees anything.

Layout:

- `errors.dfy` (`Errors`): the error kinds and a failure-compatible `Result`.
- `starlark.dfy` (`Starlark`): the source values. A dict is a sequence of
  entries in insertion order. `HashableKeys` rules out the container keys that
  make the Go code panic.
- `govalue.dfy` (`GoValue`): the Go values the decoder builds.
- `decoding.dfy` (`Decoding`): the decoder as pure recursive functions. This is
  the specification. `Decodable` is an order-free reference for when decoding
  succeeds.
- `properties.dfy` (`Properties`): lemmas about the specification.
- `decoder.dfy` (`Decoder`): the Go code's loops as methods. A preallocated
  array is filled in place, a map is grown entry by entry, and every method is
  proved equal to its specification.
- `roundtrip.dfy` (`RoundTrip`): the decoder's range. `Encodable` describes
  it, and both directions are proved. Every successful decoding is
  `Encodable`. For every `Encodable` Go value, an inverse `Encode` builds a
  Starlark value that decodes back to it.
- `test_cases.dfy` (`TestCases`): the inputs of the repository's tests, checked
  against the model.

The repository's keyword-argument test (decoder_test.go:55-63 and
decoder_test.go:110-139) passes a dict holding a `*starlark.Function` as
`contact` and expects success. The code of decoder.go:113-114 refuses that
kind, and decoder.go:36-38 returns the error. The model follows the code:
`TestCases.ContactDictFails` and `TestCases.ContactArgumentFails` show the
failure.

## Model

| member | source | states |
|---|---|---|
| `Decoding.Decode` | decoder.go:58-118 | Decoding succeeds exactly when the value is `Decodable`: every Int fits 32 bits and no unsupported kind occurs anywhere. A failure is always the unsupported-type error or a range error for an out-of-range integer. |
| `Decoding.DecodeItems` | decoder.go:70-86 | The elements of a List or Tuple decode, front to back, exactly when every element is decodable. Any error is one of the two decode errors. |
| `Decoding.DecodeEntry` | decoder.go:94-110 | One dict entry (key first, then the value looked up under it) decodes exactly when both parts do. The decoded key is then never a slice or map, so it can be a Go map key. |
| `Decoding.DecodeEntries` | decoder.go:88-112 | The dict loop succeeds exactly when every entry is decodable. Any error is one of the two decode errors. |
| `Decoding.CollectArgs` | decoder.go:32-40 | Argument collection succeeds exactly when every argument value is decodable. Any error is one of the two decode errors. |
| `Decoder.Decode` | decoder.go:58-118 | The in-place implementation, with its preallocated slice, index loop, map insertion loop and early returns, gives exactly the result of `Decoding.Decode`. |
| `Decoder.DecodeKWargs` | decoder.go:23-42 | If configuring the binder fails, that error is returned for any arguments, even malformed ones, before any argument is looked at; only the success path needs well-formed arguments. Otherwise the result is `Decoding.CollectArgs` from an empty map: either the first decode error, or the map handed to the binder. |
| `Properties.ScalarsCopied` | decoder.go:60-69 | None gives nil. Bool, Float and String give the same truth value, bit pattern and string. |
| `Properties.IntRangeChecked` | decoder.go:64-65 | An Int decodes to the same integer exactly when it lies in [-2^31, 2^31-1]. Otherwise it fails with a range error naming it. |
| `Properties.OtherUnsupported` | decoder.go:113-114 | Every kind outside the supported set fails with the unsupported-type error. |
| `Properties.ItemsElementwise` | decoder.go:74-86 | The element loop yields a sequence `gs` exactly when `gs` has the source's length and its i-th element is the decoding of the i-th source element. |
| `Properties.ItemsFirstError` | decoder.go:79-83 | The element loop fails with `e` exactly when some element fails with `e` and every earlier element decodes. |
| `Properties.SequenceDecoded` | decoder.go:70-86 | A List or Tuple decodes to `g` exactly when `g` is a slice of the same length whose i-th element is the decoding of element i, in order. |
| `Properties.SequenceFirstError` | decoder.go:79-83 | A List or Tuple fails with `e` exactly when its first failing element fails with `e`. That error, including the unsupported-type error, propagates unchanged, and later elements do not matter. |
| `Properties.EntriesKeys` | decoder.go:94-111 | After the dict loop from `hmap`, the map keeps `hmap`'s keys, holds every decoded key and holds no other key. |
| `Properties.EntriesUntouched` | decoder.go:107 | A key that no entry decodes to keeps its earlier value through the dict loop. |
| `Properties.EntriesLastWins` | decoder.go:94-111 | After the dict loop, the decoded key of entry i maps to entry i's decoded value whenever no later entry's key decodes to the same Go value. Later entries overwrite earlier ones. |
| `Properties.DictDecoded` | decoder.go:87-112 | A dict that decodes to a map is non-empty and decodable. The map's keys are exactly the decoded keys, each holding the value of the last entry with that key. |
| `Properties.DictShape` | decoder.go:89-111 | A decodable dict gives nil exactly when it is empty, and a map exactly when it is not. |
| `Properties.EntriesFirstError` | decoder.go:94-110 | The dict loop fails with `e` exactly when, at the first failing entry, the key fails with `e`, or the key decodes and the value fails with `e`. |
| `Properties.DictFirstError` | decoder.go:97-110 | A dict fails with the error of its first failing key or value, in iteration order, and that error propagates unchanged. |
| `Properties.ArgsKeys` | decoder.go:32-40 | After collection from `input`, the map keeps `input`'s names, holds every argument name and holds no other name. |
| `Properties.ArgsUntouched` | decoder.go:39 | A name no argument uses keeps its earlier value through collection. |
| `Properties.ArgsLastWins` | decoder.go:33-39 | After collection, the name of argument i maps to its decoded value whenever no later argument repeats the name. |
| `Properties.KWargsCollected` | decoder.go:32-41 | The map handed to the binder holds exactly the argument names, each with the decoded value of its last argument. |
| `Properties.ArgsFirstError` | decoder.go:35-38 | Collection fails with `e` exactly when the first argument whose value fails, fails with `e`. |
| `RoundTrip.DecoderRange` | decoder.go:58-118 | A Go value is the decoding of some Starlark value exactly when it is `Encodable`: 32-bit ints, non-empty maps, and hashable, `Encodable` map keys and values. |
| `RoundTrip.DecodedEncodable` | decoder.go:58-118 | Every successful decoding is `Encodable`. |
| `RoundTrip.ItemsEncodable` | decoder.go:70-86 | Every element of the slice built from a List or Tuple is `Encodable`. |
| `RoundTrip.EntryEncodable` | decoder.go:97-106 | A dict entry that decodes gives an `Encodable` key and value. |
| `RoundTrip.EntriesEncodable` | decoder.go:94-111 | The dict loop keeps every stored key hashable and every stored key and value `Encodable`. |
| `RoundTrip.Encode` | decoder.go:44-57 | The inverse mapping from the conversion table gives Starlark values with hashable dict keys. It gives a container exactly when the Go value is a slice or map. |
| `RoundTrip.EncodeEntries` | decoder.go:56 | A non-empty Go map becomes one dict entry per pair, all with hashable keys. |
| `RoundTrip.DecodeEncode` | decoder.go:58-118 | Decoding undoes encoding. Every Go value with 32-bit ints, hashable map keys and non-empty maps is the decoding of some Starlark value. |
| `RoundTrip.DecodeEncodeSlice` | decoder.go:70-86 | A slice is the decoding of the list of its encoded elements. |
| `RoundTrip.DecodeEncodeMap` | decoder.go:87-112 | A non-empty map is the decoding of the dict of its encoded pairs. |
| `RoundTrip.DecodeEncodePair` | decoder.go:97-107 | One map pair is the decoding of the entry made of its encoded key and value. |
| `RoundTrip.DecodePairsOf` | decoder.go:94-111 | The dict loop over entries that decode to pairs of `m` adds exactly those pairs to its starting map. |
| `TestCases.MixedList` | decoder_test.go:29-33 | `[True, None, "c"]` decodes to `[true, nil, "c"]`. |
| `TestCases.NestedTuple` | decoder_test.go:34-40 | `(234567890, 1.2, ["nested list"])` decodes to a slice holding the int, the same float bit pattern and a nested slice. |
| `TestCases.TwoEntryDict` | decoder_test.go:11-13 | The two-entry dict decodes to the Go map with both entries, the tuple value as a slice. |
| `TestCases.ContactDictFails` | decoder_test.go:55-63 | The `contact` dict fails with the unsupported-type error on its function entry. |
| `TestCases.ContactArgumentFails` | decoder_test.go:110-115 | The `contact` keyword argument fails with that same error, so no map reaches the binder. |
| `TestCases.UrlArgument` | decoder_test.go:70-78 | A single `url` argument yields the one-entry map `{"url": "http://slack.com"}`. |

## Left out

- The struct-binding library (`mapstructure`): configuring it (decoder.go:24-27) and binding the map onto the target (decoder.go:41). That library is not part of this model. Its setup outcome is the `configOk` parameter of `Decoder.DecodeKWargs`. The method returns the map the binder would receive. Field matching, field tags, case-insensitive matching and type mismatches are therefore not modelled.
- Float semantics: a float is an opaque 64-bit pattern copied through. The ignored flag of `AsFloat` (decoder.go:67) has no effect. Map keys are compared by bit pattern, so IEEE equality of float keys (+0 against -0, NaN) is not modelled.
- Starlark's iterator protocol (`Iterate`, `Next`, `Done`, `defer`) is left out. A dict is a sequence of entries in insertion order. `x.Get(key)` (decoder.go:102-105) always finds the key being iterated, so its error path never happens.
- Go run-time panics are preconditions, not modelled outcomes:
  - a tuple used as a dict key decodes to a slice, which cannot be a Go map key (decoder.go:107);
  - a keyword argument must have at least two items, and its first item must be a String (decoder.go:34). This is demanded only when configuring the binder succeeds; when it fails, `Decoder.DecodeKWargs` accepts any arguments and returns the setup error.
  - `HashableKeys` also rules out list and dict keys, which Starlark itself never allows. It rules out a tuple key even when decoding that key would fail first, before the insertion that panics. It also rules out a tuple key the decoder never reaches because an earlier element, key or value has already failed: Go returns that error without panicking (decoder.go:80-83, decoder.go:98-99, decoder.go:108-109), but the model does not cover such inputs.
- The partial value Go returns alongside an error (the half-filled map of a failing dict) is not modelled: an error is a plain `Failure`.
- The text of errors is left out: a range error carries the offending integer, and a binder setup failure is one `InvalidConfig` kind.
- Stack depth on deeply nested input is not modelled.
