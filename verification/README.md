# mustaine encoder — a Dafny model

This project models `mustaine/encoder.py`, the Python 2 serialiser of the
mustaine Hessian client. It turns Python values into the Hessian 1.0.2
binary wire format, as the Caucho "Hessian 1.0 specification" defines it.
The model covers:

- **the dispatch table.** `sort_mro` orders the registered encoders so that
  subclasses come before the types they extend. `Encoder._encode` then picks
  the first entry whose type the value is an instance of.
- **the wire rules.** Each registered rule yields a `(tag, bytes)` pair; the
  tag comes from the `RETURN_TYPES` table, except for typed objects, which
  are tagged with their simple class name. `encode` keeps the bytes and
  `encode_arg` keeps the pair.
- **the scalar rules:** null, boolean, 32- and 64-bit integers, doubles given
  as bit patterns, and dates given as whole seconds.
- **the 65535-unit chunking loop,** shared by unicode text, ASCII byte strings
  and binaries.
- **the composite rules:** list, tuple, map, typed object and remote.
- **the RPC call frame,** with its headers and overload name mangling.

Python exceptions are error values, not preconditions. Each of the
following is a `Failure` of a `Result`:

- `TypeError` when no encoder matches, for a non-ASCII byte string, for a
  header key that is not a `str`, and for the `str + tuple` inside
  `encode_remote`;
- `struct.error` when a value does not fit its packed field.

When several steps could fail, the error is the one the source's evaluation
order meets first.

Layout of the modules:

- `Wrappers`, `Bytes` and `Utf8`: the `Result`/`Option` types, big-endian
  packing the way `struct.pack` does it, and a UTF-8 encoder with a decoder
  proved inverse to it.
- `Values` and `PyTypes`: Python values, their classes, the class hierarchy
  and `RETURN_TYPES`.
- `Dispatch`: the generic topological linearisation standing in for
  `sort_mro`, and first-match lookup.
- `Chunking`: the chunk loop, a reader that parses chunked data back, and
  the chunk-shape invariant.
- `Joins`: `reduce(operator.add, map(f, xs), b'')`.
- `Wire`: the byte layout of each rule.
- `Encoder`: the registry, `_encode`, `encode`, `encode_arg` and
  `encode_object`.
- `ScalarRules`, `CompositeRules` and `CallRules`: what `encode_arg`
  produces for each kind of value, stated without reference to the
  encoder's recursion.
- `WireScenarios` and `Scenarios`: concrete encodings, worked out byte for
  byte.

The encoder takes its dispatch table as a parameter. Every property is
proved for any table that:

- is descendants-first;
- has distinct types;
- holds the source's registrations.

`Encoder.RegistryFacts` shows that the table built from the source's
registrations meets these conditions.

## Model

| member | source | states |
|---|---|---|
| Dispatch.SortMro | mustaine/encoder.py:75-86 | The dispatch order lists every registered type exactly once. For a type registered twice, the last registration wins, as `dict()` does. No entry is a proper ancestor of a later entry. |
| Dispatch.FirstMatch | mustaine/encoder.py:106-111 | The lookup finds nothing exactly when no entry's type is an instance match. Otherwise it returns the first entry that matches. |
| Dispatch.FirstMatchIsMostSpecific | mustaine/encoder.py:75-82 | In a descendants-first order, no other matching entry is a descendant of the entry chosen. |
| Dispatch.OwnTypeMatchesFirst | mustaine/encoder.py:106-111 | A value whose own class is registered is dispatched to that class's entry, even though its ancestors match too. |
| Dispatch.Linearize | mustaine/encoder.py:85 | The linearisation is a permutation of the pending types. |
| Dispatch.LinearizeOrdered | mustaine/encoder.py:85 | In the linearised types, no type comes before one of its descendants (the reversed topological order). |
| Dispatch.Dedup | mustaine/encoder.py:83-84 | The keys of `type_encoders`: the same set of types, each listed once. |
| Dispatch.StrictHierarchyIsGraded | mustaine/encoder.py:84 | For an irreflexive, transitive `mro()[1:]` relation, every descendant counts strictly more registered ancestors than its ancestor does. This is what lets the linearisation put descendants first. |
| PyTypes.AncestorsAreStrict | mustaine/encoder.py:84 | The modelled Python 2 hierarchy (`bool` under `int`, `str` and `unicode` under `basestring`, `datetime` under `date`, `Object` subclasses under `Object`) is irreflexive and transitive. |
| Encoder.RegistryFacts | mustaine/encoder.py:99 | The table built from the class's registrations is descendants-first, lists each type once, and pairs every registered type with its rule. |
| Encoder.SortedIsWellFormed | mustaine/encoder.py:83-86 | Sorting any registration list that is consistent and complete gives a well-formed dispatch table. |
| Encoder.BoolBeforeInt | mustaine/encoder.py:75-82 | In every well-formed table, `bool` precedes `int`. |
| Encoder.ResolvesIn | mustaine/encoder.py:106-114 | Dispatch finds nothing exactly when the value has no handler. Otherwise the entry found is the handler type (`Object` for user subclasses) and its rule accepts the value. |
| Encoder.MatchFound | mustaine/encoder.py:106-111 | A value with a handler type is dispatched to that type's entry, including through inheritance. |
| Encoder.DispatchUnregistered | mustaine/encoder.py:112-113 | A class that is not registered and has no registered ancestor matches no entry. |
| Encoder.Dispatched | mustaine/encoder.py:106-120 | `encode_arg` raises TypeError naming the value's class when nothing matches. Otherwise it runs exactly the handler type's rule. |
| Encoder.TaggedTypes | mustaine/encoder.py:18-33 | A type has a non-empty tag exactly when it is registered and is not `Object`. `str` and `unicode` share the tag `string`, `list` and `tuple` share `list`, and `dict` is tagged `map`. |
| Encoder.HandlerAccepts | mustaine/encoder.py:122-231 | The rule registered for a value's handler type accepts that value. |
| ScalarRules.UnsupportedValue | mustaine/encoder.py:112-113 | An instance of an unregistered class fails with TypeError naming its class, in both `encode` and `encode_arg`. |
| ScalarRules.NullEncoding | mustaine/encoder.py:122-124 | `None` encodes as `N`, tagged `null`. |
| ScalarRules.BooleanEncoding | mustaine/encoder.py:126-131 | A bool always succeeds with `T` or `F`, tagged `bool`. It never takes the `int` path. |
| ScalarRules.IntEncoding | mustaine/encoder.py:133-135 | An int succeeds exactly when it fits in 32 bits, and fails with a pack error otherwise. On success it is 5 bytes: `I` and a field that reads back as the int. |
| ScalarRules.LongEncoding | mustaine/encoder.py:137-139 | A long succeeds exactly when it fits in 64 bits, and fails with a pack error otherwise. On success it is 9 bytes: `L` and a field that reads back as the long. |
| ScalarRules.DoubleEncoding | mustaine/encoder.py:141-143 | A double is 9 bytes: `D` and its 64-bit pattern, big-endian. |
| ScalarRules.DateEncoding | mustaine/encoder.py:145-147 | A date succeeds exactly when its milliseconds fit in 64 bits. On success it is `d` and a field that reads back as seconds × 1000, always a multiple of 1000. |
| Wire.DateLayout | mustaine/encoder.py:147 | The same facts about the date packing alone, the error included. |
| Wire.TaggedSigned | mustaine/encoder.py:135 | A code byte followed by a packed signed field is one byte longer than the field, and the field reads back as the number packed. |
| ScalarRules.UnicodeEncoding | mustaine/encoder.py:149-160 | Text always encodes. The chunks parse back in the required shape with counts in characters. The payloads joined are the UTF-8 encoding of the whole text, and decoding them gives back the text. |
| ScalarRules.StringEncoding | mustaine/encoder.py:162-181 | A byte string fails exactly when it holds a byte ≥ 0x80, and the error is TypeError. Otherwise its chunks parse back in the required shape, the payloads are its bytes, and the terminal count is the number of characters the last payload decodes to. |
| ScalarRules.StringLayout | mustaine/encoder.py:166-181 | The same facts about the string rule alone, without dispatch. |
| ScalarRules.BinaryEncoding | mustaine/encoder.py:216-229 | A binary always encodes. Its `b`/`B` chunks parse back in the required shape, each payload's length equals its count, and the payloads joined are the blob. |
| ScalarRules.RemoteEncoding | mustaine/encoder.py:211-214 | The corrected remote rule succeeds exactly when the URL is ASCII and the type name fits 16 bits, with TypeError or a pack error otherwise. On success the layout is `r`, `t`, the length, the name, then chunks that parse back to the URL. |
| Chunking.ChunkLoop | mustaine/encoder.py:151-160 | The accumulate-and-slice loop of the source produces the chunked encoding. |
| Chunking.ParseChunked | mustaine/encoder.py:153-160 | For any payload encoding that is homomorphic and whose units the reader can measure, chunked output parses back. Continuation chunks hold exactly 65535 units. Exactly one terminal chunk ends it, with at most 65535 units and empty only for empty input. The counts sum to the input length, and the payloads join to the encoding of the whole input. |
| Chunking.TextChunks | mustaine/encoder.py:153-159 | Text chunks parse back with character counts. Their payloads joined are the UTF-8 encoding of the whole text, and they decode to the text. |
| Chunking.ByteChunks | mustaine/encoder.py:174-180 | Byte chunks parse back with byte counts. Each payload's length equals its count, and the payloads join to the input. |
| Chunking.ChunkCount | mustaine/encoder.py:153-158 | A well-chunked input of n units has one chunk when n is 0 and ⌈n / 65535⌉ chunks otherwise. The terminal chunk holds the remainder. |
| Chunking.SumOfWellChunked | mustaine/encoder.py:153-158 | The counts add up to 65535 per continuation chunk plus the terminal count. |
| Chunking.WellChunkedCons | mustaine/encoder.py:153-156 | One more full continuation chunk in front of a well-chunked tail is well chunked for 65535 more units. |
| Utf8.DecodeEncode | mustaine/encoder.py:155 | Decoding the UTF-8 encoding of any text gives back the text. |
| Utf8.EncodeConcat | mustaine/encoder.py:155-159 | Encoding a concatenation concatenates the encodings, so slicing text at a chunk boundary slices its bytes there too. |
| Utf8.DecodeAscii | mustaine/encoder.py:179 | ASCII bytes decode to one character per byte. |
| Joins.JoinSucceeds | mustaine/encoder.py:185 | `reduce(operator.add, map(f, xs), b'')` succeeds exactly when every call of `f` does. It then yields their bytes in order. |
| Joins.JoinFailsFirst | mustaine/encoder.py:185 | The join raises the first failure in order. |
| Joins.JoinFails | mustaine/encoder.py:185 | When some element fails, the join raises the error of the first element that fails. |
| CompositeRules.EncodeAllJoins | mustaine/encoder.py:185 | Encoding a list's members succeeds exactly when each member encodes. It then yields their encodings in order. |
| CompositeRules.EncodeAllFailsFirst | mustaine/encoder.py:185 | The members' encoding raises the error of the first member that fails. |
| CompositeRules.ListEncoding | mustaine/encoder.py:183-186 | A list encodes exactly when all members do, as `V`, `l`, int32 −1, the member encodings in order, then `z`. |
| CompositeRules.ListFailsFirst | mustaine/encoder.py:183-186 | A list raises the error of its first member that fails. |
| CompositeRules.TupleEncoding | mustaine/encoder.py:188-191 | A tuple encodes exactly when all members do and its length fits 32 bits. The layout is `V`, `l`, a field that reads back as the length, the members, then `z`. |
| CompositeRules.TupleFails | mustaine/encoder.py:188-191 | A tuple raises its first failing member's error. A tuple too long for its count field raises a pack error. |
| Wire.TupleFrameLayout | mustaine/encoder.py:191 | The tuple header packs any count below 2^31 and reads back as it, and refuses larger counts. |
| CompositeRules.KeyvalEncoding | mustaine/encoder.py:193-194 | A pair encodes exactly when its key and value both do, as the key's bytes then the value's. Otherwise it fails with the key's error if the key fails, and with the value's error if only the value does. |
| CompositeRules.EncodeFieldsJoins | mustaine/encoder.py:198-199 | The pairs succeed exactly when each pair does, and are joined in `items()` order. |
| CompositeRules.EncodeFieldsFailsFirst | mustaine/encoder.py:198-199 | The pairs raise the first failing pair's error. |
| CompositeRules.MapEncoding | mustaine/encoder.py:196-200 | A dict encodes exactly when all pairs do, as `M`, each key's encoding followed by its value's, then `z`. |
| CompositeRules.MapFailsFirst | mustaine/encoder.py:196-200 | A dict raises its first failing pair's error. |
| CompositeRules.ObjectEncoding | mustaine/encoder.py:202-209 | A typed object encodes exactly when its qualified name fits 16 bits and all fields encode. It is tagged with its simple class name and laid out as `M`, `t`, the name's length, `module.Name`, the field pairs, then `z`. |
| CompositeRules.ObjectFails | mustaine/encoder.py:202-209 | A qualified name too long raises a pack error before any field is encoded. Otherwise the first failing field's error is raised. |
| CallRules.HeaderEncoding | mustaine/encoder.py:237-242 | A header encodes exactly when its key is a byte `str` of length below 65536 and its value encodes. It is then `H`, the key's length, the key, and the value's bytes. Otherwise it raises TypeError for a non-`str` key first, then a pack error for a long key, then the value's error. |
| CallRules.EncodeHeadersJoins | mustaine/encoder.py:237-242 | The header loop succeeds exactly when each header does, and joins their blocks in `items()` order. |
| CallRules.EncodeHeadersFailsFirst | mustaine/encoder.py:237-242 | The header loop raises the first failing header's error. |
| CallRules.ArgsLoopSucceeds | mustaine/encoder.py:244-250 | The argument loop succeeds exactly when every argument encodes. It yields the argument bytes without tags, in order. With overload set, the method name gains `_` plus the tag for each argument, in order; otherwise the name is unchanged. |
| CallRules.ArgsLoopFailsFirst | mustaine/encoder.py:244-250 | The argument loop raises the first failing argument's error. |
| CallRules.CallArgsIsLoop | mustaine/encoder.py:244-250 | The encoder's recursive argument walk is the argument loop run over each argument's `encode_arg` outcome. |
| CallRules.CallEncoding | mustaine/encoder.py:231-258 | A call encodes exactly when all headers and arguments encode, the version fits a byte and the sent name fits 16 bits. It is then `c`, the version, 0, the header blocks, `m`, the sent name's length and the name, the argument bytes, then `z`, tagged `call`. |
| CallRules.CallHeaderFails | mustaine/encoder.py:237-242 | A failing header (a non-`str` key, say) aborts the call with its error, whatever the arguments are. |
| CallRules.CallArgFails | mustaine/encoder.py:244-245 | Once the headers encode, the first failing argument's error aborts the call. |
| CallRules.CallFrameRefused | mustaine/encoder.py:252-254 | A version outside 0..255, or a sent name of 65536 bytes or more, raises a pack error even when every header and argument encodes. |
| Wire.CallFrameLayout | mustaine/encoder.py:252-256 | The call frame packs exactly when the version fits a byte and the name fits 16 bits, failing with a pack error otherwise. On success it is laid out as above. |
| Wire.RemoteLayout | mustaine/encoder.py:211-214 | The corrected remote layout and its two error cases, at byte level. |
| Wire.RemoteAsWrittenRaises | mustaine/encoder.py:211-214 | The remote rule as written never returns bytes. Where the corrected rule succeeds it raises TypeError, and otherwise it raises what the corrected rule raises. |
| Wire.RemoteCounterexample | mustaine/encoder.py:213-214 | For type name `S` and URL `u`, the corrected rule succeeds and the rule as written raises TypeError. |
| Scenarios.FortyTwo | mustaine/encoder.py:133-135 | `encode(42)` is `I 00 00 00 2A`. |
| Scenarios.FortyTwoObject | mustaine/encoder.py:263-265 | `encode_object(42)` is the same five bytes. |
| Scenarios.MinusOne | mustaine/encoder.py:133-135 | `encode(-1)` is `I FF FF FF FF`. |
| Scenarios.EmptyList | mustaine/encoder.py:183-186 | `encode([])` is `V l FF FF FF FF z`. |
| Scenarios.SingletonMap | mustaine/encoder.py:196-200 | `encode({'a': 1})` is `M S 00 01 a I 00 00 00 01 z`. |
| Scenarios.ChunkBoundary | mustaine/encoder.py:221-227 | The chunk shape for those lengths: any well-chunked reading of 65535 units is one terminal chunk of 65535; one of 65536 units is a full continuation chunk followed by a terminal chunk of one unit. With `ScalarRules.BinaryEncoding` this fixes the chunks of 65535- and 65536-byte blobs. |
| Scenarios.OverloadedCall | mustaine/encoder.py:231-258 | An overloaded call `foo(1, 'a')` at version 1 without headers is sent as method `foo_int_string` (14 bytes), with the bytes `c 01 00 m 00 0E foo_int_string I 00 00 00 01 S 00 01 a z`. |

## Left out

- The metaclass and descriptor machinery (`EncoderBase`, `encoder_method_wrapper`, `bound_function_wrapper`, the `functools` plumbing of `encoder_for`) is not modelled. The registry is an explicit list of (type, rule) pairs. The source collects them from the class dictionary, in whatever order that dictionary yields; every type is registered once, so the order does not affect which rule a value dispatches to. Inherited encoders from base classes do not arise for `Encoder` itself.
- `toposort.toposort_flatten` is not part of this model. `Dispatch.SortMro` is a deterministic linearisation: repeatedly take the pending type with the most registered ancestors. Its specification is proved: a permutation of the distinct registered types, descendants first, last registration winning. Where several orders meet that specification, the source's order among unrelated types may differ. Dispatch does not depend on it, because unrelated types never both match one value.
- The float-to-IEEE-754 conversion of `encode_double` is left out: a double is given as its 64-bit pattern.
- The `datetime` to `calendar.timegm` conversion is left out: a date is given as whole UTC seconds. Sub-second parts are dropped by `timetuple()` in the source.
- `__getstate__`, `type(obj).__module__` and `__name__` are not modelled. An object is given by its module name, class name and fields in `items()` order; `six.b` of the qualified name is taken to be its bytes.
- Python 3 is not modelled: there `str` and `six.text_type` collapse into one dictionary key and `encode_string` takes another path. Only Python 2 semantics are modelled.
- Text is a sequence of Unicode scalar values, encoded as a wide (UCS-4) build of Python 2 encodes it. Surrogate code points are not modelled: Python 2 joins a high surrogate followed by a low one into a single four-byte sequence, which the model's text type cannot hold. Narrow (UTF-16) builds are not modelled either: there `len()` and slicing count UTF-16 code units, so a character above U+FFFF counts as 2 in a chunk header.
- Utf8.Decode: it is strict UTF-8 decoding, so it rejects encoded surrogates, which Python 2's `decode('utf-8')` accepts. The encoder decodes only ASCII bytes (line 179), on which the two agree.
- The `six.b(arg)` conversion of a `unicode` argument in the argument loop (lines 247-248) is not modelled: `six.b` is the identity under Python 2, so the conversion changes nothing.
- A call's method name is taken to be a byte `str`. A `unicode` name makes the source's frame `unicode` text, or raises `UnicodeDecodeError` once a packed byte is 0x80 or above; this is not modelled.
- User subclasses of built-in types other than `Object` are not modelled: a value's class is one of the listed Python classes, a subclass of `Object`, or a class deriving from `object` alone.
- Self-referential values are not modelled: a Dafny datatype is well founded, so the unbounded recursion they would cause in the source cannot arise.
- Dispatch.SortMro: the postcondition says nothing about the relative order of unrelated types, for the reason above.

## Findings

| source | as written | input that shows it | evidently intended | confidence | as-written member | corrected member |
|---|---|---|---|---|---|---|
| mustaine/encoder.py:213-214 | `self.encode_string(obj.url)` goes through the registered wrapper, so it returns the pair `('string', bytes)`. Line 214 then adds that tuple to a byte string, which raises TypeError. | `Remote(type_name='S', url='u')` | `r`, `t`, the 16-bit name length, the name, then the URL's string encoding | not executed | Wire.RemoteCounterexample | ScalarRules.RemoteEncoding |

The encoder uses the corrected rule (`Wire.EncodeRemote`). `Wire.EncodeRemoteAsWritten` models line 213-214 as written, and `Wire.RemoteAsWrittenRaises` shows that it raises for every input.
