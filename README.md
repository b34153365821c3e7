# BinMsg in Dafny

A model of `binmsg`, a schema-driven binary record codec. A schema is an
ordered list of field definitions. Each definition has a name, a codec and
an optional condition. `pack` turns a record (field name to value) into
bytes by concatenating each field's encoding in schema order. `unpack`
walks the schema with a cursor over the bytes. It skips fields whose name
is already decoded or whose condition is false on what has been decoded so
far, and reads every other field at the cursor.

Modules:

- `BigEndian`: unsigned big-endian numbers of a fixed byte width (the `!`
  formats of Python's `struct` module).
- `Structs`:
  - the codecs `UnsignedChar`, `Char`, `Integer`, `UnsignedInteger`, `BigInteger`, `UnsignedBigInteger` and `String`;
  - their widths and `_min`/`_max` domains;
  - two's complement for the signed kinds;
  - the length-prefixed string layout.
- `Conditions`: the condition tree (`Always`, `Contains`, `ValueIs`, `Or`, `And`) and its evaluation.
- `BinMsg`:
  - schema construction (`Build`);
  - `Pack` and `Unpack` as loops, each proved equal to a recursive specification (`Packed`, `UnpackFrom`);
  - the per-field packing checks.
- `RoundTrip`: what pack and unpack promise about each other.

Bytes are `int`s in `[0, 256)`. Strings are byte sequences that are already
UTF-8 encoded. A value is tagged with the type the codec converts it to
(`IntV`, `StrV`, `CharV`). A field of the wrong tag is the `CannotPack`
"invalid type" error.

Where the code differs from its evident intent, the model follows the
intent. Each case below is also noted in a comment beside the member:

- the `Contains` constructor spells its parameter `neagtion` but reads `negation`;
- `ValueIs.check` reads a bare `condition` instead of `self.condition`;
- `unpack` gates on `'condition' in output` and calls an unbound `condition`. The model evaluates the definition's own condition, as the schema-entry note at `binmsg/binmsg.py:294-298` describes;
- `unpack` stores a string's declared length on the shared codec (`custom_size`). The model passes it as a local;
- a length prefix that cannot be read is only logged by the source. The model makes it an unpack error (`BadPrefix`).

In these places the code is looser than a stricter codec would be. The model follows the code:

- `pack` does not consult conditions: a gated field's key is still required (`RoundTrip.ConditionalField`). A stricter codec would leave out a field whose condition is false;
- duplicate names are not rejected at construction;
- a string of length zero packs but is refused by `unpack`;
- a decoded string is its payload bytes. The code turns each byte into one character with `chr`, which is only right for one-byte characters; a stricter codec would decode the payload as UTF-8.

## Model

| member | source | states |
|---|---|---|
| BigEndian.DecodeEncode | binmsg/binmsg.py:50-54 | reading back the w-byte big-endian form of any n below 256^w gives n |
| BigEndian.EncodeDecode | binmsg/binmsg.py:50-54 | every byte string is the big-endian form, at its own width, of the number it reads as |
| BigEndian.ByteAt | binmsg/binmsg.py:50-54 | byte i of the encoding is the base-256 digit of weight 256^(w-1-i), so the most significant byte comes first |
| Structs.Size | binmsg/binmsg.py:38-40 | `size` is 1, 4 or 8 for the fixed kinds; a `String` has no size (`SizeNotDefined`) |
| Structs.Encode | binmsg/binmsg.py:53-54 | a codec's `pack` gives bytes only for a value of the kind's type: exactly `size` bytes for a fixed kind, prefix width plus payload length for a string |
| Structs.DecodeString | binmsg/binmsg.py:174-180 | `String.unpack` succeeds exactly when the payload has the declared length, and gives that payload |
| Structs.Min | binmsg/binmsg.py:77-136 | `_min` exists exactly for the integer kinds and is encodable; it is 0 exactly for the unsigned kinds, and for a signed kind the value one below it is still encodable, two below is not |
| Structs.SourceMax | binmsg/binmsg.py:78-137 | `_max` as written exists exactly for the integer kinds, cannot be encoded, and is one above an encodable value |
| Structs.Max | binmsg/binmsg.py:340-345 | the corrected upper bound is the largest encodable value: it encodes and the next value does not |
| Structs.DecodeFixed | binmsg/binmsg.py:50-51 | a fixed kind's `unpack` succeeds exactly on inputs of its size, and gives a value of the kind's type |
| Structs.FixedRoundTrip | binmsg/binmsg.py:71-141 | every fixed-width value that packs unpacks to itself |
| Structs.FixedDecodeEncode | binmsg/binmsg.py:71-141 | any byte string of a fixed kind's size unpacks, and the value packs back to the same bytes |
| Structs.IntegerLayout | binmsg/binmsg.py:94-141 | byte i of a packed integer is digit i, most significant first, of n or of n + 256^size when n is negative |
| Structs.StringLayout | binmsg/binmsg.py:182-191 | a string packs exactly when its length fits the prefix, into the prefix holding the byte count followed by the payload unchanged |
| Structs.DomainIsRepresentable | binmsg/binmsg.py:71-141 | every integer in [Min, Max], the bounds the corrected pack enforces, is encodable by the format, and Max + 1 is not |
| Structs.SourceMaxOffByOne | binmsg/binmsg.py:78-137 | each of the five `_max` values (lines 78, 101, 112, 125, 137) is one past the largest encodable value, and itself cannot be encoded |
| Structs.PackedUnsignedExamples | tests/tests.py:55-103 | '!B' 129 packs to 81 and '!I' 12345 to 00 00 30 39 |
| Structs.PackedNegativeExample | tests/tests.py:86-93 | '!i' -12345 packs to FF FF CF C7 |
| Structs.PackedBigExample | tests/tests.py:137-145 | '!q' 123456789 packs to 00 00 00 00 07 5B CD 15 |
| Structs.PackedStringExample | tests/tests.py:35-43 | "Test" packs to 00 00 00 04 followed by its four bytes |
| Conditions.MakeValueIs | binmsg/binmsg.py:253-267 | a `ValueIs` is built exactly when a string constant has `==`/`!=` and a number has one of the six comparators (a character constant takes any); otherwise the error names the comparator |
| Conditions.Compare | binmsg/binmsg.py:278-290 | a comparison holds only for one of the six known comparators, and an ordering comparison only between values of one type |
| Conditions.Eval | binmsg/binmsg.py:207-290 | `check`: a `ValueIs` holds only on a present field with a known comparator |
| Conditions.ContainsSemantics | binmsg/binmsg.py:239-247 | `Contains(f, negation)` holds exactly when f's presence differs from negation |
| Conditions.ValueIsSemantics | binmsg/binmsg.py:269-290 | `ValueIs` is false on an absent field and false for an unknown comparator |
| Conditions.ComparatorsComplement | binmsg/binmsg.py:278-289 | on a present value of the constant's type, `<`/`>=`, `>`/`<=` and `==`/`!=` are complements, and `<=` is `<` or `==` |
| Conditions.LexTrichotomy | binmsg/binmsg.py:282-289 | for the byte-string order used in string comparisons, exactly one of a < b, a == b, b < a holds |
| Conditions.LexTransitive | binmsg/binmsg.py:282-289 | that order is transitive, so with `LexTrichotomy` it is a strict total order, like Python's `<` on byte strings |
| Conditions.EvalDependsOnFields | binmsg/binmsg.py:207-222 | a condition's verdict, composed with `|`/`&` or not, depends only on the fields it names |
| Conditions.ComposedExample | binmsg/binmsg.py:199-204 | the docstring's `Contains(field="foo") & ValueIs(field="foo", value=4, condition="!=")` holds exactly when foo is present and not 4; `Contains("a") & ValueIs("b", 5, ">")` holds exactly when both parts do, and its `|` when either does |
| BinMsg.Build | binmsg/binmsg.py:301-308 | the schema is built exactly when every entry has 'name' and 'struct', and keeps them all in order; otherwise the first incomplete entry is reported, 'name' checked before 'struct' |
| BinMsg.CheckedPack | binmsg/binmsg.py:323-345 | one definition's share of pack: on success the value has the codec's type, lies within `_min` and the given upper bound, and the bytes are the codec's encoding; every error names the field |
| BinMsg.PackField | binmsg/binmsg.py:323-345 | with the corrected bound, success gives the codec's encoding, every error names the field, and an integer field never fails in the encoder |
| BinMsg.PackFieldAsWritten | binmsg/binmsg.py:323-345 | with `_max` as written, pack accepts exactly the values the corrected bound accepts, with the same bytes |
| BinMsg.Packed | binmsg/binmsg.py:318-346 | the bytes of `pack`; an error names one of the schema's fields |
| BinMsg.Pack | binmsg/binmsg.py:310-346 | the loop returns exactly the specification `Packed`: the bytes of every definition in order, or the first definition's error |
| BinMsg.PackedOk | binmsg/binmsg.py:319-345 | pack succeeds exactly when every definition's key is present and its value accepted |
| BinMsg.PackedFirstError | binmsg/binmsg.py:319-344 | a failed pack reports the error of the first refused definition in schema order and returns no bytes |
| BinMsg.PackedConcat | binmsg/binmsg.py:318-346 | packing schema a + b gives a's bytes followed by b's, or a's error |
| BinMsg.PackFieldInteger | binmsg/binmsg.py:325-345 | an integer field packs exactly when its value lies in [Min, Max] inclusive; below is TooSmall, above is TooBig, another type is InvalidType |
| BinMsg.PackFieldText | binmsg/binmsg.py:182-191 | string and character fields: wrong type is InvalidType, a character packs as its byte, a string as prefix and payload unless too long for the prefix |
| BinMsg.TestRejections | tests/tests.py:66-191 | -12345 as unsigned 32-bit and -1 as unsigned char are too small, and "x" for an unsigned char is an invalid type |
| BinMsg.MaxOffByOne | binmsg/binmsg.py:340-345 | as written, the value `_max` passes the bound check and is refused by `struct.pack`; with the corrected bound it is TooBig |
| BinMsg.ReadField | binmsg/binmsg.py:361-381 | a successful read consumes no more bytes than remain and gives a value of the codec's type |
| BinMsg.UnpackFrom | binmsg/binmsg.py:354-382 | unpack only consumes a prefix of the cursor, never changes a value already decoded, and adds only names of the schema |
| BinMsg.Unpacked | binmsg/binmsg.py:348-382 | the record `unpack` returns has only keys that the schema names |
| BinMsg.ReadAt | binmsg/binmsg.py:361-377 | one loop step's read equals the specification `ReadField` |
| BinMsg.Unpack | binmsg/binmsg.py:348-382 | the loop returns exactly the specification `Unpacked` |
| RoundTrip.ReadPackedField | binmsg/binmsg.py:361-381 | a packed non-empty field followed by any bytes reads back as its value and its own length |
| RoundTrip.ReadFieldExtend | binmsg/binmsg.py:375-377 | reading a field looks only at the bytes it consumes |
| RoundTrip.UnpackIgnoresTrailing | binmsg/binmsg.py:375-382 | bytes after the last field change nothing but what is left over |
| RoundTrip.SkippedField | binmsg/binmsg.py:355-360 | a definition already decoded or whose condition is false consumes no bytes, and adds no key that the rest of the schema does not read |
| RoundTrip.RoundTripFrom | binmsg/binmsg.py:310-382 | unpacking packed bytes followed by any trailer, from any partial output that shares no name with the schema, adds the record's values for the schema's names and leaves the trailer. It needs distinct names, no empty string, and each condition holding on the fields before it |
| RoundTrip.RoundTripGated | binmsg/binmsg.py:310-382 | unpack(pack(r)) is r restricted to the schema's names, under the same demands |
| RoundTrip.RoundTripUnconditional | tests/tests.py:45-51 | the same round trip for a schema without conditions |
| RoundTrip.RoundTripEarlierFields | binmsg/binmsg.py:294-298 | the same round trip when each condition names only earlier fields and holds on the record |
| RoundTrip.ReadFieldErrors | binmsg/binmsg.py:361-377 | for any bytes (with `String.unpack`'s length test at lines 178-179): a fixed field fails exactly when fewer bytes than its size remain (Truncated), and otherwise reads the value of its first `size` bytes and consumes exactly `size`; a string fails with BadPrefix when fewer bytes than the prefix remain, ZeroSize when the declared length is 0, LengthMismatch when the payload is shorter than declared, and otherwise reads exactly the declared payload |
| RoundTrip.ReadTruncatedField | binmsg/binmsg.py:372-377 | a strict prefix of a packed field does not read as a field |
| RoundTrip.TruncatedFails | binmsg/binmsg.py:362-377 | under the round-trip demands, unpacking any strict prefix of packed bytes fails |
| RoundTrip.ReadThenPack | binmsg/binmsg.py:361-381 | a field read from bytes packs back to exactly the bytes read, except the most negative signed value, which `_min` excludes |
| RoundTrip.UnpackThenPack | binmsg/binmsg.py:310-382 | for a schema without conditions, a record that unpack returns and pack accepts packs back to exactly the bytes unpack consumed |
| RoundTrip.IntegerMinimumUnpacksButDoesNotPack | binmsg/binmsg.py:100 | 80 00 00 00 unpacks as -2147483648, which pack refuses as below `_min` |
| RoundTrip.EmptyStringPacks | binmsg/binmsg.py:189-191 | the empty string packs to a zero length prefix |
| RoundTrip.EmptyStringDoesNotUnpack | binmsg/binmsg.py:372-374 | the packed empty string, 00 00 00 00, is refused by unpack with ZeroSize, so the empty string does not round-trip |
| RoundTrip.TestRecordPacks | tests/tests.py:35-43 | {type: 1, name: "Test", age: 20} packs to 01 00 00 00 04 "Test" 00 00 00 14 |
| RoundTrip.TestRecordRoundTrips | tests/tests.py:28-51 | those bytes unpack to exactly {type: 1, name: "Test", age: 20} |
| RoundTrip.ConditionalField | binmsg/binmsg.py:355-360 | with 'payload' gated on type == 3, packing {type: 2} fails for the missing key, and unpacking 02 skips 'payload' |

## Left out

- `Float` and `Double`: IEEE floating point.
- The generic `Struct(format)` wrapper: arbitrary `struct` format strings.
- The Python 2/3 switch and `unicode` encoding in `String.pack`: strings are modelled as bytes that are already encoded.
- The `chr` decoding of a string's bytes into characters: unpack returns the payload bytes.
- `Char`'s string-compared bounds `'\0'`..`'\256'`: a character is a single byte with no domain check.
- Logging.
- The in-place rewrapping of `check` by `__or__`/`__and__`: composition is modelled as `Or`/`And` constructors, evaluated left then right.
- Duck-typed coercion (`int("12")` succeeding): a value whose tag is not the codec's type is `InvalidType`.
- The "Msg should be dict" check: the record's type makes it impossible.
- Comparing values of different types: Python 3 raises `TypeError`; `Less` and `LessEq` are false.
- Length prefix formats other than the unsigned '!B', '!H', '!I' and '!Q'.
- Error kinds are coarser than the source's exception messages:
  - the `struct.error` a failed fixed-width read raises is `Truncated`;
  - the `struct.error` a refused `struct.pack` raises is `Unencodable`;
  - the `CannotPack` that `String.unpack` raises for a short payload is `LengthMismatch`;
  - the message-formatting `TypeError` in `ValueIs`'s string branch is `InvalidCondition`.
- BinMsg.UnpackFrom: after a failed prefix read the source goes on with a stale or unbound `size`. The model stops with `BadPrefix` instead.
- RoundTrip.ReadThenPack: `Char` values are covered with no domain check, as modelled.

## Findings

| source | as written | input that shows it | evidently intended | confidence | as-written member | corrected member |
|---|---|---|---|---|---|---|
| binmsg/binmsg.py:78 | `_max` of every integer kind is 256^size (or half of it when signed), one past the largest encodable value, so `value > _max` lets `_max` itself through to `struct.pack`, which raises `struct.error` | UnsignedChar with value 256 | `_max` is the largest encodable value (255, 2147483647, 4294967295, 9223372036854775807, 18446744073709551615), and the value `_max + 1` is reported as too big | medium (not executed; the class docstrings give the same bounds) | BinMsg.PackFieldAsWritten, BinMsg.MaxOffByOne | BinMsg.PackField, BinMsg.PackFieldInteger |
