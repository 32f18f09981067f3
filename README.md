# protobuf-cpp wire codec, modelled in Dafny

protobuf-cpp is a small C++20 library. It writes a plain struct in the
Protocol Buffers wire format and reads it back. The struct has no generated
code; it lists its members in a `members` type. This project models the
library's core and proves properties of the model:

- **Varint** (`VarintCodec`, `VarintFree`): base-128 integers with a
  continuation bit. This covers the zigzag constructor for signed integral
  types and `as<T>()`.
- **Fixint** (`FixintCodec`) and the stand-alone **Fixed32** class
  (`Fixed32Codec`): 4- or 8-byte little-endian payloads.
- **Varlen** (`VarlenCodec`): a varint length followed by raw bytes.
- **Key** (`Keys`): `field << 3 | wire_type` packed into 64 bits.
- **Record** (`Records`): a key followed by one payload. The payload is a
  Varint, a `Fixint<uint32_t>`, a `Fixint<uint64_t>` or a Varlen.
- **Utils** (`Utils`): the generic `serialize(t)`, which allocates exactly
  `size()` bytes.
- **Encoding** (`Encoding`): a struct becomes a schema, the list of its member
  types. An integral or `bool` member is encoded as a Varint, a `float` as
  `Fixint<uint32_t>` and a `double` as `Fixint<uint64_t>`.
- **Serialize** (`StructSerialize`): one record per member, with field numbers
  counting up from 1.
- **MemberTuples** (`MemberTuples`): `set(field, value, tuple)`.
- **Deserialize** (`StructDeserialize`): the decoding loop. It reads a key,
  skips fields it does not know, reads the payload for the key's wire type
  and stores it in member `field - 1`.
- **Facts** (`Facts`): stock lemmas about integer arithmetic and sequences
  that the proofs lean on. It models nothing of the library.

How the model represents the C++ code:

- The C++ value classes become datatypes, and so do the pure functions. A
  loop in the source is a method with loop invariants:
  - the varint encoder and decoder;
  - the byte loops of `Fixed32`;
  - the copy in `Varlen::serialize`;
  - the member loop of `serialize(obj)`;
  - the slot loop of `set`;
  - the `while` loop of `deserialize<Obj>`.
- Each such method is proved against a specification function. The
  properties the library relies on are proved as lemmas about those
  functions.
- Integer widths are explicit. `Field` and the key are 64-bit unsigned with
  wrap-around. Signed zigzag arithmetic is done in the promoted type, as
  C++20 specifies.
- A thrown exception is an `Err` of `Result`. A `serialize(span)` that is
  called with a span too short reports `Err(NotEnoughSpace)` and writes
  nothing.
- A struct value is the list of its member values:
  - integers are their values;
  - `bool` is 0 or 1;
  - `float` and `double` are their IEEE-754 bit patterns.

The model follows the code where it departs from the Protocol Buffers format.
A lemma states each such behaviour:

- An unterminated varint reports every remaining byte as read
  (`VarintCodec.UnterminatedReadsEverything`).
- `Varlen::deserialize` takes everything after the length prefix as the
  payload, not just `length` bytes (`VarlenCodec.OverConsumes`).
- `Record::deserialize` hides a payload that read nothing
  (`Records.PayloadFailureHidden`).
- The struct decoder skips only the key of an unknown field, so it reads the
  field's payload as the next key (`StructDeserialize.UnknownFieldPayloadReadAsKey`).
- The struct decoder reads FIXED64, LEN and FIXED32 payloads at offset
  `key bytes` of the whole input rather than at the current position. For a
  struct of two floats, the second member gets the first member's value
  (`StructDeserialize.Fixed32ReadsFromWrongOffset`).
- A known field with wire type 3, 4, 6 or 7 is skipped without error
  (`StructDeserialize.ReservedWireTypeSkipped`).
- Field number 0 wraps to the largest index and is rejected
  (`StructDeserialize.FieldZeroRejected`).
- An `int32` survives the zigzag round trip only on [-2^30, 2^30). The shift
  `value << 1` happens in 32-bit `int` and its result is then sign-extended
  to 64 bits (`VarintCodec.ZigzagRoundTrip`).
- `set` of MemberTuples stores a Varint's raw, still zigzagged value
  (`MemberTuples.StoresZigzaggedValue`).

The central theorem is `StructDeserialize.RoundTrip`. For a struct whose
members all travel as Varints, `deserialize(serialize(obj)) == obj`, as long
as no `int32` member lies outside [-2^30, 2^30).

## Model

| member | source | states |
|---|---|---|
| Wire.Truncate | include/protobuf-cpp/Fixint.h:89-91 | `static_cast` to an integral type gives a value of that type, congruent to the input modulo 2^bits, and the input itself when it already fits |
| VarintCodec.Encode | include/protobuf-cpp/Varint.h:64-83 | the encoding of any value is at least one byte long |
| VarintCodec.Size | include/protobuf-cpp/Varint.h:85-92 | `size()` is at least 1, also for the value 0 |
| VarintCodec.Decode | include/protobuf-cpp/Varint.h:40-57 | the decoder never reads past the end of the input, reads nothing exactly when the input is empty, and gives the value 0 then |
| VarintCodec.FromIntegral | include/protobuf-cpp/Varint.h:22-27 | an unsigned value is stored as it is, and 0 is stored as 0 for a signed type too |
| VarintCodec.As | include/protobuf-cpp/Varint.h:29-38 | `as<T>()` gives a value of T; for an unsigned T it gives the stored value itself when that fits T |
| VarintCodec.EncodeContinuationBits | include/protobuf-cpp/Varint.h:69-81 | every byte of the encoding except the last has the continuation bit set; the last byte does not |
| VarintCodec.SizeIsEncodedLength | include/protobuf-cpp/Varint.h:85-92 | `size()`, computed from `bit_width`, is the number of bytes `serialize` writes |
| VarintCodec.SizeRange | include/protobuf-cpp/Varint.h:85-92 | a 64-bit value takes between 1 and 10 bytes |
| VarintCodec.SizeBoundaries | test/test_varint.cpp:5-16 | 2^(7i) - 1 takes i bytes and 2^(7i) takes i + 1 bytes, for 1 <= i < 10; 2^64 - 1 takes 10 bytes |
| VarintCodec.EncodeLiterals | test/test_record.cpp:18-22 | 0 encodes as [0x00] and 150 as [0x96, 0x01], with sizes 1 and 2 |
| VarintCodec.ReadLength | include/protobuf-cpp/Varint.h:47-55 | the decoder reads at most the whole input, and reads nothing exactly when the input is empty |
| VarintCodec.ReadLengthStopsAtTerminator | include/protobuf-cpp/Varint.h:47-55 | reading stops right after the first byte without the continuation bit, or at the end of the input |
| VarintCodec.RoundTrip | include/protobuf-cpp/Varint.h:40-83 | decoding the encoding of v, followed by any bytes, gives v with `size()` bytes read |
| VarintCodec.DecodeIgnoresTail | include/protobuf-cpp/Varint.h:47-55 | bytes after a terminated varint do not change what is decoded |
| VarintCodec.UnterminatedReadsEverything | include/protobuf-cpp/Varint.h:47-56 | an input without a terminating byte is reported as read in full |
| VarintCodec.Serialize | include/protobuf-cpp/Varint.h:64-83 | a span shorter than `size()` gives NotEnoughSpace and leaves the buffer alone; otherwise exactly the encoding is written at the offset and `size()` is returned |
| VarintCodec.Deserialize | include/protobuf-cpp/Varint.h:40-57 | the shift-and-or loop computes the decoded value and byte count of the specification function |
| VarintCodec.UnsignedRoundTrip | include/protobuf-cpp/Varint.h:22-38 | an unsigned value is stored unchanged and `as<T>()` returns it |
| VarintCodec.ZigzagSmallValues | include/protobuf-cpp/Varint.h:22-27 | signed 0, -1 and 1 are stored as 0, 1 and 2 |
| VarintCodec.ZigzagNonNegative | include/protobuf-cpp/Varint.h:22-38 | a non-negative signed value (below 2^30 for an int32) is stored as 2n and comes back |
| VarintCodec.ZigzagRoundTrip64 | include/protobuf-cpp/Varint.h:22-38 | every int64 value comes back from `as<int64_t>()` |
| VarintCodec.ZigzagRoundTripNarrow | include/protobuf-cpp/Varint.h:22-38 | every int8 and int16 value comes back from `as<T>()` |
| VarintCodec.ZigzagRoundTrip32 | include/protobuf-cpp/Varint.h:22-38 | an int32 comes back on [-2^30, 2^30); at or above 2^30 it comes back as n - 2^31, and below -2^30 as n + 2^31 |
| VarintCodec.Zigzag32LargePositive | include/protobuf-cpp/Varint.h:22-38 | an int32 at or above 2^30 comes back as n - 2^31 |
| VarintCodec.Zigzag32LargeNegative | include/protobuf-cpp/Varint.h:22-38 | an int32 below -2^30 comes back as n + 2^31 |
| VarintCodec.ZigzagRoundTrip | include/protobuf-cpp/Varint.h:22-38 | a signed value comes back from `as<T>()` if and only if it is not an int32 outside [-2^30, 2^30) |
| VarintFree.SerializeVarint | include/protobuf-cpp/varint.h:9-21 | the free `serialize_varint` produces the same bytes as `Varint::serialize`, `size()` of them |
| VarintFree.DeserializeVarint | include/protobuf-cpp/varint.h:23-36 | the free `deserialize_varint` returns the value `Varint::deserialize` decodes, and 0 for empty input |
| VarintFree.EncodedLengths | test/test_varint.cpp:5-16 | the encoded lengths of 0, of 2^(7i) - 1, of 2^(7i) and of 2^64 - 1 are 1, i, i + 1 and 10 bytes |
| VarintFree.RoundTrip | include/protobuf-cpp/varint.h:9-36 | `deserialize_varint(serialize_varint(v)) == v` |
| FixintCodec.WireTypeOf | include/protobuf-cpp/Fixint.h:27-29 | the wire type is FIXED32 exactly for 4-byte storage and FIXED64 exactly for 8-byte storage |
| FixintCodec.FromIntegral | include/protobuf-cpp/Fixint.h:33-36 | a non-negative value is stored as it is; a negative one as value + 2^32 or value + 2^64 |
| FixintCodec.Size | include/protobuf-cpp/Fixint.h:109-111 | `size()` is 4 exactly for 4-byte storage and 8 exactly for 8-byte storage |
| FixintCodec.LittleEndian | include/protobuf-cpp/Fixint.h:101-105 | writing n bytes of storage gives exactly n bytes |
| FixintCodec.Deserialize | include/protobuf-cpp/Fixint.h:47-67 | the result has the requested storage; nothing is read exactly when the input is shorter than the width, and the value is 0 then; otherwise the width is read and the value is the little-endian number of the first width bytes |
| FixintCodec.As | include/protobuf-cpp/Fixint.h:89-91 | `as<T>()` gives a value of T, and the stored value itself when it fits T |
| FixintCodec.FromLittleEndianOfLittleEndian | include/protobuf-cpp/Fixint.h:55-63 | assembling the little-endian bytes of v gives back v |
| FixintCodec.LittleEndianOfFromLittleEndian | include/protobuf-cpp/Fixint.h:55-63 | the bytes of an assembled value are the bytes it was assembled from |
| FixintCodec.FromLittleEndianAppend | include/protobuf-cpp/Fixint.h:55-63 | or-ing in one more byte adds it shifted by 8 times its position |
| FixintCodec.LittleEndianByte | include/protobuf-cpp/Fixint.h:101-105 | byte i written is `(value >> 8i) & 0xFF` |
| FixintCodec.RoundTrip | include/protobuf-cpp/Fixint.h:47-107 | decoding the serialized bytes, followed by any bytes, gives the same Fixint with `size()` bytes read |
| FixintCodec.DeserializeIgnoresExcess | include/protobuf-cpp/Fixint.h:50-66 | with at least `size()` bytes, only the first 4 or 8 matter, exactly that many are read, and they are the value's encoding |
| FixintCodec.IntegralRoundTrip | include/protobuf-cpp/Fixint.h:33-36 | an integral value no wider than the storage comes back unchanged from `as<T>()` |
| FixintCodec.Serialize | include/protobuf-cpp/Fixint.h:96-107 | a span shorter than the width gives NotEnoughSpace and leaves the buffer alone; otherwise the little-endian bytes are written and the width is returned |
| Fixed32Codec.Fixed32.constructor | include/protobuf-cpp/Fixed32.h:13 | the new object holds the given value |
| Fixed32Codec.Fixed32.SetValue | include/protobuf-cpp/Fixed32.h:33 | afterwards `value()` is the new value |
| Fixed32Codec.Fixed32.Deserialize | include/protobuf-cpp/Fixed32.h:15-27 | fewer than four bytes gives 0 with nothing read; otherwise it gives the little-endian value of the first four bytes, four bytes read, as `Fixint<uint32_t>` does |
| Fixed32Codec.Fixed32.Serialize | include/protobuf-cpp/Fixed32.h:35-42 | byte i is `(value >> 8i) & 0xFF`, the encoding `Fixint<uint32_t>` writes |
| Fixed32Codec.RoundTrip | include/protobuf-cpp/Fixed32.h:15-42 | reading back the four serialized bytes, followed by anything, gives the value |
| VarlenCodec.Encode | include/protobuf-cpp/Varlen.h:57-70 | the encoding is the varint of the payload length followed by the payload, `size()` bytes in all |
| VarlenCodec.Size | include/protobuf-cpp/Varlen.h:76-78 | `size()` exceeds the payload length, because the length prefix takes at least one byte |
| VarlenCodec.Deserialize | include/protobuf-cpp/Varlen.h:31-47 | the decoder reads nothing or the whole input, and when it reads nothing the payload is empty |
| VarlenCodec.OverConsumes | include/protobuf-cpp/Varlen.h:31-47 | bytes after a complete encoding are taken into the payload and counted as read |
| VarlenCodec.RoundTrip | include/protobuf-cpp/Varlen.h:31-70 | decoding the encoding on its own gives the value with `size()` bytes read |
| VarlenCodec.ReadsAllOrNothing | include/protobuf-cpp/Varlen.h:31-47 | the decoder reads nothing or the whole input; it reads nothing exactly when the input is empty or shorter than the declared length; on success the payload is everything after the prefix |
| VarlenCodec.EmptyInput | include/protobuf-cpp/Varlen.h:39-42 | empty input gives an empty payload with 0 bytes read |
| VarlenCodec.ShortInput | include/protobuf-cpp/Varlen.h:39-42 | a declared length of 5 with two bytes behind it gives an empty payload with 0 bytes read |
| VarlenCodec.EncodeLiteral | include/protobuf-cpp/Varlen.h:49-78 | the four bytes [0x00, 0xFF, 0xAA, 0x0F] serialize as [0x04, 0x00, 0xFF, 0xAA, 0x0F], size 5 |
| VarlenCodec.Serialize | include/protobuf-cpp/Varlen.h:57-70 | a span shorter than `size()` gives NotEnoughSpace and leaves the buffer alone; otherwise the length varint and then the payload are written and `size()` is returned |
| VarlenCodec.Copy | include/protobuf-cpp/Varlen.h:66-68 | the copy writes the payload at the offset and nothing else |
| VarlenCodec.SerializeToVector | include/protobuf-cpp/Varlen.h:49-55 | `serialize()` returns exactly the encoding, `size()` bytes |
| Keys.FromVarint | include/protobuf-cpp/Key.h:11-12 | a key from a varint holds the varint's value |
| Keys.FromField | include/protobuf-cpp/Key.h:14-16 | whatever the field number, the key gives back the wire type it was built with |
| Keys.Unpack | include/protobuf-cpp/Key.h:18-26 | a key's value is eight times its field number plus its wire type |
| Keys.LessIsLexicographic | include/protobuf-cpp/Key.h:28 | for every pair of keys, the defaulted `<` holds exactly when the field number is smaller, or the same with a smaller wire type |
| Keys.FieldNumber | include/protobuf-cpp/Key.h:21-23 | the field number is below 2^61 |
| Keys.FromFieldPacks | include/protobuf-cpp/Key.h:14-26 | the key is `field * 8 + wire_type` modulo 2^64; its wire type is the given one and its field number is the field modulo 2^61 |
| Keys.SmallFieldPacks | include/protobuf-cpp/Key.h:14-16 | for a field number below 2^61 the packing does not wrap |
| Keys.FieldRoundTrip | include/protobuf-cpp/Key.h:14-23 | the field number comes back if and only if it is below 2^61 |
| Keys.UnpackRepack | include/protobuf-cpp/Key.h:14-26 | packing a key's field number and wire type gives the key back |
| Keys.Literals | test/test_record.cpp:10-12 | field 1 with VARINT is key 0x08, and field 1 with FIXED32 is key 0x0D |
| Keys.OrderIsLexicographic | include/protobuf-cpp/Key.h:28 | for field numbers below 2^61, keys compare by field number first and wire type second |
| Records.WireTypeOf | include/protobuf-cpp/Record.h:24-25 | each payload type has its own wire type: VARINT, LEN, FIXED32 or FIXED64 |
| Records.DefaultPayload | include/protobuf-cpp/Record.h:31 | `Type{}` is a payload of the requested type |
| Records.EncodePayload | include/protobuf-cpp/Record.h:58 | a payload's encoding is `size()` bytes long |
| Records.DeserializePayload | include/protobuf-cpp/Record.h:39-40 | the payload decoded is of the requested type |
| Records.FromField | include/protobuf-cpp/Record.h:24-25 | the record holds the payload under a key with the payload's wire type and, below 2^61, the given field number |
| Records.Size | include/protobuf-cpp/Record.h:71-73 | `size()` exceeds the payload's size, because the key takes at least one byte |
| Records.Deserialize | include/protobuf-cpp/Record.h:27-48 | the only error is WrongWireType; a decoded record has the requested payload type and a key whose wire type matches it; nothing is read only when the input is empty |
| Records.Encode | include/protobuf-cpp/Record.h:50-60 | a record's encoding is `size()` bytes long |
| Records.PayloadRoundTrip | include/protobuf-cpp/Record.h:39-40 | decoding a payload's encoding, followed by any bytes unless the payload is a Varlen, gives it back with `size()` bytes read |
| Records.RoundTrip | include/protobuf-cpp/Record.h:27-60 | decoding a well-typed record's encoding, followed by any bytes unless the payload is a Varlen, gives the record with `size()` bytes read, and re-serializing it yields the same bytes |
| Records.FromFieldRoundTrip | include/protobuf-cpp/Record.h:24-48 | a record built from a field number below 2^61 decodes with the same field number and payload |
| Records.EmptyInput | include/protobuf-cpp/Record.h:29-32 | empty input gives the default record, field 0, with 0 bytes read |
| Records.WrongWireTypeExactly | include/protobuf-cpp/Record.h:34-37 | on non-empty input the decoder fails, with WrongWireType, exactly when the key's wire type is not the payload type's |
| Records.PayloadFailureHidden | include/protobuf-cpp/Record.h:39-47 | a payload that reads nothing is not an error: the record is returned with only the key's bytes counted |
| Records.PayloadFailureExample | include/protobuf-cpp/Record.h:39-47 | the lone byte 0x08 decodes as field 1 with Varint 0 and one byte read |
| Records.VarintLiteral | test/test_record.cpp:8-34 | field 1 with Varint 150 serializes as [0x08, 0x96, 0x01] and decodes back with three bytes read |
| Records.FixintLiteral | test/test_record.cpp:37-62 | field 1 with `Fixint<uint32_t>` 150 serializes as [0x0D, 0x96, 0x00, 0x00, 0x00] and decodes back with five bytes read |
| Records.SerializePayload | include/protobuf-cpp/Record.h:58 | a payload is written like its own `serialize(span)`: NotEnoughSpace on a short span, otherwise its encoding |
| Records.Serialize | include/protobuf-cpp/Record.h:50-60 | a span shorter than `size()` gives NotEnoughSpace and leaves the buffer alone; otherwise the key varint and then the payload are written and `size()` is returned |
| Utils.SerializeRecord | include/protobuf-cpp/Utils.h:16-20 | `serialize(record)` returns exactly the record's encoding, `size()` bytes |
| Utils.SerializePayload | include/protobuf-cpp/Utils.h:16-20 | `serialize(payload)` returns exactly the payload's encoding, `size()` bytes |
| Encoding.Cast | include/protobuf-cpp/Fixint.h:89-91 | `static_cast<M>`: the result is a value of M; for an integral type it is congruent to the input and equal to it when it fits; for `bool` it is 1 exactly for a non-zero input |
| Encoding.SlotIndex | include/protobuf-cpp/Deserialize.h:115-116 | `field - 1` in 64-bit unsigned arithmetic: field - 1 for a field of at least 1, and 2^64 - 1 for field 0 |
| Encoding.EncodingKind | include/protobuf-cpp/Encoding.h:23-37 | integral and bool members travel as VARINT, float as FIXED32, and double as FIXED64 |
| Encoding.EncodeMember | include/protobuf-cpp/Serialize.h:18-20 | the encoded member is a payload of the member's encoding type |
| Encoding.EncodingIsInterpretable | include/protobuf-cpp/Concepts.h:19-22 | each member's own encoding type offers `as<M>()` for that member's type |
| StructSerialize.EncodeFromLength | include/protobuf-cpp/Serialize.h:27-36 | the output length is the sum of the records' sizes |
| StructSerialize.Serialized | include/protobuf-cpp/Serialize.h:27-36 | `serialize(obj)` returns at most 20 bytes per member, and nothing for a struct without members |
| StructSerialize.EncodeFromStep | include/protobuf-cpp/Serialize.h:27-36 | the records from member i on are member i's record followed by the records from member i + 1 on |
| StructSerialize.SizeFromStep | include/protobuf-cpp/Serialize.h:27-36 | the size of the records from member i on is member i's record size plus the size of those from member i + 1 on |
| StructSerialize.SplitConcat | include/protobuf-cpp/Serialize.h:27-36 | the records from member j on are the records of members j up to i, followed by the records from member i on |
| StructSerialize.TotalLengthShrinks | include/protobuf-cpp/Serialize.h:27-36 | the records from member i on take no more bytes than those from any earlier member j |
| StructSerialize.MemberRecordBound | include/protobuf-cpp/Serialize.h:18-22 | one member's record takes between 2 and 20 bytes |
| StructSerialize.SizeFromBound | include/protobuf-cpp/Serialize.h:27-36 | the output takes at most 20 bytes per member |
| StructSerialize.EmptyStruct | include/protobuf-cpp/Serialize.h:27-36 | a struct without members serializes to nothing |
| StructSerialize.TwoMembers | include/protobuf-cpp/Serialize.h:27-36 | a two-member struct serializes to the record of field 1 followed by the record of field 2 |
| StructSerialize.MemberRecordShape | include/protobuf-cpp/Serialize.h:18-24 | member i's record has field number i + 1 (for fewer than 2^61 members), the wire type of the member's encoding, and the member's encoded value |
| StructSerialize.SuffixOfEncoding | include/protobuf-cpp/Serialize.h:27-36 | the records of members i and after form a suffix of the output |
| StructSerialize.ExtendRange | include/protobuf-cpp/Serialize.h:23 | appending member i's record to the records of members j up to i gives the records of members j up to i + 1 |
| StructSerialize.FieldStep | include/protobuf-cpp/Serialize.h:24 | the 64-bit field counter after member i is the counter of member i + 1 |
| StructSerialize.SerializeMemberField | include/protobuf-cpp/Serialize.h:15-25 | the buffer grows by exactly the member's record under the current field number, and the counter grows by one modulo 2^64 |
| StructSerialize.Serialize | include/protobuf-cpp/Serialize.h:27-36 | the output is the records of all members in declaration order, field numbers from 1, with nothing between and nothing after them |
| StructDeserialize.Interpret | include/protobuf-cpp/Deserialize.h:98-109 | `set_if_correct_type` succeeds exactly when the payload type offers `as<M>()` for the member's type, gives a value of that type, and fails with IncompatibleType otherwise |
| StructDeserialize.SetFieldInObj | include/protobuf-cpp/Deserialize.h:111-128 | the error is NoSuchField exactly when `field - 1` is past the members; otherwise only member `field - 1` changes, to the interpreted payload, or the interpretation's error is returned |
| StructDeserialize.Store | include/protobuf-cpp/Deserialize.h:53-55 | a successful store moves the position to the given end and keeps the object's shape |
| StructDeserialize.Step | include/protobuf-cpp/Deserialize.h:30-92 | a successful iteration moves the position forward and keeps the object's shape |
| StructDeserialize.PayloadStep | include/protobuf-cpp/Deserialize.h:46-92 | a successful payload step does not move the position back past the key |
| StructDeserialize.DecodeFrom | include/protobuf-cpp/Deserialize.h:30-95 | the loop returns an object with one value per member |
| StructDeserialize.Decode | include/protobuf-cpp/Deserialize.h:25-96 | a successful `deserialize<Obj>` gives one value per member, and empty input gives the initial object |
| StructDeserialize.Iterate | include/protobuf-cpp/Deserialize.h:30-93 | one pass and the rest of the loop return an object with one value per member |
| StructDeserialize.KeyAlwaysRead | include/protobuf-cpp/Deserialize.h:30-35 | inside the loop a key is always read, so the key-parse error cannot occur |
| StructDeserialize.EmptyInput | include/protobuf-cpp/Deserialize.h:26-30 | empty input returns the initial object unchanged |
| StructDeserialize.UnknownFieldSkipsKeyOnly | include/protobuf-cpp/Deserialize.h:39-44 | a field number above the member count moves the position past the key only |
| StructDeserialize.ReservedWireTypeSkipped | include/protobuf-cpp/Deserialize.h:46-92 | a known field with wire type 3, 4, 6 or 7 moves the position past the key only, without error |
| StructDeserialize.MissingVarintValue | include/protobuf-cpp/Deserialize.h:47-52 | the lone key 0x08 with no value behind it is the value-parse error |
| StructDeserialize.FieldZeroRejected | include/protobuf-cpp/Deserialize.h:116-121 | field 0 passes the unknown-field test, wraps to the largest index and is NoSuchField |
| StructDeserialize.IncompatiblePayloads | include/protobuf-cpp/Deserialize.h:102-108 | a LEN payload for an integer member and a VARINT payload for a float member are IncompatibleType |
| StructDeserialize.MemberRoundTrip | include/protobuf-cpp/Deserialize.h:98-109 | a member comes back through its own encoding and `as<M>()` if and only if it is not an int32 outside [-2^30, 2^30) |
| StructDeserialize.MemberKeyFields | include/protobuf-cpp/Serialize.h:20-21 | in a Varint-only struct, member i's key has field number i + 1 and wire type VARINT |
| StructDeserialize.VarintMemberBytes | include/protobuf-cpp/Serialize.h:20-23 | the records of a Varint-only struct are the key varint, then the value varint, then the remaining records |
| StructDeserialize.SerializedChain | include/protobuf-cpp/Deserialize.h:30-93 | over the serialized bytes of a Varint-only struct, each member's record takes the loop from one record boundary to the next and stores that member's value |
| StructDeserialize.StepOverVarintRecord | include/protobuf-cpp/Deserialize.h:30-57 | one iteration over a key and a value varint for a known field stores the value and moves past both |
| StructDeserialize.DecodeRecordsAt | include/protobuf-cpp/Deserialize.h:30-95 | resumed at member i's record with the first i members already set, the loop returns the whole object |
| StructDeserialize.RoundTrip | include/protobuf-cpp/Deserialize.h:26-95 | `deserialize(serialize(obj)) == obj` for a struct whose members all travel as Varints, with no int32 outside [-2^30, 2^30) |
| StructDeserialize.TrivialStructs | test/test_trivial_struct.cpp:10-32 | a struct of one uint32 42, and a struct of two uint32s 42 and 150, come back unchanged |
| StructDeserialize.Fixed32ReadsFromWrongOffset | include/protobuf-cpp/Deserialize.h:81-90 | for a struct of two floats a and b, deserializing the serialized bytes gives [a, a] |
| StructDeserialize.TwoFloatsLayout | include/protobuf-cpp/Serialize.h:27-36 | two floats serialize as 0x0D, the bytes of a, 0x15, the bytes of b |
| StructDeserialize.UnknownFieldPayloadReadAsKey | include/protobuf-cpp/Deserialize.h:39-52 | with one member, [0x10, 0x08] skips the key of field 2, reads its payload 0x08 as a key for field 1, and fails on the missing value |
| StructDeserialize.Deserialize | include/protobuf-cpp/Deserialize.h:25-96 | the `while` loop returns what the specification function `Decode` defines |
| StructDeserialize.ReadRecord | include/protobuf-cpp/Deserialize.h:31-92 | one loop body computes what `Step` defines |
| StructDeserialize.ReadPayload | include/protobuf-cpp/Deserialize.h:46-92 | the `switch` on the wire type computes what `PayloadStep` defines |
| MemberTuples.AssignValue | include/protobuf-cpp/MemberTuples.h:51-71 | an integer or a Varint or Fixint (through its `value()`) converts to a value of the slot's type; a Varlen, and only a Varlen, throws IncompatibleType |
| MemberTuples.StoresZigzaggedValue | include/protobuf-cpp/MemberTuples.h:58-60 | the Varint of -1 lands in a signed slot as 1, though `as<T>()` would give -1 |
| MemberTuples.StoresFittingInteger | include/protobuf-cpp/MemberTuples.h:56-57 | an integer that fits the slot's type is stored unchanged |
| MemberTuples.Set | include/protobuf-cpp/MemberTuples.h:73-87 | with no slot at `field - 1` nothing changes; when the assignment throws nothing changes; otherwise exactly slot `field - 1` receives the converted value |

## Left out

- Exceptions become `Err` values of a `Result`. The model does not capture unwinding, or what a caller sees of a half-updated object after a throw.
- VarintCodec.Deserialize: a 64-bit shift by 64 or more is undefined behaviour in C++. The model lets such a byte contribute nothing, which is the mathematical value of a 64-bit shift.
- `set_value` of Varint and Fixint is not modelled: the core never calls it, and the model's Varint and Fixint are immutable values. `Fixed32::set_value` is modelled.
- Floating point is not modelled. A `float` or `double` is its IEEE-754 bit pattern, and the conversions between float, double and integers are stand-in functions passed as a `FloatConversions` parameter.
- FixintCodec: the floating-point constructor (`bit_cast`) and the floating-point `as<T>()` are the identity on bit patterns. The width-changing cases of `as<T>()` use the `FloatConversions` stand-ins inside `StructDeserialize.Interpret`.
- User specialisations of `MemberEncoding` for single members are not modelled: every member uses the default encoding of its type. `test::SingleInt_asFixed`, used by test/test_trivial_struct.cpp:34-44, is not declared in test/TestTypes.h, and the `MemberEncoding` specialisation it relies on is not modelled.
- src/Operators.cpp (stream output of `Field`) is not part of this model: it is I/O.
- `size_t` overflow of byte counts is not modelled. Decoder inputs are shorter than 2^64 bytes and the model adds counts in unbounded integers.
- Templates, concepts and fold expressions are resolved by hand. A struct is its schema, the list of its member types, and a struct type that fails a concept is not a value of the model.
- StructDeserialize.RoundTrip: proved only for structs whose members all travel as Varints (integral and bool members), with fewer than 2^61 members and no int32 outside [-2^30, 2^30). For float and double members the round trip does not hold as written (`Fixed32ReadsFromWrongOffset`).
- The default-initialised `Obj obj;` of `deserialize<Obj>` is an input, because its member values are whatever the struct's default member initialisers give.
- The `Record::serialize()` that takes no arguments, which tests call, is modelled as `Utils.SerializeRecord`, the generic `serialize(t)`.
