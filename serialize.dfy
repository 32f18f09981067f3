/** The struct serializer of Serialize.h: one Record per member in
    declaration order, field numbers counting up from 1, each record's bytes
    appended to one growing buffer. */
module StructSerialize {
  import opened Wire
  import Facts
  import VarintCodec
  import Keys
  import Records
  import Utils
  import opened Encoding

  /** The field number of member i: the counter starts at 1 and is
      incremented once per member, in 64 bits. */
  function FieldOf(i: nat): Field
  {
    (i + 1) % TWO_64
  }

  /** The record `serialize_member_field` builds for member i: the member's
      encoding under field number `FieldOf(i)`. */
  function MemberRecord(schema: Schema, obj: seq<int>, i: nat): Records.Record
    requires Conforms(schema, obj) && i < |schema|
  {
    Records.FromField(FieldOf(i), EncodeMember(schema[i], obj[i]))
  }

  /** The bytes of the records `serialize` writes, one entry per member in
      declaration order. */
  function MemberBytes(schema: Schema, obj: seq<int>): (cs: seq<seq<byte>>)
    requires Conforms(schema, obj)
    ensures |cs| == |schema|
    ensures forall i :: 0 <= i < |schema| ==> cs[i] == Records.Encode(MemberRecord(schema, obj, i))
  {
    seq(|schema|, i requires 0 <= i < |schema| => Records.Encode(MemberRecord(schema, obj, i)))
  }

  /** The pieces cs[i..] one after another. */
  function Concat(cs: seq<seq<byte>>, i: nat): seq<byte>
    requires i <= |cs|
    decreases |cs| - i
  {
    if i == |cs| then [] else cs[i] + Concat(cs, i + 1)
  }

  /** The total length of the pieces cs[i..]. */
  function TotalLength(cs: seq<seq<byte>>, i: nat): nat
    requires i <= |cs|
    decreases |cs| - i
  {
    if i == |cs| then 0 else |cs[i]| + TotalLength(cs, i + 1)
  }

  /** The bytes of the records of members i.. in order. */
  function EncodeFrom(schema: Schema, obj: seq<int>, i: nat): seq<byte>
    requires Conforms(schema, obj) && i <= |schema|
  {
    Concat(MemberBytes(schema, obj), i)
  }

  /** The total size of the records of members i.. . */
  function SizeFrom(schema: Schema, obj: seq<int>, i: nat): nat
    requires Conforms(schema, obj) && i <= |schema|
  {
    TotalLength(MemberBytes(schema, obj), i)
  }

  /** What `serialize(obj)` returns. */
  function Serialized(schema: Schema, obj: seq<int>): (r: seq<byte>)
    requires Conforms(schema, obj)
    ensures |r| <= 20 * |schema|
    ensures |schema| == 0 ==> r == []
  {
    EncodeFromLength(schema, obj, 0);
    SizeFromBound(schema, obj, 0);
    EncodeFrom(schema, obj, 0)
  }

  // ------------------------------------------------------------------ lemmas

  /** The output length is the sum of the records' sizes: no header, no
      separator, no terminator. */
  lemma {:induction false} EncodeFromLength(schema: Schema, obj: seq<int>, i: nat)
    requires Conforms(schema, obj) && i <= |schema|
    ensures |EncodeFrom(schema, obj, i)| == SizeFrom(schema, obj, i)
  {
    ConcatLength(MemberBytes(schema, obj), i);
  }

  lemma {:induction false} ConcatLength(cs: seq<seq<byte>>, i: nat)
    requires i <= |cs|
    ensures |Concat(cs, i)| == TotalLength(cs, i)
    decreases |cs| - i
  {
    if i < |cs| {
      ConcatLength(cs, i + 1);
    }
  }

  /** The records of members i.. are member i's record, then those of i + 1.. . */
  lemma {:induction false} EncodeFromStep(schema: Schema, obj: seq<int>, i: nat)
    requires Conforms(schema, obj) && i < |schema|
    ensures EncodeFrom(schema, obj, i) == Records.Encode(MemberRecord(schema, obj, i)) + EncodeFrom(schema, obj, i + 1)
  {
  }

  /** The size of the records of members i.. is member i's record size plus
      that of members i + 1.. . */
  lemma {:induction false} SizeFromStep(schema: Schema, obj: seq<int>, i: nat)
    requires Conforms(schema, obj) && i < |schema|
    ensures SizeFrom(schema, obj, i) == Records.Size(MemberRecord(schema, obj, i)) + SizeFrom(schema, obj, i + 1)
  {
  }

  /** Every member's record takes at most 20 bytes: a key of at most ten
      varint bytes and a payload of at most ten (a Varint) or eight (a
      Fixint). */
  lemma {:induction false} MemberRecordBound(schema: Schema, obj: seq<int>, i: nat)
    requires Conforms(schema, obj) && i < |schema|
    ensures 2 <= Records.Size(MemberRecord(schema, obj, i)) <= 20
  {
    var r := MemberRecord(schema, obj, i);
    VarintCodec.SizeRange(r.key.value);
    match r.payload
    case PVarint(v) => VarintCodec.SizeRange(v.value);
    case PFixint(f) =>
    case PVarlen(l) => assert false;
  }

  /** The output takes at most 20 bytes per remaining member. */
  lemma {:induction false} SizeFromBound(schema: Schema, obj: seq<int>, i: nat)
    requires Conforms(schema, obj) && i <= |schema|
    ensures SizeFrom(schema, obj, i) <= 20 * (|schema| - i)
  {
    var cs := MemberBytes(schema, obj);
    forall k | i <= k < |schema|
      ensures |cs[k]| <= 20
    {
      MemberRecordBound(schema, obj, k);
    }
    PiecesAtMost20(cs, i);
  }

  /** Pieces of at most 20 bytes each take at most 20 bytes per piece. */
  lemma {:induction false} PiecesAtMost20(cs: seq<seq<byte>>, i: nat)
    requires i <= |cs| && forall k :: i <= k < |cs| ==> |cs[k]| <= 20
    ensures TotalLength(cs, i) <= 20 * (|cs| - i)
    decreases |cs| - i
  {
    if i < |cs| {
      PiecesAtMost20(cs, i + 1);
    }
  }

  /** A struct without members serializes to nothing. */
  lemma {:induction false} EmptyStruct(obj: seq<int>)
    requires Conforms([], obj)
    ensures Serialized([], obj) == []
  {
  }

  /** A two-member struct serializes to the record of field 1 followed by
      the record of field 2. */
  lemma {:induction false} TwoMembers(schema: Schema, obj: seq<int>)
    requires Conforms(schema, obj) && |schema| == 2
    ensures Serialized(schema, obj)
              == Records.Encode(Records.FromField(1, EncodeMember(schema[0], obj[0])))
                 + Records.Encode(Records.FromField(2, EncodeMember(schema[1], obj[1])))
  {
    EncodeFromStep(schema, obj, 0);
    EncodeFromStep(schema, obj, 1);
    assert EncodeFrom(schema, obj, 2) == [];
    assert EncodeFrom(schema, obj, 1) == Records.Encode(MemberRecord(schema, obj, 1)) + [];
  }

  /** Member i's record carries field number i + 1 (for fewer than 2^61
      members), the wire type of the member's encoding, and the member's
      encoded value. */
  lemma {:induction false} MemberRecordShape(schema: Schema, obj: seq<int>, i: nat)
    requires Conforms(schema, obj) && i < |schema| && |schema| < TWO_64 / 8
    ensures Keys.FieldNumber(MemberRecord(schema, obj, i).key) == i + 1
    ensures Keys.GetWireType(MemberRecord(schema, obj, i).key) == Records.WireTypeOf(EncodingKind(schema[i]))
    ensures MemberRecord(schema, obj, i).payload == EncodeMember(schema[i], obj[i])
  {
  }

  /** The output starts with the first member's record and continues with
      the rest; the records of members i.. are a suffix of the output. */
  lemma {:induction false} SuffixOfEncoding(schema: Schema, obj: seq<int>, i: nat)
    requires Conforms(schema, obj) && i <= |schema|
    ensures |EncodeFrom(schema, obj, i)| <= |Serialized(schema, obj)|
    ensures Serialized(schema, obj)[|Serialized(schema, obj)| - |EncodeFrom(schema, obj, i)|..] == EncodeFrom(schema, obj, i)
  {
    var cs := MemberBytes(schema, obj);
    SplitConcat(cs, 0, i);
    Facts.SuffixOfConcat(ConcatRange(cs, 0, i), Concat(cs, i));
  }

  /** The pieces cs[j..i] one after another. */
  function ConcatRange(cs: seq<seq<byte>>, j: nat, i: nat): seq<byte>
    requires j <= i <= |cs|
    decreases i - j
  {
    if j == i then [] else cs[j] + ConcatRange(cs, j + 1, i)
  }

  /** The pieces cs[j..] are the pieces cs[j..i] followed by cs[i..]. */
  lemma {:induction false} SplitConcat(cs: seq<seq<byte>>, j: nat, i: nat)
    requires j <= i <= |cs|
    ensures Concat(cs, j) == ConcatRange(cs, j, i) + Concat(cs, i)
    decreases i - j
  {
    if j < i {
      SplitConcat(cs, j + 1, i);
      Facts.Associative(cs[j], ConcatRange(cs, j + 1, i), Concat(cs, i));
    }
  }

  /** The pieces cs[i..] are no longer than cs[j..]. */
  lemma {:induction false} TotalLengthShrinks(cs: seq<seq<byte>>, j: nat, i: nat)
    requires j <= i <= |cs|
    ensures TotalLength(cs, i) <= TotalLength(cs, j)
    decreases i - j
  {
    if j < i {
      TotalLengthShrinks(cs, j + 1, i);
    }
  }

  /** The pieces cs[j..i + 1] are the pieces cs[j..i] followed by cs[i]. */
  lemma {:induction false} ExtendRange(cs: seq<seq<byte>>, j: nat, i: nat)
    requires j <= i < |cs|
    ensures ConcatRange(cs, j, i + 1) == ConcatRange(cs, j, i) + cs[i]
  {
    var head, tail := cs[i], Concat(cs, i + 1);
    SplitConcat(cs, j, i);
    SplitConcat(cs, j, i + 1);
    assert Concat(cs, i) == head + tail;
    Facts.Associative(ConcatRange(cs, j, i), head, tail);
    Facts.CancelSuffix(ConcatRange(cs, j, i + 1), ConcatRange(cs, j, i) + head, tail);
  }

  /** Incrementing the 64-bit counter of member i gives the counter of
      member i + 1. */
  lemma {:induction false} FieldStep(i: nat, f: Field, g: Field)
    requires f == FieldOf(i) && g == (f + 1) % TWO_64
    ensures g == FieldOf(i + 1)
  {
    ModAdd64(i + 1, 1);
  }

  /** `serialize_member_field`: appends the member's record to the buffer and
      advances the field counter by one. */
  method SerializeMemberField(m: MemberType, v: int, buffer: seq<byte>, fieldNumber: Field)
    returns (newBuffer: seq<byte>, newField: Field)
    requires ValueOk(m, v)
    ensures newBuffer == buffer + Records.Encode(Records.FromField(fieldNumber, EncodeMember(m, v)))
    ensures newField == (fieldNumber + 1) % TWO_64
  {
    var encoded := EncodeMember(m, v);
    var rec := Records.FromField(fieldNumber, encoded);
    var serialized := Utils.SerializeRecord(rec);
    newBuffer := buffer + serialized;
    newField := (fieldNumber + 1) % TWO_64;
  }

  /** `serialize(obj)`: starts with an empty buffer and field 1 and serializes
      every member in order. */
  method Serialize(schema: Schema, obj: seq<int>) returns (buffer: seq<byte>)
    requires Conforms(schema, obj)
    ensures buffer == Serialized(schema, obj)
    ensures |buffer| == SizeFrom(schema, obj, 0)
  {
    ghost var cs := MemberBytes(schema, obj);
    buffer := [];
    var fieldNumber: Field := 1;
    for i := 0 to |schema|
      invariant buffer == ConcatRange(cs, 0, i)
      invariant fieldNumber == FieldOf(i)
    {
      ExtendRange(cs, 0, i);
      var previous := fieldNumber;
      buffer, fieldNumber := SerializeMemberField(schema[i], obj[i], buffer, fieldNumber);
      FieldStep(i, previous, fieldNumber);
    }
    SplitConcat(cs, 0, |schema|);
    EncodeFromLength(schema, obj, 0);
  }
}
