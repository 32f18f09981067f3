/** The struct decoder of Deserialize.h: a loop that reads a key, skips
    unknown fields, reads the payload for the key's wire type and stores the
    payload into member `field - 1`, interpreted as that member's type. */
module StructDeserialize {
  import opened Wire
  import Facts
  import VarintCodec
  import FixintCodec
  import VarlenCodec
  import Keys
  import Records
  import opened Encoding
  import StructSerialize

  /** `set_if_correct_type`: the payload read with `as<M>()` when the payload
      type offers it for the member's type M, otherwise IncompatibleType.
      Varint's `as` undoes the zigzag for signed types; Fixint's `as`
      truncates for integral types and reinterprets (widening or narrowing
      when the widths differ) for floating-point ones. */
  function Interpret(m: MemberType, p: Records.Payload, conv: FloatConversions): (r: Result<int>)
    ensures r.Ok? <==> Interpretable(Records.KindOf(p), m)
    ensures r.Ok? ==> ValueOk(m, r.value)
    ensures r.Err? ==> r.error == IncompatibleType
  {
    match p
    case PVarint(v) =>
      (match m
       case Int(t) => Ok(VarintCodec.As(t, v))
       case Bool => Ok(Cast(Bool, v.value, conv))
       case _ => Err(IncompatibleType))
    case PFixint(f) =>
      FixintCodec.StorageModuli();
      (match m
       case Int(t) => Ok(FixintCodec.As(f, t))
       case Bool => Ok(Cast(Bool, f.value, conv))
       case Float => Ok(if f.storage == FixintCodec.U32Storage then f.value else conv.narrow(f.value))
       case Double => Ok(if f.storage == FixintCodec.U64Storage then f.value else conv.widen(f.value)))
    case PVarlen(_) => Err(IncompatibleType)
  }

  /** `set_field_in_obj`: the member index is `field - 1` in 64-bit
      arithmetic; an index past the members is an error, otherwise only that
      member receives the interpreted payload. */
  function SetFieldInObj(schema: Schema, f: Field, obj: seq<int>, p: Records.Payload, conv: FloatConversions)
    : (r: Result<seq<int>>)
    requires |obj| == |schema|
    ensures r == Err(NoSuchField) <==> SlotIndex(f) >= |schema|
    ensures r.Ok? ==> SlotIndex(f) < |schema| && |r.value| == |obj|
                      && Interpret(schema[SlotIndex(f)], p, conv) == Ok(r.value[SlotIndex(f)])
                      && forall j :: 0 <= j < |obj| && j != SlotIndex(f) ==> r.value[j] == obj[j]
    ensures SlotIndex(f) < |schema| ==> (r.Err? <==> Interpret(schema[SlotIndex(f)], p, conv).Err?)
  {
    var idx := SlotIndex(f);
    if idx >= |schema| then Err(NoSuchField)
    else
      match Interpret(schema[idx], p, conv)
      case Err(e) => Err(e)
      case Ok(v) => Ok(obj[idx := v])
  }

  /** The decoder's state between iterations: `total_bytes_read` and the
      object. */
  datatype Progress = Progress(total: nat, obj: seq<int>)

  /** Stores a decoded payload and moves the read position to `next`. */
  function Store(schema: Schema, conv: FloatConversions, f: Field, obj: seq<int>, p: Records.Payload, next: nat)
    : (r: Result<Progress>)
    requires |obj| == |schema|
    ensures r.Ok? ==> r.value.total == next && |r.value.obj| == |schema|
  {
    match SetFieldInObj(schema, f, obj, p, conv)
    case Err(e) => Err(e)
    case Ok(o) => Ok(Progress(next, o))
  }

  /** One iteration of the loop, run while `total < data.size()`: the key
      is read at `total`; a field beyond the member count (`s_num_elems`,
      the schema's length) moves past the key only;
      otherwise the payload is read for the key's wire type. */
  function Step(schema: Schema, conv: FloatConversions, data: Bytes, total: nat, obj: seq<int>)
    : (r: Result<Progress>)
    requires total < |data| && |obj| == |schema|
    ensures r.Ok? ==> r.value.total > total && |r.value.obj| == |schema|
  {
    var dk := VarintCodec.Decode(data[total..]);
    if dk.bytesRead == 0 then Err(KeyParseError)
    else
      var key := Keys.FromVarint(dk.value);
      var f := Keys.FieldNumber(key);
      if f > |schema| then Ok(Progress(total + dk.bytesRead, obj))
      else PayloadStep(schema, conv, data, dk.bytesRead, total + dk.bytesRead, f, Keys.GetWireType(key), obj)
  }

  /** The `switch` on the wire type, after a key of `keyBytes` bytes that
      ends at `afterKey`. A VARINT payload is read at `afterKey`; FIXED64, LEN
      and FIXED32 payloads are read from offset `keyBytes` of the whole
      input, not from the current position. Wire types 3, 4, 6 and 7 match no
      case: only the key is consumed. A payload decode that reads nothing is
      an error. */
  function PayloadStep(schema: Schema, conv: FloatConversions, data: Bytes, keyBytes: nat, afterKey: nat,
                       f: Field, w: WireType, obj: seq<int>)
    : (r: Result<Progress>)
    requires |obj| == |schema|
    ensures r.Ok? ==> r.value.total >= afterKey && |r.value.obj| == |schema|
  {
    if w == VARINT then
      var dv := VarintCodec.Decode(Drop(data, afterKey));
      if dv.bytesRead == 0 then Err(ValueParseError)
      else Store(schema, conv, f, obj, Records.PVarint(dv.value), afterKey + dv.bytesRead)
    else if w == FIXED64 then
      var dv := FixintCodec.Deserialize(FixintCodec.U64Storage, Drop(data, keyBytes));
      if dv.bytesRead == 0 then Err(ValueParseError)
      else Store(schema, conv, f, obj, Records.PFixint(dv.value), afterKey + dv.bytesRead)
    else if w == LEN then
      var dv := VarlenCodec.Deserialize(Drop(data, keyBytes));
      if dv.bytesRead == 0 then Err(ValueParseError)
      else Store(schema, conv, f, obj, Records.PVarlen(dv.value), afterKey + dv.bytesRead)
    else if w == FIXED32 then
      var dv := FixintCodec.Deserialize(FixintCodec.U32Storage, Drop(data, keyBytes));
      if dv.bytesRead == 0 then Err(ValueParseError)
      else Store(schema, conv, f, obj, Records.PFixint(dv.value), afterKey + dv.bytesRead)
    else Ok(Progress(afterKey, obj))
  }

  /** The loop from position `total` with object `obj` to its end: it stops
      once `total` reaches the end of the data. */
  function DecodeFrom(schema: Schema, conv: FloatConversions, data: Bytes, total: nat, obj: seq<int>)
    : (r: Result<seq<int>>)
    requires |obj| == |schema|
    ensures r.Ok? ==> |r.value| == |schema|
    decreases |data| - total, 1
  {
    if total >= |data| then Ok(obj) else Iterate(schema, conv, data, total, obj)
  }

  /** One pass of the loop body at `total < data.size()`, then the rest of
      the loop: an error from the body ends the loop. */
  function Iterate(schema: Schema, conv: FloatConversions, data: Bytes, total: nat, obj: seq<int>)
    : (r: Result<seq<int>>)
    requires total < |data| && |obj| == |schema|
    ensures r.Ok? ==> |r.value| == |schema|
    decreases |data| - total, 0
  {
    match Step(schema, conv, data, total, obj)
    case Err(e) => Err(e)
    case Ok(p) => DecodeFrom(schema, conv, data, p.total, p.obj)
  }

  /** What `deserialize<Obj>(data)` returns, from the initial object `init`. */
  function Decode(schema: Schema, conv: FloatConversions, data: Bytes, init: seq<int>): (r: Result<seq<int>>)
    requires |init| == |schema|
    ensures r.Ok? ==> |r.value| == |schema|
    ensures data == [] ==> r == Ok(init)
  {
    DecodeFrom(schema, conv, data, 0, init)
  }

  // ------------------------------------------------------------------ lemmas

  /** Every iteration starts on a non-empty slice, so a key is always read:
      the key-parse error cannot occur. */
  lemma {:induction false} KeyAlwaysRead(data: Bytes, total: nat)
    requires total < |data|
    ensures VarintCodec.Decode(data[total..]).bytesRead >= 1
  {
  }

  /** Empty input returns the initial object untouched. */
  lemma {:induction false} EmptyInput(schema: Schema, conv: FloatConversions, init: seq<int>)
    requires |init| == |schema|
    ensures Decode(schema, conv, [], init) == Ok(init)
  {
  }

  /** A key whose field number is beyond the members moves the position past
      the key only; the payload bytes are read as the next key. */
  lemma {:induction false} UnknownFieldSkipsKeyOnly(schema: Schema, conv: FloatConversions, data: Bytes, total: nat, obj: seq<int>)
    requires total < |data| && |obj| == |schema|
    requires Keys.FieldNumber(Keys.FromVarint(VarintCodec.Decode(data[total..]).value)) > |schema|
    ensures Step(schema, conv, data, total, obj)
              == Ok(Progress(total + VarintCodec.ReadLength(data[total..]), obj))
  {
  }

  /** A key with wire type 3, 4, 6 or 7 for a known field is skipped the same
      way, without error. */
  lemma {:induction false} ReservedWireTypeSkipped(schema: Schema, conv: FloatConversions, data: Bytes, total: nat, obj: seq<int>)
    requires total < |data| && |obj| == |schema|
    requires Keys.GetWireType(Keys.FromVarint(VarintCodec.Decode(data[total..]).value)) in {3, 4, 6, 7}
    ensures Step(schema, conv, data, total, obj)
              == Ok(Progress(total + VarintCodec.ReadLength(data[total..]), obj))
  {
  }

  /** The single byte 0x08 (field 1, VARINT) with no value behind it is an
      error for any struct with a member. */
  lemma {:induction false} MissingVarintValue(schema: Schema, conv: FloatConversions, init: seq<int>)
    requires |init| == |schema| >= 1
    ensures Decode(schema, conv, [0x08], init) == Err(ValueParseError)
  {
    var data: seq<byte> := [0x08];
    VarintCodec.ReadLengthStopsAtTerminator(data, 0);
    assert data[0..] == data && data[..1] == data;
    assert VarintCodec.GroupValue(data) == 0x08 by {
      assert data[1..] == [];
    }
  }

  /** Field number 0 passes the unknown-field test but wraps to the largest
      index: `[0x00, 0x01]` (field 0, VARINT 1) is NoSuchField. */
  lemma {:induction false} FieldZeroRejected(schema: Schema, conv: FloatConversions, init: seq<int>)
    requires |init| == |schema| < TWO_64 - 1
    ensures Decode(schema, conv, [0x00, 0x01], init) == Err(NoSuchField)
  {
    var data: seq<byte> := [0x00, 0x01];
    VarintCodec.ReadLengthStopsAtTerminator(data, 0);
    assert data[0..] == data && data[..1] == [0x00];
    assert VarintCodec.GroupValue([0x00]) == 0 by {
      assert [0x00][1..] == [];
    }
    var rest := Drop(data, 1);
    assert rest == [0x01];
    VarintCodec.ReadLengthStopsAtTerminator(rest, 0);
    assert rest[..1] == rest;
    assert VarintCodec.GroupValue(rest) == 1 by {
      assert rest[1..] == [];
    }
  }

  /** A LEN payload for an integer member (`[0x0A, 0x00]`) and a VARINT payload
      for a float member (`[0x08, 0x01]`) are IncompatibleType. */
  lemma {:induction false} IncompatiblePayloads(conv: FloatConversions)
    ensures Decode([Int(IntType(32, false))], conv, [0x0A, 0x00], [0]) == Err(IncompatibleType)
    ensures Decode([Float], conv, [0x08, 0x01], [0]) == Err(IncompatibleType)
  {
    var lenData: seq<byte> := [0x0A, 0x00];
    VarintCodec.ReadLengthStopsAtTerminator(lenData, 0);
    assert lenData[0..] == lenData && lenData[..1] == [0x0A];
    assert VarintCodec.GroupValue([0x0A]) == 0x0A by {
      assert [0x0A][1..] == [];
    }
    var payload := Drop(lenData, 1);
    assert payload == [0x00];
    VarintCodec.ReadLengthStopsAtTerminator(payload, 0);
    assert payload[..1] == payload;
    assert VarintCodec.GroupValue(payload) == 0 by {
      assert payload[1..] == [];
    }
    assert payload[1..] == [];

    var varData: seq<byte> := [0x08, 0x01];
    VarintCodec.ReadLengthStopsAtTerminator(varData, 0);
    assert varData[0..] == varData && varData[..1] == [0x08];
    assert VarintCodec.GroupValue([0x08]) == 0x08 by {
      assert [0x08][1..] == [];
    }
    var value := Drop(varData, 1);
    assert value == [0x01];
    VarintCodec.ReadLengthStopsAtTerminator(value, 0);
    assert value[..1] == value;
    assert VarintCodec.GroupValue(value) == 1 by {
      assert value[1..] == [];
    }
  }

  /** A member survives the trip through its own encoding and `as<M>()`
      exactly when it is not an int32 outside [-2^30, 2^30). */
  lemma {:induction false} MemberRoundTrip(m: MemberType, v: int, conv: FloatConversions)
    requires ValueOk(m, v)
    ensures Interpret(m, EncodeMember(m, v), conv) == Ok(v) <==> SurvivesZigzag(m, v)
  {
    match m
    case Int(t) =>
      if t.signed {
        VarintCodec.ZigzagRoundTrip(t, v);
      } else {
        VarintCodec.UnsignedRoundTrip(t, v);
      }
    case Bool =>
    case Float =>
      FixintCodec.StorageModuli();
    case Double =>
      FixintCodec.StorageModuli();
  }

  /** Every member but an int32 outside [-2^30, 2^30) comes back unchanged. */
  predicate SurvivesZigzag(m: MemberType, v: int)
  {
    m.Int? && m.t.signed && m.t.bits == 32 ==> -0x4000_0000 <= v < 0x4000_0000
  }

  /** A schema whose members all travel as Varints. */
  predicate VarintSchema(schema: Schema)
  {
    forall i :: 0 <= i < |schema| ==> schema[i].Int? || schema[i].Bool?
  }

  /** The key of member i's record. */
  function MemberKey(schema: Schema, obj: seq<int>, i: nat): Keys.Key
    requires Conforms(schema, obj) && i < |schema|
  {
    StructSerialize.MemberRecord(schema, obj, i).key
  }

  /** The value of the Varint that carries member i, for an integral or
      bool member. */
  function MemberValue(schema: Schema, obj: seq<int>, i: nat): U64
    requires Conforms(schema, obj) && i < |schema| && (schema[i].Int? || schema[i].Bool?)
  {
    EncodeMember(schema[i], obj[i]).varint.value
  }

  /** The key of an integral or bool member names field i + 1 and wire type
      VARINT, for fewer than 2^61 members. */
  lemma {:induction false} MemberKeyFields(schema: Schema, obj: seq<int>, i: nat)
    requires Conforms(schema, obj) && i < |schema| < TWO_64 / 8 && (schema[i].Int? || schema[i].Bool?)
    ensures Keys.FieldNumber(MemberKey(schema, obj, i)) == i + 1
    ensures Keys.GetWireType(MemberKey(schema, obj, i)) == VARINT
  {
    StructSerialize.MemberRecordShape(schema, obj, i);
  }

  /** The records of members i.. start with member i's key varint and, for a
      member sent as a Varint, its value varint. */
  lemma {:induction false} VarintMemberBytes(schema: Schema, obj: seq<int>, i: nat)
    requires Conforms(schema, obj) && i < |schema| && (schema[i].Int? || schema[i].Bool?)
    ensures StructSerialize.EncodeFrom(schema, obj, i)
              == VarintCodec.Encode(MemberKey(schema, obj, i).value)
                 + (VarintCodec.Encode(MemberValue(schema, obj, i)) + StructSerialize.EncodeFrom(schema, obj, i + 1))
  {
    var rec := StructSerialize.MemberRecord(schema, obj, i);
    StructSerialize.EncodeFromStep(schema, obj, i);
    VarintRecordBytes(rec);
    Facts.Associative(VarintCodec.Encode(rec.key.value), VarintCodec.Encode(rec.payload.varint.value),
                StructSerialize.EncodeFrom(schema, obj, i + 1));
  }

  /** A record with a Varint payload is its key varint then its value varint. */
  lemma {:induction false} VarintRecordBytes(r: Records.Record)
    requires r.payload.PVarint?
    ensures Records.Encode(r) == VarintCodec.Encode(r.key.value) + VarintCodec.Encode(r.payload.varint.value)
  {
  }

  /** A varint whose encoding lies at `at` decodes there, whatever follows. */
  lemma {:induction false} VarintAt(data: Bytes, at: nat, v: U64)
    requires at + |VarintCodec.Encode(v)| <= |data| && data[at..at + |VarintCodec.Encode(v)|] == VarintCodec.Encode(v)
    ensures VarintCodec.Decode(data[at..]) == Deserialized(VarintCodec.Varint(v), |VarintCodec.Encode(v)|)
    ensures VarintCodec.Decode(Drop(data, at)) == Deserialized(VarintCodec.Varint(v), |VarintCodec.Encode(v)|)
  {
    assert Drop(data, at) == data[at..];
    var rest := data[at + |VarintCodec.Encode(v)|..];
    assert data[at..] == VarintCodec.Encode(v) + rest;
    VarintCodec.RoundTrip(v, rest);
    VarintCodec.SizeIsEncodedLength(v);
  }

  /** Two varints k and v whose encodings lie at `at` decode in turn. */
  lemma {:induction false} TwoVarintsAt(data: Bytes, at: nat, k: U64, v: U64)
    requires at + |VarintCodec.Encode(k)| + |VarintCodec.Encode(v)| <= |data|
    requires data[at..at + |VarintCodec.Encode(k)| + |VarintCodec.Encode(v)|] == VarintCodec.Encode(k) + VarintCodec.Encode(v)
    ensures VarintsAt(data, at, k, |VarintCodec.Encode(k)|, v, |VarintCodec.Encode(v)|)
  {
    var mid := at + |VarintCodec.Encode(k)|;
    var end := mid + |VarintCodec.Encode(v)|;
    SubSlices(data, at, mid, end, VarintCodec.Encode(k), VarintCodec.Encode(v));
    VarintAt(data, at, k);
    VarintAt(data, mid, v);
  }

  /** A slice that is a + b splits at the end of a. */
  lemma {:induction false} SubSlices(data: Bytes, at: nat, mid: nat, end: nat, a: seq<byte>, b: seq<byte>)
    requires at <= mid <= end <= |data| && mid - at == |a| && data[at..end] == a + b
    ensures data[at..mid] == a && data[mid..end] == b
  {
    assert data[at..mid] == data[at..end][..|a|];
    assert data[mid..end] == data[at..end][|a|..];
  }

  /** The bytes a + b at `at`, when data[at..] is a + (b + rest), and what
      follows them. */
  lemma {:induction false} SplitAt(data: Bytes, at: nat, a: seq<byte>, b: seq<byte>, rest: seq<byte>)
    requires at <= |data| && data[at..] == a + (b + rest)
    ensures at + |a| + |b| <= |data|
    ensures data[at..at + |a| + |b|] == a + b
    ensures data[at + |a| + |b|..] == rest
  {
    assert data[at..at + |a| + |b|] == (a + (b + rest))[..|a| + |b|];
    assert data[at + |a| + |b|..] == (a + (b + rest))[|a| + |b|..];
  }

  /** The number of bytes of member i's key varint. */
  function KeyBytes(schema: Schema, obj: seq<int>, i: nat): nat
    requires Conforms(schema, obj) && i < |schema|
  {
    |VarintCodec.Encode(MemberKey(schema, obj, i).value)|
  }

  /** The number of bytes of member i's value varint. */
  function ValueBytes(schema: Schema, obj: seq<int>, i: nat): nat
    requires Conforms(schema, obj) && i < |schema| && (schema[i].Int? || schema[i].Bool?)
  {
    |VarintCodec.Encode(MemberValue(schema, obj, i))|
  }

  /** Where member i's record starts in the serialized struct: the sizes of
      the records before it. */
  function Offset(schema: Schema, obj: seq<int>, i: nat): (n: nat)
    requires Conforms(schema, obj) && i <= |schema|
  {
    SizeFromShrinks(schema, obj, 0, i);
    StructSerialize.SizeFrom(schema, obj, 0) - StructSerialize.SizeFrom(schema, obj, i)
  }

  /** The records from member i on take no more than those from member j <= i. */
  lemma {:induction false} SizeFromShrinks(schema: Schema, obj: seq<int>, j: nat, i: nat)
    requires Conforms(schema, obj) && j <= i <= |schema|
    ensures StructSerialize.SizeFrom(schema, obj, i) <= StructSerialize.SizeFrom(schema, obj, j)
  {
    StructSerialize.TotalLengthShrinks(StructSerialize.MemberBytes(schema, obj), j, i);
  }

  /** Member i + 1's record starts right after member i's two varints. */
  lemma {:induction false} OffsetStep(schema: Schema, obj: seq<int>, i: nat)
    requires Conforms(schema, obj) && i < |schema| && (schema[i].Int? || schema[i].Bool?)
    ensures Offset(schema, obj, i + 1) == Offset(schema, obj, i) + KeyBytes(schema, obj, i) + ValueBytes(schema, obj, i)
  {
    var rec := StructSerialize.MemberRecord(schema, obj, i);
    StructSerialize.SizeFromStep(schema, obj, i);
    VarintRecordBytes(rec);
  }

  /** Member i's key and value varints decode at `total`. */
  ghost predicate MemberRecordAt(schema: Schema, obj: seq<int>, i: nat, data: Bytes, total: nat)
    requires Conforms(schema, obj) && i < |schema|
  {
    && (schema[i].Int? || schema[i].Bool?)
    && VarintsAt(data, total, MemberKey(schema, obj, i).value, KeyBytes(schema, obj, i),
                 MemberValue(schema, obj, i), ValueBytes(schema, obj, i))
  }

  /** The varints k and v decode in turn at `at`, each read whole: in kn
      and vn bytes, their encoded lengths. */
  ghost predicate VarintsAt(data: Bytes, at: nat, k: U64, kn: nat, v: U64, vn: nat)
  {
    && at < |data|
    && kn == |VarintCodec.Encode(k)|
    && vn == |VarintCodec.Encode(v)|
    && VarintCodec.Decode(data[at..]) == Deserialized(VarintCodec.Varint(k), kn)
    && VarintCodec.Decode(Drop(data, at + kn)) == Deserialized(VarintCodec.Varint(v), vn)
  }

  /** The offsets of the records of the serialized struct, one per member
      and one for the end. */
  function Offsets(schema: Schema, obj: seq<int>): (at: seq<nat>)
    requires Conforms(schema, obj)
    ensures |at| == |schema| + 1
    ensures forall j :: 0 <= j <= |schema| ==> at[j] == Offset(schema, obj, j)
  {
    seq(|schema| + 1, j requires 0 <= j <= |schema| => Offset(schema, obj, j))
  }

  /** The loop over data runs through the offsets `at`: resumed at at[j]
      with any object, one iteration stores member j of obj and resumes at
      at[j + 1]; the last offset is the end of the data. */
  ghost predicate Chain(schema: Schema, conv: FloatConversions, obj: seq<int>, data: Bytes, at: seq<nat>)
    requires |obj| == |schema|
  {
    && |at| == |schema| + 1
    && at[|schema|] == |data|
    && forall j, k, c {:trigger DecodeFrom(schema, conv, data, at[j], c), at[k]} ::
         0 <= j < |schema| && k == j + 1 && |c| == |schema| ==>
           DecodeFrom(schema, conv, data, at[j], c) == DecodeFrom(schema, conv, data, at[k], c[j := obj[j]])
  }

  /** In the serialized struct of a Varint schema, member j's record decodes
      at its offset. */
  lemma {:induction false} SerializedRecordAt(schema: Schema, obj: seq<int>, j: nat, data: Bytes)
    requires Conforms(schema, obj) && VarintSchema(schema) && j < |schema|
    requires data == StructSerialize.Serialized(schema, obj)
    ensures MemberRecordAt(schema, obj, j, data, Offset(schema, obj, j))
  {
    var at := Offset(schema, obj, j);
    SuffixAtOffset(schema, obj, j, data);
    VarintMemberBytes(schema, obj, j);
    SplitAt(data, at, VarintCodec.Encode(MemberKey(schema, obj, j).value),
            VarintCodec.Encode(MemberValue(schema, obj, j)), StructSerialize.EncodeFrom(schema, obj, j + 1));
    TwoVarintsAt(data, at, MemberKey(schema, obj, j).value, MemberValue(schema, obj, j));
  }

  /** The serialized struct from member j's offset on is the records of
      members j.. . */
  lemma {:induction false} SuffixAtOffset(schema: Schema, obj: seq<int>, j: nat, data: Bytes)
    requires Conforms(schema, obj) && j <= |schema|
    requires data == StructSerialize.Serialized(schema, obj)
    ensures Offset(schema, obj, j) <= |data|
    ensures data[Offset(schema, obj, j)..] == StructSerialize.EncodeFrom(schema, obj, j)
  {
    StructSerialize.EncodeFromLength(schema, obj, j);
    StructSerialize.EncodeFromLength(schema, obj, 0);
    var suffix := StructSerialize.EncodeFrom(schema, obj, j);
    assert Offset(schema, obj, j) == |data| - |suffix|;
    StructSerialize.SuffixOfEncoding(schema, obj, j);
  }

  /** The serialized struct of a Varint schema runs through its records'
      offsets as Chain describes. */
  lemma {:induction false} SerializedChain(schema: Schema, conv: FloatConversions, obj: seq<int>)
    requires Conforms(schema, obj) && VarintSchema(schema) && |schema| < TWO_64 / 8
    requires forall j :: 0 <= j < |schema| ==> SurvivesZigzag(schema[j], obj[j])
    requires |StructSerialize.Serialized(schema, obj)| < TWO_64
    ensures Chain(schema, conv, obj, StructSerialize.Serialized(schema, obj), Offsets(schema, obj))
  {
    var data: Bytes := StructSerialize.Serialized(schema, obj);
    var at := Offsets(schema, obj);
    StructSerialize.EncodeFromLength(schema, obj, 0);
    assert at[|schema|] == |data|;
    forall j, k, c | 0 <= j < |schema| && k == j + 1 && |c| == |schema|
      ensures DecodeFrom(schema, conv, data, at[j], c) == DecodeFrom(schema, conv, data, at[k], c[j := obj[j]])
    {
      ChainLink(schema, conv, obj, j, k, c, data, at);
    }
  }

  /** One link of the chain: member j's record at its offset. */
  lemma {:induction false} ChainLink(schema: Schema, conv: FloatConversions, obj: seq<int>, j: nat, k: nat, c: seq<int>,
                                     data: Bytes, at: seq<nat>)
    requires Conforms(schema, obj) && VarintSchema(schema) && j < |schema| < TWO_64 / 8 && k == j + 1
    requires SurvivesZigzag(schema[j], obj[j]) && |c| == |schema|
    requires data == StructSerialize.Serialized(schema, obj) && at == Offsets(schema, obj)
    ensures DecodeFrom(schema, conv, data, at[j], c) == DecodeFrom(schema, conv, data, at[k], c[j := obj[j]])
  {
    assert at[j] == Offset(schema, obj, j);
    assert at[k] == Offset(schema, obj, j + 1);
    SerializedRecordAt(schema, obj, j, data);
    OffsetStep(schema, obj, j);
    RecordStep(schema, conv, obj, c, j, data, at[j], at[k]);
  }

  /** Member i's own Varint sets member i to its value and leaves the others
      alone. */
  lemma {:induction false} StoreOwnMember(schema: Schema, conv: FloatConversions, obj: seq<int>, cur: seq<int>, i: nat)
    requires Conforms(schema, obj) && |cur| == |schema| && i < |schema| < TWO_64 / 8
    requires (schema[i].Int? || schema[i].Bool?) && SurvivesZigzag(schema[i], obj[i])
    ensures SetFieldInObj(schema, i + 1, cur, Records.PVarint(VarintCodec.Varint(MemberValue(schema, obj, i))), conv) == Ok(cur[i := obj[i]])
  {
    MemberRoundTrip(schema[i], obj[i], conv);
  }

  /** A VARINT payload that decodes to v in n > 0 bytes, when storing it
      gives `updated`, moves the position past it. */
  lemma {:induction false} VarintPayloadStep(schema: Schema, conv: FloatConversions, data: Bytes, keyBytes: nat, afterKey: nat,
                          f: Field, obj: seq<int>, v: VarintCodec.Varint, n: nat, updated: seq<int>)
    requires |obj| == |schema| && n > 0
    requires VarintCodec.Decode(Drop(data, afterKey)) == Deserialized(v, n)
    requires SetFieldInObj(schema, f, obj, Records.PVarint(v), conv) == Ok(updated)
    ensures PayloadStep(schema, conv, data, keyBytes, afterKey, f, VARINT, obj) == Ok(Progress(afterKey + n, updated))
  {
  }

  /** A key of wire type VARINT for a known field at `total`, followed by
      the value varint v: the value is stored and the position moves past
      both. */
  lemma {:induction false} StepOverVarintRecord(schema: Schema, conv: FloatConversions, data: Bytes, total: nat, cur: seq<int>,
                                                key: Keys.Key, kn: nat, v: U64, vn: nat, updated: seq<int>)
    requires |cur| == |schema| && VarintsAt(data, total, key.value, kn, v, vn)
    requires Keys.FieldNumber(key) <= |schema| && Keys.GetWireType(key) == VARINT
    requires SetFieldInObj(schema, Keys.FieldNumber(key), cur, Records.PVarint(VarintCodec.Varint(v)), conv) == Ok(updated)
    ensures total < |data|
    ensures Step(schema, conv, data, total, cur) == Ok(Progress(total + kn + vn, updated))
  {
    KnownFieldStep(schema, conv, data, total, cur, key, kn);
    VarintPayloadStep(schema, conv, data, kn, total + kn, Keys.FieldNumber(key), cur, VarintCodec.Varint(v), vn, updated);
  }

  /** Setting member i of an object whose first i members are those of obj
      makes its first i + 1 members those of obj. */
  lemma {:induction false} SetNextMember(cur: seq<int>, obj: seq<int>, i: nat)
    requires i < |cur| == |obj| && cur[..i] == obj[..i]
    ensures cur[i := obj[i]][..i + 1] == obj[..i + 1]
  {
    assert cur[i := obj[i]][..i] == cur[..i];
  }

  /** At the end of the data the loop returns the object, which is obj when
      all its members are those of obj. */
  lemma {:induction false} DecodeAtEnd(schema: Schema, conv: FloatConversions, data: Bytes, total: nat, cur: seq<int>, obj: seq<int>)
    requires |cur| == |schema| == |obj| && cur[..|schema|] == obj[..|schema|] && total == |data|
    ensures DecodeFrom(schema, conv, data, total, cur) == Ok(obj)
  {
    assert cur == cur[..|schema|] && obj == obj[..|schema|];
  }

  /** The loop resumed at at[i] with an object whose first i members are
      those of obj, over data that runs through `at` as Chain describes,
      yields obj: `result` is what it returns. */
  lemma {:induction false} DecodeRecordsAt(schema: Schema, conv: FloatConversions, obj: seq<int>, cur: seq<int>,
                                           i: nat, data: Bytes, at: seq<nat>, result: Result<seq<int>>)
    requires |obj| == |schema| && |cur| == |schema| && i <= |schema| && cur[..i] == obj[..i]
    requires Chain(schema, conv, obj, data, at)
    requires result == DecodeFrom(schema, conv, data, at[i], cur)
    ensures result == Ok(obj)
    decreases |schema| - i
  {
    if i == |schema| {
      DecodeAtEnd(schema, conv, data, at[i], cur, obj);
    } else {
      SetNextMember(cur, obj, i);
      assert DecodeFrom(schema, conv, data, at[i], cur) == DecodeFrom(schema, conv, data, at[i + 1], cur[i := obj[i]]);
      DecodeRecordsAt(schema, conv, obj, cur[i := obj[i]], i + 1, data, at,
                      DecodeFrom(schema, conv, data, at[i + 1], cur[i := obj[i]]));
    }
  }

  /** Member i's record, laid out as MemberRecordAt describes, is one
      iteration that stores member i's value and moves past the record. */
  lemma {:induction false} RecordStep(schema: Schema, conv: FloatConversions, obj: seq<int>, cur: seq<int>,
                                      i: nat, data: Bytes, total: nat, next: nat)
    requires Conforms(schema, obj) && |cur| == |schema| && |schema| < TWO_64 / 8
    requires i < |schema| && SurvivesZigzag(schema[i], obj[i])
    requires MemberRecordAt(schema, obj, i, data, total)
    requires next == total + KeyBytes(schema, obj, i) + ValueBytes(schema, obj, i)
    ensures DecodeFrom(schema, conv, data, total, cur) == DecodeFrom(schema, conv, data, next, cur[i := obj[i]])
  {
    MemberStep(schema, conv, obj, cur, i, data, total, next);
    Advance(schema, conv, data, total, cur, Progress(next, cur[i := obj[i]]));
  }

  /** One iteration over member i's record reads it whole and stores the
      member. */
  lemma {:induction false} MemberStep(schema: Schema, conv: FloatConversions, obj: seq<int>, cur: seq<int>,
                                      i: nat, data: Bytes, total: nat, next: nat)
    requires Conforms(schema, obj) && |cur| == |schema| && |schema| < TWO_64 / 8
    requires i < |schema| && SurvivesZigzag(schema[i], obj[i])
    requires MemberRecordAt(schema, obj, i, data, total)
    requires next == total + KeyBytes(schema, obj, i) + ValueBytes(schema, obj, i)
    ensures total < |data|
    ensures Step(schema, conv, data, total, cur) == Ok(Progress(next, cur[i := obj[i]]))
  {
    MemberKeyFields(schema, obj, i);
    StoreOwnMember(schema, conv, obj, cur, i);
    StepOverVarintRecord(schema, conv, data, total, cur, MemberKey(schema, obj, i), KeyBytes(schema, obj, i),
                         MemberValue(schema, obj, i), ValueBytes(schema, obj, i), cur[i := obj[i]]);
  }

  /** Round trip for structs whose members are all integral or bool: the
      serialized struct decodes back to itself, whatever the initial object,
      given fewer than 2^61 members and no int32 outside [-2^30, 2^30). */
  lemma {:induction false} RoundTrip(schema: Schema, conv: FloatConversions, obj: seq<int>, init: seq<int>)
    requires Conforms(schema, obj) && |init| == |schema| && |schema| < TWO_64 / 8
    requires VarintSchema(schema)
    requires forall j :: 0 <= j < |schema| ==> SurvivesZigzag(schema[j], obj[j])
    requires |StructSerialize.Serialized(schema, obj)| < TWO_64
    ensures Decode(schema, conv, StructSerialize.Serialized(schema, obj), init) == Ok(obj)
  {
    var data: Bytes := StructSerialize.Serialized(schema, obj);
    var at := Offsets(schema, obj);
    SerializedChain(schema, conv, obj);
    assert at[0] == 0;
    DecodeRecordsAt(schema, conv, obj, init, 0, data, at, DecodeFrom(schema, conv, data, at[0], init));
  }

  /** The structs of the round-trip tests, `{42}` and `{42, 150}` with
      `uint32_t` members. */
  lemma {:induction false} TrivialStructs(conv: FloatConversions, init1: seq<int>, init2: seq<int>)
    requires |init1| == 1 && |init2| == 2
    ensures Decode([Int(IntType(32, false))], conv,
                   StructSerialize.Serialized([Int(IntType(32, false))], [42]), init1) == Ok([42])
    ensures Decode([Int(IntType(32, false)), Int(IntType(32, false))], conv,
                   StructSerialize.Serialized([Int(IntType(32, false)), Int(IntType(32, false))], [42, 150]), init2)
              == Ok([42, 150])
  {
    var u32 := Int(IntType(32, false));
    StructSerialize.EncodeFromLength([u32], [42], 0);
    StructSerialize.EncodeFromLength([u32, u32], [42, 150], 0);
    StructSerialize.SizeFromBound([u32], [42], 0);
    StructSerialize.SizeFromBound([u32, u32], [42, 150], 0);
    RoundTrip([u32], conv, [42], init1);
    RoundTrip([u32, u32], conv, [42, 150], init2);
  }

  /** FIXED32 payloads are read from the key length's offset of the whole
      input: for a struct of two floats a and b, the second member's key is
      followed by b, but the value read for it is a again. */
  lemma {:induction false} Fixed32ReadsFromWrongOffset(conv: FloatConversions, a: U32, b: U32, init: seq<int>)
    requires |init| == 2
    ensures Decode([Float, Float], conv, StructSerialize.Serialized([Float, Float], [a, b]), init) == Ok([a, a])
  {
    var schema := [Float, Float];
    var data := StructSerialize.Serialized(schema, [a, b]);
    var bytesA := FixintCodec.LittleEndian(a, 4);
    var bytesB := FixintCodec.LittleEndian(b, 4);
    TwoFloatsLayout(a, b, bytesA, bytesB);
    var first := Progress(5, init[0 := a]);
    FirstFloatStep(conv, a, data, init, bytesA, bytesB);
    Advance(schema, conv, data, 0, init, first);
    var second := Progress(10, first.obj[1 := a]);
    SecondFloatStep(conv, a, data, first.obj, bytesA, bytesB);
    Advance(schema, conv, data, 5, first.obj, second);
    assert second.obj == [a, a];
  }

  /** The two-float struct serializes to key 0x0D, the bytes of a, key 0x15
      and the bytes of b. */
  lemma {:induction false} TwoFloatsLayout(a: U32, b: U32, bytesA: seq<byte>, bytesB: seq<byte>)
    requires bytesA == FixintCodec.LittleEndian(a, 4) && bytesB == FixintCodec.LittleEndian(b, 4)
    ensures StructSerialize.Serialized([Float, Float], [a, b]) == ([0x0D] + bytesA) + ([0x15] + bytesB)
  {
    var schema := [Float, Float];
    var obj := [a, b];
    assert Conforms(schema, obj);
    StructSerialize.TwoMembers(schema, obj);
    FloatRecordBytes(1, a, 0x0D, bytesA);
    FloatRecordBytes(2, b, 0x15, bytesB);
  }

  /** A float member's record under field 1 or 2: the one-byte key k, then
      the four bytes of its bit pattern. */
  lemma {:induction false} FloatRecordBytes(f: Field, a: U32, k: byte, bytes: seq<byte>)
    requires (f == 1 && k == 0x0D) || (f == 2 && k == 0x15)
    requires bytes == FixintCodec.LittleEndian(a, 4)
    ensures Records.Encode(Records.FromField(f, EncodeMember(Float, a))) == [k] + bytes
  {
    FixintCodec.StorageModuli();
    assert Keys.FromField(f, FIXED32).value == k;
    assert VarintCodec.Encode(k) == [k];
  }

  /** The first record: key 0x0D at offset 0, the value read from offset 1. */
  lemma {:induction false} FirstFloatStep(conv: FloatConversions, a: U32, data: Bytes, obj: seq<int>,
                                          bytesA: seq<byte>, bytesB: seq<byte>)
    requires |obj| == 2 && bytesA == FixintCodec.LittleEndian(a, 4) && |bytesB| == 4
    requires data == ([0x0D] + bytesA) + ([0x15] + bytesB)
    ensures |data| == 10
    ensures Step([Float, Float], conv, data, 0, obj) == Ok(Progress(5, obj[0 := a]))
  {
    FixintCodec.StorageModuli();
    VarintCodec.RoundTrip(0x0D, bytesA + ([0x15] + bytesB));
    assert data == [0x0D] + (bytesA + ([0x15] + bytesB));
    assert data[0..] == data;
    VarintCodec.SizeIsEncodedLength(0x0D);
    assert Drop(data, 1) == bytesA + ([0x15] + bytesB);
    FixintCodec.RoundTrip(FixintCodec.Fixint(FixintCodec.U32Storage, a), [0x15] + bytesB);
  }

  /** The second record: key 0x15 at offset 5, the value read from offset 1
      again, that is a. */
  lemma {:induction false} SecondFloatStep(conv: FloatConversions, a: U32, data: Bytes, obj: seq<int>,
                                           bytesA: seq<byte>, bytesB: seq<byte>)
    requires |obj| == 2 && bytesA == FixintCodec.LittleEndian(a, 4) && |bytesB| == 4
    requires data == ([0x0D] + bytesA) + ([0x15] + bytesB)
    ensures Step([Float, Float], conv, data, 5, obj) == Ok(Progress(10, obj[1 := a]))
  {
    FixintCodec.StorageModuli();
    VarintCodec.RoundTrip(0x15, bytesB);
    assert data[5..] == [0x15] + bytesB;
    VarintCodec.SizeIsEncodedLength(0x15);
    assert Drop(data, 1) == bytesA + ([0x15] + bytesB);
    FixintCodec.RoundTrip(FixintCodec.Fixint(FixintCodec.U32Storage, a), [0x15] + bytesB);
  }

  /** A record for an unknown field whose payload looks like a key: with one
      member, field 2 holding Varint 8 (`[0x10, 0x08]`) skips the key 0x10
      and then reads 0x08 as a key for field 1 with no value. */
  lemma {:induction false} UnknownFieldPayloadReadAsKey(conv: FloatConversions, init: seq<int>)
    requires |init| == 1
    ensures Decode([Int(IntType(32, false))], conv, [0x10, 0x08], init) == Err(ValueParseError)
  {
    var data: seq<byte> := [0x10, 0x08];
    VarintCodec.ReadLengthStopsAtTerminator(data, 0);
    assert data[0..] == data && data[..1] == [0x10];
    assert VarintCodec.GroupValue([0x10]) == 0x10 by {
      assert [0x10][1..] == [];
    }
    var rest := data[1..];
    assert rest == [0x08];
    VarintCodec.ReadLengthStopsAtTerminator(rest, 0);
    assert rest[..1] == rest;
    assert VarintCodec.GroupValue(rest) == 0x08 by {
      assert rest[1..] == [];
    }
    assert Drop(data, 2) == [];
  }

  /** For a known field the iteration is the payload switch after the key:
      when the key read at `total` is `key`, in n bytes, and names a member. */
  lemma {:induction false} KnownFieldStep(schema: Schema, conv: FloatConversions, data: Bytes, total: nat, obj: seq<int>,
                       key: Keys.Key, n: nat)
    requires total < |data| && |obj| == |schema|
    requires VarintCodec.Decode(data[total..]) == Deserialized(VarintCodec.Varint(key.value), n)
    requires Keys.FieldNumber(key) <= |schema|
    ensures Step(schema, conv, data, total, obj)
              == PayloadStep(schema, conv, data, n, total + n, Keys.FieldNumber(key), Keys.GetWireType(key), obj)
  {
    assert Keys.FromVarint(VarintCodec.Decode(data[total..]).value) == key;
  }

  /** `UnknownFieldSkipsKeyOnly` for a key and byte count that have already
      been read, as `ReadRecord` holds them. */
  lemma {:induction false} UnknownFieldStep(schema: Schema, conv: FloatConversions, data: Bytes, total: nat, obj: seq<int>,
                                            key: Keys.Key, n: nat)
    requires total < |data| && |obj| == |schema|
    requires VarintCodec.Decode(data[total..]) == Deserialized(VarintCodec.Varint(key.value), n)
    requires Keys.FieldNumber(key) > |schema|
    ensures Step(schema, conv, data, total, obj) == Ok(Progress(total + n, obj))
  {
    assert Keys.FromVarint(VarintCodec.Decode(data[total..]).value) == key;
    UnknownFieldSkipsKeyOnly(schema, conv, data, total, obj);
  }

  /** A successful iteration leaves the rest of the loop to run from its
      new state. */
  lemma {:induction false} Advance(schema: Schema, conv: FloatConversions, data: Bytes, total: nat, obj: seq<int>, next: Progress)
    requires total < |data| && |obj| == |schema|
    requires Step(schema, conv, data, total, obj) == Ok(next)
    ensures |next.obj| == |schema|
    ensures DecodeFrom(schema, conv, data, total, obj) == DecodeFrom(schema, conv, data, next.total, next.obj)
  {
  }

  /** A failing iteration ends the loop with its error. */
  lemma {:induction false} Halt(schema: Schema, conv: FloatConversions, data: Bytes, total: nat, obj: seq<int>, e: Error)
    requires total < |data| && |obj| == |schema|
    requires Step(schema, conv, data, total, obj) == Err(e)
    ensures DecodeFrom(schema, conv, data, total, obj) == Err(e)
  {
  }

  // ------------------------------------------------------------ the methods

  /** `deserialize<Obj>(data)`, starting from the object `init`. */
  method Deserialize(schema: Schema, conv: FloatConversions, data: Bytes, init: seq<int>)
    returns (r: Result<seq<int>>)
    requires |init| == |schema|
    ensures r == Decode(schema, conv, data, init)
  {
    var obj := init;
    var total: nat := 0;
    while total < |data|
      invariant |obj| == |schema|
      invariant DecodeFrom(schema, conv, data, total, obj) == Decode(schema, conv, data, init)
      decreases |data| - total
    {
      var step := ReadRecord(schema, conv, data, total, obj);
      if step.Err? {
        Halt(schema, conv, data, total, obj, step.error);
        return Err(step.error);
      }
      Advance(schema, conv, data, total, obj, step.value);
      total, obj := step.value.total, step.value.obj;
    }
    return Ok(obj);
  }

  /** The loop body: reads the key at `total`, skips past the key alone for
      a field beyond the members, and otherwise runs the payload switch. */
  method ReadRecord(schema: Schema, conv: FloatConversions, data: Bytes, total: nat, obj: seq<int>)
    returns (r: Result<Progress>)
    requires total < |data| && |obj| == |schema|
    ensures r == Step(schema, conv, data, total, obj)
  {
    var deserializedKey := VarintCodec.Deserialize(data[total..]);
    KeyAlwaysRead(data, total);
    var keyEnd := total + deserializedKey.bytesRead;
    var key := Keys.FromVarint(deserializedKey.value);
    var fieldNumber := Keys.FieldNumber(key);
    if fieldNumber > |schema| {
      UnknownFieldStep(schema, conv, data, total, obj, key, deserializedKey.bytesRead);
      return Ok(Progress(keyEnd, obj));
    }
    KnownFieldStep(schema, conv, data, total, obj, key, deserializedKey.bytesRead);
    r := ReadPayload(schema, conv, data, deserializedKey.bytesRead, keyEnd, fieldNumber, Keys.GetWireType(key), obj);
  }

  /** The `switch` of the loop body: reads the payload, advances the
      position by the bytes it read and stores it into the member. */
  method ReadPayload(schema: Schema, conv: FloatConversions, data: Bytes, keyBytes: nat, afterKey: nat,
                     fieldNumber: Field, wireType: WireType, obj: seq<int>)
    returns (r: Result<Progress>)
    requires |obj| == |schema|
    ensures r == PayloadStep(schema, conv, data, keyBytes, afterKey, fieldNumber, wireType, obj)
  {
    var total := afterKey;
    var payload: Records.Payload;
    if wireType == VARINT {
      var deserializedValue := VarintCodec.Deserialize(Drop(data, total));
      if deserializedValue.bytesRead == 0 {
        return Err(ValueParseError);
      }
      total := total + deserializedValue.bytesRead;
      payload := Records.PVarint(deserializedValue.value);
    } else if wireType == FIXED64 {
      var deserializedValue := FixintCodec.Deserialize(FixintCodec.U64Storage, Drop(data, keyBytes));
      if deserializedValue.bytesRead == 0 {
        return Err(ValueParseError);
      }
      total := total + deserializedValue.bytesRead;
      payload := Records.PFixint(deserializedValue.value);
    } else if wireType == LEN {
      var deserializedValue := VarlenCodec.Deserialize(Drop(data, keyBytes));
      if deserializedValue.bytesRead == 0 {
        return Err(ValueParseError);
      }
      total := total + deserializedValue.bytesRead;
      payload := Records.PVarlen(deserializedValue.value);
    } else if wireType == FIXED32 {
      var deserializedValue := FixintCodec.Deserialize(FixintCodec.U32Storage, Drop(data, keyBytes));
      if deserializedValue.bytesRead == 0 {
        return Err(ValueParseError);
      }
      total := total + deserializedValue.bytesRead;
      payload := Records.PFixint(deserializedValue.value);
    } else {
      return Ok(Progress(total, obj));
    }
    var stored := SetFieldInObj(schema, fieldNumber, obj, payload, conv);
    if stored.Err? {
      return Err(stored.error);
    }
    return Ok(Progress(total, stored.value));
  }
}
