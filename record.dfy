/** `Record<Type>` of Record.h: a key varint followed by one payload. The
    template argument ranges over the wirable payload types, which are
    `Varint`, `Fixint<uint32_t>`, `Fixint<uint64_t>` and `Varlen`. */
module Records {
  import opened Wire
  import VarintCodec
  import FixintCodec
  import VarlenCodec
  import Keys

  /** The payload type a Record is instantiated with. */
  datatype Kind = KVarint | KFixint(storage: FixintCodec.Storage) | KVarlen

  /** A payload value of one of the wirable types. */
  datatype Payload =
    | PVarint(varint: VarintCodec.Varint)
    | PFixint(fixint: FixintCodec.Fixint)
    | PVarlen(varlen: VarlenCodec.Varlen)

  function KindOf(p: Payload): Kind
  {
    match p
    case PVarint(_) => KVarint
    case PFixint(f) => KFixint(f.storage)
    case PVarlen(_) => KVarlen
  }

  /** `Type::k_wire_type`. */
  function WireTypeOf(k: Kind): (w: WireType)
    ensures w == VARINT <==> k == KVarint
    ensures w == LEN <==> k == KVarlen
    ensures w == FIXED32 <==> k == KFixint(FixintCodec.U32Storage)
    ensures w == FIXED64 <==> k == KFixint(FixintCodec.U64Storage)
  {
    match k
    case KVarint => VarintCodec.WIRE_TYPE
    case KFixint(s) => FixintCodec.WireTypeOf(s)
    case KVarlen => VarlenCodec.WIRE_TYPE
  }

  /** `Type{}`: zero, or the empty byte vector. */
  function DefaultPayload(k: Kind): (p: Payload)
    ensures KindOf(p) == k
  {
    match k
    case KVarint => PVarint(VarintCodec.Varint(0))
    case KFixint(s) => PFixint(FixintCodec.Zero(s))
    case KVarlen => PVarlen(VarlenCodec.Varlen([]))
  }

  /** The payload's `size()`. */
  function PayloadSize(p: Payload): nat
  {
    match p
    case PVarint(v) => VarintCodec.Size(v)
    case PFixint(f) => FixintCodec.Size(f)
    case PVarlen(l) => VarlenCodec.Size(l)
  }

  /** The bytes the payload's `serialize(span)` writes. */
  function EncodePayload(p: Payload): (r: seq<byte>)
    ensures |r| == PayloadSize(p)
  {
    match p
    case PVarint(v) => VarintCodec.SizeIsEncodedLength(v.value); VarintCodec.Encode(v.value)
    case PFixint(f) => FixintCodec.LittleEndian(f.value, FixintCodec.Size(f))
    case PVarlen(l) => VarlenCodec.Encode(l)
  }

  /** `Type::deserialize`. */
  function DeserializePayload(k: Kind, data: Bytes): (d: Deserialized<Payload>)
    ensures KindOf(d.value) == k
  {
    match k
    case KVarint =>
      var d := VarintCodec.Decode(data);
      Deserialized(PVarint(d.value), d.bytesRead)
    case KFixint(s) =>
      var d := FixintCodec.Deserialize(s, data);
      Deserialized(PFixint(d.value), d.bytesRead)
    case KVarlen =>
      var d := VarlenCodec.Deserialize(data);
      Deserialized(PVarlen(d.value), d.bytesRead)
  }

  datatype Record = Record(key: Keys.Key, payload: Payload)

  /** `Record(field, value)`: the key packs the field with the payload type's
      wire type. */
  function FromField(f: Field, p: Payload): (r: Record)
    ensures r.payload == p
    ensures Keys.GetWireType(r.key) == WireTypeOf(KindOf(p))
    ensures f < TWO_64 / 8 ==> Keys.FieldNumber(r.key) == f
  {
    Keys.FromFieldPacks(f, WireTypeOf(KindOf(p)));
    Record(Keys.FromField(f, WireTypeOf(KindOf(p))), p)
  }

  /** The record's key names the wire type its payload type is sent with. */
  predicate WellTyped(r: Record)
  {
    Keys.GetWireType(r.key) == WireTypeOf(KindOf(r.payload))
  }

  /** `size()`: the key's varint size plus the payload's size. */
  function Size(r: Record): (n: nat)
    ensures n > PayloadSize(r.payload)
  {
    VarintCodec.Size(VarintCodec.Varint(r.key.value)) + PayloadSize(r.payload)
  }

  /** The bytes `serialize` writes: the key varint, then the payload. */
  function Encode(r: Record): (e: seq<byte>)
    ensures |e| == Size(r)
  {
    VarintCodec.SizeIsEncodedLength(r.key.value);
    VarintCodec.Encode(r.key.value) + EncodePayload(r.payload)
  }

  /** `deserialize` for a Record of payload type k. No key at all (empty
      input) gives the default record with 0 bytes read; a key whose wire type
      is not k's is an error; otherwise the payload is decoded after the key
      and the two byte counts are added, even when the payload decode read
      nothing. */
  function Deserialize(k: Kind, data: Bytes): (r: Result<Deserialized<Record>>)
    ensures r.Err? ==> r.error == WrongWireType
    ensures r.Ok? ==> KindOf(r.value.value.payload) == k && WellTyped(r.value.value)
    ensures r.Ok? && r.value.bytesRead == 0 ==> data == []
  {
    var dk := VarintCodec.Decode(data);
    if dk.bytesRead == 0 then Ok(Deserialized(FromField(0, DefaultPayload(k)), 0))
    else
      var key := Keys.FromVarint(dk.value);
      if Keys.GetWireType(key) != WireTypeOf(k) then Err(WrongWireType)
      else
        var dv := DeserializePayload(k, data[dk.bytesRead..]);
        Ok(Deserialized(Record(key, dv.value), dk.bytesRead + dv.bytesRead))
  }

  // ------------------------------------------------------------------ lemmas

  /** Decoding a payload's own encoding, followed by bytes a Varlen would not
      absorb, gives the payload back with `size()` bytes read. */
  lemma {:induction false} PayloadRoundTrip(p: Payload, rest: seq<byte>)
    requires |EncodePayload(p) + rest| < TWO_64
    requires p.PVarlen? ==> rest == []
    ensures DeserializePayload(KindOf(p), EncodePayload(p) + rest) == Deserialized(p, PayloadSize(p))
  {
    match p
    case PVarint(v) =>
      VarintCodec.RoundTrip(v.value, rest);
    case PFixint(f) =>
      FixintCodec.RoundTrip(f, rest);
    case PVarlen(l) =>
      assert EncodePayload(p) + rest == VarlenCodec.Encode(l);
      VarlenCodec.RoundTrip(l);
  }

  /** Round trip: a well-typed record's bytes, followed by anything that a
      Varlen payload would not absorb, decode to the same key, field number,
      wire type and payload with key bytes plus payload bytes read, and the
      decoded record serializes to the same bytes. */
  lemma {:induction false} RoundTrip(r: Record, rest: seq<byte>)
    requires WellTyped(r)
    requires |Encode(r) + rest| < TWO_64
    requires r.payload.PVarlen? ==> rest == []
    ensures Deserialize(KindOf(r.payload), Encode(r) + rest) == Ok(Deserialized(r, Size(r)))
    ensures Encode(Deserialize(KindOf(r.payload), Encode(r) + rest).value.value) == Encode(r)
  {
    var data := Encode(r) + rest;
    var payloadBytes := EncodePayload(r.payload) + rest;
    assert data == VarintCodec.Encode(r.key.value) + payloadBytes;
    VarintCodec.RoundTrip(r.key.value, payloadBytes);
    VarintCodec.SizeIsEncodedLength(r.key.value);
    assert data[|VarintCodec.Encode(r.key.value)|..] == payloadBytes;
    PayloadRoundTrip(r.payload, rest);
  }

  /** A record built from a field number and a payload is well typed, and
      decodes back to its field number when that fits in 61 bits. */
  lemma {:induction false} FromFieldRoundTrip(f: Field, p: Payload)
    requires f < TWO_64 / 8
    requires |Encode(FromField(f, p))| < TWO_64
    ensures Deserialize(KindOf(p), Encode(FromField(f, p))).Ok?
    ensures Keys.FieldNumber(Deserialize(KindOf(p), Encode(FromField(f, p))).value.value.key) == f
    ensures Deserialize(KindOf(p), Encode(FromField(f, p))).value.value.payload == p
  {
    RoundTrip(FromField(f, p), []);
    assert Encode(FromField(f, p)) + [] == Encode(FromField(f, p));
  }

  /** Empty input: the default record of field 0 and 0 bytes read. */
  lemma {:induction false} EmptyInput(k: Kind)
    ensures Deserialize(k, []) == Ok(Deserialized(FromField(0, DefaultPayload(k)), 0))
  {
    assert VarintCodec.ReadLength([]) == 0;
  }

  /** On non-empty input the decoder fails exactly when the key's wire type is
      not the payload type's. */
  lemma {:induction false} WrongWireTypeExactly(k: Kind, data: Bytes)
    requires data != []
    ensures Deserialize(k, data).Err? <==>
              Keys.GetWireType(Keys.FromVarint(VarintCodec.Decode(data).value)) != WireTypeOf(k)
    ensures Deserialize(k, data).Err? ==> Deserialize(k, data).error == WrongWireType
  {
  }

  /** A payload decode that reads nothing is not reported: the record is
      still returned, with only the key's bytes counted. */
  lemma {:induction false} PayloadFailureHidden(k: Kind, data: Bytes)
    requires data != []
    requires Keys.GetWireType(Keys.FromVarint(VarintCodec.Decode(data).value)) == WireTypeOf(k)
    requires DeserializePayload(k, data[VarintCodec.ReadLength(data)..]).bytesRead == 0
    ensures Deserialize(k, data).Ok?
    ensures Deserialize(k, data).value.bytesRead == VarintCodec.ReadLength(data) > 0
  {
  }

  /** For instance the lone key byte 0x08 read as a Varint record gives field
      1 with value 0 and one byte read. */
  lemma {:induction false} PayloadFailureExample()
    ensures Deserialize(KVarint, [0x08]) ==
              Ok(Deserialized(Record(Keys.Key(0x08), PVarint(VarintCodec.Varint(0))), 1))
  {
    var data: seq<byte> := [0x08];
    VarintCodec.ReadLengthStopsAtTerminator(data, 0);
    assert data[..1] == data;
    assert VarintCodec.GroupValue(data) == 0x08 by {
      assert data[1..] == [];
    }
    assert data[1..] == [];
    assert VarintCodec.ReadLength([]) == 0;
  }

  /** The Varint record of the record tests: field 1 with Varint 150 is
      [0x08, 0x96, 0x01] and decodes back with all three bytes read. */
  lemma {:induction false} VarintLiteral()
    ensures Encode(FromField(1, PVarint(VarintCodec.Varint(150)))) == [0x08, 0x96, 0x01]
    ensures Deserialize(KVarint, [0x08, 0x96, 0x01])
              == Ok(Deserialized(FromField(1, PVarint(VarintCodec.Varint(150))), 3))
  {
    VarintCodec.EncodeLiterals();
    assert VarintCodec.Encode(0x08) == [0x08];
    var r := FromField(1, PVarint(VarintCodec.Varint(150)));
    RoundTrip(r, []);
    assert Encode(r) + [] == Encode(r);
  }

  /** The Fixint record of the record tests: field 1 with a 32-bit Fixint
      150 is [0x0D, 0x96, 0x00, 0x00, 0x00] and decodes back with all five
      bytes read. */
  lemma {:induction false} FixintLiteral()
    ensures Encode(FromField(1, PFixint(FixintCodec.Fixint(FixintCodec.U32Storage, 150))))
              == [0x0D, 0x96, 0x00, 0x00, 0x00]
    ensures Deserialize(KFixint(FixintCodec.U32Storage), [0x0D, 0x96, 0x00, 0x00, 0x00])
              == Ok(Deserialized(FromField(1, PFixint(FixintCodec.Fixint(FixintCodec.U32Storage, 150))), 5))
  {
    assert VarintCodec.Encode(0x0D) == [0x0D];
    assert FixintCodec.LittleEndian(0, 2) == [0x00, 0x00];
    assert FixintCodec.LittleEndian(150, 4) == [0x96, 0x00, 0x00, 0x00];
    var r := FromField(1, PFixint(FixintCodec.Fixint(FixintCodec.U32Storage, 150)));
    RoundTrip(r, []);
    assert Encode(r) + [] == Encode(r);
  }

  // ------------------------------------------------------------ the methods

  /** The payload's `serialize(span)` on `buffer[off..]`. */
  method SerializePayload(p: Payload, buffer: array<byte>, off: nat) returns (r: Result<nat>)
    requires off <= buffer.Length
    modifies buffer
    ensures r == if buffer.Length - off < PayloadSize(p) then Err(NotEnoughSpace) else Ok(PayloadSize(p))
    ensures r.Err? ==> buffer[..] == old(buffer[..])
    ensures r.Ok? ==> WroteAt(old(buffer[..]), buffer[..], off, EncodePayload(p))
  {
    match p
    case PVarint(v) =>
      r := VarintCodec.Serialize(v, buffer, off);
    case PFixint(f) =>
      r := FixintCodec.Serialize(f, buffer, off);
    case PVarlen(l) =>
      r := VarlenCodec.Serialize(l, buffer, off);
  }

  /** `serialize(span)`: fails before writing anything when the span is
      shorter than `size()`; otherwise writes the key varint, then the
      payload right after it, and returns the total. */
  method Serialize(rec: Record, buffer: array<byte>, off: nat) returns (r: Result<nat>)
    requires off <= buffer.Length
    modifies buffer
    ensures r == if buffer.Length - off < Size(rec) then Err(NotEnoughSpace) else Ok(Size(rec))
    ensures r.Err? ==> buffer[..] == old(buffer[..])
    ensures r.Ok? ==> WroteAt(old(buffer[..]), buffer[..], off, Encode(rec))
  {
    if buffer.Length - off < Size(rec) {
      return Err(NotEnoughSpace);
    }
    ghost var before := buffer[..];
    var keyVarint := VarintCodec.Varint(rec.key.value);
    var keyWritten := VarintCodec.Serialize(keyVarint, buffer, off);
    assert keyWritten == Ok(VarintCodec.Size(keyVarint));
    var n := keyWritten.value;
    ghost var mid := buffer[..];
    var payloadWritten := SerializePayload(rec.payload, buffer, off + n);
    assert payloadWritten == Ok(PayloadSize(rec.payload));
    VarintCodec.SizeIsEncodedLength(rec.key.value);
    WroteAtCompose(before, mid, buffer[..], off, VarintCodec.Encode(rec.key.value), EncodePayload(rec.payload));
    return Ok(n + payloadWritten.value);
  }
}
