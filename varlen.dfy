/** The `Varlen` payload of Varlen.h: a varint length prefix followed by
    raw bytes (wire type LEN). */
module VarlenCodec {
  import opened Wire
  import VarintCodec

  const WIRE_TYPE: WireType := LEN

  /** The owned byte vector. */
  datatype Varlen = Varlen(value: Bytes)

  /** `size()`: the length prefix's varint size plus the payload length. */
  function Size(v: Varlen): (n: nat)
    ensures n > |v.value|
  {
    VarintCodec.Size(VarintCodec.Varint(|v.value|)) + |v.value|
  }

  /** The bytes `serialize` writes: the varint of the length, then the payload. */
  function Encode(v: Varlen): (r: seq<byte>)
    ensures |r| == Size(v)
    ensures r[..|r| - |v.value|] == VarintCodec.Encode(|v.value|)
    ensures r[|r| - |v.value|..] == v.value
  {
    VarintCodec.SizeIsEncodedLength(|v.value|);
    VarintCodec.Encode(|v.value|) + v.value
  }

  /** `deserialize`: reads the length varint, drops the bytes it used, and
      fails (empty payload, 0 bytes read) when fewer than `length` bytes
      remain; otherwise the payload is the whole remainder and all of it is
      reported read. */
  function Deserialize(data: Bytes): (d: Deserialized<Varlen>)
    ensures d.bytesRead == 0 || d.bytesRead == |data|
    ensures d.bytesRead == 0 ==> d.value.value == []
  {
    var prefix := VarintCodec.Decode(data);
    var remaining := Drop(data, prefix.bytesRead);
    if |remaining| < prefix.value.value then Deserialized(Varlen([]), 0)
    else Deserialized(Varlen(remaining), prefix.bytesRead + |remaining|)
  }

  // ------------------------------------------------------------------ lemmas

  /** Whatever follows a complete encoding becomes part of the payload and is
      consumed with it, so the payload is the encoded value plus the tail. */
  lemma {:induction false} OverConsumes(v: Varlen, rest: seq<byte>)
    requires |Encode(v) + rest| < TWO_64
    ensures Deserialize(Encode(v) + rest) == Deserialized(Varlen(v.value + rest), Size(v) + |rest|)
  {
    var len := |v.value|;
    var data := Encode(v) + rest;
    assert data == VarintCodec.Encode(len) + (v.value + rest);
    VarintCodec.RoundTrip(len, v.value + rest);
    VarintCodec.SizeIsEncodedLength(len);
    assert Drop(data, |VarintCodec.Encode(len)|) == v.value + rest;
  }

  /** `deserialize(serialize(v))` is v with `size()` bytes read. */
  lemma {:induction false} RoundTrip(v: Varlen)
    requires Size(v) < TWO_64
    ensures Deserialize(Encode(v)) == Deserialized(v, Size(v))
  {
    OverConsumes(v, []);
    assert Encode(v) + [] == Encode(v);
    assert v.value + [] == v.value;
  }

  /** The decoder reads either nothing or the whole input: it fails exactly
      when the input is empty or the declared length exceeds what follows
      the prefix, and on success the payload is everything after the prefix. */
  lemma {:induction false} ReadsAllOrNothing(data: Bytes)
    ensures Deserialize(data).bytesRead == 0 || Deserialize(data).bytesRead == |data|
    ensures Deserialize(data).bytesRead == 0 <==>
              (data == [] || |data| - VarintCodec.ReadLength(data) < VarintCodec.Decode(data).value.value)
    ensures Deserialize(data).bytesRead == 0 ==> Deserialize(data).value.value == []
    ensures Deserialize(data).bytesRead != 0 ==>
              Deserialize(data).value.value == data[VarintCodec.ReadLength(data)..]
  {
  }

  /** An empty input gives an empty payload and 0 bytes read. */
  lemma {:induction false} EmptyInput()
    ensures Deserialize([]) == Deserialized(Varlen([]), 0)
  {
    assert VarintCodec.ReadLength([]) == 0;
  }

  /** A prefix of 5 followed by two bytes is too short: empty payload, 0 read. */
  lemma {:induction false} ShortInput()
    ensures Deserialize([0x05, 0x01, 0x02]) == Deserialized(Varlen([]), 0)
  {
    var data: seq<byte> := [0x05, 0x01, 0x02];
    VarintCodec.ReadLengthStopsAtTerminator(data, 0);
    assert data[..1] == [0x05];
    assert VarintCodec.GroupValue([0x05]) == 5 by {
      assert [0x05][1..] == [];
    }
  }

  /** [0x00, 0xFF, 0xAA, 0x0F] serializes to five bytes with prefix 4. */
  lemma {:induction false} EncodeLiteral()
    ensures Encode(Varlen([0x00, 0xFF, 0xAA, 0x0F])) == [0x04, 0x00, 0xFF, 0xAA, 0x0F]
    ensures Size(Varlen([0x00, 0xFF, 0xAA, 0x0F])) == 5
  {
    assert VarintCodec.Encode(4) == [0x04];
  }

  // ------------------------------------------------------------ the methods

  /** `serialize(span)` on `buffer[off..]`: fails before writing anything when
      the span is shorter than `size()`; otherwise writes the length varint,
      copies the payload right after it and returns `size()`. */
  method Serialize(v: Varlen, buffer: array<byte>, off: nat) returns (r: Result<nat>)
    requires off <= buffer.Length
    modifies buffer
    ensures r == if buffer.Length - off < Size(v) then Err(NotEnoughSpace) else Ok(Size(v))
    ensures r.Err? ==> buffer[..] == old(buffer[..])
    ensures r.Ok? ==> WroteAt(old(buffer[..]), buffer[..], off, Encode(v))
  {
    if buffer.Length - off < Size(v) {
      return Err(NotEnoughSpace);
    }
    ghost var before := buffer[..];
    var lengthVarint := VarintCodec.Varint(|v.value|);
    var written := VarintCodec.Serialize(lengthVarint, buffer, off);
    assert written == Ok(VarintCodec.Size(lengthVarint));
    var n := written.value;
    ghost var mid := buffer[..];
    var copied := Copy(v.value, buffer, off + n);
    VarintCodec.SizeIsEncodedLength(|v.value|);
    WroteAtCompose(before, mid, buffer[..], off, VarintCodec.Encode(|v.value|), v.value);
    return Ok(n + copied);
  }

  /** `std::copy` of `src` into `buffer` at offset `at`; returns the number
      of bytes copied. */
  method Copy(src: seq<byte>, buffer: array<byte>, at: nat) returns (count: nat)
    requires at + |src| <= buffer.Length
    modifies buffer
    ensures count == |src|
    ensures WroteAt(old(buffer[..]), buffer[..], at, src)
  {
    for i := 0 to |src|
      invariant forall k :: 0 <= k < i ==> buffer[at + k] == src[k]
      invariant forall k :: 0 <= k < buffer.Length && !(at <= k < at + i) ==> buffer[k] == old(buffer[k])
    {
      buffer[at + i] := src[i];
    }
    assert buffer[at..at + |src|] == src;
    assert buffer[..at] == old(buffer[..at]);
    assert buffer[at + |src|..] == old(buffer[at + |src|..]);
    return |src|;
  }

  /** `serialize()`: a vector of exactly `size()` bytes filled by
      `serialize(span)`, which therefore cannot run out of space. */
  method SerializeToVector(v: Varlen) returns (r: seq<byte>)
    ensures r == Encode(v)
    ensures |r| == Size(v)
  {
    var serialized := new byte[Size(v)];
    var written := Serialize(v, serialized, 0);
    assert written == Ok(Size(v));
    r := serialized[..];
    assert r == r[0..Size(v)];
  }
}
