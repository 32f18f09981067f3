/** The free functions of varint.h, the earlier iteration of the Varint
    codec: `serialize_varint` returns a fresh vector, `deserialize_varint`
    returns only the decoded value. */
module VarintFree {
  import opened Wire
  import VarintCodec

  /** `serialize_varint`: appends one byte per 7-bit group, lowest first, and
      produces the same bytes that `Varint::serialize` writes. */
  method SerializeVarint(value: U64) returns (result: seq<byte>)
    ensures result == VarintCodec.Encode(value)
    ensures |result| == VarintCodec.Size(VarintCodec.Varint(value))
  {
    VarintCodec.SizeIsEncodedLength(value);
    var v: nat := value;
    result := [];
    var more := true;
    while more
      invariant more ==> result + VarintCodec.Encode(v) == VarintCodec.Encode(value)
      invariant !more ==> result == VarintCodec.Encode(value)
      decreases v, more
    {
      VarintCodec.EncodeStep(v);
      ghost var enc := VarintCodec.Encode(v);
      var b: byte := v % 0x80;
      v := v / 0x80;
      if v != 0 {
        b := b + 0x80;
        assert enc == [b] + VarintCodec.Encode(v);
      } else {
        assert enc == [b];
      }
      result := result + [b];
      more := v != 0;
    }
  }

  /** `deserialize_varint`: the value `Varint::deserialize` reads; an empty
      vector gives 0 and bytes after the first one without the continuation
      bit are ignored. */
  method DeserializeVarint(data: seq<byte>) returns (result: U64)
    ensures result == VarintCodec.Decode(data).value.value
    ensures data == [] ==> result == 0
  {
    result := 0;
    var shift: nat := 0;
    var k := 0;
    while k < |data|
      invariant k <= |data|
      invariant shift == 7 * k
      invariant forall i :: 0 <= i < k ==> data[i] >= 0x80
      invariant result == VarintCodec.GroupValue(data[..k]) % TWO_64
    {
      var b := data[k];
      VarintCodec.GroupValueAppend(data[..k], b);
      ModAdd64(VarintCodec.GroupValue(data[..k]), (b % 0x80) * Pow2(shift));
      assert data[..k + 1] == data[..k] + [b];
      result := (result + (b % 0x80) * Pow2(shift)) % TWO_64;
      k := k + 1;
      if b < 0x80 {
        VarintCodec.ReadLengthStopsAtTerminator(data, k - 1);
        return;
      }
      shift := shift + 7;
    }
    VarintCodec.ReadLengthStopsAtTerminator(data, k);
    assert data[..k] == data;
  }

  /** The literal results of the size test: 0 is one byte, `2^(7i) - 1` is
      i bytes, `2^(7i)` is i + 1 bytes and the largest u64 is 10 bytes. */
  lemma {:induction false} EncodedLengths(i: nat)
    requires 1 <= i <= 9
    ensures VarintCodec.Encode(0) == [0x00]
    ensures Pow2(7 * i) < TWO_64
    ensures |VarintCodec.Encode(Pow2(7 * i) - 1)| == i
    ensures |VarintCodec.Encode(Pow2(7 * i))| == i + 1
    ensures |VarintCodec.Encode(TWO_64 - 1)| == 10
  {
    VarintCodec.SizeBoundaries(i);
  }

  /** `deserialize_varint(serialize_varint(v)) == v`. */
  lemma {:induction false} RoundTrip(v: U64)
    ensures VarintCodec.Decode(VarintCodec.Encode(v)).value.value == v
  {
    VarintCodec.RoundTrip(v, []);
    assert VarintCodec.Encode(v) + [] == VarintCodec.Encode(v);
  }
}
