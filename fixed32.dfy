/** The stand-alone `Fixed32` class of Fixed32.h: a 32-bit little-endian
    value, the earlier iteration of `Fixint<uint32_t>`. */
module Fixed32Codec {
  import opened Wire
  import FixintCodec


  lemma {:induction false} ByteModulusUpTo4(i: nat)
    requires i <= 4
    ensures FixintCodec.ByteModulus(i) <= TWO_32
    ensures FixintCodec.ByteModulus(4) == TWO_32
  {
    assert FixintCodec.ByteModulus(4) == TWO_32;
  }

  /** The object: one mutable 32-bit field. */
  class Fixed32 {
    var value: U32

    constructor(value: U32)
      ensures this.value == value
    {
      this.value := value;
    }

    /** `set_value`: afterwards `value()` returns the new value. */
    method SetValue(x: U32)
      modifies this
      ensures value == x
    {
      value := x;
    }

    /** `deserialize`: fewer than four bytes gives a fresh `Fixed32{0}` with 0
        bytes read; otherwise the first four bytes are or-ed in, byte i shifted
        left by 8i, and four bytes are reported read: what `Fixint<uint32_t>`
        reads. */
    static method Deserialize(data: seq<byte>) returns (d: Deserialized<Fixed32>)
      ensures fresh(d.value)
      ensures |data| < 4 ==> d.value.value == 0 && d.bytesRead == 0
      ensures |data| >= 4 ==> d.value.value == FixintCodec.FromLittleEndian(data[..4]) && d.bytesRead == 4
      ensures d.value.value == FixintCodec.Deserialize(FixintCodec.U32Storage, data).value.value
      ensures d.bytesRead == FixintCodec.Deserialize(FixintCodec.U32Storage, data).bytesRead
    {
      if |data| < 4 {
        var zero := new Fixed32(0);
        return Deserialized(zero, 0);
      }
      var result: nat := 0;
      for i := 0 to 4
        invariant result == FixintCodec.FromLittleEndian(data[..i])
      {
        FixintCodec.FromLittleEndianAppend(data[..i], data[i]);
        assert data[..i + 1] == data[..i] + [data[i]];
        result := result + data[i] * FixintCodec.ByteModulus(i);
      }
      ByteModulusUpTo4(4);
      var f := new Fixed32(result);
      return Deserialized(f, 4);
    }

    /** `serialize`: a four-byte array whose byte i is `(m_value >> 8i) & 0xFF`,
        which is the little-endian encoding `Fixint<uint32_t>` writes. */
    method Serialize() returns (r: seq<byte>)
      ensures r == FixintCodec.LittleEndian(value, 4)
      ensures forall i :: 0 <= i < 4 ==> r[i] == (value / FixintCodec.ByteModulus(i)) % 0x100
    {
      var result := new byte[4];
      for i := 0 to 4
        invariant forall k :: 0 <= k < i ==> result[k] == FixintCodec.LittleEndian(value, 4)[k]
        invariant forall k :: 0 <= k < i ==> result[k] == (value / FixintCodec.ByteModulus(k)) % 0x100
      {
        FixintCodec.LittleEndianByte(value, 4, i);
        result[i] := (value / FixintCodec.ByteModulus(i)) % 0x100;
      }
      r := result[..];
    }
  }

  /** Reading back the four bytes `serialize` produces, followed by anything,
      gives the value with four bytes read, for every 32-bit value. */
  lemma {:induction false} RoundTrip(v: U32, rest: seq<byte>)
    ensures |FixintCodec.LittleEndian(v, 4) + rest| >= 4
    ensures FixintCodec.FromLittleEndian((FixintCodec.LittleEndian(v, 4) + rest)[..4]) == v
  {
    ByteModulusUpTo4(4);
    assert (FixintCodec.LittleEndian(v, 4) + rest)[..4] == FixintCodec.LittleEndian(v, 4);
    FixintCodec.FromLittleEndianOfLittleEndian(v, 4);
  }
}
