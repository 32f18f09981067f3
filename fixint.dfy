/** The `Fixint<uint32_t>` / `Fixint<uint64_t>` class template of Fixint.h:
    a 4- or 8-byte little-endian integer. A floating-point value is held as
    its IEEE-754 bit pattern of the same width. */
module FixintCodec {
  import opened Wire
  import Facts

  /** The template argument: the unsigned storage type. */
  datatype Storage = U32Storage | U64Storage

  /** `sizeof(UnderlyingType)`. */
  function Width(s: Storage): nat
  {
    if s == U32Storage then 4 else 8
  }

  /** 2^(8n): the number of values n bytes can hold. */
  function ByteModulus(n: nat): (r: nat)
    ensures r >= 1
  {
    if n == 0 then 1 else 0x100 * ByteModulus(n - 1)
  }

  function StorageModulus(s: Storage): nat
  {
    ByteModulus(Width(s))
  }

  lemma {:induction false} StorageModuli()
    ensures StorageModulus(U32Storage) == TWO_32 && StorageModulus(U64Storage) == TWO_64
  {
  }

  datatype FixintRaw = Fixint(storage: Storage, value: nat)

  /** A Fixint whose value fits its storage type. */
  type Fixint = f: FixintRaw | f.value < StorageModulus(f.storage)
    witness Fixint(U32Storage, 0)

  /** `k_wire_type`: FIXED32 for uint32_t storage, FIXED64 for uint64_t. */
  function WireTypeOf(s: Storage): (w: WireType)
    ensures w == FIXED32 <==> Width(s) == 4
    ensures w == FIXED64 <==> Width(s) == 8
  {
    if s == U32Storage then FIXED32 else FIXED64
  }

  /** `size()`: the storage width, whatever the value. */
  function Size(f: Fixint): (n: nat)
    ensures n == 4 <==> f.storage == U32Storage
    ensures n == 8 <==> f.storage == U64Storage
  {
    Width(f.storage)
  }

  /** The n little-endian bytes of v: byte i is `(v >> 8i) & 0xFF`. */
  function LittleEndian(v: nat, n: nat): (r: seq<byte>)
    ensures |r| == n
  {
    if n == 0 then [] else [v % 0x100] + LittleEndian(v / 0x100, n - 1)
  }

  /** The bytes of s assembled little-endian. */
  function FromLittleEndian(s: seq<byte>): (r: nat)
    ensures r < ByteModulus(|s|)
  {
    if s == [] then 0 else s[0] + 0x100 * FromLittleEndian(s[1..])
  }

  /** The default-constructed Fixint, value 0. */
  function Zero(s: Storage): Fixint
  {
    Fixint(s, 0)
  }

  /** `deserialize`: fewer than `sizeof(UnderlyingType)` bytes is a failure
      (a zero value, 0 bytes read); otherwise the first 4 or 8 bytes are
      assembled little-endian and exactly that many are reported read. */
  function Deserialize(s: Storage, data: seq<byte>): (d: Deserialized<Fixint>)
    ensures d.value.storage == s
    ensures d.bytesRead == 0 <==> |data| < Width(s)
    ensures d.bytesRead != 0 ==> d.bytesRead == Width(s) && d.value.value == FromLittleEndian(data[..Width(s)])
    ensures d.bytesRead == 0 ==> d.value.value == 0
  {
    if |data| < Width(s) then Deserialized(Zero(s), 0)
    else Deserialized(Fixint(s, FromLittleEndian(data[..Width(s)])), Width(s))
  }

  /** The integral constructor: only for types no wider than the storage;
      the value is converted to the unsigned storage type, modulo 2^(8 width). */
  function FromIntegral(s: Storage, t: Integral, n: int): (f: Fixint)
    requires t.bits <= 8 * Width(s) && InRange(t, n)
    ensures f.storage == s
    ensures n >= 0 ==> f.value == n
    ensures n < 0 ==> f.value == n + StorageModulus(s)
  {
    Fixint(s, n % StorageModulus(s))
  }

  /** The integral `as<T>()`: `static_cast<T>(m_value)`. */
  function As(f: Fixint, t: Integral): (r: int)
    ensures InRange(t, r)
    ensures InRange(t, f.value) ==> r == f.value
  {
    Truncate(t, f.value)
  }

  // ------------------------------------------------------------------ lemmas

  lemma {:induction false} FromLittleEndianOfLittleEndian(v: nat, n: nat)
    requires v < ByteModulus(n)
    ensures FromLittleEndian(LittleEndian(v, n)) == v
  {
    if n > 0 {
      assert LittleEndian(v, n)[1..] == LittleEndian(v / 0x100, n - 1);
      FromLittleEndianOfLittleEndian(v / 0x100, n - 1);
    }
  }

  lemma {:induction false} LittleEndianOfFromLittleEndian(s: seq<byte>)
    ensures LittleEndian(FromLittleEndian(s), |s|) == s
  {
    if s != [] {
      LittleEndianOfFromLittleEndian(s[1..]);
      var v := FromLittleEndian(s);
      assert v % 0x100 == s[0] && v / 0x100 == FromLittleEndian(s[1..]);
    }
  }

  lemma {:induction false} FromLittleEndianAppend(s: seq<byte>, b: byte)
    ensures FromLittleEndian(s + [b]) == FromLittleEndian(s) + b * ByteModulus(|s|)
  {
    if s != [] {
      assert (s + [b])[1..] == s[1..] + [b];
      FromLittleEndianAppend(s[1..], b);
      var q := ByteModulus(|s| - 1);
      assert 0x100 * (FromLittleEndian(s[1..]) + b * q) == 0x100 * FromLittleEndian(s[1..]) + b * (0x100 * q);
    }
  }

  /** Byte i of the encoding is `(v >> 8i) & 0xFF`. */
  lemma {:induction false} LittleEndianByte(v: nat, n: nat, i: nat)
    requires i < n
    ensures LittleEndian(v, n)[i] == (v / ByteModulus(i)) % 0x100
  {
    if i > 0 {
      LittleEndianByte(v / 0x100, n - 1, i - 1);
      Facts.DivDiv(v, 0x100, ByteModulus(i - 1));
    }
  }

  /** Round trip for every value of both storage types: deserializing what
      `serialize` writes, followed by anything, gives the value back with
      exactly 4 or 8 bytes read; the excess is ignored. */
  lemma {:induction false} RoundTrip(f: Fixint, rest: seq<byte>)
    ensures Deserialize(f.storage, LittleEndian(f.value, Size(f)) + rest) == Deserialized(f, Size(f))
  {
    var bytes := LittleEndian(f.value, Size(f)) + rest;
    assert bytes[..Width(f.storage)] == LittleEndian(f.value, Size(f));
    FromLittleEndianOfLittleEndian(f.value, Size(f));
  }

  /** With enough bytes, the first 4 or 8 are read and the rest ignored. */
  lemma {:induction false} DeserializeIgnoresExcess(s: Storage, data: seq<byte>, rest: seq<byte>)
    requires |data| >= Width(s)
    ensures Deserialize(s, data + rest) == Deserialize(s, data)
    ensures Deserialize(s, data).bytesRead == Width(s)
    ensures LittleEndian(Deserialize(s, data).value.value, Width(s)) == data[..Width(s)]
  {
    assert (data + rest)[..Width(s)] == data[..Width(s)];
    LittleEndianOfFromLittleEndian(data[..Width(s)]);
  }

  /** Construction from an integral type and `as<T>()` back to it is the
      identity on values that type can hold. */
  lemma {:induction false} IntegralRoundTrip(s: Storage, t: Integral, n: int)
    requires t.bits <= 8 * Width(s) && InRange(t, n)
    ensures As(FromIntegral(s, t, n), t) == n
  {
    StorageModuli();
    if n < 0 {
      NegativeTruncate(StorageModulus(s), t, n);
    }
  }

  /** A negative value of t stored in 32 or 64 bits as n + 2^32 or n + 2^64
      truncates back to n. */
  lemma {:induction false} NegativeTruncate(m: nat, t: Integral, n: int)
    requires (m == TWO_32 && t.bits <= 32) || m == TWO_64
    requires InRange(t, n) && n < 0
    ensures Truncate(t, n + m) == n
  {
    if t.bits == 8 {
      assert (n + m) % 0x100 == n + 0x100 by {
        if m == TWO_32 { assert n + m == 0x100_0000 * 0x100 + (n + 0x100) - 0x100; }
        else { assert n + m == 0x100_0000_0000_0000 * 0x100 + (n + 0x100) - 0x100; }
      }
    } else if t.bits == 16 {
      assert (n + m) % 0x1_0000 == n + 0x1_0000;
    } else if t.bits == 32 {
      assert (n + m) % TWO_32 == n + TWO_32;
    } else {
      assert (n + m) % TWO_64 == n + TWO_64;
    }
  }

  // ---------------------------------------------------------------- serialize

  /** `serialize(span)` on `buffer[off..]`: fails before writing anything when
      the span is shorter than `size()`, otherwise writes the little-endian
      bytes, shifting a copy of the value right by 8 after each, and returns
      4 or 8. */
  method Serialize(f: Fixint, buffer: array<byte>, off: nat) returns (r: Result<nat>)
    requires off <= buffer.Length
    modifies buffer
    ensures r == if buffer.Length - off < Size(f) then Err(NotEnoughSpace) else Ok(Size(f))
    ensures r.Err? ==> buffer[..] == old(buffer[..])
    ensures r.Ok? ==> WroteAt(old(buffer[..]), buffer[..], off, LittleEndian(f.value, Size(f)))
  {
    if buffer.Length - off < Size(f) {
      return Err(NotEnoughSpace);
    }
    var n := Width(f.storage);
    ghost var bytes := LittleEndian(f.value, n);
    var value: nat := f.value;
    for i := 0 to n
      invariant LittleEndian(value, n - i) == bytes[i..]
      invariant forall k :: 0 <= k < i ==> buffer[off + k] == bytes[k]
      invariant forall k :: 0 <= k < buffer.Length && !(off <= k < off + i) ==> buffer[k] == old(buffer[k])
    {
      assert bytes[i..][0] == value % 0x100 && bytes[i + 1..] == bytes[i..][1..];
      buffer[off + i] := value % 0x100;
      value := value / 0x100;
    }
    assert buffer[off..off + n] == bytes;
    assert buffer[..off] == old(buffer[..off]);
    assert buffer[off + n..] == old(buffer[off + n..]);
    return Ok(n);
  }
}
