/** The `Varint` class of Varint.h: a base-128 variable-length unsigned
    64-bit integer, with zigzag construction from and interpretation as
    signed integral types. */
module VarintCodec {
  import opened Wire
  import Facts

  datatype Varint = Varint(value: U64)

  const WIRE_TYPE: WireType := VARINT

  /** The bytes `serialize` writes for v: seven bits per byte, lowest group
      first, the continuation bit 0x80 on every byte but the last. */
  function Encode(v: nat): (r: seq<byte>)
    ensures |r| >= 1
    decreases v
  {
    if v < 0x80 then [v] else [v % 0x80 + 0x80] + Encode(v / 0x80)
  }

  /** Every byte of an encoding but the last has 0x80 set; the last has it clear. */
  lemma {:induction false} EncodeContinuationBits(v: nat)
    ensures forall i :: 0 <= i < |Encode(v)| - 1 ==> Encode(v)[i] >= 0x80
    ensures Encode(v)[|Encode(v)| - 1] < 0x80
    decreases v
  {
    if v >= 0x80 {
      EncodeContinuationBits(v / 0x80);
      assert Encode(v) == [v % 0x80 + 0x80] + Encode(v / 0x80);
    }
  }

  /** `std::bit_width`: the number of bits needed to write v. */
  function BitWidth(v: nat): nat
  {
    if v == 0 then 0 else 1 + BitWidth(v / 2)
  }

  /** `size()`: 1 for zero, otherwise the bit width rounded up to 7-bit groups. */
  function Size(v: Varint): (n: nat)
    ensures n >= 1
  {
    if v.value == 0 then 1 else (BitWidth(v.value) + 6) / 7
  }

  lemma {:induction false} BitWidthBelow(v: nat, k: nat)
    requires v < Pow2(k)
    ensures BitWidth(v) <= k
  {
    if v > 0 {
      BitWidthBelow(v / 2, k - 1);
    }
  }

  lemma {:induction false} BitWidthExact(v: nat, k: nat)
    requires 1 <= k && Pow2(k - 1) <= v < Pow2(k)
    ensures BitWidth(v) == k
  {
    if k > 1 {
      BitWidthExact(v / 2, k - 1);
    }
  }

  lemma {:induction false} BitWidthDiv128(v: nat)
    requires v >= 0x80
    ensures BitWidth(v) == 7 + BitWidth(v / 0x80)
  {
    var v1 := v / 2;
    var v2 := v1 / 2;
    var v3 := v2 / 2;
    var v4 := v3 / 2;
    var v5 := v4 / 2;
    var v6 := v5 / 2;
    var v7 := v6 / 2;
    assert v7 == v / 0x80;
    assert BitWidth(v) == 1 + BitWidth(v1);
    assert BitWidth(v1) == 1 + BitWidth(v2);
    assert BitWidth(v2) == 1 + BitWidth(v3);
    assert BitWidth(v3) == 1 + BitWidth(v4);
    assert BitWidth(v4) == 1 + BitWidth(v5);
    assert BitWidth(v5) == 1 + BitWidth(v6);
    assert BitWidth(v6) == 1 + BitWidth(v7);
  }

  /** `serialize` writes exactly `size()` bytes. */
  lemma {:induction false} SizeIsEncodedLength(v: U64)
    ensures Size(Varint(v)) == |Encode(v)|
    decreases v
  {
    if v >= 0x80 {
      BitWidthDiv128(v);
      SizeIsEncodedLength(v / 0x80);
    } else if v > 0 {
      BitWidthBelow(v, 7);
    }
  }

  /** Every u64 takes between 1 and 10 bytes. */
  lemma {:induction false} SizeRange(v: U64)
    ensures 1 <= Size(Varint(v)) <= 10
  {
    Pow2Of64();
    BitWidthBelow(v, 64);
  }

  /** The boundaries `2^(7i) - 1` (i bytes) and `2^(7i)` (i + 1 bytes), and
      the largest u64 (10 bytes). */
  lemma {:induction false} SizeBoundaries(i: nat)
    requires 1 <= i <= 9
    ensures Pow2(7 * i) < TWO_64
    ensures Size(Varint(Pow2(7 * i) - 1)) == i && |Encode(Pow2(7 * i) - 1)| == i
    ensures Size(Varint(Pow2(7 * i))) == i + 1 && |Encode(Pow2(7 * i))| == i + 1
    ensures Size(Varint(TWO_64 - 1)) == 10 && |Encode(TWO_64 - 1)| == 10
  {
    Pow2Of64();
    Pow2Monotone(7 * i, 63);
    var k := 7 * i;
    assert Pow2(k) == 2 * Pow2(k - 1);
    BitWidthExact(Pow2(k) - 1, k);
    BitWidthExact(Pow2(k), k + 1);
    BitWidthExact(TWO_64 - 1, 64);
    SizeIsEncodedLength(Pow2(k) - 1);
    SizeIsEncodedLength(Pow2(k));
    SizeIsEncodedLength(TWO_64 - 1);
  }

  /** Zero is the single byte 0x00; 150 is [0x96, 0x01]. */
  lemma {:induction false} EncodeLiterals()
    ensures Encode(0) == [0x00] && Size(Varint(0)) == 1
    ensures Encode(150) == [0x96, 0x01] && Size(Varint(150)) == 2
  {
    assert BitWidth(150) == 8 by {
      assert Pow2(7) == 0x80 && Pow2(8) == 0x100;
      BitWidthExact(150, 8);
    }
  }

  // ---------------------------------------------------------------- decoding

  /** How many bytes `deserialize` consumes: up to and including the first
      byte without the continuation bit, or all of the input if none. */
  function ReadLength(data: seq<byte>): (n: nat)
    ensures n <= |data|
    ensures n == 0 <==> data == []
  {
    if data == [] then 0
    else if data[0] < 0x80 then 1
    else 1 + ReadLength(data[1..])
  }

  /** The 7-bit groups of s read as a little-endian base-128 number. */
  function GroupValue(s: seq<byte>): nat
  {
    if s == [] then 0 else s[0] % 0x80 + 0x80 * GroupValue(s[1..])
  }

  /** The specification of `deserialize`: the groups of the bytes it reads,
      kept to 64 bits, and the count of those bytes. A group shifted by 64 or
      more bits (undefined in C++) contributes nothing here. */
  function Decode(data: seq<byte>): (r: Deserialized<Varint>)
    ensures r.bytesRead <= |data|
    ensures r.bytesRead == 0 <==> data == []
    ensures data == [] ==> r.value.value == 0
  {
    var n := ReadLength(data);
    Deserialized(Varint(GroupValue(data[..n]) % TWO_64), n)
  }

  lemma {:induction false} GroupValueAppend(p: seq<byte>, b: byte)
    ensures GroupValue(p + [b]) == GroupValue(p) + (b % 0x80) * Pow2(7 * |p|)
  {
    if p != [] {
      assert (p + [b])[1..] == p[1..] + [b];
      GroupValueAppend(p[1..], b);
      var q := Pow2(7 * (|p| - 1));
      Pow2Plus7(7 * (|p| - 1));
      assert 7 * (|p| - 1) + 7 == 7 * |p|;
      Facts.ScaleProduct(b % 0x80, q);
    }
  }

  /** `deserialize` reads 0 bytes exactly on empty input; otherwise it stops
      at the first byte without the continuation bit, or reads everything. */
  lemma {:induction false} ReadLengthStopsAtTerminator(data: seq<byte>, n: nat)
    requires n <= |data|
    requires forall i :: 0 <= i < n ==> data[i] >= 0x80
    ensures n < |data| && data[n] < 0x80 ==> ReadLength(data) == n + 1
    ensures n == |data| ==> ReadLength(data) == |data|
  {
    if n > 0 {
      ReadLengthStopsAtTerminator(data[1..], n - 1);
    }
  }

  lemma {:induction false} ReadLengthOfEncoding(v: nat, rest: seq<byte>)
    ensures ReadLength(Encode(v) + rest) == |Encode(v)|
    decreases v
  {
    if v >= 0x80 {
      assert (Encode(v) + rest)[1..] == Encode(v / 0x80) + rest;
      ReadLengthOfEncoding(v / 0x80, rest);
    }
  }

  lemma {:induction false} GroupValueOfEncoding(v: nat)
    ensures GroupValue(Encode(v)) == v
    decreases v
  {
    if v >= 0x80 {
      assert Encode(v)[1..] == Encode(v / 0x80);
      GroupValueOfEncoding(v / 0x80);
    }
  }

  /** Round trip: decoding the encoding of v, followed by anything, gives v
      back and consumes exactly `size()` bytes; trailing bytes are ignored. */
  lemma {:induction false} RoundTrip(v: U64, rest: seq<byte>)
    ensures Decode(Encode(v) + rest) == Deserialized(Varint(v), Size(Varint(v)))
  {
    var e := Encode(v);
    var data := e + rest;
    ReadLengthOfEncoding(v, rest);
    assert data[..|e|] == e;
    GroupValueOfEncoding(v);
    assert GroupValue(data[..ReadLength(data)]) % TWO_64 == v;
    SizeIsEncodedLength(v);
  }

  lemma {:induction false} ReadLengthIgnoresTail(data: seq<byte>, rest: seq<byte>)
    requires data != [] && ReadLength(data) == |data| && data[|data| - 1] < 0x80
    ensures ReadLength(data + rest) == |data|
  {
    if |data| > 1 {
      assert data[0] >= 0x80;
      assert (data + rest)[1..] == data[1..] + rest;
      ReadLengthIgnoresTail(data[1..], rest);
    }
  }

  /** Bytes after the terminating byte do not affect the result. */
  lemma {:induction false} DecodeIgnoresTail(data: seq<byte>, rest: seq<byte>)
    requires data != [] && ReadLength(data) == |data| && data[|data| - 1] < 0x80
    ensures Decode(data + rest) == Decode(data)
  {
    ReadLengthIgnoresTail(data, rest);
    assert (data + rest)[..|data|] == data;
    assert data[..|data|] == data;
  }

  /** An input whose every byte carries the continuation bit is reported as
      fully read rather than as a failure (0 bytes read). */
  lemma {:induction false} UnterminatedReadsEverything(data: seq<byte>)
    requires forall i :: 0 <= i < |data| ==> data[i] >= 0x80
    ensures Decode(data).bytesRead == |data|
  {
    ReadLengthStopsAtTerminator(data, |data|);
  }

  // ------------------------------------------------------------ the methods

  /** `serialize(span)` on the span `buffer[off..]`: fails before writing
      anything when the span is shorter than `size()`, otherwise writes the
      encoding at its start and returns its length. */
  method Serialize(v: Varint, buffer: array<byte>, off: nat) returns (r: Result<nat>)
    requires off <= buffer.Length
    modifies buffer
    ensures r == if buffer.Length - off < Size(v) then Err(NotEnoughSpace) else Ok(Size(v))
    ensures r.Err? ==> buffer[..] == old(buffer[..])
    ensures r.Ok? ==> WroteAt(old(buffer[..]), buffer[..], off, Encode(v.value))
  {
    if buffer.Length - off < Size(v) {
      return Err(NotEnoughSpace);
    }
    SizeIsEncodedLength(v.value);
    ghost var enc := Encode(v.value);
    var value: nat := v.value;
    var written: nat := 0;
    var more := true;
    while more
      invariant written <= |enc| && off + |enc| <= buffer.Length
      invariant more ==> Encode(value) == enc[written..]
      invariant !more ==> written == |enc|
      invariant forall i :: 0 <= i < written ==> buffer[off + i] == enc[i]
      invariant forall i :: 0 <= i < buffer.Length && !(off <= i < off + written) ==> buffer[i] == old(buffer[i])
      decreases value, more
    {
      // do { byte = value & 0x7f; value >>= 7; if (value != 0) byte |= 0x80; ... } while (value != 0)
      EncodeStep(value);
      var b: byte := value % 0x80;
      value := value / 0x80;
      if value != 0 {
        b := b + 0x80;
      }
      buffer[off + written] := b;
      written := written + 1;
      more := value != 0;
    }
    assert buffer[off..off + |enc|] == enc;
    assert buffer[..off] == old(buffer[..off]);
    assert buffer[off + |enc|..] == old(buffer[off + |enc|..]);
    return Ok(written);
  }

  lemma {:induction false} EncodeStep(v: nat)
    ensures Encode(v)[0] == v % 0x80 + (if v / 0x80 != 0 then 0x80 else 0)
    ensures v / 0x80 != 0 ==> Encode(v)[1..] == Encode(v / 0x80)
    ensures v / 0x80 == 0 ==> |Encode(v)| == 1
  {
  }

  /** `deserialize`: ORs the 7-bit groups in at shifts 0, 7, 14, ... and
      stops after the first byte without the continuation bit. */
  method Deserialize(data: seq<byte>) returns (d: Deserialized<Varint>)
    ensures d == Decode(data)
  {
    var result: U64 := 0;
    var numBytesRead: nat := 0;
    var shift: nat := 0;
    while numBytesRead < |data|
      invariant numBytesRead <= |data|
      invariant shift == 7 * numBytesRead
      invariant forall i :: 0 <= i < numBytesRead ==> data[i] >= 0x80
      invariant result == GroupValue(data[..numBytesRead]) % TWO_64
    {
      var b := data[numBytesRead];
      // the group lands on bits at or above `shift`, where `result` is still
      // zero, so `|=` adds it; `<<` on uint64_t drops what passes bit 63
      GroupValueAppend(data[..numBytesRead], b);
      assert data[..numBytesRead + 1] == data[..numBytesRead] + [b];
      ModAdd64(GroupValue(data[..numBytesRead]), (b % 0x80) * Pow2(shift));
      result := (result + (b % 0x80) * Pow2(shift)) % TWO_64;
      numBytesRead := numBytesRead + 1;
      assert result == GroupValue(data[..numBytesRead]) % TWO_64;
      if b < 0x80 {
        ReadLengthStopsAtTerminator(data, numBytesRead - 1);
        assert ReadLength(data) == numBytesRead;
        assert Decode(data) == Deserialized(Varint(result), numBytesRead);
        return Deserialized(Varint(result), numBytesRead);
      }
      shift := shift + 7;
    }
    ReadLengthStopsAtTerminator(data, numBytesRead);
    assert data[..numBytesRead] == data;
    return Deserialized(Varint(result), numBytesRead);
  }

  // ------------------------------------------------- integral interop, zigzag

  /** `Varint(T value)`: an unsigned value is stored as it is; a signed one
      as `(value << 1) ^ (value >> (bits - 1))`, evaluated in the promoted
      type (int for types of up to 32 bits, otherwise int64_t) and then
      converted to uint64_t. */
  function FromIntegral(t: Integral, n: int): (v: Varint)
    requires InRange(t, n)
    ensures !t.signed ==> v.value == n
    ensures n == 0 ==> v.value == 0
  {
    if !t.signed then Varint(n)
    else
      var p := if t.bits <= 32 then TWO_32 else TWO_64;    // 2^(width of the promoted type)
      var shifted := (2 * n) % p;                           // value << 1, wrapping as in C++20
      var pattern := if n < 0 then p - 1 - shifted else shifted;  // ^ with all ones or with zero
      var promoted := if pattern >= p / 2 then pattern - p else pattern;  // the signed result
      Varint(promoted % TWO_64)                             // to uint64_t: sign-extends
  }

  /** `as<T>()`: for a signed T, `(m >> 1) ^ -(m & 1)` computed in uint64_t
      and cast to T; for an unsigned T, a plain cast. */
  function As(t: Integral, v: Varint): (r: int)
    ensures InRange(t, r)
    ensures !t.signed && v.value < Modulus(t) ==> r == v.value
  {
    if t.signed then
      var half := v.value / 2;
      Truncate(t, if v.value % 2 == 0 then half else TWO_64 - 1 - half)
    else Truncate(t, v.value)
  }

  /** Unsigned values round-trip through `Varint(T)` and `as<T>()`. */
  lemma {:induction false} UnsignedRoundTrip(t: Integral, n: int)
    requires !t.signed && InRange(t, n)
    ensures FromIntegral(t, n).value == n
    ensures As(t, FromIntegral(t, n)) == n
  {
  }

  /** The zigzag mapping sends 0, -1, 1 to 0, 1, 2 for every signed type. */
  lemma {:induction false} ZigzagSmallValues(t: Integral)
    requires t.signed
    ensures FromIntegral(t, 0).value == 0
    ensures FromIntegral(t, -1).value == 1
    ensures FromIntegral(t, 1).value == 2
  {
  }

  lemma {:induction false} ZigzagRoundTripNarrow(t: Integral, n: int)
    requires t.signed && t.bits < 32 && InRange(t, n)
    ensures As(t, FromIntegral(t, n)) == n
  {
    if n >= 0 {
      ZigzagNonNegative(t, n);
    } else {
      ZigzagNegativeNarrow(t, n);
    }
  }

  /** A non-negative n that fits in half the promoted width zigzags to 2n. */
  lemma {:induction false} ZigzagNonNegative(t: Integral, n: int)
    requires t.signed && InRange(t, n) && 0 <= n && (t.bits == 32 ==> n < 0x4000_0000)
    ensures FromIntegral(t, n).value == 2 * n
    ensures As(t, FromIntegral(t, n)) == n
  {
    var m := FromIntegral(t, n).value;
    assert m == 2 * n;
    assert m / 2 == n;
  }

  lemma {:induction false} ZigzagNegativeNarrow(t: Integral, n: int)
    requires t.signed && t.bits < 32 && InRange(t, n) && n < 0
    ensures As(t, FromIntegral(t, n)) == n
  {
    var m := FromIntegral(t, n).value;
    assert m == -2 * n - 1;
    assert m / 2 == -n - 1 && m % 2 == 1;
    assert TWO_64 - 1 - m / 2 == TWO_64 + n;
    TruncateWrapped(t, n);
  }

  /** A negative int8 or int16 sign-extended to 64 bits truncates back to itself. */
  lemma {:induction false} TruncateWrapped(t: Integral, n: int)
    requires t.signed && t.bits < 32 && InRange(t, n) && n < 0
    ensures Truncate(t, TWO_64 + n) == n
  {
    if t.bits == 8 {
      assert (TWO_64 + n) % 0x100 == n + 0x100;
    } else {
      assert (TWO_64 + n) % 0x1_0000 == n + 0x1_0000;
    }
  }

  lemma {:induction false} ZigzagRoundTrip64(t: Integral, n: int)
    requires t.signed && t.bits == 64 && InRange(t, n)
    ensures As(t, FromIntegral(t, n)) == n
  {
    if n >= 0 {
      ZigzagNonNegative(t, n);
    } else {
      ZigzagNegative64(t, n);
    }
  }

  lemma {:induction false} ZigzagNegative64(t: Integral, n: int)
    requires t.signed && t.bits == 64 && InRange(t, n) && n < 0
    ensures As(t, FromIntegral(t, n)) == n
  {
    assert (2 * n) % TWO_64 == 2 * n + TWO_64;
    var m := FromIntegral(t, n).value;
    assert m == -2 * n - 1;
    assert m / 2 == -n - 1 && m % 2 == 1;
    assert Truncate(t, TWO_64 + n) == n;
  }

  lemma {:induction false} ZigzagRoundTrip32(t: Integral, n: int)
    requires t.signed && t.bits == 32 && InRange(t, n)
    ensures -0x4000_0000 <= n < 0x4000_0000 ==> As(t, FromIntegral(t, n)) == n
    ensures n >= 0x4000_0000 ==> As(t, FromIntegral(t, n)) == n - 0x8000_0000
    ensures n < -0x4000_0000 ==> As(t, FromIntegral(t, n)) == n + 0x8000_0000
  {
    if 0 <= n < 0x4000_0000 {
      ZigzagNonNegative(t, n);
    } else if -0x4000_0000 <= n < 0 {
      Zigzag32SmallNegative(t, n);
    } else if n >= 0x4000_0000 {
      Zigzag32LargePositive(t, n);
    } else {
      Zigzag32LargeNegative(t, n);
    }
  }

  lemma {:induction false} Zigzag32SmallNegative(t: Integral, n: int)
    requires t.signed && t.bits == 32 && -0x4000_0000 <= n < 0
    ensures As(t, FromIntegral(t, n)) == n
  {
    var m := FromIntegral(t, n).value;
    assert m == -2 * n - 1;
    assert m / 2 == -n - 1;
    var d := TWO_64 + n;
    assert TWO_64 - 1 - m / 2 == d;
    assert d % TWO_32 == n + TWO_32;
  }

  /** int32 values of 2^30 and above lose their top bit: `2 * n` wraps in
      int and is sign-extended, so decoding gives n - 2^31. */
  lemma {:induction false} Zigzag32LargePositive(t: Integral, n: int)
    requires t.signed && t.bits == 32 && 0x4000_0000 <= n < 0x8000_0000
    ensures As(t, FromIntegral(t, n)) == n - 0x8000_0000
  {
    var m := FromIntegral(t, n).value;
    assert m == 2 * n - TWO_32 + TWO_64;
    var d := n - 0x8000_0000 + TWO_64 / 2;
    assert m / 2 == d;
    assert d % TWO_32 == n + 0x8000_0000;
  }

  /** int32 values below -2^30 come back as n + 2^31. */
  lemma {:induction false} Zigzag32LargeNegative(t: Integral, n: int)
    requires t.signed && t.bits == 32 && -0x8000_0000 <= n < -0x4000_0000
    ensures As(t, FromIntegral(t, n)) == n + 0x8000_0000
  {
    var m := FromIntegral(t, n).value;
    assert m == -2 * n - 1 - TWO_32 + TWO_64;
    assert m / 2 == -n - 1 - 0x8000_0000 + TWO_64 / 2;
    var d := TWO_64 - 1 - m / 2;
    assert d == n + 0x8000_0000 + TWO_64 / 2;
    assert d % TWO_32 == n + 0x8000_0000;
  }

  /** Zigzag round trip: `Varint(n).as<T>() == n` for every signed type
      except int32_t, where (the zigzag being computed in int and
      sign-extended) it holds exactly for n in [-2^30, 2^30). */
  lemma {:induction false} ZigzagRoundTrip(t: Integral, n: int)
    requires t.signed && InRange(t, n)
    ensures As(t, FromIntegral(t, n)) == n <==> (t.bits != 32 || -0x4000_0000 <= n < 0x4000_0000)
  {
    if t.bits < 32 {
      ZigzagRoundTripNarrow(t, n);
    } else if t.bits == 64 {
      ZigzagRoundTrip64(t, n);
    } else {
      ZigzagRoundTrip32(t, n);
    }
  }
}
