/** Shared wire-level definitions: integer widths, wire types, field numbers,
    the (value, bytes read) pair that every decoder returns, and the errors
    the C++ code throws. */
module Wire {
  import Facts

  const TWO_32: nat := 0x1_0000_0000
  const TWO_64: nat := 0x1_0000_0000_0000_0000

  type byte = x: int | 0 <= x < 0x100
  type U32 = x: int | 0 <= x < 0x1_0000_0000
  type U64 = x: int | 0 <= x < 0x1_0000_0000_0000_0000

  /** A byte vector or span: its size is a size_t, so fewer than 2^64 bytes. */
  type Bytes = s: seq<byte> | |s| < 0x1_0000_0000_0000_0000

  /** A C++ integral type other than bool: its width in bits and signedness. */
  datatype IntType = IntType(bits: nat, signed: bool)

  type Integral = t: IntType | t.bits == 8 || t.bits == 16 || t.bits == 32 || t.bits == 64
    witness IntType(8, false)

  /** 2^bits for an integral type. */
  function Modulus(t: Integral): nat
  {
    if t.bits == 8 then 0x100
    else if t.bits == 16 then 0x1_0000
    else if t.bits == 32 then TWO_32
    else TWO_64
  }

  /** n is a value of type t. */
  predicate InRange(t: Integral, n: int)
  {
    if t.signed then -(Modulus(t) / 2) <= n < Modulus(t) / 2 else 0 <= n < Modulus(t)
  }

  /** `static_cast<T>(x)` of an integer: the value modulo 2^bits, read as two's
      complement when T is signed. */
  function Truncate(t: Integral, x: int): (r: int)
    ensures InRange(t, r)
    ensures InRange(t, x) ==> r == x
    ensures (r - x) % Modulus(t) == 0
  {
    var m := Modulus(t);
    var low := x % m;
    Facts.ReduceModulo(x, m);
    if t.signed && low >= m / 2 then low - m else low
  }

  /** The 3-bit wire type. The enumeration names four values; a key's low
      three bits can hold any of eight, and casting them to WireType does
      not reject 3, 4, 6 or 7. */
  type WireType = x: nat | x < 8

  const VARINT: WireType := 0
  const FIXED64: WireType := 1
  const LEN: WireType := 2
  const FIXED32: WireType := 5

  /** The strongly typed field number: an unsigned 64-bit value. */
  type Field = U64

  /** What a deserialize call produces: the value and the bytes consumed.
      Zero bytes read signals failure. */
  datatype Deserialized<+T> = Deserialized(value: T, bytesRead: nat)

  /** The exceptions the C++ code throws, as values. */
  datatype Error =
    | NotEnoughSpace     // runtime_error: serialize buffer smaller than size()
    | WrongWireType      // runtime_error: Record key's wire type differs from the payload's
    | KeyParseError      // runtime_error: no key varint could be read
    | ValueParseError    // runtime_error: a payload decoder read 0 bytes
    | NoSuchField        // logic_error: field index outside the member list
    | IncompatibleType   // logic_error: payload cannot be interpreted as the member's type

  datatype Result<+T> = Ok(value: T) | Err(error: Error)

  function Pow2(n: nat): (r: nat)
    ensures r >= 1
  {
    if n == 0 then 1 else 2 * Pow2(n - 1)
  }

  lemma {:induction false} Pow2Monotone(a: nat, b: nat)
    requires a <= b
    ensures Pow2(a) <= Pow2(b)
  {
    if a < b {
      Pow2Monotone(a, b - 1);
    }
  }

  lemma {:induction false} Pow2Plus7(n: nat)
    ensures Pow2(n + 7) == 128 * Pow2(n)
  {
    assert Pow2(n + 7) == 2 * Pow2(n + 6);
    assert Pow2(n + 6) == 2 * Pow2(n + 5);
    assert Pow2(n + 5) == 2 * Pow2(n + 4);
    assert Pow2(n + 4) == 2 * Pow2(n + 3);
    assert Pow2(n + 3) == 2 * Pow2(n + 2);
    assert Pow2(n + 2) == 2 * Pow2(n + 1);
  }

  lemma {:induction false} Pow2Plus8(n: nat)
    ensures Pow2(n + 8) == 256 * Pow2(n)
  {
    Pow2Plus7(n + 1);
  }

  lemma {:induction false} Pow2Of64()
    ensures Pow2(63) * 2 == TWO_64 && Pow2(64) == TWO_64 && Pow2(32) == TWO_32
  {
    assert Pow2(8) == 0x100;
    Pow2Plus8(8);
    Pow2Plus8(16);
    Pow2Plus8(24);
    assert Pow2(32) == 0x1_0000_0000;
    Pow2Plus8(32);
    Pow2Plus8(40);
    Pow2Plus8(48);
    Pow2Plus8(56);
    assert Pow2(64) == 2 * Pow2(63);
  }

  /** Reducing modulo 2^64 before an addition does not change the result modulo 2^64. */
  lemma {:induction false} ModAdd64(a: nat, t: nat)
    ensures (a % TWO_64 + t) % TWO_64 == (a + t) % TWO_64
  {
    var q := a / TWO_64;
    assert a == q * TWO_64 + a % TWO_64;
  }

  /** `views::drop(n)`: the suffix after n elements, empty when n passes the end. */
  function Drop(data: seq<byte>, n: nat): seq<byte>
  {
    if n <= |data| then data[n..] else []
  }

  /** `after` is `before` with `bytes` written at offset `off` and nothing else changed. */
  ghost predicate WroteAt(before: seq<byte>, after: seq<byte>, off: nat, bytes: seq<byte>)
  {
    && |after| == |before|
    && off + |bytes| <= |before|
    && after[off..off + |bytes|] == bytes
    && after[..off] == before[..off]
    && after[off + |bytes|..] == before[off + |bytes|..]
  }

  /** Two adjacent writes make one write of the concatenation. */
  lemma {:induction false} WroteAtCompose(a: seq<byte>, b: seq<byte>, c: seq<byte>, off: nat, x: seq<byte>, y: seq<byte>)
    requires WroteAt(a, b, off, x)
    requires WroteAt(b, c, off + |x|, y)
    ensures WroteAt(a, c, off, x + y)
  {
    assert c[off..off + |x|] == b[off..off + |x|] by {
      assert c[..off + |x|] == b[..off + |x|];
    }
    assert c[off..off + |x + y|] == c[off..off + |x|] + c[off + |x|..off + |x| + |y|];
    assert c[..off] == b[..off] by {
      assert c[..off + |x|] == b[..off + |x|];
    }
  }
}
