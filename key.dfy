/** The record `Key` of Key.h: a 64-bit value packing the field number above
    the three-bit wire type. */
module Keys {
  import opened Wire
  import VarintCodec

  datatype Key = Key(value: U64)

  /** `Key(Varint)`: the varint's raw 64-bit value. */
  function FromVarint(v: VarintCodec.Varint): (k: Key)
    ensures k.value == v.value
  {
    Key(v.value)
  }

  /** `Key(field, wire_type)`: `field << 3 | wire_type` in 64 bits; the shift
      drops the field's top three bits and leaves the low three bits clear
      for the wire type. */
  function FromField(f: Field, w: WireType): (k: Key)
    ensures GetWireType(k) == w
  {
    var m := (f * 8) % TWO_64;
    assert m % 8 == 0 by {
      var q := (f * 8) / TWO_64;
      assert f * 8 == q * TWO_64 + m;
      assert m == 8 * (f - q * (TWO_64 / 8));
    }
    Key(m + w)
  }

  /** `field_number()`: the value shifted right by three. */
  function FieldNumber(k: Key): (f: Field)
    ensures f < TWO_64 / 8
  {
    k.value / 8
  }

  /** `wire_type()`: the low three bits, whichever of the eight values they hold. */
  function GetWireType(k: Key): WireType
  {
    k.value % 8
  }

  /** The defaulted three-way comparison: keys order by their packed value. */
  predicate Less(a: Key, b: Key)
  {
    a.value < b.value
  }

  // ------------------------------------------------------------------ lemmas

  /** The packed value is `field * 8 + wire_type` taken modulo 2^64, and the
      wire type always comes back. */
  lemma {:induction false} FromFieldPacks(f: Field, w: WireType)
    ensures FromField(f, w).value == (f * 8 + w) % TWO_64
    ensures GetWireType(FromField(f, w)) == w
    ensures FieldNumber(FromField(f, w)) == f % (TWO_64 / 8)
  {
    var m := (f * 8) % TWO_64;
    var q := (f * 8) / TWO_64;
    assert f * 8 == q * TWO_64 + m;
    assert m % 8 == 0 && m / 8 == f % (TWO_64 / 8) by {
      assert f == q * (TWO_64 / 8) + m / 8;
      assert m == 8 * (m / 8);
    }
    assert (m + w) / 8 == m / 8;
  }

  /** The field number comes back exactly when it fits in 61 bits. */
  lemma {:induction false} FieldRoundTrip(f: Field, w: WireType)
    ensures FieldNumber(FromField(f, w)) == f <==> f < TWO_64 / 8
  {
    FromFieldPacks(f, w);
  }

  /** Unpacking and repacking a key gives the same key, so every 64-bit value,
      including those whose wire type is 3, 4, 6 or 7, is a key. */
  lemma {:induction false} UnpackRepack(k: Key)
    ensures FromField(FieldNumber(k), GetWireType(k)) == k
  {
    FromFieldPacks(FieldNumber(k), GetWireType(k));
    assert FieldNumber(k) * 8 + GetWireType(k) == k.value;
  }

  /** A key is its field number times eight plus its wire type. */
  lemma {:induction false} Unpack(k: Key)
    ensures k.value == 8 * FieldNumber(k) + GetWireType(k)
  {
  }

  /** Every pair of keys, whatever their wire types, compares by field number
      first and wire type second. */
  lemma {:induction false} LessIsLexicographic(a: Key, b: Key)
    ensures Less(a, b) <==> FieldNumber(a) < FieldNumber(b)
                            || (FieldNumber(a) == FieldNumber(b) && GetWireType(a) < GetWireType(b))
  {
    Unpack(a);
    Unpack(b);
    PackedOrder(FieldNumber(a), GetWireType(a), FieldNumber(b), GetWireType(b));
  }

  /** Field 1: VARINT packs to 0x08 and FIXED32 to 0x0D. */
  lemma {:induction false} Literals()
    ensures FromField(1, VARINT).value == 0x08
    ensures FromField(1, FIXED32).value == 0x0D
  {
  }

  /** For fields below 2^61, key order is the lexicographic order of
      (field number, wire type). */
  lemma {:induction false} OrderIsLexicographic(f1: Field, w1: WireType, f2: Field, w2: WireType)
    requires f1 < TWO_64 / 8 && f2 < TWO_64 / 8
    ensures Less(FromField(f1, w1), FromField(f2, w2)) <==> (f1 < f2 || (f1 == f2 && w1 < w2))
  {
    SmallFieldPacks(f1, w1);
    SmallFieldPacks(f2, w2);
    PackedOrder(f1, w1, f2, w2);
  }

  /** Below 2^61 the shift loses nothing. */
  lemma {:induction false} SmallFieldPacks(f: Field, w: WireType)
    requires f < TWO_64 / 8
    ensures FromField(f, w).value == f * 8 + w
  {
    assert 0 <= f * 8 < TWO_64;
  }

  lemma {:induction false} PackedOrder(f1: int, w1: int, f2: int, w2: int)
    requires 0 <= w1 < 8 && 0 <= w2 < 8
    ensures f1 * 8 + w1 < f2 * 8 + w2 <==> (f1 < f2 || (f1 == f2 && w1 < w2))
  {
    if f1 < f2 {
      assert f1 * 8 + w1 < f1 * 8 + 8 <= f2 * 8;
    } else if f2 < f1 {
      assert f2 * 8 + w2 < f2 * 8 + 8 <= f1 * 8;
    }
  }
}
