/** The struct description of Encoding.h and Concepts.h. A struct's
    `members` list becomes a schema, an ordered list of member types; a struct
    value becomes the list of its member values, integers as their values,
    `bool` as 0 or 1 and `float`/`double` as their IEEE-754 bit patterns. */
module Encoding {
  import opened Wire
  import VarintCodec
  import FixintCodec
  import Records

  /** The type of one struct member. */
  datatype MemberType = Int(t: Integral) | Bool | Float | Double

  type Schema = seq<MemberType>

  /** v is a value of a member of type m. */
  predicate ValueOk(m: MemberType, v: int)
  {
    match m
    case Int(t) => InRange(t, v)
    case Bool => v == 0 || v == 1
    case Float => 0 <= v < TWO_32
    case Double => 0 <= v < TWO_64
  }

  /** obj is a value of the struct the schema describes. */
  predicate Conforms(schema: Schema, obj: seq<int>)
  {
    && |obj| == |schema|
    && forall i :: 0 <= i < |schema| ==> ValueOk(schema[i], obj[i])
  }

  /** The floating-point conversions the codec relies on, given as opaque
      functions on bit patterns: float to double, double to float, and an
      integer converted to float or to double. */
  datatype FloatConversions = FloatConversions(
    widen: U32 -> U64,
    narrow: U64 -> U32,
    floatOf: int -> U32,
    doubleOf: int -> U64)

  /** `static_cast<M>(n)` of an integer n: truncation for integral types,
      `n != 0` for bool, and the given conversion for floating point. */
  function Cast(m: MemberType, n: int, conv: FloatConversions): (r: int)
    ensures ValueOk(m, r)
    ensures m.Int? ==> (r - n) % Modulus(m.t) == 0
    ensures m.Int? && InRange(m.t, n) ==> r == n
    ensures m.Bool? ==> (r == 1 <==> n != 0)
  {
    match m
    case Int(t) => Truncate(t, n)
    case Bool => if n != 0 then 1 else 0
    case Float => conv.floatOf(n)
    case Double => conv.doubleOf(n)
  }

  /** The member index of a 1-based field number: `field - 1` in 64-bit
      unsigned arithmetic, so field 0 wraps to the largest index. */
  function SlotIndex(f: Field): (idx: nat)
    ensures f >= 1 ==> idx == f - 1
    ensures f == 0 ==> idx == TWO_64 - 1
  {
    (f - 1) % TWO_64
  }

  /** `MemberEncoding<M>::type`: Varint for integral members (bool
      included), `Fixint<uint32_t>` for float and `Fixint<uint64_t>` for
      double. */
  function EncodingKind(m: MemberType): (k: Records.Kind)
    ensures Records.WireTypeOf(k) == VARINT <==> (m.Int? || m.Bool?)
    ensures Records.WireTypeOf(k) == FIXED32 <==> m.Float?
    ensures Records.WireTypeOf(k) == FIXED64 <==> m.Double?
  {
    match m
    case Int(_) => Records.KVarint
    case Bool => Records.KVarint
    case Float => Records.KFixint(FixintCodec.U32Storage)
    case Double => Records.KFixint(FixintCodec.U64Storage)
  }

  /** `EncodingType encoded_obj{member}`: the zigzag-aware Varint constructor,
      or the Fixint that holds the floating-point bit pattern. */
  function EncodeMember(m: MemberType, v: int): (p: Records.Payload)
    requires ValueOk(m, v)
    ensures Records.KindOf(p) == EncodingKind(m)
  {
    match m
    case Int(t) => Records.PVarint(VarintCodec.FromIntegral(t, v))
    case Bool => Records.PVarint(VarintCodec.Varint(v))
    case Float => Records.PFixint(FixintCodec.Fixint(FixintCodec.U32Storage, v))
    case Double => Records.PFixint(FixintCodec.Fixint(FixintCodec.U64Storage, v))
  }

  /** `InterpretableAs<Wired, M>` of Concepts.h: Varint offers `as<T>` for
      integral types, Fixint for every arithmetic type, Varlen for none. */
  predicate Interpretable(k: Records.Kind, m: MemberType)
  {
    match k
    case KVarint => m.Int? || m.Bool?
    case KFixint(_) => true
    case KVarlen => false
  }

  /** Every member's own encoding can be read back as that member's type. */
  lemma {:induction false} EncodingIsInterpretable(m: MemberType)
    ensures Interpretable(EncodingKind(m), m)
  {
  }
}
