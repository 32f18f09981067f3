/** `set(field, value, tuple)` of MemberTuples.h: store a value into the
    tuple slot `field - 1`, converting it to the slot's type. The slots are
    arithmetic member types; the tuple is an array of their values. */
module MemberTuples {
  import opened Wire
  import VarintCodec
  import Records
  import opened Encoding

  /** The value handed to `set`: a plain integer of an integral type, or a
      wire payload. */
  datatype TupleValue = Raw(t: Integral, n: int) | Wired(p: Records.Payload)

  predicate TupleValueOk(v: TupleValue)
  {
    v.Raw? ==> InRange(v.t, v.n)
  }

  /** `assign_to_index`: a plain integer is converted with `static_cast`; a
      Varint or Fixint is not convertible itself, but its `value()` is, so the
      raw stored number (for a Varint, still zigzag-encoded) is converted; a
      Varlen offers neither, and the assignment throws. */
  function AssignValue(elem: MemberType, v: TupleValue, conv: FloatConversions): (r: Result<int>)
    requires TupleValueOk(v)
    ensures r.Ok? ==> ValueOk(elem, r.value)
    ensures r.Err? <==> v.Wired? && v.p.PVarlen?
    ensures r.Err? ==> r.error == IncompatibleType
  {
    match v
    case Raw(_, n) => Ok(Cast(elem, n, conv))
    case Wired(p) =>
      match p
      case PVarint(x) => Ok(Cast(elem, x.value, conv))
      case PFixint(f) => Ok(Cast(elem, f.value, conv))
      case PVarlen(_) => Err(IncompatibleType)
  }

  /** A Varint holding a negative number is stored without undoing the
      zigzag: the Varint of -1 lands in a signed slot as 1. */
  lemma {:induction false} StoresZigzaggedValue(t: Integral, conv: FloatConversions)
    requires t.signed
    ensures AssignValue(Int(t), Wired(Records.PVarint(VarintCodec.FromIntegral(t, -1))), conv) == Ok(1)
    ensures VarintCodec.As(t, VarintCodec.FromIntegral(t, -1)) == -1
  {
    VarintCodec.ZigzagSmallValues(t);
    VarintCodec.ZigzagRoundTrip(t, -1);
  }

  /** A plain integer that fits the slot's integral type is stored unchanged. */
  lemma {:induction false} StoresFittingInteger(elem: Integral, t: Integral, n: int, conv: FloatConversions)
    requires InRange(t, n) && InRange(elem, n)
    ensures AssignValue(Int(elem), Raw(t, n), conv) == Ok(n)
  {
  }

  /** `set(field, value, tuple)`: visits every slot index and assigns at the
      one equal to `field - 1`; when no index matches (field 0, or a field
      beyond the tuple) nothing changes and nothing is thrown; when the
      assignment throws, nothing has been written. */
  method Set(field: Field, value: TupleValue, types: Schema, tuple: array<int>, conv: FloatConversions)
    returns (r: Result<()>)
    requires tuple.Length == |types| < TWO_64
    requires TupleValueOk(value)
    modifies tuple
    ensures SlotIndex(field) >= |types| ==> r == Ok(()) && tuple[..] == old(tuple[..])
    ensures SlotIndex(field) < |types| && AssignValue(types[SlotIndex(field)], value, conv).Err? ==>
              r == Err(IncompatibleType) && tuple[..] == old(tuple[..])
    ensures SlotIndex(field) < |types| && AssignValue(types[SlotIndex(field)], value, conv).Ok? ==>
              r == Ok(()) &&
              tuple[..] == old(tuple[..])[SlotIndex(field) := AssignValue(types[SlotIndex(field)], value, conv).value]
  {
    var idx := (field - 1) % TWO_64;
    for i := 0 to tuple.Length
      invariant i <= idx ==> tuple[..] == old(tuple[..])
      invariant idx < i ==> AssignValue(types[idx], value, conv).Ok? &&
                            tuple[..] == old(tuple[..])[idx := AssignValue(types[idx], value, conv).value]
    {
      if idx == i {
        var converted := AssignValue(types[i], value, conv);
        if converted.Err? {
          return Err(converted.error);
        }
        tuple[i] := converted.value;
      }
    }
    return Ok(());
  }
}
