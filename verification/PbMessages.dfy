/** nanopb descriptors and messages as trees (pb.h). Offsets into structs, callbacks, extensions and heap-allocated
    fields are not part of this model. */
module PbMessages {
  import opened Wrappers
  import opened Coding
  import opened PbWire

  datatype Descriptor = Descriptor(fields: seq<Field>)

  /** The data type of one value: PB_LTYPE with data_size, or the submessage descriptor. */
  datatype LType =
    | Bool
    | VarInt(bits: nat)
    | UVarInt(bits: nat)
    | SVarInt(bits: nat)
    | Fixed32
    | Fixed64
    | BytesOf(max: nat)
    | StringOf(size: nat)
    | FixedBytes(size: nat)
    | Submessage(sub: Descriptor)

  /** PB_HTYPE. An optional field with a has_ flag is Optional, one without (as in proto3) is Implicit; a repeated field
      with a count is Repeated, one without is FixedCount. The members of a oneof share a group. */
  datatype HType = Required | Optional | Implicit | Repeated(max: nat) | FixedCount(count: nat) | Oneof(group: nat)

  /** init is the default value of a singular field that is not a submessage. */
  datatype Field = Field(tag: nat, htype: HType, ltype: LType, init: Value)

  datatype Value = Num(n: int) | Blob(b: Bytes) | Message(slots: seq<Slot>)

  /** One struct member with its has_ flag, count or share of a which_ field. */
  datatype Slot = One(value: Value) | Maybe(option: Option<Value>) | Many(values: seq<Value>)

  predicate WidthOk(bits: nat) {
    bits == 8 || bits == 16 || bits == 32 || bits == 64
  }

  // ----- what a struct can hold -----

  ghost predicate HasType(l: LType, v: Value)
    decreases l
  {
    match l
    case Bool => v.Num? && (v.n == 0 || v.n == 1)
    case VarInt(bits) => WidthOk(bits) && v.Num? && InSigned(v.n, bits)
    case UVarInt(bits) => WidthOk(bits) && v.Num? && InUnsigned(v.n, bits)
    case SVarInt(bits) => WidthOk(bits) && v.Num? && InSigned(v.n, bits)
    case Fixed32 => v.Num? && 0 <= v.n < U32
    case Fixed64 => v.Num? && 0 <= v.n < U64
    case BytesOf(_) => v.Blob?
    case StringOf(size) => v.Blob? && |v.b| <= size && 0 !in v.b
    case FixedBytes(size) => v.Blob? && |v.b| == size
    case Submessage(sub) => v.Message? && Fits(sub, v.slots)
  }

  ghost predicate SlotFits(f: Field, s: Slot)
    decreases f
  {
    match f.htype
    case Required => s.One? && HasType(f.ltype, s.value)
    case Implicit => s.One? && HasType(f.ltype, s.value)
    case Optional => s.Maybe? && (s.option.Some? ==> HasType(f.ltype, s.option.value))
    case Oneof(_) => s.Maybe? && (s.option.Some? ==> HasType(f.ltype, s.option.value))
    case Repeated(_) => s.Many? && forall i | 0 <= i < |s.values| :: HasType(f.ltype, s.values[i])
    case FixedCount(n) => s.Many? && |s.values| == n && forall i | 0 <= i < |s.values| :: HasType(f.ltype, s.values[i])
  }

  ghost predicate Fits(d: Descriptor, slots: seq<Slot>)
    decreases d
  {
    && |slots| == |d.fields|
    && (forall k | 0 <= k < |slots| :: SlotFits(d.fields[k], slots[k]))
    && forall i, j | 0 <= i < j < |slots| && SameGroup(d.fields[i], d.fields[j]) ::
         slots[i].Maybe? && slots[j].Maybe? && (slots[i].option.None? || slots[j].option.None?)
  }

  predicate SameGroup(f: Field, g: Field) {
    f.htype.Oneof? && g.htype.Oneof? && f.htype.group == g.htype.group
  }

  /** What the generator guarantees of a descriptor. */
  ghost predicate WellFormed(d: Descriptor)
    decreases d
  {
    && (forall i, j | 0 <= i < j < |d.fields| :: d.fields[i].tag != d.fields[j].tag)
    && (forall k | 0 <= k < |d.fields| :: FieldOk(d.fields[k]))
  }

  ghost predicate FieldOk(f: Field)
    decreases f
  {
    && 0 < f.tag < 0x2000_0000
    && match f.ltype {
         case VarInt(bits) => WidthOk(bits)
         case UVarInt(bits) => WidthOk(bits)
         case SVarInt(bits) => WidthOk(bits)
         case Submessage(sub) => WellFormed(sub)
         case _ => true
       }
    && (f.htype.Implicit? && !f.ltype.Submessage? ==> HasType(f.ltype, f.init) && IsZeroValue(f.ltype, f.init))
  }

  // ----- defaults -----

  /** pb_message_set_to_defaults. */
  function Default(d: Descriptor): (r: seq<Slot>)
    ensures |r| == |d.fields|
    decreases d
  {
    seq(|d.fields|, k requires 0 <= k < |d.fields| => DefaultSlot(d.fields[k]))
  }

  function DefaultSlot(f: Field): Slot
    decreases f
  {
    match f.htype
    case Required => One(DefaultValue(f))
    case Implicit => One(DefaultValue(f))
    case Optional => Maybe(None)
    case Oneof(_) => Maybe(None)
    case Repeated(_) => Many([])
    case FixedCount(_) => Many([])
  }

  function DefaultValue(f: Field): Value
    decreases f, 0
  {
    if f.ltype.Submessage? then Message(Default(f.ltype.sub)) else f.init
  }

  /** pb_check_proto3_default_value for a value without a has_ flag. */
  predicate IsZeroValue(l: LType, v: Value)
    decreases l
  {
    match l
    case BytesOf(_) => v.Blob? && v.b == []
    case StringOf(_) => v.Blob? && (v.b == [] || v.b[0] == 0)
    case FixedBytes(size) => size == 0
    case Submessage(sub) =>
      v.Message? && |v.slots| == |sub.fields| &&
      forall k | 0 <= k < |sub.fields| :: IsZeroSlot(sub.fields[k], v.slots[k])
    case _ => v.Num? && v.n == 0
  }

  predicate IsZeroSlot(f: Field, s: Slot)
    decreases f
  {
    match f.htype
    case Required => false
    case FixedCount(_) => false
    case Repeated(_) => s.Many? && s.values == []
    case Oneof(_) => s.Maybe? && s.option.None?
    case Optional => s.Maybe? && s.option.None?
    case Implicit => s.One? && IsZeroValue(f.ltype, s.value)
  }

  /** A field that is left out because it is zero is what the decoder starts from. */
  lemma {:induction false} ZeroIsDefault(f: Field, v: Value)
    requires FieldOk(f) && f.htype.Implicit? && HasType(f.ltype, v) && IsZeroValue(f.ltype, v)
    ensures v == DefaultValue(f)
    decreases f
  {
    if f.ltype.Submessage? {
      var sub := f.ltype.sub;
      forall k | 0 <= k < |sub.fields|
        ensures v.slots[k] == DefaultSlot(sub.fields[k])
      {
        assert IsZeroSlot(sub.fields[k], v.slots[k]) && SlotFits(sub.fields[k], v.slots[k]);
        if sub.fields[k].htype.Implicit? {
          ZeroIsDefault(sub.fields[k], v.slots[k].value);
        }
      }
      assert v.slots == Default(sub);
    } else {
      ZeroOfType(f.ltype, v, f.init);
    }
  }

  lemma FirstIsNotZero(b: Bytes)
    requires 0 !in b
    ensures b == [] || b[0] != 0
  {
  }

  lemma ZeroOfType(l: LType, v: Value, w: Value)
    requires !l.Submessage? && HasType(l, v) && HasType(l, w) && IsZeroValue(l, v) && IsZeroValue(l, w)
    ensures v == w
  {
    match l {
      case StringOf(_) =>
        FirstIsNotZero(v.b);
        FirstIsNotZero(w.b);
      case FixedBytes(_) => assert v.b == [] && w.b == [];
      case _ =>
    }
  }
}
