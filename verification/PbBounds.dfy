/** What pb_decode leaves in the struct, whatever the bytes: every value is in the range of its type, no array holds
    more elements than it has room for, and at most one member of a oneof is set (pb_decode.c). */
module PbBounds {
  import opened Wrappers
  import opened Coding
  import opened PbWire
  import opened PbMessages
  import opened PbEncode
  import opened PbDecode

  predicate SignedRange(v: int, bits: nat) {
    && (bits == 8 || bits == 16 || bits == 32 || bits == 64)
    && (bits == 8 ==> -0x80 <= v <= 0x7F)
    && (bits == 16 ==> -0x8000 <= v <= 0x7FFF)
    && (bits == 32 ==> -0x8000_0000 <= v <= 0x7FFF_FFFF)
    && (bits == 64 ==> -0x8000_0000_0000_0000 <= v <= 0x7FFF_FFFF_FFFF_FFFF)
  }

  predicate UnsignedRange(v: int, bits: nat) {
    && (bits == 8 || bits == 16 || bits == 32 || bits == 64) && 0 <= v
    && (bits == 8 ==> v <= 0xFF)
    && (bits == 16 ==> v <= 0xFFFF)
    && (bits == 32 ==> v <= 0xFFFF_FFFF)
    && (bits == 64 ==> v <= 0xFFFF_FFFF_FFFF_FFFF)
  }

  ghost predicate ValueInBounds(l: LType, v: Value)
    decreases l
  {
    match l
    case Bool => v == Num(0) || v == Num(1)
    case VarInt(bits) => v.Num? && SignedRange(v.n, bits)
    case UVarInt(bits) => v.Num? && UnsignedRange(v.n, bits)
    case SVarInt(bits) => v.Num? && SignedRange(v.n, bits)
    case Fixed32 => v.Num? && UnsignedRange(v.n, 32)
    case Fixed64 => v.Num? && UnsignedRange(v.n, 64)
    case BytesOf(max) => v.Blob? && |v.b| <= max
    case StringOf(size) => v.Blob? && |v.b| < size && 0 !in v.b
    case FixedBytes(size) => v.Blob? && |v.b| == size
    case Submessage(sub) => v.Message? && InBounds(sub, v.slots)
  }

  /** A field that was not met keeps its default. */
  ghost predicate SlotInBounds(f: Field, s: Slot)
    decreases f
  {
    match f.htype
    case Required => s.One? && ((s.value == f.init && !f.ltype.Submessage?) || ValueInBounds(f.ltype, s.value))
    case Implicit => s.One? && ((s.value == f.init && !f.ltype.Submessage?) || ValueInBounds(f.ltype, s.value))
    case Optional => s.Maybe? && (s.option.Some? ==> ValueInBounds(f.ltype, s.option.value))
    case Oneof(_) => s.Maybe? && (s.option.Some? ==> ValueInBounds(f.ltype, s.option.value))
    case Repeated(max) =>
      s.Many? && |s.values| <= max && forall i | 0 <= i < |s.values| :: ValueInBounds(f.ltype, s.values[i])
    case FixedCount(n) =>
      s.Many? && |s.values| <= n && forall i | 0 <= i < |s.values| :: ValueInBounds(f.ltype, s.values[i])
  }

  ghost predicate SlotsInBounds(d: Descriptor, slots: seq<Slot>)
    decreases d, 0
  {
    && |slots| == |d.fields|
    && (forall k | 0 <= k < |slots| :: SlotInBounds(d.fields[k], slots[k]))
    && OneofsAlone(d, slots)
  }

  ghost predicate OneofsAlone(d: Descriptor, slots: seq<Slot>) {
    |slots| == |d.fields| &&
    forall i, j | 0 <= i < |slots| && 0 <= j < |slots| && i != j && SameGroup(d.fields[i], d.fields[j]) ::
      slots[i].Maybe? && slots[j].Maybe? && (slots[i].option.None? || slots[j].option.None?)
  }

  /** An uncounted array is absent or complete. */
  predicate Complete(f: Field, s: Slot) {
    f.htype.FixedCount? ==> s.Many? && (s.values == [] || |s.values| == f.htype.count)
  }

  ghost predicate InBounds(d: Descriptor, slots: seq<Slot>)
    decreases d, 1
  {
    SlotsInBounds(d, slots) && forall k | 0 <= k < |slots| :: Complete(d.fields[k], slots[k])
  }

  /** While the loop runs, the uncounted array met last may be incomplete. */
  ghost predicate DestInBounds(d: Descriptor, dest: Dest) {
    && SlotsInBounds(d, dest.slots)
    && (forall k | 0 <= k < |dest.slots| :: dest.fixed == Some(k) || Complete(d.fields[k], dest.slots[k]))
  }

  // ----- single values -----

  lemma SignedLowRange(v: int, bits: nat)
    requires WidthOk(bits)
    ensures SignedRange(SignedLow(v, bits), bits)
  {
  }

  lemma ScalarInBounds(l: LType, input: Bytes)
    requires Packable(l)
    ensures DecodeScalar(l, input).Some? ==> ValueInBounds(l, DecodeScalar(l, input).value.0)
  {
    hide DecodeVarint32, GetVarint64, SignedLow, UnZigZag, DecodeFixed32, SignedRange;
    forall v: int, bits | WidthOk(bits)
      ensures SignedRange(SignedLow(v, bits), bits)
    {
      SignedLowRange(v, bits);
    }
  }

  lemma {:induction false} PackedInBounds(l: LType, items: seq<Value>, input: Bytes, limit: nat)
    requires Packable(l) && |items| <= limit && forall i | 0 <= i < |items| :: ValueInBounds(l, items[i])
    ensures var r := DecodePacked(l, items, input, limit);
            r.Some? ==> |r.value| <= limit && forall i | 0 <= i < |r.value| :: ValueInBounds(l, r.value[i])
    decreases |input|
  {
    hide DecodeScalar, ValueInBounds;
    if input != [] && |items| < limit && DecodeScalar(l, input).Some? {
      var v := DecodeScalar(l, input).value;
      ScalarInBounds(l, input);
      PackedInBounds(l, items + [v.0], v.1, limit);
    }
  }

  // ----- defaults -----

  lemma {:induction false} DefaultInBounds(d: Descriptor)
    ensures InBounds(d, Default(d))
    decreases d
  {
    forall k | 0 <= k < |d.fields|
      ensures SlotInBounds(d.fields[k], Default(d)[k]) && Complete(d.fields[k], Default(d)[k])
    {
      var f := d.fields[k];
      if f.ltype.Submessage? {
        DefaultInBounds(f.ltype.sub);
        assert ValueInBounds(f.ltype, DefaultValue(f));
      }
      assert Default(d)[k] == DefaultSlot(f);
    }
  }

  lemma DefaultValueInBounds(f: Field)
    requires f.ltype.Submessage?
    ensures ValueInBounds(f.ltype, DefaultValue(f))
  {
    DefaultInBounds(f.ltype.sub);
  }

  // ----- messages -----

  /** Only the prior value of a submessage matters, as new fields are merged into it. */
  ghost predicate PriorOk(l: LType, prior: Value) {
    l.Submessage? && prior.Message? ==> InBounds(l.sub, prior.slots)
  }

  lemma PriorInBounds(f: Field, s: Slot)
    requires SlotInBounds(f, s)
    ensures PriorOk(f.ltype, Prior(f, s)) && PriorOk(f.ltype, DefaultValue(f))
  {
    hide InBounds;
    if f.ltype.Submessage? {
      DefaultValueInBounds(f);
    }
  }

  lemma {:induction false} DecodedValueInBounds(l: LType, prior: Value, input: Bytes)
    requires PriorOk(l, prior)
    ensures DecodeValue(l, prior, input).Some? ==> ValueInBounds(l, DecodeValue(l, prior, input).value.0)
    decreases l
  {
    hide GetDelimited, DecodeNoinit, DecodeScalar, InBounds, CString, Default;
    if Packable(l) {
      ScalarInBounds(l, input);
    } else if l.Submessage? && GetDelimited(input).Some? {
      var slots := if prior.Message? && |prior.slots| == |l.sub.fields| then prior.slots else Default(l.sub);
      DefaultInBounds(l.sub);
      DecodedInBounds(l.sub, slots, GetDelimited(input).value.0);
    }
  }

  lemma {:induction false} ElementsInBounds(f: Field, items: seq<Value>, w: WireType, input: Bytes)
    requires SlotInBounds(f, Many(items)) && (f.htype.Repeated? || f.htype.FixedCount?)
    ensures var r := DecodeElements(f, items, w, input); r.Some? ==> SlotInBounds(f, Many(r.value.0))
    decreases f
  {
    hide DecodeValue, DecodePacked, GetDelimited, ValueInBounds, InBounds;
    var limit := if f.htype.Repeated? then f.htype.max else f.htype.count;
    if w.StringWire? && Packable(f.ltype) {
      if GetDelimited(input).Some? {
        PackedInBounds(f.ltype, items, GetDelimited(input).value.0, limit);
      }
    } else {
      PriorInBounds(f, Many(items));
      DecodedValueInBounds(f.ltype, DefaultValue(f), input);
    }
  }

  /** Writing one slot, after the other members of its oneof have been cleared. */
  lemma SetSlot(d: Descriptor, dest: Dest, k: nat, s: Slot, seen: set<nat>)
    requires DestInBounds(d, dest) && k < |d.fields| && SlotInBounds(d.fields[k], s)
    requires !d.fields[k].htype.Repeated? && !d.fields[k].htype.FixedCount?
    ensures var slots := if d.fields[k].htype.Oneof? then ClearGroup(d, dest.slots, d.fields[k]) else dest.slots;
            DestInBounds(d, Dest(slots[k := s], seen, dest.fixed))
  {
    hide ValueInBounds;
    var f := d.fields[k];
    var slots := if f.htype.Oneof? then ClearGroup(d, dest.slots, f) else dest.slots;
    forall j | 0 <= j < |slots| && j != k
      ensures SlotInBounds(d.fields[j], slots[j]) && (dest.fixed == Some(j) || Complete(d.fields[j], slots[j]))
    {
      assert SlotInBounds(d.fields[j], dest.slots[j]);
    }
    forall i, j | 0 <= i < |slots| && 0 <= j < |slots| && i != j && SameGroup(d.fields[i], d.fields[j])
      ensures slots[k := s][i].Maybe? && slots[k := s][j].Maybe?
      ensures slots[k := s][i].option.None? || slots[k := s][j].option.None?
    {
      assert SlotInBounds(d.fields[i], dest.slots[i]) && SlotInBounds(d.fields[j], dest.slots[j]);
      assert dest.slots[i].option.None? || dest.slots[j].option.None?;
    }
  }

  /** Writing an array. */
  lemma SetArray(d: Descriptor, dest: Dest, k: nat, vs: seq<Value>)
    requires DestInBounds(d, dest) && k < |d.fields| && SlotInBounds(d.fields[k], Many(vs))
    requires d.fields[k].htype.Repeated? || d.fields[k].htype.FixedCount?
    requires d.fields[k].htype.FixedCount? && dest.fixed.Some? && dest.fixed.value != k ==> FixedFull(d, dest)
    ensures var fixed := if d.fields[k].htype.FixedCount? then Some(k) else dest.fixed;
            DestInBounds(d, Dest(dest.slots[k := Many(vs)], dest.seen, fixed))
  {
    hide ValueInBounds;
    var slots := dest.slots[k := Many(vs)];
    forall j | 0 <= j < |slots| && j != k
      ensures SlotInBounds(d.fields[j], slots[j])
      ensures dest.fixed == Some(j) ==> FixedFull(d, dest) ==> Complete(d.fields[j], slots[j])
    {
      assert SlotInBounds(d.fields[j], dest.slots[j]);
    }
    assert OneofsAlone(d, slots);
  }

  lemma {:induction false} FieldInBounds(d: Descriptor, dest: Dest, k: nat, w: WireType, input: Bytes)
    requires DestInBounds(d, dest) && k < |d.fields|
    ensures |dest.slots| == |d.fields|
    ensures var r := DecodeField(d, dest, k, w, input); r.Some? ==> DestInBounds(d, r.value.0)
    decreases d, |input|, 0
  {
    hide DecodeElements, DecodeValue, DestInBounds, ClearGroup, FixedFull, RequiredBefore, ValueInBounds, DefaultValue;
    SlotOf(d, dest, k);
    var f, s := d.fields[k], dest.slots[k];
    if f.htype.Repeated? || f.htype.FixedCount? {
      var restart := f.htype.FixedCount? && dest.fixed != Some(k);
      var items := if restart then [] else s.values;
      ElementsInBounds(f, items, w, input);
      var more := DecodeElements(f, items, w, input);
      if more.Some? && !(f.htype.FixedCount? && dest.fixed.Some? && dest.fixed.value != k && !FixedFull(d, dest)) {
        SetArray(d, dest, k, more.value.0);
      }
    } else {
      PriorInBounds(f, s);
      DecodedValueInBounds(f.ltype, Prior(f, s), input);
      var v := DecodeValue(f.ltype, Prior(f, s), input);
      if v.Some? {
        var seen := if f.htype.Required? && RequiredBefore(d, k) < MAX_REQUIRED_FIELDS
                    then dest.seen + {RequiredBefore(d, k)} else dest.seen;
        var slot := if f.htype.Required? || f.htype.Implicit? then One(v.value.0) else Maybe(Some(v.value.0));
        SetSlot(d, dest, k, slot, seen);
      }
    }
  }

  lemma SlotOf(d: Descriptor, dest: Dest, k: nat)
    requires DestInBounds(d, dest) && k < |d.fields|
    ensures |dest.slots| == |d.fields| && SlotInBounds(d.fields[k], dest.slots[k])
  {
  }

  lemma {:induction false} LoopInBounds(d: Descriptor, dest: Dest, input: Bytes)
    requires DestInBounds(d, dest)
    ensures |dest.slots| == |d.fields|
    ensures DecodeLoop(d, dest, input).Some? ==> DestInBounds(d, DecodeLoop(d, dest, input).value)
    decreases d, |input|, 1
  {
    hide DecodeField, DecodeTag, Find, SkipField, DestInBounds;
    SameLength(d, dest);
    if input != [] && DecodeTag(input).Tag? {
      var t := DecodeTag(input);
      var k := Find(d, t.number, 0);
      if k.None? {
        if SkipField(t.wire, t.rest).Some? {
          LoopInBounds(d, dest, SkipField(t.wire, t.rest).value);
        }
      } else {
        FieldInBounds(d, dest, k.value, t.wire, t.rest);
        var r := DecodeField(d, dest, k.value, t.wire, t.rest);
        if r.Some? {
          LoopInBounds(d, r.value.0, r.value.1);
        }
      }
    }
  }

  lemma SameLength(d: Descriptor, dest: Dest)
    requires DestInBounds(d, dest)
    ensures |dest.slots| == |d.fields|
  {
  }

  lemma {:induction false} DecodedInBounds(d: Descriptor, slots: seq<Slot>, input: Bytes)
    requires InBounds(d, slots)
    ensures |slots| == |d.fields|
    ensures DecodeNoinit(d, slots, input).Some? ==> InBounds(d, DecodeNoinit(d, slots, input).value)
    decreases d, |input|, 2
  {
    hide DecodeLoop, AllRequiredSeen, SlotInBounds, OneofsAlone;
    var dest := Dest(slots, {}, None);
    LoopInBounds(d, dest, input);
    var r := DecodeLoop(d, dest, input);
    if r.Some? && FixedFull(d, r.value) {
      LastComplete(d, r.value);
    }
  }

  lemma LastComplete(d: Descriptor, dest: Dest)
    requires DestInBounds(d, dest) && FixedFull(d, dest)
    ensures InBounds(d, dest.slots)
  {
    hide ValueInBounds;
    forall k | 0 <= k < |dest.slots|
      ensures Complete(d.fields[k], dest.slots[k])
    {
      assert SlotInBounds(d.fields[k], dest.slots[k]);
    }
  }

  /** pb_decode never leaves a value out of bounds, whatever the bytes. */
  lemma DecodeStaysInBounds(d: Descriptor, input: Bytes)
    ensures Decode(d, input).Some? ==> InBounds(d, Decode(d, input).value)
  {
    hide InBounds, DecodeNoinit;
    DefaultInBounds(d);
    DecodedInBounds(d, Default(d), input);
  }
}
