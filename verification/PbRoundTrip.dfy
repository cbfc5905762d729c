/** Decoding what the encoder wrote (pb_encode.c, pb_decode.c): for every descriptor tree and every message the encoder
    accepts, the decoder restores the message exactly when every encoded string leaves room for its terminator. */
module PbRoundTrip {
  import opened Wrappers
  import opened Coding
  import opened PbWire
  import opened PbMessages
  import opened PbEncode
  import opened PbDecode

  ghost predicate TypeOk(l: LType) {
    l.Submessage? ==> WellFormed(l.sub)
  }

  // ----- when a message can be restored -----

  /** The decoder needs one more byte than the string has; the encoder does not look for the terminator. */
  predicate RestorableValue(l: LType, v: Value)
    decreases l
  {
    match l
    case StringOf(size) => v.Blob? && |v.b| < size
    case Submessage(sub) => v.Message? && Restorable(sub, v.slots)
    case _ => true
  }

  predicate RestorableSlot(f: Field, s: Slot)
    decreases f
  {
    match s
    case One(v) => (f.htype.Implicit? && IsZeroValue(f.ltype, v)) || RestorableValue(f.ltype, v)
    case Maybe(o) => o.None? || RestorableValue(f.ltype, o.value)
    case Many(vs) => forall i | 0 <= i < |vs| :: RestorableValue(f.ltype, vs[i])
  }

  predicate Restorable(d: Descriptor, slots: seq<Slot>)
    decreases d
  {
    |slots| == |d.fields| && forall k | 0 <= k < |slots| :: RestorableSlot(d.fields[k], slots[k])
  }

  // ----- scalars, strings and bytes -----

  lemma DelimitedReadsBack(b: Bytes, rest: Bytes)
    requires |b| < U32
    ensures GetDelimited(LengthAnd(b) + rest) == Some((b, rest))
  {
    assert LengthAnd(b) + rest == Varint(|b|) + (b + rest);
    Varint32ReadsBack(|b|, b + rest);
    assert (b + rest)[..|b|] == b && (b + rest)[|b|..] == rest;
  }

  lemma ScalarReadsBack(l: LType, v: Value, rest: Bytes)
    requires Packable(l) && HasType(l, v)
    ensures DecodeScalar(l, EncodeScalar(l, v) + rest) == Some((v, rest))
  {
    hide Varint, GetVarint64, DecodeVarint32, SignedLow, ZigZag, UnZigZag, EncodeFixed32, EncodeFixed64, DecodeFixed32,
         DecodeFixed64;
    if l.Bool? {
      Varint32ReadsBack(v.n, rest);
    } else if l.VarInt? {
      UnsignedReadsBack(v.n, l.bits);
      Varint64RoundTrip(v.n % U64, rest);
    } else if l.UVarInt? {
      Varint64RoundTrip(v.n, rest);
    } else if l.SVarInt? {
      ZigZagReadsBack(v.n);
      UnsignedReadsBack(v.n, l.bits);
      Varint64RoundTrip(ZigZag(v.n), rest);
    } else if l.Fixed32? {
      Fixed32ReadsBack(v.n, rest);
    } else {
      Fixed64RoundTrip(v.n, rest);
      assert (EncodeFixed64(v.n) + rest)[8..] == rest;
    }
  }

  lemma Fixed32ReadsBack(n: u32, rest: Bytes)
    ensures DecodeFixed32(EncodeFixed32(n) + rest) == n && (EncodeFixed32(n) + rest)[4..] == rest
  {
    Fixed32RoundTrip(n);
    Fixed32Prefix(EncodeFixed32(n) + rest);
    assert (EncodeFixed32(n) + rest)[..4] == EncodeFixed32(n);
  }

  lemma {:induction false} PackedReadsBack(l: LType, items: seq<Value>, vs: seq<Value>, limit: nat)
    requires Packable(l) && (forall i | 0 <= i < |vs| :: HasType(l, vs[i])) && |items| + |vs| <= limit
    ensures DecodePacked(l, items, EncodePacked(l, vs), limit) == Some(items + vs)
    decreases |vs|
  {
    hide EncodeScalar, DecodeScalar, HasType, Packable;
    if vs == [] {
      assert items + vs == items;
    } else {
      ScalarReadsBack(l, vs[0], EncodePacked(l, vs[1..]));
      ScalarNotEmpty(l, vs[0]);
      PackedReadsBack(l, items + [vs[0]], vs[1..], limit);
      assert items + [vs[0]] + vs[1..] == items + vs;
    }
  }

  lemma ScalarNotEmpty(l: LType, v: Value)
    requires Packable(l) && HasType(l, v)
    ensures |EncodeScalar(l, v)| > 0
  {
  }

  lemma BlobReadsBack(l: LType, v: Value, prior: Value, rest: Bytes)
    requires (l.BytesOf? || l.StringOf? || l.FixedBytes?) && HasType(l, v)
    requires EncodeValue(l, v).Some? && |EncodeValue(l, v).value| < U32
    ensures DecodeValue(l, prior, EncodeValue(l, v).value + rest) ==
              if RestorableValue(l, v) then Some((v, rest)) else None
  {
    assert |v.b| <= |LengthAnd(v.b)|;
    DelimitedReadsBack(v.b, rest);
    if l.StringOf? {
      CStringWhole(v.b);
    } else if l.FixedBytes? && v.b == [] {
      assert v.b == Zeros(l.size);
    }
  }

  // ----- the state after the first k fields -----

  function Partial(d: Descriptor, slots: seq<Slot>, k: nat): (r: seq<Slot>)
    requires k <= |slots| == |d.fields|
    ensures |r| == |d.fields|
  {
    slots[..k] + Default(d)[k..]
  }

  function SeenUpTo(d: Descriptor, k: nat): set<nat>
    requires k <= |d.fields|
  {
    if k == 0 then {}
    else
      SeenUpTo(d, k - 1)
      + if d.fields[k - 1].htype.Required? && RequiredBefore(d, k - 1) < MAX_REQUIRED_FIELDS
        then {RequiredBefore(d, k - 1)} else {}
  }

  lemma {:induction false} SeenMembers(d: Descriptor, k: nat, i: nat)
    requires k <= |d.fields| && i < RequiredBefore(d, k) && i < MAX_REQUIRED_FIELDS
    ensures i in SeenUpTo(d, k)
  {
    if i < RequiredBefore(d, k - 1) {
      SeenMembers(d, k - 1, i);
    }
  }

  function FixedUpTo(d: Descriptor, slots: seq<Slot>, k: nat): (r: Option<nat>)
    requires k <= |slots| == |d.fields|
    ensures r.Some? ==> r.value < k && d.fields[r.value].htype.FixedCount?
  {
    if k == 0 then None
    else if d.fields[k - 1].htype.FixedCount? && slots[k - 1] != Many([]) then Some(k - 1)
    else FixedUpTo(d, slots, k - 1)
  }

  function DestAt(d: Descriptor, slots: seq<Slot>, k: nat): Dest
    requires k <= |slots| == |d.fields|
  {
    Dest(Partial(d, slots, k), SeenUpTo(d, k), FixedUpTo(d, slots, k))
  }

  lemma PartialNext(d: Descriptor, slots: seq<Slot>, k: nat)
    requires k < |slots| == |d.fields|
    ensures Partial(d, slots, k)[k] == DefaultSlot(d.fields[k])
    ensures Partial(d, slots, k)[k := slots[k]] == Partial(d, slots, k + 1)
  {
  }

  lemma OneofAlone(d: Descriptor, slots: seq<Slot>, k: nat, j: nat)
    requires Fits(d, slots) && k < |slots| && j < |slots| && j != k && SameGroup(d.fields[j], d.fields[k])
    requires slots[k].Maybe? && slots[k].option.Some?
    ensures slots[j] == Maybe(None) && Default(d)[j] == Maybe(None)
  {
  }

  /** Setting the one member of a oneof that the message has changes nothing else. */
  lemma OneofNext(d: Descriptor, slots: seq<Slot>, k: nat)
    requires Fits(d, slots) && k < |slots| && d.fields[k].htype.Oneof? && slots[k].Maybe? && slots[k].option.Some?
    ensures |slots| == |d.fields|
    ensures ClearGroup(d, Partial(d, slots, k), d.fields[k])[k := slots[k]] == Partial(d, slots, k + 1)
  {
    PartialNext(d, slots, k);
    var f := d.fields[k];
    forall j | 0 <= j < |slots| && j != k && SameGroup(d.fields[j], f)
      ensures Partial(d, slots, k)[j] == Maybe(None)
    {
      OneofAlone(d, slots, k, j);
    }
    hide Fits, SameGroup, Default;
    assert ClearGroup(d, Partial(d, slots, k), f)[k := slots[k]] == Partial(d, slots, k)[k := slots[k]];
  }

  lemma {:induction false} FindsField(d: Descriptor, k: nat, from: nat)
    requires WellFormed(d) && from <= k < |d.fields|
    ensures Find(d, d.fields[k].tag, from) == Some(k)
    decreases k - from
  {
    if from < k {
      assert d.fields[from].tag != d.fields[k].tag;
      FindsField(d, k, from + 1);
    }
  }

  // ----- one tag -----

  ghost function AfterField(d: Descriptor, r: Option<(Dest, Bytes)>): Option<Dest>
    requires r.Some? ==> |r.value.0.slots| == |d.fields|
  {
    if r.None? then None else DecodeLoop(d, r.value.0, r.value.1)
  }

  /** The loop finds the field of a tag and decodes what follows. */
  lemma TagDispatch(d: Descriptor, dest: Dest, k: nat, w: WireType, payload: Bytes)
    requires WellFormed(d) && k < |d.fields| && |dest.slots| == |d.fields| && !w.BadWire?
    ensures DecodeLoop(d, dest, EncodeTag(d.fields[k].tag, w) + payload) ==
              AfterField(d, DecodeField(d, dest, k, w, payload))
  {
    assert FieldOk(d.fields[k]);
    TagReadsBack(d.fields[k].tag, w, payload);
    FindsField(d, k, 0);
    hide DecodeField, DecodeTag, EncodeTag, WellFormed, Find;
    LoopUnfold(d, dest, EncodeTag(d.fields[k].tag, w) + payload);
  }

  lemma LoopUnfold(d: Descriptor, dest: Dest, input: Bytes)
    requires |dest.slots| == |d.fields| && input != [] && DecodeTag(input).Tag?
    requires Find(d, DecodeTag(input).number, 0).Some?
    ensures var t := DecodeTag(input);
            var k := Find(d, t.number, 0).value;
            DecodeLoop(d, dest, input) == AfterField(d, DecodeField(d, dest, k, t.wire, t.rest))
  {
    hide DecodeField, DecodeTag, Find;
  }

  // ----- values and messages -----

  /** A value is read back, exactly when it can be; submessages are decoded into their defaults. */
  lemma {:induction false} ValueReadsBack(l: LType, v: Value, prior: Value, rest: Bytes)
    requires HasType(l, v) && TypeOk(l) && EncodeValue(l, v).Some? && |EncodeValue(l, v).value| < U32
    requires l.Submessage? ==> prior == Message(Default(l.sub))
    ensures DecodeValue(l, prior, EncodeValue(l, v).value + rest) ==
              if RestorableValue(l, v) then Some((v, rest)) else None
    decreases l
  {
    if l.Submessage? {
      var inner := EncodeMessage(l.sub, v.slots).value;
      DelimitedReadsBack(inner, rest);
      MessageReadsBack(l.sub, v.slots);
      hide EncodeFrom, DecodeNoinit, GetDelimited, Fits, Restorable, Default;
    } else if Packable(l) {
      ScalarReadsBack(l, v, rest);
    } else {
      BlobReadsBack(l, v, prior, rest);
    }
  }

  /** A message is restored exactly when its strings are terminated. */
  lemma {:induction false} MessageReadsBack(d: Descriptor, slots: seq<Slot>)
    requires WellFormed(d) && Fits(d, slots)
    requires EncodeMessage(d, slots).Some? && |EncodeMessage(d, slots).value| < U32
    ensures DecodeNoinit(d, Default(d), EncodeMessage(d, slots).value) ==
              if Restorable(d, slots) then Some(slots) else None
    decreases d, 2
  {
    LoopReadsBack(d, slots, 0);
    Starts(d, slots);
    Ends(d, slots);
    hide DecodeLoop, EncodeFrom, Fits, WellFormed, Default, FixedFull, AllRequiredSeen, SeenUpTo, FixedUpTo;
  }

  lemma Starts(d: Descriptor, slots: seq<Slot>)
    requires |slots| == |d.fields|
    ensures DestAt(d, slots, 0) == Dest(Default(d), {}, None)
  {
    assert Partial(d, slots, 0) == Default(d);
  }

  lemma Ends(d: Descriptor, slots: seq<Slot>)
    requires Fits(d, slots)
    ensures var dest := DestAt(d, slots, |slots|);
            dest.slots == slots && FixedFull(d, dest) && AllRequiredSeen(d, dest.seen)
  {
    assert Partial(d, slots, |slots|) == slots;
    FixedIsFull(d, slots, |slots|);
    forall i: nat | i < RequiredBefore(d, |d.fields|) && i < MAX_REQUIRED_FIELDS
      ensures i in SeenUpTo(d, |slots|)
    {
      SeenMembers(d, |slots|, i);
    }
  }

  lemma FixedIsFull(d: Descriptor, slots: seq<Slot>, k: nat)
    requires Fits(d, slots) && k <= |slots|
    ensures FixedFull(d, DestAt(d, slots, k))
  {
    var j := FixedUpTo(d, slots, k);
    if j.Some? {
      assert SlotFits(d.fields[j.value], slots[j.value]);
    }
  }

  lemma NothingLeft(d: Descriptor, slots: seq<Slot>)
    requires Fits(d, slots)
    ensures DecodeLoop(d, DestAt(d, slots, |slots|), []) == Some(DestAt(d, slots, |slots|))
  {
  }

  lemma {:induction false} LoopReadsBack(d: Descriptor, slots: seq<Slot>, k: nat)
    requires WellFormed(d) && Fits(d, slots) && k <= |slots|
    requires EncodeFrom(d, slots, k).Some? && |EncodeFrom(d, slots, k).value| < U32
    ensures DecodeLoop(d, DestAt(d, slots, k), EncodeFrom(d, slots, k).value) ==
              if RestorableFrom(d, slots, k) then Some(DestAt(d, slots, |slots|)) else None
    decreases d, 1, |slots| - k
  {
    hide DecodeLoop, EncodeSlot, DestAt, RestorableSlot;
    if k < |slots| {
      var first, rest := EncodeSlot(d.fields[k], slots[k]).value, EncodeFrom(d, slots, k + 1).value;
      assert EncodeFrom(d, slots, k).value == first + rest;
      FieldReadsBack(d, slots, k, rest);
      LoopReadsBack(d, slots, k + 1);
      hide EncodeFrom, Fits, WellFormed;
    } else {
      NothingLeft(d, slots);
    }
  }

  predicate RestorableFrom(d: Descriptor, slots: seq<Slot>, k: nat)
    requires k <= |slots| == |d.fields|
  {
    forall j | k <= j < |slots| :: RestorableSlot(d.fields[j], slots[j])
  }

  lemma {:induction false} FieldReadsBack(d: Descriptor, slots: seq<Slot>, k: nat, rest: Bytes)
    requires WellFormed(d) && Fits(d, slots) && k < |slots|
    requires EncodeSlot(d.fields[k], slots[k]).Some? && |EncodeSlot(d.fields[k], slots[k]).value| < U32
    ensures DecodeLoop(d, DestAt(d, slots, k), EncodeSlot(d.fields[k], slots[k]).value + rest) ==
              if RestorableSlot(d.fields[k], slots[k]) then DecodeLoop(d, DestAt(d, slots, k + 1), rest) else None
    decreases d, 0, 2
  {
    var f, s := d.fields[k], slots[k];
    assert SlotFits(f, s) && FieldOk(f);
    if s.Many? {
      if s.values == [] {
        AbsentReadsBack(d, slots, k);
        assert [] + rest == rest;
      } else {
        ArrayReadsBack(d, slots, k, rest);
      }
    } else if s.Maybe? {
      if s.option.None? {
        AbsentReadsBack(d, slots, k);
        assert [] + rest == rest;
      } else {
        SingleReadsBack(d, slots, k, s.option.value, rest);
      }
    } else if f.htype.Implicit? && IsZeroValue(f.ltype, s.value) {
      ZeroIsDefault(f, s.value);
      AbsentReadsBack(d, slots, k);
      assert [] + rest == rest;
    } else {
      SingleReadsBack(d, slots, k, s.value, rest);
    }
  }

  /** A slot that is still at its default needs no decoding. */
  lemma AbsentReadsBack(d: Descriptor, slots: seq<Slot>, k: nat)
    requires Fits(d, slots) && k < |slots| && slots[k] == DefaultSlot(d.fields[k]) && !d.fields[k].htype.Required?
    ensures DestAt(d, slots, k) == DestAt(d, slots, k + 1)
  {
    PartialNext(d, slots, k);
    var p := Partial(d, slots, k);
    assert p[k := slots[k]] == p;
    hide Fits, Partial;
  }

  // ----- singular fields -----

  ghost predicate Holds(f: Field, s: Slot, v: Value) {
    if f.htype.Required? || f.htype.Implicit? then s == One(v)
    else (f.htype.Optional? || f.htype.Oneof?) && s == Maybe(Some(v))
  }

  lemma {:induction false} SingleReadsBack(d: Descriptor, slots: seq<Slot>, k: nat, v: Value, rest: Bytes)
    requires WellFormed(d) && Fits(d, slots) && k < |slots| && Holds(d.fields[k], slots[k], v)
    requires HasType(d.fields[k].ltype, v) && EncodeTagged(d.fields[k], v).Some?
    requires |EncodeTagged(d.fields[k], v).value| < U32
    ensures DecodeLoop(d, DestAt(d, slots, k), EncodeTagged(d.fields[k], v).value + rest) ==
              if RestorableValue(d.fields[k].ltype, v) then DecodeLoop(d, DestAt(d, slots, k + 1), rest) else None
    decreases d, 0, 1
  {
    var f := d.fields[k];
    assert FieldOk(f);
    var value := EncodeValue(f.ltype, v).value;
    ValueReadsBack(f.ltype, v, DefaultValue(f), rest);
    TagDispatch(d, DestAt(d, slots, k), k, WireFor(f.ltype), value + rest);
    TagThenValue(f, value, rest);
    SingleField(d, slots, k, v, WireFor(f.ltype), value + rest, rest);
    hide DecodeLoop, DecodeField, DestAt, Fits, WellFormed, HasType, EncodeValue, RestorableValue, DecodeValue,
         DefaultValue;
  }

  lemma TagThenValue(f: Field, value: Bytes, rest: Bytes)
    ensures EncodeTag(f.tag, WireFor(f.ltype)) + value + rest == EncodeTag(f.tag, WireFor(f.ltype)) + (value + rest)
  {
    hide EncodeTag;
  }

  lemma SingleField(d: Descriptor, slots: seq<Slot>, k: nat, v: Value, w: WireType, payload: Bytes, rest: Bytes)
    requires Fits(d, slots) && k < |slots| && Holds(d.fields[k], slots[k], v)
    ensures var r := DecodeValue(d.fields[k].ltype, DefaultValue(d.fields[k]), payload);
            && (r == Some((v, rest)) ==>
                  DecodeField(d, DestAt(d, slots, k), k, w, payload) == Some((DestAt(d, slots, k + 1), rest)))
            && (r == None ==> DecodeField(d, DestAt(d, slots, k), k, w, payload) == None)
  {
    hide DecodeValue, DefaultValue;
    assert |slots| == |d.fields|;
    PartialNext(d, slots, k);
    DefaultPrior(d.fields[k]);
    if d.fields[k].htype.Oneof? {
      OneofNext(d, slots, k);
    }
    assert SeenUpTo(d, k) + {} == SeenUpTo(d, k);
    hide Partial, ClearGroup;
  }

  lemma DefaultPrior(f: Field)
    requires !f.htype.Repeated? && !f.htype.FixedCount?
    ensures Prior(f, DefaultSlot(f)) == DefaultValue(f)
  {
  }

  // ----- repeated fields -----

  /** The state when i elements of field k have been read one by one. */
  function DestItems(d: Descriptor, slots: seq<Slot>, k: nat, i: nat): Dest
    requires k < |slots| == |d.fields| && slots[k].Many? && i <= |slots[k].values|
  {
    Dest(Partial(d, slots, k)[k := Many(slots[k].values[..i])], SeenUpTo(d, k),
         if d.fields[k].htype.FixedCount? && i > 0 then Some(k) else FixedUpTo(d, slots, k))
  }

  predicate Counted(f: Field) {
    f.htype.Repeated? || f.htype.FixedCount?
  }

  function Limit(f: Field): nat
    requires Counted(f)
  {
    if f.htype.Repeated? then f.htype.max else f.htype.count
  }

  lemma ItemsBounds(d: Descriptor, slots: seq<Slot>, k: nat)
    requires Fits(d, slots) && k < |slots| && slots[k].Many? && Counted(d.fields[k])
    ensures DestItems(d, slots, k, 0) == DestAt(d, slots, k)
    ensures slots[k].values != [] ==> DestItems(d, slots, k, |slots[k].values|) == DestAt(d, slots, k + 1)
  {
    PartialNext(d, slots, k);
    var vs := slots[k].values;
    assert vs[..0] == [] && vs[..|vs|] == vs;
    var p := Partial(d, slots, k);
    assert p[k := Many([])] == p;
    hide Fits, Partial;
  }

  lemma {:induction false} ArrayReadsBack(d: Descriptor, slots: seq<Slot>, k: nat, rest: Bytes)
    requires WellFormed(d) && Fits(d, slots) && k < |slots| && slots[k].Many? && slots[k].values != []
    requires EncodeSlot(d.fields[k], slots[k]).Some? && |EncodeSlot(d.fields[k], slots[k]).value| < U32
    ensures DecodeLoop(d, DestAt(d, slots, k), EncodeSlot(d.fields[k], slots[k]).value + rest) ==
              if RestorableSlot(d.fields[k], slots[k]) then DecodeLoop(d, DestAt(d, slots, k + 1), rest) else None
    decreases d, 0, 1
  {
    var f, vs := d.fields[k], slots[k].values;
    assert SlotFits(f, slots[k]) && FieldOk(f);
    ItemsBounds(d, slots, k);
    if Packable(f.ltype) {
      PackedFieldReadsBack(d, slots, k, rest);
    } else {
      assert vs[0..] == vs;
      ItemsReadBack(d, slots, k, 0, rest);
    }
  }

  /** What decoding field k does to a state in which i elements have been read. */
  lemma ElementsField(d: Descriptor, slots: seq<Slot>, k: nat, i: nat, w: WireType, payload: Bytes)
    requires Fits(d, slots) && k < |slots| && slots[k].Many? && Counted(d.fields[k]) && i <= |slots[k].values|
    ensures var items := slots[k].values[..i];
            var more := DecodeElements(d.fields[k], items, w, payload);
            var fixed := if d.fields[k].htype.FixedCount? then Some(k) else FixedUpTo(d, slots, k);
            DecodeField(d, DestItems(d, slots, k, i), k, w, payload) ==
              if more.None? then None
              else Some((Dest(Partial(d, slots, k)[k := Many(more.value.0)], SeenUpTo(d, k), fixed), more.value.1))
  {
    var dest := DestItems(d, slots, k, i);
    FixedIsFull(d, slots, k);
    FixedFullItems(d, slots, k);
    assert slots[k].values[..0] == [];
    assert dest.slots[k] == Many(slots[k].values[..i]);
    forall vs: seq<Value>
      ensures dest.slots[k := Many(vs)] == Partial(d, slots, k)[k := Many(vs)]
    {
    }
    hide DecodeElements, Fits, Partial, FixedFull, SeenUpTo;
  }

  lemma FixedFullItems(d: Descriptor, slots: seq<Slot>, k: nat)
    requires Fits(d, slots) && k < |slots| && slots[k].Many?
    ensures FixedFull(d, DestItems(d, slots, k, 0))
  {
    FixedIsFull(d, slots, k);
    PartialNext(d, slots, k);
  }

  lemma PackedFieldReadsBack(d: Descriptor, slots: seq<Slot>, k: nat, rest: Bytes)
    requires WellFormed(d) && Fits(d, slots) && k < |slots| && slots[k].Many? && slots[k].values != []
    requires Counted(d.fields[k]) && Packable(d.fields[k].ltype)
    requires EncodeSlot(d.fields[k], slots[k]).Some? && |EncodeSlot(d.fields[k], slots[k]).value| < U32
    ensures DecodeLoop(d, DestAt(d, slots, k), EncodeSlot(d.fields[k], slots[k]).value + rest) ==
              DecodeLoop(d, DestAt(d, slots, k + 1), rest)
  {
    hide DecodeLoop, DecodeField, EncodeSlot, EncodePacked, DecodePacked, DecodeElements, GetDelimited, EncodeTag,
         LengthAnd;
    hide HasType, SlotFits, WellFormed, Fits, Partial, SeenUpTo, FixedUpTo;
    FieldFits(d, slots, k);
    var f, vs := d.fields[k], slots[k].values;
    var packed := EncodePacked(f.ltype, vs);
    PackedCode(f, slots[k], rest);
    DelimitedReadsBack(packed, rest);
    PackedReadsBack(f.ltype, [], vs, Limit(f));
    ItemsBounds(d, slots, k);
    ElementsField(d, slots, k, 0, StringWire, LengthAnd(packed) + rest);
    TagDispatch(d, DestAt(d, slots, k), k, StringWire, LengthAnd(packed) + rest);
    PackedElements(f, vs, LengthAnd(packed) + rest, rest);
    PackedDest(d, slots, k);
  }

  lemma FieldFits(d: Descriptor, slots: seq<Slot>, k: nat)
    requires Fits(d, slots) && k < |slots|
    ensures |slots| == |d.fields| && SlotFits(d.fields[k], slots[k])
    ensures slots[k].Many? ==> forall j | 0 <= j < |slots[k].values| :: HasType(d.fields[k].ltype, slots[k].values[j])
  {
    assert SlotFits(d.fields[k], slots[k]);
  }

  lemma PackedCode(f: Field, s: Slot, rest: Bytes)
    requires SlotFits(f, s) && s.Many? && s.values != [] && Counted(f) && Packable(f.ltype)
    requires forall j | 0 <= j < |s.values| :: HasType(f.ltype, s.values[j])
    requires EncodeSlot(f, s).Some?
    ensures |s.values| <= Limit(f)
    ensures |EncodePacked(f.ltype, s.values)| <= |EncodeSlot(f, s).value|
    ensures EncodeSlot(f, s).value + rest ==
              EncodeTag(f.tag, StringWire) + (LengthAnd(EncodePacked(f.ltype, s.values)) + rest)
  {
    hide EncodeTag, EncodePacked;
  }

  lemma PackedElements(f: Field, vs: seq<Value>, payload: Bytes, rest: Bytes)
    requires Counted(f) && Packable(f.ltype) && (forall j | 0 <= j < |vs| :: HasType(f.ltype, vs[j]))
    requires GetDelimited(payload) == Some((EncodePacked(f.ltype, vs), rest))
    requires DecodePacked(f.ltype, [], EncodePacked(f.ltype, vs), Limit(f)) == Some([] + vs)
    ensures DecodeElements(f, vs[..0], StringWire, payload) == Some((vs, rest))
  {
    hide GetDelimited, EncodePacked, DecodePacked, HasType;
    assert [] + vs == vs && vs[..0] == [];
  }

  lemma PackedDest(d: Descriptor, slots: seq<Slot>, k: nat)
    requires |slots| == |d.fields| && k < |slots| && slots[k].Many? && slots[k].values != [] && Counted(d.fields[k])
    ensures DestItems(d, slots, k, |slots[k].values|) ==
              Dest(Partial(d, slots, k)[k := Many(slots[k].values)], SeenUpTo(d, k),
                   if d.fields[k].htype.FixedCount? then Some(k) else FixedUpTo(d, slots, k))
  {
    assert slots[k].values[..|slots[k].values|] == slots[k].values;
  }

  lemma {:induction false} ItemsReadBack(d: Descriptor, slots: seq<Slot>, k: nat, i: nat, rest: Bytes)
    requires WellFormed(d) && Fits(d, slots) && k < |slots| && slots[k].Many? && i <= |slots[k].values|
    requires Counted(d.fields[k]) && |slots[k].values| <= Limit(d.fields[k])
    requires forall j | 0 <= j < |slots[k].values| :: HasType(d.fields[k].ltype, slots[k].values[j])
    requires EncodeItems(d.fields[k], slots[k].values[i..]).Some?
    requires |EncodeItems(d.fields[k], slots[k].values[i..]).value| < U32
    ensures DecodeLoop(d, DestItems(d, slots, k, i), EncodeItems(d.fields[k], slots[k].values[i..]).value + rest) ==
              if forall j | i <= j < |slots[k].values| :: RestorableValue(d.fields[k].ltype, slots[k].values[j])
              then DecodeLoop(d, DestItems(d, slots, k, |slots[k].values|), rest) else None
    decreases d, 0, 0, |slots[k].values| - i
  {
    var f, vs := d.fields[k], slots[k].values;
    if i == |vs| {
      assert [] + rest == rest;
    } else {
      assert vs[i..][0] == vs[i] && vs[i..][1..] == vs[i + 1..];
      assert FieldOk(f);
      var value, more := EncodeValue(f.ltype, vs[i]).value, EncodeItems(f, vs[i + 1..]).value;
      ItemsReadBack(d, slots, k, i + 1, rest);
      ValueReadsBack(f.ltype, vs[i], DefaultValue(f), more + rest);
      ElementsField(d, slots, k, i, WireFor(f.ltype), value + (more + rest));
      TagDispatch(d, DestItems(d, slots, k, i), k, WireFor(f.ltype), value + (more + rest));
      ElementNext(d, slots, k, i, WireFor(f.ltype), value + (more + rest), more + rest);
      ItemBytes(f, value, more, rest);
      hide DecodeLoop, DecodeField, DestItems, Fits, WellFormed, HasType, EncodeValue, EncodeItems, RestorableValue,
           DecodeValue, DefaultValue, DecodeElements;
    }
  }

  lemma ItemBytes(f: Field, value: Bytes, more: Bytes, rest: Bytes)
    ensures EncodeTag(f.tag, WireFor(f.ltype)) + value + more + rest
         == EncodeTag(f.tag, WireFor(f.ltype)) + (value + (more + rest))
  {
    hide EncodeTag;
  }

  lemma ElementNext(d: Descriptor, slots: seq<Slot>, k: nat, i: nat, w: WireType, payload: Bytes, rest: Bytes)
    requires Fits(d, slots) && k < |slots| && slots[k].Many? && Counted(d.fields[k]) && i < |slots[k].values|
    requires !(w.StringWire? && Packable(d.fields[k].ltype)) && |slots[k].values| <= Limit(d.fields[k])
    ensures var r := DecodeValue(d.fields[k].ltype, DefaultValue(d.fields[k]), payload);
            && (r == Some((slots[k].values[i], rest)) ==>
                  DecodeField(d, DestItems(d, slots, k, i), k, w, payload) ==
                    Some((DestItems(d, slots, k, i + 1), rest)))
            && (r == None ==> DecodeField(d, DestItems(d, slots, k, i), k, w, payload) == None)
  {
    ElementsField(d, slots, k, i, w, payload);
    assert slots[k].values[..i] + [slots[k].values[i]] == slots[k].values[..i + 1];
    hide DecodeValue, DefaultValue, Fits, Partial, SeenUpTo, FixedUpTo, DecodeField;
  }

  // ----- the main result -----

  /** pb_decode of what pb_encode wrote: the message comes back exactly when each of its strings is shorter than its
      field, and decoding fails otherwise. */
  lemma DecodesExactlyWhenRestorable(d: Descriptor, slots: seq<Slot>)
    requires WellFormed(d) && Fits(d, slots)
    requires EncodeMessage(d, slots).Some? && |EncodeMessage(d, slots).value| < U32
    ensures Decode(d, EncodeMessage(d, slots).value) == Some(slots) <==> Restorable(d, slots)
    ensures !Restorable(d, slots) ==> Decode(d, EncodeMessage(d, slots).value) == None
  {
    MessageReadsBack(d, slots);
  }
}
