/** Reading a message that was not written for the reader's descriptor (pb_decode.c): fields the reader does not know
    are skipped, and a message without a required field is rejected. */
module PbEvolution {
  import opened Wrappers
  import opened Coding
  import opened PbWire
  import opened PbMessages
  import opened PbEncode
  import opened PbDecode
  import opened PbRoundTrip

  // ----- one unknown field -----

  /** The payloads of the four wire types. */
  datatype Payload = Number(v: nat) | Eight(b: Bytes) | Delimited(b: Bytes) | Four(b: Bytes)

  predicate PayloadOk(p: Payload) {
    match p
    case Number(_) => true
    case Eight(b) => |b| == 8
    case Delimited(b) => |b| < U32
    case Four(b) => |b| == 4
  }

  function FieldBytes(tag: nat, p: Payload): Bytes {
    match p
    case Number(v) => Varint(8 * tag) + Varint(v)
    case Eight(b) => Varint(8 * tag + 1) + b
    case Delimited(b) => Varint(8 * tag + 2) + (Varint(|b|) + b)
    case Four(b) => Varint(8 * tag + 5) + b
  }

  predicate Knows(d: Descriptor, tag: nat) {
    exists k :: 0 <= k < |d.fields| && d.fields[k].tag == tag
  }

  lemma {:induction false} UnknownIsNotFound(d: Descriptor, tag: nat, k: nat)
    requires !Knows(d, tag) && k <= |d.fields|
    ensures Find(d, tag, k) == None
    decreases |d.fields| - k
  {
    if k < |d.fields| {
      UnknownIsNotFound(d, tag, k + 1);
    }
  }

  /** pb_skip_varint stops behind the number, however large it is. */
  lemma {:induction false} VarintIsSkipped(v: nat, rest: Bytes)
    ensures SkipVarint(Varint(v) + rest) == Some(rest)
    decreases v
  {
    var input := Varint(v) + rest;
    PbWire.VarintStep(v, rest);
    if v < 128 {
      assert input[1..] == rest;
    } else {
      assert input[1..] == Varint(v / 128) + rest;
      VarintIsSkipped(v / 128, rest);
    }
  }

  lemma FieldIsSkipped(tag: nat, p: Payload, rest: Bytes)
    requires 0 < tag < 0x2000_0000 && PayloadOk(p)
    ensures var t := DecodeTag(FieldBytes(tag, p) + rest);
            t.Tag? && t.number == tag && SkipField(t.wire, t.rest) == Some(rest)
  {
    hide Varint, DecodeTag, SkipVarint, GetDelimited;
    match p {
      case Number(v) =>
        TagReadsBack(tag, VarintWire, Varint(v) + rest);
        VarintIsSkipped(v, rest);
        assert FieldBytes(tag, p) + rest == EncodeTag(tag, VarintWire) + (Varint(v) + rest);
      case Eight(b) =>
        TagReadsBack(tag, Bits64, b + rest);
        assert (b + rest)[8..] == rest;
        assert FieldBytes(tag, p) + rest == EncodeTag(tag, Bits64) + (b + rest);
      case Delimited(b) =>
        TagReadsBack(tag, StringWire, LengthAnd(b) + rest);
        DelimitedReadsBack(b, rest);
        assert FieldBytes(tag, p) + rest == EncodeTag(tag, StringWire) + (LengthAnd(b) + rest);
      case Four(b) =>
        TagReadsBack(tag, Bits32, b + rest);
        assert (b + rest)[4..] == rest;
        assert FieldBytes(tag, p) + rest == EncodeTag(tag, Bits32) + (b + rest);
    }
  }

  lemma SkipUnfold(d: Descriptor, dest: Dest, input: Bytes)
    requires |dest.slots| == |d.fields| && input != [] && DecodeTag(input).Tag?
    requires Find(d, DecodeTag(input).number, 0).None?
    ensures var t := DecodeTag(input);
            var skipped := SkipField(t.wire, t.rest);
            DecodeLoop(d, dest, input) == if skipped.None? then None else DecodeLoop(d, dest, skipped.value)
  {
    hide DecodeField, DecodeTag, Find, SkipField;
  }

  /** A field that the descriptor does not have changes nothing, whatever its wire type and its contents, wherever the
      loop meets it. */
  lemma UnknownFieldIsSkipped(d: Descriptor, dest: Dest, tag: nat, p: Payload, rest: Bytes)
    requires |dest.slots| == |d.fields| && !Knows(d, tag) && 0 < tag < 0x2000_0000 && PayloadOk(p)
    ensures DecodeLoop(d, dest, FieldBytes(tag, p) + rest) == DecodeLoop(d, dest, rest)
  {
    hide DecodeLoop, DecodeTag, SkipField, Knows, FieldBytes, PayloadOk, Find;
    var input := FieldBytes(tag, p) + rest;
    FieldIsSkipped(tag, p, rest);
    UnknownIsNotFound(d, tag, 0);
    NothingToRead();
    SkipUnfold(d, dest, input);
  }

  lemma NothingToRead()
    ensures DecodeTag([]).BadTag?
  {
  }

  /** The same in front of a whole message. */
  lemma UnknownFieldInFront(d: Descriptor, tag: nat, p: Payload, input: Bytes)
    requires !Knows(d, tag) && 0 < tag < 0x2000_0000 && PayloadOk(p)
    ensures Decode(d, FieldBytes(tag, p) + input) == Decode(d, input)
  {
    hide DecodeLoop, FieldBytes, Knows, FixedFull, AllRequiredSeen, Default;
    UnknownFieldIsSkipped(d, Dest(Default(d), {}, None), tag, p, input);
  }

  /** A field of a wire type that does not exist, or one that is cut off, is an error. */
  lemma BadFieldIsRejected(d: Descriptor, dest: Dest, tag: nat, wire: nat, rest: Bytes)
    requires |dest.slots| == |d.fields| && !Knows(d, tag) && 0 < tag < 0x2000_0000 && wire < 8
    requires wire == 3 || wire == 4 || wire > 5 || (wire == 1 && |rest| < 8) || (wire == 5 && |rest| < 4)
    ensures DecodeLoop(d, dest, Varint(8 * tag + wire) + rest) == None
  {
    hide DecodeLoop, Find, Knows, GetDelimited, SkipVarint, DecodeTag, Varint;
    var input := Varint(8 * tag + wire) + rest;
    TagIs(tag, wire, rest);
    UnknownIsNotFound(d, tag, 0);
    NothingToRead();
    SkipUnfold(d, dest, input);
  }

  lemma TagIs(tag: nat, wire: nat, rest: Bytes)
    requires 0 < tag < 0x2000_0000 && wire < 8
    ensures DecodeTag(Varint(8 * tag + wire) + rest) == Tag(tag, WireOf(wire), rest)
  {
    hide DecodeVarint32, Varint;
    Varint32ReadsBack(8 * tag + wire, rest);
  }

  // ----- an older reader -----

  function Rank(keep: seq<bool>, k: nat): nat
    requires k <= |keep|
  {
    if k == 0 then 0 else Rank(keep, k - 1) + if keep[k - 1] then 1 else 0
  }

  /** The first k places, without those that are not kept. */
  function KeptUpTo<T>(s: seq<T>, keep: seq<bool>, k: nat): (r: seq<T>)
    requires k <= |s| == |keep|
    ensures |r| == Rank(keep, k)
  {
    if k == 0 then [] else KeptUpTo(s, keep, k - 1) + if keep[k - 1] then [s[k - 1]] else []
  }

  function Kept<T>(s: seq<T>, keep: seq<bool>): (r: seq<T>)
    requires |s| == |keep|
  {
    KeptUpTo(s, keep, |s|)
  }

  lemma {:induction false} KeptAt<T>(s: seq<T>, keep: seq<bool>, k: nat, n: nat)
    requires k < n <= |s| == |keep| && keep[k]
    ensures Rank(keep, k) < Rank(keep, n) && KeptUpTo(s, keep, n)[Rank(keep, k)] == s[k]
  {
    if k < n - 1 {
      KeptAt(s, keep, k, n - 1);
    }
  }

  /** Where the j-th kept place was. */
  function Origin(keep: seq<bool>, n: nat, j: nat): (k: nat)
    requires n <= |keep| && j < Rank(keep, n)
    ensures k < n && keep[k] && Rank(keep, k) == j
  {
    if j < Rank(keep, n - 1) then Origin(keep, n - 1, j) else n - 1
  }

  lemma {:induction false} RankGrows(keep: seq<bool>, i: nat, j: nat)
    requires i <= j <= |keep|
    ensures Rank(keep, i) <= Rank(keep, j)
    decreases j
  {
    if i < j {
      RankGrows(keep, i, j - 1);
    }
  }

  lemma KeptFrom<T>(s: seq<T>, keep: seq<bool>, i: nat, j: nat)
    requires |s| == |keep| && i <= j < Rank(keep, |keep|)
    ensures var n := |s|;
            && |Kept(s, keep)| == Rank(keep, n) && Origin(keep, n, i) <= Origin(keep, n, j) < |s|
            && (i < j ==> Origin(keep, n, i) < Origin(keep, n, j))
            && Kept(s, keep)[i] == s[Origin(keep, n, i)] && Kept(s, keep)[j] == s[Origin(keep, n, j)]
  {
    var n := |s|;
    KeptAt(s, keep, Origin(keep, n, i), n);
    KeptAt(s, keep, Origin(keep, n, j), n);
    if Origin(keep, n, j) < Origin(keep, n, i) {
      RankGrows(keep, Origin(keep, n, j), Origin(keep, n, i));
    }
  }

  lemma KeptLength<T>(s: seq<T>, keep: seq<bool>)
    requires |s| == |keep|
    ensures |Kept(s, keep)| == Rank(keep, |keep|)
  {
  }

  /** What a reader knows of a descriptor: each field is absent, or known with what is known of its submessage. */
  datatype View = View(fields: seq<Option<View>>)

  predicate IsView(d: Descriptor, view: View)
    decreases d
  {
    && |view.fields| == |d.fields|
    && forall k | 0 <= k < |d.fields| && view.fields[k].Some? :: IsFieldView(d.fields[k], view.fields[k].value)
  }

  predicate IsFieldView(f: Field, view: View)
    decreases f
  {
    f.ltype.Submessage? ==> IsView(f.ltype.sub, view)
  }

  function Mask(view: View): (keep: seq<bool>)
    ensures |keep| == |view.fields|
  {
    seq(|view.fields|, k requires 0 <= k < |view.fields| => view.fields[k].Some?)
  }

  /** The descriptor of the reader. */
  function Seen(d: Descriptor, view: View): Descriptor
    requires IsView(d, view)
    decreases d, 1
  {
    Descriptor(Kept(SeenFields(d, view), Mask(view)))
  }

  /** Its fields, before the absent ones are taken out. */
  function SeenFields(d: Descriptor, view: View): (r: seq<Field>)
    requires IsView(d, view)
    ensures |r| == |d.fields|
    decreases d, 0
  {
    seq(|d.fields|, k requires 0 <= k < |d.fields| =>
      if view.fields[k].Some? then SeenField(d.fields[k], view.fields[k].value) else d.fields[k])
  }

  function SeenField(f: Field, view: View): (r: Field)
    requires IsFieldView(f, view)
    ensures r.tag == f.tag && r.htype == f.htype && r.init == f.init
    ensures r.ltype.Submessage? <==> f.ltype.Submessage?
    ensures !f.ltype.Submessage? ==> r == f
    decreases f
  {
    if f.ltype.Submessage? then f.(ltype := Submessage(Seen(f.ltype.sub, view))) else f
  }

  /** The message as the reader gets it. */
  function SeenSlots(d: Descriptor, slots: seq<Slot>, view: View): seq<Slot>
    requires IsView(d, view) && |slots| == |d.fields|
    decreases d, 1
  {
    Kept(SeenEach(d, slots, view), Mask(view))
  }

  function SeenEach(d: Descriptor, slots: seq<Slot>, view: View): (r: seq<Slot>)
    requires IsView(d, view) && |slots| == |d.fields|
    ensures |r| == |slots|
    decreases d, 0
  {
    seq(|slots|, k requires 0 <= k < |slots| =>
      if view.fields[k].Some? then SeenSlot(d.fields[k], slots[k], view.fields[k].value) else slots[k])
  }

  function SeenSlot(f: Field, s: Slot, view: View): Slot
    requires IsFieldView(f, view)
    decreases f, 0
  {
    match s
    case One(x) => One(SeenValue(f, x, view))
    case Maybe(o) => if o.None? then s else Maybe(Some(SeenValue(f, o.value, view)))
    case Many(vs) => Many(SeenValues(f, vs, view))
  }

  function SeenValues(f: Field, vs: seq<Value>, view: View): (r: seq<Value>)
    requires IsFieldView(f, view)
    ensures |r| == |vs|
    decreases f, 0, |vs|
  {
    if vs == [] then [] else [SeenValue(f, vs[0], view)] + SeenValues(f, vs[1..], view)
  }

  function SeenValue(f: Field, x: Value, view: View): (r: Value)
    requires IsFieldView(f, view)
    ensures !f.ltype.Submessage? ==> r == x
    decreases f, 0, 0
  {
    if f.ltype.Submessage? && x.Message? && |x.slots| == |f.ltype.sub.fields|
    then Message(SeenSlots(f.ltype.sub, x.slots, view)) else x
  }

  // ----- the reader's message is one of its descriptor -----

  lemma {:induction false} SeenIsWellFormed(d: Descriptor, view: View)
    requires WellFormed(d) && IsView(d, view)
    ensures WellFormed(Seen(d, view))
    decreases d
  {
    var all, fields := SeenFields(d, view), Seen(d, view).fields;
    forall k | 0 <= k < |all|
      ensures FieldOk(all[k]) && all[k].tag == d.fields[k].tag
    {
      assert FieldOk(d.fields[k]);
      if view.fields[k].Some? {
        if d.fields[k].ltype.Submessage? {
          SeenIsWellFormed(d.fields[k].ltype.sub, view.fields[k].value);
        }
        SeenFieldOk(d.fields[k], view.fields[k].value);
      }
    }
    KeptLength(all, Mask(view));
    assert forall i, j | 0 <= i < j < |d.fields| :: d.fields[i].tag != d.fields[j].tag;
    hide Kept, Origin, Rank, SeenFields, FieldOk;
    forall i, j | 0 <= i < j < |fields|
      ensures fields[i].tag != fields[j].tag
    {
      KeptFrom(all, Mask(view), i, j);
    }
    forall k | 0 <= k < |fields|
      ensures FieldOk(fields[k])
    {
      KeptFrom(all, Mask(view), k, k);
    }
  }

  lemma SeenFieldOk(f: Field, view: View)
    requires FieldOk(f) && IsFieldView(f, view)
    requires f.ltype.Submessage? ==> WellFormed(Seen(f.ltype.sub, view))
    ensures FieldOk(SeenField(f, view))
  {
    hide Seen, WellFormed;
  }

  lemma {:induction false} SeenFits(d: Descriptor, slots: seq<Slot>, view: View)
    requires Fits(d, slots) && IsView(d, view)
    ensures |slots| == |d.fields| && Fits(Seen(d, view), SeenSlots(d, slots, view))
    decreases d, 1
  {
    var all, each := SeenFields(d, view), SeenEach(d, slots, view);
    forall k | 0 <= k < |all|
      ensures SlotFits(all[k], each[k]) && all[k].htype == d.fields[k].htype
      ensures slots[k].Maybe? ==> each[k].Maybe? && (each[k].option.None? <==> slots[k].option.None?)
    {
      assert SlotFits(d.fields[k], slots[k]);
      if view.fields[k].Some? {
        SeenSlotFits(d.fields[k], slots[k], view.fields[k].value);
      }
    }
    KeptLength(all, Mask(view));
    KeptLength(each, Mask(view));
    assert forall i, j | 0 <= i < j < |slots| && SameGroup(d.fields[i], d.fields[j]) ::
        slots[i].Maybe? && slots[j].Maybe? && (slots[i].option.None? || slots[j].option.None?);
    var fields, kept := Seen(d, view).fields, SeenSlots(d, slots, view);
    hide Kept, Origin, Rank, SeenFields, SeenEach, SlotFits;
    forall k | 0 <= k < |kept|
      ensures SlotFits(fields[k], kept[k])
    {
      KeptFrom(all, Mask(view), k, k);
      KeptFrom(each, Mask(view), k, k);
    }
    forall i, j | 0 <= i < j < |kept| && SameGroup(fields[i], fields[j])
      ensures kept[i].Maybe? && kept[j].Maybe? && (kept[i].option.None? || kept[j].option.None?)
    {
      KeptFrom(all, Mask(view), i, j);
      KeptFrom(each, Mask(view), i, j);
    }
  }

  lemma {:induction false} SeenSlotFits(f: Field, s: Slot, view: View)
    requires SlotFits(f, s) && IsFieldView(f, view)
    ensures SlotFits(SeenField(f, view), SeenSlot(f, s, view))
    decreases f, 1
  {
    hide Seen, SeenSlots, SeenValue, HasType;
    match s {
      case One(x) => SeenHasType(f, x, view);
      case Maybe(o) =>
        if o.Some? {
          SeenHasType(f, o.value, view);
        }
      case Many(vs) =>
        forall i | 0 <= i < |vs|
          ensures HasType(SeenField(f, view).ltype, SeenValues(f, vs, view)[i])
        {
          SeenHasType(f, vs[i], view);
          SeenValuesAt(f, vs, view, i);
        }
    }
  }

  lemma {:induction false} SeenValuesAt(f: Field, vs: seq<Value>, view: View, i: nat)
    requires IsFieldView(f, view) && i < |vs|
    ensures SeenValues(f, vs, view)[i] == SeenValue(f, vs[i], view)
    decreases |vs|
  {
    hide SeenValue;
    if i > 0 {
      SeenValuesAt(f, vs[1..], view, i - 1);
    }
  }

  lemma {:induction false} SeenHasType(f: Field, x: Value, view: View)
    requires HasType(f.ltype, x) && IsFieldView(f, view)
    ensures HasType(SeenField(f, view).ltype, SeenValue(f, x, view))
    decreases f, 0
  {
    hide Seen, SeenSlots;
    if f.ltype.Submessage? {
      SeenFits(f.ltype.sub, x.slots, view);
    }
  }

  /** What is zero for the writer is zero for the reader. */
  lemma {:induction false} SeenZero(f: Field, x: Value, view: View)
    requires HasType(f.ltype, x) && IsFieldView(f, view) && IsZeroValue(f.ltype, x)
    ensures IsZeroValue(SeenField(f, view).ltype, SeenValue(f, x, view))
    decreases f, 0
  {
    if f.ltype.Submessage? {
      var sub := f.ltype.sub;
      assert f.ltype == Submessage(sub) && |x.slots| == |sub.fields|;
      var all, each := SeenFields(sub, view), SeenEach(sub, x.slots, view);
      forall k | 0 <= k < |all|
        ensures IsZeroSlot(all[k], each[k])
      {
        assert IsZeroSlot(sub.fields[k], x.slots[k]) && SlotFits(sub.fields[k], x.slots[k]);
        if view.fields[k].Some? {
          SeenZeroSlot(sub.fields[k], x.slots[k], view.fields[k].value);
        }
      }
      KeptLength(all, Mask(view));
      KeptLength(each, Mask(view));
      var fields, kept := Seen(sub, view).fields, SeenSlots(sub, x.slots, view);
      hide Kept, Origin, Rank, SeenFields, SeenEach, IsZeroSlot;
      forall k | 0 <= k < |fields|
        ensures IsZeroSlot(fields[k], kept[k])
      {
        KeptFrom(all, Mask(view), k, k);
        KeptFrom(each, Mask(view), k, k);
      }
    }
  }

  lemma {:induction false} SeenZeroSlot(f: Field, s: Slot, view: View)
    requires SlotFits(f, s) && IsFieldView(f, view) && IsZeroSlot(f, s)
    ensures IsZeroSlot(SeenField(f, view), SeenSlot(f, s, view))
    decreases f, 1
  {
    hide SeenValue, IsZeroValue, HasType, Seen;
    if f.htype.Implicit? {
      SeenZero(f, s.value, view);
    }
  }

  lemma AbsentIsUnknown(d: Descriptor, view: View, k: nat)
    requires WellFormed(d) && IsView(d, view) && k < |d.fields| && view.fields[k].None?
    ensures !Knows(Seen(d, view), d.fields[k].tag)
  {
    var all, fields := SeenFields(d, view), Seen(d, view).fields;
    KeptLength(all, Mask(view));
    forall i | 0 <= i < |all|
      ensures all[i].tag == d.fields[i].tag
    {
    }
    hide Kept, Origin, Rank, SeenFields;
    forall j | 0 <= j < |fields|
      ensures fields[j].tag != d.fields[k].tag
    {
      KeptFrom(all, Mask(view), j, j);
    }
  }

  // ----- the encoder writes fields that can be skipped -----

  /** What the encoder writes behind the tag is a payload of the tag's wire type. */
  ghost function AsPayload(l: LType, v: Value): (p: Payload)
    requires HasType(l, v) && EncodeValue(l, v).Some?
  {
    if l.Fixed32? then Four(EncodeFixed32(v.n))
    else if l.Fixed64? then Eight(EncodeFixed64(v.n))
    else if l.VarInt? then Number(v.n % U64)
    else if l.SVarInt? then Number(ZigZag(v.n))
    else if l.Bool? || l.UVarInt? then Number(v.n)
    else if l.Submessage? then Delimited(EncodeFrom(l.sub, v.slots, 0).value)
    else Delimited(v.b)
  }

  lemma ValueIsPayload(f: Field, v: Value)
    requires HasType(f.ltype, v) && EncodeTagged(f, v).Some? && |EncodeTagged(f, v).value| < U32
    ensures EncodeValue(f.ltype, v).Some? && PayloadOk(AsPayload(f.ltype, v))
    ensures EncodeTagged(f, v).value == FieldBytes(f.tag, AsPayload(f.ltype, v))
  {
    hide Varint, EncodeFrom, ZigZag, Fits, EncodeFixed32, EncodeFixed64;
    FixedLengths(f.ltype, v);
  }

  lemma FixedLengths(l: LType, v: Value)
    requires HasType(l, v)
    ensures l.Fixed32? ==> |EncodeFixed32(v.n)| == 4
    ensures l.Fixed64? ==> |EncodeFixed64(v.n)| == 8
  {
  }

  lemma TaggedIsSkipped(d: Descriptor, dest: Dest, f: Field, v: Value, rest: Bytes)
    requires |dest.slots| == |d.fields| && !Knows(d, f.tag) && 0 < f.tag < 0x2000_0000 && HasType(f.ltype, v)
    requires EncodeTagged(f, v).Some? && |EncodeTagged(f, v).value| < U32
    ensures DecodeLoop(d, dest, EncodeTagged(f, v).value + rest) == DecodeLoop(d, dest, rest)
  {
    hide *;
    ValueIsPayload(f, v);
    UnknownFieldIsSkipped(d, dest, f.tag, AsPayload(f.ltype, v), rest);
  }

  lemma {:induction false} ItemsAreSkipped(d: Descriptor, dest: Dest, f: Field, vs: seq<Value>, rest: Bytes)
    requires |dest.slots| == |d.fields| && !Knows(d, f.tag) && 0 < f.tag < 0x2000_0000
    requires forall i | 0 <= i < |vs| :: HasType(f.ltype, vs[i])
    requires EncodeItems(f, vs).Some? && |EncodeItems(f, vs).value| < U32
    ensures DecodeLoop(d, dest, EncodeItems(f, vs).value + rest) == DecodeLoop(d, dest, rest)
    decreases |vs|
  {
    hide DecodeLoop, EncodeTagged, Knows, HasType;
    if vs == [] {
      assert [] + rest == rest;
    } else {
      var first, more := EncodeTagged(f, vs[0]).value, EncodeItems(f, vs[1..]).value;
      assert first + more + rest == first + (more + rest);
      TaggedIsSkipped(d, dest, f, vs[0], more + rest);
      ItemsAreSkipped(d, dest, f, vs[1..], rest);
    }
  }

  lemma PackedIsSkipped(d: Descriptor, dest: Dest, tag: nat, packed: Bytes, rest: Bytes)
    requires |dest.slots| == |d.fields| && !Knows(d, tag) && 0 < tag < 0x2000_0000
    requires |EncodeTag(tag, StringWire) + LengthAnd(packed)| < U32
    ensures DecodeLoop(d, dest, EncodeTag(tag, StringWire) + LengthAnd(packed) + rest) == DecodeLoop(d, dest, rest)
  {
    hide DecodeLoop, Varint, Knows;
    UnknownFieldIsSkipped(d, dest, tag, Delimited(packed), rest);
  }

  /** Everything the encoder writes for a field that the reader does not know. */
  lemma SlotIsSkipped(d: Descriptor, dest: Dest, f: Field, s: Slot, rest: Bytes)
    requires |dest.slots| == |d.fields| && !Knows(d, f.tag) && 0 < f.tag < 0x2000_0000 && SlotFits(f, s)
    requires EncodeSlot(f, s).Some? && |EncodeSlot(f, s).value| < U32
    ensures DecodeLoop(d, dest, EncodeSlot(f, s).value + rest) == DecodeLoop(d, dest, rest)
  {
    hide DecodeLoop, EncodeTagged, EncodeItems, EncodePacked, Knows, HasType, IsZeroValue, EncodeTag, LengthAnd;
    assert [] + rest == rest;
    if s.One? {
      if EncodeSlot(f, s).value != [] {
        TaggedIsSkipped(d, dest, f, s.value, rest);
      }
    } else if s.Maybe? {
      if s.option.Some? {
        TaggedIsSkipped(d, dest, f, s.option.value, rest);
      }
    } else if s.values != [] {
      if Packable(f.ltype) {
        PackedIsSkipped(d, dest, f.tag, EncodePacked(f.ltype, s.values), rest);
      } else {
        ItemsAreSkipped(d, dest, f, s.values, rest);
      }
    }
  }

  // ----- the main result -----

  lemma DestLength(d: Descriptor, slots: seq<Slot>, k: nat)
    requires k <= |slots| == |d.fields|
    ensures |DestAt(d, slots, k).slots| == |d.fields|
  {
    hide Partial, SeenUpTo, FixedUpTo;
  }

  /** A zero message can be restored: nothing of it is sent. */
  lemma ZeroIsRestorable(f: Field, x: Value)
    requires f.ltype.Submessage? && IsZeroValue(f.ltype, x)
    ensures RestorableValue(f.ltype, x)
  {
    var sub := f.ltype.sub;
    assert f.ltype == Submessage(sub);
    forall k | 0 <= k < |x.slots|
      ensures RestorableSlot(sub.fields[k], x.slots[k])
    {
      assert IsZeroSlot(sub.fields[k], x.slots[k]);
    }
  }

  /** The bytes of a submessage, read by the reader. */
  lemma {:induction false} SeenValueReadsBack(f: Field, x: Value, view: View, rest: Bytes)
    requires HasType(f.ltype, x) && f.ltype.Submessage? && WellFormed(f.ltype.sub) && IsFieldView(f, view)
    requires EncodeValue(f.ltype, x).Some? && |EncodeValue(f.ltype, x).value| < U32
    ensures var r, y := SeenField(f, view), SeenValue(f, x, view);
            DecodeValue(r.ltype, DefaultValue(r), EncodeValue(f.ltype, x).value + rest) ==
              if RestorableValue(r.ltype, y) then Some((y, rest)) else None
    decreases f, 0
  {
    var sub := f.ltype.sub;
    var inner := EncodeMessage(sub, x.slots).value;
    DelimitedReadsBack(inner, rest);
    SeenMessageReadsBack(sub, x.slots, view);
    hide EncodeFrom, DecodeNoinit, GetDelimited, Fits, Restorable, Default, Seen, SeenSlots, IsView, WellFormed;
  }

  lemma {:induction false} SeenFieldReadsBack(d: Descriptor, slots: seq<Slot>, k: nat, f: Field, s: Slot, view: View,
                                              rest: Bytes)
    requires WellFormed(d) && Fits(d, slots) && k < |slots| == |d.fields| && SlotFits(f, s) && FieldOk(f)
    requires IsFieldView(f, view) && d.fields[k] == SeenField(f, view) && slots[k] == SeenSlot(f, s, view)
    requires EncodeSlot(f, s).Some? && |EncodeSlot(f, s).value| < U32
    ensures DecodeLoop(d, DestAt(d, slots, k), EncodeSlot(f, s).value + rest) ==
              if RestorableSlot(d.fields[k], slots[k]) then DecodeLoop(d, DestAt(d, slots, k + 1), rest) else None
    decreases f, 2
  {
    if !f.ltype.Submessage? {
      UnchangedSlot(f, s, view);
      FieldReadsBack(d, slots, k, rest);
    } else if s.Many? {
      if s.values == [] {
        AbsentReadsBack(d, slots, k);
        assert [] + rest == rest;
      } else {
        ItemsBounds(d, slots, k);
        assert s.values[0..] == s.values;
        SeenItemsReadBack(d, slots, k, f, s.values, view, 0, rest);
      }
    } else if s.Maybe? {
      if s.option.None? {
        AbsentReadsBack(d, slots, k);
        assert [] + rest == rest;
      } else {
        SeenSingleReadsBack(d, slots, k, f, s.option.value, view, rest);
      }
    } else if f.htype.Implicit? && IsZeroValue(f.ltype, s.value) {
      SeenZero(f, s.value, view);
      FieldFits(d, slots, k);
      assert FieldOk(d.fields[k]);
      ZeroIsDefault(d.fields[k], slots[k].value);
      AbsentReadsBack(d, slots, k);
      assert [] + rest == rest;
    } else {
      SeenSingleReadsBack(d, slots, k, f, s.value, view, rest);
      if d.fields[k].htype.Implicit? && IsZeroValue(d.fields[k].ltype, slots[k].value) {
        ZeroIsRestorable(d.fields[k], slots[k].value);
      }
    }
  }

  lemma UnchangedSlot(f: Field, s: Slot, view: View)
    requires IsFieldView(f, view) && !f.ltype.Submessage?
    ensures SeenField(f, view) == f && SeenSlot(f, s, view) == s
  {
    if s.Many? {
      forall i | 0 <= i < |s.values|
        ensures SeenValues(f, s.values, view)[i] == s.values[i]
      {
        SeenValuesAt(f, s.values, view, i);
      }
      assert SeenValues(f, s.values, view) == s.values;
    }
  }

  lemma {:induction false} SeenSingleReadsBack(d: Descriptor, slots: seq<Slot>, k: nat, f: Field, x: Value, view: View,
                                               rest: Bytes)
    requires WellFormed(d) && Fits(d, slots) && k < |slots| == |d.fields| && HasType(f.ltype, x) && FieldOk(f)
    requires IsFieldView(f, view) && d.fields[k] == SeenField(f, view) && f.ltype.Submessage?
    requires Holds(d.fields[k], slots[k], SeenValue(f, x, view))
    requires EncodeTagged(f, x).Some? && |EncodeTagged(f, x).value| < U32
    ensures DecodeLoop(d, DestAt(d, slots, k), EncodeTagged(f, x).value + rest) ==
              if RestorableValue(d.fields[k].ltype, SeenValue(f, x, view))
              then DecodeLoop(d, DestAt(d, slots, k + 1), rest) else None
    decreases f, 1
  {
    var value := EncodeValue(f.ltype, x).value;
    SeenValueReadsBack(f, x, view, rest);
    TagDispatch(d, DestAt(d, slots, k), k, StringWire, value + rest);
    TagThenValue(f, value, rest);
    SingleField(d, slots, k, SeenValue(f, x, view), StringWire, value + rest, rest);
    hide DecodeLoop, DecodeField, DestAt, Fits, WellFormed, HasType, EncodeValue, RestorableValue, DecodeValue,
         DefaultValue, SeenValue, IsFieldView;
  }

  lemma {:induction false} SeenItemsReadBack(d: Descriptor, slots: seq<Slot>, k: nat, f: Field, vs: seq<Value>,
                                             view: View, i: nat, rest: Bytes)
    requires WellFormed(d) && Fits(d, slots) && k < |slots| == |d.fields| && FieldOk(f) && f.ltype.Submessage?
    requires IsFieldView(f, view) && d.fields[k] == SeenField(f, view) && slots[k] == Many(SeenValues(f, vs, view))
    requires (forall j | 0 <= j < |vs| :: HasType(f.ltype, vs[j])) && i <= |vs|
    requires Counted(d.fields[k]) && |vs| <= Limit(d.fields[k])
    requires EncodeItems(f, vs[i..]).Some? && |EncodeItems(f, vs[i..]).value| < U32
    ensures DecodeLoop(d, DestItems(d, slots, k, i), EncodeItems(f, vs[i..]).value + rest) ==
              if forall j | i <= j < |vs| :: RestorableValue(d.fields[k].ltype, slots[k].values[j])
              then DecodeLoop(d, DestItems(d, slots, k, |vs|), rest) else None
    decreases f, 1, |vs| - i
  {
    hide DecodeLoop, DecodeField, DestItems, Fits, WellFormed, HasType, EncodeValue, EncodeItems, EncodeTag,
         RestorableValue, DecodeValue, DefaultValue, DecodeElements, SeenValue, SeenValues, SeenField, IsFieldView,
         FieldOk, WireFor, Default, Limit;
    if i == |vs| {
      NoItems(f, vs, rest);
    } else {
      ItemsStep(f, vs, i);
      var value, more := EncodeValue(f.ltype, vs[i]).value, EncodeItems(f, vs[i + 1..]).value;
      SeenValuesAt(f, vs, view, i);
      SubmessageOk(f);
      ItemsLength(d, slots, k, i);
      SeenItemsReadBack(d, slots, k, f, vs, view, i + 1, rest);
      SeenValueReadsBack(f, vs[i], view, more + rest);
      ElementsField(d, slots, k, i, StringWire, value + (more + rest));
      TagDispatch(d, DestItems(d, slots, k, i), k, StringWire, value + (more + rest));
      ElementNext(d, slots, k, i, StringWire, value + (more + rest), more + rest);
      ItemBytes(f, value, more, rest);
    }
  }

  lemma NoItems(f: Field, vs: seq<Value>, rest: Bytes)
    requires forall j | 0 <= j < |vs| :: HasType(f.ltype, vs[j])
    ensures EncodeItems(f, vs[|vs|..]) == Some([]) && [] + rest == rest
  {
    hide HasType;
  }

  lemma ItemsLength(d: Descriptor, slots: seq<Slot>, k: nat, i: nat)
    requires k < |slots| == |d.fields| && slots[k].Many? && i <= |slots[k].values|
    ensures |DestItems(d, slots, k, i).slots| == |d.fields|
  {
    hide Partial, SeenUpTo, FixedUpTo;
  }

  lemma SubmessageOk(f: Field)
    requires FieldOk(f) && f.ltype.Submessage?
    ensures WellFormed(f.ltype.sub) && WireFor(f.ltype) == StringWire && !Packable(f.ltype)
  {
    hide WellFormed;
  }

  lemma ItemsStep(f: Field, vs: seq<Value>, i: nat)
    requires (forall j | 0 <= j < |vs| :: HasType(f.ltype, vs[j])) && i < |vs|
    requires EncodeItems(f, vs[i..]).Some? && |EncodeItems(f, vs[i..]).value| < U32
    ensures EncodeValue(f.ltype, vs[i]).Some? && |EncodeValue(f.ltype, vs[i]).value| < U32
    ensures EncodeItems(f, vs[i + 1..]).Some? && |EncodeItems(f, vs[i + 1..]).value| < U32
    ensures EncodeItems(f, vs[i..]).value ==
              EncodeTag(f.tag, WireFor(f.ltype)) + EncodeValue(f.ltype, vs[i]).value
              + EncodeItems(f, vs[i + 1..]).value
  {
    hide EncodeTag, EncodeValue, HasType;
    assert vs[i..][0] == vs[i] && vs[i..][1..] == vs[i + 1..];
  }

  lemma {:induction false} SeenLoop(d: Descriptor, slots: seq<Slot>, view: View, k: nat)
    requires WellFormed(d) && Fits(d, slots) && IsView(d, view) && |slots| == |d.fields| && k <= |slots|
    requires EncodeFrom(d, slots, k).Some? && |EncodeFrom(d, slots, k).value| < U32
    ensures Rank(Mask(view), k) <= Rank(Mask(view), |d.fields|)
    ensures var reader, kept, j := Seen(d, view), SeenSlots(d, slots, view), Rank(Mask(view), k);
            |kept| == |reader.fields| == Rank(Mask(view), |d.fields|) &&
            DecodeLoop(reader, DestAt(reader, kept, j), EncodeFrom(d, slots, k).value) ==
              if RestorableFrom(reader, kept, j) then Some(DestAt(reader, kept, |kept|)) else None
    decreases d, 1, |slots| - k
  {
    hide DecodeLoop, EncodeSlot, DestAt, RestorableSlot, SeenSlot, SeenField;
    var reader, kept, keep := Seen(d, view), SeenSlots(d, slots, view), Mask(view);
    SeenIsWellFormed(d, view);
    SeenFits(d, slots, view);
    RankGrows(keep, k, |keep|);
    if k < |slots| {
      var f, s := d.fields[k], slots[k];
      assert SlotFits(f, s) && FieldOk(f);
      var first, rest := EncodeSlot(f, s).value, EncodeFrom(d, slots, k + 1).value;
      assert EncodeFrom(d, slots, k).value == first + rest;
      SeenLoop(d, slots, view, k + 1);
      if view.fields[k].Some? {
        KeptAt(SeenFields(d, view), keep, k, |keep|);
        KeptAt(SeenEach(d, slots, view), keep, k, |keep|);
        SeenFieldReadsBack(reader, kept, Rank(keep, k), f, s, view.fields[k].value, rest);
      } else {
        AbsentIsUnknown(d, view, k);
        DestLength(reader, kept, Rank(keep, k));
        SlotIsSkipped(reader, DestAt(reader, kept, Rank(keep, k)), f, s, rest);
      }
    } else {
      NothingLeft(reader, kept);
    }
  }

  lemma {:induction false} SeenMessageReadsBack(d: Descriptor, slots: seq<Slot>, view: View)
    requires WellFormed(d) && Fits(d, slots) && IsView(d, view) && |slots| == |d.fields|
    requires EncodeMessage(d, slots).Some? && |EncodeMessage(d, slots).value| < U32
    ensures var reader, kept := Seen(d, view), SeenSlots(d, slots, view);
            Fits(reader, kept) &&
            DecodeNoinit(reader, Default(reader), EncodeMessage(d, slots).value) ==
              if Restorable(reader, kept) then Some(kept) else None
    decreases d, 2
  {
    hide DecodeLoop, EncodeFrom, Fits, WellFormed, Default, FixedFull, AllRequiredSeen, SeenUpTo, FixedUpTo, Seen,
         SeenSlots, IsView;
    var reader, kept := Seen(d, view), SeenSlots(d, slots, view);
    SeenFits(d, slots, view);
    SeenLoop(d, slots, view, 0);
    Starts(reader, kept);
    Ends(reader, kept);
  }

  /** A message decodes, under a descriptor that lacks some of its fields, at any depth, to the same message without
      them: an older reader understands a newer writer. Only the strings it knows must leave room for their
      terminators. */
  lemma OlderReaderSkips(d: Descriptor, slots: seq<Slot>, view: View)
    requires WellFormed(d) && Fits(d, slots) && IsView(d, view) && |slots| == |d.fields|
    requires EncodeMessage(d, slots).Some? && |EncodeMessage(d, slots).value| < U32
    ensures Decode(Seen(d, view), EncodeMessage(d, slots).value) ==
              if Restorable(Seen(d, view), SeenSlots(d, slots, view)) then Some(SeenSlots(d, slots, view)) else None
  {
    SeenMessageReadsBack(d, slots, view);
  }

  // ----- required fields -----

  /** The rest of the input behind what has been read. */
  predicate IsRest(rest: Bytes, input: Bytes) {
    |rest| <= |input| && rest == input[|input| - |rest|..]
  }

  lemma RestOfRest(a: Bytes, b: Bytes, c: Bytes)
    requires IsRest(a, b) && IsRest(b, c)
    ensures IsRest(a, c)
  {
  }

  lemma {:induction false} MoreLeavesRest(input: Bytes, bitpos: nat, result: nat)
    ensures MoreVarint32(input, bitpos, result).Some? ==> IsRest(MoreVarint32(input, bitpos, result).value.1, input)
    decreases |input|
  {
    hide Shifted, Or;
    if input != [] {
      var added := Or(result, Shifted(input[0] % 128, bitpos) % U32);
      MoreLeavesRest(input[1..], (bitpos + 7) % 256, result);
      MoreLeavesRest(input[1..], (bitpos + 7) % 256, added);
    }
  }

  lemma Varint32LeavesRest(input: Bytes)
    ensures DecodeVarint32(input).Some? ==> IsRest(DecodeVarint32(input).value.1, input)
  {
    hide MoreVarint32;
    if input != [] {
      MoreLeavesRest(input[1..], 7, input[0] % 128);
    }
  }

  lemma {:induction false} VarintLeavesRest(input: Bytes, left: nat, weight: nat, modulus: nat, result: nat)
    requires modulus > 0
    ensures var r := GetVarintFrom(input, left, weight, modulus, result); r.Some? ==> IsRest(r.value.1, input)
    decreases left
  {
    hide Low, Times;
    if left > 0 && input != [] {
      var r := result + Low(Times(input[0] % 128, weight), modulus);
      VarintLeavesRest(input[1..], left - 1, 128 * weight, modulus, r);
    }
  }

  lemma {:induction false} SkipVarintLeavesRest(input: Bytes)
    ensures SkipVarint(input).Some? ==> IsRest(SkipVarint(input).value, input)
  {
    if input != [] {
      SkipVarintLeavesRest(input[1..]);
    }
  }

  lemma DelimitedLeavesRest(input: Bytes)
    ensures GetDelimited(input).Some? ==> IsRest(GetDelimited(input).value.1, input)
  {
    hide DecodeVarint32;
    Varint32LeavesRest(input);
  }

  lemma SkipLeavesRest(w: WireType, input: Bytes)
    ensures SkipField(w, input).Some? ==> IsRest(SkipField(w, input).value, input)
  {
    hide GetDelimited, SkipVarint;
    SkipVarintLeavesRest(input);
    DelimitedLeavesRest(input);
  }

  lemma ScalarLeavesRest(l: LType, input: Bytes)
    requires Packable(l)
    ensures DecodeScalar(l, input).Some? ==> IsRest(DecodeScalar(l, input).value.1, input)
  {
    hide DecodeVarint32, GetVarintFrom, SignedLow, UnZigZag, DecodeFixed32, DecodeFixed64;
    Varint32LeavesRest(input);
    VarintLeavesRest(input, 10, 1, U64, 0);
  }

  lemma ValueLeavesRest(l: LType, prior: Value, input: Bytes)
    ensures DecodeValue(l, prior, input).Some? ==> IsRest(DecodeValue(l, prior, input).value.1, input)
  {
    hide DecodeNoinit, GetDelimited, DecodeScalar, CString, IsRest, Default;
    DelimitedLeavesRest(input);
    if Packable(l) {
      ScalarLeavesRest(l, input);
    }
  }

  lemma ElementsLeaveRest(f: Field, items: seq<Value>, w: WireType, input: Bytes)
    requires f.htype.Repeated? || f.htype.FixedCount?
    ensures DecodeElements(f, items, w, input).Some? ==> IsRest(DecodeElements(f, items, w, input).value.1, input)
  {
    hide DecodeValue, GetDelimited, DecodePacked, IsRest, DefaultValue;
    DelimitedLeavesRest(input);
    ValueLeavesRest(f.ltype, DefaultValue(f), input);
  }

  lemma FieldLeavesRest(d: Descriptor, dest: Dest, k: nat, w: WireType, input: Bytes)
    requires k < |d.fields| && |dest.slots| == |d.fields|
    ensures DecodeField(d, dest, k, w, input).Some? ==> IsRest(DecodeField(d, dest, k, w, input).value.1, input)
  {
    hide DecodeValue, DecodeElements, IsRest, FixedFull, ClearGroup, RequiredBefore;
    var f := d.fields[k];
    if f.htype.Repeated? || f.htype.FixedCount? {
      forall items: seq<Value>
        ensures DecodeElements(f, items, w, input).Some? ==> IsRest(DecodeElements(f, items, w, input).value.1, input)
      {
        ElementsLeaveRest(f, items, w, input);
      }
    } else {
      ValueLeavesRest(f.ltype, Prior(f, dest.slots[k]), input);
    }
  }

  /** The fields whose tags the loop meets. */
  ghost function Met(d: Descriptor, dest: Dest, input: Bytes): set<nat>
    requires |dest.slots| == |d.fields|
    decreases |input|
  {
    if input == [] || !DecodeTag(input).Tag? then {}
    else
      var t := DecodeTag(input);
      var k := Find(d, t.number, 0);
      if k.None? then
        var skipped := SkipField(t.wire, t.rest);
        if skipped.None? then {} else Met(d, dest, skipped.value)
      else
        var r := DecodeField(d, dest, k.value, t.wire, t.rest);
        {k.value} + if r.None? then {} else Met(d, r.value.0, r.value.1)
  }

  /** Somewhere in the bytes the tag can be read. */
  ghost predicate Occurs(tag: nat, input: Bytes) {
    exists p :: 0 <= p < |input| && DecodeTag(input[p..]).Tag? && DecodeTag(input[p..]).number == tag
  }

  lemma OccursInRest(tag: nat, rest: Bytes, input: Bytes)
    requires Occurs(tag, rest) && IsRest(rest, input)
    ensures Occurs(tag, input)
  {
    hide DecodeTag;
    var p :| 0 <= p < |rest| && DecodeTag(rest[p..]).Tag? && DecodeTag(rest[p..]).number == tag;
    var q := |input| - |rest| + p;
    assert input[q..] == rest[p..];
  }

  lemma {:induction false} MetOccurs(d: Descriptor, dest: Dest, input: Bytes, k: nat)
    requires |dest.slots| == |d.fields| && k in Met(d, dest, input)
    ensures k < |d.fields| && Occurs(d.fields[k].tag, input)
    decreases |input|
  {
    hide DecodeTag, DecodeField, Find, SkipField, Occurs, IsRest;
    var t := DecodeTag(input);
    var found := Find(d, t.number, 0);
    TagLeavesRest(input);
    if found.None? {
      var rest := SkipField(t.wire, t.rest).value;
      SkipLeavesRest(t.wire, t.rest);
      RestOfRest(rest, t.rest, input);
      MetOccurs(d, dest, rest, k);
      OccursInRest(d.fields[k].tag, rest, input);
    } else if k == found.value {
      FirstOccurs(input);
    } else {
      var r := DecodeField(d, dest, found.value, t.wire, t.rest).value;
      FieldLeavesRest(d, dest, found.value, t.wire, t.rest);
      RestOfRest(r.1, t.rest, input);
      MetOccurs(d, r.0, r.1, k);
      OccursInRest(d.fields[k].tag, r.1, input);
    }
  }

  lemma TagLeavesRest(input: Bytes)
    ensures DecodeTag(input).Tag? ==> IsRest(DecodeTag(input).rest, input)
  {
    hide DecodeVarint32;
    Varint32LeavesRest(input);
  }

  lemma FirstOccurs(input: Bytes)
    requires input != [] && DecodeTag(input).Tag?
    ensures Occurs(DecodeTag(input).number, input)
  {
    hide DecodeTag;
    assert input[0..] == input;
  }

  /** Field k is one of the first 64 required fields, which are the ones the decoder keeps a bit for. */
  ghost predicate Tracked(d: Descriptor, k: nat) {
    k < |d.fields| && d.fields[k].htype.Required? && |RequiredAmong(d, k)| < 64
  }

  /** The required ones of the first k fields. */
  ghost function RequiredAmong(d: Descriptor, k: nat): set<nat>
    requires k <= |d.fields|
  {
    set j: nat | j < k && d.fields[j].htype.Required?
  }

  lemma {:induction false} RequiredAreCounted(d: Descriptor, k: nat)
    requires k <= |d.fields|
    ensures RequiredBefore(d, k) == |RequiredAmong(d, k)|
  {
    if k > 0 {
      var before, now := RequiredAmong(d, k - 1), RequiredAmong(d, k);
      RequiredAreCounted(d, k - 1);
      assert now == if d.fields[k - 1].htype.Required? then before + {k - 1} else before;
    }
  }

  lemma {:induction false} RequiredNumbersDiffer(d: Descriptor, i: nat, j: nat)
    requires i < j <= |d.fields| && d.fields[i].htype.Required?
    ensures RequiredBefore(d, i) < RequiredBefore(d, j)
    decreases j
  {
    if i < j - 1 {
      RequiredNumbersDiffer(d, i, j - 1);
    }
  }

  /** Which required field has number i. */
  function NumberedField(d: Descriptor, i: nat, n: nat): (k: nat)
    requires n <= |d.fields| && i < RequiredBefore(d, n)
    ensures k < n && d.fields[k].htype.Required? && RequiredBefore(d, k) == i
  {
    if i < RequiredBefore(d, n - 1) then NumberedField(d, i, n - 1) else n - 1
  }

  /** The bits that are set are those of the tracked fields the loop has met. */
  lemma {:induction false} SeenIsMet(d: Descriptor, dest: Dest, input: Bytes, k: nat)
    requires |dest.slots| == |d.fields| && Tracked(d, k) && DecodeLoop(d, dest, input).Some?
    ensures RequiredBefore(d, k) in DecodeLoop(d, dest, input).value.seen <==>
              RequiredBefore(d, k) in dest.seen || k in Met(d, dest, input)
    decreases |input|
  {
    hide DecodeTag, DecodeField, Find, SkipField, Tracked, RequiredBefore;
    if input != [] && DecodeTag(input).Tag? {
      var t := DecodeTag(input);
      var found := Find(d, t.number, 0);
      if found.None? {
        SeenIsMet(d, dest, SkipField(t.wire, t.rest).value, k);
      } else {
        var r := DecodeField(d, dest, found.value, t.wire, t.rest).value;
        FieldIsSeen(d, dest, found.value, t.wire, t.rest, k);
        SeenIsMet(d, r.0, r.1, k);
      }
    }
  }

  lemma FieldIsSeen(d: Descriptor, dest: Dest, found: nat, w: WireType, input: Bytes, k: nat)
    requires |dest.slots| == |d.fields| && Tracked(d, k) && found < |d.fields|
    requires DecodeField(d, dest, found, w, input).Some?
    ensures RequiredBefore(d, k) in DecodeField(d, dest, found, w, input).value.0.seen <==>
              RequiredBefore(d, k) in dest.seen || found == k
  {
    hide RequiredBefore, DecodeValue, DecodeElements, FixedFull, ClearGroup;
    RequiredAreCounted(d, k);
    if d.fields[found].htype.Required? {
      if found < k {
        RequiredNumbersDiffer(d, found, k);
      } else if k < found {
        RequiredNumbersDiffer(d, k, found);
      }
    }
  }

  /** The bytes are accepted exactly when the loop gets through them, the last uncounted array is complete, and the tag
      of each of the first 64 required fields has been met. */
  lemma AcceptedExactlyWhen(d: Descriptor, input: Bytes)
    ensures var dest := Dest(Default(d), {}, None);
            Decode(d, input).Some? <==>
              && DecodeLoop(d, dest, input).Some? && FixedFull(d, DecodeLoop(d, dest, input).value)
              && forall k: nat | Tracked(d, k) :: k in Met(d, dest, input)
  {
    hide DecodeLoop, Met, Default, FixedFull, RequiredBefore, RequiredAmong;
    var dest := Dest(Default(d), {}, None);
    var r := DecodeLoop(d, dest, input);
    if r.Some? {
      forall k: nat | Tracked(d, k)
        ensures RequiredBefore(d, k) in r.value.seen <==> k in Met(d, dest, input)
      {
        SeenIsMet(d, dest, input, k);
      }
      AllSeenWhen(d, r.value.seen);
    }
  }

  lemma AllSeenWhen(d: Descriptor, seen: set<nat>)
    ensures AllRequiredSeen(d, seen) <==> forall k: nat | Tracked(d, k) :: RequiredBefore(d, k) in seen
  {
    hide RequiredBefore;
    if AllRequiredSeen(d, seen) {
      forall k: nat | Tracked(d, k)
        ensures RequiredBefore(d, k) in seen
      {
        RequiredAreCounted(d, k);
        RequiredNumbersDiffer(d, k, |d.fields|);
      }
    }
    if forall k: nat | Tracked(d, k) :: RequiredBefore(d, k) in seen {
      forall i: nat | i < RequiredBefore(d, |d.fields|) && i < MAX_REQUIRED_FIELDS
        ensures i in seen
      {
        var k := NumberedField(d, i, |d.fields|);
        RequiredAreCounted(d, k);
        assert Tracked(d, k);
      }
    }
  }

  /** A message in whose bytes the tag of a required field is nowhere to be read is rejected. */
  lemma RequiredMustOccur(d: Descriptor, input: Bytes, k: nat)
    requires Tracked(d, k) && !Occurs(d.fields[k].tag, input)
    ensures Decode(d, input) == None
  {
    hide DecodeLoop, Met, Default, FixedFull, AllRequiredSeen, Tracked, Occurs;
    var dest := Dest(Default(d), {}, None);
    AcceptedExactlyWhen(d, input);
    if k in Met(d, dest, input) {
      MetOccurs(d, dest, input, k);
    }
  }
}
