/** The nanopb decoder (pb_decode.c) as functions of the bytes left in the stream. */
module PbDecode {
  import opened Wrappers
  import opened Coding
  import opened PbWire
  import opened PbMessages
  import opened PbEncode

  const MAX_REQUIRED_FIELDS: nat := 64

  function Zeros(n: nat): (r: Bytes)
    ensures |r| == n
  {
    seq(n, _ => 0)
  }

  /** A char array as a C string. */
  function CString(b: Bytes): (r: Bytes)
    ensures 0 !in r && |r| <= |b|
  {
    if b == [] || b[0] == 0 then [] else [b[0]] + CString(b[1..])
  }

  lemma {:induction false} CStringWhole(b: Bytes)
    requires 0 !in b
    ensures CString(b) == b
  {
    if b != [] {
      assert b[0] in b;
      CStringWhole(b[1..]);
    }
  }

  /** A length, and that many bytes: pb_make_string_substream, and the reads of strings and bytes. */
  function GetDelimited(input: Bytes): (r: Option<(Bytes, Bytes)>)
    ensures r.Some? ==> |r.value.0| + |r.value.1| < |input|
  {
    var n := DecodeVarint32(input);
    if n.None? || |n.value.1| < n.value.0 then None
    else Some((n.value.1[..n.value.0], n.value.1[n.value.0..]))
  }

  /** pb_skip_varint. */
  function SkipVarint(input: Bytes): (r: Option<Bytes>)
    ensures r.Some? ==> |r.value| < |input|
  {
    if input == [] then None else if input[0] >= 128 then SkipVarint(input[1..]) else Some(input[1..])
  }

  /** pb_skip_field. */
  function SkipField(w: WireType, input: Bytes): (r: Option<Bytes>)
    ensures r.Some? ==> |r.value| <= |input|
  {
    match w
    case VarintWire => SkipVarint(input)
    case Bits64 => if |input| < 8 then None else Some(input[8..])
    case Bits32 => if |input| < 4 then None else Some(input[4..])
    case StringWire => var r := GetDelimited(input); if r.None? then None else Some(r.value.1)
    case BadWire(_) => None
  }

  // ----- scalars -----

  function DecodeScalar(l: LType, input: Bytes): (r: Option<(Value, Bytes)>)
    requires Packable(l)
    ensures r.Some? ==> |r.value.1| < |input|
  {
    match l
    case Bool =>
      var v := DecodeVarint32(input);
      if v.None? then None else Some((Num(if v.value.0 != 0 then 1 else 0), v.value.1))
    case VarInt(bits) =>
      var v := GetVarint64(input);
      if v.None? || !WidthOk(bits) then None
      else
        var svalue := SignedLow(v.value.0, if bits == 64 then 64 else 32);
        if SignedLow(svalue, bits) != svalue then None else Some((Num(svalue), v.value.1))
    case UVarInt(bits) =>
      var v := GetVarint64(input);
      if v.None? || !WidthOk(bits) || v.value.0 >= WidthRange(bits) then None else Some((Num(v.value.0), v.value.1))
    case SVarInt(bits) =>
      var v := GetVarint64(input);
      if v.None? || !WidthOk(bits) then None
      else
        var value := UnZigZag(v.value.0);
        if SignedLow(value, bits) != value then None else Some((Num(value), v.value.1))
    case Fixed32 => if |input| < 4 then None else Some((Num(DecodeFixed32(input)), input[4..]))
    case Fixed64 => if |input| < 8 then None else Some((Num(DecodeFixed64(input)), input[8..]))
  }

  // ----- messages -----

  /** The struct being filled, which required fields have been seen, and which uncounted array was met last. */
  datatype Dest = Dest(slots: seq<Slot>, seen: set<nat>, fixed: Option<nat>)

  function RequiredBefore(d: Descriptor, k: nat): nat
    requires k <= |d.fields|
  {
    if k == 0 then 0 else RequiredBefore(d, k - 1) + if d.fields[k - 1].htype.Required? then 1 else 0
  }

  function Find(d: Descriptor, tag: nat, k: nat): (r: Option<nat>)
    requires k <= |d.fields|
    ensures r.Some? ==> k <= r.value < |d.fields| && d.fields[r.value].tag == tag
    decreases |d.fields| - k
  {
    if k == |d.fields| then None else if d.fields[k].tag == tag then Some(k) else Find(d, tag, k + 1)
  }

  /** The members of a oneof share their storage. */
  function ClearGroup(d: Descriptor, slots: seq<Slot>, f: Field): (r: seq<Slot>)
    requires |slots| == |d.fields|
    ensures |r| == |slots|
  {
    seq(|slots|, k requires 0 <= k < |slots| => if SameGroup(d.fields[k], f) then Maybe(None) else slots[k])
  }

  /** The loop over a packed array; the elements, and whether the substream was used up without an error. */
  function DecodePacked(l: LType, items: seq<Value>, input: Bytes, limit: nat): Option<seq<Value>>
    requires Packable(l)
    decreases |input|
  {
    if input == [] then Some(items)
    else if |items| >= limit then None
    else
      var v := DecodeScalar(l, input);
      if v.None? then None else DecodePacked(l, items + [v.value.0], v.value.1, limit)
  }

  /** One value; `prior` is what the struct holds, into which a submessage is merged. */
  function DecodeValue(l: LType, prior: Value, input: Bytes): (r: Option<(Value, Bytes)>)
    ensures r.Some? ==> |r.value.1| < |input|
    decreases l
  {
    match l
    case BytesOf(max) =>
      var b := GetDelimited(input);
      if b.None? || |b.value.0| > max then None else Some((Blob(b.value.0), b.value.1))
    case StringOf(size) =>
      var b := GetDelimited(input);
      if b.None? || |b.value.0| + 1 > size then None else Some((Blob(CString(b.value.0)), b.value.1))
    case FixedBytes(size) =>
      var b := GetDelimited(input);
      if b.None? then None
      else if b.value.0 == [] then Some((Blob(Zeros(size)), b.value.1))
      else if |b.value.0| != size then None
      else Some((Blob(b.value.0), b.value.1))
    case Submessage(sub) =>
      var b := GetDelimited(input);
      if b.None? then None
      else
        var slots := DecodeNoinit(sub,
                                  if prior.Message? && |prior.slots| == |sub.fields| then prior.slots else Default(sub),
                                  b.value.0);
        if slots.None? then None else Some((Message(slots.value), b.value.1))
    case _ => DecodeScalar(l, input)
  }

  /** What the storage of a singular field holds before it is decoded. */
  function Prior(f: Field, s: Slot): Value {
    match s
    case One(v) => v
    case Maybe(o) => if o.Some? then o.value else DefaultValue(f)
    case Many(_) => DefaultValue(f)
  }

  /** decode_static_field for field k, after the bookkeeping of pb_decode_noinit. */
  function DecodeField(d: Descriptor, dest: Dest, k: nat, w: WireType, input: Bytes): (r: Option<(Dest, Bytes)>)
    requires k < |d.fields| && |dest.slots| == |d.fields|
    ensures r.Some? ==> |r.value.1| <= |input| && |r.value.0.slots| == |d.fields|
    decreases d, |input|, 0
  {
    var f := d.fields[k];
    if f.htype.Repeated? || f.htype.FixedCount? then
      if f.htype.FixedCount? && dest.fixed.Some? && dest.fixed.value != k && !FixedFull(d, dest) then None
      else
        var restart := f.htype.FixedCount? && dest.fixed != Some(k);
        var items := if restart || !dest.slots[k].Many? then [] else dest.slots[k].values;
        var fixed := if f.htype.FixedCount? then Some(k) else dest.fixed;
        var more := DecodeElements(f, items, w, input);
        if more.None? then None
        else Some((Dest(dest.slots[k := Many(more.value.0)], dest.seen, fixed), more.value.1))
    else
      var seen := if f.htype.Required? && RequiredBefore(d, k) < MAX_REQUIRED_FIELDS
                  then dest.seen + {RequiredBefore(d, k)} else dest.seen;
      var prior := Prior(f, dest.slots[k]);
      var v := DecodeValue(f.ltype, prior, input);
      if v.None? then None
      else
        var slots := if f.htype.Oneof? then ClearGroup(d, dest.slots, f) else dest.slots;
        var slot := if f.htype.Required? || f.htype.Implicit? then One(v.value.0) else Maybe(Some(v.value.0));
        Some((Dest(slots[k := slot], seen, dest.fixed), v.value.1))
  }

  /** The elements that one tag of a repeated field brings: a whole packed array, or one. */
  function DecodeElements(f: Field, items: seq<Value>, w: WireType, input: Bytes): (r: Option<(seq<Value>, Bytes)>)
    requires f.htype.Repeated? || f.htype.FixedCount?
    ensures r.Some? ==> |r.value.1| <= |input|
    decreases f
  {
    var limit := if f.htype.Repeated? then f.htype.max else f.htype.count;
    if w.StringWire? && Packable(f.ltype) then
      var b := GetDelimited(input);
      if b.None? then None
      else
        var more := DecodePacked(f.ltype, items, b.value.0, limit);
        if more.None? then None else Some((more.value, b.value.1))
    else if |items| >= limit then None
    else
      var v := DecodeValue(f.ltype, DefaultValue(f), input);
      if v.None? then None else Some((items + [v.value.0], v.value.1))
  }

  /** The uncounted array met last has all its elements. */
  predicate FixedFull(d: Descriptor, dest: Dest) {
    dest.fixed.Some? && dest.fixed.value < |d.fields| && dest.fixed.value < |dest.slots| ==>
      var f, s := d.fields[dest.fixed.value], dest.slots[dest.fixed.value];
      f.htype.FixedCount? && s.Many? ==> |s.values| == f.htype.count
  }

  /** The loop of pb_decode_noinit. A tag of zero ends the message early; unknown fields are skipped. */
  function DecodeLoop(d: Descriptor, dest: Dest, input: Bytes): (r: Option<Dest>)
    requires |dest.slots| == |d.fields|
    ensures r.Some? ==> |r.value.slots| == |d.fields|
    decreases d, |input|, 1
  {
    if input == [] then Some(dest)
    else
      match DecodeTag(input)
      case BadTag => None
      case EndOfMessage(_) => Some(dest)
      case Tag(number, wire, rest) =>
        var k := Find(d, number, 0);
        if k.None? then
          var skipped := SkipField(wire, rest);
          if skipped.None? then None else DecodeLoop(d, dest, skipped.value)
        else
          var r := DecodeField(d, dest, k.value, wire, rest);
          if r.None? then None else DecodeLoop(d, r.value.0, r.value.1)
  }

  predicate AllRequiredSeen(d: Descriptor, seen: set<nat>) {
    forall i | 0 <= i < RequiredBefore(d, |d.fields|) && i < MAX_REQUIRED_FIELDS :: i in seen
  }

  function DecodeNoinit(d: Descriptor, slots: seq<Slot>, input: Bytes): (r: Option<seq<Slot>>)
    requires |slots| == |d.fields|
    ensures r.Some? ==> |r.value| == |d.fields|
    decreases d, |input|, 2
  {
    var dest := DecodeLoop(d, Dest(slots, {}, None), input);
    if dest.None? || !FixedFull(d, dest.value) || !AllRequiredSeen(d, dest.value.seen) then None
    else Some(dest.value.slots)
  }

  /** pb_decode. */
  function Decode(d: Descriptor, input: Bytes): Option<seq<Slot>> {
    DecodeNoinit(d, Default(d), input)
  }
}
