/** The nanopb encoder (pb_encode.c). EncodeMessage is what the encoder stands for: the bytes of a message, or none when
    a value does not fit its field. The methods work on streams, sizing each submessage and packed array before writing
    it, and are proved to count and to write exactly those bytes. */
module PbEncode {
  import opened Wrappers
  import opened Coding
  import opened PbWire
  import opened PbMessages

  predicate Packable(l: LType) {
    l.Bool? || l.VarInt? || l.UVarInt? || l.SVarInt? || l.Fixed32? || l.Fixed64?
  }

  function WireFor(l: LType): (w: WireType)
    ensures !w.BadWire?
  {
    match l
    case Bool => VarintWire
    case VarInt(_) => VarintWire
    case UVarInt(_) => VarintWire
    case SVarInt(_) => VarintWire
    case Fixed32 => Bits32
    case Fixed64 => Bits64
    case _ => StringWire
  }

  function LengthAnd(b: Bytes): Bytes {
    Varint(|b|) + b
  }

  // ----- the bytes of a message -----

  /** A packable value. */
  function EncodeScalar(l: LType, v: Value): (r: Bytes)
    requires Packable(l) && HasType(l, v)
  {
    match l
    case VarInt(_) => Varint(v.n % U64)
    case SVarInt(_) => Varint(ZigZag(v.n))
    case Fixed32 => EncodeFixed32(v.n)
    case Fixed64 => EncodeFixed64(v.n)
    case _ => Varint(v.n)
  }

  /** The value after its tag. */
  ghost function EncodeValue(l: LType, v: Value): Option<Bytes>
    requires HasType(l, v)
    decreases l
  {
    match l
    case BytesOf(max) => if |v.b| > max then None else Some(LengthAnd(v.b))
    case StringOf(_) => Some(LengthAnd(v.b))
    case FixedBytes(_) => Some(LengthAnd(v.b))
    case Submessage(sub) =>
      var inner := EncodeFrom(sub, v.slots, 0);
      if inner.None? then None else Some(LengthAnd(inner.value))
    case _ => Some(EncodeScalar(l, v))
  }

  ghost function EncodePacked(l: LType, vs: seq<Value>): Bytes
    requires Packable(l) && forall i | 0 <= i < |vs| :: HasType(l, vs[i])
  {
    if vs == [] then [] else EncodeScalar(l, vs[0]) + EncodePacked(l, vs[1..])
  }

  ghost function EncodeTagged(f: Field, v: Value): Option<Bytes>
    requires HasType(f.ltype, v)
    decreases f, 0
  {
    var value := EncodeValue(f.ltype, v);
    if value.None? then None else Some(EncodeTag(f.tag, WireFor(f.ltype)) + value.value)
  }

  /** Each value with a tag of its own. */
  ghost function EncodeItems(f: Field, vs: seq<Value>): Option<Bytes>
    requires forall i | 0 <= i < |vs| :: HasType(f.ltype, vs[i])
    decreases f, 1, |vs|
  {
    if vs == [] then Some([])
    else
      var first, rest := EncodeTagged(f, vs[0]), EncodeItems(f, vs[1..]);
      if first.None? || rest.None? then None else Some(first.value + rest.value)
  }

  ghost function EncodeArray(f: Field, vs: seq<Value>, limit: nat): Option<Bytes>
    requires forall i | 0 <= i < |vs| :: HasType(f.ltype, vs[i])
    decreases f, 2
  {
    if vs == [] then Some([])
    else if |vs| > limit then None
    else if Packable(f.ltype) then
      Some(EncodeTag(f.tag, StringWire) + LengthAnd(EncodePacked(f.ltype, vs)))
    else EncodeItems(f, vs)
  }

  ghost function EncodeSlot(f: Field, s: Slot): Option<Bytes>
    requires SlotFits(f, s)
    decreases f, 3
  {
    match f.htype
    case Required => EncodeTagged(f, s.value)
    case Implicit => if IsZeroValue(f.ltype, s.value) then Some([]) else EncodeTagged(f, s.value)
    case Optional => if s.option.None? then Some([]) else EncodeTagged(f, s.option.value)
    case Oneof(_) => if s.option.None? then Some([]) else EncodeTagged(f, s.option.value)
    case Repeated(max) => EncodeArray(f, s.values, max)
    case FixedCount(n) => EncodeArray(f, s.values, n)
  }

  /** The fields from number k on. */
  ghost function EncodeFrom(d: Descriptor, slots: seq<Slot>, k: nat): Option<Bytes>
    requires Fits(d, slots) && k <= |slots|
    decreases d, |slots| - k
  {
    if k == |slots| then Some([])
    else
      var first, rest := EncodeSlot(d.fields[k], slots[k]), EncodeFrom(d, slots, k + 1);
      if first.None? || rest.None? then None else Some(first.value + rest.value)
  }

  ghost function EncodeMessage(d: Descriptor, slots: seq<Slot>): Option<Bytes>
    requires Fits(d, slots)
  {
    EncodeFrom(d, slots, 0)
  }

  // ----- what takes no bytes -----

  lemma TaggedNotEmpty(f: Field, v: Value)
    requires HasType(f.ltype, v) && EncodeTagged(f, v).Some?
    ensures EncodeTagged(f, v).value != []
  {
    hide EncodeValue, HasType;
  }

  /** Exactly these leave a field out: no value, no elements, or, where the field has no has_ flag, a zero or empty
      value. */
  lemma LeftOutExactlyWhen(f: Field, s: Slot)
    requires SlotFits(f, s) && EncodeSlot(f, s).Some? && !f.ltype.Submessage?
    ensures EncodeSlot(f, s).value == [] <==>
              match f.htype
              case Required => false
              case Implicit => s == One(Num(0)) || s == One(Blob([]))
              case Optional => s == Maybe(None)
              case Oneof(_) => s == Maybe(None)
              case Repeated(_) => s == Many([])
              case FixedCount(_) => s == Many([])
  {
    hide EncodeTagged, EncodeItems, EncodePacked, LengthAnd;
    if s.One? {
      if f.ltype.StringOf? {
        FirstIsNotZero(s.value.b);
      }
      if EncodeTagged(f, s.value).Some? {
        TaggedNotEmpty(f, s.value);
      }
    } else if s.Maybe? && s.option.Some? {
      TaggedNotEmpty(f, s.option.value);
    } else if s.Many? && s.values != [] && !Packable(f.ltype) {
      ItemsNotEmpty(f, s.values);
    }
  }

  lemma ItemsNotEmpty(f: Field, vs: seq<Value>)
    requires (forall i | 0 <= i < |vs| :: HasType(f.ltype, vs[i])) && vs != [] && EncodeItems(f, vs).Some?
    ensures EncodeItems(f, vs).value != []
  {
    hide EncodeTagged, HasType;
    TaggedNotEmpty(f, vs[0]);
  }

  /** No required fields and no uncounted arrays, as in proto3, at any depth below fields without a has_ flag. */
  ghost predicate NothingForced(d: Descriptor)
    decreases d
  {
    forall k | 0 <= k < |d.fields| ::
      && !d.fields[k].htype.Required? && !d.fields[k].htype.FixedCount?
      && (d.fields[k].htype.Implicit? && d.fields[k].ltype.Submessage? ==> NothingForced(d.fields[k].ltype.sub))
  }

  /** A message at its defaults takes no bytes at all. */
  lemma {:induction false} DefaultsTakeNoBytes(d: Descriptor)
    requires WellFormed(d) && NothingForced(d)
    ensures Fits(d, Default(d)) && EncodeMessage(d, Default(d)) == Some([])
    ensures IsZeroValue(Submessage(d), Message(Default(d)))
    decreases d
  {
    var slots := Default(d);
    forall k | 0 <= k < |d.fields|
      ensures SlotFits(d.fields[k], slots[k]) && EncodeSlot(d.fields[k], slots[k]) == Some([])
      ensures IsZeroSlot(d.fields[k], slots[k])
    {
      var f := d.fields[k];
      assert FieldOk(f) && slots[k] == DefaultSlot(f);
      if f.htype.Implicit? && f.ltype.Submessage? {
        DefaultsTakeNoBytes(f.ltype.sub);
      }
      DefaultTakesNoBytes(f);
    }
    assert Fits(d, slots);
    NoBytesFrom(d, slots, 0);
  }

  lemma DefaultTakesNoBytes(f: Field)
    requires FieldOk(f) && !f.htype.Required? && !f.htype.FixedCount?
    requires f.htype.Implicit? && f.ltype.Submessage? ==>
               Fits(f.ltype.sub, Default(f.ltype.sub)) && IsZeroValue(f.ltype, Message(Default(f.ltype.sub)))
    ensures SlotFits(f, DefaultSlot(f)) && EncodeSlot(f, DefaultSlot(f)) == Some([])
    ensures IsZeroSlot(f, DefaultSlot(f))
  {
    hide Default, Fits;
    if f.htype.Implicit? {
      assert HasType(f.ltype, DefaultValue(f));
    }
  }

  lemma {:induction false} NoBytesFrom(d: Descriptor, slots: seq<Slot>, k: nat)
    requires Fits(d, slots) && k <= |slots|
    requires forall j | k <= j < |slots| :: EncodeSlot(d.fields[j], slots[j]) == Some([])
    ensures EncodeFrom(d, slots, k) == Some([])
    decreases |slots| - k
  {
    hide EncodeSlot;
    if k < |slots| {
      NoBytesFrom(d, slots, k + 1);
      var none: Bytes := [];
      assert none + none == none;
    }
  }

  // ----- streams -----

  datatype Status = Done | StreamFull | TooLong | SizeChanged

  /** Whether a stream that has taken `written` bytes can take these as well. */
  ghost predicate Room(enc: Option<Bytes>, sizing: bool, written: nat, maxSize: nat) {
    enc.Some? && (sizing || enc.value == [] || written + |enc.value| <= maxSize)
  }

  lemma OneByte(v: nat)
    requires v < 128
    ensures Varint(v) == [v]
  {
  }

  /** The bytes of a number with the mark taken off the last one. */
  function Ended(buffer: Bytes): Bytes
    requires buffer != []
  {
    buffer[..|buffer| - 1] + [buffer[|buffer| - 1] % 128]
  }

  lemma NextByte(buffer: Bytes, v: nat, whole: Bytes)
    requires v > 0 && buffer + Varint(v) == whole
    ensures var more := buffer + [128 + v % 128];
            if v < 128 then Ended(more) == whole else more + Varint(v / 128) == whole
  {
    var b: byte := 128 + v % 128;
    assert (buffer + [b])[..|buffer|] == buffer && (buffer + [b])[|buffer|] == b;
    if v >= 128 {
      assert Varint(v) == [b] + Varint(v / 128);
      assert buffer + ([b] + Varint(v / 128)) == buffer + [b] + Varint(v / 128);
    }
  }

  /** pb_ostream_t over a buffer, or the sizing stream that only counts. */
  class OStream {
    const sizing: bool
    const maxSize: nat
    var bytesWritten: nat
    var data: Bytes

    constructor (sizing: bool, maxSize: nat)
      ensures this.sizing == sizing && this.maxSize == maxSize && bytesWritten == 0 && data == []
    {
      this.sizing, this.maxSize, bytesWritten, data := sizing, maxSize, 0, [];
    }

    /** pb_write. */
    method Write(b: Bytes) returns (st: Status)
      modifies this
      ensures st.Done? <==> Room(Some(b), sizing, old(bytesWritten), maxSize)
      ensures !st.SizeChanged?
      ensures st.Done? ==> bytesWritten == old(bytesWritten) + |b| && (!sizing ==> data == old(data) + b)
    {
      if |b| > 0 && !sizing {
        if bytesWritten + |b| > maxSize {
          return StreamFull;
        }
        data := data + b;
      }
      assert |b| == 0 ==> data + b == data;
      bytesWritten := bytesWritten + |b|;
      st := Done;
    }

    /** pb_write of the given number of bytes to a sizing stream. */
    method Count(size: nat)
      requires sizing
      modifies this
      ensures bytesWritten == old(bytesWritten) + size
    {
      bytesWritten := bytesWritten + size;
    }

    /** pb_encode_varint: the bytes are collected in a small buffer first. */
    method WriteVarint(value: nat) returns (st: Status)
      modifies this
      ensures st.Done? <==> Room(Some(Varint(value)), sizing, old(bytesWritten), maxSize)
      ensures !st.SizeChanged?
      ensures st.Done? ==>
                bytesWritten == old(bytesWritten) + |Varint(value)| && (!sizing ==> data == old(data) + Varint(value))
    {
      hide Varint, Room;
      var v := value;
      if v <= 0x7F {
        OneByte(v);
        st := Write([v]);
        return;
      }
      var buffer: Bytes := [];
      assert [] + Varint(v) == Varint(value);
      while v != 0
        invariant unchanged(this)
        invariant v == 0 ==> |buffer| > 0 && Ended(buffer) == Varint(value)
        invariant v > 0 ==> buffer + Varint(v) == Varint(value)
        decreases v
      {
        NextByte(buffer, v, Varint(value));
        buffer := buffer + [128 + v % 128];
        v := v / 128;
      }
      buffer := Ended(buffer);
      st := Write(buffer);
    }
  }

  // ----- values -----

  /** pb_enc_bool, pb_enc_varint, pb_enc_uvarint, pb_enc_svarint, pb_enc_fixed32, pb_enc_fixed64. */
  method WriteScalar(s: OStream, l: LType, v: Value) returns (st: Status)
    requires Packable(l) && HasType(l, v)
    modifies s
    ensures st.Done? <==> Room(Some(EncodeScalar(l, v)), s.sizing, old(s.bytesWritten), s.maxSize)
    ensures !st.SizeChanged?
    ensures st.Done? ==> s.bytesWritten == old(s.bytesWritten) + |EncodeScalar(l, v)|
    ensures st.Done? && !s.sizing ==> s.data == old(s.data) + EncodeScalar(l, v)
  {
    if l.VarInt? {
      st := s.WriteVarint(v.n % U64);
    } else if l.SVarInt? {
      var zigzagged := if v.n < 0 then U64 - 1 - 2 * v.n % U64 else 2 * v.n % U64;
      st := s.WriteVarint(zigzagged);
    } else if l.Fixed32? {
      st := s.Write(EncodeFixed32(v.n));
    } else if l.Fixed64? {
      st := s.Write(EncodeFixed64(v.n));
    } else {
      st := s.WriteVarint(v.n);
    }
  }

  /** pb_encode_string. */
  method WriteString(s: OStream, b: Bytes) returns (st: Status)
    modifies s
    ensures st.Done? <==> Room(Some(LengthAnd(b)), s.sizing, old(s.bytesWritten), s.maxSize)
    ensures !st.SizeChanged?
    ensures st.Done? ==> s.bytesWritten == old(s.bytesWritten) + |LengthAnd(b)|
    ensures st.Done? && !s.sizing ==> s.data == old(s.data) + LengthAnd(b)
  {
    hide Varint;
    st := s.WriteVarint(|b|);
    if st.Done? {
      st := s.Write(b);
    }
  }

  /** pb_encode_tag. */
  method WriteTag(s: OStream, tag: nat, w: WireType) returns (st: Status)
    modifies s
    ensures st.Done? <==> Room(Some(EncodeTag(tag, w)), s.sizing, old(s.bytesWritten), s.maxSize)
    ensures !st.SizeChanged?
    ensures st.Done? ==> s.bytesWritten == old(s.bytesWritten) + |EncodeTag(tag, w)|
    ensures st.Done? && !s.sizing ==> s.data == old(s.data) + EncodeTag(tag, w)
  {
    st := s.WriteVarint(8 * tag + WireCode(w));
  }

  /** The function table PB_ENCODERS. */
  method WriteValue(s: OStream, l: LType, v: Value) returns (st: Status)
    requires HasType(l, v)
    modifies s
    ensures st.Done? <==> Room(EncodeValue(l, v), s.sizing, old(s.bytesWritten), s.maxSize)
    ensures !st.SizeChanged?
    ensures st.Done? ==> s.bytesWritten == old(s.bytesWritten) + |EncodeValue(l, v).value|
    ensures st.Done? && !s.sizing ==> s.data == old(s.data) + EncodeValue(l, v).value
    decreases l
  {
    match l {
      case BytesOf(max) =>
        if |v.b| > max {
          return TooLong;
        }
        st := WriteString(s, v.b);
      case StringOf(_) => st := WriteString(s, v.b);
      case FixedBytes(_) => st := WriteString(s, v.b);
      case Submessage(sub) => st := WriteSubmessage(s, sub, v.slots);
      case _ => st := WriteScalar(s, l, v);
    }
  }

  /** pb_encode_submessage: size it, write the size, then write it. The size never changes in between. */
  method WriteSubmessage(s: OStream, sub: Descriptor, slots: seq<Slot>) returns (st: Status)
    requires Fits(sub, slots)
    modifies s
    ensures st.Done? <==>
              EncodeMessage(sub, slots).Some?
              && Room(Some(LengthAnd(EncodeMessage(sub, slots).value)), s.sizing, old(s.bytesWritten), s.maxSize)
    ensures !st.SizeChanged?
    ensures st.Done? ==> s.bytesWritten == old(s.bytesWritten) + |LengthAnd(EncodeMessage(sub, slots).value)|
    ensures st.Done? && !s.sizing ==> s.data == old(s.data) + LengthAnd(EncodeMessage(sub, slots).value)
    decreases sub, 1
  {
    hide EncodeMessage, Fits, Varint;
    var substream := new OStream(true, 0);
    st := WriteMessage(substream, sub, slots);
    if !st.Done? {
      return;
    }
    var size := substream.bytesWritten;
    st := s.WriteVarint(size);
    if !st.Done? {
      return;
    }
    if s.sizing {
      s.Count(size);
      return;
    }
    if s.bytesWritten + size > s.maxSize {
      return StreamFull;
    }
    substream := new OStream(false, size);
    st := WriteMessage(substream, sub, slots);
    s.bytesWritten := s.bytesWritten + substream.bytesWritten;
    s.data := s.data + substream.data;
    if substream.bytesWritten != size {
      return SizeChanged;
    }
  }

  /** pb_encode. */
  method WriteMessage(s: OStream, d: Descriptor, slots: seq<Slot>) returns (st: Status)
    requires Fits(d, slots)
    modifies s
    ensures st.Done? <==> Room(EncodeMessage(d, slots), s.sizing, old(s.bytesWritten), s.maxSize)
    ensures !st.SizeChanged?
    ensures st.Done? ==> s.bytesWritten == old(s.bytesWritten) + |EncodeMessage(d, slots).value|
    ensures st.Done? && !s.sizing ==> s.data == old(s.data) + EncodeMessage(d, slots).value
    decreases d, 0
  {
    hide EncodeSlot, SlotFits;
    st := Done;
    ghost var written: Bytes := [];
    assert EncodeMessage(d, slots).Some? ==> [] + EncodeMessage(d, slots).value == EncodeMessage(d, slots).value;
    var k := 0;
    while k < |d.fields|
      invariant 0 <= k <= |d.fields| && st.Done?
      invariant s.bytesWritten == old(s.bytesWritten) + |written|
      invariant !s.sizing ==> s.data == old(s.data) + written && (written == [] || s.bytesWritten <= s.maxSize)
      invariant EncodeMessage(d, slots) ==
                  var rest := EncodeFrom(d, slots, k); if rest.None? then None else Some(written + rest.value)
    {
      ghost var first, rest := EncodeSlot(d.fields[k], slots[k]), EncodeFrom(d, slots, k + 1);
      st := WriteField(s, d.fields[k], slots[k]);
      if !st.Done? {
        return;
      }
      if rest.Some? {
        Regroup(written, first.value, rest.value);
      }
      written := written + first.value;
      k := k + 1;
    }
    assert written + [] == written;
  }

  lemma Regroup(a: Bytes, b: Bytes, c: Bytes)
    ensures a + (b + c) == a + b + c
  {
  }

  /** encode_basic_field. */
  method WriteField(s: OStream, f: Field, slot: Slot) returns (st: Status)
    requires SlotFits(f, slot)
    modifies s
    ensures st.Done? <==> Room(EncodeSlot(f, slot), s.sizing, old(s.bytesWritten), s.maxSize)
    ensures !st.SizeChanged?
    ensures st.Done? ==> s.bytesWritten == old(s.bytesWritten) + |EncodeSlot(f, slot).value|
    ensures st.Done? && !s.sizing ==> s.data == old(s.data) + EncodeSlot(f, slot).value
    decreases f, 3
  {
    hide EncodeTagged, EncodeArray;
    st := Done;
    match f.htype {
      case Required => st := WriteTagged(s, f, slot.value);
      case Implicit =>
        if !IsZeroValue(f.ltype, slot.value) {
          st := WriteTagged(s, f, slot.value);
        }
      case Optional =>
        if slot.option.Some? {
          st := WriteTagged(s, f, slot.option.value);
        }
      case Oneof(_) =>
        if slot.option.Some? {
          st := WriteTagged(s, f, slot.option.value);
        }
      case Repeated(max) => st := WriteArray(s, f, slot.values, max);
      case FixedCount(n) => st := WriteArray(s, f, slot.values, n);
    }
  }

  /** pb_encode_tag_for_field, then the value. */
  method WriteTagged(s: OStream, f: Field, v: Value) returns (st: Status)
    requires HasType(f.ltype, v)
    modifies s
    ensures st.Done? <==> Room(EncodeTagged(f, v), s.sizing, old(s.bytesWritten), s.maxSize)
    ensures !st.SizeChanged?
    ensures st.Done? ==> s.bytesWritten == old(s.bytesWritten) + |EncodeTagged(f, v).value|
    ensures st.Done? && !s.sizing ==> s.data == old(s.data) + EncodeTagged(f, v).value
    decreases f, 0
  {
    hide EncodeValue, HasType, Varint;
    st := WriteTag(s, f.tag, WireFor(f.ltype));
    if st.Done? {
      st := WriteValue(s, f.ltype, v);
    }
  }

  /** encode_array. */
  method WriteArray(s: OStream, f: Field, vs: seq<Value>, limit: nat) returns (st: Status)
    requires forall i | 0 <= i < |vs| :: HasType(f.ltype, vs[i])
    modifies s
    ensures st.Done? <==> Room(EncodeArray(f, vs, limit), s.sizing, old(s.bytesWritten), s.maxSize)
    ensures !st.SizeChanged?
    ensures st.Done? ==> s.bytesWritten == old(s.bytesWritten) + |EncodeArray(f, vs, limit).value|
    ensures st.Done? && !s.sizing ==> s.data == old(s.data) + EncodeArray(f, vs, limit).value
    decreases f, 2
  {
    hide HasType, EncodeItems, EncodePacked, Varint;
    st := Done;
    if vs == [] {
      return;
    }
    if |vs| > limit {
      return TooLong;
    }
    if Packable(f.ltype) {
      st := WriteTag(s, f.tag, StringWire);
      if st.Done? {
        st := WritePacked(s, f.ltype, vs);
      }
    } else {
      st := WriteItems(s, f, vs);
    }
  }

  /** The packed form: the total size first, by multiplication or by a sizing pass. */
  method WritePacked(s: OStream, l: LType, vs: seq<Value>) returns (st: Status)
    requires Packable(l) && forall i | 0 <= i < |vs| :: HasType(l, vs[i])
    modifies s
    ensures st.Done? <==> Room(Some(LengthAnd(EncodePacked(l, vs))), s.sizing, old(s.bytesWritten), s.maxSize)
    ensures !st.SizeChanged?
    ensures st.Done? ==> s.bytesWritten == old(s.bytesWritten) + |LengthAnd(EncodePacked(l, vs))|
    ensures st.Done? && !s.sizing ==> s.data == old(s.data) + LengthAnd(EncodePacked(l, vs))
  {
    hide HasType, EncodePacked, Varint;
    var size;
    if l.Fixed32? {
      FixedSize(l, vs, 4);
      size := 4 * |vs|;
    } else if l.Fixed64? {
      FixedSize(l, vs, 8);
      size := 8 * |vs|;
    } else {
      var sizestream := new OStream(true, 0);
      st := WriteValues(sizestream, l, vs);
      size := sizestream.bytesWritten;
    }
    st := s.WriteVarint(size);
    if !st.Done? {
      return;
    }
    if s.sizing {
      s.Count(size);
      return;
    }
    st := WriteValues(s, l, vs);
  }

  lemma {:induction false} FixedSize(l: LType, vs: seq<Value>, size: nat)
    requires Packable(l) && forall i | 0 <= i < |vs| :: HasType(l, vs[i])
    requires (l.Fixed32? && size == 4) || (l.Fixed64? && size == 8)
    ensures |EncodePacked(l, vs)| == size * |vs|
    decreases |vs|
  {
    if vs != [] {
      FixedSize(l, vs[1..], size);
    }
  }

  method WriteValues(s: OStream, l: LType, vs: seq<Value>) returns (st: Status)
    requires Packable(l) && forall i | 0 <= i < |vs| :: HasType(l, vs[i])
    modifies s
    ensures st.Done? <==> Room(Some(EncodePacked(l, vs)), s.sizing, old(s.bytesWritten), s.maxSize)
    ensures !st.SizeChanged?
    ensures st.Done? ==> s.bytesWritten == old(s.bytesWritten) + |EncodePacked(l, vs)|
    ensures st.Done? && !s.sizing ==> s.data == old(s.data) + EncodePacked(l, vs)
  {
    hide HasType, EncodeScalar, EncodePacked;
    st := Done;
    ghost var written: Bytes := [];
    assert vs[0..] == vs;
    for i := 0 to |vs|
      invariant st.Done? && s.bytesWritten == old(s.bytesWritten) + |written|
      invariant !s.sizing ==> s.data == old(s.data) + written && (written == [] || s.bytesWritten <= s.maxSize)
      invariant EncodePacked(l, vs) == written + EncodePacked(l, vs[i..])
    {
      PackedStep(l, vs, i);
      st := WriteScalar(s, l, vs[i]);
      if !st.Done? {
        return;
      }
      Regroup(written, EncodeScalar(l, vs[i]), EncodePacked(l, vs[i + 1..]));
      written := written + EncodeScalar(l, vs[i]);
    }
    PackedEnd(l, vs, written);
  }

  lemma PackedStep(l: LType, vs: seq<Value>, i: nat)
    requires Packable(l) && (forall j | 0 <= j < |vs| :: HasType(l, vs[j])) && i < |vs|
    ensures EncodePacked(l, vs[i..]) == EncodeScalar(l, vs[i]) + EncodePacked(l, vs[i + 1..])
  {
    assert vs[i..][0] == vs[i] && vs[i..][1..] == vs[i + 1..];
  }

  lemma PackedEnd(l: LType, vs: seq<Value>, written: Bytes)
    requires Packable(l) && (forall j | 0 <= j < |vs| :: HasType(l, vs[j]))
    ensures written + EncodePacked(l, vs[|vs|..]) == written
  {
  }

  /** The unpacked form. */
  method WriteItems(s: OStream, f: Field, vs: seq<Value>) returns (st: Status)
    requires forall i | 0 <= i < |vs| :: HasType(f.ltype, vs[i])
    modifies s
    ensures st.Done? <==> Room(EncodeItems(f, vs), s.sizing, old(s.bytesWritten), s.maxSize)
    ensures !st.SizeChanged?
    ensures st.Done? ==> s.bytesWritten == old(s.bytesWritten) + |EncodeItems(f, vs).value|
    ensures st.Done? && !s.sizing ==> s.data == old(s.data) + EncodeItems(f, vs).value
    decreases f, 1
  {
    hide HasType, EncodeTagged;
    st := Done;
    ghost var written: Bytes := [];
    assert vs[0..] == vs;
    assert EncodeItems(f, vs).Some? ==> [] + EncodeItems(f, vs).value == EncodeItems(f, vs).value;
    for i := 0 to |vs|
      invariant st.Done? && s.bytesWritten == old(s.bytesWritten) + |written|
      invariant !s.sizing ==> s.data == old(s.data) + written && (written == [] || s.bytesWritten <= s.maxSize)
      invariant EncodeItems(f, vs) ==
                  var rest := EncodeItems(f, vs[i..]); if rest.None? then None else Some(written + rest.value)
    {
      assert vs[i..][0] == vs[i] && vs[i..][1..] == vs[i + 1..];
      ghost var first, rest := EncodeTagged(f, vs[i]), EncodeItems(f, vs[i + 1..]);
      st := WriteTagged(s, f, vs[i]);
      if !st.Done? {
        return;
      }
      if rest.Some? {
        Regroup(written, first.value, rest.value);
      }
      written := written + first.value;
    }
    assert written + [] == written;
  }
}
