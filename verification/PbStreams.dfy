/** The decoder over a stream (pb_decode.c) with the wrapping field iterator (pb_common.c). Each method is proved to do
    what the functions of PbDecode say, on every input. */
module PbStreams {
  import opened Wrappers
  import opened Coding
  import opened PbWire
  import opened PbMessages
  import opened PbEncode
  import opened PbDecode

  // ----- the field iterator -----

  /** pb_field_iter_t over a message type that has fields. */
  class FieldIter {
    const d: Descriptor
    var pos: nat
    var requiredFieldIndex: nat

    ghost predicate Valid()
      reads this
    {
      pos < |d.fields| && requiredFieldIndex == RequiredBefore(d, pos)
    }

    /** pb_field_iter_begin. */
    constructor (d: Descriptor)
      requires d.fields != []
      ensures Valid() && this.d == d && pos == 0
    {
      this.d, pos, requiredFieldIndex := d, 0, 0;
    }

    /** pb_field_iter_next: false when it wraps around to the first field. */
    method Next() returns (more: bool)
      requires Valid()
      modifies this
      ensures Valid() && more == (old(pos) + 1 < |d.fields|) && pos == if more then old(pos) + 1 else 0
    {
      if pos + 1 == |d.fields| {
        pos, requiredFieldIndex := 0, 0;
        return false;
      }
      if d.fields[pos].htype.Required? {
        requiredFieldIndex := requiredFieldIndex + 1;
      }
      pos := pos + 1;
      more := true;
    }

    /** pb_field_iter_find: search from where the iterator stands, all the way around. */
    method FindTag(tag: nat) returns (found: bool)
      requires Valid()
      modifies this
      ensures Valid()
      ensures found ==> d.fields[pos].tag == tag
      ensures !found ==> forall k | 0 <= k < |d.fields| :: d.fields[k].tag != tag
    {
      var start := pos;
      ghost var n := |d.fields|;
      ghost var seen := 0;
      while true
        invariant Valid() && seen < n && pos == (if start + seen < n then start + seen else start + seen - n)
        invariant forall k | 0 <= k < n && Passed(start, seen, n, k) :: d.fields[k].tag != tag
        decreases n - seen
      {
        if d.fields[pos].tag == tag {
          return true;
        }
        var _ := Next();
        seen := seen + 1;
        if pos == start {
          break;
        }
      }
      assert forall k | 0 <= k < n :: Passed(start, seen, n, k);
      found := false;
    }

    /** The end of pb_decode_noinit: walk to the last field and count the required ones. */
    method CountRequired() returns (count: nat)
      requires Valid()
      modifies this
      ensures Valid() && count == RequiredBefore(d, |d.fields|)
    {
      count := 0;
      var lastRequired := false;
      var more := true;
      ghost var p := pos;
      while more
        invariant Valid() && (more ==> p == pos)
        invariant !more ==>
                  p == |d.fields| - 1 && count == RequiredBefore(d, p) && lastRequired == d.fields[p].htype.Required?
        decreases if more then 1 + |d.fields| - pos else 0
      {
        p := pos;
        count, lastRequired := requiredFieldIndex, d.fields[pos].htype.Required?;
        more := Next();
        if more {
          p := pos;
        }
      }
      if lastRequired {
        count := count + 1;
      }
    }
  }

  /** Whether field k is among the first `seen` ones after start, around the end. */
  ghost predicate Passed(start: nat, seen: nat, n: nat, k: nat) {
    start <= k < start + seen || k + n < start + seen
  }

  /** With distinct tags it does not matter where the search starts. */
  lemma {:induction false} FindIs(d: Descriptor, tag: nat, from: nat)
    requires WellFormed(d) && from <= |d.fields|
    ensures (forall k | from <= k < |d.fields| :: d.fields[k].tag != tag) ==> Find(d, tag, from) == None
    ensures forall k | from <= k < |d.fields| && d.fields[k].tag == tag :: Find(d, tag, from) == Some(k)
    decreases |d.fields| - from
  {
    if from < |d.fields| {
      FindIs(d, tag, from + 1);
      assert forall k | from < k < |d.fields| :: d.fields[k].tag != d.fields[from].tag;
    }
  }

  // ----- the stream -----

  /** pb_istream_t over a buffer: what is left of it. */
  class IStream {
    var left: Bytes

    constructor (b: Bytes)
      ensures left == b
    {
      left := b;
    }

    /** pb_read. */
    method Read(count: nat) returns (ok: bool, b: Bytes)
      modifies this
      ensures ok == (count <= |old(left)|)
      ensures ok ==> b == old(left)[..count] && left == old(left)[count..]
    {
      if |left| < count {
        return false, [];
      }
      b, left, ok := left[..count], left[count..], true;
    }

    /** pb_readbyte. */
    method ReadByte() returns (ok: bool, b: byte)
      modifies this
      ensures ok == (old(left) != [])
      ensures ok ==> b == old(left)[0] && left == old(left)[1..]
      ensures !ok ==> left == old(left)
    {
      if left == [] {
        return false, 0;
      }
      b, left, ok := left[0], left[1..], true;
    }

    /** pb_decode_varint. */
    method ReadVarint() returns (ok: bool, value: nat)
      modifies this
      ensures ok == GetVarint64(old(left)).Some?
      ensures ok ==> GetVarint64(old(left)) == Some((value, left))
    {
      var bitpos: nat, weight: nat, more := 0, 1, true;
      value := 0;
      ghost var goal := GetVarint64(left);
      while more
        invariant bitpos % 7 == 0 && bitpos <= 70 && (bitpos == 70 || bitpos < 64)
        invariant more ==> goal == GetVarintFrom(left, 10 - bitpos / 7, weight, U64, value)
        invariant !more ==> goal == Some((value, left))
        decreases more, 70 - bitpos
      {
        if bitpos >= 64 {
          return false, 0;
        }
        var read, b := ReadByte();
        if !read {
          return false, 0;
        }
        value := value + Low(Times(b % 128, weight), U64);
        bitpos, weight, more := bitpos + 7, 128 * weight, b >= 128;
      }
      ok := true;
    }

    /** pb_decode_varint32. */
    method ReadVarint32() returns (ok: bool, value: nat)
      modifies this
      ensures ok == DecodeVarint32(old(left)).Some?
      ensures ok ==> DecodeVarint32(old(left)) == Some((value, left))
    {
      ghost var goal := DecodeVarint32(left);
      var read, b := ReadByte();
      if !read {
        return false, 0;
      }
      if b < 128 {
        return true, b;
      }
      var bitpos: nat := 7;
      value := b % 128;
      while true
        invariant goal == MoreVarint32(left, bitpos, value)
        decreases |left|
      {
        read, b := ReadByte();
        if !read {
          return false, 0;
        }
        if bitpos >= 32 {
          var signExtension := if bitpos < 63 then 0xFF else 0x01;
          if b % 128 != 0 && (value < 0x8000_0000 || b != signExtension) {
            return false, 0;
          }
        } else {
          value := Or(value, Shifted(b % 128, bitpos) % U32);
        }
        bitpos := (bitpos + 7) % 256;
        if b < 128 {
          break;
        }
      }
      if bitpos == 35 && b / 16 % 8 != 0 {
        return false, 0;
      }
      ok := true;
    }

    /** pb_make_string_substream, or reading a string in one go. */
    method ReadDelimited() returns (ok: bool, b: Bytes)
      modifies this
      ensures ok == GetDelimited(old(left)).Some?
      ensures ok ==> GetDelimited(old(left)) == Some((b, left))
    {
      var read, size := ReadVarint32();
      if !read {
        return false, [];
      }
      ok, b := Read(size);
    }

    /** pb_skip_field. */
    method Skip(w: WireType) returns (ok: bool)
      modifies this
      ensures ok == SkipField(w, old(left)).Some?
      ensures ok ==> SkipField(w, old(left)) == Some(left)
    {
      match w {
        case VarintWire =>
          ghost var goal := SkipVarint(left);
          while true
            invariant goal == SkipVarint(left)
            decreases |left|
          {
            var read, b := ReadByte();
            if !read {
              return false;
            }
            if b < 128 {
              break;
            }
          }
          ok := true;
        case Bits64 => var skipped; ok, skipped := Read(8);
        case Bits32 => var skipped; ok, skipped := Read(4);
        case StringWire => var skipped; ok, skipped := ReadDelimited();
        case BadWire(_) => ok := false;
      }
    }
  }

  // ----- values -----

  /** pb_dec_bool, pb_dec_varint, pb_dec_uvarint, pb_dec_svarint, pb_dec_fixed32, pb_dec_fixed64. */
  method ReadScalar(s: IStream, l: LType) returns (ok: bool, v: Value)
    requires Packable(l)
    modifies s
    ensures ok == DecodeScalar(l, old(s.left)).Some?
    ensures ok ==> DecodeScalar(l, old(s.left)) == Some((v, s.left))
  {
    hide DecodeVarint32, GetVarint64, SignedLow, UnZigZag, DecodeFixed32, DecodeFixed64;
    v := Num(0);
    if l.Bool? {
      var read, value := s.ReadVarint32();
      return read, Num(if value != 0 then 1 else 0);
    }
    if l.Fixed32? {
      Fixed32OfPrefix(s.left);
      var read, b := s.Read(4);
      return read, Num(if read then DecodeFixed32(b) else 0);
    }
    if l.Fixed64? {
      Fixed64OfPrefix(s.left);
      var read, b := s.Read(8);
      return read, Num(if read then DecodeFixed64(b) else 0);
    }
    var read, value := s.ReadVarint();
    if !read || !WidthOk(l.bits) {
      return false, v;
    }
    if l.VarInt? {
      var svalue := SignedLow(value, if l.bits == 64 then 64 else 32);
      ok, v := SignedLow(svalue, l.bits) == svalue, Num(svalue);
    } else if l.UVarInt? {
      ok, v := value < WidthRange(l.bits), Num(value);
    } else {
      var svalue := UnZigZag(value);
      ok, v := SignedLow(svalue, l.bits) == svalue, Num(svalue);
    }
  }

  lemma Fixed32OfPrefix(b: Bytes)
    ensures |b| >= 4 ==> DecodeFixed32(b) == DecodeFixed32(b[..4])
  {
  }

  lemma Fixed64OfPrefix(b: Bytes)
    ensures |b| >= 8 ==> DecodeFixed64(b) == DecodeFixed64(b[..8])
  {
    if |b| >= 8 {
      assert b[4..][..4] == b[..8][4..][..4];
      Fixed32Prefix(b[4..]);
      Fixed32Prefix(b[..8][4..]);
      assert b[..8][..4] == b[..4];
      Fixed32Prefix(b);
      Fixed32Prefix(b[..8]);
    }
  }

  /** The function table PB_DECODERS. */
  method ReadValue(s: IStream, l: LType, prior: Value) returns (ok: bool, v: Value)
    requires l.Submessage? ==> WellFormed(l.sub)
    modifies s
    ensures ok == DecodeValue(l, prior, old(s.left)).Some?
    ensures ok ==> DecodeValue(l, prior, old(s.left)) == Some((v, s.left))
    decreases l
  {
    hide DecodeScalar, GetDelimited, DecodeNoinit, Default, WellFormed;
    v := prior;
    if Packable(l) {
      ok, v := ReadScalar(s, l);
      return;
    }
    var read, b := s.ReadDelimited();
    if !read {
      return false, v;
    }
    if l.BytesOf? {
      ok, v := |b| <= l.max, Blob(b);
    } else if l.StringOf? {
      ok, v := |b| + 1 <= l.size, Blob(CString(b));
    } else if l.FixedBytes? {
      if b == [] {
        return true, Blob(Zeros(l.size));
      }
      ok, v := |b| == l.size, Blob(b);
    } else {
      var substream := new IStream(b);
      var slots := if prior.Message? && |prior.slots| == |l.sub.fields| then prior.slots else Default(l.sub);
      ok, slots := ReadNoinit(substream, l.sub, slots);
      v := Message(slots);
    }
  }

  /** The elements a tag of a repeated field brings. */
  method ReadElements(s: IStream, f: Field, items0: seq<Value>, w: WireType) returns (ok: bool, items: seq<Value>)
    requires (f.htype.Repeated? || f.htype.FixedCount?) && FieldOk(f)
    modifies s
    ensures ok == DecodeElements(f, items0, w, old(s.left)).Some?
    ensures ok ==> DecodeElements(f, items0, w, old(s.left)) == Some((items, s.left))
    decreases f
  {
    hide DecodeScalar, DecodeValue, GetDelimited, DefaultValue, HasType;
    var limit := if f.htype.Repeated? then f.htype.max else f.htype.count;
    items := items0;
    if w.StringWire? && Packable(f.ltype) {
      var read, b := s.ReadDelimited();
      if !read {
        return false, items;
      }
      var substream := new IStream(b);
      ghost var goal, parent := DecodePacked(f.ltype, items, b, limit), s.left;
      var status := true;
      while status && substream.left != [] && |items| < limit
        invariant s.left == parent && fresh(substream)
        invariant status ==> goal == DecodePacked(f.ltype, items, substream.left, limit)
        invariant !status ==> goal == None
        decreases status, |substream.left|
      {
        ScalarConsumes(f.ltype, substream.left);
        var v;
        status, v := ReadScalar(substream, f.ltype);
        if status {
          items := items + [v];
        }
      }
      ok := status && substream.left == [];
      return;
    }
    if |items| >= limit {
      return false, items;
    }
    var v;
    ok, v := ReadValue(s, f.ltype, DefaultValue(f));
    items := items + [v];
  }

  lemma ScalarConsumes(l: LType, input: Bytes)
    requires Packable(l)
    ensures DecodeScalar(l, input).Some? ==> |DecodeScalar(l, input).value.1| < |input|
  {
  }

  /** What pb_decode_noinit does for a tag it knows. */
  method ReadField(s: IStream, d: Descriptor, dest0: Dest, k: nat, w: WireType, requiredFieldIndex: nat)
    returns (ok: bool, dest: Dest)
    requires WellFormed(d) && k < |d.fields| && |dest0.slots| == |d.fields|
    requires requiredFieldIndex == RequiredBefore(d, k)
    modifies s
    ensures ok == DecodeField(d, dest0, k, w, old(s.left)).Some?
    ensures ok ==> DecodeField(d, dest0, k, w, old(s.left)) == Some((dest, s.left))
    decreases d, 0, 0
  {
    hide DecodeValue, DecodeElements, FixedFull, ClearGroup, DefaultValue;
    var f := d.fields[k];
    assert FieldOk(f);
    dest := dest0;
    if f.htype.Repeated? || f.htype.FixedCount? {
      var items := if dest.slots[k].Many? then dest.slots[k].values else [];
      if f.htype.FixedCount? {
        if dest.fixed != Some(k) {
          if dest.fixed.Some? && !FixedFull(d, dest) {
            return false, dest;
          }
          items := [];
        }
        dest := dest.(fixed := Some(k));
      }
      ok, items := ReadElements(s, f, items, w);
      dest := dest.(slots := dest.slots[k := Many(items)]);
    } else {
      if f.htype.Required? && requiredFieldIndex < MAX_REQUIRED_FIELDS {
        dest := dest.(seen := dest.seen + {requiredFieldIndex});
      }
      var v;
      ok, v := ReadValue(s, f.ltype, Prior(f, dest.slots[k]));
      var slots := if f.htype.Oneof? then ClearGroup(d, dest.slots, f) else dest.slots;
      var slot := if f.htype.Required? || f.htype.Implicit? then One(v) else Maybe(Some(v));
      dest := dest.(slots := slots[k := slot]);
    }
  }

  /** pb_decode_noinit. */
  method ReadNoinit(s: IStream, d: Descriptor, slots0: seq<Slot>) returns (ok: bool, slots: seq<Slot>)
    requires WellFormed(d) && |slots0| == |d.fields|
    modifies s
    ensures ok == DecodeNoinit(d, slots0, old(s.left)).Some?
    ensures ok ==> DecodeNoinit(d, slots0, old(s.left)) == Some(slots)
    decreases d, 1
  {
    slots := slots0;
    var dest;
    ok, dest := ReadLoop(s, d, Dest(slots0, {}, None));
    if !ok || !FixedFull(d, dest) {
      return false, slots;
    }
    slots := dest.slots;
    if d.fields != [] {
      var iter := new FieldIter(d);
      var count := iter.CountRequired();
      if count > MAX_REQUIRED_FIELDS {
        count := MAX_REQUIRED_FIELDS;
      }
      ok := forall i | 0 <= i < count :: i in dest.seen;
    }
  }

  /** The loop over the tags. */
  method ReadLoop(s: IStream, d: Descriptor, dest0: Dest) returns (ok: bool, dest: Dest)
    requires WellFormed(d) && |dest0.slots| == |d.fields|
    modifies s
    ensures ok == DecodeLoop(d, dest0, old(s.left)).Some?
    ensures ok ==> DecodeLoop(d, dest0, old(s.left)) == Some(dest)
    decreases d, 0, 1
  {
    hide DecodeField, WellFormed, DecodeVarint32, SkipField, Find;
    dest := dest0;
    var iter: FieldIter? := null;
    if d.fields != [] {
      iter := new FieldIter(d);
    }
    ghost var goal := DecodeLoop(d, dest, s.left);
    while s.left != []
      invariant |dest.slots| == |d.fields| && goal == DecodeLoop(d, dest, s.left)
      invariant iter == null <==> d.fields == []
      invariant iter != null ==> fresh(iter) && iter.Valid() && iter.d == d
      decreases |s.left|
    {
      ghost var input := s.left;
      var read, temp := s.ReadVarint32();
      if !read {
        return false, dest;
      }
      TagConsumes(input);
      if temp == 0 {
        return true, dest;
      }
      var tag, wire := temp / 8, WireOf(temp % 8);
      var found := false;
      if iter != null {
        found := iter.FindTag(tag);
      }
      FindIs(d, tag, 0);
      if found {
        FieldConsumes(d, dest, iter.pos, wire, s.left);
        ok, dest := ReadField(s, d, dest, iter.pos, wire, iter.requiredFieldIndex);
      } else {
        SkipConsumes(wire, s.left);
        ok := s.Skip(wire);
      }
      if !ok {
        return;
      }
    }
    ok := true;
  }

  lemma TagConsumes(input: Bytes)
    ensures DecodeVarint32(input).Some? ==> |DecodeVarint32(input).value.1| < |input|
  {
  }

  lemma SkipConsumes(w: WireType, input: Bytes)
    ensures SkipField(w, input).Some? ==> |SkipField(w, input).value| <= |input|
  {
  }

  lemma FieldConsumes(d: Descriptor, dest: Dest, k: nat, w: WireType, input: Bytes)
    requires k < |d.fields| && |dest.slots| == |d.fields|
    ensures var r := DecodeField(d, dest, k, w, input);
            r.Some? ==> |r.value.1| <= |input| && |r.value.0.slots| == |d.fields|
  {
  }

  /** pb_decode: defaults first. Decoding what the encoder wrote restores the message exactly when it can be. */
  method ReadMessage(s: IStream, d: Descriptor) returns (ok: bool, slots: seq<Slot>)
    requires WellFormed(d)
    modifies s
    ensures ok == Decode(d, old(s.left)).Some?
    ensures ok ==> Decode(d, old(s.left)) == Some(slots)
  {
    ok, slots := ReadNoinit(s, d, Default(d));
  }
}
