/** Fields that come more than once, in any writer's order (pb_decode.c): the loop goes on where it stands, so decoding
    two messages one after the other is decoding their concatenation; the last of several values wins, submessages are
    merged, and numbers of a repeated field may come one by one. */
module PbMerging {
  import opened Wrappers
  import opened Coding
  import opened PbWire
  import opened PbMessages
  import opened PbEncode
  import opened PbDecode
  import opened PbRoundTrip

  // ----- reading with more bytes behind -----

  function Behind<T>(r: Option<(T, Bytes)>, more: Bytes): Option<(T, Bytes)>
    requires r.Some?
  {
    Some((r.value.0, r.value.1 + more))
  }

  lemma {:induction false} MoreAppend(input: Bytes, bitpos: nat, result: nat, more: Bytes)
    requires MoreVarint32(input, bitpos, result).Some?
    ensures MoreVarint32(input + more, bitpos, result) == Behind(MoreVarint32(input, bitpos, result), more)
    decreases |input|
  {
    hide Shifted, Or;
    assert (input + more)[1..] == input[1..] + more && (input + more)[0] == input[0];
    if input[0] >= 128 {
      var added := if bitpos >= 32 then result else Or(result, Shifted(input[0] % 128, bitpos) % U32);
      MoreAppend(input[1..], (bitpos + 7) % 256, added, more);
    }
  }

  lemma Varint32Append(input: Bytes, more: Bytes)
    requires DecodeVarint32(input).Some?
    ensures DecodeVarint32(input + more) == Behind(DecodeVarint32(input), more)
  {
    hide MoreVarint32;
    assert (input + more)[1..] == input[1..] + more && (input + more)[0] == input[0];
    if input[0] >= 128 {
      MoreAppend(input[1..], 7, input[0] % 128, more);
    }
  }

  lemma {:induction false} VarintAppend(input: Bytes, left: nat, weight: nat, modulus: nat, result: nat, more: Bytes)
    requires modulus > 0 && GetVarintFrom(input, left, weight, modulus, result).Some?
    ensures GetVarintFrom(input + more, left, weight, modulus, result)
         == Behind(GetVarintFrom(input, left, weight, modulus, result), more)
    decreases left
  {
    hide Low, Times;
    assert (input + more)[1..] == input[1..] + more && (input + more)[0] == input[0];
    if input[0] >= 128 {
      VarintAppend(input[1..], left - 1, 128 * weight, modulus, result + Low(Times(input[0] % 128, weight), modulus),
                   more);
    }
  }

  lemma {:induction false} SkipVarintAppend(input: Bytes, more: Bytes)
    requires SkipVarint(input).Some?
    ensures SkipVarint(input + more) == Some(SkipVarint(input).value + more)
  {
    assert (input + more)[1..] == input[1..] + more && (input + more)[0] == input[0];
    if input[0] >= 128 {
      SkipVarintAppend(input[1..], more);
    }
  }

  lemma DelimitedAppend(input: Bytes, more: Bytes)
    requires GetDelimited(input).Some?
    ensures GetDelimited(input + more) == Behind(GetDelimited(input), more)
  {
    hide DecodeVarint32;
    Varint32Append(input, more);
    var n, rest := DecodeVarint32(input).value.0, DecodeVarint32(input).value.1;
    assert (rest + more)[..n] == rest[..n] && (rest + more)[n..] == rest[n..] + more;
  }

  lemma SkipAppend(w: WireType, input: Bytes, more: Bytes)
    requires SkipField(w, input).Some?
    ensures SkipField(w, input + more) == Some(SkipField(w, input).value + more)
  {
    hide GetDelimited, SkipVarint;
    match w {
      case VarintWire => SkipVarintAppend(input, more);
      case Bits64 => assert (input + more)[8..] == input[8..] + more;
      case StringWire => DelimitedAppend(input, more);
      case Bits32 => assert (input + more)[4..] == input[4..] + more;
    }
  }

  lemma FixedAppend(input: Bytes, more: Bytes)
    ensures |input| >= 4 ==> DecodeFixed32(input + more) == DecodeFixed32(input)
    ensures |input| >= 8 ==> DecodeFixed64(input + more) == DecodeFixed64(input)
    ensures |input| >= 4 ==> (input + more)[4..] == input[4..] + more
    ensures |input| >= 8 ==> (input + more)[8..] == input[8..] + more
  {
  }

  lemma ScalarAppend(l: LType, input: Bytes, more: Bytes)
    requires Packable(l) && DecodeScalar(l, input).Some?
    ensures DecodeScalar(l, input + more) == Behind(DecodeScalar(l, input), more)
  {
    hide DecodeVarint32, GetVarintFrom, SignedLow, UnZigZag, DecodeFixed32, DecodeFixed64;
    FixedAppend(input, more);
    if l.Bool? {
      Varint32Append(input, more);
    } else if !l.Fixed32? && !l.Fixed64? {
      VarintAppend(input, 10, 1, U64, 0, more);
    }
  }

  lemma ValueAppend(l: LType, prior: Value, input: Bytes, more: Bytes)
    requires DecodeValue(l, prior, input).Some?
    ensures DecodeValue(l, prior, input + more) == Behind(DecodeValue(l, prior, input), more)
  {
    hide DecodeNoinit, GetDelimited, DecodeScalar, CString, Default;
    if Packable(l) {
      ScalarAppend(l, input, more);
    } else {
      DelimitedAppend(input, more);
    }
  }

  lemma ElementsAppend(f: Field, items: seq<Value>, w: WireType, input: Bytes, more: Bytes)
    requires (f.htype.Repeated? || f.htype.FixedCount?) && DecodeElements(f, items, w, input).Some?
    ensures DecodeElements(f, items, w, input + more) == Behind(DecodeElements(f, items, w, input), more)
  {
    hide DecodeValue, GetDelimited, DecodePacked, DefaultValue;
    if w.StringWire? && Packable(f.ltype) {
      DelimitedAppend(input, more);
    } else {
      ValueAppend(f.ltype, DefaultValue(f), input, more);
    }
  }

  lemma FieldAppend(d: Descriptor, dest: Dest, k: nat, w: WireType, input: Bytes, more: Bytes)
    requires k < |d.fields| && |dest.slots| == |d.fields| && DecodeField(d, dest, k, w, input).Some?
    ensures DecodeField(d, dest, k, w, input + more) == Behind(DecodeField(d, dest, k, w, input), more)
  {
    hide DecodeValue, DecodeElements, FixedFull, ClearGroup, RequiredBefore;
    var f := d.fields[k];
    if f.htype.Repeated? || f.htype.FixedCount? {
      var restart := f.htype.FixedCount? && dest.fixed != Some(k);
      var items := if restart || !dest.slots[k].Many? then [] else dest.slots[k].values;
      ElementsAppend(f, items, w, input, more);
    } else {
      ValueAppend(f.ltype, Prior(f, dest.slots[k]), input, more);
    }
  }

  lemma TagAppend(input: Bytes, more: Bytes)
    requires DecodeTag(input).Tag?
    ensures DecodeTag(input + more) == DecodeTag(input).(rest := DecodeTag(input).rest + more)
  {
    hide DecodeVarint32;
    Varint32Append(input, more);
  }

  // ----- concatenation -----

  /** One turn of the loop: the new state and the bytes that are left. */
  function Turn(d: Descriptor, dest: Dest, input: Bytes): (r: Option<(Dest, Bytes)>)
    requires |dest.slots| == |d.fields| && input != []
    ensures r.Some? ==> |r.value.0.slots| == |d.fields| && |r.value.1| < |input|
  {
    match DecodeTag(input)
    case Tag(number, wire, rest) =>
      var k := Find(d, number, 0);
      if k.None? then
        var skipped := SkipField(wire, rest);
        if skipped.None? then None else Some((dest, skipped.value))
      else DecodeField(d, dest, k.value, wire, rest)
    case _ => None
  }

  /** The loop uses the input up, without meeting a zero tag or an error. */
  ghost predicate Consumes(d: Descriptor, dest: Dest, input: Bytes)
    requires |dest.slots| == |d.fields|
    decreases |input|
  {
    input == [] ||
    var r := Turn(d, dest, input);
    r.Some? && Consumes(d, r.value.0, r.value.1)
  }

  lemma LoopTurns(d: Descriptor, dest: Dest, input: Bytes)
    requires |dest.slots| == |d.fields| && input != [] && Turn(d, dest, input).Some?
    ensures var r := Turn(d, dest, input).value;
            |r.0.slots| == |d.fields| && DecodeLoop(d, dest, input) == DecodeLoop(d, r.0, r.1)
  {
    hide DecodeTag, DecodeField, Find, SkipField;
  }

  lemma TurnAppend(d: Descriptor, dest: Dest, input: Bytes, more: Bytes)
    requires |dest.slots| == |d.fields| && input != [] && Turn(d, dest, input).Some?
    ensures Turn(d, dest, input + more) == Behind(Turn(d, dest, input), more)
  {
    hide DecodeTag, DecodeField, Find, SkipField;
    TagAppend(input, more);
    var t := DecodeTag(input);
    var k := Find(d, t.number, 0);
    if k.None? {
      SkipAppend(t.wire, t.rest, more);
    } else {
      FieldAppend(d, dest, k.value, t.wire, t.rest, more);
    }
  }

  /** What the loop makes of the concatenation of two inputs is what it makes of the second, from where the first has
      left it. */
  lemma {:induction false} LoopGoesOn(d: Descriptor, dest: Dest, a: Bytes, b: Bytes)
    requires |dest.slots| == |d.fields| && Consumes(d, dest, a)
    ensures DecodeLoop(d, dest, a).Some?
    ensures DecodeLoop(d, dest, a + b) == DecodeLoop(d, DecodeLoop(d, dest, a).value, b)
    decreases |a|
  {
    hide Turn, DecodeLoop;
    if a == [] {
      assert a + b == b;
      NothingToDo(d, dest);
    } else {
      var r := Turn(d, dest, a).value;
      LoopTurns(d, dest, a);
      TurnAppend(d, dest, a, b);
      LoopTurns(d, dest, a + b);
      LoopGoesOn(d, r.0, r.1, b);
    }
  }

  lemma NothingToDo(d: Descriptor, dest: Dest)
    requires |dest.slots| == |d.fields|
    ensures DecodeLoop(d, dest, []) == Some(dest)
  {
  }

  // ----- the last value wins -----

  predicate Singular(f: Field) {
    f.htype.Required? || f.htype.Implicit? || f.htype.Optional? || f.htype.Oneof?
  }

  function SlotOf(f: Field, v: Value): Slot {
    if f.htype.Required? || f.htype.Implicit? then One(v) else Maybe(Some(v))
  }

  /** The state after a singular field has been given a value. */
  function Given(d: Descriptor, dest: Dest, k: nat, v: Value): (r: Dest)
    requires k < |d.fields| && |dest.slots| == |d.fields|
    ensures |r.slots| == |d.fields|
  {
    var f := d.fields[k];
    var slots := if f.htype.Oneof? then ClearGroup(d, dest.slots, f) else dest.slots;
    Dest(slots[k := SlotOf(f, v)],
         if f.htype.Required? && RequiredBefore(d, k) < 64 then dest.seen + {RequiredBefore(d, k)} else dest.seen,
         dest.fixed)
  }

  lemma FieldGives(d: Descriptor, dest: Dest, k: nat, w: WireType, payload: Bytes)
    requires k < |d.fields| && |dest.slots| == |d.fields| && Singular(d.fields[k])
    ensures var v := DecodeValue(d.fields[k].ltype, Prior(d.fields[k], dest.slots[k]), payload);
            DecodeField(d, dest, k, w, payload) ==
              if v.None? then None else Some((Given(d, dest, k, v.value.0), v.value.1))
  {
    hide DecodeValue, ClearGroup, RequiredBefore;
  }

  /** One singular field written by the encoder, wherever the loop stands. */
  lemma OneFieldReadsBack(d: Descriptor, dest: Dest, k: nat, v: Value, rest: Bytes)
    requires WellFormed(d) && k < |d.fields| && |dest.slots| == |d.fields| && Singular(d.fields[k])
    requires HasType(d.fields[k].ltype, v) && !d.fields[k].ltype.Submessage? && RestorableValue(d.fields[k].ltype, v)
    requires EncodeTagged(d.fields[k], v).Some? && |EncodeTagged(d.fields[k], v).value| < U32
    ensures DecodeLoop(d, dest, EncodeTagged(d.fields[k], v).value + rest) == DecodeLoop(d, Given(d, dest, k, v), rest)
  {
    hide DecodeLoop, DecodeField, WellFormed, HasType, EncodeValue, RestorableValue, DecodeValue, Given, Prior;
    var f := d.fields[k];
    var value := EncodeValue(f.ltype, v).value;
    var prior := Prior(f, dest.slots[k]);
    ValueReadsBack(f.ltype, v, prior, rest);
    TagThenValue(f, value, rest);
    TagDispatch(d, dest, k, WireFor(f.ltype), value + rest);
    FieldGives(d, dest, k, WireFor(f.ltype), value + rest);
  }

  lemma GivenAgain(d: Descriptor, dest: Dest, j: nat, v: Value, k: nat, v': Value)
    requires j < |d.fields| && k < |d.fields| && |dest.slots| == |d.fields|
    requires j == k || SameGroup(d.fields[j], d.fields[k])
    ensures Given(d, Given(d, dest, j, v), k, v') == Given(d, dest, k, v')
  {
    hide RequiredBefore;
    var a, b := Given(d, Given(d, dest, j, v), k, v'), Given(d, dest, k, v');
    assert a.seen == b.seen;
    forall i | 0 <= i < |d.fields|
      ensures a.slots[i] == b.slots[i]
    {
    }
    assert a.slots == b.slots;
  }

  /** Of two values of a field that is not repeated, or of two members of a oneof, the later one counts, wherever the
      loop stands and whatever follows. */
  lemma LastOneWins(d: Descriptor, dest: Dest, j: nat, v: Value, k: nat, v': Value, rest: Bytes)
    requires WellFormed(d) && j < |d.fields| && k < |d.fields| && |dest.slots| == |d.fields|
    requires j == k || SameGroup(d.fields[j], d.fields[k])
    requires Singular(d.fields[j]) && Singular(d.fields[k])
    requires HasType(d.fields[j].ltype, v) && !d.fields[j].ltype.Submessage? && RestorableValue(d.fields[j].ltype, v)
    requires HasType(d.fields[k].ltype, v') && !d.fields[k].ltype.Submessage? && RestorableValue(d.fields[k].ltype, v')
    requires EncodeTagged(d.fields[j], v).Some? && |EncodeTagged(d.fields[j], v).value| < U32
    requires EncodeTagged(d.fields[k], v').Some? && |EncodeTagged(d.fields[k], v').value| < U32
    ensures var first, second := EncodeTagged(d.fields[j], v).value, EncodeTagged(d.fields[k], v').value;
            DecodeLoop(d, dest, first + (second + rest)) == DecodeLoop(d, dest, second + rest)
  {
    hide *;
    var second := EncodeTagged(d.fields[k], v').value;
    OneFieldReadsBack(d, dest, j, v, second + rest);
    OneFieldReadsBack(d, Given(d, dest, j, v), k, v', rest);
    OneFieldReadsBack(d, dest, k, v', rest);
    GivenAgain(d, dest, j, v, k, v');
  }

  // ----- submessages are merged -----

  /** No required fields and no uncounted arrays: the loop keeps no books. */
  predicate Bookless(d: Descriptor) {
    forall k | 0 <= k < |d.fields| :: !d.fields[k].htype.Required? && !d.fields[k].htype.FixedCount?
  }

  lemma {:induction false} NothingRequired(d: Descriptor, k: nat)
    requires Bookless(d) && k <= |d.fields|
    ensures RequiredBefore(d, k) == 0
  {
    if k > 0 {
      NothingRequired(d, k - 1);
    }
  }

  lemma TurnKeepsBooks(d: Descriptor, dest: Dest, input: Bytes)
    requires Bookless(d) && |dest.slots| == |d.fields| && input != [] && Turn(d, dest, input).Some?
    ensures Turn(d, dest, input).value.0.seen == dest.seen && Turn(d, dest, input).value.0.fixed == dest.fixed
  {
    hide DecodeTag, DecodeValue, DecodeElements, Find, SkipField, ClearGroup, RequiredBefore, FixedFull;
  }

  lemma {:induction false} LoopKeepsBooks(d: Descriptor, dest: Dest, input: Bytes)
    requires Bookless(d) && |dest.slots| == |d.fields| && Consumes(d, dest, input)
    ensures DecodeLoop(d, dest, input).Some?
    ensures DecodeLoop(d, dest, input).value.seen == dest.seen
    ensures DecodeLoop(d, dest, input).value.fixed == dest.fixed
    decreases |input|
  {
    hide Turn, DecodeLoop, Bookless;
    if input == [] {
      NothingToDo(d, dest);
    } else {
      LoopTurns(d, dest, input);
      TurnKeepsBooks(d, dest, input);
      LoopKeepsBooks(d, Turn(d, dest, input).value.0, Turn(d, dest, input).value.1);
    }
  }

  /** Decoding into slots that a first part has filled is decoding both parts at once. */
  lemma NoinitGoesOn(d: Descriptor, slots: seq<Slot>, a: Bytes, b: Bytes)
    requires Bookless(d) && |slots| == |d.fields| && Consumes(d, Dest(slots, {}, None), a)
    ensures DecodeNoinit(d, slots, a).Some?
    ensures DecodeNoinit(d, slots, a + b) == DecodeNoinit(d, DecodeNoinit(d, slots, a).value, b)
  {
    hide DecodeLoop, Consumes, Bookless;
    var dest := Dest(slots, {}, None);
    LoopKeepsBooks(d, dest, a);
    LoopGoesOn(d, dest, a, b);
    NothingRequired(d, |d.fields|);
    var r := DecodeLoop(d, dest, a).value;
    assert r == Dest(r.slots, {}, None);
  }

  function PriorSlots(sub: Descriptor, prior: Value): (r: seq<Slot>)
    ensures |r| == |sub.fields|
  {
    if prior.Message? && |prior.slots| == |sub.fields| then prior.slots else Default(sub)
  }

  /** A submessage sent in two parts, each with its tag, is the submessage sent at once. */
  lemma PartsAreMerged(d: Descriptor, dest: Dest, k: nat, a: Bytes, b: Bytes, rest: Bytes)
    requires WellFormed(d) && k < |d.fields| && |dest.slots| == |d.fields| && Singular(d.fields[k])
    requires d.fields[k].ltype.Submessage? && Bookless(d.fields[k].ltype.sub) && |a + b| < U32
    requires var sub := d.fields[k].ltype.sub;
             Consumes(sub, Dest(PriorSlots(sub, Prior(d.fields[k], dest.slots[k])), {}, None), a)
    ensures var tag := EncodeTag(d.fields[k].tag, StringWire);
            DecodeLoop(d, dest, tag + (LengthAnd(a) + (tag + (LengthAnd(b) + rest)))) ==
            DecodeLoop(d, dest, tag + (LengthAnd(a + b) + rest))
  {
    hide DecodeLoop, DecodeField, WellFormed, Consumes, Bookless, EncodeTag, LengthAnd, Given, Prior, PriorSlots,
         DecodeValue, DecodeNoinit;
    var f := d.fields[k];
    var sub, prior, tag := f.ltype.sub, Prior(f, dest.slots[k]), EncodeTag(f.tag, StringWire);
    var slots := PriorSlots(sub, prior);
    var second := tag + (LengthAnd(b) + rest);
    NoinitGoesOn(sub, slots, a, b);
    var half := Message(DecodeNoinit(sub, slots, a).value);
    var dest1 := Given(d, dest, k, half);
    PartRead(sub, prior, a, second);
    TagDispatch(d, dest, k, StringWire, LengthAnd(a) + second);
    FieldGives(d, dest, k, StringWire, LengthAnd(a) + second);
    GivenPrior(d, dest, k, half);
    PartRead(sub, half, b, rest);
    TagDispatch(d, dest1, k, StringWire, LengthAnd(b) + rest);
    FieldGives(d, dest1, k, StringWire, LengthAnd(b) + rest);
    PartRead(sub, prior, a + b, rest);
    TagDispatch(d, dest, k, StringWire, LengthAnd(a + b) + rest);
    FieldGives(d, dest, k, StringWire, LengthAnd(a + b) + rest);
    HalfSlots(sub, half);
    var whole := DecodeNoinit(sub, slots, a + b);
    if whole.Some? {
      GivenAgain(d, dest, k, half, k, Message(whole.value));
    }
  }

  lemma PartRead(sub: Descriptor, prior: Value, part: Bytes, rest: Bytes)
    requires |part| < U32
    ensures var slots := DecodeNoinit(sub, PriorSlots(sub, prior), part);
            DecodeValue(Submessage(sub), prior, LengthAnd(part) + rest) ==
              if slots.None? then None else Some((Message(slots.value), rest))
  {
    hide DecodeNoinit, GetDelimited, LengthAnd, Default;
    DelimitedReadsBack(part, rest);
  }

  lemma HalfSlots(sub: Descriptor, half: Value)
    requires half.Message? && |half.slots| == |sub.fields|
    ensures PriorSlots(sub, half) == half.slots
  {
  }

  lemma GivenPrior(d: Descriptor, dest: Dest, k: nat, v: Value)
    requires k < |d.fields| && |dest.slots| == |d.fields|
    ensures Prior(d.fields[k], Given(d, dest, k, v).slots[k]) == v
  {
    hide ClearGroup, RequiredBefore;
  }

  // ----- numbers one by one -----

  /** The numbers of a repeated field may also come with a tag each. */
  lemma UnpackedReadsBack(d: Descriptor, slots: seq<Slot>, k: nat, rest: Bytes)
    requires WellFormed(d) && Fits(d, slots) && k < |slots| && slots[k].Many? && slots[k].values != []
    requires Counted(d.fields[k]) && Packable(d.fields[k].ltype) && |slots[k].values| <= Limit(d.fields[k])
    requires forall j | 0 <= j < |slots[k].values| :: HasType(d.fields[k].ltype, slots[k].values[j])
    requires EncodeItems(d.fields[k], slots[k].values).Some? && |EncodeItems(d.fields[k], slots[k].values).value| < U32
    ensures DecodeLoop(d, DestAt(d, slots, k), EncodeItems(d.fields[k], slots[k].values).value + rest) ==
            DecodeLoop(d, DestAt(d, slots, k + 1), rest)
  {
    hide DecodeLoop, EncodeItems, DestAt, DestItems, Fits, WellFormed, HasType;
    ItemsBounds(d, slots, k);
    assert slots[k].values[0..] == slots[k].values;
    ItemsReadBack(d, slots, k, 0, rest);
  }
}
