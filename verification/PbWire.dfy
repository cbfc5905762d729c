/** The wire format of nanopb (pb_encode.c, pb_decode.c): varints, zigzag and tags. */
module PbWire {
  import opened Wrappers
  import opened Coding

  datatype WireType = VarintWire | Bits64 | StringWire | Bits32 | BadWire(code: nat)

  function WireCode(w: WireType): nat {
    match w
    case VarintWire => 0
    case Bits64 => 1
    case StringWire => 2
    case Bits32 => 5
    case BadWire(code) => code
  }

  function WireOf(code: nat): WireType {
    if code == 0 then VarintWire
    else if code == 1 then Bits64
    else if code == 2 then StringWire
    else if code == 5 then Bits32
    else BadWire(code)
  }

  // ----- 32-bit varints -----

  function Weight(bitpos: nat): (w: nat)
    ensures w > 0
  {
    if bitpos == 0 then 1 else 2 * Weight(bitpos - 1)
  }

  function Shifted(bits: nat, bitpos: nat): nat {
    Times(bits, Weight(bitpos))
  }

  /** Bitwise or. */
  function Or(a: nat, b: nat): nat {
    if a == 0 then b else 2 * Or(a / 2, b / 2) + if a % 2 == 1 || b % 2 == 1 then 1 else 0
  }

  /** Below the bits of the other number it is the sum. */
  lemma {:induction false} OrIsSum(a: nat, bits: nat, bitpos: nat)
    requires a < Weight(bitpos)
    ensures Or(a, Shifted(bits, bitpos)) == a + Shifted(bits, bitpos)
  {
    if a > 0 {
      OrIsSum(a / 2, bits, bitpos - 1);
      ShiftOnce(bits, bitpos);
    }
  }

  lemma ShiftOnce(bits: nat, bitpos: nat)
    requires bitpos > 0
    ensures Shifted(bits, bitpos) == 2 * Shifted(bits, bitpos - 1)
  {
    assert bits * (2 * Weight(bitpos - 1)) == 2 * (bits * Weight(bitpos - 1));
  }

  lemma {:induction false} OrInRange(a: nat, b: nat, bitpos: nat)
    requires a < Weight(bitpos) && b < Weight(bitpos)
    ensures Or(a, b) < Weight(bitpos)
  {
    if a > 0 {
      OrInRange(a / 2, b / 2, bitpos - 1);
    }
  }

  /** The loop of pb_decode_varint32_eof, from the second byte on. Bytes beyond 32 bits may only repeat the sign, the
      position wraps at 256, and bits above the 32nd in the fifth byte are an overflow. */
  function MoreVarint32(input: Bytes, bitpos: nat, result: nat): (r: Option<(nat, Bytes)>)
    ensures r.Some? ==> |r.value.1| < |input|
    decreases |input|
  {
    if input == [] then None
    else
      var b := input[0];
      var signExtension := if bitpos < 63 then 0xFF else 0x01;
      if bitpos >= 32 && b % 128 != 0 && (result < 0x8000_0000 || b != signExtension) then None
      else
        var result' := if bitpos >= 32 then result else Or(result, Shifted(b % 128, bitpos) % U32);
        var bitpos' := (bitpos + 7) % 256;
        if b >= 128 then MoreVarint32(input[1..], bitpos', result')
        else if bitpos' == 35 && b / 16 % 8 != 0 then None
        else Some((result', input[1..]))
  }

  function DecodeVarint32(input: Bytes): (r: Option<(nat, Bytes)>)
    ensures r.Some? ==> |r.value.1| < |input|
  {
    if input == [] then None
    else if input[0] < 128 then Some((input[0], input[1..]))
    else MoreVarint32(input[1..], 7, input[0] % 128)
  }

  lemma Weights()
    ensures Weight(7) == 0x80 && Weight(14) == 0x4000 && Weight(21) == 0x20_0000 && Weight(28) == 0x1000_0000
  {
  }

  lemma SplitShift(q: nat, bitpos: nat)
    requires bitpos == 7 || bitpos == 14 || bitpos == 21 || bitpos == 28
    requires Shifted(q, bitpos) < U32
    ensures q < 128 ==> Shifted(q, bitpos) % U32 == Shifted(q, bitpos) && (bitpos == 28 ==> q < 16)
    ensures q >= 128 ==> bitpos < 28 && Shifted(q, bitpos) == Shifted(q % 128, bitpos) + Shifted(q / 128, bitpos + 7)
    ensures q >= 128 ==> Shifted(q % 128, bitpos) % U32 == Shifted(q % 128, bitpos)
  {
    Weights();
    assert q == q % 128 + 128 * (q / 128);
    hide Weight;
  }

  lemma {:induction false} MoreRoundTrip(q: nat, bitpos: nat, result: nat, rest: Bytes)
    requires bitpos == 7 || bitpos == 14 || bitpos == 21 || bitpos == 28
    requires q >= 1 && Shifted(q, bitpos) < U32 && result < Weight(bitpos)
    ensures MoreVarint32(Varint(q) + rest, bitpos, result) == Some((result + Shifted(q, bitpos), rest))
    decreases q
  {
    hide *;
    SplitShift(q, bitpos);
    VarintStep(q, rest);
    if q < 128 {
      OrIsSum(result, q, bitpos);
      MoreStep(q, rest, bitpos, result);
    } else {
      OrIsSum(result, q % 128, bitpos);
      StaysBelow(result, q % 128, bitpos);
      MoreStep(128 + q % 128, Varint(q / 128) + rest, bitpos, result);
      MoreRoundTrip(q / 128, bitpos + 7, result + Shifted(q % 128, bitpos), rest);
    }
  }

  lemma WeightGrows(bitpos: nat)
    ensures Weight(bitpos + 4) == 16 * Weight(bitpos) && Weight(bitpos + 7) == 128 * Weight(bitpos)
  {
    assert Weight(bitpos + 2) == 4 * Weight(bitpos);
    assert Weight(bitpos + 4) == 4 * Weight(bitpos + 2);
    assert Weight(bitpos + 6) == 4 * Weight(bitpos + 4);
  }

  lemma StaysBelow(result: nat, bits: nat, bitpos: nat)
    requires result < Weight(bitpos) && bits < 128
    ensures result + Shifted(bits, bitpos) < Weight(bitpos + 7)
  {
    WeightGrows(bitpos);
    hide Weight;
    assert bits * Weight(bitpos) <= 127 * Weight(bitpos);
  }

  lemma VarintStep(q: nat, rest: Bytes)
    ensures q < 128 ==> Varint(q) + rest == [q] + rest
    ensures q >= 128 ==> Varint(q) + rest == [128 + q % 128] + (Varint(q / 128) + rest)
  {
  }

  /** One byte of the loop, while the position is within 32 bits. */
  lemma MoreStep(b: byte, tail: Bytes, bitpos: nat, result: nat)
    requires bitpos == 7 || bitpos == 14 || bitpos == 21 || bitpos == 28
    ensures b >= 128 ==>
              MoreVarint32([b] + tail, bitpos, result) ==
              MoreVarint32(tail, bitpos + 7, Or(result, Shifted(b - 128, bitpos) % U32))
    ensures b < 128 && (bitpos == 28 ==> b < 16) ==>
              MoreVarint32([b] + tail, bitpos, result) == Some((Or(result, Shifted(b, bitpos) % U32), tail))
  {
    hide Shifted, Or;
    assert ([b] + tail)[1..] == tail && ([b] + tail)[0] == b;
    assert b % 128 == if b >= 128 then b - 128 else b;
  }

  /** Every 32-bit value written by pb_encode_varint is read back, whatever follows. */
  lemma Varint32ReadsBack(v: nat, rest: Bytes)
    requires v < U32
    ensures DecodeVarint32(Varint(v) + rest) == Some((v, rest))
  {
    var input := Varint(v) + rest;
    if v < 128 {
      assert input[1..] == rest;
    } else {
      assert input[1..] == Varint(v / 128) + rest;
      assert input[0] == 128 + v % 128 && (128 + v % 128) % 128 == v % 128;
      Weights();
      assert Shifted(v / 128, 7) == 128 * (v / 128);
      MoreRoundTrip(v / 128, 7, v % 128, rest);
    }
  }

  /** A decoded value has 32 bits, whatever the input. */
  lemma Varint32InRange(input: Bytes)
    ensures DecodeVarint32(input).Some? ==> DecodeVarint32(input).value.0 < U32
  {
    if input != [] && input[0] >= 128 {
      MoreInRange(input[1..], 7, input[0] % 128);
    }
  }

  lemma {:induction false} MoreInRange(input: Bytes, bitpos: nat, result: nat)
    requires result < U32
    ensures MoreVarint32(input, bitpos, result).Some? ==> MoreVarint32(input, bitpos, result).value.0 < U32
    decreases |input|
  {
    hide Shifted, Or;
    if input != [] {
      var added := Shifted(input[0] % 128, bitpos) % U32;
      AllBits();
      OrInRange(result, added, 32);
      MoreInRange(input[1..], (bitpos + 7) % 256, result);
      MoreInRange(input[1..], (bitpos + 7) % 256, Or(result, added));
    }
  }

  lemma AllBits()
    ensures Weight(32) == U32
  {
    hide Weight;
    Weights();
    WeightGrows(28);
  }

  /** A negative 32-bit number, which the encoder widens to 64 bits before writing it, is read as its low 32 bits. */
  lemma SignExtendedReadsBack(v: int, rest: Bytes)
    requires -0x8000_0000 <= v < 0
    ensures DecodeVarint32(Varint(U64 + v) + rest) == Some((U32 + v, rest))
  {
    hide DecodeVarint32, MoreVarint32, Varint, Weight, Or;
    var n := U64 + v;
    Weights();
    VarintStep(n, rest);
    FirstByte(128 + n % 128, Varint(n / 128) + rest);
    WideRoundTrip(n / 128, 7, n % 128, rest);
  }

  lemma FirstByte(b: byte, tail: Bytes)
    requires b >= 128
    ensures DecodeVarint32([b] + tail) == MoreVarint32(tail, 7, b - 128)
  {
    hide MoreVarint32;
    assert ([b] + tail)[1..] == tail;
  }

  lemma {:induction false} WideRoundTrip(q: nat, bitpos: nat, result: nat, rest: Bytes)
    requires bitpos == 7 || bitpos == 14 || bitpos == 21 || bitpos == 28
    requires result < Weight(bitpos) && U64 - 0x8000_0000 <= result + Shifted(q, bitpos) < U64
    ensures MoreVarint32(Varint(q) + rest, bitpos, result) == Some((result + Shifted(q, bitpos) - U64 + U32, rest))
    decreases 28 - bitpos
  {
    hide *;
    WideShift(q, bitpos, result);
    VarintStep(q, rest);
    MoreStep(128 + q % 128, Varint(q / 128) + rest, bitpos, result);
    if bitpos < 28 {
      OrIsSum(result, q % 128, bitpos);
      StaysBelow(result, q % 128, bitpos);
      WideRoundTrip(q / 128, bitpos + 7, result + Shifted(q % 128, bitpos), rest);
    } else {
      OrIsSum(result, q % 16, bitpos);
      SignBytes(result + Shifted(q % 16, 28), rest);
    }
  }

  lemma WideShift(q: nat, bitpos: nat, result: nat)
    requires bitpos == 7 || bitpos == 14 || bitpos == 21 || bitpos == 28
    requires result < Weight(bitpos) && U64 - 0x8000_0000 <= result + Shifted(q, bitpos) < U64
    ensures q >= 128 && Shifted(q, bitpos) == Shifted(q % 128, bitpos) + Shifted(q / 128, bitpos + 7)
    ensures bitpos < 28 ==> Shifted(q % 128, bitpos) % U32 == Shifted(q % 128, bitpos)
    ensures bitpos == 28 ==>
              && Shifted(q % 128, 28) % U32 == Shifted(q % 16, 28) && q / 128 == 0x1FFF_FFFF
              && result + Shifted(q % 16, 28) == result + Shifted(q, 28) - U64 + U32 >= 0x8000_0000
  {
    hide Weight;
    Weights();
    WeightGrows(28);
    assert q == q % 128 + 128 * (q / 128);
    if bitpos == 28 {
      LastShift(q, result);
    }
  }

  lemma LastShift(q: nat, result: nat)
    requires result < 0x1000_0000 && U64 - 0x8000_0000 <= result + 0x1000_0000 * q < U64
    ensures 0x1000_0000 * (q % 128) % U32 == 0x1000_0000 * (q % 16) && q / 128 == 0x1FFF_FFFF
    ensures result + 0x1000_0000 * (q % 16) == result + 0x1000_0000 * q - U64 + U32 >= 0x8000_0000
  {
    assert q % 128 == q % 16 + 16 * (q % 128 / 16);
    assert q == q % 16 + 16 * (q / 16);
    ModIs(0x1000_0000 * (q % 128), U32, q % 128 / 16, 0x1000_0000 * (q % 16));
  }

  /** The bits above the 32nd: four full bytes and a last one. */
  lemma SignBytes(value: nat, rest: Bytes)
    requires value >= 0x8000_0000
    ensures MoreVarint32(Varint(0x1FFF_FFFF) + rest, 35, value) == Some((value, rest))
  {
    assert Varint(0x7FFF) == [0xFF, 0xFF, 0x01];
    assert Varint(0x1FFF_FFFF) == [0xFF, 0xFF, 0xFF, 0xFF, 0x01];
    var b := [0xFF, 0xFF, 0xFF, 0xFF, 0x01] + rest;
    assert b[1..][1..][1..][1..] == [0x01] + rest && b[1..][1..][1..][1..][1..] == rest;
    hide Shifted, Or;
    assert MoreVarint32(b[1..][1..][1..][1..], 63, value) == Some((value, rest));
    assert MoreVarint32(b[1..][1..][1..], 56, value) == Some((value, rest));
    assert MoreVarint32(b[1..][1..], 49, value) == Some((value, rest));
    assert MoreVarint32(b[1..], 42, value) == Some((value, rest));
  }

  // ----- signed integers -----

  /** A signed 64-bit value as the bits of an unsigned one. */
  function ToUnsigned(v: int): nat
    requires -0x8000_0000_0000_0000 <= v < 0x8000_0000_0000_0000
  {
    v % U64
  }

  /** The low bits of a value, read as a signed integer of that width. */
  function SignedLow(v: int, bits: nat): int
    requires bits == 8 || bits == 16 || bits == 32 || bits == 64
  {
    var m := WidthRange(bits);
    var low := v % m;
    if low >= m / 2 then low - m else low
  }

  function WidthRange(bits: nat): (m: nat)
    ensures m > 0
  {
    if bits == 8 then 0x100 else if bits == 16 then 0x1_0000 else if bits == 32 then U32 else U64
  }

  predicate InSigned(v: int, bits: nat) {
    -(WidthRange(bits) / 2) <= v < WidthRange(bits) / 2
  }

  predicate InUnsigned(v: int, bits: nat) {
    0 <= v < WidthRange(bits)
  }

  /** pb_encode_svarint: the value shifted left, complemented when it is negative, in 64 bits. */
  function ZigZag(v: int): nat
    requires InSigned(v, 64)
  {
    var doubled := 2 * v % U64;
    if v < 0 then U64 - 1 - doubled else doubled
  }

  /** pb_decode_svarint. */
  function UnZigZag(u: nat): int {
    if u % 2 == 1 then SignedLow(U64 - 1 - u / 2, 64) else SignedLow(u / 2, 64)
  }

  /** Zigzag maps small magnitudes to small numbers, alternating in sign. */
  lemma ZigZagIs(v: int)
    requires InSigned(v, 64)
    ensures ZigZag(v) == if v < 0 then -2 * v - 1 else 2 * v
    ensures ZigZag(v) < U64
  {
    if v < 0 {
      assert 2 * v % U64 == 2 * v + U64;
    }
  }

  lemma ZigZagReadsBack(v: int)
    requires InSigned(v, 64)
    ensures ZigZag(v) < U64 && UnZigZag(ZigZag(v)) == v
  {
    ZigZagIs(v);
    if v < 0 {
      assert ZigZag(v) / 2 == -v - 1;
    }
  }

  lemma LowOfSigned(v: int, bits: nat)
    requires (bits == 8 || bits == 16 || bits == 32 || bits == 64) && InSigned(v, bits)
    ensures SignedLow(v, bits) == v
  {
    var m := WidthRange(bits);
    SmallMod(v, m);
  }

  lemma SmallMod(v: int, m: int)
    requires m > 0 && -m <= v < m
    ensures v % m == if v < 0 then v + m else v
  {
  }

  lemma ModIs(x: int, m: int, q: int, r: int)
    requires 0 <= r < m && x == q * m + r
    ensures x % m == r
  {
    var d := q - x / m;
    assert x == x / m * m + x % m;
    assert d * m == q * m - x / m * m;
    NoSmallMultiple(d, m);
  }

  lemma NoSmallMultiple(d: int, m: int)
    requires m > 0 && -m < d * m < m
    ensures d == 0
  {
    MultipleAtLeast(d, m);
  }

  lemma MultipleAtLeast(d: int, m: int)
    requires m > 0
    ensures d >= 1 ==> d * m >= m
    ensures d <= -1 ==> d * m <= -m
  {
    if d >= 1 {
      assert d * m == (d - 1) * m + m;
    } else if d <= -1 {
      assert d * m == (d + 1) * m - m;
    }
  }

  /** Adding 2^64 does not change the low bits. */
  lemma LowOfShifted(v: int, bits: nat)
    requires bits == 8 || bits == 16 || bits == 32 || bits == 64
    ensures SignedLow(v + U64, bits) == SignedLow(v, bits)
  {
    var m := WidthRange(bits);
    var k := if bits == 8 then 0x100_0000_0000_0000 else if bits == 16 then 0x1_0000_0000_0000
             else if bits == 32 then U32 else 1;
    assert U64 == k * m;
    assert v + U64 == (v / m + k) * m + v % m by {
      assert v == v / m * m + v % m;
      assert (v / m + k) * m == v / m * m + k * m;
    }
    ModIs(v + U64, m, v / m + k, v % m);
  }

  lemma UnsignedReadsBack(v: int, bits: nat)
    requires bits == 8 || bits == 16 || bits == 32 || bits == 64
    requires InSigned(v, bits)
    ensures InSigned(v, 64) && ToUnsigned(v) < U64
    ensures SignedLow(ToUnsigned(v), bits) == v && SignedLow(v, bits) == v
    ensures bits != 64 ==> SignedLow(ToUnsigned(v), 32) == v
  {
    SmallMod(v, U64);
    LowOfSigned(v, bits);
    LowOfShifted(v, bits);
    if bits != 64 {
      LowOfSigned(v, 32);
      LowOfShifted(v, 32);
    }
    hide SignedLow;
  }

  // ----- tags -----

  function EncodeTag(tag: nat, w: WireType): Bytes {
    Varint(8 * tag + WireCode(w))
  }

  datatype Tag = Tag(number: nat, wire: WireType, rest: Bytes) | EndOfMessage(rest: Bytes) | BadTag

  /** pb_decode_tag on a stream that is not at its end; a zero byte ends the message. */
  function DecodeTag(input: Bytes): (r: Tag)
    ensures r.Tag? ==> |r.rest| < |input|
  {
    var v := DecodeVarint32(input);
    if v.None? then BadTag
    else if v.value.0 == 0 then EndOfMessage(v.value.1)
    else Tag(v.value.0 / 8, WireOf(v.value.0 % 8), v.value.1)
  }

  lemma TagReadsBack(tag: nat, w: WireType, rest: Bytes)
    requires 0 < tag < 0x2000_0000 && !w.BadWire?
    ensures DecodeTag(EncodeTag(tag, w) + rest) == Tag(tag, w, rest)
  {
    hide DecodeVarint32, Varint;
    Varint32ReadsBack(8 * tag + WireCode(w), rest);
  }
}
