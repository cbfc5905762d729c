/** Fixed and variable-length integers and length-prefixed strings (util/coding.h, util/coding.cc). */
module Coding {
  import opened Wrappers

  const U32: nat := 0x1_0000_0000
  const U64: nat := 0x1_0000_0000_0000_0000

  type u32 = x: int | 0 <= x < 0x1_0000_0000
  type u64 = x: int | 0 <= x < 0x1_0000_0000_0000_0000

  // ----- fixed-length integers, lowest byte first -----

  function EncodeFixed32(v: u32): (r: Bytes)
    ensures |r| == 4
  {
    var a: nat, b: nat, c: nat := v / 256, v / 65536, v / 16777216;
    [v % 256, a % 256, b % 256, c]
  }

  function DecodeFixed32(b: Bytes): u32
    requires |b| >= 4
  {
    var b0: nat, b1: nat, b2: nat, b3: nat := b[0], b[1], b[2], b[3];
    b0 + b1 * 256 + b2 * 65536 + b3 * 16777216
  }

  lemma Fixed32RoundTrip(v: u32)
    ensures DecodeFixed32(EncodeFixed32(v)) == v
  {
    assert v / 65536 == v / 256 / 256 && v / 16777216 == v / 65536 / 256;
  }

  function EncodeFixed64(v: u64): (r: Bytes)
    ensures |r| == 8
  {
    var low: u32, high: nat := v % U32, v / U32;
    EncodeFixed32(low) + EncodeFixed32(high)
  }

  function DecodeFixed64(b: Bytes): nat
    requires |b| >= 8
  {
    var low: nat, high: nat := DecodeFixed32(b), DecodeFixed32(b[4..]);
    low + high * U32
  }

  lemma Fixed64RoundTrip(v: u64, rest: Bytes)
    ensures DecodeFixed64(EncodeFixed64(v) + rest) == v
  {
    var low: u32, high: u32 := v % U32, v / U32;
    var b := EncodeFixed64(v) + rest;
    assert b[..4] == EncodeFixed32(low) && b[4..][..4] == EncodeFixed32(high);
    Fixed32RoundTrip(low);
    Fixed32RoundTrip(high);
    Fixed32Prefix(b);
    Fixed32Prefix(b[4..]);
  }

  lemma Fixed32Prefix(b: Bytes)
    requires |b| >= 4
    ensures DecodeFixed32(b) == DecodeFixed32(b[..4])
  {
  }

  // ----- variable-length integers -----

  /** Groups of seven bits, lowest first; the high bit says that more follow. */
  function Varint(v: nat): (r: Bytes)
    ensures |r| > 0
  {
    if v < 128 then [v] else [128 + v % 128] + Varint(v / 128)
  }

  function Pow128(n: nat): (p: nat)
    ensures p > 0
  {
    if n == 0 then 1 else 128 * Pow128(n - 1)
  }

  function Times(a: nat, b: nat): nat {
    a * b
  }

  /** What is left of x in a word of the given size. */
  function Low(x: nat, modulus: nat): nat
    requires modulus > 0
  {
    x % modulus
  }

  lemma LowFits(x: nat, modulus: nat)
    requires x < modulus
    ensures Low(x, modulus) == x
  {
  }

  /** The decoding loops: at most `left` more bytes, the next one of the given weight; bits beyond the modulus are
      dropped. */
  function GetVarintFrom(input: Bytes, left: nat, weight: nat, modulus: nat, result: nat): Option<(nat, Bytes)>
    requires modulus > 0
    decreases left
  {
    if left == 0 || input == [] then None
    else
      var r := result + Low(Times(input[0] % 128, weight), modulus);
      if input[0] >= 128 then GetVarintFrom(input[1..], left - 1, 128 * weight, modulus, r) else Some((r, input[1..]))
  }

  function GetVarint32(input: Bytes): (r: Option<(nat, Bytes)>)
    ensures r.Some? ==> |r.value.1| < |input|
  {
    VarintConsumes(input, 5, 1, U32, 0);
    GetVarintFrom(input, 5, 1, U32, 0)
  }

  function GetVarint64(input: Bytes): (r: Option<(nat, Bytes)>)
    ensures r.Some? ==> |r.value.1| < |input|
  {
    VarintConsumes(input, 10, 1, U64, 0);
    GetVarintFrom(input, 10, 1, U64, 0)
  }

  lemma {:induction false} VarintRoundTripFrom(v: nat, rest: Bytes, left: nat, weight: nat, modulus: nat, result: nat)
    requires Times(v, weight) < modulus <= Times(weight, Pow128(left)) && left > 0 && weight > 0
    ensures GetVarintFrom(Varint(v) + rest, left, weight, modulus, result) == Some((result + Times(v, weight), rest))
    decreases v
  {
    hide Times, Pow128, Low;
    var input := Varint(v) + rest;
    if v < 128 {
      assert input[1..] == rest;
      assert v % 128 == v;
      LowFits(Times(v, weight), modulus);
    } else {
      assert input[1..] == Varint(v / 128) + rest;
      assert input[0] == 128 + v % 128;
      SplitWeight(v, weight, left);
      LowFits(Times(v % 128, weight), modulus);
      VarintRoundTripFrom(v / 128, rest, left - 1, 128 * weight, modulus, result + Times(v % 128, weight));
    }
  }

  lemma SplitWeight(v: nat, weight: nat, left: nat)
    requires v >= 128 && left > 0 && weight > 0 && Times(v, weight) < Times(weight, Pow128(left))
    ensures Times(v, weight) == Times(v % 128, weight) + Times(v / 128, 128 * weight)
    ensures left > 1 && Times(weight, Pow128(left)) == Times(128 * weight, Pow128(left - 1))
  {
    hide *;
    SplitProduct(v / 128, v % 128, weight);
    assert 128 * (v / 128) + v % 128 == v;
    MoreThan(v, 128, weight);
    NextPower(left);
    Reorder(weight, Pow128(left - 1));
  }

  lemma SplitProduct(q: nat, r: nat, weight: nat)
    ensures Times(128 * q + r, weight) == Times(r, weight) + Times(q, 128 * weight)
  {
    assert (128 * q + r) * weight == 128 * q * weight + r * weight;
    assert 128 * q * weight == q * (128 * weight);
  }

  lemma MoreThan(a: nat, b: nat, weight: nat)
    requires a >= b
    ensures Times(a, weight) >= Times(weight, b)
  {
    assert a * weight == b * weight + (a - b) * weight;
  }

  lemma NextPower(left: nat)
    requires left > 0
    ensures Pow128(left) == 128 * Pow128(left - 1) && (left == 1 ==> Pow128(left) == 128)
  {
  }

  lemma Reorder(weight: nat, p: nat)
    ensures Times(weight, 128 * p) == Times(128 * weight, p)
  {
    assert weight * (128 * p) == 128 * weight * p;
  }

  lemma Varint32RoundTrip(v: nat, rest: Bytes)
    requires v < U32
    ensures GetVarint32(Varint(v) + rest) == Some((v, rest))
  {
    assert Pow128(5) == 34359738368;
    VarintRoundTripFrom(v, rest, 5, 1, U32, 0);
  }

  lemma Varint64RoundTrip(v: nat, rest: Bytes)
    requires v < U64
    ensures GetVarint64(Varint(v) + rest) == Some((v, rest))
  {
    assert Pow128(5) == 34359738368;
    assert Pow128(10) == 1180591620717411303424;
    VarintRoundTripFrom(v, rest, 10, 1, U64, 0);
  }

  lemma VarintStep(n: nat)
    ensures Varint(n) == if n < 128 then [n as byte] else [128 + n % 128] + Varint(n / 128)
  {
  }

  /** EncodeVarint32, case by case as the code has it. */
  method EncodeVarint32(v: u32) returns (r: Bytes)
    ensures r == Varint(v)
  {
    hide Varint;
    var n: nat := v;
    VarintStep(n);
    VarintStep(n / 0x80);
    VarintStep(n / 0x4000);
    VarintStep(n / 0x20_0000);
    VarintStep(n / 0x1000_0000);
    if n < 0x80 {
      r := [n];
    } else if n < 0x4000 {
      r := [128 + n % 128, n / 0x80];
    } else if n < 0x20_0000 {
      r := [128 + n % 128, 128 + n / 0x80 % 128, n / 0x4000];
    } else if n < 0x1000_0000 {
      r := [128 + n % 128, 128 + n / 0x80 % 128, 128 + n / 0x4000 % 128, n / 0x20_0000];
    } else {
      r := [128 + n % 128, 128 + n / 0x80 % 128, 128 + n / 0x4000 % 128, 128 + n / 0x20_0000 % 128, n / 0x1000_0000];
    }
  }

  method EncodeVarint64(v: u64) returns (r: Bytes)
    ensures r == Varint(v)
  {
    r := [];
    var n: nat := v;
    while n >= 128
      invariant r + Varint(n) == Varint(v)
    {
      r, n := r + [128 + n % 128], n / 128;
    }
    r := r + [n];
  }

  // ----- length-prefixed strings -----

  function LengthPrefixed(s: Bytes): Bytes {
    Varint(|s|) + s
  }

  function GetLengthPrefixed(input: Bytes): (r: Option<(Bytes, Bytes)>)
    ensures r.Some? ==> |r.value.1| < |input|
  {
    var r := GetVarint32(input);
    if r.None? || |r.value.1| < r.value.0 then None else Some((r.value.1[..r.value.0], r.value.1[r.value.0..]))
  }

  lemma {:induction false} VarintConsumes(input: Bytes, left: nat, weight: nat, modulus: nat, result: nat)
    requires modulus > 0
    ensures var r := GetVarintFrom(input, left, weight, modulus, result);
            r.Some? ==> |r.value.1| < |input| && r.value.1 == input[|input| - |r.value.1|..]
    decreases left
  {
    if left > 0 && input != [] && input[0] >= 128 {
      VarintConsumes(input[1..], left - 1, 128 * weight, modulus, result + Low(Times(input[0] % 128, weight), modulus));
    }
  }

  lemma LengthPrefixedRoundTrip(s: Bytes, rest: Bytes)
    requires |s| < U32
    ensures GetLengthPrefixed(LengthPrefixed(s) + rest) == Some((s, rest))
  {
    assert LengthPrefixed(s) + rest == Varint(|s|) + (s + rest);
    Varint32RoundTrip(|s|, s + rest);
    assert (s + rest)[..|s|] == s && (s + rest)[|s|..] == rest;
  }

  /** A varint, or a length-prefixed string, that is cut off is never read as a shorter one. */
  lemma {:induction false} CutVarint(v: nat, n: nat, left: nat, weight: nat, modulus: nat, result: nat)
    requires modulus > 0 && n < |Varint(v)|
    ensures GetVarintFrom(Varint(v)[..n], left, weight, modulus, result) == None
    decreases v
  {
    hide Low, Times;
    var input := Varint(v)[..n];
    if n > 0 && left > 0 {
      VarintStep(v);
      assert input[1..] == Varint(v / 128)[..n - 1];
      CutVarint(v / 128, n - 1, left - 1, 128 * weight, modulus, result + Low(Times(input[0] % 128, weight), modulus));
    }
  }

  lemma CutPrefixed(s: Bytes, n: nat)
    requires |s| < U32 && n < |LengthPrefixed(s)|
    ensures GetLengthPrefixed(LengthPrefixed(s)[..n]) == None
  {
    hide Varint;
    var size := Varint(|s|);
    if n < |size| {
      CutVarint(|s|, n, 5, 1, U32, 0);
      assert LengthPrefixed(s)[..n] == size[..n];
    } else {
      Varint32RoundTrip(|s|, s[..n - |size|]);
      assert LengthPrefixed(s)[..n] == size + s[..n - |size|];
    }
  }

  // ----- what the encodings are -----

  /** The lowest byte comes first. */
  lemma LowestByteFirst(v: u32, w: u64)
    ensures var b := EncodeFixed32(v);
            b[0] as int + 0x100 * b[1] as int + 0x1_0000 * b[2] as int + 0x100_0000 * b[3] as int == v
    ensures EncodeFixed64(w)[..4] == EncodeFixed32(w % 0x1_0000_0000)
    ensures EncodeFixed64(w)[4..] == EncodeFixed32(w / 0x1_0000_0000)
  {
    Fixed32RoundTrip(v);
  }

  /** Byte i holds the i-th group of seven bits; all bytes but the last have the high bit; and there are no more bytes
      than the value needs. */
  lemma {:induction false} VarintIs(v: nat, i: nat)
    requires i < |Varint(v)|
    ensures Varint(v)[i] % 128 == SevenBits(v, i) && (Varint(v)[i] >= 128 <==> i < |Varint(v)| - 1)
    ensures v > 0 ==> SevenBits(v, |Varint(v)| - 1) > 0
    decreases v
  {
    if v >= 128 {
      VarintIs(v / 128, if i == 0 then 0 else i - 1);
    }
  }

  /** v shifted right by 7 * i bits, and the lowest seven of what is left. */
  function SevenBits(v: nat, i: nat): nat {
    if i == 0 then v % 128 else SevenBits(v / 128, i - 1)
  }
}
