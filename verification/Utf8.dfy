/** UTF-8 decoding of one code point at a time (idna.c). Bit operations on disjoint bit fields are written as
    arithmetic. The decoder does not look for the end of the bytes inside a sequence; the position after the code
    point is what tells its callers that the sequence was cut off. */
module Utf8 {
  import opened Wrappers

  predicate IsScalar(c: nat) {
    c < 0xD800 || 0xE000 <= c <= 0x10FFFF
  }

  /** The UTF-8 form of a scalar value. */
  function Encode(c: nat): Bytes
    requires IsScalar(c)
  {
    if c < 0x80 then [c]
    else if c < 0x800 then [0xC0 + c / 64, 0x80 + c % 64]
    else if c < 0x10000 then [0xE0 + c / 4096, 0x80 + c / 64 % 64, 0x80 + c % 64]
    else [0xF0 + c / 262144, 0x80 + c / 4096 % 64, 0x80 + c / 64 % 64, 0x80 + c % 64]
  }

  function EncodeAll(cps: seq<nat>): Bytes
    requires forall i | 0 <= i < |cps| :: IsScalar(cps[i])
  {
    if cps == [] then [] else Encode(cps[0]) + EncodeAll(cps[1..])
  }

  /** The top two bits of b ^ c ^ d are 10. */
  predicate TopBitsAre10(b: byte, c: byte, d: byte) {
    (b / 128 + c / 128 + d / 128) % 2 == 1 && (b / 64 % 2 + c / 64 % 2 + d / 64 % 2) % 2 == 0
  }

  function Combine(a: nat, b: byte, c: byte, d: byte, min: nat): Option<nat> {
    if !TopBitsAre10(b, c, d) then None
    else
      var v := a * 262144 + b % 64 * 4096 + c % 64 * 64 + d % 64;
      if v < min || v > 0x10FFFF || 0xD800 <= v <= 0xDFFF then None else Some(v)
  }

  /** uv__utf8_decode1: the code point at p, if valid, and the position after it. That position is past the end for
      a sequence that is cut off; the value is then of no use to any caller, and None here. */
  function DecodeOne(s: Bytes, p: nat): (r: (Option<nat>, nat))
    requires p < |s|
    ensures p < r.1
    ensures r.0.Some? ==> IsScalar(r.0.value) && r.1 <= |s|
  {
    var a := s[p];
    if a < 128 then (Some(a), p + 1)
    else if a > 0xF7 then (None, p + 1)
    else if a > 0xEF then
      (if p + 4 > |s| then None else Combine(a % 8, s[p + 1], s[p + 2], s[p + 3], 0x10000), p + 4)
    else if a > 0xDF then
      (if p + 3 > |s| then None else Combine(0, 0x80 + a % 16, s[p + 1], s[p + 2], 0x800), p + 3)
    else if a > 0xBF then
      (if p + 2 > |s| then None else Combine(0, 0x80, 0x80 + a % 32, s[p + 1], 0x80), p + 2)
    else (None, p + 1)
  }

  /** The condition of a foreach_codepoint loop. */
  predicate HasNext(s: Bytes, p: nat) {
    p < |s| && DecodeOne(s, p).1 <= |s|
  }

  /** What the foreach_codepoint loops visit from p on: every code point, or None if some sequence is invalid. A
      sequence cut off by the end of the bytes is skipped in silence. */
  function DecodeFrom(s: Bytes, p: nat): (r: Option<seq<nat>>)
    requires p <= |s|
    ensures r.Some? ==> |r.value| <= |s| - p && forall c | c in r.value :: IsScalar(c)
    decreases |s| - p
  {
    if !HasNext(s, p) then Some([])
    else
      var (c, next) := DecodeOne(s, p);
      if c.None? then None
      else
        var rest := DecodeFrom(s, next);
        if rest.None? then None else Some([c.value] + rest.value)
  }

  lemma DecodeEncoded(c: nat, before: Bytes, after: Bytes)
    requires IsScalar(c)
    ensures DecodeOne(before + Encode(c) + after, |before|) == (Some(c), |before| + |Encode(c)|)
  {
    if c < 0x80 {
    } else if c < 0x800 {
      DecodeTwo(c, before + Encode(c) + after, |before|);
    } else if c < 0x10000 {
      DecodeThree(c, before + Encode(c) + after, |before|);
    } else {
      DecodeFour(c, before + Encode(c) + after, |before|);
    }
  }

  lemma DecodeTwo(c: nat, s: Bytes, p: nat)
    requires 0x80 <= c < 0x800 && p + 2 <= |s| && s[p] == 0xC0 + c / 64 && s[p + 1] == 0x80 + c % 64
    ensures DecodeOne(s, p) == (Some(c), p + 2)
  {
    assert s[p] % 32 == c / 64;
    TopBitsOk(0, c / 64, c % 64);
  }

  lemma DecodeThree(c: nat, s: Bytes, p: nat)
    requires 0x800 <= c < 0x10000 && IsScalar(c) && p + 3 <= |s|
    requires s[p] == 0xE0 + c / 4096 && s[p + 1] == 0x80 + c / 64 % 64 && s[p + 2] == 0x80 + c % 64
    ensures DecodeOne(s, p) == (Some(c), p + 3)
  {
    ThreeParts(c);
    assert s[p] % 16 == c / 4096;
    TopBitsOk(c / 4096, c / 64 % 64, c % 64);
    hide TopBitsAre10, DecodeFrom;
  }

  lemma DecodeFour(c: nat, s: Bytes, p: nat)
    requires 0x10000 <= c <= 0x10FFFF && p + 4 <= |s|
    requires s[p] == 0xF0 + c / 262144 && s[p + 1] == 0x80 + c / 4096 % 64 && s[p + 2] == 0x80 + c / 64 % 64
    requires s[p + 3] == 0x80 + c % 64
    ensures DecodeOne(s, p) == (Some(c), p + 4)
  {
    FourParts(c);
    assert s[p] % 8 == c / 262144;
    TopBitsOk(c / 4096 % 64, c / 64 % 64, c % 64);
  }

  lemma TopBitsOk(x: nat, y: nat, z: nat)
    requires x < 64 && y < 64 && z < 64
    ensures TopBitsAre10(0x80 + x, 0x80 + y, 0x80 + z)
    ensures (0x80 + x) % 64 == x && (0x80 + y) % 64 == y && (0x80 + z) % 64 == z
  {
  }

  lemma ThreeParts(c: nat)
    ensures c == c / 4096 * 4096 + c / 64 % 64 * 64 + c % 64
  {
    assert c / 4096 == c / 64 / 64;
  }

  lemma FourParts(c: nat)
    ensures c == c / 262144 * 262144 + c / 4096 % 64 * 4096 + c / 64 % 64 * 64 + c % 64
  {
    ThreeParts(c);
    assert c / 262144 == c / 4096 / 64;
  }

  /** Decoding inverts encoding, for every sequence of scalar values. */
  lemma {:induction false} DecodeInvertsEncode(cps: seq<nat>, before: Bytes)
    requires forall i | 0 <= i < |cps| :: IsScalar(cps[i])
    ensures DecodeFrom(before + EncodeAll(cps), |before|) == Some(cps)
    decreases |cps|
  {
    if cps == [] {
      assert before + [] == before;
    } else {
      var e := Encode(cps[0]);
      var rest := EncodeAll(cps[1..]);
      DecodeEncoded(cps[0], before, rest);
      assert before + (e + rest) == before + e + rest;
      DecodeInvertsEncode(cps[1..], before + e);
      var s := before + e + rest;
      assert DecodeOne(s, |before|) == (Some(cps[0]), |before + e|) && |before + e| <= |s| && |before| < |s|;
      assert [cps[0]] + cps[1..] == cps;
    }
  }

  // ---------- What is accepted, and what of it is UTF-8 ----------

  ghost predicate AllScalar(cps: seq<nat>) {
    forall i | 0 <= i < |cps| :: IsScalar(cps[i])
  }

  /** How many bytes a first byte announces. */
  function Announced(a: byte): nat {
    if a < 0xC0 || a > 0xF7 then 1 else if a < 0xE0 then 2 else if a < 0xF0 then 3 else 4
  }

  predicate IsContinuation(b: byte) {
    b / 64 == 2
  }

  function Value2(a: byte, b: byte): nat {
    a % 32 * 64 + b % 64
  }

  function Value3(a: byte, b: byte, c: byte): nat {
    a % 16 * 4096 + b % 64 * 64 + c % 64
  }

  function Value4(a: byte, b: byte, c: byte, d: byte): nat {
    a % 8 * 262144 + b % 64 * 4096 + c % 64 * 64 + d % 64
  }

  /** The bytes from p on start with the UTF-8 form of c. */
  predicate FormAt(s: Bytes, p: nat, c: nat)
    requires IsScalar(c)
  {
    p + |Encode(c)| <= |s| && s[p..p + |Encode(c)|] == Encode(c)
  }

  lemma TopBitsAgree(b: byte, c: byte, d: byte)
    ensures IsContinuation(b) ==> (TopBitsAre10(b, c, d) <==> c / 64 == d / 64)
    ensures IsContinuation(b) && IsContinuation(c) ==> (TopBitsAre10(b, c, d) <==> IsContinuation(d))
  {
    assert b / 128 == b / 64 / 2 && c / 128 == c / 64 / 2 && d / 128 == d / 64 / 2;
  }

  /** A two-byte sequence is accepted exactly when it is well-formed. */
  lemma TwoBytesAcceptedIff(s: Bytes, p: nat)
    requires p + 2 <= |s| && 0xC0 <= s[p] < 0xE0
    ensures var c := Value2(s[p], s[p + 1]);
            && DecodeOne(s, p).1 == p + 2
            && (DecodeOne(s, p).0 == if IsContinuation(s[p + 1]) && c >= 0x80 then Some(c) else None)
            && (DecodeOne(s, p).0.Some? <==> IsScalar(c) && FormAt(s, p, c))
  {
    var a, b := s[p], s[p + 1];
    TopBitsAgree(0x80, 0x80 + a % 32, b);
    assert s[p..p + 2] == [a, b];
    assert a == 0xC0 + a % 32 && b == b / 64 * 64 + b % 64;
    var c := Value2(a, b);
    assert c / 64 == a % 32 && c % 64 == b % 64 && c < 0x800;
  }

  /** A three-byte sequence is accepted exactly when the top bits of its last two bytes agree and its value is in
      range; and it is then well-formed exactly when they are continuation bytes. */
  lemma ThreeBytesAcceptedIff(s: Bytes, p: nat)
    requires p + 3 <= |s| && 0xE0 <= s[p] < 0xF0
    ensures var c := Value3(s[p], s[p + 1], s[p + 2]);
            var inRange := c >= 0x800 && !(0xD800 <= c <= 0xDFFF);
            && DecodeOne(s, p).1 == p + 3
            && (DecodeOne(s, p).0 == if s[p + 1] / 64 == s[p + 2] / 64 && inRange then Some(c) else None)
            && (IsScalar(c) && FormAt(s, p, c) <==> IsContinuation(s[p + 1]) && IsContinuation(s[p + 2]) && inRange)
  {
    var a, b, d := s[p], s[p + 1], s[p + 2];
    TopBitsAgree(0x80 + a % 16, b, d);
    assert (0x80 + a % 16) % 64 == a % 16;
    assert s[p..p + 3] == [a, b, d];
    assert a == 0xE0 + a % 16;
    ThreeDigits(a % 16, b % 64, d % 64);
    ContinuationParts(b);
    ContinuationParts(d);
    hide TopBitsAre10;
  }

  /** A four-byte sequence is accepted exactly when the exclusive or of the three top bit pairs is 10 and its value
      is in range; and it is then well-formed exactly when all three are continuation bytes. */
  lemma FourBytesAcceptedIff(s: Bytes, p: nat)
    requires p + 4 <= |s| && 0xF0 <= s[p] <= 0xF7
    ensures var c := Value4(s[p], s[p + 1], s[p + 2], s[p + 3]);
            var inRange := 0x10000 <= c <= 0x10FFFF;
            && DecodeOne(s, p).1 == p + 4
            && (DecodeOne(s, p).0 == if TopBitsAre10(s[p + 1], s[p + 2], s[p + 3]) && inRange then Some(c) else None)
            && (IsScalar(c) && FormAt(s, p, c) <==>
                IsContinuation(s[p + 1]) && IsContinuation(s[p + 2]) && IsContinuation(s[p + 3]) && inRange)
  {
    hide *;
    FourBytesDecoded(s, p);
    FourBytesForm(s, p);
  }

  lemma FourBytesDecoded(s: Bytes, p: nat)
    requires p + 4 <= |s| && 0xF0 <= s[p] <= 0xF7
    ensures var c := Value4(s[p], s[p + 1], s[p + 2], s[p + 3]);
            DecodeOne(s, p) ==
              (if TopBitsAre10(s[p + 1], s[p + 2], s[p + 3]) && 0x10000 <= c <= 0x10FFFF then Some(c) else None, p + 4)
  {
    hide TopBitsAre10;
  }

  lemma FourBytesForm(s: Bytes, p: nat)
    requires p + 4 <= |s| && 0xF0 <= s[p] <= 0xF7
    ensures var c := Value4(s[p], s[p + 1], s[p + 2], s[p + 3]);
            IsScalar(c) && FormAt(s, p, c) <==>
            && IsContinuation(s[p + 1]) && IsContinuation(s[p + 2]) && IsContinuation(s[p + 3])
            && 0x10000 <= c <= 0x10FFFF
  {
    hide *;
    var a, b, d, e := s[p], s[p + 1], s[p + 2], s[p + 3];
    var c := Value4(a, b, d, e);
    Value4Parts(a, b, d, e);
    ContinuationParts(b);
    ContinuationParts(d);
    ContinuationParts(e);
    if 0x10000 <= c <= 0x10FFFF {
      LongForm(s, p, c);
    } else if IsScalar(c) && FormAt(s, p, c) {
      ShortForm(s, p, c);
    }
  }

  lemma Value4Parts(a: byte, b: byte, d: byte, e: byte)
    requires 0xF0 <= a <= 0xF7
    ensures var c := Value4(a, b, d, e);
            a == 0xF0 + c / 262144 && b % 64 == c / 4096 % 64 && d % 64 == c / 64 % 64 && e % 64 == c % 64
  {
    FourDigits(a % 8, b % 64, d % 64, e % 64);
  }

  lemma LongForm(s: Bytes, p: nat, c: nat)
    requires p + 4 <= |s| && 0x10000 <= c <= 0x10FFFF
    ensures IsScalar(c)
    ensures FormAt(s, p, c) <==>
            && s[p] == 0xF0 + c / 262144 && s[p + 1] == 0x80 + c / 4096 % 64
            && s[p + 2] == 0x80 + c / 64 % 64 && s[p + 3] == 0x80 + c % 64
  {
    assert s[p..p + 4] == [s[p], s[p + 1], s[p + 2], s[p + 3]];
  }

  lemma ShortForm(s: Bytes, p: nat, c: nat)
    requires p < |s| && s[p] >= 0xF0 && IsScalar(c) && FormAt(s, p, c)
    ensures 0x10000 <= c <= 0x10FFFF
  {
    assert s[p..p + |Encode(c)|][0] == s[p];
  }

  lemma ContinuationParts(b: byte)
    ensures IsContinuation(b) <==> b == 0x80 + b % 64
  {
  }

  lemma ThreeDigits(x: nat, y: nat, z: nat)
    requires y < 64 && z < 64
    ensures var c := x * 4096 + y * 64 + z; c / 4096 == x && c / 64 % 64 == y && c % 64 == z && c / 64 == x * 64 + y
  {
    var c := x * 4096 + y * 64 + z;
    assert c == (x * 64 + y) * 64 + z;
    assert c / 64 == x * 64 + y;
  }

  lemma FourDigits(w: nat, x: nat, y: nat, z: nat)
    requires x < 64 && y < 64 && z < 64
    ensures var c := w * 262144 + x * 4096 + y * 64 + z;
            c / 262144 == w && c / 4096 % 64 == x && c / 64 % 64 == y && c % 64 == z
  {
    ThreeDigits(w * 64 + x, y, z);
    assert (w * 64 + x) / 64 == w && (w * 64 + x) % 64 == x;
    var c := w * 262144 + x * 4096 + y * 64 + z;
    assert c == (w * 64 + x) * 4096 + y * 64 + z;
    assert c / 262144 == c / 4096 / 64;
  }

  /** Every byte after a first byte is a continuation byte, as far as the sequence goes. */
  predicate ContinuedAt(s: Bytes, p: nat)
    requires p < |s|
  {
    p + Announced(s[p]) <= |s| && forall k | p < k < p + Announced(s[p]) :: IsContinuation(s[k])
  }

  /** What an accepted sequence still needs to be well-formed. */
  lemma AcceptedIsFormIff(s: Bytes, p: nat)
    requires p < |s| && DecodeOne(s, p).0.Some?
    ensures var c := DecodeOne(s, p).0.value;
            && DecodeOne(s, p).1 == p + Announced(s[p])
            && (ContinuedAt(s, p) <==> FormAt(s, p, c) && |Encode(c)| == Announced(s[p]))
  {
    var a := s[p];
    if a < 0x80 {
      assert s[p..p + 1] == [a];
    } else if a < 0xE0 {
      TwoBytesAcceptedIff(s, p);
      Within(s, p, 2);
    } else if a < 0xF0 {
      ThreeBytesAcceptedIff(s, p);
      Within(s, p, 3);
    } else {
      FourBytesAcceptedIff(s, p);
      Within(s, p, 4);
    }
  }

  lemma Within(s: Bytes, p: nat, n: nat)
    requires p + n <= |s| && 2 <= n <= 4
    ensures (forall k | p < k < p + n :: IsContinuation(s[k])) <==>
            IsContinuation(s[p + 1]) && (n > 2 ==> IsContinuation(s[p + 2])) && (n > 3 ==> IsContinuation(s[p + 3]))
  {
  }

  /** From p on, every announced continuation byte is there and is one; in particular the last sequence is whole. */
  predicate Continued(s: Bytes, p: nat)
    requires p <= |s|
    decreases |s| - p
  {
    p == |s| || (ContinuedAt(s, p) && Continued(s, p + Announced(s[p])))
  }

  ghost predicate IsUtf8(s: Bytes) {
    exists cps :: AllScalar(cps) && s == EncodeAll(cps)
  }

  lemma {:induction false} AcceptedIsUtf8Iff(s: Bytes, p: nat, cps: seq<nat>)
    requires p <= |s|
    ensures DecodeFrom(s, p) == Some(cps) && Continued(s, p) <==> AllScalar(cps) && s[p..] == EncodeAll(cps)
    decreases |s| - p
  {
    hide DecodeOne, FormAt, ContinuedAt;
    if AllScalar(cps) && s[p..] == EncodeAll(cps) {
      DecodeInvertsEncode(cps, s[..p]);
      assert s[..p] + s[p..] == s;
      EncodedIsContinued(s, p, cps);
    }
    if DecodeFrom(s, p) == Some(cps) && Continued(s, p) && p < |s| {
      ContinuedEnds(s, p);
      var (c, next) := DecodeOne(s, p);
      var rest := DecodeFrom(s, next);
      AcceptedIsFormIff(s, p);
      AcceptedIsUtf8Iff(s, next, rest.value);
      FormThenRest(s, p, c.value);
      assert cps == [c.value] + rest.value && cps[1..] == rest.value;
    }
  }

  lemma FormThenRest(s: Bytes, p: nat, c: nat)
    requires IsScalar(c) && FormAt(s, p, c)
    ensures p + |Encode(c)| <= |s| && s[p..] == Encode(c) + s[p + |Encode(c)|..]
  {
  }

  lemma ContinuedEnds(s: Bytes, p: nat)
    requires p < |s| && Continued(s, p) && DecodeFrom(s, p).Some?
    ensures HasNext(s, p) && DecodeOne(s, p).0.Some? && ContinuedAt(s, p)
  {
  }

  lemma FormIsContinued(s: Bytes, p: nat, c: nat)
    requires IsScalar(c) && FormAt(s, p, c)
    ensures p < |s| && Announced(s[p]) == |Encode(c)| && ContinuedAt(s, p)
  {
    var e := Encode(c);
    assert s[p] == e[0];
    forall k | p < k < p + |e|
      ensures IsContinuation(s[k])
    {
      assert s[k] == e[k - p];
    }
  }

  lemma FirstPart(s: Bytes, p: nat, e: Bytes, rest: Bytes)
    requires p <= |s| && s[p..] == e + rest
    ensures p + |e| <= |s| && s[p..p + |e|] == e && s[p + |e|..] == rest
  {
    assert s[p..p + |e|] == s[p..][..|e|] && s[p + |e|..] == s[p..][|e|..];
  }

  lemma {:induction false} EncodedIsContinued(s: Bytes, p: nat, cps: seq<nat>)
    requires p <= |s| && AllScalar(cps) && s[p..] == EncodeAll(cps)
    ensures Continued(s, p)
    decreases |cps|
  {
    hide Encode, IsContinuation, ContinuedAt, Announced;
    if cps != [] {
      var e, rest := Encode(cps[0]), EncodeAll(cps[1..]);
      FirstPart(s, p, e, rest);
      FormIsContinued(s, p, cps[0]);
      EncodedIsContinued(s, p + |e|, cps[1..]);
    }
  }

  /** A label that decodes is UTF-8 exactly when its continuation bytes are all there and are such. */
  lemma DecodedIsUtf8Iff(s: Bytes, cps: seq<nat>)
    ensures DecodeFrom(s, 0) == Some(cps) && Continued(s, 0) <==> AllScalar(cps) && s == EncodeAll(cps)
  {
    assert s[0..] == s;
    AcceptedIsUtf8Iff(s, 0, cps);
  }

  /** Of the labels whose continuation bytes are in order, exactly the UTF-8 ones decode, and to their code points. */
  lemma ContinuedDecodesIff(s: Bytes)
    ensures IsUtf8(s) <==> DecodeFrom(s, 0).Some? && Continued(s, 0)
    ensures IsUtf8(s) ==> AllScalar(DecodeFrom(s, 0).value) && s == EncodeAll(DecodeFrom(s, 0).value)
  {
    if DecodeFrom(s, 0).Some? {
      DecodedIsUtf8Iff(s, DecodeFrom(s, 0).value);
    }
    if cps :| AllScalar(cps) && s == EncodeAll(cps) {
      DecodedIsUtf8Iff(s, cps);
    }
  }

  /** A sequence cut off by the end of the bytes is dropped, whatever its bytes are. */
  lemma CutOffIsDropped(cps: seq<nat>, tail: Bytes)
    requires AllScalar(cps) && 0 < |tail| < Announced(tail[0])
    ensures DecodeFrom(EncodeAll(cps) + tail, 0) == Some(cps)
    ensures !Continued(EncodeAll(cps) + tail, 0)
  {
    hide *;
    CutOffAfter([], cps, tail);
    assert [] + EncodeAll(cps) + tail == EncodeAll(cps) + tail;
  }

  lemma {:induction false} CutOffAfter(before: Bytes, cps: seq<nat>, tail: Bytes)
    requires AllScalar(cps) && 0 < |tail| < Announced(tail[0])
    ensures DecodeFrom(before + EncodeAll(cps) + tail, |before|) == Some(cps)
    ensures !Continued(before + EncodeAll(cps) + tail, |before|)
    decreases |cps|
  {
    hide Encode, EncodeAll, DecodeOne, DecodeFrom, HasNext, Continued, ContinuedAt, IsScalar, Announced;
    var s := before + EncodeAll(cps) + tail;
    if cps == [] {
      NothingBetween(before, tail);
      CutOffAtOnce(s, |before|);
    } else {
      var e, rest := Encode(cps[0]), EncodeAll(cps[1..]) + tail;
      DecodeEncoded(cps[0], before, rest);
      EncodedFirst(before, cps, tail);
      CutOffAfter(before + e, cps[1..], tail);
      OneBefore(s, |before|, cps, |e|);
    }
  }

  lemma NothingBetween(before: Bytes, tail: Bytes)
    requires tail != []
    ensures EncodeAll([]) == []
    ensures var s := before + EncodeAll([]) + tail; |s| == |before| + |tail| && s[|before|] == tail[0]
  {
    assert EncodeAll([]) == [];
    assert before + [] == before;
  }

  lemma CutOffAtOnce(s: Bytes, p: nat)
    requires p < |s| < p + Announced(s[p])
    ensures DecodeFrom(s, p) == Some([]) && !Continued(s, p)
  {
    hide Combine;
    assert !HasNext(s, p) && !ContinuedAt(s, p);
  }

  lemma EncodedFirst(before: Bytes, cps: seq<nat>, tail: Bytes)
    requires cps != [] && AllScalar(cps)
    ensures var e, more := Encode(cps[0]), EncodeAll(cps[1..]);
            before + EncodeAll(cps) + tail == before + e + (more + tail) == before + e + more + tail
  {
    hide Encode;
    var e, more := Encode(cps[0]), EncodeAll(cps[1..]);
    assert EncodeAll(cps) == e + more;
    Regrouped(before, e, more, tail);
  }

  lemma Regrouped(a: Bytes, b: Bytes, c: Bytes, d: Bytes)
    ensures a + (b + c) + d == a + b + (c + d) == a + b + c + d
  {
  }

  lemma OneBefore(s: Bytes, p: nat, cps: seq<nat>, n: nat)
    requires p < |s| && cps != [] && DecodeOne(s, p) == (Some(cps[0]), p + n) && p + n <= |s|
    requires DecodeFrom(s, p + n) == Some(cps[1..]) && !Continued(s, p + n)
    ensures DecodeFrom(s, p) == Some(cps) && !Continued(s, p)
  {
    hide DecodeOne, ContinuedAt, FormAt, Announced;
    AcceptedIsFormIff(s, p);
    assert [cps[0]] + cps[1..] == cps;
  }

  /** The xor test accepts a sequence whose two continuation bytes are both wrong. */
  lemma SomeMalformedSequencesPass(s: Bytes, p: nat)
    requires p + 3 <= |s| && s[p] == 0xE1 && s[p + 1] == 0x41 && s[p + 2] == 0x41
    ensures DecodeOne(s, p) == (Some(0x1041), p + 3) && !FormAt(s, p, 0x1041)
  {
    hide *;
    ThreeBytesAcceptedIff(s, p);
    WrongTopBits();
  }

  lemma WrongTopBits()
    ensures Value3(0xE1, 0x41, 0x41) == 0x1041 && IsScalar(0x1041) && !IsContinuation(0x41)
  {
  }
}
