/** Punycode as in RFC 3492: the decoder of section 6.2 with the bias adaptation of section 6.1, and the
    generalized variable-length integers of section 3.3. This is the specification that the label encoder of
    idna.c is proved against. */
module Punycode {
  import opened Wrappers

  const BASE: nat := 36
  const TMIN: nat := 1
  const TMAX: nat := 26
  const SKEW: nat := 38
  const DAMP: nat := 700
  const INITIAL_BIAS: nat := 72
  const INITIAL_N: nat := 128
  const DELIMITER: byte := 45

  /** The letters a-z are 0 to 25, the digits 0-9 are 26 to 35. */
  function DigitOf(value: nat): byte
    requires value < BASE
  {
    if value < 26 then 97 + value else 48 + (value - 26)
  }

  function ValueOf(c: byte): Option<nat> {
    if 97 <= c <= 122 then Some(c - 97)
    else if 65 <= c <= 90 then Some(c - 65)
    else if 48 <= c <= 57 then Some(c - 48 + 26)
    else None
  }

  function Threshold(k: nat, bias: nat): (t: nat)
    ensures TMIN <= t <= TMAX
  {
    if k <= bias + TMIN then TMIN else if k >= bias + TMAX then TMAX else k - bias
  }

  /** Section 6.1. */
  function Adapt(delta: nat, numPoints: nat, first: bool): nat
    requires numPoints > 0
  {
    var d := if first then delta / DAMP else delta / 2;
    AdaptLoop(d + Quotient(d, numPoints), 0)
  }

  function AdaptLoop(delta: nat, k: nat): nat {
    if delta > ((BASE - TMIN) * TMAX) / 2 then AdaptLoop(delta / (BASE - TMIN), k + BASE)
    else k + Quotient((BASE - TMIN + 1) * delta, delta + SKEW)
  }

  /** Division by a variable, kept apart from the proofs that do not depend on it. */
  function Quotient(a: nat, b: nat): nat
    requires b > 0
  {
    a / b
  }

  function Times(a: nat, b: nat): nat {
    a * b
  }

  lemma TimesPlus(a: nat, b: nat, len: nat)
    ensures Times(a + b, len) == Times(a, len) + Times(b, len)
    ensures Times(1, len) == len
  {
  }

  // ----- variable-length integers -----

  function EncodeInt(q: nat, k: nat, bias: nat): seq<byte>
    decreases q
  {
    var t := Threshold(k, bias);
    if q < t then [DigitOf(q)]
    else
      DivideStep(q, t);
      [DigitOf(t + (q - t) % (BASE - t))] + EncodeInt((q - t) / (BASE - t), k + BASE, bias)
  }

  lemma DivideStep(q: nat, t: nat)
    requires TMIN <= t <= TMAX && t <= q
    ensures 0 <= (q - t) % (BASE - t) < BASE - t
    ensures 0 <= (q - t) / (BASE - t) < q
    ensures q - t == (q - t) / (BASE - t) * (BASE - t) + (q - t) % (BASE - t)
  {
    var m: nat, x: nat := BASE - t, (q - t) / (BASE - t);
    assert q - t == x * m + (q - t) % m;
    AtLeastTenfold(x, m);
  }

  lemma AtLeastTenfold(x: nat, m: nat)
    requires m >= 10
    ensures x * m >= 10 * x
  {
    assert x * m == 10 * x + x * (m - 10);
  }

  /** The inner loop of section 6.2: read digits until one is below its threshold. */
  function DecodeInt(input: seq<byte>, bias: nat, i: nat, w: nat, k: nat): Option<(nat, seq<byte>)> {
    if input == [] then None
    else
      var digit := ValueOf(input[0]);
      if digit.None? then None
      else
        var i' := i + Times(digit.value, w);
        var t := Threshold(k, bias);
        if digit.value < t then Some((i', input[1..]))
        else DecodeInt(input[1..], bias, i', Times(w, BASE - t), k + BASE)
  }

  lemma DigitRoundTrip(value: nat)
    requires value < BASE
    ensures ValueOf(DigitOf(value)) == Some(value)
    ensures DigitOf(value) != DELIMITER
  {
  }

  /** Reading back an encoded integer, at any weight, whatever follows. */
  lemma {:induction false} IntRoundTrip(q: nat, k: nat, bias: nat, i: nat, w: nat, rest: seq<byte>)
    ensures DecodeInt(EncodeInt(q, k, bias) + rest, bias, i, w, k) == Some((i + Times(q, w), rest))
    decreases q
  {
    hide Times;
    var t := Threshold(k, bias);
    if q < t {
      LastDigit(q, rest, bias, i, w, k);
    } else {
      DivideStep(q, t);
      var x, y := (q - t) / (BASE - t), (q - t) % (BASE - t);
      IntRoundTrip(x, k + BASE, bias, i + Times(t + y, w), Times(w, BASE - t), rest);
      EncodeStep(q, k, bias, x, y);
      hide *;
      SplitWeight(q, t, x, y, w);
      FirstDigit(t + y, EncodeInt(x, k + BASE, bias), rest, bias, i, w, k);
    }
  }

  lemma LastDigit(q: nat, rest: seq<byte>, bias: nat, i: nat, w: nat, k: nat)
    requires q < Threshold(k, bias)
    ensures DecodeInt(EncodeInt(q, k, bias) + rest, bias, i, w, k) == Some((i + Times(q, w), rest))
  {
    hide Times;
    DigitRoundTrip(q);
    assert ([DigitOf(q)] + rest)[1..] == rest;
  }

  lemma EncodeStep(q: nat, k: nat, bias: nat, x: nat, y: nat)
    requires var t := Threshold(k, bias); q >= t && x == (q - t) / (BASE - t) && y == (q - t) % (BASE - t)
    ensures Threshold(k, bias) + y < BASE
    ensures EncodeInt(q, k, bias) == [DigitOf(Threshold(k, bias) + y)] + EncodeInt(x, k + BASE, bias)
  {
    DivideStep(q, Threshold(k, bias));
  }

  lemma FirstDigit(v: nat, tail: seq<byte>, rest: seq<byte>, bias: nat, i: nat, w: nat, k: nat)
    requires Threshold(k, bias) <= v < BASE
    ensures DecodeInt([DigitOf(v)] + tail + rest, bias, i, w, k)
         == DecodeInt(tail + rest, bias, i + Times(v, w), Times(w, BASE - Threshold(k, bias)), k + BASE)
  {
    hide Times;
    DigitRoundTrip(v);
    assert ([DigitOf(v)] + tail + rest)[1..] == tail + rest;
  }

  lemma SplitWeight(q: nat, t: nat, x: nat, y: nat, w: nat)
    requires t <= q && t < BASE && q - t == x * (BASE - t) + y
    ensures Times(t + y, w) + Times(x, Times(w, BASE - t)) == Times(q, w)
  {
    assert x * (w * (BASE - t)) == (x * (BASE - t)) * w;
    assert (t + y) * w + (x * (BASE - t)) * w == (t + y + x * (BASE - t)) * w;
  }

  // ----- the decoder -----

  datatype Decoder = Decoder(n: nat, i: nat, bias: nat, output: seq<nat>)

  /** One insertion: i has wrapped around the output, carrying into n. */
  function Insert(d: Decoder, i: nat): Decoder {
    var len := |d.output| + 1;
    var n := d.n + i / len;
    var pos := i % len;
    Decoder(n, pos + 1, if i >= d.i then Adapt(i - d.i, len, d.i == 0) else d.bias,
            d.output[..pos] + [n] + d.output[pos..])
  }

  lemma {:induction false} DecodeIntConsumes(input: seq<byte>, bias: nat, i: nat, w: nat, k: nat)
    ensures var r := DecodeInt(input, bias, i, w, k); r.Some? ==> |r.value.1| < |input| && r.value.0 >= i
    decreases |input|
  {
    hide Times;
    if input != [] && ValueOf(input[0]).Some? {
      var digit, t := ValueOf(input[0]).value, Threshold(k, bias);
      if digit >= t {
        DecodeIntConsumes(input[1..], bias, i + Times(digit, w), Times(w, BASE - t), k + BASE);
      }
    }
  }

  /** The main loop: the decoder after consuming all of the input. */
  function Run(d: Decoder, input: seq<byte>): Option<Decoder>
    decreases |input|
  {
    if input == [] then Some(d)
    else
      var r := DecodeInt(input, d.bias, d.i, 1, BASE);
      DecodeIntConsumes(input, d.bias, d.i, 1, BASE);
      if r.None? then None else Run(Insert(d, r.value.0), r.value.1)
  }

  function LastDelimiter(input: seq<byte>): Option<nat> {
    if input == [] then None
    else if input[|input| - 1] == DELIMITER then Some(|input| - 1)
    else LastDelimiter(input[..|input| - 1])
  }

  predicate AllBasic(input: seq<byte>) {
    forall k | 0 <= k < |input| :: input[k] < 128
  }

  /** Section 6.2. */
  function Decode(input: seq<byte>): Option<seq<nat>> {
    var b := LastDelimiter(input);
    LastDelimiterInside(input);
    var basic := if b.Some? then input[..b.value] else [];
    var digits := if b.Some? && b.value > 0 then input[b.value + 1..] else input;
    if !AllBasic(basic) then None
    else
      var r := Run(Decoder(INITIAL_N, 0, INITIAL_BIAS, basic), digits);
      if r.None? then None else Some(r.value.output)
  }

  lemma {:induction false} LastDelimiterInside(input: seq<byte>)
    ensures LastDelimiter(input).Some? ==> LastDelimiter(input).value < |input|
    decreases |input|
  {
    if input != [] {
      LastDelimiterInside(input[..|input| - 1]);
    }
  }

  lemma {:induction false} LastDelimiterIs(front: seq<byte>, digits: seq<byte>)
    requires DELIMITER !in digits
    ensures LastDelimiter(front + [DELIMITER] + digits) == Some(|front|)
    decreases |digits|
  {
    var all := front + [DELIMITER] + digits;
    if digits == [] {
      assert all[|all| - 1] == DELIMITER;
    } else {
      var n := |digits| - 1;
      assert all[..|all| - 1] == front + [DELIMITER] + digits[..n];
      LastDelimiterIs(front, digits[..n]);
      assert digits[n] in digits;
    }
  }

  lemma {:induction false} NoDelimiter(digits: seq<byte>)
    requires DELIMITER !in digits
    ensures LastDelimiter(digits) == None
    decreases |digits|
  {
    if digits != [] {
      assert digits[|digits| - 1] in digits;
      NoDelimiter(digits[..|digits| - 1]);
    }
  }

  // ----- running over a concatenation -----

  lemma {:induction false} DecodeIntAppend(input: seq<byte>, more: seq<byte>, bias: nat, i: nat, w: nat, k: nat)
    requires DecodeInt(input, bias, i, w, k).Some?
    ensures var r := DecodeInt(input, bias, i, w, k).value;
            DecodeInt(input + more, bias, i, w, k) == Some((r.0, r.1 + more))
    decreases |input|
  {
    assert (input + more)[1..] == input[1..] + more;
    hide Times;
    var digit, t := ValueOf(input[0]).value, Threshold(k, bias);
    if digit >= t {
      DecodeIntAppend(input[1..], more, bias, i + Times(digit, w), Times(w, BASE - t), k + BASE);
    }
  }

  /** After `input` the decoder is in state e; one more encoded delta makes it insert at e.i + delta. */
  lemma {:induction false} RunOneMore(d: Decoder, input: seq<byte>, e: Decoder, delta: nat)
    requires Run(d, input) == Some(e)
    ensures Run(d, input + EncodeInt(delta, BASE, e.bias)) == Some(Insert(e, e.i + delta))
    decreases |input|
  {
    var code := EncodeInt(delta, BASE, e.bias);
    if input == [] {
      assert input + code == code == code + [];
      IntRoundTrip(delta, BASE, e.bias, e.i, 1, []);
    } else {
      var r := DecodeInt(input, d.bias, d.i, 1, BASE).value;
      DecodeIntConsumes(input, d.bias, d.i, 1, BASE);
      DecodeIntAppend(input, code, d.bias, d.i, 1, BASE);
      RunOneMore(Insert(d, r.0), r.1, e, delta);
    }
  }

  // ----- two labels written out -----

  /** The one delta of "bcher-kva", and the three of "4ca0bs". */
  lemma KnownDeltas()
    ensures EncodeInt(745, 36, 72) == [107, 118, 97]
    ensures EncodeInt(100, 36, 72) == [52, 99, 97] && EncodeInt(36, 36, 0) == [48, 98] && EncodeInt(18, 36, 14) == [115]
  {
    hide EncodeInt;
    EncodeLast(0, 108, 72);
    EncodeStep(21, 72, 72, 0, 20);
    EncodeStep(745, 36, 72, 21, 9);
    EncodeStep(2, 72, 72, 0, 1);
    EncodeStep(100, 36, 72, 2, 29);
    EncodeLast(1, 72, 0);
    EncodeStep(36, 36, 0, 1, 0);
    EncodeLast(18, 36, 14);
  }

  lemma EncodeLast(q: nat, k: nat, bias: nat)
    requires q < Threshold(k, bias)
    ensures EncodeInt(q, k, bias) == [DigitOf(q)]
  {
  }

  lemma KnownBiases()
    ensures Adapt(100, 1, true) == 0 && Adapt(36, 2, false) == 14
  {
    assert Quotient(0, 1) == 0 && Quotient(18, 2) == 9;
    assert AdaptLoop(0, 0) == 0 && AdaptLoop(27, 0) == 14;
  }

  lemma DecodesBehind(front: seq<byte>, digits: seq<byte>, e: Decoder)
    requires front != [] && DELIMITER !in digits && AllBasic(front)
    requires Run(Decoder(INITIAL_N, 0, INITIAL_BIAS, front), digits) == Some(e)
    ensures Decode(front + [DELIMITER] + digits) == Some(e.output)
  {
    hide Run, AllBasic, LastDelimiter;
    var input := front + [DELIMITER] + digits;
    LastDelimiterIs(front, digits);
    assert input[..|front|] == front && input[|front| + 1..] == digits;
  }

  lemma DecodesWithBasics()
    ensures Decode([98, 99, 104, 101, 114, 45, 107, 118, 97]) == Some([98, 252, 99, 104, 101, 114])
  {
    hide Run, EncodeInt, Adapt, DecodeInt, LastDelimiter, Decode;
    var basics: seq<byte>, digits: seq<byte> := [98, 99, 104, 101, 114], [107, 118, 97];
    KnownDeltas();
    var start := Decoder(128, 0, 72, basics);
    RunsOutAt(start);
    RunOneMore(start, [], start, 745);
    assert [] + digits == digits;
    assert Insert(start, 745).output == [98, 252, 99, 104, 101, 114];
    DecodesBehind(basics, digits, Insert(start, 745));
    assert basics + [DELIMITER] + digits == [98, 99, 104, 101, 114, 45, 107, 118, 97];
  }

  lemma DecodesAlone(digits: seq<byte>, e: Decoder)
    requires DELIMITER !in digits && Run(Decoder(INITIAL_N, 0, INITIAL_BIAS, []), digits) == Some(e)
    ensures Decode(digits) == Some(e.output)
  {
    hide Run, LastDelimiter;
    NoDelimiter(digits);
  }

  lemma KnownInserts()
    ensures Insert(Decoder(128, 0, 72, []), 100) == Decoder(228, 1, 0, [228])
    ensures Insert(Decoder(228, 1, 0, [228]), 37) == Decoder(246, 2, 14, [228, 246])
    ensures Insert(Decoder(246, 2, 14, [228, 246]), 20).output == [228, 246, 252]
  {
    hide Adapt;
    KnownBiases();
  }

  lemma DecodesWithoutBasics()
    ensures Decode([52, 99, 97, 48, 98, 115]) == Some([228, 246, 252])
  {
    hide Decode, Run, EncodeInt, Adapt, DecodeInt, LastDelimiter, Insert;
    KnownDeltas();
    KnownInserts();
    var d0, d1, d2 := Decoder(128, 0, 72, []), Decoder(228, 1, 0, [228]), Decoder(246, 2, 14, [228, 246]);
    var first: seq<byte>, second: seq<byte>, third: seq<byte> := [52, 99, 97], [48, 98], [115];
    RunsOutAt(d0);
    RunOneMore(d0, [], d0, 100);
    assert [] + first == first;
    RunOneMore(d0, first, d1, 36);
    RunOneMore(d0, first + second, d2, 18);
    DecodesAlone(first + second + third, Insert(d2, 20));
    assert first + second + third == [52, 99, 97, 48, 98, 115];
  }

  lemma RunsOutAt(d: Decoder)
    ensures Run(d, []) == Some(d)
  {
  }
}
