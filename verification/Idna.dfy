/** uv__idna_toascii_label (idna.c): a UTF-8 label to its ASCII form, with the 32-bit overflow checks and the bounded
    output buffer of the code. */
module Idna {
  import opened Wrappers
  import opened Punycode
  import Utf8

  const U32: nat := 0x1_0000_0000

  /** The char** d, char* de pair. `sent` is everything the code tried to write; what did not fit is lost. */
  class Output {
    const buffer: array<byte>
    var d: nat
    ghost var sent: Bytes

    ghost predicate Valid()
      reads this, buffer
    {
      d <= buffer.Length && d <= |sent| && buffer[..d] == sent[..d] && (d < buffer.Length ==> d == |sent|)
    }

    constructor (buffer: array<byte>)
      ensures Valid() && sent == [] && this.buffer == buffer
    {
      this.buffer, d, sent := buffer, 0, [];
    }

    method Put(c: byte)
      requires Valid()
      modifies this, buffer
      ensures Valid() && sent == old(sent) + [c]
    {
      if d < buffer.Length {
        buffer[d] := c;
        d := d + 1;
      }
      sent := sent + [c];
    }
  }

  /** The elements below a bound, in order. */
  function Keep(cps: seq<nat>, bound: nat): seq<nat> {
    if cps == [] then []
    else
      var last := |cps| - 1;
      Keep(cps[..last], bound) + if cps[last] < bound then [cps[last]] else []
  }

  lemma {:induction false} KeepAppend(a: seq<nat>, b: seq<nat>, bound: nat)
    ensures Keep(a + b, bound) == Keep(a, bound) + Keep(b, bound)
    decreases |b|
  {
    if b == [] {
      assert a + b == a;
    } else {
      var last := |b| - 1;
      assert (a + b)[..|a + b| - 1] == a + b[..last];
      KeepAppend(a, b[..last], bound);
    }
  }

  lemma {:induction false} KeepSame(cps: seq<nat>, n: nat, m: nat)
    requires n <= m && forall c | c in cps :: c < n || m <= c
    ensures Keep(cps, n) == Keep(cps, m)
  {
    if cps != [] {
      var front := cps[..|cps| - 1];
      assert cps[|cps| - 1] in cps;
      assert forall c | c in front :: c in cps;
      KeepSame(front, n, m);
    }
  }

  lemma {:induction false} KeepAll(cps: seq<nat>, n: nat)
    ensures |Keep(cps, n)| <= |cps|
    ensures |Keep(cps, n)| == |cps| <==> forall c | c in cps :: c < n
    ensures |Keep(cps, n)| == |cps| ==> Keep(cps, n) == cps
    ensures forall c | c in Keep(cps, n) :: c < n
  {
    if cps != [] {
      var last := |cps| - 1;
      KeepAll(cps[..last], n);
      assert cps == cps[..last] + [cps[last]];
      assert forall c | c in cps[..last] :: c in cps;
      assert |Keep(cps, n)| == |Keep(cps[..last], n)| + if cps[last] < n then 1 else 0;
      assert cps[last] in cps;
      assert forall c | c in cps :: c in cps[..last] || c == cps[last];
    }
  }

  lemma KeepStep(cps: seq<nat>, j: nat, n: nat)
    requires j < |cps|
    ensures Keep(cps[..j + 1], n) == Keep(cps[..j], n) + if cps[j] < n then [cps[j]] else []
    ensures Keep(cps[j..], n) == (if cps[j] < n then [cps[j]] else []) + Keep(cps[j + 1..], n)
  {
    assert cps[..j + 1][..j] == cps[..j];
    assert cps[j..] == [cps[j]] + cps[j + 1..];
    KeepAppend([cps[j]], cps[j + 1..], n);
    assert [cps[j]][..0] == [];
  }

  // ----- what the sweeps keep -----

  /** The code points handled when a sweep for n has reached position j: those up to n before j, those below n after. */
  function Placed(cps: seq<nat>, n: nat, j: nat): seq<nat>
    requires j <= |cps|
  {
    Keep(cps[..j], n + 1) + Keep(cps[j..], n)
  }

  /** A decoder that has read `code` has rebuilt exactly the code points handled so far, and delta counts the
      insertion positions passed since its last insertion. */
  ghost predicate Synced(cps: seq<nat>, basics: seq<nat>, code: Bytes, e: Decoder, n: nat, j: nat, st: Progress)
    requires j <= |cps|
  {
    && Run(Decoder(INITIAL_N, 0, INITIAL_BIAS, basics), code) == Some(e)
    && e.output == Placed(cps, n, j)
    && e.bias == st.bias && (st.first <==> e.i == 0) && e.n <= n
    && st.h == |e.output|
    && st.delta + e.i == Times(n - e.n, st.h + 1) + |Keep(cps[..j], n + 1)|
    && AreDigits(code)
  }

  /** Only a-z and 0-9. */
  predicate AreDigits(code: Bytes) {
    forall k | 0 <= k < |code| :: 97 <= code[k] <= 122 || 48 <= code[k] <= 57
  }

  /** The variables h, delta, bias and first. */
  datatype Progress = Progress(h: nat, delta: nat, bias: nat, first: bool)

  lemma {:induction false} EncodeIntClean(q: nat, k: nat, bias: nat)
    ensures AreDigits(EncodeInt(q, k, bias))
    decreases q
  {
    var t := Threshold(k, bias);
    if q < t {
      DigitRoundTrip(q);
    } else {
      DivideStep(q, t);
      DigitRoundTrip(t + (q - t) % (BASE - t));
      EncodeIntClean((q - t) / (BASE - t), k + BASE, bias);
    }
  }

  /** Writing one delta: the decoder inserts n exactly where it stands in the label. */
  lemma EmitKeepsSynced(cps: seq<nat>, basics: seq<nat>, code: Bytes, e: Decoder, n: nat, j: nat, st: Progress)
    requires j < |cps| && cps[j] == n && Synced(cps, basics, code, e, n, j, st)
    ensures Synced(cps, basics, code + EncodeInt(st.delta, BASE, st.bias), Insert(e, e.i + st.delta), n, j + 1,
                   Progress(st.h + 1, 0, Adapt(st.delta, st.h + 1, st.first), false))
  {
    hide *;
    var left := Keep(cps[..j], n + 1);
    SyncedParts(cps, basics, code, e, n, j, st);
    RunOneMore(Decoder(INITIAL_N, 0, INITIAL_BIAS, basics), code, e, st.delta);
    EncodeIntClean(st.delta, BASE, st.bias);
    PlacedStep(cps, n, j);
    InsertAt(e, e.i + st.delta, n - e.n, |left|);
    TimesZero(st.h + 2);
    CleanConcat(code, EncodeInt(st.delta, BASE, st.bias));
    AssembleSynced(cps, basics, code + EncodeInt(st.delta, BASE, st.bias), Insert(e, e.i + st.delta), n, j + 1,
                   Progress(st.h + 1, 0, Adapt(st.delta, st.h + 1, st.first), false));
  }

  lemma SyncedParts(cps: seq<nat>, basics: seq<nat>, code: Bytes, e: Decoder, n: nat, j: nat, st: Progress)
    requires j <= |cps| && Synced(cps, basics, code, e, n, j, st)
    ensures Run(Decoder(INITIAL_N, 0, INITIAL_BIAS, basics), code) == Some(e)
    ensures e.output == Placed(cps, n, j) && e.bias == st.bias && (st.first <==> e.i == 0) && e.n <= n
    ensures st.h == |e.output| && st.delta + e.i == Times(n - e.n, st.h + 1) + |Keep(cps[..j], n + 1)|
    ensures AreDigits(code)
  {
  }

  lemma AssembleSynced(cps: seq<nat>, basics: seq<nat>, code: Bytes, e: Decoder, n: nat, j: nat, st: Progress)
    requires j <= |cps| && Run(Decoder(INITIAL_N, 0, INITIAL_BIAS, basics), code) == Some(e)
    requires e.output == Placed(cps, n, j) && e.bias == st.bias && (st.first <==> e.i == 0) && e.n <= n
    requires st.h == |e.output| && st.delta + e.i == Times(n - e.n, st.h + 1) + |Keep(cps[..j], n + 1)|
    requires AreDigits(code)
    ensures Synced(cps, basics, code, e, n, j, st)
  {
  }

  lemma CleanConcat(a: Bytes, b: Bytes)
    requires AreDigits(a) && AreDigits(b)
    ensures AreDigits(a + b)
  {
  }

  lemma PlacedStep(cps: seq<nat>, n: nat, j: nat)
    requires j < |cps| && cps[j] == n
    ensures var pos := |Keep(cps[..j], n + 1)|;
            && pos <= |Placed(cps, n, j)| && |Keep(cps[..j + 1], n + 1)| == pos + 1
            && Placed(cps, n, j + 1) == Placed(cps, n, j)[..pos] + [n] + Placed(cps, n, j)[pos..]
  {
    var left, right := Keep(cps[..j], n + 1), Keep(cps[j..], n);
    KeepStep(cps, j, n + 1);
    KeepStep(cps, j, n);
    hide Keep;
    assert (left + right)[..|left|] == left && (left + right)[|left|..] == right;
  }

  lemma TimesZero(len: nat)
    ensures Times(0, len) == 0
  {
  }

  lemma InsertAt(d: Decoder, i: nat, x: nat, pos: nat)
    requires pos <= |d.output| && i == Times(x, |d.output| + 1) + pos && i >= d.i
    ensures Insert(d, i) == Decoder(d.n + x, pos + 1, Adapt(i - d.i, |d.output| + 1, d.i == 0),
                                    d.output[..pos] + [d.n + x] + d.output[pos..])
  {
    DivideExactly(x, |d.output| + 1, pos);
  }

  lemma DivideExactly(x: nat, len: nat, pos: nat)
    requires pos < len
    ensures (x * len + pos) / len == x && (x * len + pos) % len == pos
  {
    var v := x * len + pos;
    assert v == v / len * len + v % len;
    UniqueQuotient(v / len, v % len, x, pos, len);
  }

  lemma UniqueQuotient(q: nat, r: nat, x: nat, pos: nat, len: nat)
    requires r < len && pos < len && q * len + r == x * len + pos
    ensures q == x && r == pos
  {
    if q < x {
      QuotientOrder(q, r, x, pos, len);
    } else if x < q {
      QuotientOrder(x, pos, q, r, len);
    }
  }

  lemma QuotientOrder(q: nat, r: nat, x: nat, pos: nat, len: nat)
    requires q < x && r < len
    ensures q * len + r < x * len + pos
  {
    AtLeastOnce(x - q, len);
    assert (x - q) * len == x * len - q * len;
  }

  lemma AtLeastOnce(k: nat, len: nat)
    requires k >= 1
    ensures k * len >= len
  {
    assert k * len == (k - 1) * len + len;
  }

  /** Passing over a code point that is not n. */
  lemma PassKeepsSynced(cps: seq<nat>, basics: seq<nat>, code: Bytes, e: Decoder, n: nat, j: nat, st: Progress)
    requires j < |cps| && cps[j] != n && Synced(cps, basics, code, e, n, j, st)
    ensures Synced(cps, basics, code, e, n, j + 1, st.(delta := st.delta + if cps[j] < n then 1 else 0))
  {
    KeepStep(cps, j, n + 1);
    KeepStep(cps, j, n);
  }

  /** The end of a sweep. */
  lemma NextKeepsSynced(cps: seq<nat>, basics: seq<nat>, code: Bytes, e: Decoder, n: nat, st: Progress)
    requires Synced(cps, basics, code, e, n, |cps|, st)
    ensures Synced(cps, basics, code, e, n + 1, 0, st.(delta := st.delta + 1))
  {
    assert cps[..|cps|] == cps == cps[0..];
    TimesPlus(n - e.n, 1, st.h + 1);
  }

  /** Skipping to the next code point that occurs. */
  lemma SkipKeepsSynced(cps: seq<nat>, basics: seq<nat>, code: Bytes, e: Decoder, n: nat, m: nat, st: Progress)
    requires Synced(cps, basics, code, e, n, 0, st) && n <= m && forall c | c in cps :: c < n || m <= c
    ensures Synced(cps, basics, code, e, m, 0, st.(delta := st.delta + Times(m - n, st.h + 1)))
  {
    KeepSame(cps, n, m);
    assert cps[0..] == cps;
    TimesPlus(n - e.n, m - n, st.h + 1);
  }

  // ----- when a delta does not fit in 32 bits -----

  /** How many code points below n stand before the first n. */
  function Ahead(cps: seq<nat>, n: nat): nat {
    if cps == [] || cps[0] == n then 0 else (if cps[0] < n then 1 else 0) + Ahead(cps[1..], n)
  }

  /** How many code points below n stand after the last n. */
  function Behind(cps: seq<nat>, n: nat): nat
    decreases |cps|
  {
    if cps == [] || cps[|cps| - 1] == n then 0
    else Behind(cps[..|cps| - 1], n) + if cps[|cps| - 1] < n then 1 else 0
  }

  /** k and n are neighbours in the order of the code points above ASCII; 127 stands before the first of them. */
  ghost predicate Neighbours(cps: seq<nat>, k: nat, n: nat) {
    127 <= k < n && n in cps && (k > 127 ==> k in cps) && forall c | c in cps :: c <= k || n <= c
  }

  /** The places passed between the last k and the end of the label, and the step to k + 1. */
  function Carry(cps: seq<nat>, k: nat): nat {
    if k > 127 then Behind(cps, k) + 1 else 0
  }

  /** The delta of the first n: all places for the values between k and n, and those before the first n. */
  function FirstDelta(cps: seq<nat>, k: nat, n: nat): nat
    requires k < n
  {
    Carry(cps, k) + Times(n - k - 1, |Keep(cps, n)| + 1) + Ahead(cps, n)
  }

  ghost predicate TooBigAt(cps: seq<nat>, k: nat, n: nat) {
    Neighbours(cps, k, n) && FirstDelta(cps, k, n) >= 0x1_0000_0000
  }

  ghost predicate DeltaTooBig(cps: seq<nat>) {
    exists k: nat, n: nat :: TooBigAt(cps, k, n)
  }

  ghost predicate FitsBelow(cps: seq<nat>, n: nat) {
    forall k: nat, m: nat | m < n :: !TooBigAt(cps, k, m)
  }

  lemma AheadStep(cps: seq<nat>, j: nat, n: nat)
    requires j < |cps|
    ensures Ahead(cps[j..], n) == if cps[j] == n then 0 else (if cps[j] < n then 1 else 0) + Ahead(cps[j + 1..], n)
    ensures Behind(cps[..j + 1], n) == if cps[j] == n then 0 else Behind(cps[..j], n) + if cps[j] < n then 1 else 0
  {
    assert cps[j..][1..] == cps[j + 1..] && cps[..j + 1][..j] == cps[..j];
  }

  lemma AheadEnds(cps: seq<nat>, n: nat)
    ensures cps[0..] == cps[..|cps|] == cps && Behind(cps[..0], n) == 0
  {
  }

  /** Nothing is between the neighbours, so one round more fits. */
  lemma FitsMore(cps: seq<nat>, n0: nat, n: nat)
    requires FitsBelow(cps, n0) && 0 < n0 < n && Neighbours(cps, n0 - 1, n - 1) && !TooBigAt(cps, n0 - 1, n - 1)
    ensures FitsBelow(cps, n)
  {
    hide FirstDelta;
  }

  lemma NothingFits(cps: seq<nat>)
    ensures FitsBelow(cps, 128)
  {
  }

  lemma AllFit(cps: seq<nat>, n: nat)
    requires FitsBelow(cps, n) && |Keep(cps, n)| == |cps|
    ensures !DeltaTooBig(cps)
  {
    KeepAll(cps, n);
  }

  // ----- the loops over the label -----

  /** A loop over the bytes of the label stands at p, which is code point j. */
  ghost predicate At(s: Bytes, p: nat, cps: seq<nat>, j: nat) {
    p <= |s| && j <= |cps| && Utf8.DecodeFrom(s, p) == Some(cps[j..])
  }

  lemma AtStart(s: Bytes, cps: seq<nat>)
    requires Utf8.DecodeFrom(s, 0) == Some(cps)
    ensures At(s, 0, cps, 0)
  {
    assert cps[0..] == cps;
  }

  lemma AtCodePoint(s: Bytes, p: nat, cps: seq<nat>, j: nat)
    requires At(s, p, cps, j)
    ensures p <= |s| && j <= |cps|
    ensures if Utf8.HasNext(s, p) then p < |s| else j == |cps|
    ensures Utf8.HasNext(s, p) ==>
              var (c, next) := Utf8.DecodeOne(s, p);
              j < |cps| && c == Some(cps[j]) && p < next <= |s| && At(s, next, cps, j + 1)
  {
    if Utf8.HasNext(s, p) {
      var (c, next) := Utf8.DecodeOne(s, p);
      var rest := Utf8.DecodeFrom(s, next).value;
      assert cps[j..] == [c.value] + rest;
      assert cps[j + 1..] == cps[j..][1..] == rest;
    }
  }

  lemma CountStep(s: Bytes, p: nat, seen: seq<nat>)
    requires p <= |s| && Utf8.HasNext(s, p) && Utf8.DecodeOne(s, p).0.Some?
    requires var rest := Utf8.DecodeFrom(s, p);
             Utf8.DecodeFrom(s, 0) == if rest.None? then None else Some(seen + rest.value)
    ensures var (c, next) := Utf8.DecodeOne(s, p);
            var rest := Utf8.DecodeFrom(s, next);
            && Utf8.DecodeFrom(s, 0) == (if rest.None? then None else Some(seen + [c.value] + rest.value))
            && |Keep(seen + [c.value], 128)| == |Keep(seen, 128)| + if c.value < 128 then 1 else 0
  {
    var (c, next) := Utf8.DecodeOne(s, p);
    var rest := Utf8.DecodeFrom(s, next);
    assert (seen + [c.value])[..|seen|] == seen;
    assert rest.Some? ==> seen + ([c.value] + rest.value) == (seen + [c.value]) + rest.value;
  }

  /** The first loop: validate the label and count its ASCII and other code points. */
  method CountKinds(s: Bytes) returns (valid: bool, h: nat, todo: nat)
    ensures valid <==> Utf8.DecodeFrom(s, 0).Some?
    ensures valid ==> h == |Keep(Utf8.DecodeFrom(s, 0).value, 128)| && h + todo == |Utf8.DecodeFrom(s, 0).value|
  {
    h, todo := 0, 0;
    var p := 0;
    ghost var seen: seq<nat> := [];
    assert Utf8.DecodeFrom(s, 0).Some? ==> [] + Utf8.DecodeFrom(s, 0).value == Utf8.DecodeFrom(s, 0).value;
    assert Keep([], 128) == [];
    hide Keep, Utf8.DecodeOne;
    while Utf8.HasNext(s, p)
      invariant p <= |s|
      invariant var rest := Utf8.DecodeFrom(s, p);
                Utf8.DecodeFrom(s, 0) == if rest.None? then None else Some(seen + rest.value)
      invariant h == |Keep(seen, 128)| && h + todo == |seen|
      decreases |s| - p
    {
      var (c, next) := Utf8.DecodeOne(s, p);
      if c.None? {
        return false, h, todo;
      }
      CountStep(s, p, seen);
      p := next;
      if c.value < 128 {
        h := h + 1;
      } else {
        todo := todo + 1;
      }
      seen := seen + [c.value];
    }
    assert seen + [] == seen;
    valid := true;
  }

  lemma KeepNone(cps: seq<nat>, n: nat)
    ensures Keep(cps[..0], n) == []
  {
    assert cps[..0] == [];
  }

  lemma AllAsciiSeen(cps: seq<nat>, j: nat)
    requires j <= |cps| && (j == |cps| || |Keep(cps[..j], 128)| == |Keep(cps, 128)|)
    ensures Keep(cps[..j], 128) == Keep(cps, 128)
  {
    assert cps == cps[..j] + cps[j..];
    KeepAppend(cps[..j], cps[j..], 128);
    if j == |cps| {
      assert cps[..j] == cps;
    }
  }

  /** The second loop: copy the ASCII characters, stopping after the last one. */
  method CopyAscii(s: Bytes, ghost cps: seq<nat>, h: nat, out: Output)
    requires out.Valid() && Utf8.DecodeFrom(s, 0) == Some(cps) && h == |Keep(cps, 128)|
    modifies out, out.buffer
    ensures out.Valid() && out.sent == old(out.sent) + Keep(cps, 128)
  {
    hide *;
    var p, x := 0, 0;
    ghost var j := 0;
    AtStart(s, cps);
    KeepNone(cps, 128);
    while Utf8.HasNext(s, p)
      invariant At(s, p, cps, j) && p <= |s| && j <= |cps|
      invariant out.Valid() && out.sent == old(out.sent) + Keep(cps[..j], 128)
      invariant x == |Keep(cps[..j], 128)|
      decreases |s| - p
    {
      AtCodePoint(s, p, cps, j);
      KeepStep(cps, j, 128);
      var (c, next) := Utf8.DecodeOne(s, p);
      p, j := next, j + 1;
      if c.value > 127 {
        continue;
      }
      out.Put(c.value);
      x := x + 1;
      if x == h {
        AllAsciiSeen(cps, j);
        return;
      }
    }
    AtCodePoint(s, p, cps, j);
    AllAsciiSeen(cps, j);
  }

  /** The smallest code point of the label that is at least n. */
  method SmallestAtLeast(s: Bytes, ghost cps: seq<nat>, n: nat) returns (m: nat)
    requires Utf8.DecodeFrom(s, 0) == Some(cps)
    ensures (forall c | c in cps :: c < n) ==> m == U32 - 1
    ensures (exists c :: c in cps && n <= c) ==> m in cps && n <= m
    ensures forall c | c in cps :: c < n || m <= c
  {
    m := U32 - 1;
    var p := 0;
    ghost var j := 0;
    AtStart(s, cps);
    while Utf8.HasNext(s, p)
      invariant At(s, p, cps, j) && p <= |s| && j <= |cps|
      invariant forall c | c in cps[..j] :: c < n || m <= c
      invariant m == U32 - 1 || (m in cps[..j] && n <= m)
      decreases |s| - p
    {
      AtCodePoint(s, p, cps, j);
      var (c, next) := Utf8.DecodeOne(s, p);
      assert cps[..j + 1] == cps[..j] + [cps[j]];
      p, j := next, j + 1;
      if c.value >= n && c.value < m {
        m := c.value;
      }
    }
    AtCodePoint(s, p, cps, j);
    assert cps[..j] == cps;
  }

  lemma IntStep(q: nat, k: nat, bias: nat)
    ensures var t := Threshold(k, bias);
            EncodeInt(q, k, bias) ==
              if q < t then [DigitOf(q)]
              else [DigitOf(t + (q - t) % (BASE - t))] + EncodeInt((q - t) / (BASE - t), k + BASE, bias)
  {
  }

  /** The inner loop: delta as a variable-length integer. */
  method EmitInt(delta: nat, bias: nat, out: Output)
    requires out.Valid() && delta < U32
    modifies out, out.buffer
    ensures out.Valid() && out.sent == old(out.sent) + EncodeInt(delta, BASE, bias)
  {
    hide EncodeInt, DigitOf;
    var k: nat, q: nat := 36, delta;
    while true
      invariant out.Valid() && out.sent + EncodeInt(q, k, bias) == old(out.sent) + EncodeInt(delta, BASE, bias)
      decreases q
    {
      var t := 1;
      if k > bias {
        t := k - bias;
      }
      if t > 26 {
        t := 26;
      }
      IntStep(q, k, bias);
      assert t == Threshold(k, bias);
      if q < t {
        break;
      }
      DivideStep(q, t);
      var x, y := q - t, 36 - t;
      ghost var sent, q0 := out.sent, q;
      q := x / y;
      t := t + x % y;
      assert EncodeInt(q0, k, bias) == [DigitOf(t)] + EncodeInt(q, k + 36, bias);
      assert sent + ([DigitOf(t)] + EncodeInt(q, k + 36, bias)) == sent + [DigitOf(t)] + EncodeInt(q, k + 36, bias);
      out.Put(DigitOf(t));
      k := k + 36;
    }
    out.Put(DigitOf(q));
  }

  lemma HalveThenDivide(delta: nat)
    ensures delta / 2 / 350 == delta / 700
  {
  }

  /** The bias adaptation, in the order of operations of the code; h counts the character just written. */
  method AdaptBias(delta0: nat, h: nat, first: bool) returns (bias: nat)
    requires h > 0 && delta0 < U32
    ensures bias == Adapt(delta0, h, first)
  {
    var delta: nat := delta0 / 2;
    if first {
      HalveThenDivide(delta0);
      delta := delta / 350;
    }
    delta := delta + Quotient(delta, h);
    bias := 0;
    assert AdaptLoop(delta, bias) == Adapt(delta0, h, first);
    hide Adapt;
    while delta > 35 * 26 / 2
      invariant AdaptLoop(delta, bias) == Adapt(delta0, h, first)
    {
      delta := delta / 35;
      bias := bias + 36;
    }
    bias := bias + Quotient(36 * delta, delta + 38);
  }

  /** The body of a sweep at an occurrence of n. */
  method EmitDelta(ghost cps: seq<nat>, n: nat, ghost j: nat, st: Progress, out: Output,
                   ghost basics: seq<nat>, ghost base: Bytes, ghost code: Bytes, ghost e: Decoder)
    returns (st': Progress, ghost code': Bytes, ghost e': Decoder)
    requires out.Valid() && st.delta < U32 && out.sent == base + code
    requires j < |cps| && cps[j] == n && Synced(cps, basics, code, e, n, j, st)
    modifies out, out.buffer
    ensures out.Valid() && out.sent == base + code'
    ensures Synced(cps, basics, code', e', n, j + 1, st') && st'.h == st.h + 1 && st'.delta == 0
  {
    hide *;
    EmitKeepsSynced(cps, basics, code, e, n, j, st);
    EmitInt(st.delta, st.bias, out);
    code', e' := code + EncodeInt(st.delta, BASE, st.bias), Insert(e, e.i + st.delta);
    assert out.sent == base + code';
    var bias := AdaptBias(st.delta, st.h + 1, st.first);
    st' := Progress(st.h + 1, 0, bias, false);
  }

  lemma FitsU32()
    ensures 0x8000_0000 < U32
  {
  }

  /** One pass over the label for the code point n: count what lies below it, write a delta wherever it occurs. */
  method Sweep(s: Bytes, ghost cps: seq<nat>, n: nat, st0: Progress, todo0: nat, out: Output,
               ghost basics: seq<nat>, ghost base: Bytes, ghost code0: Bytes, ghost e0: Decoder)
    returns (ok: bool, st: Progress, todo: nat, ghost code: Bytes, ghost e: Decoder)
    requires out.Valid() && Utf8.DecodeFrom(s, 0) == Some(cps) && |cps| < 0x8000_0000 && st0.delta < U32
    requires Synced(cps, basics, code0, e0, n, 0, st0) && st0.h + todo0 == |cps| && n in cps
    requires out.sent == base + code0
    modifies out, out.buffer
    ensures out.Valid()
    ensures ok ==> Synced(cps, basics, code, e, n, |cps|, st) && st.delta <= |cps|
    ensures ok ==> st.h + todo == |cps| && todo < todo0
    ensures ok ==> out.sent == base + code
    ensures !ok ==> st0.delta + |cps| >= U32
    ensures ok <==> st0.delta + Ahead(cps, n) < U32
    ensures ok ==> st.delta == Behind(cps, n)
  {
    hide *;
    st, todo, code, e := st0, todo0, code0, e0;
    var p := 0;
    ghost var j := 0;
    AtStart(s, cps);
    FitsU32();
    AheadEnds(cps, n);
    ghost var w :| 0 <= w < |cps| && cps[w] == n;
    while Utf8.HasNext(s, p)
      invariant At(s, p, cps, j) && p <= |s| && j <= |cps|
      invariant out.Valid() && out.sent == base + code
      invariant Synced(cps, basics, code, e, n, j, st) && st.h + todo == |cps|
      invariant st.delta < U32 && todo <= todo0
      invariant if todo < todo0 then st.delta <= j else j <= w && st.delta <= st0.delta + j
      invariant st.delta == Behind(cps[..j], n) + if todo < todo0 then 0 else st0.delta
      invariant if todo < todo0 then st0.delta + Ahead(cps, n) < U32
                   else Behind(cps[..j], n) + Ahead(cps[j..], n) == Ahead(cps, n)
      decreases |s| - p
    {
      AtCodePoint(s, p, cps, j);
      AheadStep(cps, j, n);
      var (c, next) := Utf8.DecodeOne(s, p);
      if c.value < n && st.delta + 1 == U32 { // ++delta wraps to 0
        return false, st, todo, code, e;
      }
      if c.value == n {
        TodoLeft(cps, basics, code, e, n, j, st);
        st, code, e := EmitDelta(cps, n, j, st, out, basics, base, code, e);
        todo := todo - 1;
      } else {
        PassKeepsSynced(cps, basics, code, e, n, j, st);
        st := st.(delta := st.delta + if c.value < n then 1 else 0);
      }
      p, j := next, j + 1;
    }
    AtCodePoint(s, p, cps, j);
    ok := true;
  }

  /** While an n is still ahead, not every code point has been written. */
  lemma TodoLeft(cps: seq<nat>, basics: seq<nat>, code: Bytes, e: Decoder, n: nat, j: nat, st: Progress)
    requires j < |cps| && cps[j] == n && Synced(cps, basics, code, e, n, j, st)
    ensures st.h < |cps|
  {
    KeepAll(cps[..j], n + 1);
    KeepAll(cps[j..], n);
    assert cps[j..][0] in cps[j..];
  }

  // ----- the label encoder -----

  /** UV_EINVAL, UV_E2BIG, or the returned count. */
  datatype Outcome = Invalid | TooBig | Done(rc: nat)

  const ACE_PREFIX: Bytes := [120, 110, 45, 45]

  predicate AllAscii(cps: seq<nat>) {
    forall c | c in cps :: c < 128
  }

  lemma AsciiMeansNothingLeft(cps: seq<nat>)
    ensures AllAscii(cps) <==> |Keep(cps, 128)| == |cps|
    ensures AllAscii(cps) ==> Keep(cps, 128) == cps
  {
    KeepAll(cps, 128);
  }

  lemma StartsSynced(cps: seq<nat>)
    ensures var basics := Keep(cps, 128);
            Synced(cps, basics, [], Decoder(INITIAL_N, 0, INITIAL_BIAS, basics), 128, 0,
                   Progress(|basics|, 0, 72, true))
  {
    assert cps[0..] == cps && cps[..0] == [];
    assert Keep(cps[..0], 129) == [];
  }

  lemma KeepBelow(cps: seq<nat>, n: nat)
    ensures forall i | 0 <= i < |Keep(cps, n)| :: Keep(cps, n)[i] < n
  {
    KeepAll(cps, n);
    assert forall i | 0 <= i < |Keep(cps, n)| :: Keep(cps, n)[i] in Keep(cps, n);
  }

  /** The ASCII characters of a label, and the delimiter after them if there are any. */
  function Front(cps: seq<nat>): (r: Bytes)
    ensures AllBasic(r)
    ensures r == Keep(cps, 128) + if |Keep(cps, 128)| > 0 then [DELIMITER] else []
  {
    var basics := Keep(cps, 128);
    KeepBelow(cps, 128);
    basics + if |basics| > 0 then [DELIMITER] else []
  }

  lemma NoDelimiterIn(digits: Bytes)
    requires AreDigits(digits)
    ensures DELIMITER !in digits
  {
  }

  lemma SplitFront(cps: seq<nat>, digits: Bytes, e: Decoder)
    requires AreDigits(digits)
    requires Run(Decoder(INITIAL_N, 0, INITIAL_BIAS, Keep(cps, 128)), digits) == Some(e)
    ensures Decode(Front(cps) + digits) == Some(e.output)
  {
    hide Run, Keep;
    NoDelimiterIn(digits);
    var basics := Keep(cps, 128);
    var input := Front(cps) + digits;
    hide AreDigits;
    if |basics| > 0 {
      assert Front(cps)[..|basics|] == basics;
      var front: Bytes := basics;
      LastDelimiterIs(front, digits);
      assert input == front + [DELIMITER] + digits;
      assert input[..|front|] == front && input[|front| + 1..] == digits;
    } else {
      assert input == digits;
      NoDelimiter(digits);
    }
  }

  lemma AllPlaced(cps: seq<nat>, digits: Bytes, e: Decoder, n: nat, st: Progress)
    requires Synced(cps, Keep(cps, 128), digits, e, n, 0, st) && st.h == |cps|
    ensures e.output == cps && AreDigits(digits)
    ensures Run(Decoder(INITIAL_N, 0, INITIAL_BIAS, Keep(cps, 128)), digits) == Some(e)
  {
    assert cps[0..] == cps && cps[..0] == [];
    assert e.output == Keep(cps, n);
    KeepAll(cps, n);
  }

  /** When nothing is left to write, the decoder of section 6.2 maps the output back to the label. */
  lemma DecodesBack(cps: seq<nat>, digits: Bytes, e: Decoder, n: nat, st: Progress)
    requires Synced(cps, Keep(cps, 128), digits, e, n, 0, st) && st.h == |cps|
    ensures Decode(Front(cps) + digits) == Some(cps) && AllBasic(Front(cps) + digits) && AreDigits(digits)
  {
    hide *;
    AllPlaced(cps, digits, e, n, st);
    SplitFront(cps, digits, e);
    BasicConcat(Front(cps), digits);
  }

  lemma BasicConcat(a: Bytes, digits: Bytes)
    requires AllBasic(a) && AreDigits(digits)
    ensures AllBasic(a + digits)
  {
  }

  /** The check against ~delta / y is exactly the check that delta + x * y fits in 32 bits. */
  lemma OverflowCheck(delta: nat, x: nat, y: nat)
    requires delta < U32 && y > 0
    ensures x > Quotient(U32 - 1 - delta, y) <==> delta + Times(x, y) >= U32
  {
    var q := (U32 - 1 - delta) / y;
    assert U32 - 1 - delta == q * y + (U32 - 1 - delta) % y;
    if x > q {
      QuotientOrder(q, (U32 - 1 - delta) % y, x, 0, y);
    } else {
      assert (q - x) * y >= 0;
      assert (q - x) * y == q * y - x * y;
    }
  }

  lemma MulMonotone(x: nat, y: nat, bound: nat, len: nat)
    requires x <= bound && y <= len
    ensures x * y <= bound * len
  {
    assert bound * len == x * y + (bound - x) * y + bound * (len - y);
  }

  method PutPrefix(out: Output)
    requires out.Valid()
    modifies out, out.buffer
    ensures out.Valid() && out.sent == old(out.sent) + ACE_PREFIX
  {
    out.Put(120);
    out.Put(110);
    out.Put(45);
    out.Put(45);
  }

  lemma SomethingLeft(cps: seq<nat>, basics: seq<nat>, digits: Bytes, e: Decoder, n: nat, st: Progress)
    requires Synced(cps, basics, digits, e, n, 0, st) && st.h < |cps|
    ensures exists c :: c in cps && n <= c
  {
    assert cps[0..] == cps && cps[..0] == [];
    assert e.output == Keep(cps, n);
    KeepAll(cps, n);
  }

  lemma TooLongForDeltas(delta: nat, x: nat, y: nat, len: nat)
    requires x <= 0x10FFFF - 128 && y <= len && delta <= len + 1 && len > 0 && delta + Times(x, y) + len >= U32
    ensures 0x110000 * len >= U32
  {
    MulMonotone(x, y, 0x10FFFF - 128, len);
  }

  lemma ScalarBound(s: Bytes, cps: seq<nat>, m: nat)
    requires Utf8.DecodeFrom(s, 0) == Some(cps) && m in cps
    ensures m <= 0x10FFFF
  {
  }

  lemma SkipPlaces(cps: seq<nat>, basics: seq<nat>, digits: Bytes, e: Decoder, n: nat, m: nat, st: Progress)
    requires Synced(cps, basics, digits, e, n, 0, st) && 128 <= n <= m && m in cps && (n > 128 ==> n - 1 in cps)
    requires forall c | c in cps :: c < n || m <= c
    ensures Neighbours(cps, n - 1, m) && st.h == |Keep(cps, m)|
  {
    KeepSame(cps, n, m);
    assert cps[0..] == cps && cps[..0] == [];
  }

  /** The start of a round: move n to the next code point that occurs, with the overflow check. */
  method SkipAhead(s: Bytes, ghost cps: seq<nat>, n: nat, st: Progress,
                   ghost basics: seq<nat>, ghost digits: Bytes, ghost e: Decoder)
    returns (ok: bool, m: nat, st': Progress)
    requires Utf8.DecodeFrom(s, 0) == Some(cps) && n >= 128 && st.delta <= |cps| + 1 <= 0x8000_0000
    requires Synced(cps, basics, digits, e, n, 0, st) && st.h < |cps| && (n > 128 ==> n - 1 in cps)
    ensures m >= n && Neighbours(cps, n - 1, m)
    ensures ok <==> st.delta + Times(m - n, |Keep(cps, m)| + 1) < U32
    ensures ok ==> st'.delta == st.delta + Times(m - n, |Keep(cps, m)| + 1)
    ensures ok ==> m >= n && m in cps && Synced(cps, basics, digits, e, m, 0, st') && st'.h == st.h && st'.delta < U32
    ensures !ok || st'.delta + |cps| >= U32 ==> 0x110000 * |cps| >= U32
  {
    hide *;
    SomethingLeft(cps, basics, digits, e, n, st);
    m := SmallestAtLeast(s, cps, n);
    SkipPlaces(cps, basics, digits, e, n, m, st);
    ScalarBound(s, cps, m);
    var x, y := m - n, st.h + 1;
    FitsU32();
    OverflowCheck(st.delta, x, y);
    if x > Quotient(U32 - 1 - st.delta, y) {
      TooLongForDeltas(st.delta, x, y, |cps|);
      return false, m, st;
    }
    SkipKeepsSynced(cps, basics, digits, e, n, m, st);
    st' := st.(delta := st.delta + Times(x, y));
    if st'.delta + |cps| >= U32 {
      TooLongForDeltas(st.delta, x, y, |cps|);
    }
    ok := true;
  }

  lemma RoundDelta(cps: seq<nat>, k: nat, n: nat)
    requires Neighbours(cps, k, n)
    ensures TooBigAt(cps, k, n) <==> Carry(cps, k) + Times(n - k - 1, |Keep(cps, n)| + 1) + Ahead(cps, n) >= U32
    ensures TooBigAt(cps, k, n) ==> DeltaTooBig(cps)
    ensures Carry(cps, n) == Behind(cps, n) + 1 && n in cps
  {
    hide Ahead, Behind, Keep, Times;
  }

  /** One round of the outer loop. */
  method Round(s: Bytes, ghost cps: seq<nat>, n0: nat, st0: Progress, todo0: nat, out: Output,
               ghost basics: seq<nat>, ghost base: Bytes, ghost digits0: Bytes, ghost e0: Decoder)
    returns (ok: bool, n: nat, st: Progress, todo: nat, ghost digits: Bytes, ghost e: Decoder)
    requires out.Valid() && out.sent == base + digits0 && Utf8.DecodeFrom(s, 0) == Some(cps)
    requires n0 >= 128 && st0.delta <= |cps| + 1 && |cps| < 0x8000_0000
    requires Synced(cps, basics, digits0, e0, n0, 0, st0) && st0.h + todo0 == |cps| && todo0 > 0
    requires st0.delta == Carry(cps, n0 - 1) && (n0 > 128 ==> n0 - 1 in cps)
    modifies out, out.buffer
    ensures out.Valid()
    ensures ok ==> n >= 128 && st.delta <= |cps| + 1 && out.sent == base + digits
    ensures ok ==> Synced(cps, basics, digits, e, n, 0, st) && st.h + todo == |cps| && todo < todo0
    ensures !ok ==> 0x110000 * |cps| >= U32 && DeltaTooBig(cps)
    ensures ok ==> n0 < n && Neighbours(cps, n0 - 1, n - 1) && !TooBigAt(cps, n0 - 1, n - 1)
    ensures ok ==> st.delta == Carry(cps, n - 1) && n - 1 in cps
  {
    hide *;
    todo, digits, e := todo0, digits0, e0;
    ok, n, st := SkipAhead(s, cps, n0, st0, basics, digits0, e0);
    RoundDelta(cps, n0 - 1, n);
    if ok {
      ok, st, todo, digits, e := Sweep(s, cps, n, st, todo0, out, basics, base, digits0, e0);
      if ok {
        NextKeepsSynced(cps, basics, digits, e, n, st);
        st, n := st.(delta := st.delta + 1), n + 1;
      }
    }
  }

  lemma FirstCarry(cps: seq<nat>)
    ensures Carry(cps, 127) == 0
  {
  }

  lemma AllKept(cps: seq<nat>, basics: seq<nat>, digits: Bytes, e: Decoder, n: nat, st: Progress)
    requires Synced(cps, basics, digits, e, n, 0, st) && st.h == |cps|
    ensures |Keep(cps, n)| == |cps|
  {
    assert cps[0..] == cps && cps[..0] == [];
  }

  /** The outer loop: one sweep for each distinct code point above ASCII, in increasing order. */
  method WriteDeltas(s: Bytes, ghost cps: seq<nat>, h: nat, todo0: nat, out: Output, ghost base: Bytes)
    returns (done: bool, ghost digits: Bytes, ghost e: Decoder, ghost last: nat, ghost final: Progress)
    requires out.Valid() && out.sent == base && Utf8.DecodeFrom(s, 0) == Some(cps)
    requires h == |Keep(cps, 128)| && h + todo0 == |cps| < 0x8000_0000
    modifies out, out.buffer
    ensures out.Valid()
    ensures done ==> Synced(cps, Keep(cps, 128), digits, e, last, 0, final) && final.h == |cps|
    ensures done ==> out.sent == base + digits
    ensures !done ==> 0x110000 * |cps| >= U32
    ensures done <==> !DeltaTooBig(cps)
  {
    hide *;
    ghost var basics := Keep(cps, 128);
    var n, todo, st := 128, todo0, Progress(h, 0, 72, true);
    digits, e := [], Decoder(INITIAL_N, 0, INITIAL_BIAS, basics);
    last, final := n, st;
    StartsSynced(cps);
    NothingFits(cps);
    FirstCarry(cps);
    done := true;
    assert base + digits == base;
    while done && todo > 0
      invariant out.Valid() && (done ==> out.sent == base + digits)
      invariant done ==> Synced(cps, basics, digits, e, n, 0, st) && st.h + todo == |cps|
      invariant done ==> st.delta <= |cps| + 1 && n >= 128
      invariant done ==> FitsBelow(cps, n) && st.delta == Carry(cps, n - 1) && (n > 128 ==> n - 1 in cps)
      invariant !done ==> 0x110000 * |cps| >= U32 && DeltaTooBig(cps)
      decreases done, todo
    {
      ghost var n0 := n;
      done, n, st, todo, digits, e := Round(s, cps, n, st, todo, out, basics, base, digits, e);
      if done {
        FitsMore(cps, n0, n);
      }
    }
    if done {
      AllKept(cps, basics, digits, e, n, st);
      AllFit(cps, n);
    }
    last, final := n, st;
  }

  /** The part before the deltas: prefix, ASCII characters, separator. */
  method WriteFront(s: Bytes, ghost cps: seq<nat>, h: nat, todo: nat, out: Output)
    requires out.Valid() && Utf8.DecodeFrom(s, 0) == Some(cps) && h == |Keep(cps, 128)|
    modifies out, out.buffer
    ensures out.Valid()
    ensures out.sent == if todo > 0 then old(out.sent) + ACE_PREFIX + Front(cps) else old(out.sent) + Keep(cps, 128)
  {
    hide Keep, Utf8.DecodeFrom, Output.Valid;
    if todo > 0 {
      PutPrefix(out);
    }
    CopyAscii(s, cps, h, out);
    if todo > 0 && h > 0 {
      out.Put(DELIMITER);
    }
  }

  lemma Regroup(a: Bytes, b: Bytes, c: Bytes)
    ensures a + b + c == a + (b + c)
  {
  }

  lemma Halves(a: Bytes, b: Bytes)
    ensures (a + b)[..|a|] == a && (a + b)[|a|..] == b
  {
  }

  lemma PrefixIs()
    ensures ACE_PREFIX == [120, 110, 45, 45]
  {
  }

  /** uv__idna_toascii_label. What is written decodes back to the label; the only other outcomes are an invalid
      label and, exactly when some delta does not fit in 32 bits, a refusal; that takes thousands of characters. The
      length bound is the range of the int result. */
  method ToAsciiLabel(s: Bytes, out: Output) returns (r: Outcome, ghost code: Bytes)
    requires out.Valid() && |s| < 0x8000_0000
    modifies out, out.buffer
    ensures out.Valid()
    ensures r.Invalid? <==> Utf8.DecodeFrom(s, 0).None?
    ensures r.Invalid? ==> !Utf8.IsUtf8(s)
    ensures !r.Invalid? ==> (Utf8.IsUtf8(s) <==> Utf8.Continued(s, 0))
    ensures Utf8.IsUtf8(s) ==>
              !r.Invalid? && Utf8.AllScalar(Utf8.DecodeFrom(s, 0).value)
              && s == Utf8.EncodeAll(Utf8.DecodeFrom(s, 0).value)
    ensures r.Invalid? ==> out.sent == old(out.sent)
    ensures r.Done? && AllAscii(Utf8.DecodeFrom(s, 0).value) ==>
              r.rc == |Utf8.DecodeFrom(s, 0).value| && out.sent == old(out.sent) + Utf8.DecodeFrom(s, 0).value
    ensures r.Done? && !AllAscii(Utf8.DecodeFrom(s, 0).value) ==>
              var front := Front(Utf8.DecodeFrom(s, 0).value);
              && r.rc == 0 && out.sent == old(out.sent) + [120, 110, 45, 45] + code
              && |front| <= |code| && code[..|front|] == front && AreDigits(code[|front|..])
              && AllBasic(code) && Decode(code) == Utf8.DecodeFrom(s, 0)
    ensures r.TooBig? <==> !r.Invalid? && DeltaTooBig(Utf8.DecodeFrom(s, 0).value)
    ensures r.TooBig? ==> !AllAscii(Utf8.DecodeFrom(s, 0).value)
    ensures r.TooBig? ==> 0x110000 * |Utf8.DecodeFrom(s, 0).value| >= U32
  {
    hide *;
    code := [];
    Utf8.ContinuedDecodesIff(s);
    var valid, h, todo := CountKinds(s);
    if !valid {
      return Invalid, code;
    }
    ghost var cps := Utf8.DecodeFrom(s, 0).value;
    AsciiMeansNothingLeft(cps);
    ghost var start := out.sent;
    WriteFront(s, cps, h, todo, out);
    if todo == 0 {
      NothingFits(cps);
      AllFit(cps, 128);
      return Done(h), code;
    }
    var done;
    ghost var digits, e, n, st;
    done, digits, e, n, st := WriteDeltas(s, cps, h, todo, out, out.sent);
    if !done {
      return TooBig, code;
    }
    code := Front(cps) + digits;
    DecodesBack(cps, digits, e, n, st);
    Regroup(start + ACE_PREFIX, Front(cps), digits);
    Halves(Front(cps), digits);
    PrefixIs();
    r := Done(0);
  }
}
