/** Address conversion (inet.c): the shortened IPv6 text, the writers and the readers. */
module Inet {
  import opened Wrappers
  import opened InetText

  datatype Family = Inet4 | Inet6 | OtherFamily

  datatype Status = Success | NoSpace | Invalid | UnsupportedFamily

  const ADDRSTRLEN: nat := 16
  const ADDRSTRLEN6: nat := 46

  // ---------- The shortened run ----------

  function WordAt(src: seq<byte>, i: nat): (w: nat)
    requires |src| == 16 && i < 8
    ensures w < 0x1_0000
  {
    256 * (src[2 * i] as int) + src[2 * i + 1] as int
  }

  function Words(src: seq<byte>): (w: seq<nat>)
    requires |src| == 16
    ensures |w| == 8 && forall i | 0 <= i < 8 :: w[i] == WordAt(src, i)
  {
    seq(8, i requires 0 <= i < 8 => WordAt(src, i))
  }

  predicate ZeroRun(words: seq<nat>, base: int, len: int) {
    0 <= base && 0 <= len && base + len <= |words| && forall i | base <= i < base + len :: words[i] == 0
  }

  /** The first of the longest runs of zeros, which has at least two of them; -1 when there is no such run. */
  ghost predicate IsBest(words: seq<nat>, base: int, len: int) {
    if base == -1 then
      forall b, l | ZeroRun(words, b, l) :: l < 2
    else
      && ZeroRun(words, base, len) && len >= 2
      && forall b, l | ZeroRun(words, b, l) :: l < len || (l == len && base <= b)
  }

  lemma BestIsUnique(words: seq<nat>, base: int, len: int, base': int, len': int)
    requires IsBest(words, base, len) && IsBest(words, base', len')
    ensures base == base' && (base != -1 ==> len == len')
  {
    assert base != -1 ==> ZeroRun(words, base, len);
    assert base' != -1 ==> ZeroRun(words, base', len');
  }

  /** The first longest run among those that end at the limit or before. */
  ghost predicate BestUpTo(words: seq<nat>, base: int, len: int, limit: int) {
    if base == -1 then
      forall b, l | ZeroRun(words, b, l) && b + l <= limit :: l < 1
    else
      && ZeroRun(words, base, len) && len >= 1 && base + len <= limit
      && forall b, l | ZeroRun(words, b, l) && b + l <= limit :: l < len || (l == len && base <= b)
  }

  /** A run that nothing extends to the left competes with the best one before it. */
  lemma CloseRun(words: seq<nat>, base: int, len: int, curBase: int, curLen: int)
    requires BestUpTo(words, base, len, curBase)
    requires ZeroRun(words, curBase, curLen) && curLen >= 1 && (curBase > 0 ==> words[curBase - 1] != 0)
    ensures if base == -1 || curLen > len then BestUpTo(words, curBase, curLen, curBase + curLen)
            else BestUpTo(words, base, len, curBase + curLen)
  {
    forall b, l | ZeroRun(words, b, l) && b + l <= curBase + curLen
      ensures b < curBase ==> l < 1 || b + l <= curBase
    {
    }
  }

  lemma SkipWord(words: seq<nat>, base: int, len: int, i: int)
    requires BestUpTo(words, base, len, i) && 0 <= i < |words| && words[i] != 0
    ensures BestUpTo(words, base, len, i + 1)
  {
    forall b, l | ZeroRun(words, b, l) && b + l <= i + 1
      ensures l < 1 || b + l <= i
    {
    }
  }

  method FindBestRun(words: seq<nat>) returns (base: int, len: int)
    requires |words| == 8
    ensures base >= -1 && IsBest(words, base, len)
  {
    base, len := -1, 0;
    var curBase, curLen := -1, 0;
    for i := 0 to 8
      invariant curBase >= -1 && base >= -1
      invariant curBase == -1 ==> BestUpTo(words, base, len, i) && (i > 0 ==> words[i - 1] != 0)
      invariant curBase != -1 ==>
                  && BestUpTo(words, base, len, curBase) && curBase + curLen == i && curLen >= 1
                  && ZeroRun(words, curBase, curLen) && (curBase > 0 ==> words[curBase - 1] != 0)
    {
      if words[i] == 0 {
        if curBase == -1 {
          curBase, curLen := i, 1;
        } else {
          curLen := curLen + 1;
        }
      } else {
        if curBase != -1 {
          CloseRun(words, base, len, curBase, curLen);
          if base == -1 || curLen > len {
            base, len := curBase, curLen;
          }
          curBase := -1;
        }
        SkipWord(words, base, len, i);
      }
    }
    if curBase != -1 {
      CloseRun(words, base, len, curBase, curLen);
      if base == -1 || curLen > len {
        base, len := curBase, curLen;
      }
    }
    if base != -1 && len < 2 {
      base := -1;
    }
  }

  // ---------- The text of an address ----------

  function HexItems(words: seq<nat>): (items: seq<Item>)
    ensures |items| == |words| && forall k | 0 <= k < |items| :: items[k] == Digits(Hex(words[k]))
  {
    seq(|words|, k requires 0 <= k < |words| => Digits(Hex(words[k])))
  }

  /** The test of inet_ntop6 for an embedded IPv4 address, made at word 6. */
  predicate Encapsulates(words: seq<nat>, base: int, len: int)
    requires |words| == 8
  {
    base == 0 && (len == 6 || (len == 7 && words[7] != 1) || (len == 5 && words[5] == 0xffff))
  }

  predicate InRun(base: int, len: int, i: int) {
    base != -1 && base <= i < base + len
  }

  /** Dotted decimals appear exactly for ::a.b.c.d, unless a.b is zero, and for ::ffff:a.b.c.d. */
  lemma DottedExactlyWhen(words: seq<nat>, base: int, len: int)
    requires |words| == 8 && IsBest(words, base, len)
    ensures (!InRun(base, len, 6) && Encapsulates(words, base, len)) <==>
            && (forall i | 0 <= i < 5 :: words[i] == 0)
            && (words[5] == 0xffff || (words[5] == 0 && words[6] != 0))
  {
    if forall i | 0 <= i < 5 :: words[i] == 0 {
      if words[5] == 0xffff {
        assert ZeroRun(words, 0, 5);
      } else if words[5] == 0 && words[6] != 0 {
        assert ZeroRun(words, 0, 6);
      }
    }
    assert base == 0 && len == 5 && words[5] == 0 ==> ZeroRun(words, 0, 6);
    assert base == 0 && len == 6 && words[6] == 0 ==> ZeroRun(words, 0, 7);
  }

  function Canonical(src: seq<byte>, base: int, len: int): Spelling
    requires |src| == 16 && IsBest(Words(src), base, len)
  {
    var words := Words(src);
    if base == -1 then Spelling(HexItems(words), false, [])
    else if !InRun(base, len, 6) && Encapsulates(words, base, len) then
      Spelling([], true, HexItems(words[len..6]) + [Quad(src[12..])])
    else
      Spelling(HexItems(words[..base]), true, HexItems(words[base + len..]))
  }

  ghost predicate IsTextOf(src: seq<byte>, text: string)
    requires |src| == 16
  {
    exists base: int, len: int :: IsBest(Words(src), base, len) && text == Spelled(Canonical(src, base, len))
  }

  lemma TextIsUnique(src: seq<byte>, text: string, text': string)
    requires |src| == 16 && IsTextOf(src, text) && IsTextOf(src, text')
    ensures text == text'
  {
    var base: int, len: int :| IsBest(Words(src), base, len) && text == Spelled(Canonical(src, base, len));
    var base': int, len': int :| IsBest(Words(src), base', len') && text' == Spelled(Canonical(src, base', len'));
    BestIsUnique(Words(src), base, len, base', len');
  }

  predicate Separates(ch: char) {
    ch == ':' || ch == '.'
  }

  /** Digits and lower-case letters only, and no group of more than one digit starts with a zero. */
  ghost predicate Tidy(t: string) {
    forall i | 0 <= i < |t| :: TidyAt(t, i)
  }

  predicate TidyAt(t: string, i: nat)
    requires i < |t|
  {
    && (Separates(t[i]) || '0' <= t[i] <= '9' || 'a' <= t[i] <= 'f')
    && (t[i] == '0' && (i == 0 || Separates(t[i - 1])) ==> i == |t| - 1 || Separates(t[i + 1]))
  }

  lemma TidyJoined(a: string, ch: char, b: string)
    requires Tidy(a) && Tidy(b) && Separates(ch)
    ensures Tidy(a + [ch] + b)
  {
    var t := a + [ch] + b;
    forall i: nat | i < |t|
      ensures TidyAt(t, i)
    {
      if i < |a| {
        assert TidyAt(a, i);
      } else if i > |a| {
        assert TidyAt(b, i - |a| - 1);
      }
    }
  }

  /** Digits and letters without a leading zero, or "0". */
  ghost predicate TidyGroup(t: string) {
    && t != "" && (t[0] == '0' ==> |t| == 1)
    && (forall i | 0 <= i < |t| :: '0' <= t[i] <= '9' || 'a' <= t[i] <= 'f')
  }

  lemma GroupIsTidy(t: string)
    requires TidyGroup(t)
    ensures Tidy(t)
  {
  }

  lemma {:induction false} HexIsTidy(w: nat)
    ensures TidyGroup(Hex(w)) && (Hex(w)[0] == '0' <==> w == 0)
  {
    if w >= 16 {
      HexIsTidy(w / 16);
    }
  }

  lemma {:induction false} DecimalIsTidy(b: nat)
    ensures TidyGroup(Decimal(b)) && (Decimal(b)[0] == '0' <==> b == 0)
  {
    if b >= 10 {
      DecimalIsTidy(b / 10);
    }
  }

  lemma {:induction false} DottedIsTidy(octets: seq<byte>)
    ensures Tidy(Dotted(octets))
    decreases |octets|
  {
    hide Decimal, Tidy, TidyGroup;
    if octets == [] {
      NothingIsTidy();
    } else {
      DecimalIsTidy(octets[0]);
      GroupIsTidy(Decimal(octets[0]));
      DottedIsTidy(octets[1..]);
      TidyJoined(Decimal(octets[0]), '.', Dotted(octets[1..]));
    }
  }

  lemma NothingIsTidy()
    ensures Tidy("")
  {
  }

  ghost predicate FromNumbers(items: seq<Item>) {
    forall k | 0 <= k < |items| :: items[k].Digits? ==> IsNumber(items[k].d)
  }

  ghost predicate IsNumber(d: string) {
    exists w: nat :: d == Hex(w)
  }

  lemma NumbersOnly(words: seq<nat>, more: seq<Item>)
    requires |more| <= 1 && (more != [] ==> more[0].Quad?)
    ensures FromNumbers(HexItems(words) + more)
  {
    hide Hex;
    forall k | 0 <= k < |words|
      ensures IsNumber(HexItems(words)[k].d)
    {
      assert HexItems(words)[k].d == Hex(words[k]);
    }
  }

  lemma {:induction false} JoinIsTidy(items: seq<Item>)
    requires FromNumbers(items)
    ensures Tidy(Join(items))
    decreases |items|
  {
    hide Hex, Tidy, TidyGroup, Dotted;
    if items == [] {
      NothingIsTidy();
    } else {
      if items[0].Digits? {
        var w: nat :| items[0].d == Hex(w);
        HexIsTidy(w);
        GroupIsTidy(Hex(w));
      } else {
        DottedIsTidy(items[0].q);
      }
      JoinIsTidy(items[1..]);
      TidyJoined(ItemText(items[0]), ':', Join(items[1..]));
    }
  }

  lemma FromWords(src: seq<byte>, base: int, len: int)
    requires |src| == 16 && IsBest(Words(src), base, len)
    ensures FromNumbers(Canonical(src, base, len).head) && FromNumbers(Canonical(src, base, len).tail)
  {
    hide Hex, IsBest, Encapsulates, InRun, HexItems, FromNumbers;
    var words := Words(src);
    NoNumbers();
    if base == -1 {
      NumbersOnly(words, []);
      assert HexItems(words) + [] == HexItems(words);
      return;
    }
    WordsAreEight(src);
    BestIsRun(words, base, len);
    if !InRun(base, len, 6) && Encapsulates(words, base, len) {
      EncapsulatesMeans(words, base, len);
      NumbersOnly(words[len..6], [Quad(src[12..])]);
    } else {
      NumbersOnly(words[..base], []);
      NumbersOnly(words[base + len..], []);
      assert HexItems(words[..base]) + [] == HexItems(words[..base]);
      assert HexItems(words[base + len..]) + [] == HexItems(words[base + len..]);
    }
  }

  lemma NoNumbers()
    ensures FromNumbers([])
  {
  }

  /** The text of an address has no upper-case digits and no leading zeros, as section 4 of RFC 5952 asks. */
  lemma TextIsTidy(src: seq<byte>, text: string)
    requires |src| == 16 && IsTextOf(src, text)
    ensures Tidy(text)
  {
    hide Tidy, Join, Hex, IsBest, Words, Encapsulates, InRun;
    var base: int, len: int :| IsBest(Words(src), base, len) && text == Spelled(Canonical(src, base, len));
    var sp := Canonical(src, base, len);
    FromWords(src, base, len);
    JoinIsTidy(sp.head);
    if sp.gap {
      JoinIsTidy(sp.tail);
      NothingIsTidy();
      TidyJoined("", ':', Join(sp.tail));
      TidyJoined(Join(sp.head), ':', "" + [':'] + Join(sp.tail));
      assert text == Join(sp.head) + [':'] + ("" + [':'] + Join(sp.tail));
    }
  }

  lemma HexItemsAreGood(words: seq<nat>)
    requires forall k | 0 <= k < |words| :: words[k] < 0x1_0000
    ensures GoodItems(HexItems(words), false) && GoodItems(HexItems(words), true)
  {
    forall k | 0 <= k < |words|
      ensures GoodDigits(HexItems(words)[k])
    {
      HexLength(words[k]);
    }
  }

  lemma WordSplits(a: byte, b: byte)
    ensures Word(256 * (a as int) + b as int) == [a, b]
  {
  }

  lemma HexItemBytes(src: seq<byte>, k: nat)
    requires |src| == 16 && k < 8
    ensures GoodDigits(Digits(Hex(Words(src)[k])))
    ensures ItemBytes(Digits(Hex(Words(src)[k]))) == src[2 * k..2 * k + 2]
  {
    hide Hex, ValueFrom, Word;
    HexLength(WordAt(src, k));
    HexReadsBack(WordAt(src, k));
    WordSplits(src[2 * k], src[2 * k + 1]);
    assert src[2 * k..2 * k + 2] == [src[2 * k], src[2 * k + 1]];
  }

  /** The words [lo, hi) stand for their bytes. */
  lemma {:induction false} HexItemsBytes(src: seq<byte>, lo: nat, hi: nat)
    requires |src| == 16 && lo <= hi <= 8
    ensures GoodItems(HexItems(Words(src)[lo..hi]), false) && GoodItems(HexItems(Words(src)[lo..hi]), true)
    ensures BytesOf(HexItems(Words(src)[lo..hi])) == src[2 * lo..2 * hi]
    decreases hi - lo
  {
    var items := HexItems(Words(src)[lo..hi]);
    HexItemsAreGood(Words(src)[lo..hi]);
    if lo < hi {
      HexItemBytes(src, lo);
      HexItemsBytes(src, lo + 1, hi);
      assert items[1..] == HexItems(Words(src)[lo + 1..hi]);
      assert src[2 * lo..2 * hi] == src[2 * lo..2 * lo + 2] + src[2 * (lo + 1)..2 * hi];
    }
  }

  lemma {:induction false} BytesOfQuadLast(items: seq<Item>, q: seq<byte>)
    requires GoodItems(items, false) && GoodItems(items, true) && |q| == 4
    ensures GoodItems(items + [Quad(q)], true) && BytesOf(items + [Quad(q)]) == BytesOf(items) + q
    decreases |items|
  {
    var all := items + [Quad(q)];
    if items == [] {
      BytesOfOne(Quad(q));
      assert all == [Quad(q)] && BytesOf(items) + q == q;
    } else {
      BytesOfFirst(items, false);
      BytesOfFirst(items, true);
      BytesOfQuadLast(items[1..], q);
      FirstIsDigits(items, false);
      BytesOfMore(items[0], items[1..] + [Quad(q)], true);
      assert all == [items[0]] + (items[1..] + [Quad(q)]);
      assert items == [items[0]] + items[1..];
    }
  }

  /** The bytes of a zero run are the zeros that "::" stands for. */
  lemma RunIsZeros(src: seq<byte>, base: nat, len: nat)
    requires |src| == 16 && ZeroRun(Words(src), base, len)
    ensures src == src[0..2 * base] + Zeros(16 - 2 * base - 2 * (8 - base - len)) + src[2 * (base + len)..16]
  {
    var mid := Zeros(2 * len);
    forall k | 2 * base <= k < 2 * (base + len)
      ensures src[k] == 0
    {
      assert Words(src)[k / 2] == WordAt(src, k / 2);
    }
    assert src[2 * base..2 * (base + len)] == mid;
    assert src == src[0..2 * base] + src[2 * base..2 * (base + len)] + src[2 * (base + len)..16];
  }

  lemma WholeIsSpelling(src: seq<byte>)
    requires |src| == 16
    ensures var sp := Spelling(HexItems(Words(src)), false, []); ValidSpelling(sp) && Address(sp) == src
  {
    hide HexItems, Words;
    HexItemsBytes(src, 0, 8);
    WordsAreEight(src);
    assert Words(src)[0..8] == Words(src) && src[0..16] == src;
  }

  /** With good items on both sides of a zero run, "::" restores the address. */
  lemma GapIsSpelling(src: seq<byte>, base: nat, len: nat, head: seq<Item>, tail: seq<Item>)
    requires |src| == 16 && ZeroRun(Words(src), base, len) && len >= 1
    requires GoodItems(head, false) && GoodItems(head, true) && GoodItems(tail, true)
    requires BytesOf(head) == src[0..2 * base] && BytesOf(tail) == src[2 * (base + len)..16]
    ensures var sp := Spelling(head, true, tail); ValidSpelling(sp) && Address(sp) == src
  {
    hide BytesOf, GoodItems;
    RunIsZeros(src, base, len);
  }

  lemma CanonicalIsSpelling(src: seq<byte>, base: int, len: int)
    requires |src| == 16 && IsBest(Words(src), base, len)
    ensures ValidSpelling(Canonical(src, base, len)) && Address(Canonical(src, base, len)) == src
  {
    hide HexItems, BytesOf, IsBest, GoodItems, Words, ZeroRun, Address, ValidSpelling;
    var words := Words(src);
    WordsAreEight(src);
    if base == -1 {
      WholeIsSpelling(src);
      return;
    }
    BestIsRun(words, base, len);
    NoItems();
    if !InRun(base, len, 6) && Encapsulates(words, base, len) {
      HexItemsBytes(src, len, 6);
      BytesOfQuadLast(HexItems(words[len..6]), src[12..]);
      JoinSlices(src, 2 * len, 12);
      assert src[0..0] == [];
      GapIsSpelling(src, 0, len, [], HexItems(words[len..6]) + [Quad(src[12..])]);
    } else {
      HexItemsBytes(src, 0, base);
      HexItemsBytes(src, base + len, 8);
      assert words[0..base] == words[..base] && words[base + len..8] == words[base + len..];
      GapIsSpelling(src, base, len, HexItems(words[..base]), HexItems(words[base + len..]));
    }
  }

  lemma JoinSlices(src: seq<byte>, lo: nat, mid: nat)
    requires lo <= mid <= |src| == 16
    ensures src[lo..mid] + src[mid..] == src[lo..16]
  {
  }

  lemma WordsAreEight(src: seq<byte>)
    requires |src| == 16
    ensures |Words(src)| == 8 && forall k | 0 <= k < 8 :: Words(src)[k] < 0x1_0000
  {
  }

  lemma NoItems()
    ensures GoodItems([], true) && GoodItems([], false) && BytesOf([]) == []
  {
  }

  lemma BestIsRun(words: seq<nat>, base: int, len: int)
    requires IsBest(words, base, len) && base != -1
    ensures ZeroRun(words, base, len) && base >= 0 && len >= 2 && base + len <= |words|
  {
  }

  /** Reading the text of an address gives the address back. */
  lemma TextReadsBack(src: seq<byte>, text: string)
    requires |src| == 16 && IsTextOf(src, text)
    ensures Parse6(text) == Some(src)
  {
    var base: int, len: int :| IsBest(Words(src), base, len) && text == Spelled(Canonical(src, base, len));
    CanonicalIsSpelling(src, base, len);
    SpellingIsRead(Canonical(src, base, len));
  }

  // ---------- Writing ----------

  /** uv__strscpy: how many characters were copied, or none when the text was cut. */
  method Strscpy(s: string, n: nat) returns (copied: Option<nat>, dst: Option<string>)
    ensures n == 0 ==> copied == Some(0) && dst == None
    ensures |s| < n ==> copied == Some(|s|) && dst == Some(s)
    ensures 0 < n <= |s| ==> copied == None && dst == Some(s[..n - 1])
  {
    var d := "";
    for i := 0 to n
      invariant i <= |s| && d == s[..i]
    {
      if i == |s| {
        assert s[..|s|] == s;
        return Some(i), Some(d);
      }
      d := d + [s[i]];
    }
    if n == 0 {
      return Some(0), None;
    }
    assert s[..n][..n - 1] == s[..n - 1];
    return None, Some(d[..n - 1]);
  }

  lemma DottedLength(q: seq<byte>)
    requires |q| == 4
    ensures Dotted(q) == Decimal(q[0]) + "." + Decimal(q[1]) + "." + Decimal(q[2]) + "." + Decimal(q[3])
    ensures |Dotted(q)| <= 15
  {
    DecimalLength(q[0]);
    DecimalLength(q[1]);
    DecimalLength(q[2]);
    DecimalLength(q[3]);
    assert q[1..][1..] == q[2..] && q[2..][1..] == q[3..];
    assert Dotted(q[3..]) == Decimal(q[3]);
    assert Dotted(q[2..]) == Decimal(q[2]) + "." + Dotted(q[3..]);
    assert Dotted(q[1..]) == Decimal(q[1]) + "." + Dotted(q[2..]);
  }

  method InetNtop4(src: seq<byte>, size: nat) returns (rc: Status, dst: Option<string>)
    requires |src| == 4
    ensures |Dotted(src)| < size ==> rc == Success && dst == Some(Dotted(src))
    ensures |Dotted(src)| >= size ==> rc == NoSpace && dst == None
  {
    DottedLength(src);
    var tmp := Decimal(src[0]) + "." + Decimal(src[1]) + "." + Decimal(src[2]) + "." + Decimal(src[3]);
    assert |tmp| < ADDRSTRLEN;
    if |tmp| >= size {
      return NoSpace, None;
    }
    var _, text := Strscpy(tmp, size);
    return Success, text;
  }

  /** The text after the first i words. */
  function Partial(words: seq<nat>, base: int, len: int, i: nat): string
    requires |words| == 8 && i <= 8 && (base == -1 || ZeroRun(words, base, len))
  {
    if base == -1 || i <= base then Join(HexItems(words[..i]))
    else if i <= base + len then Join(HexItems(words[..base])) + ":"
    else Join(HexItems(words[..base])) + "::" + Join(HexItems(words[base + len..i]))
  }

  lemma {:induction false} JoinSnoc(items: seq<Item>, item: Item)
    ensures Join(items + [item]) == Join(items) + (if items == [] then "" else ":") + ItemText(item)
    decreases |items|
  {
    if items == [] {
      assert items + [item] == [item];
    } else {
      assert (items + [item])[1..] == items[1..] + [item];
      JoinSnoc(items[1..], item);
    }
  }

  lemma HexItemsSnoc(words: seq<nat>, lo: nat, i: nat)
    requires lo <= i < |words|
    ensures Join(HexItems(words[lo..i + 1])) ==
            Join(HexItems(words[lo..i])) + (if lo == i then "" else ":") + Hex(words[i])
  {
    assert HexItems(words[lo..i + 1]) == HexItems(words[lo..i]) + [Digits(Hex(words[i]))];
    JoinSnoc(HexItems(words[lo..i]), Digits(Hex(words[i])));
  }

  lemma PartialOutside(words: seq<nat>, base: int, len: int, i: nat)
    requires |words| == 8 && i < 8 && (base == -1 || (ZeroRun(words, base, len) && len >= 2)) && !InRun(base, len, i)
    ensures Partial(words, base, len, i + 1) ==
            Partial(words, base, len, i) + (if i != 0 then ":" else "") + Hex(words[i])
  {
    hide HexItems, Join, Hex, ZeroRun;
    if base == -1 || i < base {
      HexItemsSnoc(words, 0, i);
      assert words[0..i] == words[..i] && words[0..i + 1] == words[..i + 1];
    } else {
      RunBounds(words, base, len);
      HexItemsSnoc(words, base + len, i);
      var head := Join(HexItems(words[..base]));
      if i == base + len {
        JoinOfNone(words[i..i]);
      } else {
        assert head + "::" + (Join(HexItems(words[base + len..i])) + ":" + Hex(words[i])) ==
               head + "::" + Join(HexItems(words[base + len..i])) + ":" + Hex(words[i]);
      }
    }
  }

  lemma RunBounds(words: seq<nat>, base: int, len: int)
    requires ZeroRun(words, base, len)
    ensures 0 <= base && 0 <= len && base + len <= |words|
  {
  }

  lemma JoinOfNone(words: seq<nat>)
    requires words == []
    ensures Join(HexItems(words)) == ""
  {
  }

  lemma PartialInside(words: seq<nat>, base: int, len: int, i: nat)
    requires |words| == 8 && i < 8 && ZeroRun(words, base, len) && InRun(base, len, i)
    ensures Partial(words, base, len, i + 1) == Partial(words, base, len, i) + if i == base then ":" else ""
  {
  }

  lemma PartialStart(words: seq<nat>, base: int, len: int)
    requires |words| == 8 && (base == -1 || ZeroRun(words, base, len))
    ensures Partial(words, base, len, 0) == ""
  {
  }

  lemma {:induction false} PartialLength(words: seq<nat>, base: int, len: int, i: nat)
    requires |words| == 8 && (forall k | 0 <= k < 8 :: words[k] < 0x1_0000) && i <= 8
    requires base == -1 || (ZeroRun(words, base, len) && len >= 2)
    ensures |Partial(words, base, len, i)| <= 5 * i
  {
    hide Partial, Hex;
    if i == 0 {
      PartialStart(words, base, len);
    } else {
      PartialLength(words, base, len, i - 1);
      if InRun(base, len, i - 1) {
        PartialInside(words, base, len, i - 1);
      } else {
        PartialOutside(words, base, len, i - 1);
        HexLength(words[i - 1]);
      }
    }
  }

  lemma QuadText(src: seq<byte>, base: int, len: int)
    requires |src| == 16 && IsBest(Words(src), base, len)
    requires !InRun(base, len, 6) && Encapsulates(Words(src), base, len)
    ensures base == 0 && ZeroRun(Words(src), 0, len)
    ensures var text := Partial(Words(src), base, len, 6);
            |text| <= 6 && text + ":" + Dotted(src[12..]) == Spelled(Canonical(src, base, len))
  {
    hide *;
    WordsAreEight(src);
    EncapsulatesMeans(Words(src), base, len);
    BestIsRun(Words(src), base, len);
    if len == 6 {
      CompatibleText(src, base, len);
    } else {
      MappedText(src, base, len);
    }
  }

  lemma EncapsulatesMeans(words: seq<nat>, base: int, len: int)
    requires |words| == 8 && !InRun(base, len, 6) && Encapsulates(words, base, len)
    ensures base == 0 && (len == 5 || len == 6)
  {
  }

  lemma CompatibleText(src: seq<byte>, base: int, len: int)
    requires |src| == 16 && base == 0 && len == 6 && ZeroRun(Words(src), 0, 6) && IsBest(Words(src), base, len)
    ensures var text := Partial(Words(src), base, len, 6);
            |text| <= 6 && text + ":" + Dotted(src[12..]) == Spelled(Canonical(src, base, len))
  {
    hide HexItems, Join, Hex, Dotted, Words, IsBest, ZeroRun;
    var items := HexItems(Words(src)[6..6]);
    JoinOfNone(Words(src)[..0]);
    JoinOfNone(Words(src)[6..6]);
    HexItemsLength(Words(src)[6..6]);
    JoinSnoc(items, Quad(src[12..]));
  }

  lemma MappedText(src: seq<byte>, base: int, len: int)
    requires |src| == 16 && base == 0 && len == 5 && ZeroRun(Words(src), 0, 5) && IsBest(Words(src), base, len)
    requires Encapsulates(Words(src), base, len) && Words(src)[5] < 0x1_0000
    ensures var text := Partial(Words(src), base, len, 6);
            |text| <= 6 && text + ":" + Dotted(src[12..]) == Spelled(Canonical(src, base, len))
  {
    hide *;
    WordsAreEight(src);
    var words, text := Words(src), Dotted(src[12..]);
    OneGroup(words, text);
    MappedPartial(words);
    MappedCanonical(src);
    JoinSnoc(HexItems(words[5..6]), Quad(src[12..]));
    HexItemsLength(words[5..6]);
    QuadItemText(src[12..]);
  }

  lemma QuadItemText(q: seq<byte>)
    ensures ItemText(Quad(q)) == Dotted(q)
  {
  }

  lemma OneGroup(words: seq<nat>, text: string)
    requires |words| == 8 && words[5] < 0x1_0000
    ensures |Join(HexItems(words[5..6]))| <= 4
    ensures "" + "::" + (Join(HexItems(words[5..6])) + ":" + text) == "::" + Join(HexItems(words[5..6])) + ":" + text
  {
    hide Join, HexItems, Hex;
    HexItemsSnoc(words, 5, 5);
    JoinOfNone(words[5..5]);
    HexLength(words[5]);
  }

  lemma MappedPartial(words: seq<nat>)
    requires |words| == 8 && ZeroRun(words, 0, 5)
    ensures Partial(words, 0, 5, 6) == "::" + Join(HexItems(words[5..6]))
  {
    hide Join, HexItems, ZeroRun;
    JoinOfNone(words[..0]);
  }

  lemma MappedCanonical(src: seq<byte>)
    requires |src| == 16 && IsBest(Words(src), 0, 5) && |Words(src)| == 8 && Encapsulates(Words(src), 0, 5)
    ensures Spelled(Canonical(src, 0, 5)) == "" + "::" + Join(HexItems(Words(src)[5..6]) + [Quad(src[12..])])
  {
    hide Join, HexItems, IsBest, Words;
    NothingJoined();
  }

  lemma NothingJoined()
    ensures Join([]) == ""
  {
  }

  lemma HexItemsLength(words: seq<nat>)
    ensures |HexItems(words)| == |words|
  {
  }

  lemma PlainText(src: seq<byte>, base: int, len: int)
    requires |src| == 16 && IsBest(Words(src), base, len)
    requires InRun(base, len, 6) || !Encapsulates(Words(src), base, len)
    requires base == -1 || ZeroRun(Words(src), base, len)
    ensures Partial(Words(src), base, len, 8) + (if base != -1 && base + len == 8 then ":" else "") ==
            Spelled(Canonical(src, base, len))
  {
    var words := Words(src);
    if base == -1 {
      assert words[..8] == words;
    } else if base + len == 8 {
      JoinOfNone(words[8..]);
      assert Join(HexItems(words[..base])) + ":" + ":" == Join(HexItems(words[..base])) + "::";
    } else {
      assert words[base + len..8] == words[base + len..];
    }
  }

  method WordsFromBytes(src: seq<byte>) returns (words: seq<nat>)
    requires |src| == 16
    ensures words == Words(src)
  {
    words := seq(8, _ => 0);
    for i := 0 to 16
      invariant |words| == 8
      invariant forall k | 0 <= k < 8 ::
                  words[k] == if 2 * k + 1 < i then WordAt(src, k)
                              else if 2 * k < i then 256 * (src[2 * k] as int)
                              else 0
    {
      // The bits of the two bytes do not meet, so the bitwise or is a sum.
      words := words[i / 2 := words[i / 2] + (src[i] as int) * (if i % 2 == 0 then 256 else 1)];
    }
  }

  /** inet_ntop6: size 0 is reported as a success that writes nothing; a text that does not fit is written cut off. */
  method InetNtop6(src: seq<byte>, size: nat) returns (rc: Status, dst: Option<string>, ghost text: string)
    requires |src| == 16
    ensures IsTextOf(src, text) && |text| < ADDRSTRLEN6
    ensures size == 0 ==> rc == Success && dst == None
    ensures |text| < size ==> rc == Success && dst == Some(text)
    ensures 0 < size <= |text| ==> rc == NoSpace && dst == Some(text[..size - 1])
  {
    hide Partial, Hex, Join, Dotted, IsBest, Words, ZeroRun, Canonical;
    var words := WordsFromBytes(src);
    WordsAreEight(src);
    var base, len := FindBestRun(words);
    if base != -1 {
      BestIsRun(words, base, len);
    }
    PartialStart(words, base, len);
    var tmp := "";
    var i: nat := 0;
    var quad := false;
    while i < 8
      invariant i <= 8 && tmp == Partial(words, base, len, i)
      invariant i > 6 ==> InRun(base, len, 6) || !Encapsulates(words, base, len)
    {
      if InRun(base, len, i) {
        PartialInside(words, base, len, i);
        if i == base {
          tmp := tmp + ":";
        }
        i := i + 1;
        continue;
      }
      if i == 6 && Encapsulates(words, base, len) {
        QuadText(src, base, len);
        tmp := tmp + ":";
        assert |tmp| <= 7;
        DottedLength(src[12..]);
        var err, d := InetNtop4(src[12..], ADDRSTRLEN6 - |tmp|);
        assert err == Success;
        tmp := tmp + d.value;
        quad := true;
        break;
      }
      PartialOutside(words, base, len, i);
      if i != 0 {
        tmp := tmp + ":";
      }
      tmp := tmp + Hex(words[i]);
      i := i + 1;
    }
    if !quad {
      PlainText(src, base, len);
      PartialLength(words, base, len, 8);
    }
    if base != -1 && base + len == 8 {
      tmp := tmp + ":";
    }
    text := tmp;
    var copied: Option<nat>;
    copied, dst := Strscpy(tmp, size);
    rc := if copied.None? then NoSpace else Success;
  }

  /** uv_inet_ntop. */
  method UvInetNtop(family: Family, src: seq<byte>, size: nat)
    returns (rc: Status, dst: Option<string>, ghost text: string)
    requires family.Inet4? ==> |src| == 4
    requires family.Inet6? ==> |src| == 16
    ensures family.OtherFamily? ==> rc == UnsupportedFamily && dst == None
    ensures family.Inet4? ==> Parse4(text) == Some(src) && |text| < 16
    ensures family.Inet6? ==> Parse6(text) == Some(src) && |text| < 46 && Tidy(text)
    ensures !family.OtherFamily? && |text| < size ==> rc == Success && dst == Some(text)
    ensures !family.OtherFamily? && 0 < size <= |text| ==> rc == NoSpace
  {
    match family {
      case Inet4 =>
        rc, dst := InetNtop4(src, size);
        text := Dotted(src);
        DottedLength(src);
        DottedIsTheOnlySpelling(text, src);
      case Inet6 =>
        rc, dst, text := InetNtop6(src, size);
        TextReadsBack(src, text);
        TextIsTidy(src, text);
      case OtherFamily =>
        rc, dst, text := UnsupportedFamily, None, "";
    }
  }

  // ---------- Reading ----------

  lemma Suffix(s: string, i: nat)
    requires i < |s|
    ensures s[i..] != "" && s[i..][0] == s[i] && s[i..][1..] == s[i + 1..]
  {
  }

  method InetPton4(src: string) returns (r: Option<seq<byte>>)
    ensures r == Parse4(src)
  {
    var tmp := new byte[4](_ => 0);
    var tp: nat, octets: nat, sawDigit: bool, i: nat := 0, 0, false, 0;
    assert src[0..] == src && tmp[..0] == [];
    while i < |src|
      invariant i <= |src| && tp < 4 && octets == tp + if sawDigit then 1 else 0
      invariant !sawDigit ==> tmp[tp] == 0
      invariant Scan4(src[i..], tmp[..tp], tmp[tp], sawDigit) == Parse4(src)
    {
      var ch := src[i];
      Suffix(src, i);
      i := i + 1;
      if IsDigit(ch) {
        var nw := tmp[tp] * 10 + DigitValue(ch);
        if sawDigit && tmp[tp] == 0 {
          return None;
        }
        if nw > 255 {
          return None;
        }
        ghost var done := tmp[..tp];
        tmp[tp] := nw;
        assert tmp[..tp] == done;
        if !sawDigit {
          octets := octets + 1;
          if octets > 4 {
            return None;
          }
          sawDigit := true;
        }
      } else if ch == '.' && sawDigit {
        if octets == 4 {
          return None;
        }
        ghost var done := tmp[..tp + 1];
        assert done == tmp[..tp] + [tmp[tp]];
        tp := tp + 1;
        tmp[tp] := 0;
        assert tmp[..tp] == done;
        sawDigit := false;
      } else {
        return None;
      }
    }
    assert src[i..] == "";
    if octets < 4 {
      return None;
    }
    assert tmp[..] == tmp[..3] + [tmp[3]];
    return Some(tmp[..]);
  }

  /** Moves the n bytes from c to the end of the buffer, one at a time from the back, and clears where they were. */
  method ShiftToEnd(tmp: array<byte>, c: nat, tp: nat)
    requires tmp.Length == 16 && c <= tp < 16
    modifies tmp
    ensures tmp[..] == old(tmp[..c]) + Zeros(16 - tp) + old(tmp[c..tp])
    requires forall k | tp <= k < 16 :: tmp[k] == 0
  {
    var n := tp - c;
    var i: nat := 1;
    while i <= n
      invariant 1 <= i <= n + 1
      invariant forall k | 0 <= k < tp - (i - 1) :: tmp[k] == old(tmp[k])
      invariant forall k | tp - (i - 1) <= k < 16 - (i - 1) :: tmp[k] == 0
      invariant forall k | 16 - (i - 1) <= k < 16 :: tmp[k] == old(tmp[k - (16 - tp)])
    {
      tmp[16 - i] := tmp[c + n - i];
      tmp[c + n - i] := 0;
      i := i + 1;
    }
    assert forall k | 0 <= k < 16 :: tmp[k] == (old(tmp[..c]) + Zeros(16 - tp) + old(tmp[c..tp]))[k];
  }

  function ColonAt(colonp: int): Option<nat> {
    if colonp < 0 then None else Some(colonp)
  }

  /** One character of a group, a colon, or the start of an IPv4 address: the scanner after it. */
  lemma ScanStep(src: string, i: nat, curtok: nat, out: seq<byte>, colon: Option<nat>)
    requires curtok <= i < |src| && |out| <= 16 && (colon.Some? ==> colon.value <= |out|)
    requires AllHex(src[curtok..i]) && i - curtok <= 4
    ensures var ch, digits, here := src[i], src[curtok..i], Scan6(src[i..], src[curtok..], out, colon, src[curtok..i]);
            var val := (ValueFits(digits); ValueFrom(0, digits));
            && (IsHex(ch) && |digits| == 4 ==> here == None)
            && (IsHex(ch) && |digits| < 4 ==>
                  && AllHex(src[curtok..i + 1]) && ValueFrom(0, src[curtok..i + 1]) == 16 * val + DigitValue(ch)
                  && here == Scan6(src[i + 1..], src[curtok..], out, colon, src[curtok..i + 1]))
            && (ch == ':' && digits == "" ==>
                  if colon.Some? then here == None
                  else here == Scan6(src[i + 1..], src[i + 1..], out, Some(|out|), ""))
            && (ch == ':' && digits != "" ==>
                  if i + 1 == |src| || |out| + 2 > 16 then here == None
                  else here == Scan6(src[i + 1..], src[i + 1..], out + Word(val), colon, ""))
            && (ch == '.' && |out| + 4 <= 16 ==>
                  match Parse4(src[curtok..])
                  case None => here == None
                  case Some(q) => here == Finish(out + q, colon, 0, val))
            && (!IsHex(ch) && ch != ':' && !(ch == '.' && |out| + 4 <= 16) ==> here == None)
  {
    hide Parse4, ValueFrom, Finish;
    Suffix(src, i);
    ValueFits(src[curtok..i]);
    if IsHex(src[i]) {
      ValueSnoc(0, src[curtok..i], src[i]);
      assert src[curtok..i + 1] == src[curtok..i] + [src[i]];
    }
  }

  lemma ScanEnd(src: string, curtok: nat, out: seq<byte>, colon: Option<nat>)
    requires curtok <= |src| && |out| <= 16 && (colon.Some? ==> colon.value <= |out|)
    requires AllHex(src[curtok..|src|]) && |src| - curtok <= 4
    ensures ValueFrom(0, src[curtok..|src|]) < 0x1_0000
    ensures Scan6(src[|src|..], src[curtok..], out, colon, src[curtok..|src|]) ==
            Finish(out, colon, |src| - curtok, (ValueFits(src[curtok..|src|]); ValueFrom(0, src[curtok..|src|])))
  {
    ValueFits(src[curtok..|src|]);
  }

  lemma StartOfScan(src: string, i: nat)
    requires if src != "" && src[0] == ':' then |src| >= 2 && src[1] == ':' && i == 1 else i == 0
    ensures i <= |src| && AllHex(src[i..i]) && ValueFrom(0, src[i..i]) == 0
    ensures Scan6(src[i..], src[i..], [], None, src[i..i]) == Parse6(src)
  {
    assert src[0..] == src && src[i..i] == "";
  }

  /** Groups without digits pending do not depend on the value. */
  lemma FinishNoDigits(out: seq<byte>, colon: Option<nat>, val: nat)
    requires |out| <= 16 && (colon.Some? ==> colon.value <= |out|) && val < 0x1_0000
    ensures Finish(out, colon, 0, val) == Finish(out, colon, 0, 0)
  {
  }

  lemma EmptyGroup(src: string, i: nat)
    requires i <= |src|
    ensures src[i..i] == "" && AllHex(src[i..i]) && ValueFrom(0, src[i..i]) == 0
  {
  }

  /** The loop of inet_pton6: the bytes written, where "::" was, and the group still pending. */
  method ScanGroups(src: string, start: nat, tmp: array<byte>)
    returns (ok: bool, tp: nat, colonp: int, seen: nat, val: nat)
    requires if src != "" && src[0] == ':' then |src| >= 2 && src[1] == ':' && start == 1 else start == 0
    requires tmp.Length == 16 && forall k | 0 <= k < 16 :: tmp[k] == 0
    modifies tmp
    ensures !ok ==> Parse6(src) == None
    ensures ok ==>
              && tp <= 16 && -1 <= colonp <= tp && val < 0x1_0000
              && (forall k | tp <= k < 16 :: tmp[k] == 0)
              && Finish(tmp[..tp], ColonAt(colonp), seen, val) == Parse6(src)
  {
    hide Scan6, Parse4, Parse6, ValueFrom, Finish, AllHex, IsHex, Word;
    var i: nat := start;
    var curtok: nat := start;
    ok, tp, colonp, seen, val := false, 0, -1, 0, 0;
    StartOfScan(src, start);
    assert tmp[..0] == [];
    while i < |src|
      invariant curtok <= i <= |src| && tp <= 16 && -1 <= colonp <= tp && seen == i - curtok <= 4
      invariant forall k | tp <= k < 16 :: tmp[k] == 0
      invariant AllHex(src[curtok..i]) && val == ValueFrom(0, src[curtok..i])
      invariant Scan6(src[i..], src[curtok..], tmp[..tp], ColonAt(colonp), src[curtok..i]) == Parse6(src)
    {
      var ch := src[i];
      ScanStep(src, i, curtok, tmp[..tp], ColonAt(colonp));
      ValueFits(src[curtok..i]);
      if IsHex(ch) {
        val := 16 * val + DigitValue(ch);
        seen := seen + 1;
        if seen > 4 {
          return;
        }
        i := i + 1;
        continue;
      }
      i := i + 1;
      if ch == ':' {
        curtok := i;
        EmptyGroup(src, i);
        if seen == 0 {
          if colonp != -1 {
            return;
          }
          colonp := tp;
          val := 0;
          continue;
        } else if i == |src| {
          return;
        }
        if tp + 2 > 16 {
          return;
        }
        ghost var out := tmp[..tp];
        PutWord(tmp, tp, val);
        tp := tp + 2;
        assert tmp[..tp] == out + Word(val);
        seen, val := 0, 0;
        continue;
      }
      if ch == '.' && tp + 4 <= 16 {
        var quad := InetPton4(src[curtok..]);
        if quad.Some? {
          FinishNoDigits(tmp[..tp] + quad.value, ColonAt(colonp), val);
          FinishNoDigits(tmp[..tp] + quad.value, ColonAt(colonp), 0);
          ghost var out := tmp[..tp];
          PutQuad(tmp, tp, quad.value);
          tp := tp + 4;
          assert tmp[..tp] == out + quad.value;
          return true, tp, colonp, 0, 0;
        }
      }
      return;
    }
    ScanEnd(src, curtok, tmp[..tp], ColonAt(colonp));
    ok := true;
  }

  /** The high byte, then the low byte. */
  method PutWord(tmp: array<byte>, tp: nat, val: nat)
    requires tp + 2 <= tmp.Length && val < 0x1_0000
    modifies tmp
    ensures tmp[tp..tp + 2] == Word(val)
    ensures forall k | 0 <= k < tmp.Length && (k < tp || tp + 2 <= k) :: tmp[k] == old(tmp[k])
  {
    tmp[tp], tmp[tp + 1] := val / 256, val % 256;
  }

  method PutQuad(tmp: array<byte>, tp: nat, q: seq<byte>)
    requires tp + 4 <= tmp.Length && |q| == 4
    modifies tmp
    ensures tmp[tp..tp + 4] == q
    ensures forall k | 0 <= k < tmp.Length && (k < tp || tp + 4 <= k) :: tmp[k] == old(tmp[k])
  {
    tmp[tp], tmp[tp + 1], tmp[tp + 2], tmp[tp + 3] := q[0], q[1], q[2], q[3];
  }

  /** inet_pton6. */
  method InetPton6(src: string) returns (r: Option<seq<byte>>)
    ensures r == Parse6(src)
  {
    hide Scan6, Zeros;
    var tmp := new byte[16](_ => 0);
    var start: nat := 0;
    if src != "" && src[0] == ':' {
      if |src| < 2 || src[1] != ':' {
        return None;
      }
      start := 1;
    }
    var ok, tp, colonp, seen, val := ScanGroups(src, start, tmp);
    if !ok {
      return None;
    }
    if seen > 0 {
      if tp + 2 > 16 {
        return None;
      }
      ghost var out := tmp[..tp];
      PutWord(tmp, tp, val);
      tp := tp + 2;
      assert tmp[..tp] == out + Word(val);
    }
    if colonp != -1 {
      if tp == 16 {
        return None;
      }
      assert tmp[..tp][..colonp] == tmp[..colonp] && tmp[..tp][colonp..] == tmp[colonp..tp];
      ShiftToEnd(tmp, colonp, tp);
      tp := 16;
    }
    if tp != 16 {
      return None;
    }
    assert tmp[..] == tmp[..16];
    return Some(tmp[..]);
  }

  // ---------- Zones ----------

  /** The text before the first '%'. */
  function Zoneless(s: string): (r: string)
    ensures r <= s && '%' !in r
    ensures r == s || s[|r|] == '%'
  {
    if s == "" || s[0] == '%' then "" else [s[0]] + Zoneless(s[1..])
  }

  lemma {:induction false} ZonelessIs(text: string, zone: string)
    requires '%' !in text
    ensures Zoneless(text) == text && Zoneless(text + "%" + zone) == text
    decreases |text|
  {
    if text == "" {
      assert text + "%" + zone == "%" + zone;
    } else {
      ZonelessIs(text[1..], zone);
      assert (text + "%" + zone)[1..] == text[1..] + "%" + zone;
    }
  }

  /** uv_inet_pton: an IPv6 zone is ignored, but a text with a zone may not be longer than the buffer. */
  method UvInetPton(family: Family, src: string) returns (rc: Status, dst: Option<seq<byte>>)
    ensures family.OtherFamily? ==> rc == UnsupportedFamily && dst == None
    ensures family.Inet4? ==> dst == Parse4(src)
    ensures family.Inet6? ==>
              dst == if '%' in src && |Zoneless(src)| > 45 then None else Parse6(Zoneless(src))
    ensures !family.OtherFamily? ==> rc == if dst.Some? then Success else Invalid
  {
    match family {
      case Inet4 =>
        dst := InetPton4(src);
        rc := if dst.Some? then Success else Invalid;
      case Inet6 =>
        var p: nat := 0;
        while p < |src| && src[p] != '%'
          invariant p <= |src| && '%' !in src[..p]
        {
          p := p + 1;
        }
        assert src == src[..p] + src[p..];
        if p < |src| {
          assert src == src[..p] + "%" + src[p + 1..];
          ZonelessIs(src[..p], src[p + 1..]);
          if p > ADDRSTRLEN6 - 1 {
            return Invalid, None;
          }
        } else {
          assert src[..p] == src;
          ZonelessIs(src, "");
        }
        dst := InetPton6(src[..p]);
        rc := if dst.Some? then Success else Invalid;
      case OtherFamily =>
        rc, dst := UnsupportedFamily, None;
    }
  }

  lemma {:induction false} DecimalHasNoPercent(b: nat)
    ensures '%' !in Decimal(b)
  {
    if b >= 10 {
      DecimalHasNoPercent(b / 10);
    }
  }

  lemma {:induction false} DottedHasNoPercent(q: seq<byte>)
    ensures '%' !in Dotted(q)
  {
    if q != [] {
      DecimalHasNoPercent(q[0]);
      DottedHasNoPercent(q[1..]);
    }
  }

  lemma {:induction false} JoinHasNoPercent(items: seq<Item>)
    requires GoodItems(items, true)
    ensures '%' !in Join(items)
    decreases |items|
  {
    if items != [] {
      BytesOfFirst(items, true);
      JoinHasNoPercent(items[1..]);
      match items[0] {
        case Quad(q) => DottedHasNoPercent(q);
        case Digits(d) =>
      }
    }
  }

  /** Any zone after the text of an address is ignored: the address comes back. */
  lemma ZoneIsIgnored(src: seq<byte>, text: string, zone: string)
    requires |src| == 16 && IsTextOf(src, text)
    ensures Zoneless(text + "%" + zone) == text && Parse6(Zoneless(text + "%" + zone)) == Some(src)
  {
    TextReadsBack(src, text);
    var base: int, len: int :| IsBest(Words(src), base, len) && text == Spelled(Canonical(src, base, len));
    var sp := Canonical(src, base, len);
    CanonicalIsSpelling(src, base, len);
    SpellingParts(sp);
    JoinHasNoPercent(sp.head);
    JoinHasNoPercent(sp.tail);
    ZonelessIs(text, zone);
  }
}
