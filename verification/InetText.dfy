/** Text forms of IPv4 and IPv6 addresses: what a spelling is, and the scanners of inet.c as functions of the text. */
module InetText {
  import opened Wrappers

  // ---------- Digits ----------

  predicate IsDigit(ch: char) {
    '0' <= ch <= '9'
  }

  predicate IsHex(ch: char) {
    IsDigit(ch) || 'a' <= ch <= 'f' || 'A' <= ch <= 'F'
  }

  function DigitValue(ch: char): (v: nat)
    requires IsHex(ch)
    ensures v < 16 && (IsDigit(ch) ==> v < 10)
  {
    if IsDigit(ch) then ch as int - '0' as int
    else if 'a' <= ch <= 'f' then ch as int - 'a' as int + 10
    else ch as int - 'A' as int + 10
  }

  function DigitOf(v: nat): (ch: char)
    requires v < 16
    ensures IsHex(ch) && DigitValue(ch) == v
    ensures v < 10 ==> IsDigit(ch)
  {
    if v < 10 then ('0' as int + v) as char else ('a' as int + (v - 10)) as char
  }

  predicate AllHex(d: string) {
    forall k | 0 <= k < |d| :: IsHex(d[k])
  }

  /** The value of more hexadecimal digits after a value already read. */
  function ValueFrom(val: nat, d: string): nat
    requires AllHex(d)
    decreases |d|
  {
    if d == "" then val else ValueFrom(16 * val + DigitValue(d[0]), d[1..])
  }

  lemma {:induction false} ValueSnoc(val: nat, d: string, ch: char)
    requires AllHex(d) && IsHex(ch)
    ensures AllHex(d + [ch]) && ValueFrom(val, d + [ch]) == 16 * ValueFrom(val, d) + DigitValue(ch)
    decreases |d|
  {
    if d == "" {
      assert [ch][1..] == "";
    } else {
      ValueSnoc(16 * val + DigitValue(d[0]), d[1..], ch);
      assert (d + [ch])[1..] == d[1..] + [ch];
    }
  }

  /** At most four digits make at most 16 bits. */
  lemma {:induction false} ValueFits(d: string)
    requires AllHex(d) && |d| <= 4
    ensures ValueFrom(0, d) < 0x1_0000
    ensures |d| <= 3 ==> ValueFrom(0, d) < 0x1000
    ensures |d| <= 2 ==> ValueFrom(0, d) < 0x100
    ensures |d| <= 1 ==> ValueFrom(0, d) < 0x10
  {
    if d != "" {
      ValueFits(d[..|d| - 1]);
      ValueSnoc(0, d[..|d| - 1], d[|d| - 1]);
      assert d[..|d| - 1] + [d[|d| - 1]] == d;
    }
  }

  /** "%u" of an octet. */
  function Decimal(b: nat): (d: string)
    ensures d != "" && AllHex(d) && IsDigit(d[0])
  {
    if b < 10 then [DigitOf(b)] else Decimal(b / 10) + [DigitOf(b % 10)]
  }

  lemma DecimalLength(b: byte)
    ensures |Decimal(b)| <= 3
  {
    if b >= 100 {
      assert |Decimal(b / 100)| == 1 && b / 10 / 10 == b / 100;
    }
  }

  /** "%x" of a 16-bit word: lower case, no leading zeros. */
  function Hex(w: nat): (d: string)
    ensures d != "" && AllHex(d)
  {
    if w < 16 then [DigitOf(w)] else Hex(w / 16) + [DigitOf(w % 16)]
  }

  lemma {:induction false} HexReadsBack(w: nat)
    ensures ValueFrom(0, Hex(w)) == w
  {
    if w < 16 {
      assert [DigitOf(w)][1..] == "";
    } else {
      HexReadsBack(w / 16);
      ValueSnoc(0, Hex(w / 16), DigitOf(w % 16));
    }
  }

  lemma HexLength(w: nat)
    requires w < 0x1_0000
    ensures |Hex(w)| <= 4
  {
    assert w / 16 / 16 / 16 < 16;
    assert |Hex(w / 16 / 16 / 16)| == 1;
    assert |Hex(w / 16 / 16)| <= 2;
    assert |Hex(w / 16)| <= 3;
  }

  // ---------- IPv4 ----------

  function Dotted(octets: seq<byte>): string {
    if octets == [] then ""
    else if |octets| == 1 then Decimal(octets[0])
    else Decimal(octets[0]) + "." + Dotted(octets[1..])
  }

  /** inet_pton4 from a state of its loop: the finished octets, the current one, and whether it has a digit. */
  function Scan4(rest: string, done: seq<byte>, cur: byte, saw: bool): (r: Option<seq<byte>>)
    requires |done| <= 3
    ensures r.Some? ==> |r.value| == 4
  {
    if rest == "" then
      if |done| + (if saw then 1 else 0) < 4 then None else Some(done + [cur])
    else if IsDigit(rest[0]) then
      var nw := cur * 10 + DigitValue(rest[0]);
      if (saw && cur == 0) || nw > 255 then None else Scan4(rest[1..], done, nw, true)
    else if rest[0] == '.' && saw && |done| < 3 then
      Scan4(rest[1..], done + [cur], 0, false)
    else
      None
  }

  function Parse4(s: string): (r: Option<seq<byte>>)
    ensures r.Some? ==> |r.value| == 4
  {
    Scan4(s, [], 0, false)
  }

  lemma Scan4Digit(v: nat, rest: string, done: seq<byte>, cur: byte, saw: bool)
    requires |done| <= 3 && v < 10 && (saw ==> cur > 0) && cur * 10 + v <= 255
    ensures Scan4([DigitOf(v)] + rest, done, cur, saw) == Scan4(rest, done, cur * 10 + v, true)
  {
    assert ([DigitOf(v)] + rest)[1..] == rest && ([DigitOf(v)] + rest)[0] == DigitOf(v);
  }

  lemma {:induction false} ScanDecimal(b: byte, rest: string, done: seq<byte>)
    requires |done| <= 3
    ensures Scan4(Decimal(b) + rest, done, 0, false) == Scan4(rest, done, b, true)
  {
    hide Scan4;
    if b < 10 {
      Scan4Digit(b, rest, done, 0, false);
    } else {
      var last := [DigitOf(b % 10)];
      assert Decimal(b) + rest == Decimal(b / 10) + (last + rest);
      ScanDecimal(b / 10, last + rest, done);
      Scan4Digit(b % 10, rest, done, b / 10, true);
    }
  }

  lemma {:induction false} ScanDotted(octets: seq<byte>, done: seq<byte>)
    requires octets != [] && |done| + |octets| == 4
    ensures Scan4(Dotted(octets), done, 0, false) == Some(done + octets)
  {
    if |octets| == 1 {
      ScanDecimal(octets[0], "", done);
      assert Decimal(octets[0]) + "" == Decimal(octets[0]) && octets == [octets[0]];
    } else {
      var more := "." + Dotted(octets[1..]);
      assert Dotted(octets) == Decimal(octets[0]) + more;
      ScanDecimal(octets[0], more, done);
      assert more[1..] == Dotted(octets[1..]);
      ScanDotted(octets[1..], done + [octets[0]]);
      assert done + [octets[0]] + octets[1..] == done + octets;
    }
  }

  lemma DecimalSnoc(cur: nat, ch: char)
    requires IsDigit(ch)
    ensures cur > 0 ==> Decimal(10 * cur + DigitValue(ch)) == Decimal(cur) + [ch]
    ensures Decimal(DigitValue(ch)) == [ch]
  {
    assert DigitOf(DigitValue(ch)) == ch;
  }

  lemma Scan4Step(rest: string, done: seq<byte>, cur: byte, saw: bool)
    requires |done| <= 3 && Scan4(rest, done, cur, saw).Some?
    ensures rest == "" ==> saw && Scan4(rest, done, cur, saw) == Some(done + [cur])
    ensures rest != "" && IsDigit(rest[0]) ==>
              && (saw ==> cur > 0) && cur * 10 + DigitValue(rest[0]) <= 255
              && Scan4(rest, done, cur, saw) == Scan4(rest[1..], done, cur * 10 + DigitValue(rest[0]), true)
    ensures rest != "" && !IsDigit(rest[0]) ==>
              && saw && rest[0] == '.' && |done| < 3
              && Scan4(rest, done, cur, saw) == Scan4(rest[1..], done + [cur], 0, false)
  {
  }

  lemma DigitIsHex(ch: char)
    requires IsDigit(ch)
    ensures IsHex(ch)
  {
  }

  lemma DigitTaken(rest: string, cur: byte, saw: bool)
    requires rest != "" && IsDigit(rest[0]) && (if saw then cur > 0 else cur == 0)
    ensures (if saw then Decimal(cur) else "") + rest == Decimal(cur * 10 + DigitValue(rest[0])) + rest[1..]
  {
    hide Decimal, DigitValue;
    DecimalSnoc(cur, rest[0]);
    assert rest == [rest[0]] + rest[1..];
    assert Decimal(cur) + rest == Decimal(cur) + [rest[0]] + rest[1..] && "" + rest == rest;
  }

  lemma DottedOne(octet: byte)
    ensures Dotted([octet]) == Decimal(octet)
  {
  }

  lemma DottedMore(octet: byte, more: seq<byte>)
    requires more != []
    ensures Dotted([octet] + more) == Decimal(octet) + "." + Dotted(more)
  {
    assert ([octet] + more)[1..] == more;
  }

  lemma {:induction false} ScannedIsDotted(rest: string, done: seq<byte>, cur: byte, saw: bool)
    returns (octets: seq<byte>)
    requires |done| <= 3 && Scan4(rest, done, cur, saw).Some? && (saw || cur == 0)
    ensures octets != [] && Scan4(rest, done, cur, saw) == Some(done + octets)
    ensures (if saw then Decimal(cur) else "") + rest == Dotted(octets)
    decreases |rest|
  {
    hide *;
    Scan4Step(rest, done, cur, saw);
    if rest == "" {
      octets := [cur];
      DottedOne(cur);
      assert Decimal(cur) + rest == Decimal(cur);
    } else if IsDigit(rest[0]) {
      DigitIsHex(rest[0]);
      var nw := cur * 10 + DigitValue(rest[0]);
      octets := ScannedIsDotted(rest[1..], done, nw, true);
      DigitTaken(rest, cur, saw);
    } else {
      var more := ScannedIsDotted(rest[1..], done + [cur], 0, false);
      octets := [cur] + more;
      DottedMore(cur, more);
      assert "" + rest[1..] == rest[1..];
      assert done + octets == done + [cur] + more;
      assert rest == "." + rest[1..];
      assert Decimal(cur) + rest == Decimal(cur) + "." + rest[1..];
    }
  }

  /** inet_pton4 accepts exactly what inet_ntop4 writes: four decimal numbers without leading zeros. */
  lemma DottedIsTheOnlySpelling(s: string, q: seq<byte>)
    ensures Parse4(s) == Some(q) <==> |q| == 4 && s == Dotted(q)
  {
    if |q| == 4 && s == Dotted(q) {
      ScanDotted(q, []);
      assert [] + q == q;
    }
    if Parse4(s) == Some(q) {
      var octets := ScannedIsDotted(s, [], 0, false);
      assert [] + octets == octets && "" + s == s;
    }
  }

  // ---------- IPv6 spellings ----------

  /** One item between colons: up to four hexadecimal digits, or an IPv4 address, which may only come last. */
  datatype Item = Digits(d: string) | Quad(q: seq<byte>)

  datatype Spelling = Spelling(head: seq<Item>, gap: bool, tail: seq<Item>)

  function ItemText(item: Item): string {
    match item
    case Digits(d) => d
    case Quad(q) => Dotted(q)
  }

  function Join(items: seq<Item>): string {
    if items == [] then ""
    else if |items| == 1 then ItemText(items[0])
    else ItemText(items[0]) + ":" + Join(items[1..])
  }

  predicate GoodDigits(item: Item) {
    item.Digits? && 1 <= |item.d| <= 4 && AllHex(item.d)
  }

  predicate GoodItem(item: Item, last: bool) {
    GoodDigits(item) || (last && item.Quad? && |item.q| == 4)
  }

  predicate GoodItems(items: seq<Item>, quadAllowed: bool) {
    forall k | 0 <= k < |items| :: GoodItem(items[k], quadAllowed && k == |items| - 1)
  }

  function Word(val: nat): (r: seq<byte>)
    requires val < 0x1_0000
    ensures |r| == 2
  {
    [val / 256, val % 256]
  }

  function ItemBytes(item: Item): (r: seq<byte>)
    requires GoodItem(item, true)
    ensures |r| == 2 || |r| == 4
  {
    match item
    case Digits(d) => ValueFits(d); Word(ValueFrom(0, d))
    case Quad(q) => q
  }

  function BytesOf(items: seq<Item>): seq<byte>
    requires GoodItems(items, true)
  {
    if items == [] then [] else ItemBytes(items[0]) + BytesOf(items[1..])
  }

  function Zeros(n: nat): (r: seq<byte>)
    ensures |r| == n && forall k | 0 <= k < n :: r[k] == 0
  {
    seq(n, _ => 0)
  }

  /** A text form in the sense of section 2.2 of RFC 4291, where "::" stands for at least one group of zeros. */
  predicate ValidSpelling(sp: Spelling) {
    && GoodItems(sp.head, !sp.gap) && GoodItems(sp.tail, true)
    && if sp.gap then |BytesOf(sp.head)| + |BytesOf(sp.tail)| < 16 else sp.tail == [] && |BytesOf(sp.head)| == 16
  }

  function Spelled(sp: Spelling): string {
    if sp.gap then Join(sp.head) + "::" + Join(sp.tail) else Join(sp.head)
  }

  function Address(sp: Spelling): (a: seq<byte>)
    requires ValidSpelling(sp)
    ensures |a| == 16
  {
    if sp.gap then
      BytesOf(sp.head) + Zeros(16 - |BytesOf(sp.head)| - |BytesOf(sp.tail)|) + BytesOf(sp.tail)
    else
      BytesOf(sp.head)
  }

  // ---------- The scanner of inet_pton6 ----------

  /** After the loop: the pending group, then the zeros that "::" stands for. */
  function Finish(out: seq<byte>, colon: Option<nat>, seen: nat, val: nat): (r: Option<seq<byte>>)
    requires |out| <= 16 && val < 0x1_0000 && (colon.Some? ==> colon.value <= |out|)
    ensures r.Some? ==> |r.value| == 16
  {
    if seen > 0 && |out| + 2 > 16 then None
    else
      var all := if seen > 0 then out + Word(val) else out;
      match colon
      case Some(c) => if |all| == 16 then None else Some(all[..c] + Zeros(16 - |all|) + all[c..])
      case None => if |all| == 16 then Some(all) else None
  }

  /** inet_pton6 from a state of its loop: the text left, the text from the start of this group, the bytes written. */
  function Scan6(rest: string, token: string, out: seq<byte>, colon: Option<nat>,
                 digits: string): (r: Option<seq<byte>>)
    requires |out| <= 16 && (colon.Some? ==> colon.value <= |out|)
    requires AllHex(digits) && |digits| <= 4
    ensures r.Some? ==> |r.value| == 16
    decreases |rest|
  {
    ValueFits(digits);
    var val := ValueFrom(0, digits);
    if rest == "" then
      Finish(out, colon, |digits|, val)
    else if IsHex(rest[0]) then
      if |digits| == 4 then None else Scan6(rest[1..], token, out, colon, digits + [rest[0]])
    else if rest[0] == ':' then
      if digits == "" then
        if colon.Some? then None else Scan6(rest[1..], rest[1..], out, Some(|out|), "")
      else if rest[1..] == "" || |out| + 2 > 16 then None
      else Scan6(rest[1..], rest[1..], out + Word(val), colon, "")
    else if rest[0] == '.' && |out| + 4 <= 16 then
      match Parse4(token)
      case None => None
      case Some(q) => Finish(out + q, colon, 0, val)
    else
      None
  }

  function Parse6(s: string): (r: Option<seq<byte>>)
    ensures r.Some? ==> |r.value| == 16
  {
    if s != "" && s[0] == ':' then
      if |s| < 2 || s[1] != ':' then None else Scan6(s[1..], s[1..], [], None, "")
    else
      Scan6(s, s, [], None, "")
  }

  // ---------- Every spelling is read ----------

  lemma {:induction false} ScanDigits(d: string, rest: string, token: string, out: seq<byte>, colon: Option<nat>,
                                      before: string)
    requires |out| <= 16 && (colon.Some? ==> colon.value <= |out|)
    requires AllHex(before) && AllHex(d) && |before| + |d| <= 4
    ensures AllHex(before + d)
    ensures Scan6(d + rest, token, out, colon, before) == Scan6(rest, token, out, colon, before + d)
    decreases |d|
  {
    if d == "" {
      assert d + rest == rest && before + d == before;
    } else {
      ScanDigits(d[1..], rest, token, out, colon, before + [d[0]]);
      assert (d + rest)[1..] == d[1..] + rest;
      assert before + [d[0]] + d[1..] == before + d;
    }
  }

  /** The first of several items, up to and including its colon. */
  lemma ScanItem(item: Item, more: string, token: string, out: seq<byte>, colon: Option<nat>)
    requires GoodDigits(item) && |out| + 2 <= 16 && (colon.Some? ==> colon.value <= |out|) && more != ""
    ensures Scan6(ItemText(item) + ":" + more, token, out, colon, "") ==
            Scan6(more, more, out + ItemBytes(item), colon, "")
  {
    var rest := ":" + more;
    assert item.d + ":" + more == item.d + rest;
    ScanDigits(item.d, rest, token, out, colon, "");
    assert "" + item.d == item.d && rest[1..] == more;
  }

  lemma ScanLast(item: Item, out: seq<byte>, colon: Option<nat>)
    requires GoodItem(item, true) && |out| + |ItemBytes(item)| <= 16 && (colon.Some? ==> colon.value <= |out|)
    ensures Scan6(ItemText(item), ItemText(item), out, colon, "") == Finish(out + ItemBytes(item), colon, 0, 0)
  {
    match item {
      case Digits(d) =>
        ScanDigits(d, "", d, out, colon, "");
        assert d + "" == d && "" + d == d;
      case Quad(q) =>
        var text := Dotted(q);
        var rest := "." + Dotted(q[1..]);
        assert text == Decimal(q[0]) + rest;
        DecimalLength(q[0]);
        ScanDigits(Decimal(q[0]), rest, text, out, colon, "");
        DottedIsTheOnlySpelling(text, q);
    }
  }

  lemma BytesOfNone(items: seq<Item>)
    requires items == []
    ensures BytesOf(items) == []
  {
  }

  lemma BytesOfFirst(items: seq<Item>, quadAllowed: bool)
    requires items != [] && GoodItems(items, quadAllowed)
    ensures GoodItems(items, true) && GoodItems(items[1..], quadAllowed)
    ensures GoodItem(items[0], true) && BytesOf(items) == ItemBytes(items[0]) + BytesOf(items[1..])
  {
    forall k | 0 <= k < |items[1..]|
      ensures GoodItem(items[1..][k], quadAllowed && k == |items[1..]| - 1)
    {
      assert items[1..][k] == items[k + 1];
    }
  }

  lemma JoinStep(items: seq<Item>)
    requires items != []
    ensures |items| == 1 ==> Join(items) == ItemText(items[0])
    ensures |items| > 1 ==> Join(items) == ItemText(items[0]) + ":" + Join(items[1..])
  {
  }

  lemma JoinNotEmpty(items: seq<Item>)
    requires items != [] && GoodItems(items, true)
    ensures Join(items) != "" && IsHex(Join(items)[0])
  {
    assert GoodItem(items[0], |items| == 1);
  }

  lemma FirstIsDigits(items: seq<Item>, quadAllowed: bool)
    requires items != [] && GoodItems(items, quadAllowed) && (|items| > 1 || !quadAllowed)
    ensures GoodDigits(items[0]) && |ItemBytes(items[0])| == 2
  {
    assert GoodItem(items[0], quadAllowed && |items| == 1);
  }

  lemma {:induction false} ScanItems(items: seq<Item>, out: seq<byte>, colon: Option<nat>)
    requires items != [] && GoodItems(items, true) && |out| + |BytesOf(items)| <= 16
    requires colon.Some? ==> colon.value <= |out|
    ensures Scan6(Join(items), Join(items), out, colon, "") == Finish(out + BytesOf(items), colon, 0, 0)
    decreases |items|
  {
    hide *;
    BytesOfFirst(items, true);
    JoinStep(items);
    if |items| == 1 {
      BytesOfNone(items[1..]);
      assert ItemBytes(items[0]) + [] == ItemBytes(items[0]);
      ScanLast(items[0], out, colon);
    } else {
      JoinNotEmpty(items[1..]);
      FirstIsDigits(items, true);
      ScanItem(items[0], Join(items[1..]), Join(items), out, colon);
      ScanItems(items[1..], out + ItemBytes(items[0]), colon);
      assert out + ItemBytes(items[0]) + BytesOf(items[1..]) == out + BytesOf(items);
    }
  }

  /** The items before "::", together with it; nothing is left of the first colon when the last item has taken it. */
  function UpToGap(head: seq<Item>): string {
    Join(head) + if head == [] then ":" else "::"
  }

  lemma UpToGapStep(head: seq<Item>)
    requires head != []
    ensures UpToGap(head) == ItemText(head[0]) + ":" + UpToGap(head[1..]) && UpToGap(head[1..]) != ""
  {
  }

  lemma ScanColon(more: string, token: string, out: seq<byte>)
    requires |out| <= 16
    ensures Scan6(UpToGap([]) + more, token, out, None, "") == Scan6(more, more, out, Some(|out|), "")
  {
    assert (UpToGap([]) + more)[1..] == more;
  }

  lemma {:induction false} ScanHead(head: seq<Item>, more: string, token: string, out: seq<byte>)
    requires GoodItems(head, false) && GoodItems(head, true) && |out| + |BytesOf(head)| <= 16
    ensures Scan6(UpToGap(head) + more, token, out, None, "") ==
            Scan6(more, more, out + BytesOf(head), Some(|out + BytesOf(head)|), "")
    decreases |head|
  {
    hide *;
    if head == [] {
      BytesOfNone(head);
      ScanColon(more, token, out);
      assert out + [] == out;
    } else {
      BytesOfFirst(head, false);
      FirstIsDigits(head, false);
      var rest := UpToGap(head[1..]) + more;
      UpToGapStep(head);
      assert UpToGap(head) + more == ItemText(head[0]) + ":" + rest;
      ScanItem(head[0], rest, token, out, None);
      BytesOfFirst(head, true);
      ScanHead(head[1..], more, rest, out + ItemBytes(head[0]));
      assert out + ItemBytes(head[0]) + BytesOf(head[1..]) == out + BytesOf(head);
    }
  }

  lemma FinishedIsAddress(sp: Spelling)
    requires ValidSpelling(sp) && sp.gap
    ensures Finish(BytesOf(sp.head) + BytesOf(sp.tail), Some(|BytesOf(sp.head)|), 0, 0) == Some(Address(sp))
  {
    var head, tail := BytesOf(sp.head), BytesOf(sp.tail);
    assert (head + tail)[..|head|] == head && (head + tail)[|head|..] == tail;
  }

  /** The text of a spelling with a gap, and where its scan starts. */
  lemma GapStart(sp: Spelling)
    requires ValidSpelling(sp) && sp.gap
    ensures var start := UpToGap(sp.head) + Join(sp.tail);
            Parse6(Spelled(sp)) == Scan6(start, start, [], None, "")
  {
    var head, tail := Join(sp.head), Join(sp.tail);
    assert GoodItems(sp.head, true);
    hide *;
    GapTexts(sp);
    if sp.head == [] {
      NothingJoined();
      ParseFromColon(Spelled(sp), UpToGap(sp.head) + tail, tail);
    } else {
      ColonIsNotHex();
      JoinNotEmpty(sp.head);
      ParseFromHead(head, "::" + tail);
    }
  }

  lemma GapTexts(sp: Spelling)
    requires sp.gap
    ensures Spelled(sp) == Join(sp.head) + "::" + Join(sp.tail)
    ensures UpToGap(sp.head) + Join(sp.tail) ==
              if sp.head == [] then ":" + Join(sp.tail) else Join(sp.head) + ("::" + Join(sp.tail))
    ensures sp.head != [] ==> Spelled(sp) == UpToGap(sp.head) + Join(sp.tail)
  {
    NothingJoined();
    hide Join;
    assert Join(sp.head) + "::" + Join(sp.tail) == Join(sp.head) + ("::" + Join(sp.tail));
  }

  lemma ParseFromColon(s: string, start: string, tail: string)
    requires s == "" + "::" + tail && start == ":" + tail
    ensures Parse6(s) == Scan6(start, start, [], None, "")
  {
    hide Scan6;
    assert s[1..] == start && s[0] == ':' && s[1] == ':';
  }

  lemma ParseFromHead(head: string, more: string)
    requires head != "" && head[0] != ':'
    ensures Parse6(head + more) == Scan6(head + more, head + more, [], None, "")
  {
    hide Scan6;
    assert (head + more)[0] == head[0];
  }

  lemma NothingJoined()
    ensures Join([]) == ""
  {
  }

  lemma NoGapStart(sp: Spelling)
    requires ValidSpelling(sp) && !sp.gap
    ensures sp.head != [] && Parse6(Spelled(sp)) == Scan6(Join(sp.head), Join(sp.head), [], None, "")
    ensures |BytesOf(sp.head)| == 16
  {
    JoinNotEmpty(sp.head);
  }

  lemma ScanEmpty(token: string, out: seq<byte>, colon: Option<nat>)
    requires |out| <= 16 && (colon.Some? ==> colon.value <= |out|)
    ensures Scan6("", token, out, colon, "") == Finish(out, colon, 0, 0)
  {
  }

  lemma ScanTail(tail: seq<Item>, out: seq<byte>, colon: Option<nat>)
    requires GoodItems(tail, true) && |out| + |BytesOf(tail)| <= 16 && (colon.Some? ==> colon.value <= |out|)
    ensures Scan6(Join(tail), Join(tail), out, colon, "") == Finish(out + BytesOf(tail), colon, 0, 0)
  {
    if tail == [] {
      assert out + BytesOf(tail) == out && Join(tail) == "";
      ScanEmpty("", out, colon);
    } else {
      ScanItems(tail, out, colon);
    }
  }

  lemma SpellingParts(sp: Spelling)
    requires ValidSpelling(sp)
    ensures GoodItems(sp.head, true) && GoodItems(sp.tail, true)
    ensures sp.gap ==> GoodItems(sp.head, false) && |BytesOf(sp.head)| + |BytesOf(sp.tail)| < 16
    ensures !sp.gap ==> Address(sp) == BytesOf(sp.head) && Finish(BytesOf(sp.head), None, 0, 0) == Some(Address(sp))
  {
  }

  /** inet_pton6 reads every spelling as its address. */
  lemma SpellingIsRead(sp: Spelling)
    requires ValidSpelling(sp)
    ensures Parse6(Spelled(sp)) == Some(Address(sp))
  {
    hide *;
    SpellingParts(sp);
    if sp.gap {
      var head, more := BytesOf(sp.head), Join(sp.tail);
      GapStart(sp);
      assert [] + head == head;
      ScanHead(sp.head, more, UpToGap(sp.head) + more, []);
      FinishedIsAddress(sp);
      ScanTail(sp.tail, head, Some(|head|));
    } else {
      NoGapStart(sp);
      ScanItems(sp.head, [], None);
      assert [] + BytesOf(sp.head) == BytesOf(sp.head);
    }
  }

  // ---------- Only spellings are read ----------

  /** What a scan from the start of a group has found: items, or items up to "::" and items after it. */
  function Piece(sp: Spelling): string {
    if sp.gap then UpToGap(sp.head) + Join(sp.tail) else Join(sp.head)
  }

  predicate GoodPiece(sp: Spelling) {
    GoodItems(sp.head, !sp.gap) && GoodItems(sp.head, true) && GoodItems(sp.tail, true) && (!sp.gap ==> sp.tail == [])
  }

  /** The outcome of a scan that has read a piece after the bytes already written. */
  ghost predicate Reads(sp: Spelling, out: seq<byte>, colon: Option<nat>, a: seq<byte>) {
    && GoodPiece(sp) && |out| + |BytesOf(sp.head)| + |BytesOf(sp.tail)| <= 16
    && (sp.gap ==> colon.None?) && (colon.Some? ==> colon.value <= |out|)
    && Finish(out + BytesOf(sp.head) + BytesOf(sp.tail),
              if sp.gap then Some(|out| + |BytesOf(sp.head)|) else colon, 0, 0)
       == Some(a)
  }

  lemma ReadsNothing(out: seq<byte>, colon: Option<nat>, a: seq<byte>)
    requires |out| <= 16 && (colon.Some? ==> colon.value <= |out|) && Finish(out, colon, 0, 0) == Some(a)
    ensures Reads(Spelling([], false, []), out, colon, a)
    ensures Piece(Spelling([], false, [])) == ""
  {
    hide GoodItems, Finish, BytesOf, Join;
    NoBytes();
    NothingJoined();
    assert out + [] + [] == out;
  }

  lemma BytesOfOne(item: Item)
    requires GoodItem(item, true)
    ensures GoodItems([item], true) && BytesOf([item]) == ItemBytes(item) && Join([item]) == ItemText(item)
  {
    assert [item][1..] == [];
    assert ItemBytes(item) + [] == ItemBytes(item);
  }

  /** The last item, with the end of the text after it. */
  lemma ReadsLast(item: Item, out: seq<byte>, colon: Option<nat>, a: seq<byte>)
    requires GoodItem(item, true) && |out| + |ItemBytes(item)| <= 16 && (colon.Some? ==> colon.value <= |out|)
    requires Finish(out + ItemBytes(item), colon, 0, 0) == Some(a)
    ensures Reads(Spelling([item], false, []), out, colon, a)
    ensures Piece(Spelling([item], false, [])) == ItemText(item)
  {
    hide GoodItem, Finish, BytesOf, Join, ItemBytes, ItemText;
    BytesOfOne(item);
    NoBytes();
    assert out + ItemBytes(item) + [] == out + ItemBytes(item);
  }

  lemma ReadsColon(sp: Spelling, out: seq<byte>, a: seq<byte>)
    requires Reads(sp, out, Some(|out|), a)
    ensures Reads(Spelling([], true, sp.head), out, None, a)
    ensures Piece(Spelling([], true, sp.head)) == ":" + Piece(sp)
  {
    hide GoodItems, Finish, BytesOf, Join;
    NoBytes();
    NothingJoined();
    var head := BytesOf(sp.head);
    assert out + head + [] == out + [] + head;
  }

  lemma BytesOfMore(item: Item, items: seq<Item>, quadAllowed: bool)
    requires GoodDigits(item) && GoodItems(items, quadAllowed) && GoodItems(items, true)
    ensures GoodItems([item] + items, quadAllowed) && GoodItems([item] + items, true)
    ensures BytesOf([item] + items) == ItemBytes(item) + BytesOf(items)
  {
    var all := [item] + items;
    forall k | 0 <= k < |all|
      ensures GoodItem(all[k], quadAllowed && k == |all| - 1) && GoodItem(all[k], k == |all| - 1)
    {
      if k > 0 {
        assert all[k] == items[k - 1] && GoodItem(items[k - 1], quadAllowed && k - 1 == |items| - 1);
        assert GoodItem(items[k - 1], k - 1 == |items| - 1);
      }
    }
    assert all[1..] == items;
  }

  lemma ReadsGroup(item: Item, sp: Spelling, out: seq<byte>, colon: Option<nat>, a: seq<byte>)
    requires GoodDigits(item) && Reads(sp, out + ItemBytes(item), colon, a) && Piece(sp) != ""
    requires colon.Some? ==> colon.value <= |out|
    ensures Reads(sp.(head := [item] + sp.head), out, colon, a)
    ensures Piece(sp.(head := [item] + sp.head)) == ItemText(item) + ":" + Piece(sp)
  {
    hide ItemText, ItemBytes, BytesOf, Finish, GoodItems, Join, UpToGap;
    BytesOfMore(item, sp.head, !sp.gap);
    var all := [item] + sp.head;
    assert out + ItemBytes(item) + BytesOf(sp.head) == out + BytesOf(all);
    GroupFirst(item, sp);
  }

  lemma GroupFirst(item: Item, sp: Spelling)
    requires Piece(sp) != ""
    ensures Piece(sp.(head := [item] + sp.head)) == ItemText(item) + ":" + Piece(sp)
  {
    hide ItemText;
    var all := [item] + sp.head;
    assert all[1..] == sp.head;
    if sp.gap {
      UpToGapStep(all);
      assert ItemText(item) + ":" + UpToGap(sp.head) + Join(sp.tail) ==
             ItemText(item) + ":" + (UpToGap(sp.head) + Join(sp.tail));
    }
  }

  /** One step of the scanner, from its result. */
  lemma Scan6Step(rest: string, token: string, out: seq<byte>, colon: Option<nat>, digits: string, a: seq<byte>)
    requires |out| <= 16 && (colon.Some? ==> colon.value <= |out|) && AllHex(digits) && |digits| <= 4
    requires Scan6(rest, token, out, colon, digits) == Some(a)
    ensures rest == "" && digits == "" ==> Finish(out, colon, 0, 0) == Some(a)
    ensures rest == "" && digits != "" ==>
              |out| + 2 <= 16 && Finish(out + ItemBytes(Digits(digits)), colon, 0, 0) == Some(a)
    ensures rest != "" && IsHex(rest[0]) ==>
              |digits| < 4 && Scan6(rest[1..], token, out, colon, digits + [rest[0]]) == Some(a)
    ensures rest != "" && !IsHex(rest[0]) ==> rest[0] == ':' || rest[0] == '.'
    ensures rest != "" && rest[0] == ':' && digits == "" ==>
              colon.None? && Scan6(rest[1..], rest[1..], out, Some(|out|), "") == Some(a)
    ensures rest != "" && rest[0] == ':' && digits != "" ==>
              && rest[1..] != "" && |out| + 2 <= 16
              && Scan6(rest[1..], rest[1..], out + ItemBytes(Digits(digits)), colon, "") == Some(a)
    ensures rest != "" && rest[0] == '.' ==>
              && |out| + 4 <= 16 && Parse4(token).Some?
              && Finish(out + Parse4(token).value, colon, 0, 0) == Some(a)
  {
  }

  lemma {:induction false} ScannedIsPiece(rest: string, token: string, out: seq<byte>, colon: Option<nat>,
                                          digits: string, a: seq<byte>)
    returns (sp: Spelling)
    requires |out| <= 16 && (colon.Some? ==> colon.value <= |out|) && AllHex(digits) && |digits| <= 4
    requires token == digits + rest && Scan6(rest, token, out, colon, digits) == Some(a)
    ensures Reads(sp, out, colon, a) && Piece(sp) == token
    decreases |rest|
  {
    hide *;
    Scan6Step(rest, token, out, colon, digits, a);
    if rest == "" {
      assert token == digits;
      if digits == "" {
        ReadsNothing(out, colon, a);
        return Spelling([], false, []);
      }
      DigitsAreGood(digits);
      ReadsLast(Digits(digits), out, colon, a);
      return Spelling([Digits(digits)], false, []);
    }
    assert rest == [rest[0]] + rest[1..];
    if rest[0] == ':' {
      ColonIsNotHex();
      assert "" + rest[1..] == rest[1..];
      if digits == "" {
        var more := ScannedIsPiece(rest[1..], rest[1..], out, Some(|out|), "", a);
        ReadsColon(more, out, a);
        return Spelling([], true, more.head);
      }
      DigitsAreGood(digits);
      var more := ScannedIsPiece(rest[1..], rest[1..], out + ItemBytes(Digits(digits)), colon, "", a);
      ReadsGroup(Digits(digits), more, out, colon, a);
      return more.(head := [Digits(digits)] + more.head);
    }
    if rest[0] == '.' {
      var q := Parse4(token).value;
      DottedIsTheOnlySpelling(token, q);
      QuadIsGood(q);
      ReadsLast(Quad(q), out, colon, a);
      return Spelling([Quad(q)], false, []);
    }
    assert digits + [rest[0]] + rest[1..] == token;
    AllHexSnoc(digits, rest[0]);
    sp := ScannedIsPiece(rest[1..], token, out, colon, digits + [rest[0]], a);
  }

  lemma DigitsAreGood(d: string)
    requires AllHex(d) && 1 <= |d| <= 4
    ensures GoodDigits(Digits(d)) && GoodItem(Digits(d), true) && |ItemBytes(Digits(d))| == 2
    ensures ItemText(Digits(d)) == d
  {
  }

  lemma QuadIsGood(q: seq<byte>)
    requires |q| == 4
    ensures GoodItem(Quad(q), true) && ItemBytes(Quad(q)) == q && ItemText(Quad(q)) == Dotted(q)
  {
  }

  lemma ColonIsNotHex()
    ensures !IsHex(':') && !IsHex('.') && AllHex("")
  {
  }

  lemma AllHexSnoc(d: string, ch: char)
    requires AllHex(d) && IsHex(ch)
    ensures AllHex(d + [ch])
  {
  }

  /** A complete piece is a spelling. */
  lemma PieceIsSpelling(s: string, start: string, sp: Spelling, a: seq<byte>)
    requires Reads(sp, [], None, a) && Piece(sp) == start
    requires if s != "" && s[0] == ':' then |s| >= 2 && s[1] == ':' && start == s[1..] else start == s
    ensures ValidSpelling(sp) && Spelled(sp) == s && Address(sp) == a
  {
    hide Join, IsHex, BytesOf, GoodItems;
    PieceIsAddress(sp, a);
    NothingJoined();
    ColonIsNotHex();
    if sp.head != [] {
      JoinNotEmpty(sp.head);
      assert Piece(sp)[0] == Join(sp.head)[0];
      assert start == s;
    } else if sp.gap {
      assert start == ":" + Join(sp.tail);
      assert s == ":" + start;
    }
  }

  lemma PieceIsAddress(sp: Spelling, a: seq<byte>)
    requires Reads(sp, [], None, a)
    ensures ValidSpelling(sp) && Address(sp) == a
  {
    hide GoodItems;
    NoBytes();
    var head, tail := BytesOf(sp.head), BytesOf(sp.tail);
    assert [] + head + tail == head + tail;
    if sp.gap {
      FinishedIsAddress(sp);
    } else {
      assert tail == [] && head + tail == head;
    }
  }

  lemma NoBytes()
    ensures GoodItems([], true) && GoodItems([], false) && BytesOf([]) == []
  {
  }

  /** inet_pton6 accepts exactly the spellings of an address, and returns that address. */
  lemma ReadsExactlySpellings(s: string, a: seq<byte>)
    ensures Parse6(s) == Some(a) <==> exists sp :: ValidSpelling(sp) && Spelled(sp) == s && Address(sp) == a
  {
    if sp :| ValidSpelling(sp) && Spelled(sp) == s && Address(sp) == a {
      SpellingIsRead(sp);
    }
    if Parse6(s) == Some(a) {
      var start := if s != "" && s[0] == ':' then s[1..] else s;
      assert "" + start == start;
      var sp := ScannedIsPiece(start, start, [], None, "", a);
      PieceIsSpelling(s, start, sp, a);
    }
  }
}
