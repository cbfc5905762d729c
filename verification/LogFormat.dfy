/** The log file format (log_format.h, crc32c.h): records cut into physical records that never cross a 32 KiB block.
    The checksum is any function of the type byte and the payload. */
module LogFormat {
  import opened Coding
  import opened Wrappers

  const BLOCK: nat := 32768
  const HEADER: nat := 7

  type Checksum = Bytes -> u32

  const FULL: byte := 1
  const FIRST: byte := 2
  const MIDDLE: byte := 3
  const LAST: byte := 4

  /** What ReadPhysicalRecord answers besides the type of a record. A stored type byte of 5 or 6 is taken for these. */
  const EOF_KIND: byte := 5
  const BAD_KIND: byte := 6

  // ----- checksums as stored -----

  const MASK_DELTA: u32 := 0xa282ead8

  /** Rotate right by 15 bits and add a constant, in 32 bits. */
  function Mask(crc: u32): u32 {
    (crc / 0x8000 + crc % 0x8000 * 0x20000 + MASK_DELTA) % 0x1_0000_0000
  }

  function Unmask(masked: u32): u32 {
    var rot := (masked - MASK_DELTA) % 0x1_0000_0000;
    rot / 0x20000 + rot % 0x20000 * 0x8000
  }

  lemma UnmaskMask(crc: u32)
    ensures Unmask(Mask(crc)) == crc
  {
    var rot := crc / 0x8000 + crc % 0x8000 * 0x20000;
    assert rot / 0x20000 == crc % 0x8000 && rot % 0x20000 == crc / 0x8000;
    assert (Mask(crc) - MASK_DELTA) % 0x1_0000_0000 == rot;
  }

  // ----- physical records -----

  function Physical(crc: Checksum, kind: byte, fragment: Bytes): (r: Bytes)
    requires |fragment| < 0x10000
    ensures |r| == HEADER + |fragment|
  {
    EncodeFixed32(Mask(crc([kind] + fragment))) + [|fragment| % 256, |fragment| / 256, kind] + fragment
  }

  /** Where the block of position p ends. */
  function BlockEnd(p: nat): (r: nat)
    ensures p < r <= p + BLOCK && r % BLOCK == 0
  {
    (p / BLOCK + 1) * BLOCK
  }

  /** Zero bytes skipped at p because no header fits in the rest of the block. */
  function Padding(p: nat): (r: nat)
    ensures r < HEADER && (r > 0 ==> p + r == BlockEnd(p))
    ensures p + r + HEADER <= BlockEnd(p + r)
  {
    if BlockEnd(p) - p < HEADER then BlockEnd(p) - p else 0
  }

  function Zeros(n: nat): (r: Bytes)
    ensures |r| == n
  {
    if n == 0 then [] else [0] + Zeros(n - 1)
  }

  function KindOf(begin: bool, end: bool): byte {
    if begin && end then FULL else if begin then FIRST else if end then LAST else MIDDLE
  }

  /** Payload bytes that fit behind the next header. */
  function Room(p: nat): nat {
    var q := p + Padding(p);
    BlockEnd(q) - q - HEADER
  }

  lemma RoomAfter(p: nat, n: nat)
    requires n <= Room(p)
    ensures Room(p) == 0 ==> Room(p + Padding(p) + HEADER + n) > 0
    ensures Room(p) < 0x10000
  {
  }

  /** The first physical record of the data: padding, header and the payload that fits. */
  function FirstPiece(crc: Checksum, p: nat, data: Bytes, begin: bool): (r: Bytes)
    ensures |r| == Padding(p) + HEADER + FirstLength(p, data)
  {
    RoomAfter(p, 0);
    var n := FirstLength(p, data);
    Zeros(Padding(p)) + Physical(crc, KindOf(begin, n == |data|), data[..n])
  }

  function FirstLength(p: nat, data: Bytes): (n: nat)
    ensures n <= |data|
  {
    if |data| < Room(p) then |data| else Room(p)
  }

  /** The bytes of one record appended at position p; `begin` is false for the continuation of a record. */
  function Layout(crc: Checksum, p: nat, data: Bytes, begin: bool): (r: Bytes)
    ensures |r| >= HEADER
    decreases |data|, Room(p) == 0
  {
    var n := FirstLength(p, data);
    RoomAfter(p, n);
    FirstPiece(crc, p, data, begin)
    + if n == |data| then [] else Layout(crc, p + Padding(p) + HEADER + n, data[n..], false)
  }

  /** The bytes of a list of records appended at position p. */
  function LayoutAll(crc: Checksum, p: nat, records: seq<Bytes>): Bytes
    decreases |records|
  {
    if records == [] then []
    else
      var first := Layout(crc, p, records[0], true);
      first + LayoutAll(crc, p + |first|, records[1..])
  }

  /** How many of the records end within the first `size` bytes. */
  function Complete(crc: Checksum, p: nat, records: seq<Bytes>, size: nat): (n: nat)
    ensures n <= |records|
    decreases |records|
  {
    if records == [] then 0
    else
      var next := p + |Layout(crc, p, records[0], true)|;
      if next <= size then 1 + Complete(crc, next, records[1..], size) else 0
  }

  // ----- reading one physical record -----

  /** End: the file ends here, or the writer died in the middle. Bad: skip to `next`, having reported `drops`. */
  datatype Phys = End | Bad(next: nat, drops: seq<nat>) | Piece(kind: byte, fragment: Bytes, next: nat)

  /** What ReadPhysicalRecord finds at position p of any file. */
  function ReadPhys(crc: Checksum, check: bool, file: Bytes, p: nat): (r: Phys)
    requires p <= |file|
    ensures !r.End? ==> p < r.next <= |file|
    decreases |file| - p
  {
    var blockEnd := BlockEnd(p);
    var full := blockEnd <= |file|;
    var end := if full then blockEnd else |file|;
    if end - p < HEADER then
      if full then ReadPhys(crc, check, file, blockEnd) else End
    else
      var a: nat, b: nat := file[p + 4], file[p + 5];
      var length := a + b * 256;
      var kind := file[p + 6];
      if HEADER + length > end - p then
        if full then Bad(end, [end - p]) else End
      else if kind == 0 && length == 0 then Bad(end, [])
      else if check && crc(file[p + 6..p + HEADER + length]) != Unmask(DecodeFixed32(file[p..]))
           then Bad(end, [end - p])
      else Piece(kind, file[p + HEADER..p + HEADER + length], p + HEADER + length)
  }

  /** What one physical record does to the record being assembled: finish, or go on with other fragments. `drops` are
      the corruptions reported. */
  datatype Step =
    | Stop(record: Option<Bytes>, next: nat, drops: seq<nat>)
    | Continue(next: nat, scratch: Option<Bytes>, drops: seq<nat>)

  function Reported(n: nat): seq<nat> {
    [n]
  }

  /** The body of the loop of ReadRecord, given the fragments collected so far, if any. */
  function StepOf(phys: Phys, scratch: Option<Bytes>, fileSize: nat): Step {
    match phys
    case End => Stop(None, fileSize, [])
    case Bad(next, drops) => Continue(next, None, drops + if scratch.Some? then Reported(|scratch.value|) else [])
    case Piece(kind, fragment, next) =>
      var partial := if scratch.Some? && scratch.value != [] then Reported(|scratch.value|) else [];
      if kind == FULL then Stop(Some(fragment), next, partial)
      else if kind == FIRST then Continue(next, Some(fragment), partial)
      else if kind == MIDDLE then
        if scratch.None? then Continue(next, None, Reported(|fragment|))
        else Continue(next, Some(scratch.value + fragment), [])
      else if kind == LAST then
        if scratch.None? then Continue(next, None, Reported(|fragment|))
        else Stop(Some(scratch.value + fragment), next, [])
      else if kind == EOF_KIND then Stop(None, next, [])
      else if kind == BAD_KIND then Continue(next, None, if scratch.Some? then Reported(|scratch.value|) else [])
      else Continue(next, None, Reported(|fragment| + if scratch.Some? then |scratch.value| else 0))
  }

  /** What ReadRecord does from position p: the record or none, where the reader stands afterwards, and the sizes of
      the corruptions reported. */
  function ReadRec(crc: Checksum, check: bool, file: Bytes, p: nat, scratch: Option<Bytes>):
      (r: (Option<Bytes>, nat, seq<nat>))
    requires p <= |file|
    ensures p <= r.1 <= |file| && (r.0.Some? ==> p < r.1)
    decreases |file| - p
  {
    match StepOf(ReadPhys(crc, check, file, p), scratch, |file|)
    case Stop(record, next, drops) => (record, next, drops)
    case Continue(next, scratch', drops) =>
      var r := ReadRec(crc, check, file, next, scratch');
      (r.0, r.1, drops + r.2)
  }

  /** All records from p on, and all corruptions reported on the way. */
  function ReadAll(crc: Checksum, check: bool, file: Bytes, p: nat): (seq<Bytes>, seq<nat>)
    requires p <= |file|
    decreases |file| - p
  {
    var r := ReadRec(crc, check, file, p, None);
    if r.0.None? then ([], r.2)
    else
      var rest := ReadAll(crc, check, file, r.1);
      ([r.0.value] + rest.0, r.2 + rest.1)
  }

  // ----- the round trip -----

  /** `part` stands at position p of the longer file, of which `file` is a byte prefix. */
  ghost predicate PrefixAt(file: Bytes, whole: Bytes, p: nat, part: Bytes) {
    file <= whole && p + |part| <= |whole| && whole[p..p + |part|] == part
  }

  /** A physical record the writer put in one block is read back, or the file ends before its end. */
  lemma PieceIsRead(crc: Checksum, check: bool, file: Bytes, whole: Bytes, p: nat, kind: byte, fragment: Bytes)
    requires p <= |file| && kind != 0 && |fragment| <= Room(p) < 0x10000
    requires PrefixAt(file, whole, p, Zeros(Padding(p)) + Physical(crc, kind, fragment))
    ensures var next := p + Padding(p) + HEADER + |fragment|;
            ReadPhys(crc, check, file, p) == if next <= |file| then Piece(kind, fragment, next) else End
  {
    hide *;
    var q := p + Padding(p);
    PartsAt(file, whole, p, Zeros(Padding(p)), Physical(crc, kind, fragment));
    PaddingIsSkipped(crc, check, file, p);
    RoomEnds(p, |fragment|);
    if q <= |file| {
      HeaderIsRead(crc, check, file, whole, q, kind, fragment);
    }
  }

  lemma PaddingIsSkipped(crc: Checksum, check: bool, file: Bytes, p: nat)
    requires p <= |file|
    ensures var q := p + Padding(p);
            ReadPhys(crc, check, file, p) == if q <= |file| then ReadPhys(crc, check, file, q) else End
  {
    hide Unmask, DecodeFixed32;
  }

  lemma RoomEnds(p: nat, n: nat)
    requires n <= Room(p)
    ensures p + Padding(p) + HEADER + n <= BlockEnd(p + Padding(p))
  {
  }

  lemma HeaderIsRead(crc: Checksum, check: bool, file: Bytes, whole: Bytes, q: nat, kind: byte, fragment: Bytes)
    requires q <= |file| && kind != 0 && |fragment| < 0x10000 && q + HEADER + |fragment| <= BlockEnd(q)
    requires PrefixAt(file, whole, q, Physical(crc, kind, fragment))
    ensures var next := q + HEADER + |fragment|;
            ReadPhys(crc, check, file, q) == if next <= |file| then Piece(kind, fragment, next) else End
  {
    var bytes := Physical(crc, kind, fragment);
    var next := q + HEADER + |fragment|;
    LengthRoundTrip(|fragment|);
    if q + HEADER <= |file| {
      PrefixSlice(file, whole, q, q + HEADER);
      HeaderFields(crc, kind, fragment, whole, q);
      assert file[q + 4] == file[q..q + HEADER][4] && file[q + 5] == file[q..q + HEADER][5];
      assert file[q + 6] == file[q..q + HEADER][6];
      if next <= |file| {
        PayloadFields(crc, kind, fragment, file, whole, q);
      }
    }
  }

  lemma HeaderFields(crc: Checksum, kind: byte, fragment: Bytes, whole: Bytes, q: nat)
    requires |fragment| < 0x10000 && PrefixAt(whole, whole, q, Physical(crc, kind, fragment))
    ensures var h := whole[q..q + HEADER];
            h[4] == |fragment| % 256 && h[5] == |fragment| / 256 && h[6] == kind
  {
    var bytes := Physical(crc, kind, fragment);
    var at := whole[q..q + |bytes|];
    var h := whole[q..q + HEADER];
    assert at == bytes;
    assert bytes[4..7] == [|fragment| % 256, |fragment| / 256, kind];
    assert h == bytes[..HEADER];
    assert h[4..7] == bytes[4..7];
    assert h[4] == h[4..7][0] && h[5] == h[4..7][1] && h[6] == h[4..7][2];
  }

  lemma PayloadFields(crc: Checksum, kind: byte, fragment: Bytes, file: Bytes, whole: Bytes, q: nat)
    requires |fragment| < 0x10000 && PrefixAt(file, whole, q, Physical(crc, kind, fragment))
    requires q + HEADER + |fragment| <= |file|
    ensures file[q + HEADER..q + HEADER + |fragment|] == fragment
    ensures crc(file[q + 6..q + HEADER + |fragment|]) == Unmask(DecodeFixed32(file[q..]))
  {
    var next := q + HEADER + |fragment|;
    var bytes := Physical(crc, kind, fragment);
    PrefixSlice(file, whole, q, next);
    assert bytes[HEADER..] == fragment && bytes[6..] == [kind] + fragment;
    assert bytes[..4] == EncodeFixed32(Mask(crc([kind] + fragment)));
    hide Physical, EncodeFixed32, Mask;
    assert file[q + HEADER..next] == file[q..next][HEADER..];
    assert file[q + 6..next] == file[q..next][6..];
    assert file[q..][..4] == file[q..next][..4];
    ChecksumIsRead(file[q..], crc([kind] + fragment));
  }

  lemma PrefixSlice(file: Bytes, whole: Bytes, a: nat, b: nat)
    requires file <= whole && a <= b <= |file|
    ensures file[a..b] == whole[a..b]
  {
  }

  lemma LengthRoundTrip(n: nat)
    requires n < 0x10000
    ensures n % 256 + n / 256 * 256 == n
  {
  }

  lemma ChecksumIsRead(b: Bytes, c: u32)
    requires |b| >= 4 && b[..4] == EncodeFixed32(Mask(c))
    ensures Unmask(DecodeFixed32(b)) == c
  {
    Fixed32RoundTrip(Mask(c));
    UnmaskMask(c);
    assert b[0] == b[..4][0] && b[1] == b[..4][1] && b[2] == b[..4][2] && b[3] == b[..4][3];
  }

  /** Reading a fragment of the expected kind extends the record, and its last fragment ends it. */
  lemma FragmentExtends(crc: Checksum, check: bool, file: Bytes, p: nat, scratch: Option<Bytes>, sofar: Bytes,
                        end: bool, fragment: Bytes, next: nat)
    requires p <= |file| && ReadPhys(crc, check, file, p) == Piece(KindOf(scratch.None?, end), fragment, next)
    requires sofar == if scratch.Some? then scratch.value else []
    ensures next <= |file|
    ensures ReadRec(crc, check, file, p, scratch) ==
              if end then (Some(sofar + fragment), next, [])
              else ReadRec(crc, check, file, next, Some(sofar + fragment))
  {
    assert [] + fragment == fragment;
    if !end {
      var r := ReadRec(crc, check, file, next, Some(sofar + fragment));
      assert [] + r.2 == r.2;
    }
  }

  /** The rest of one record is read back whole, or the file ends before its end. Nothing is reported. */
  lemma {:induction false} RecordIsRead(crc: Checksum, check: bool, file: Bytes, whole: Bytes, p: nat,
                                        data: Bytes, scratch: Option<Bytes>, sofar: Bytes)
    requires p <= |file| && PrefixAt(file, whole, p, Layout(crc, p, data, scratch.None?))
    requires sofar == if scratch.Some? then scratch.value else []
    ensures var next := p + |Layout(crc, p, data, scratch.None?)|;
            ReadRec(crc, check, file, p, scratch) ==
              if next <= |file| then (Some(sofar + data), next, []) else (None, |file|, [])
    decreases |data|, Room(p) == 0
  {
    hide *;
    var begin := scratch.None?;
    var n := FirstLength(p, data);
    var piece := FirstPiece(crc, p, data, begin);
    var q := p + |piece|;
    LayoutFirst(crc, p, data, begin);
    if n == |data| {
      FirstPieceIsRead(crc, check, file, whole, p, data, scratch, sofar);
    } else {
      var tail := Layout(crc, q, data[n..], false);
      PartsAt(file, whole, p, piece, tail);
      FirstPieceIsRead(crc, check, file, whole, p, data, scratch, sofar);
      if q <= |file| {
        RecordIsRead(crc, check, file, whole, q, data[n..], Some(sofar + data[..n]), sofar + data[..n]);
        assert sofar + data[..n] + data[n..] == sofar + data;
      }
    }
  }

  lemma LayoutFirst(crc: Checksum, p: nat, data: Bytes, begin: bool)
    ensures var n := FirstLength(p, data);
            var piece := FirstPiece(crc, p, data, begin);
            && |piece| > 0 && n <= |data|
            && (n < |data| ==> n > 0 || (Room(p) == 0 && Room(p + |piece|) != 0))
            && Layout(crc, p, data, begin) ==
                 if n == |data| then piece else piece + Layout(crc, p + |piece|, data[n..], false)
  {
    hide Physical, Zeros;
    RoomAfter(p, FirstLength(p, data));
    assert FirstPiece(crc, p, data, begin) + [] == FirstPiece(crc, p, data, begin);
  }

  lemma PartsAt(file: Bytes, whole: Bytes, p: nat, a: Bytes, b: Bytes)
    requires PrefixAt(file, whole, p, a + b)
    ensures PrefixAt(file, whole, p, a) && PrefixAt(file, whole, p + |a|, b)
  {
    var ab := whole[p..p + |a + b|];
    assert whole[p..p + |a|] == ab[..|a|] == a;
    assert whole[p + |a|..p + |a| + |b|] == ab[|a|..] == b;
  }

  lemma FirstPieceIsRead(crc: Checksum, check: bool, file: Bytes, whole: Bytes, p: nat,
                         data: Bytes, scratch: Option<Bytes>, sofar: Bytes)
    requires p <= |file| && PrefixAt(file, whole, p, FirstPiece(crc, p, data, scratch.None?))
    requires sofar == if scratch.Some? then scratch.value else []
    ensures var n := FirstLength(p, data);
            var q := p + |FirstPiece(crc, p, data, scratch.None?)|;
            var rest := if q > |file| then (None, |file|, [])
                        else if n == |data| then (Some(sofar + data), q, [])
                        else ReadRec(crc, check, file, q, Some(sofar + data[..n]));
            ReadRec(crc, check, file, p, scratch) == rest
  {
    hide *;
    var n := FirstLength(p, data);
    var q := p + |FirstPiece(crc, p, data, scratch.None?)|;
    FirstPieceFound(crc, check, file, whole, p, data, scratch.None?);
    if q <= |file| {
      FragmentExtends(crc, check, file, p, scratch, sofar, n == |data|, data[..n], q);
      assert n == |data| ==> data[..n] == data;
    } else {
      EndStops(crc, check, file, p, scratch);
    }
  }

  lemma FirstPieceFound(crc: Checksum, check: bool, file: Bytes, whole: Bytes, p: nat, data: Bytes, begin: bool)
    requires p <= |file| && PrefixAt(file, whole, p, FirstPiece(crc, p, data, begin))
    ensures var n := FirstLength(p, data);
            var q := p + |FirstPiece(crc, p, data, begin)|;
            ReadPhys(crc, check, file, p) ==
              if q <= |file| then Piece(KindOf(begin, n == |data|), data[..n], q) else End
  {
    RoomAfter(p, 0);
    PieceIsRead(crc, check, file, whole, p, KindOf(begin, FirstLength(p, data) == |data|),
                data[..FirstLength(p, data)]);
  }

  lemma EndStops(crc: Checksum, check: bool, file: Bytes, p: nat, scratch: Option<Bytes>)
    requires p <= |file| && ReadPhys(crc, check, file, p) == End
    ensures ReadRec(crc, check, file, p, scratch) == (None, |file|, [])
  {
  }

  /** Reading any byte prefix of a log gives exactly the records that end inside it, and reports no corruption. */
  lemma {:induction false} PrefixReadsBack(crc: Checksum, check: bool, file: Bytes, whole: Bytes, p: nat,
                                           records: seq<Bytes>)
    requires p <= |file| && file <= whole && whole[p..] == LayoutAll(crc, p, records)
    ensures var (found, drops) := ReadAll(crc, check, file, p);
            found == records[..Complete(crc, p, records, |file|)] && drops == []
    decreases |records|
  {
    hide ReadRec, Layout;
    if records == [] {
      assert |whole| == p;
      NothingLeft(crc, check, file);
    } else {
      var first := Layout(crc, p, records[0], true);
      var next := p + |first|;
      assert whole[p..next] == whole[p..][..|first|] == first;
      RecordIsRead(crc, check, file, whole, p, records[0], None, []);
      assert [] + records[0] == records[0];
      if next <= |file| {
        assert whole[next..] == whole[p..][|first|..] == LayoutAll(crc, next, records[1..]);
        PrefixReadsBack(crc, check, file, whole, next, records[1..]);
        var n := Complete(crc, next, records[1..], |file|);
        assert [records[0]] + records[1..][..n] == records[..n + 1];
      }
    }
  }

  lemma NothingLeft(crc: Checksum, check: bool, file: Bytes)
    ensures ReadRec(crc, check, file, |file|, None) == (None, |file|, [])
  {
  }

  lemma {:induction false} AllComplete(crc: Checksum, p: nat, records: seq<Bytes>)
    ensures Complete(crc, p, records, p + |LayoutAll(crc, p, records)|) == |records|
    decreases |records|
  {
    hide Layout;
    if records != [] {
      AllComplete(crc, p + |Layout(crc, p, records[0], true)|, records[1..]);
    }
  }

  /** Reading a whole log gives exactly its records. */
  lemma LogReadsBack(crc: Checksum, check: bool, records: seq<Bytes>)
    ensures var (found, drops) := ReadAll(crc, check, LayoutAll(crc, 0, records), 0);
            found == records && drops == []
  {
    hide *;
    var file := LayoutAll(crc, 0, records);
    assert file[0..] == file;
    PrefixReadsBack(crc, check, file, file, 0, records);
    AllComplete(crc, 0, records);
    assert records[..|records|] == records;
  }

  /** Appending to a log whose length is p: the blocks continue where they stand. */
  lemma {:induction false} LayoutAppend(crc: Checksum, p: nat, a: seq<Bytes>, b: seq<Bytes>)
    ensures LayoutAll(crc, p, a + b) == LayoutAll(crc, p, a) + LayoutAll(crc, p + |LayoutAll(crc, p, a)|, b)
    decreases |a|
  {
    hide Layout;
    if a == [] {
      assert a + b == b;
      assert LayoutAll(crc, p, a) == [];
    } else {
      var first := Layout(crc, p, a[0], true);
      LayoutAppend(crc, p + |first|, a[1..], b);
      assert (a + b)[1..] == a[1..] + b;
      var rest := LayoutAll(crc, p + |first|, a[1..]);
      Regroup(first, rest, LayoutAll(crc, p + |first| + |rest|, b));
    }
  }

  lemma Regroup<T>(a: seq<T>, b: seq<T>, c: seq<T>)
    ensures a + (b + c) == a + b + c
  {
  }

  // ----- what the format is -----

  /** Each physical record lies within one block of 32768 bytes, and fills it when the record goes on; at most six bytes
      are skipped before it, and only at the end of a block. */
  lemma PieceStaysInBlock(crc: Checksum, p: nat, data: Bytes, begin: bool)
    ensures var n, q := FirstLength(p, data), p + |FirstPiece(crc, p, data, begin)|;
            && q - 7 - n <= p + 6 && (q - 7 - n == p || (q - 7 - n) % 32768 == 0)
            && (q - 7 - n) / 32768 == (q - 1) / 32768
            && (n < |data| ==> q % 32768 == 0)
  {
    hide FirstPiece;
    WithinBlock(p + Padding(p), p + Padding(p) + HEADER + FirstLength(p, data));
  }

  lemma WithinBlock(q: nat, end: nat)
    requires q < end <= BlockEnd(q)
    ensures q / 32768 == (end - 1) / 32768
  {
  }

  /** One physical record written out, for a checksum of 1. */
  lemma KnownRecord(crc: Checksum)
    requires crc([1, 97]) == 1
    ensures Layout(crc, 0, [97], true) == [0xd8, 0xea, 0x84, 0xa2, 1, 0, 1, 97]
    ensures Mask(0x8000) == 0xa282_ead9
  {
    assert Mask(1) == 0xa284_ead8;
    assert EncodeFixed32(0xa284_ead8) == [0xd8, 0xea, 0x84, 0xa2];
    var data: Bytes := [97];
    assert FirstLength(0, data) == 1 && data[..1] == data && Padding(0) == 0;
    assert [1] + data == [1, 97];
    assert FirstPiece(crc, 0, data, true) == Physical(crc, 1, data);
  }

  // ----- what a reader may return, whatever the file -----

  /** A physical record of the file, by its position. */
  datatype Fragment = Fragment(at: nat, kind: byte, payload: Bytes)

  function EndOf(f: Fragment): nat {
    f.at + 7 + |f.payload|
  }

  /** It stands within one block with its length and type, and its checksum is right, if checksums are asked for. */
  predicate Stored(crc: Checksum, check: bool, file: Bytes, f: Fragment) {
    && EndOf(f) <= |file| && f.at / 32768 == (EndOf(f) - 1) / 32768
    && file[f.at + 4] as int + 0x100 * file[f.at + 5] as int == |f.payload|
    && file[f.at + 6] == f.kind && file[f.at + 7..EndOf(f)] == f.payload
    && (check ==>
          file[f.at] as int + 0x100 * file[f.at + 1] as int + 0x1_0000 * file[f.at + 2] as int
          + 0x100_0000 * file[f.at + 3] as int == Mask(crc([f.kind] + f.payload)))
  }

  /** It comes right behind position p, or at the start of the next block when fewer than seven bytes are left. */
  predicate Follows(p: nat, f: Fragment) {
    p <= f.at < p + 7 && (f.at == p || f.at % 32768 == 0)
  }

  function Joined(fs: seq<Fragment>): Bytes {
    if fs == [] then [] else Joined(fs[..|fs| - 1]) + fs[|fs| - 1].payload
  }

  /** The first fragments of a record: a first one and middle ones, each behind the one before. */
  predicate Begun(crc: Checksum, check: bool, file: Bytes, fs: seq<Fragment>) {
    && fs != [] && fs[0].kind == 2
    && (forall i | 0 <= i < |fs| :: Stored(crc, check, file, fs[i]))
    && (forall i | 0 < i < |fs| :: fs[i].kind == 3 && Follows(EndOf(fs[i - 1]), fs[i]))
  }

  /** A full record, or a begun one and its last fragment. */
  predicate Whole(crc: Checksum, check: bool, file: Bytes, fs: seq<Fragment>) {
    if |fs| == 1 then fs[0].kind == 1 && Stored(crc, check, file, fs[0])
    else
      && |fs| > 1 && Begun(crc, check, file, fs[..|fs| - 1]) && fs[|fs| - 1].kind == 4
      && Stored(crc, check, file, fs[|fs| - 1]) && Follows(EndOf(fs[|fs| - 2]), fs[|fs| - 1])
  }

  /** The record stands in the file between the two positions. */
  ghost predicate StandsIn(crc: Checksum, check: bool, file: Bytes, record: Bytes, p: nat, next: nat) {
    exists fs: seq<Fragment> ::
      Whole(crc, check, file, fs) && Joined(fs) == record && p <= fs[0].at && next == EndOf(fs[|fs| - 1])
  }

  lemma MaskUnmask(masked: u32)
    ensures 0 <= Unmask(masked) < 0x1_0000_0000 && Mask(Unmask(masked)) == masked
  {
    var rot := (masked - MASK_DELTA) % 0x1_0000_0000;
    var crc := rot / 0x20000 + rot % 0x20000 * 0x8000;
    assert crc / 0x8000 == rot % 0x20000 && crc % 0x8000 == rot / 0x20000;
  }

  lemma {:induction false} PieceIsStored(crc: Checksum, check: bool, file: Bytes, p: nat)
    requires p <= |file| && ReadPhys(crc, check, file, p).Piece?
    ensures var r := ReadPhys(crc, check, file, p);
            var f := Fragment(p + Padding(p), r.kind, r.fragment);
            Stored(crc, check, file, f) && EndOf(f) == r.next && Follows(p, f)
    decreases |file| - p
  {
    hide Unmask, Mask, DecodeFixed32;
    var blockEnd := BlockEnd(p);
    if blockEnd - p < HEADER && blockEnd <= |file| {
      PieceIsStored(crc, check, file, blockEnd);
      assert Padding(blockEnd) == 0;
    } else {
      var r := ReadPhys(crc, check, file, p);
      WithinBlock(p, r.next);
      if check {
        StoredChecksum(file, p, crc(file[p + 6..r.next]));
        assert file[p + 6..r.next] == [r.kind] + r.fragment;
      }
    }
  }

  lemma StoredChecksum(file: Bytes, p: nat, c: u32)
    requires p + 4 <= |file| && c == Unmask(DecodeFixed32(file[p..]))
    ensures file[p] as int + 0x100 * file[p + 1] as int + 0x1_0000 * file[p + 2] as int
            + 0x100_0000 * file[p + 3] as int == Mask(c)
  {
    MaskUnmask(DecodeFixed32(file[p..]));
    hide Mask, Unmask;
  }

  /** What has been collected so far is a begun record that ends where the reader stands. */
  ghost predicate Collected(crc: Checksum, check: bool, file: Bytes, scratch: Option<Bytes>, fs: seq<Fragment>, p: nat,
                            from: nat)
  {
    scratch.Some? ==>
      Begun(crc, check, file, fs) && Joined(fs) == scratch.value && EndOf(fs[|fs| - 1]) == p && from <= fs[0].at
  }

  lemma {:induction false} RecordStandsIn(crc: Checksum, check: bool, file: Bytes, p: nat, scratch: Option<Bytes>,
                                          fs: seq<Fragment>, from: nat)
    requires from <= p <= |file| && Collected(crc, check, file, scratch, fs, p, from)
    ensures var r := ReadRec(crc, check, file, p, scratch);
            r.0.Some? ==> StandsIn(crc, check, file, r.0.value, from, r.1)
    decreases |file| - p
  {
    hide Stored, Joined, Follows, ReadPhys;
    var phys := ReadPhys(crc, check, file, p);
    match StepOf(phys, scratch, |file|)
    case Stop(record, next, drops) =>
      if record.Some? {
        PieceIsStored(crc, check, file, p);
        Finished(crc, check, file, p, scratch, fs, from);
      }
    case Continue(next, scratch', drops) =>
      if scratch'.Some? {
        PieceIsStored(crc, check, file, p);
        var f := Fragment(p + Padding(p), phys.kind, phys.fragment);
        if phys.kind == FIRST {
          OneJoined(f);
          RecordStandsIn(crc, check, file, next, scratch', [f], from);
        } else {
          Grown(crc, check, file, fs, f);
          RecordStandsIn(crc, check, file, next, scratch', fs + [f], from);
        }
      } else {
        RecordStandsIn(crc, check, file, next, scratch', [], from);
      }
  }

  lemma OneJoined(f: Fragment)
    ensures Joined([f]) == f.payload
  {
    assert [f][..0] == [];
  }

  lemma MoreJoined(fs: seq<Fragment>, f: Fragment)
    ensures Joined(fs + [f]) == Joined(fs) + f.payload
  {
    assert (fs + [f])[..|fs|] == fs;
  }

  lemma Grown(crc: Checksum, check: bool, file: Bytes, fs: seq<Fragment>, f: Fragment)
    requires Begun(crc, check, file, fs) && Stored(crc, check, file, f) && f.kind == 3
    requires Follows(EndOf(fs[|fs| - 1]), f)
    ensures Begun(crc, check, file, fs + [f]) && Joined(fs + [f]) == Joined(fs) + f.payload
  {
    hide Stored, Joined, Follows, EndOf;
    MoreJoined(fs, f);
    var gs := fs + [f];
    forall i | 0 <= i < |gs|
      ensures Stored(crc, check, file, gs[i])
    {
    }
    forall i | 0 < i < |gs|
      ensures gs[i].kind == 3 && Follows(EndOf(gs[i - 1]), gs[i])
    {
      assert gs[i - 1] == fs[i - 1];
    }
  }

  lemma Finished(crc: Checksum, check: bool, file: Bytes, p: nat, scratch: Option<Bytes>, fs: seq<Fragment>, from: nat)
    requires from <= p <= |file| && Collected(crc, check, file, scratch, fs, p, from)
    requires var phys := ReadPhys(crc, check, file, p);
             && phys.Piece?
             && var f := Fragment(p + Padding(p), phys.kind, phys.fragment);
                Stored(crc, check, file, f) && EndOf(f) == phys.next && Follows(p, f)
    requires StepOf(ReadPhys(crc, check, file, p), scratch, |file|).Stop?
    requires StepOf(ReadPhys(crc, check, file, p), scratch, |file|).record.Some?
    ensures var step := StepOf(ReadPhys(crc, check, file, p), scratch, |file|);
            StandsIn(crc, check, file, step.record.value, from, step.next)
  {
    hide Stored, Joined, ReadPhys;
    var phys := ReadPhys(crc, check, file, p);
    var f := Fragment(p + Padding(p), phys.kind, phys.fragment);
    if phys.kind == FULL {
      OneJoined(f);
      assert Whole(crc, check, file, [f]);
    } else {
      MoreJoined(fs, f);
      assert (fs + [f])[..|fs|] == fs;
      assert Whole(crc, check, file, fs + [f]);
    }
  }

  /** Whatever the file, with checksums on, each record that is returned stands in it as physical records with right
      checksums, one behind the other; nothing else is ever returned. */
  lemma {:induction false} OnlyStoredIsReturned(crc: Checksum, check: bool, file: Bytes, p: nat, i: nat)
    requires p <= |file| && i < |ReadAll(crc, check, file, p).0|
    ensures exists a, b :: p <= a <= b <= |file| && StandsIn(crc, check, file, ReadAll(crc, check, file, p).0[i], a, b)
    decreases |file| - p
  {
    hide ReadRec, StandsIn;
    var r := ReadRec(crc, check, file, p, None);
    RecordStandsIn(crc, check, file, p, None, [], p);
    if i == 0 {
      assert StandsIn(crc, check, file, ReadAll(crc, check, file, p).0[i], p, r.1);
    } else {
      OnlyStoredIsReturned(crc, check, file, r.1, i - 1);
      var a, b :| r.1 <= a <= b <= |file| &&
                  StandsIn(crc, check, file, ReadAll(crc, check, file, r.1).0[i - 1], a, b);
      assert StandsIn(crc, check, file, ReadAll(crc, check, file, p).0[i], a, b);
    }
  }

  /** No fragment is lost without a report: what one step takes and what had been collected is returned, kept, or
      reported, byte for byte. */
  lemma FragmentsAreAccountedFor(kind: byte, fragment: Bytes, next: nat, scratch: Option<Bytes>, fileSize: nat)
    requires kind != EOF_KIND && kind != BAD_KIND
    ensures var before := |fragment| + if scratch.Some? then |scratch.value| else 0;
            match StepOf(Piece(kind, fragment, next), scratch, fileSize)
            case Stop(record, _, drops) => record.Some? && before == |record.value| + Sum(drops)
            case Continue(_, scratch', drops) =>
              before == Sum(drops) + if scratch'.Some? then |scratch'.value| else 0
  {
  }

  function Sum(drops: seq<nat>): nat {
    if drops == [] then 0 else Sum(drops[..|drops| - 1]) + drops[|drops| - 1]
  }

  /** Preallocated zero bytes are skipped to the end of the block without a report. */
  lemma ZerosAreSkipped(crc: Checksum, check: bool, file: Bytes, p: nat, end: nat, scratch: Option<Bytes>)
    requires p + 7 <= end <= |file| && end == (if BlockEnd(p) <= |file| then BlockEnd(p) else |file|)
    requires file[p + 4] == 0 && file[p + 5] == 0 && file[p + 6] == 0
    ensures var after := ReadRec(crc, check, file, end, None);
            var lost := if scratch.Some? then [|scratch.value|] else [];
            ReadRec(crc, check, file, p, scratch) == (after.0, after.1, lost + after.2)
  {
    assert ReadPhys(crc, check, file, p) == Bad(end, []);
    var lost: seq<nat> := if scratch.Some? then [|scratch.value|] else [];
    assert [] + lost == lost;
  }

  /** A length that leaves the block is reported with the rest of the block; at the end of the file it is taken for a
      writer that died, and ends the log without a report. */
  lemma BadLengthIsReported(crc: Checksum, check: bool, file: Bytes, p: nat, scratch: Option<Bytes>)
    requires p + 7 <= |file| && p + 7 <= BlockEnd(p)
    requires p + 7 + file[p + 4] as int + 0x100 * file[p + 5] as int
             > if BlockEnd(p) <= |file| then BlockEnd(p) else |file|
    ensures if BlockEnd(p) <= |file| then
              var after := ReadRec(crc, check, file, BlockEnd(p), None);
              var lost := if scratch.Some? then [|scratch.value|] else [];
              ReadRec(crc, check, file, p, scratch) == (after.0, after.1, [BlockEnd(p) - p] + lost + after.2)
            else ReadRec(crc, check, file, p, scratch) == (None, |file|, [])
  {
    var a: nat, b: nat := file[p + 4], file[p + 5];
    assert ReadPhys(crc, check, file, p) ==
           if BlockEnd(p) <= |file| then Bad(BlockEnd(p), [BlockEnd(p) - p]) else End;
  }

  /** A record whose checksum does not match is reported with the rest of its block, which is skipped, and what has been
      collected before it is reported and dropped. */
  lemma MismatchIsReported(crc: Checksum, file: Bytes, p: nat, end: nat, scratch: Option<Bytes>)
    requires p + 7 <= end <= |file| && end == (if BlockEnd(p) <= |file| then BlockEnd(p) else |file|)
    requires var length := file[p + 4] as int + 0x100 * file[p + 5] as int;
             && p + 7 + length <= end && !(file[p + 6] == 0 && length == 0)
             && file[p] as int + 0x100 * file[p + 1] as int + 0x1_0000 * file[p + 2] as int
                + 0x100_0000 * file[p + 3] as int != Mask(crc(file[p + 6..p + 7 + length]))
    ensures var after := ReadRec(crc, true, file, end, None);
            var lost := if scratch.Some? then [|scratch.value|] else [];
            ReadRec(crc, true, file, p, scratch) == (after.0, after.1, [end - p] + lost + after.2)
  {
    hide Mask, Unmask, DecodeFixed32;
    var length: nat := file[p + 4] as int + 0x100 * file[p + 5] as int;
    var c := crc(file[p + 6..p + 7 + length]);
    if c == Unmask(DecodeFixed32(file[p..])) {
      StoredChecksum(file, p, c);
      assert false;
    }
    assert ReadPhys(crc, true, file, p) == Bad(end, [end - p]);
  }
}
