/** The log writer (log_writer.cc) and reader (log_reader.cc): the writer's file is the layout of its records, and the
    reader, which goes through the file block by block, finds what the pure reading of the file finds. */
module LogFiles {
  import opened Coding
  import opened Wrappers
  import opened LogFormat

  class Writer {
    const crc: Checksum
    var dest: Bytes          // the file
    var blockOffset: nat
    ghost const base: Bytes  // what the file held when it was opened
    ghost var records: seq<Bytes>

    ghost predicate Valid()
      reads this
    {
      && Aligned(blockOffset, |dest|)
      && dest == base + LayoutAll(crc, |base|, records)
    }

    /** The constructor that takes the length of an existing file; a new file is empty. */
    constructor (crc: Checksum, dest: Bytes)
      ensures Valid() && records == [] && this.dest == dest && base == dest && this.crc == crc
    {
      this.crc, this.dest, this.base, this.records := crc, dest, dest, [];
      blockOffset := |dest| % BLOCK;
    }

    method AddRecord(slice: Bytes)
      requires Valid()
      modifies this
      ensures Valid() && records == old(records) + [slice]
      ensures dest == old(dest) + Layout(crc, |old(dest)|, slice, true)
    {
      hide LayoutAll, Layout;
      WriteFragments(slice);
      OneRecord(crc, |old(dest)|, slice);
      LayoutAppend(crc, |base|, records, [slice]);
      Regroup(base, LayoutAll(crc, |base|, records), LayoutAll(crc, |old(dest)|, [slice]));
      records := records + [slice];
    }

    /** The loop: one fragment for each block the record reaches into. */
    method WriteFragments(slice: Bytes)
      requires Aligned(blockOffset, |dest|)
      modifies this`dest, this`blockOffset
      ensures Aligned(blockOffset, |dest|)
      ensures dest == old(dest) + Layout(crc, |old(dest)|, slice, true)
    {
      hide *;
      var ptr: nat, left: nat, begin := 0, |slice|, true;
      assert slice[0..] == slice;
      while true
        invariant left == |slice| - ptr && Aligned(blockOffset, |dest|)
        invariant dest + Layout(crc, |dest|, slice[ptr..], begin) == old(dest) + Layout(crc, |old(dest)|, slice, true)
        decreases left, Room(|dest|) == 0
      {
        ghost var dest0, rest := dest, slice[ptr..];
        var fragmentLength := EmitFragment(slice, ptr, begin);
        LayoutFirst(crc, |dest0|, rest, begin);
        assert slice[ptr + fragmentLength..] == rest[fragmentLength..];
        ghost var piece := FirstPiece(crc, |dest0|, rest, begin);
        ptr, left, begin := ptr + fragmentLength, left - fragmentLength, false;
        if left == 0 {
          break;
        }
        Regroup(dest0, piece, Layout(crc, |dest|, slice[ptr..], false));
      }
    }

    /** One turn of the loop. */
    method EmitFragment(slice: Bytes, ptr: nat, begin: bool) returns (fragmentLength: nat)
      requires ptr <= |slice| && Aligned(blockOffset, |dest|)
      modifies this`dest, this`blockOffset
      ensures Aligned(blockOffset, |dest|)
      ensures fragmentLength == FirstLength(|old(dest)|, slice[ptr..])
      ensures dest == old(dest) + FirstPiece(crc, |old(dest)|, slice[ptr..], begin)
    {
      hide *;
      OffsetInBlock(|dest|, blockOffset);
      FirstPieceIs(crc, |dest|, slice[ptr..], begin);
      var left := |slice| - ptr;
      var leftover := BLOCK - blockOffset;
      if leftover < HEADER {
        dest := dest + Zeros(leftover);
        blockOffset := 0;
      }
      var avail := BLOCK - blockOffset - HEADER;
      fragmentLength := if left < avail then left else avail;
      var end := left == fragmentLength;
      AlignedAfter(|dest|, blockOffset, HEADER + fragmentLength);
      assert slice[ptr..][..fragmentLength] == slice[ptr..ptr + fragmentLength];
      EmitPhysicalRecord(KindOf(begin, end), slice[ptr..ptr + fragmentLength]);
    }

    method EmitPhysicalRecord(kind: byte, fragment: Bytes)
      requires |fragment| <= 0xffff && blockOffset + HEADER + |fragment| <= BLOCK
      modifies this`dest, this`blockOffset
      ensures dest == old(dest) + Physical(crc, kind, fragment)
      ensures blockOffset == old(blockOffset) + HEADER + |fragment|
    {
      var buf := EncodeFixed32(Mask(crc([kind] + fragment))) + [|fragment| % 256, |fragment| / 256, kind];
      dest := dest + buf;
      dest := dest + fragment;
      blockOffset := blockOffset + HEADER + |fragment|;
    }
  }

  lemma OneRecord(crc: Checksum, p: nat, slice: Bytes)
    ensures LayoutAll(crc, p, [slice]) == Layout(crc, p, slice, true)
  {
    hide Layout;
    assert LayoutAll(crc, p + |Layout(crc, p, slice, true)|, [slice][1..]) == [];
  }

  /** block_offset_ is the file length within its block; at the end of a block it may be the block size or 0. */
  ghost predicate Aligned(offset: nat, p: nat) {
    offset <= BLOCK && offset % BLOCK == p % BLOCK
  }

  lemma AlignedAfter(p: nat, offset: nat, n: nat)
    requires Aligned(offset, p) && offset + n <= BLOCK
    ensures Aligned(offset + n, p + n)
  {
  }

  lemma FirstPieceIs(crc: Checksum, p: nat, data: Bytes, begin: bool)
    ensures var n := FirstLength(p, data);
            n < 0x10000 && n == (if |data| < Room(p) then |data| else Room(p)) &&
            FirstPiece(crc, p, data, begin) == Zeros(Padding(p)) + Physical(crc, KindOf(begin, n == |data|), data[..n])
  {
    RoomAfter(p, 0);
  }

  lemma OffsetInBlock(p: nat, offset: nat)
    requires Aligned(offset, p)
    ensures Padding(p) == if BLOCK - offset < HEADER then BLOCK - offset else 0
    ensures Aligned(if BLOCK - offset < HEADER then 0 else offset, p + Padding(p))
    ensures HEADER <= BLOCK
    ensures Room(p) == BLOCK - HEADER - if BLOCK - offset < HEADER then 0 else offset
  {
  }

  // ----- the reader -----

  class Reader {
    const crc: Checksum
    const checksum: bool
    const file: Bytes
    var filePos: nat       // where the next sequential read of the file starts
    var buffer: Bytes
    var eof: bool
    var drops: seq<nat>    // sizes passed to the reporter

    ghost predicate Valid()
      reads this
    {
      |buffer| <= filePos <= |file| && Buffered(file, filePos, buffer, eof)
    }

    /** Where the reader stands in the file. */
    ghost function Position(): (p: nat)
      reads this
      requires |buffer| <= filePos
    {
      filePos - |buffer|
    }

    constructor (crc: Checksum, checksum: bool, file: Bytes)
      ensures Valid() && Position() == 0 && drops == []
      ensures this.crc == crc && this.checksum == checksum && this.file == file
    {
      this.crc, this.checksum, this.file := crc, checksum, file;
      filePos, buffer, eof, drops := 0, [], false, [];
    }

    /** The next physical record, or EOF_KIND or BAD_KIND. */
    method ReadPhysicalRecord() returns (kind: byte, fragment: Bytes)
      requires Valid()
      modifies this
      ensures Valid() && old(Position()) <= Position()
      ensures match ReadPhys(crc, checksum, file, old(Position()))
              case End => kind == EOF_KIND && fragment == [] && Position() == |file| && drops == old(drops)
              case Bad(next, dropped) => kind == BAD_KIND && Position() == next && drops == old(drops) + dropped
              case Piece(k, f, next) => kind == k && fragment == f && Position() == next && drops == old(drops)
    {
      hide ReadPhys, DecodeFixed32, Unmask, Buffered;
      fragment := [];
      ghost var p0 := Position();
      var more := FillBuffer();
      if !more {
        kind := EOF_KIND;
        return;
      }
      BufferHolds(crc, checksum, file, filePos, buffer, eof);
      var a: nat, b: nat := buffer[4], buffer[5];
      var length := a + b * 256;
      kind := buffer[6];
      BufferDrop(file, filePos, buffer, eof, if HEADER + length > |buffer| then 0 else HEADER + length);
      if HEADER + length > |buffer| {
        var dropSize := |buffer|;
        buffer := [];
        if !eof {
          drops, kind := drops + [dropSize], BAD_KIND;
        } else {
          kind := EOF_KIND;
        }
        return;
      }
      if kind == 0 && length == 0 {
        buffer, kind := [], BAD_KIND;
        return;
      }
      if checksum && crc(buffer[6..HEADER + length]) != Unmask(DecodeFixed32(buffer)) {
        var dropSize := |buffer|;
        buffer, drops, kind := [], drops + [dropSize], BAD_KIND;
        return;
      }
      fragment := buffer[HEADER..HEADER + length];
      buffer := buffer[HEADER + length..];
    }

    /** The next record; none at the end of the file. */
    method ReadRecord() returns (record: Option<Bytes>)
      requires Valid()
      modifies this
      ensures Valid()
      ensures var r := ReadRec(crc, checksum, file, old(Position()), None);
              record == r.0 && Position() == r.1 && drops == old(drops) + r.2
    {
      hide ReadRec, ReadPhys, StepOf, Buffered;
      var scratch, inFragmentedRecord, done := [], false, false;
      ghost var goal := ReadRec(crc, checksum, file, Position(), None);
      while true
        invariant Valid() && |drops| >= |old(drops)|
        invariant var r := ReadRec(crc, checksum, file, Position(), Fragments(inFragmentedRecord, scratch));
                  goal.0 == r.0 && goal.1 == r.1 && old(drops) + goal.2 == drops + r.2
        decreases |file| - Position()
      {
        ghost var p, sofar, drops0 := Position(), Fragments(inFragmentedRecord, scratch), drops;
        ReadRecUnfold(crc, checksum, file, p, sofar);
        var kind, fragment := ReadPhysicalRecord();
        var own;
        done, record, scratch, inFragmentedRecord, own :=
          Dispatch(kind, fragment, scratch, inFragmentedRecord, ReadPhys(crc, checksum, file, p));
        Regroup(drops0, PhysDrops(ReadPhys(crc, checksum, file, p)), own);
        if done {
          break;
        }
        Regroup(drops0, PhysDrops(ReadPhys(crc, checksum, file, p)) + own,
                ReadRec(crc, checksum, file, Position(), Fragments(inFragmentedRecord, scratch)).2);
      }
    }

    /** The switch over the record type. */
    method Dispatch(kind: byte, fragment: Bytes, scratch0: Bytes, inFragmentedRecord0: bool, ghost phys: Phys)
      returns (done: bool, record: Option<Bytes>, scratch: Bytes, inFragmentedRecord: bool, own: seq<nat>)
      requires match phys
               case End => kind == EOF_KIND && fragment == []
               case Bad(_, _) => kind == BAD_KIND
               case Piece(k, f, _) => kind == k && fragment == f
      modifies this`drops
      ensures drops == old(drops) + own
      ensures match StepOf(phys, Fragments(inFragmentedRecord0, scratch0), |file|)
              case Stop(r, _, d) => done && record == r && d == PhysDrops(phys) + own
              case Continue(_, s, d) => !done && Fragments(inFragmentedRecord, scratch) == s
                                        && d == PhysDrops(phys) + own
    {
      done, record, scratch, inFragmentedRecord, own := false, None, scratch0, inFragmentedRecord0, [];
      if kind == FULL {
        if inFragmentedRecord && scratch != [] {
          own := Reported(|scratch|);
        }
        done, record := true, Some(fragment);
      } else if kind == FIRST {
        if inFragmentedRecord && scratch != [] {
          own := Reported(|scratch|);
        }
        scratch, inFragmentedRecord := fragment, true;
      } else if kind == MIDDLE {
        if !inFragmentedRecord {
          own := Reported(|fragment|);
        } else {
          scratch := scratch + fragment;
        }
      } else if kind == LAST {
        if !inFragmentedRecord {
          own := Reported(|fragment|);
        } else {
          done, record := true, Some(scratch + fragment);
        }
      } else if kind == EOF_KIND {
        done := true;
      } else if kind == BAD_KIND {
        if inFragmentedRecord {
          own := Reported(|scratch|);
          scratch, inFragmentedRecord := [], false;
        }
      } else {
        own := Reported(|fragment| + if inFragmentedRecord then |scratch| else 0);
        scratch, inFragmentedRecord := [], false;
      }
      drops := drops + own;
    }

    /** Skip a trailer and read the next block while no header fits in the buffer. */
    method FillBuffer() returns (more: bool)
      requires Valid()
      modifies this
      ensures Valid() && drops == old(drops) && old(Position()) <= Position()
      ensures ReadPhys(crc, checksum, file, Position()) == ReadPhys(crc, checksum, file, old(Position()))
      ensures if more then |buffer| >= HEADER else Position() == |file|
    {
      hide ReadPhys, Buffered;
      ghost var p0 := Position();
      while |buffer| < HEADER
        invariant Valid() && drops == old(drops) && p0 <= Position()
        invariant ReadPhys(crc, checksum, file, Position()) == ReadPhys(crc, checksum, file, p0)
        decreases if eof then 0 else 1 + |file| - filePos, |file| - filePos
      {
        if eof {
          NoHeaderLeft(crc, checksum, file, filePos, buffer);
          BufferDrop(file, filePos, buffer, eof, 0);
          buffer := [];
          return false;
        }
        SkipTrailer(crc, checksum, file, filePos, buffer);
        var n := if BLOCK < |file| - filePos then BLOCK else |file| - filePos;
        BufferFill(file, filePos, buffer, n);
        buffer, filePos := file[filePos..filePos + n], filePos + n;
        if n < BLOCK {
          eof := true;
        }
      }
      more := true;
    }
  }

  /** The recovery loop over a whole log. */
  method ReadLog(crc: Checksum, checksum: bool, file: Bytes) returns (records: seq<Bytes>, drops: seq<nat>)
    ensures var r := ReadAll(crc, checksum, file, 0); records == r.0 && drops == r.1
    ensures forall written | file <= LayoutAll(crc, 0, written) ::
              records == written[..Complete(crc, 0, written, |file|)] && drops == []
  {
    hide ReadRec, ReadAll, LayoutAll, Complete, Buffered;
    var reader := new Reader(crc, checksum, file);
    records := [];
    ghost var goal := ReadAll(crc, checksum, file, 0);
    assert [] + goal.0 == goal.0 && [] + goal.1 == goal.1;
    while true
      invariant fresh(reader) && reader.Valid()
      invariant reader.crc == crc && reader.checksum == checksum && reader.file == file
      invariant var rest := ReadAll(crc, checksum, file, reader.Position());
                goal.0 == records + rest.0 && goal.1 == reader.drops + rest.1
      decreases |file| - reader.Position()
    {
      ghost var p := reader.Position();
      ghost var drops0 := reader.drops;
      var record := reader.ReadRecord();
      ReadAllUnfold(crc, checksum, file, p);
      if record.None? {
        break;
      }
      ghost var rest := ReadAll(crc, checksum, file, reader.Position());
      Regroup(records, [record.value], rest.0);
      Regroup(drops0, ReadRec(crc, checksum, file, p, None).2, rest.1);
      records := records + [record.value];
    }
    drops := reader.drops;
    forall written | file <= LayoutAll(crc, 0, written)
      ensures records == written[..Complete(crc, 0, written, |file|)] && drops == []
    {
      var whole := LayoutAll(crc, 0, written);
      assert whole[0..] == whole;
      PrefixReadsBack(crc, checksum, file, whole, 0, written);
    }
  }

  lemma ReadAllUnfold(crc: Checksum, check: bool, file: Bytes, p: nat)
    requires p <= |file|
    ensures var r := ReadRec(crc, check, file, p, None);
            && p <= r.1 <= |file|
            && (r.0.Some? ==> p < r.1)
            && ReadAll(crc, check, file, p) ==
                 if r.0.None? then ([], r.2)
                 else ([r.0.value] + ReadAll(crc, check, file, r.1).0, r.2 + ReadAll(crc, check, file, r.1).1)
  {
  }

  /** The buffer is the unread part of the block read last; that block is cut off by the end of the file after eof. */
  ghost predicate Buffered(file: Bytes, filePos: nat, buffer: Bytes, eof: bool) {
    && |buffer| <= filePos <= |file| && buffer == file[filePos - |buffer|..filePos]
    && if eof then filePos == |file| < BlockEnd(filePos - |buffer|) else |buffer| <= BLOCK && filePos % BLOCK == 0
  }

  lemma BufferDrop(file: Bytes, filePos: nat, buffer: Bytes, eof: bool, n: nat)
    requires Buffered(file, filePos, buffer, eof) && n <= |buffer|
    ensures Buffered(file, filePos, buffer[n..], eof) && Buffered(file, filePos, [], eof)
    ensures eof ==> filePos == |file|
  {
    assert buffer[n..] == file[filePos - |buffer[n..]|..filePos];
    assert file[filePos..filePos] == [];
  }

  lemma BufferFill(file: Bytes, filePos: nat, buffer: Bytes, n: nat)
    requires Buffered(file, filePos, buffer, false) && n == if BLOCK < |file| - filePos then BLOCK else |file| - filePos
    ensures Buffered(file, filePos + n, file[filePos..filePos + n], n < BLOCK)
  {
  }

  lemma NoHeaderLeft(crc: Checksum, check: bool, file: Bytes, filePos: nat, buffer: Bytes)
    requires Buffered(file, filePos, buffer, true) && |buffer| < HEADER
    ensures ReadPhys(crc, check, file, filePos - |buffer|) == End == ReadPhys(crc, check, file, |file|)
  {
  }

  /** The physical record at the reader's position, in terms of its buffer. */
  lemma BufferHolds(crc: Checksum, check: bool, file: Bytes, filePos: nat, buffer: Bytes, eof: bool)
    requires HEADER <= |buffer| <= filePos <= |file| && Buffered(file, filePos, buffer, eof)
    ensures var p := filePos - |buffer|;
            var a: nat, b: nat := buffer[4], buffer[5];
            var length := a + b * 256;
            ReadPhys(crc, check, file, p) ==
              if HEADER + length > |buffer| then (if eof then End else Bad(filePos, [|buffer|]))
              else if buffer[6] == 0 && length == 0 then Bad(filePos, [])
              else if check && crc(buffer[6..HEADER + length]) != Unmask(DecodeFixed32(buffer))
                   then Bad(filePos, [|buffer|])
              else Piece(buffer[6], buffer[HEADER..HEADER + length], p + HEADER + length)
  {
    var p := filePos - |buffer|;
    BufferEnd(filePos, |buffer|);
    assert file[p + 4] == buffer[4] && file[p + 5] == buffer[5] && file[p + 6] == buffer[6];
    var a: nat, b: nat := buffer[4], buffer[5];
    var length := a + b * 256;
    SameFixed32(file[p..], buffer);
    if HEADER + length <= |buffer| {
      assert buffer[6..HEADER + length] == file[p + 6..p + HEADER + length];
      assert buffer[HEADER..HEADER + length] == file[p + HEADER..p + HEADER + length];
    }
  }

  lemma SameFixed32(a: Bytes, b: Bytes)
    requires 4 <= |b| <= |a| && a[..|b|] == b
    ensures DecodeFixed32(a) == DecodeFixed32(b)
  {
    assert a[0] == b[0] && a[1] == b[1] && a[2] == b[2] && a[3] == b[3];
  }

  lemma SkipTrailer(crc: Checksum, check: bool, file: Bytes, filePos: nat, buffer: Bytes)
    requires Buffered(file, filePos, buffer, false) && |buffer| < HEADER
    ensures ReadPhys(crc, check, file, filePos - |buffer|) == ReadPhys(crc, check, file, filePos)
  {
    if |buffer| > 0 {
      BufferEnd(filePos, |buffer|);
    }
  }

  /** scratch and in_fragmented_record as one value. */
  function Fragments(inFragmentedRecord: bool, scratch: Bytes): Option<Bytes> {
    if inFragmentedRecord then Some(scratch) else None
  }

  function PhysDrops(phys: Phys): seq<nat> {
    if phys.Bad? then phys.drops else []
  }

  lemma ReadRecUnfold(crc: Checksum, check: bool, file: Bytes, p: nat, scratch: Option<Bytes>)
    requires p <= |file|
    ensures var phys := ReadPhys(crc, check, file, p);
            StepOf(phys, scratch, |file|).next == if phys.End? then |file| else phys.next
    ensures match StepOf(ReadPhys(crc, check, file, p), scratch, |file|)
            case Stop(record, next, drops) => ReadRec(crc, check, file, p, scratch) == (record, next, drops)
            case Continue(next, scratch', drops) =>
              p < next <= |file| &&
              var r := ReadRec(crc, check, file, next, scratch');
              ReadRec(crc, check, file, p, scratch) == (r.0, r.1, drops + r.2)
  {
  }

  lemma BufferEnd(filePos: nat, n: nat)
    requires 0 < n <= filePos
    ensures filePos % BLOCK == 0 && n <= BLOCK ==> BlockEnd(filePos - n) == filePos
  {
  }
}
