/** Version edits as bytes (version_edit.cc), the records of the manifest. Internal keys are opaque byte strings here.
    */
module VersionEdits {
  import opened Wrappers
  import opened Coding
  import LogFormat

  const NUM_LEVELS: nat := 7

  const COMPARATOR: nat := 1
  const LOG_NUMBER: nat := 2
  const NEXT_FILE_NUMBER: nat := 3
  const LAST_SEQUENCE: nat := 4
  const COMPACT_POINTER: nat := 5
  const DELETED_FILE: nat := 6
  const NEW_FILE: nat := 7
  const PREV_LOG_NUMBER: nat := 9

  datatype FileMeta = FileMeta(number: nat, fileSize: nat, smallest: Bytes, largest: Bytes)

  /** One tagged field of the encoding. */
  datatype Field =
    | Comparator(name: Bytes)
    | LogNumber(n: nat)
    | PrevLogNumber(n: nat)
    | NextFileNumber(n: nat)
    | LastSequence(n: nat)
    | CompactPointer(level: nat, key: Bytes)
    | DeletedFile(level: nat, number: nat)
    | NewFile(level: nat, meta: FileMeta)

  /** The values of the members of a VersionEdit. The set of deleted files is kept in its iteration order. */
  datatype Edit = Edit(
    comparator: Option<Bytes>, logNumber: Option<nat>, prevLogNumber: Option<nat>,
    nextFileNumber: Option<nat>, lastSequence: Option<nat>,
    compactPointers: seq<(nat, Bytes)>, deletedFiles: seq<(nat, nat)>, newFiles: seq<(nat, FileMeta)>)

  // ----- one field -----

  predicate StorableKey(key: Bytes) {
    0 < |key| < U32
  }

  predicate StorableField(f: Field) {
    match f
    case Comparator(name) => |name| < U32
    case LogNumber(n) => n < U64
    case PrevLogNumber(n) => n < U64
    case NextFileNumber(n) => n < U64
    case LastSequence(n) => n < U64
    case CompactPointer(level, key) => level < NUM_LEVELS && StorableKey(key)
    case DeletedFile(level, number) => level < NUM_LEVELS && number < U64
    case NewFile(level, m) =>
      level < NUM_LEVELS && m.number < U64 && m.fileSize < U64 && StorableKey(m.smallest) && StorableKey(m.largest)
  }

  function Tag(f: Field): (t: nat)
    ensures t < 128
  {
    match f
    case Comparator(_) => COMPARATOR
    case LogNumber(_) => LOG_NUMBER
    case PrevLogNumber(_) => PREV_LOG_NUMBER
    case NextFileNumber(_) => NEXT_FILE_NUMBER
    case LastSequence(_) => LAST_SEQUENCE
    case CompactPointer(_, _) => COMPACT_POINTER
    case DeletedFile(_, _) => DELETED_FILE
    case NewFile(_, _) => NEW_FILE
  }

  function Payload(f: Field): Bytes {
    match f
    case Comparator(name) => LengthPrefixed(name)
    case LogNumber(n) => Varint(n)
    case PrevLogNumber(n) => Varint(n)
    case NextFileNumber(n) => Varint(n)
    case LastSequence(n) => Varint(n)
    case CompactPointer(level, key) => Varint(level) + LengthPrefixed(key)
    case DeletedFile(level, number) => Varint(level) + Varint(number)
    case NewFile(level, m) =>
      Varint(level) + (Varint(m.number) + (Varint(m.fileSize) +
      (LengthPrefixed(m.smallest) + LengthPrefixed(m.largest))))
  }

  function EncodeField(f: Field): (r: Bytes)
    ensures |r| > 0
  {
    Varint(Tag(f)) + Payload(f)
  }

  function GetInternalKey(input: Bytes): Option<(Bytes, Bytes)> {
    var r := GetLengthPrefixed(input);
    if r.None? || r.value.0 == [] then None else r
  }

  function GetLevel(input: Bytes): Option<(nat, Bytes)> {
    var r := GetVarint32(input);
    if r.None? || r.value.0 >= NUM_LEVELS then None else r
  }

  function GetNumber(input: Bytes, tag: nat): (r: Option<(Field, Bytes)>)
    ensures r.Some? ==> |r.value.1| < |input|
  {
    var r := GetVarint64(input);
    if r.None? then None
    else
      var f := if tag == LOG_NUMBER then LogNumber(r.value.0)
               else if tag == PREV_LOG_NUMBER then PrevLogNumber(r.value.0)
               else if tag == NEXT_FILE_NUMBER then NextFileNumber(r.value.0)
               else LastSequence(r.value.0);
      Some((f, r.value.1))
  }

  function GetNewFile(input: Bytes): (r: Option<(Field, Bytes)>)
    ensures r.Some? ==> |r.value.1| < |input|
  {
    var level := GetLevel(input);
    if level.None? then None else
    var number := GetVarint64(level.value.1);
    if number.None? then None else
    var size := GetVarint64(number.value.1);
    if size.None? then None else
    var smallest := GetInternalKey(size.value.1);
    if smallest.None? then None else
    var largest := GetInternalKey(smallest.value.1);
    if largest.None? then None else
    Some((NewFile(level.value.0, FileMeta(number.value.0, size.value.0, smallest.value.0, largest.value.0)),
          largest.value.1))
  }

  /** What follows the tag; None is a corruption. */
  function GetPayload(tag: nat, input: Bytes): (r: Option<(Field, Bytes)>)
    ensures r.Some? ==> |r.value.1| < |input|
  {
    if tag == COMPARATOR then
      var r := GetLengthPrefixed(input);
      if r.None? then None else Some((Comparator(r.value.0), r.value.1))
    else if tag == LOG_NUMBER || tag == PREV_LOG_NUMBER || tag == NEXT_FILE_NUMBER || tag == LAST_SEQUENCE then
      GetNumber(input, tag)
    else if tag == COMPACT_POINTER then
      var level := GetLevel(input);
      if level.None? then None else
      var key := GetInternalKey(level.value.1);
      if key.None? then None else Some((CompactPointer(level.value.0, key.value.0), key.value.1))
    else if tag == DELETED_FILE then
      var level := GetLevel(input);
      if level.None? then None else
      var number := GetVarint64(level.value.1);
      if number.None? then None else Some((DeletedFile(level.value.0, number.value.0), number.value.1))
    else if tag == NEW_FILE then GetNewFile(input)
    else None
  }

  lemma LevelRoundTrip(level: nat, rest: Bytes)
    requires level < NUM_LEVELS
    ensures GetLevel(Varint(level) + rest) == Some((level, rest))
  {
    Varint32RoundTrip(level, rest);
  }

  lemma KeyRoundTrip(key: Bytes, rest: Bytes)
    requires StorableKey(key)
    ensures GetInternalKey(LengthPrefixed(key) + rest) == Some((key, rest))
  {
    LengthPrefixedRoundTrip(key, rest);
  }

  lemma PayloadRoundTrip(f: Field, rest: Bytes)
    requires StorableField(f)
    ensures GetPayload(Tag(f), Payload(f) + rest) == Some((f, rest))
  {
    hide Varint, GetVarint32, GetVarint64, LengthPrefixed, GetLengthPrefixed, GetLevel, GetInternalKey, GetNewFile;
    match f {
      case Comparator(name) => LengthPrefixedRoundTrip(name, rest);
      case LogNumber(n) => Varint64RoundTrip(n, rest);
      case PrevLogNumber(n) => Varint64RoundTrip(n, rest);
      case NextFileNumber(n) => Varint64RoundTrip(n, rest);
      case LastSequence(n) => Varint64RoundTrip(n, rest);
      case CompactPointer(level, key) =>
        assert Payload(f) + rest == Varint(level) + (LengthPrefixed(key) + rest);
        LevelRoundTrip(level, LengthPrefixed(key) + rest);
        KeyRoundTrip(key, rest);
      case DeletedFile(level, number) =>
        assert Payload(f) + rest == Varint(level) + (Varint(number) + rest);
        LevelRoundTrip(level, Varint(number) + rest);
        Varint64RoundTrip(number, rest);
      case NewFile(level, m) => NewFileRoundTrip(level, m, rest);
    }
  }

  lemma NewFileRoundTrip(level: nat, m: FileMeta, rest: Bytes)
    requires StorableField(NewFile(level, m))
    ensures GetNewFile(Payload(NewFile(level, m)) + rest) == Some((NewFile(level, m), rest))
  {
    hide Varint, GetVarint64, LengthPrefixed, GetLevel, GetInternalKey;
    var e := LengthPrefixed(m.largest) + rest;
    var d := LengthPrefixed(m.smallest) + e;
    var c := Varint(m.fileSize) + d;
    var b := Varint(m.number) + c;
    assert Payload(NewFile(level, m)) + rest == Varint(level) + b;
    LevelRoundTrip(level, b);
    Varint64RoundTrip(m.number, c);
    Varint64RoundTrip(m.fileSize, d);
    KeyRoundTrip(m.smallest, e);
    KeyRoundTrip(m.largest, rest);
  }

  // ----- a whole edit -----

  function EncodeFields(fs: seq<Field>): Bytes {
    if fs == [] then [] else EncodeField(fs[0]) + EncodeFields(fs[1..])
  }

  /** The order of the deleted files: by level, then by number. */
  predicate Before(a: (nat, nat), b: (nat, nat)) {
    a.0 < b.0 || (a.0 == b.0 && a.1 < b.1)
  }

  predicate SortedSet(d: seq<(nat, nat)>) {
    forall i, j | 0 <= i < j < |d| :: Before(d[i], d[j])
  }

  /** std::set::insert. */
  function InsertDeleted(d: seq<(nat, nat)>, x: (nat, nat)): seq<(nat, nat)> {
    if d == [] || Before(x, d[0]) then [x] + d
    else if d[0] == x then d
    else [d[0]] + InsertDeleted(d[1..], x)
  }

  lemma {:induction false} InsertLast(d: seq<(nat, nat)>, x: (nat, nat))
    requires SortedSet(d + [x])
    ensures InsertDeleted(d, x) == d + [x]
  {
    if d != [] {
      assert (d + [x])[0] == d[0] && (d + [x])[|d|] == x;
      assert d[1..] + [x] == (d + [x])[1..];
      assert SortedSet(d[1..] + [x]);
      InsertLast(d[1..], x);
    } else {
      assert [x] + d == d + [x];
    }
  }

  /** A field read into an edit. */
  function Set(e: Edit, f: Field): Edit {
    match f
    case Comparator(name) => e.(comparator := Some(name))
    case LogNumber(n) => e.(logNumber := Some(n))
    case PrevLogNumber(n) => e.(prevLogNumber := Some(n))
    case NextFileNumber(n) => e.(nextFileNumber := Some(n))
    case LastSequence(n) => e.(lastSequence := Some(n))
    case CompactPointer(level, key) => e.(compactPointers := e.compactPointers + [(level, key)])
    case DeletedFile(level, number) => e.(deletedFiles := InsertDeleted(e.deletedFiles, (level, number)))
    case NewFile(level, meta) => e.(newFiles := e.newFiles + [(level, meta)])
  }

  function SetAll(e: Edit, fs: seq<Field>): Edit
    decreases |fs|
  {
    if fs == [] then e else SetAll(Set(e, fs[0]), fs[1..])
  }

  /** The loop of DecodeFrom. */
  function DecodeInto(e: Edit, input: Bytes): (Edit, bool)
    decreases |input|
  {
    var tag := GetVarint32(input);
    if tag.None? then (e, input == [])
    else
      var f := GetPayload(tag.value.0, tag.value.1);
      if f.None? then (e, false)
      else DecodeInto(Set(e, f.value.0), f.value.1)
  }

  lemma {:induction false} FieldsRoundTrip(e: Edit, fs: seq<Field>)
    requires forall k | 0 <= k < |fs| :: StorableField(fs[k])
    ensures DecodeInto(e, EncodeFields(fs)) == (SetAll(e, fs), true)
    decreases |fs|
  {
    if fs != [] {
      var rest := EncodeFields(fs[1..]);
      assert EncodeFields(fs) == Varint(Tag(fs[0])) + (Payload(fs[0]) + rest);
      Varint32RoundTrip(Tag(fs[0]), Payload(fs[0]) + rest);
      PayloadRoundTrip(fs[0], rest);
      FieldsRoundTrip(Set(e, fs[0]), fs[1..]);
    }
  }

  // ----- the fields of an edit, in the order they are written -----

  function Pointers(ps: seq<(nat, Bytes)>): seq<Field> {
    if ps == [] then [] else Pointers(ps[..|ps| - 1]) + [CompactPointer(ps[|ps| - 1].0, ps[|ps| - 1].1)]
  }

  function Deleted(ds: seq<(nat, nat)>): seq<Field> {
    if ds == [] then [] else Deleted(ds[..|ds| - 1]) + [DeletedFile(ds[|ds| - 1].0, ds[|ds| - 1].1)]
  }

  function New(ns: seq<(nat, FileMeta)>): seq<Field> {
    if ns == [] then [] else New(ns[..|ns| - 1]) + [NewFile(ns[|ns| - 1].0, ns[|ns| - 1].1)]
  }

  function Singles(e: Edit): seq<Field> {
    (if e.comparator.Some? then [Comparator(e.comparator.value)] else [])
    + (if e.logNumber.Some? then [LogNumber(e.logNumber.value)] else [])
    + (if e.prevLogNumber.Some? then [PrevLogNumber(e.prevLogNumber.value)] else [])
    + (if e.nextFileNumber.Some? then [NextFileNumber(e.nextFileNumber.value)] else [])
    + (if e.lastSequence.Some? then [LastSequence(e.lastSequence.value)] else [])
  }

  function FieldsOf(e: Edit): seq<Field> {
    Singles(e) + Pointers(e.compactPointers) + Deleted(e.deletedFiles) + New(e.newFiles)
  }

  /** What the callers of EncodeTo guarantee. */
  predicate Storable(e: Edit) {
    && SortedSet(e.deletedFiles)
    && forall k | 0 <= k < |FieldsOf(e)| :: StorableField(FieldsOf(e)[k])
  }

  const FRESH: Edit := Edit(None, None, None, None, None, [], [], [])

  /** Clear leaves the compaction pointers alone. */
  function Cleared(e: Edit): Edit {
    FRESH.(compactPointers := e.compactPointers)
  }

  lemma {:induction false} SetAllAppend(e: Edit, a: seq<Field>, b: seq<Field>)
    ensures SetAll(e, a + b) == SetAll(SetAll(e, a), b)
    decreases |a|
  {
    if a == [] {
      assert a + b == b;
    } else {
      assert (a + b)[1..] == a[1..] + b;
      SetAllAppend(Set(e, a[0]), a[1..], b);
    }
  }

  lemma SetLast(e: Edit, fs: seq<Field>, f: Field)
    ensures SetAll(e, fs + [f]) == Set(SetAll(e, fs), f)
  {
    SetAllAppend(e, fs, [f]);
    assert SetAll(SetAll(e, fs), [f]) == SetAll(Set(SetAll(e, fs), f), []);
  }

  lemma {:induction false} SetPointers(e: Edit, ps: seq<(nat, Bytes)>)
    ensures SetAll(e, Pointers(ps)) == e.(compactPointers := e.compactPointers + ps)
    decreases |ps|
  {
    if ps == [] {
      assert e.compactPointers + [] == e.compactPointers;
    } else {
      var last := |ps| - 1;
      SetPointers(e, ps[..last]);
      SetLast(e, Pointers(ps[..last]), CompactPointer(ps[last].0, ps[last].1));
      assert e.compactPointers + ps[..last] + [ps[last]] == e.compactPointers + ps;
    }
  }

  lemma {:induction false} SetDeleted(e: Edit, ds: seq<(nat, nat)>)
    requires SortedSet(ds) && e.deletedFiles == []
    ensures SetAll(e, Deleted(ds)) == e.(deletedFiles := ds)
    decreases |ds|
  {
    if ds != [] {
      var last := |ds| - 1;
      SetDeleted(e, ds[..last]);
      SetLast(e, Deleted(ds[..last]), DeletedFile(ds[last].0, ds[last].1));
      assert ds[..last] + [ds[last]] == ds;
      InsertLast(ds[..last], ds[last]);
    }
  }

  lemma {:induction false} SetNew(e: Edit, ns: seq<(nat, FileMeta)>)
    ensures SetAll(e, New(ns)) == e.(newFiles := e.newFiles + ns)
    decreases |ns|
  {
    if ns == [] {
      assert e.newFiles + [] == e.newFiles;
    } else {
      var last := |ns| - 1;
      SetNew(e, ns[..last]);
      SetLast(e, New(ns[..last]), NewFile(ns[last].0, ns[last].1));
      assert e.newFiles + ns[..last] + [ns[last]] == e.newFiles + ns;
    }
  }

  lemma SetSingles(e0: Edit, e: Edit)
    requires e0 == Cleared(e0)
    ensures SetAll(e0, Singles(e)) == e.(compactPointers := e0.compactPointers, deletedFiles := [], newFiles := [])
  {
    var a := if e.comparator.Some? then [Comparator(e.comparator.value)] else [];
    var b := if e.logNumber.Some? then [LogNumber(e.logNumber.value)] else [];
    var c := if e.prevLogNumber.Some? then [PrevLogNumber(e.prevLogNumber.value)] else [];
    var d := if e.nextFileNumber.Some? then [NextFileNumber(e.nextFileNumber.value)] else [];
    var f := if e.lastSequence.Some? then [LastSequence(e.lastSequence.value)] else [];
    SetAllAppend(e0, a + b + c + d, f);
    SetAllAppend(e0, a + b + c, d);
    SetAllAppend(e0, a + b, c);
    SetAllAppend(e0, a, b);
  }

  /** Decoding what EncodeTo wrote gives the edit back, behind whatever compaction pointers were there before. */
  lemma DecodeEncoded(e0: Edit, e: Edit)
    requires Storable(e)
    ensures DecodeInto(Cleared(e0), EncodeFields(FieldsOf(e)))
         == (e.(compactPointers := e0.compactPointers + e.compactPointers), true)
  {
    hide Singles, Pointers, Deleted, New, SetAll, EncodeFields, DecodeInto, StorableField;
    var c := Cleared(e0);
    var a, b, d, f := Singles(e), Pointers(e.compactPointers), Deleted(e.deletedFiles), New(e.newFiles);
    FieldsRoundTrip(c, FieldsOf(e));
    SetAllAppend(c, a + b + d, f);
    SetAllAppend(c, a + b, d);
    SetAllAppend(c, a, b);
    SetSingles(c, e);
    SetPointers(SetAll(c, a), e.compactPointers);
    SetDeleted(SetAll(c, a + b), e.deletedFiles);
    SetNew(SetAll(c, a + b + d), e.newFiles);
    assert [] + e.newFiles == e.newFiles;
  }

  /** The round trip holds exactly for an edit object without compaction pointers of its own. */
  lemma RoundTripExactlyWhenFresh(e0: Edit, e: Edit)
    requires Storable(e)
    ensures DecodeInto(Cleared(e0), EncodeFields(FieldsOf(e))) == (e, true) <==> e0.compactPointers == []
  {
    DecodeEncoded(e0, e);
    hide *;
    var ps := e0.compactPointers + e.compactPointers;
    assert |ps| == |e0.compactPointers| + |e.compactPointers|;
    assert [] + e.compactPointers == e.compactPointers;
  }

  // ----- the manifest -----

  /** The records of a manifest. */
  function Records(edits: seq<Edit>): (r: seq<Bytes>)
    ensures |r| == |edits|
  {
    seq(|edits|, k requires 0 <= k < |edits| => EncodeFields(FieldsOf(edits[k])))
  }

  /** What recovery decodes from the records, each into a fresh edit. */
  function DecodeRecords(records: seq<Bytes>): seq<(Edit, bool)> {
    seq(|records|, k requires 0 <= k < |records| => DecodeInto(FRESH, records[k]))
  }

  /** Reading any byte prefix of a manifest gives back a prefix of its edits; nothing is reported as corrupt. */
  lemma ManifestReadsBack(crc: LogFormat.Checksum, edits: seq<Edit>, file: Bytes)
    requires forall k | 0 <= k < |edits| :: Storable(edits[k])
    requires file <= LogFormat.LayoutAll(crc, 0, Records(edits))
    ensures var (records, drops) := LogFormat.ReadAll(crc, true, file, 0);
            var n := LogFormat.Complete(crc, 0, Records(edits), |file|);
            && drops == [] && |records| == n <= |edits|
            && forall k | 0 <= k < n :: DecodeRecords(records)[k] == (edits[k], true)
  {
    hide LogFormat.ReadAll, LogFormat.LayoutAll, LogFormat.Complete, DecodeInto, FieldsOf;
    var whole := LogFormat.LayoutAll(crc, 0, Records(edits));
    assert whole[0..] == whole;
    LogFormat.PrefixReadsBack(crc, true, file, whole, 0, Records(edits));
    var n := LogFormat.Complete(crc, 0, Records(edits), |file|);
    forall k | 0 <= k < n
      ensures DecodeInto(FRESH, Records(edits)[k]) == (edits[k], true)
    {
      RoundTripExactlyWhenFresh(FRESH, edits[k]);
      FreshIsCleared();
    }
  }

  lemma FreshIsCleared()
    ensures Cleared(FRESH) == FRESH && FRESH.compactPointers == []
  {
  }

  // ----- the object -----

  class VersionEdit {
    var comparator: Option<Bytes>
    var logNumber: Option<nat>
    var prevLogNumber: Option<nat>
    var nextFileNumber: Option<nat>
    var lastSequence: Option<nat>
    var compactPointers: seq<(nat, Bytes)>
    var deletedFiles: seq<(nat, nat)>
    var newFiles: seq<(nat, FileMeta)>

    ghost function Value(): Edit
      reads this
    {
      Edit(comparator, logNumber, prevLogNumber, nextFileNumber, lastSequence, compactPointers, deletedFiles, newFiles)
    }

    constructor ()
      ensures Value() == FRESH
    {
      comparator, logNumber, prevLogNumber, nextFileNumber, lastSequence := None, None, None, None, None;
      compactPointers, deletedFiles, newFiles := [], [], [];
    }

    method Clear()
      modifies this
      ensures Value() == Cleared(old(Value()))
    {
      comparator, logNumber, prevLogNumber, nextFileNumber, lastSequence := None, None, None, None, None;
      deletedFiles, newFiles := [], [];
    }

    method EncodeTo(dst: Bytes) returns (r: Bytes)
      ensures r == dst + EncodeFields(FieldsOf(Value()))
    {
      hide EncodeField;
      ghost var e := Value();
      r := EncodeSingles(dst);
      assert Pointers(compactPointers[..0]) == [] && EncodeFields([]) == [];
      ghost var front := r;
      for i := 0 to |compactPointers|
        invariant r == front + EncodeFields(Pointers(compactPointers[..i]))
      {
        assert compactPointers[..i + 1][..i] == compactPointers[..i];
        var f := CompactPointer(compactPointers[i].0, compactPointers[i].1);
        EncodeLast(front, Pointers(compactPointers[..i]), f);
        r := r + EncodeField(f);
      }
      assert compactPointers[..|compactPointers|] == compactPointers && deletedFiles[..0] == [];
      ghost var middle := r;
      for i := 0 to |deletedFiles|
        invariant r == middle + EncodeFields(Deleted(deletedFiles[..i]))
      {
        assert deletedFiles[..i + 1][..i] == deletedFiles[..i];
        var f := DeletedFile(deletedFiles[i].0, deletedFiles[i].1);
        EncodeLast(middle, Deleted(deletedFiles[..i]), f);
        r := r + EncodeField(f);
      }
      assert deletedFiles[..|deletedFiles|] == deletedFiles && newFiles[..0] == [];
      ghost var back := r;
      for i := 0 to |newFiles|
        invariant r == back + EncodeFields(New(newFiles[..i]))
      {
        assert newFiles[..i + 1][..i] == newFiles[..i];
        var f := NewFile(newFiles[i].0, newFiles[i].1);
        EncodeLast(back, New(newFiles[..i]), f);
        r := r + EncodeField(f);
      }
      assert newFiles[..|newFiles|] == newFiles;
      EncodeParts(dst, Singles(e), Pointers(e.compactPointers), Deleted(e.deletedFiles), New(e.newFiles));
    }

    method EncodeSingles(dst: Bytes) returns (r: Bytes)
      ensures r == dst + EncodeFields(Singles(Value()))
    {
      hide EncodeField, EncodeFields;
      r := dst;
      ghost var fs: seq<Field> := [];
      NoFields(dst);
      if comparator.Some? {
        EncodeLast(dst, fs, Comparator(comparator.value));
        r, fs := r + EncodeField(Comparator(comparator.value)), fs + [Comparator(comparator.value)];
      }
      if logNumber.Some? {
        EncodeLast(dst, fs, LogNumber(logNumber.value));
        r, fs := r + EncodeField(LogNumber(logNumber.value)), fs + [LogNumber(logNumber.value)];
      }
      if prevLogNumber.Some? {
        EncodeLast(dst, fs, PrevLogNumber(prevLogNumber.value));
        r, fs := r + EncodeField(PrevLogNumber(prevLogNumber.value)), fs + [PrevLogNumber(prevLogNumber.value)];
      }
      if nextFileNumber.Some? {
        EncodeLast(dst, fs, NextFileNumber(nextFileNumber.value));
        r, fs := r + EncodeField(NextFileNumber(nextFileNumber.value)), fs + [NextFileNumber(nextFileNumber.value)];
      }
      if lastSequence.Some? {
        EncodeLast(dst, fs, LastSequence(lastSequence.value));
        r, fs := r + EncodeField(LastSequence(lastSequence.value)), fs + [LastSequence(lastSequence.value)];
      }
      assert fs == Singles(Value());
    }

    /** The edit read, and whether the bytes were a whole one. */
    method DecodeFrom(src: Bytes) returns (ok: bool)
      modifies this
      ensures (Value(), ok) == DecodeInto(Cleared(old(Value())), src)
    {
      hide Set, GetPayload;
      Clear();
      ghost var goal := DecodeInto(Value(), src);
      var input := src;
      ok := true;
      while ok
        invariant ok ==> DecodeInto(Value(), input) == goal
        invariant !ok ==> (Value(), false) == goal
        decreases ok, |input|
      {
        var tag := GetVarint32(input);
        if tag.None? {
          break;
        }
        var f := GetPayload(tag.value.0, tag.value.1);
        if f.None? {
          ok := false;
        } else {
          PayloadConsumes(tag.value.0, tag.value.1);
          Store(f.value.0);
          input := f.value.1;
        }
      }
      ok := ok && input == [];
    }

    method Store(f: Field)
      modifies this
      ensures Value() == Set(old(Value()), f)
    {
      match f {
        case Comparator(name) => comparator := Some(name);
        case LogNumber(n) => logNumber := Some(n);
        case PrevLogNumber(n) => prevLogNumber := Some(n);
        case NextFileNumber(n) => nextFileNumber := Some(n);
        case LastSequence(n) => lastSequence := Some(n);
        case CompactPointer(level, key) => compactPointers := compactPointers + [(level, key)];
        case DeletedFile(level, number) => deletedFiles := InsertDeleted(deletedFiles, (level, number));
        case NewFile(level, meta) => newFiles := newFiles + [(level, meta)];
      }
    }
  }

  lemma PayloadConsumes(tag: nat, input: Bytes)
    ensures var r := GetPayload(tag, input); r.Some? ==> |r.value.1| < |input|
  {
  }

  lemma {:induction false} EncodeFieldsAppend(a: seq<Field>, b: seq<Field>)
    ensures EncodeFields(a + b) == EncodeFields(a) + EncodeFields(b)
  {
    if a == [] {
      assert a + b == b;
    } else {
      assert (a + b)[1..] == a[1..] + b;
      EncodeFieldsAppend(a[1..], b);
      assert EncodeField(a[0]) + (EncodeFields(a[1..]) + EncodeFields(b)) ==
             EncodeField(a[0]) + EncodeFields(a[1..]) + EncodeFields(b);
    }
  }

  lemma NoFields(dst: Bytes)
    ensures dst + EncodeFields([]) == dst
  {
  }

  lemma EncodeLast(front: Bytes, fs: seq<Field>, f: Field)
    ensures front + EncodeFields(fs + [f]) == front + EncodeFields(fs) + EncodeField(f)
  {
    hide EncodeField;
    EncodeFieldsAppend(fs, [f]);
    assert EncodeFields([f]) == EncodeField(f) + EncodeFields([f][1..]) == EncodeField(f);
  }

  lemma EncodeParts(dst: Bytes, a: seq<Field>, b: seq<Field>, c: seq<Field>, d: seq<Field>)
    ensures dst + EncodeFields(a) + EncodeFields(b) + EncodeFields(c) + EncodeFields(d)
         == dst + EncodeFields(a + b + c + d)
  {
    hide EncodeFields;
    EncodeFieldsAppend(a + b + c, d);
    EncodeFieldsAppend(a + b, c);
    EncodeFieldsAppend(a, b);
  }

  /** What cannot be read as a field makes the whole edit fail, after the fields before it. */
  lemma {:induction false} FaultFails(e: Edit, fs: seq<Field>, fault: Bytes)
    requires forall k | 0 <= k < |fs| :: StorableField(fs[k])
    requires GetVarint32(fault).Some? && GetPayload(GetVarint32(fault).value.0, GetVarint32(fault).value.1).None?
    ensures DecodeInto(e, EncodeFields(fs) + fault) == (SetAll(e, fs), false)
    decreases |fs|
  {
    hide GetVarint32, GetPayload, Set, Payload, Tag, StorableField;
    if fs == [] {
      assert [] + fault == fault;
    } else {
      var rest := EncodeFields(fs[1..]) + fault;
      assert EncodeFields(fs) + fault == Varint(Tag(fs[0])) + (Payload(fs[0]) + rest);
      Varint32RoundTrip(Tag(fs[0]), Payload(fs[0]) + rest);
      PayloadRoundTrip(fs[0], rest);
      FaultFails(Set(e, fs[0]), fs[1..], fault);
    }
  }

  /** A tag that does not exist is not skipped. */
  lemma UnknownTagFails(e: Edit, fs: seq<Field>, tag: nat, rest: Bytes)
    requires forall k | 0 <= k < |fs| :: StorableField(fs[k])
    requires tag < U32 && (tag == 0 || tag == 8 || tag > 9)
    ensures DecodeInto(e, EncodeFields(fs) + (Varint(tag) + rest)) == (SetAll(e, fs), false)
  {
    hide EncodeFields, DecodeInto, SetAll, StorableField;
    Varint32RoundTrip(tag, rest);
    FaultFails(e, fs, Varint(tag) + rest);
  }

  /** Nor is a level from 7 on accepted. */
  lemma LevelOutOfRangeFails(e: Edit, fs: seq<Field>, tag: nat, level: nat, rest: Bytes)
    requires forall k | 0 <= k < |fs| :: StorableField(fs[k])
    requires 5 <= tag <= 7 && 7 <= level < U32
    ensures DecodeInto(e, EncodeFields(fs) + (Varint(tag) + (Varint(level) + rest))) == (SetAll(e, fs), false)
  {
    hide EncodeFields, DecodeInto, SetAll, StorableField, GetVarint32;
    Varint32RoundTrip(tag, Varint(level) + rest);
    Varint32RoundTrip(level, rest);
    FaultFails(e, fs, Varint(tag) + (Varint(level) + rest));
  }

  /** Each kind of field written out. */
  lemma KnownFields()
    ensures EncodeField(Comparator([99])) == [1, 1, 99]
    ensures EncodeField(LogNumber(5)) == [2, 5] && EncodeField(PrevLogNumber(5)) == [9, 5]
    ensures EncodeField(NextFileNumber(300)) == [3, 0xAC, 0x02] && EncodeField(LastSequence(5)) == [4, 5]
    ensures EncodeField(CompactPointer(2, [97])) == [5, 2, 1, 97] && EncodeField(DeletedFile(3, 8)) == [6, 3, 8]
    ensures EncodeField(NewFile(1, FileMeta(8, 9, [97], [98]))) == [7, 1, 8, 9, 1, 97, 1, 98]
  {
    assert Varint(300) == [0xAC, 0x02];
    assert Varint(1) == [1] && Varint(2) == [2] && Varint(3) == [3] && Varint(5) == [5] && Varint(8) == [8];
    assert Varint(4) == [4] && Varint(6) == [6] && Varint(7) == [7] && Varint(9) == [9];
    hide Varint;
  }
}
