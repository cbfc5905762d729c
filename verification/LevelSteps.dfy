/** What a flush, a trivial move and a compaction do to the levels, and what they keep. */
module LevelSteps {
  import opened Wrappers
  import opened InternalKeys
  import opened MultiVersion
  import opened Tables
  import opened Lookup
  import opened Inputs
  import opened Compactions
  import opened VersionBuilder

  /** A file number names one file, in one level; numbers not handed out yet name none. */
  ghost predicate UniqueNumbers(levels: Levels, nextFile: nat) {
    && (forall i, j, f, g | 0 <= i < |levels| && 0 <= j < |levels| && f in levels[i] && g in levels[j]
                            && f.number == g.number ::
          i == j && f == g)
    && (forall i, f | 0 <= i < |levels| && f in levels[i] :: f.number < nextFile)
  }

  ghost predicate AllSorted(levels: Levels) {
    forall k | 0 <= k < |levels| :: FilesSorted(levels[k])
  }

  ghost predicate VersionInv(levels: Levels, nextFile: nat) {
    WellFormed(levels) && AllSorted(levels) && UniqueNumbers(levels, nextFile)
  }

  predicate Apart(f: File, g: File) {
    Before(f.largest, g.smallest) || Before(g.largest, f.smallest)
  }

  /** Sorted by smallest key and pairwise disjoint is disjoint in order. */
  lemma DisjointFromPairs(fs: seq<File>)
    requires ValidFiles(fs) && FilesSorted(fs)
    requires forall f, g | f in fs && g in fs && f != g :: Apart(f, g)
    ensures Disjoint(fs)
  {
    forall i, j | 0 <= i < j < |fs|
      ensures Before(fs[i].largest, fs[j].smallest)
    {
      assert FileLess(fs[i], fs[j]);
      assert fs[i] in fs && fs[j] in fs;
      SmallestAtMostLargest(fs[i]);
      SmallestAtMostLargest(fs[j]);
    }
  }

  lemma PairsFromDisjoint(fs: seq<File>, f: File, g: File)
    requires Disjoint(fs) && f in fs && g in fs && f != g
    ensures Apart(f, g)
  {
    var i :| 0 <= i < |fs| && fs[i] == f;
    var j :| 0 <= j < |fs| && fs[j] == g;
    if i < j {
      assert Before(fs[i].largest, fs[j].smallest);
    } else {
      assert Before(fs[j].largest, fs[i].smallest);
    }
  }

  lemma DistinctFromUnique(fs: seq<File>)
    requires FilesSorted(fs)
    requires forall f, g | f in fs && g in fs && f.number == g.number :: f == g
    ensures DistinctNumbers(fs)
  {
    forall i, j | 0 <= i < j < |fs|
      ensures fs[i].number != fs[j].number
    {
      assert FileLess(fs[i], fs[j]);
      assert fs[i] in fs && fs[j] in fs;
    }
  }

  lemma ValidMember(fs: seq<File>, f: File)
    requires ValidFiles(fs) && f in fs
    ensures f.Valid()
  {
  }

  lemma InFrom(levels: Levels, k: nat, f: File, e: Entry)
    requires k < |levels| && f in levels[k] && e in f.entries
    ensures e in EntriesOf(levels[k]) && e in From(levels, 0)
  {
    FromContains(levels, 0, e);
  }

  /** Where two versions of a user key lie decides which is newer. */
  lemma DeeperIsOlder(levels: Levels, i: nat, j: nat, f: File, g: File, a: Entry, b: Entry)
    requires WellFormed(levels) && i < j < |levels|
    requires f in levels[i] && g in levels[j] && a in f.entries && b in g.entries && a.key.user == b.key.user
    ensures a.key.sequence > b.key.sequence
  {
    assert a in EntriesOf(levels[i]) && b in EntriesOf(levels[j]);
    assert Newer(EntriesOf(levels[i]), EntriesOf(levels[j]));
  }

  lemma LaterIsOlder(f: File, g: File, a: Entry, b: Entry)
    requires f.Valid() && g.Valid() && Before(f.largest, g.smallest)
    requires a in f.entries && b in g.entries && a.key.user == b.key.user
    ensures a.key.sequence >= b.key.sequence
    ensures Before(a.key, b.key)
  {
    FileBounds(f, a);
    FileBounds(g, b);
  }

  lemma ShareUserKey(f: File, g: File, a: Entry, b: Entry)
    requires f.Valid() && g.Valid() && a in f.entries && b in g.entries && a.key.user == b.key.user
    ensures UserOverlap(f, g)
  {
    FileBounds(f, a);
    FileBounds(g, b);
  }

  lemma OneEntry(S: set<Entry>, a: Entry, b: Entry)
    requires OnePerSequence(S) && a in S && b in S && a.key.user == b.key.user && a.key != b.key
    ensures a.key.sequence != b.key.sequence
  {
  }

  // ----- one compaction -----

  /** The files of a compaction: inputs at level and level + 1, the bounds of the level's inputs, and outputs. */
  datatype Job = Job(level: nat, inputs0: seq<File>, inputs1: seq<File>, low: InternalKey, high: InternalKey,
                     outputs: seq<File>)

  ghost function InputEntries(j: Job): set<Entry> {
    EntriesOf(j.inputs0) + EntriesOf(j.inputs1)
  }

  ghost predicate GoodJob(levels: Levels, j: Job) {
    && |levels| == NUM_LEVELS && j.level + 1 < NUM_LEVELS
    && ClosedInputs(levels[j.level], j.level, j.inputs0)
    && IsHull(j.inputs0, j.low, j.high)
    && j.inputs1 == Select(levels[j.level + 1], Some(j.low.user), Some(j.high.user))
  }

  /** The outputs are valid, pairwise disjoint files made of input entries only. */
  ghost predicate GoodOutputs(j: Job) {
    && (forall f | f in j.outputs :: f.Valid())
    && (forall f, e | f in j.outputs && e in f.entries :: e in InputEntries(j))
    && (forall f, g | f in j.outputs && g in j.outputs && f != g :: Apart(f, g))
  }

  ghost predicate GoodOutputNumbers(j: Job, nextFile: nat, nextFile': nat) {
    && nextFile <= nextFile'
    && (forall f | f in j.outputs :: nextFile <= f.number < nextFile')
    && (forall f, g | f in j.outputs && g in j.outputs && f.number == g.number :: f == g)
  }

  /** The levels after the edit of the compaction has been applied. */
  ghost predicate Compacted(levels: Levels, j: Job, levels': Levels)
    requires GoodJob(levels, j)
  {
    && |levels'| == NUM_LEVELS && AllSorted(levels')
    && (forall k | 0 <= k < NUM_LEVELS && k != j.level && k != j.level + 1 :: levels'[k] == levels[k])
    && (forall f :: f in levels'[j.level] <==> f in levels[j.level] && f !in j.inputs0)
    && (forall f :: f in levels'[j.level + 1] <==> (f in levels[j.level + 1] && f !in j.inputs1) || f in j.outputs)
  }

  /** A file of the next level that is not an input lies entirely to one side of the inputs' user keys. */
  lemma LeftOrRight(levels: Levels, j: Job, g: File)
    requires GoodJob(levels, j) && g in levels[j.level + 1] && g !in j.inputs1
    ensures g.largest.user < j.low.user || j.high.user < g.smallest.user
  {
    SelectMembers(levels[j.level + 1], Some(j.low.user), Some(j.high.user));
  }

  lemma BesideInputs0(levels: Levels, j: Job, g: File, e: Entry)
    requires GoodJob(levels, j) && ValidFiles(levels[j.level]) && g.Valid()
    requires e in EntriesOf(j.inputs0)
    ensures g.largest.user < j.low.user ==> Before(g.largest, e.key)
    ensures j.high.user < g.smallest.user ==> Before(e.key, g.smallest)
  {
    var h :| h in j.inputs0 && e in h.entries;
    ValidMember(levels[j.level], h);
    FileBounds(h, e);
  }

  lemma BesideInputs1(levels: Levels, j: Job, g: File, e: Entry)
    requires GoodJob(levels, j) && ValidFiles(levels[j.level + 1]) && Disjoint(levels[j.level + 1])
    requires g in levels[j.level + 1] && g !in j.inputs1
    requires e in EntriesOf(j.inputs1)
    ensures g.largest.user < j.low.user ==> Before(g.largest, e.key)
    ensures j.high.user < g.smallest.user ==> Before(e.key, g.smallest)
  {
    var parents := levels[j.level + 1];
    var h :| h in j.inputs1 && e in h.entries;
    SelectMembers(parents, Some(j.low.user), Some(j.high.user));
    ValidMember(parents, g);
    ValidMember(parents, h);
    SmallestAtMostLargest(g);
    SmallestAtMostLargest(h);
    FileBounds(h, e);
    PairsFromDisjoint(parents, g, h);
  }

  /** ... and so lies entirely before, or after, every input entry. */
  lemma BesideInputs(levels: Levels, j: Job, g: File, e: Entry)
    requires WellFormed(levels) && GoodJob(levels, j) && g in levels[j.level + 1] && g !in j.inputs1
    requires e in InputEntries(j)
    ensures g.largest.user < j.low.user ==> Before(g.largest, e.key)
    ensures j.high.user < g.smallest.user ==> Before(e.key, g.smallest)
  {
    ValidMember(levels[j.level + 1], g);
    if e in EntriesOf(j.inputs0) {
      BesideInputs0(levels, j, g, e);
    } else {
      BesideInputs1(levels, j, g, e);
    }
  }

  lemma OutputsApart(levels: Levels, j: Job, f: File, g: File)
    requires WellFormed(levels) && GoodJob(levels, j) && GoodOutputs(j)
    requires f in j.outputs && g in levels[j.level + 1] && g !in j.inputs1
    ensures Apart(f, g)
  {
    LeftOrRight(levels, j, g);
    assert f.Valid();
    BesideInputs(levels, j, g, f.entries[0]);
    BesideInputs(levels, j, g, f.entries[|f.entries| - 1]);
  }

  /** Which level an entry of the new levels came from. */
  ghost predicate CameFrom(levels: Levels, i: nat, e: Entry) {
    i < |levels| && e in EntriesOf(levels[i])
  }

  lemma InputOrigin(levels: Levels, j: Job, e: Entry)
    requires GoodJob(levels, j) && e in InputEntries(j)
    ensures CameFrom(levels, j.level, e) || CameFrom(levels, j.level + 1, e)
  {
    SelectMembers(levels[j.level + 1], Some(j.low.user), Some(j.high.user));
    EntriesOfMono(j.inputs0, levels[j.level]);
    EntriesOfMono(j.inputs1, levels[j.level + 1]);
  }

  lemma CompactedOrigin(levels: Levels, j: Job, levels': Levels, k: nat, e: Entry)
    requires GoodJob(levels, j) && GoodOutputs(j) && Compacted(levels, j, levels')
    requires k < NUM_LEVELS && e in EntriesOf(levels'[k])
    ensures CameFrom(levels, k, e) || (k == j.level + 1 && e in InputEntries(j))
  {
    var f :| f in levels'[k] && e in f.entries;
    if k == j.level || k == j.level + 1 {
      if f in levels[k] {
        assert CameFrom(levels, k, e);
      }
    }
  }

  lemma OriginsOrdered(levels: Levels, i: nat, k: nat, a: Entry, b: Entry)
    requires WellFormed(levels) && i < k && CameFrom(levels, i, a) && CameFrom(levels, k, b) && a.key.user == b.key.user
    ensures a.key.sequence > b.key.sequence
  {
    assert Newer(EntriesOf(levels[i]), EntriesOf(levels[k]));
  }

  /** What stays behind in the level is newer than what is compacted away. */
  lemma RemainingIsNewer(levels: Levels, j: Job, f: File, a: Entry, b: Entry)
    requires WellFormed(levels) && GoodJob(levels, j)
    requires f in levels[j.level] && f !in j.inputs0 && a in f.entries
    requires b in InputEntries(j) && a.key.user == b.key.user
    ensures a.key.sequence > b.key.sequence
  {
    assert ValidFiles(levels[j.level]) && ClosedInputs(levels[j.level], j.level, j.inputs0);
    assert OnePerSequence(From(levels, 0));
    assert j.level + 1 < |levels|;
    InputsWithin(levels, j);
    OneSide(j, b);
    hide *;
    if b in EntriesOf(j.inputs0) {
      var h := FileWith(j.inputs0, b);
      OutsideIsNewer(levels[j.level], j.level, j.inputs0, f, h, a, b);
      InFrom(levels, j.level, f, a);
      InFrom(levels, j.level, h, b);
      OneEntry(From(levels, 0), a, b);
    } else {
      var h := FileWith(j.inputs1, b);
      DeeperIsOlder(levels, j.level, j.level + 1, f, h, a, b);
    }
  }

  lemma InputsWithin(levels: Levels, j: Job)
    requires GoodJob(levels, j)
    ensures (forall h | h in j.inputs0 :: h in levels[j.level]) && forall h | h in j.inputs1 :: h in levels[j.level + 1]
  {
    SelectMembers(levels[j.level + 1], Some(j.low.user), Some(j.high.user));
  }

  lemma OneSide(j: Job, e: Entry)
    requires e in InputEntries(j)
    ensures e in EntriesOf(j.inputs0) || e in EntriesOf(j.inputs1)
  {
  }

  lemma FileWith(fs: seq<File>, e: Entry) returns (h: File)
    requires e in EntriesOf(fs)
    ensures h in fs && e in h.entries
  {
    h :| h in fs && e in h.entries;
  }

  lemma OutsideIsNewer(fs: seq<File>, level: nat, inputs: seq<File>, f: File, h: File, a: Entry, b: Entry)
    requires ValidFiles(fs) && ClosedInputs(fs, level, inputs) && f in fs && f !in inputs && h in inputs
    requires a in f.entries && b in h.entries && a.key.user == b.key.user
    ensures h in fs && a.key.sequence >= b.key.sequence && a.key != b.key
  {
    ValidMember(fs, f);
    ValidMember(fs, h);
    hide ValidFiles, File.Valid;
    ShareUserKey(h, f, b, a);
    LaterIsOlder(f, h, a, b);
  }

  lemma InputsNewerThan(levels: Levels, j: Job, k: nat, a: Entry, b: Entry)
    requires WellFormed(levels) && GoodJob(levels, j) && j.level + 1 < k
    requires a in InputEntries(j) && CameFrom(levels, k, b) && a.key.user == b.key.user
    ensures a.key.sequence > b.key.sequence
  {
    hide WellFormed, CameFrom;
    InputOrigin(levels, j, a);
    if CameFrom(levels, j.level, a) {
      OriginsOrdered(levels, j.level, k, a, b);
    } else {
      OriginsOrdered(levels, j.level + 1, k, a, b);
    }
  }

  lemma NewerThanInputs(levels: Levels, j: Job, i: nat, a: Entry, b: Entry)
    requires WellFormed(levels) && GoodJob(levels, j) && i < j.level
    requires b in InputEntries(j) && CameFrom(levels, i, a) && a.key.user == b.key.user
    ensures a.key.sequence > b.key.sequence
  {
    hide WellFormed, CameFrom;
    InputOrigin(levels, j, b);
    if CameFrom(levels, j.level, b) {
      OriginsOrdered(levels, i, j.level, a, b);
    } else {
      OriginsOrdered(levels, i, j.level + 1, a, b);
    }
  }

  lemma CompactedPair(levels: Levels, j: Job, levels': Levels, i: nat, k: nat, a: Entry, b: Entry)
    requires WellFormed(levels) && GoodJob(levels, j) && GoodOutputs(j) && Compacted(levels, j, levels')
    requires i < k < NUM_LEVELS
    requires a in EntriesOf(levels'[i]) && b in EntriesOf(levels'[k]) && a.key.user == b.key.user
    ensures a.key.sequence > b.key.sequence
  {
    hide WellFormed, CameFrom, GoodOutputs, ClosedInputs, IsHull;
    CompactedOrigin(levels, j, levels', i, a);
    CompactedOrigin(levels, j, levels', k, b);
    if CameFrom(levels, k, b) {
      if CameFrom(levels, i, a) {
        OriginsOrdered(levels, i, k, a, b);
      } else {
        InputsNewerThan(levels, j, k, a, b);
      }
    } else if i == j.level {
      var f :| f in levels'[i] && a in f.entries;
      RemainingIsNewer(levels, j, f, a, b);
    } else {
      NewerThanInputs(levels, j, i, a, b);
    }
  }

  lemma CompactedNewer(levels: Levels, j: Job, levels': Levels, i: nat, k: nat)
    requires WellFormed(levels) && GoodJob(levels, j) && GoodOutputs(j) && Compacted(levels, j, levels')
    requires i < k < NUM_LEVELS
    ensures Newer(EntriesOf(levels'[i]), EntriesOf(levels'[k]))
  {
    hide WellFormed, GoodJob, GoodOutputs, EntriesOf;
    forall a, b | a in EntriesOf(levels'[i]) && b in EntriesOf(levels'[k]) && a.key.user == b.key.user
      ensures a.key.sequence > b.key.sequence
    {
      CompactedPair(levels, j, levels', i, k, a, b);
    }
  }

  lemma CompactedShrinks(levels: Levels, j: Job, levels': Levels)
    requires GoodJob(levels, j) && GoodOutputs(j) && Compacted(levels, j, levels')
    ensures From(levels', 0) <= From(levels, 0)
  {
    forall e | e in From(levels', 0)
      ensures e in From(levels, 0)
    {
      FromContains(levels', 0, e);
      var k :| 0 <= k < |levels'| && e in EntriesOf(levels'[k]);
      CompactedOrigin(levels, j, levels', k, e);
      if !CameFrom(levels, k, e) {
        InputOrigin(levels, j, e);
      }
      FromContains(levels, 0, e);
    }
  }

  /** A file of the new levels is an old one that was not consumed, or an output. */
  lemma CompactedFile(levels: Levels, j: Job, levels': Levels, k: nat, f: File)
    requires GoodJob(levels, j) && Compacted(levels, j, levels') && k < NUM_LEVELS && f in levels'[k]
    ensures (f in levels[k] && (k == j.level + 1 ==> f !in j.inputs1)) || (k == j.level + 1 && f in j.outputs)
  {
  }

  lemma CompactedFilesValid(levels: Levels, j: Job, levels': Levels, k: nat)
    requires WellFormed(levels) && GoodJob(levels, j) && GoodOutputs(j) && Compacted(levels, j, levels')
    requires k < NUM_LEVELS
    ensures ValidFiles(levels'[k])
  {
    assert ValidFiles(levels[k]);
    hide WellFormed, GoodJob, Compacted;
    forall i | 0 <= i < |levels'[k]|
      ensures levels'[k][i].Valid()
    {
      var f := levels'[k][i];
      assert f in levels'[k];
      CompactedFile(levels, j, levels', k, f);
      if f in levels[k] {
        ValidMember(levels[k], f);
      }
    }
  }

  lemma CompactedFilesApart(levels: Levels, j: Job, levels': Levels, k: nat, f: File, g: File)
    requires WellFormed(levels) && GoodJob(levels, j) && GoodOutputs(j) && Compacted(levels, j, levels')
    requires 1 <= k < NUM_LEVELS && f in levels'[k] && g in levels'[k] && f != g
    ensures Apart(f, g)
  {
    hide *;
    LevelReady(levels, k);
    CompactedFile(levels, j, levels', k, f);
    CompactedFile(levels, j, levels', k, g);
    if k == j.level + 1 && f in j.outputs {
      if g in j.outputs {
        OutputPairApart(j, f, g);
      } else {
        OutputsApart(levels, j, f, g);
      }
    } else if k == j.level + 1 && g in j.outputs {
      OutputsApart(levels, j, g, f);
      ApartEitherWay(f, g);
    } else {
      PairsFromDisjoint(levels[k], f, g);
    }
  }

  lemma OutputPairApart(j: Job, f: File, g: File)
    requires GoodOutputs(j) && f in j.outputs && g in j.outputs && f != g
    ensures Apart(f, g)
  {
  }

  lemma ApartEitherWay(f: File, g: File)
    ensures Apart(f, g) <==> Apart(g, f)
  {
  }

  lemma CompactedDisjoint(levels: Levels, j: Job, levels': Levels, k: nat)
    requires WellFormed(levels) && GoodJob(levels, j) && GoodOutputs(j) && Compacted(levels, j, levels')
    requires 1 <= k < NUM_LEVELS
    ensures Disjoint(levels'[k])
  {
    hide WellFormed, GoodJob, GoodOutputs, Apart;
    CompactedFilesValid(levels, j, levels', k);
    assert FilesSorted(levels'[k]);
    hide Compacted;
    forall f, g | f in levels'[k] && g in levels'[k] && f != g
      ensures Apart(f, g)
    {
      CompactedFilesApart(levels, j, levels', k, f, g);
    }
    DisjointFromPairs(levels'[k]);
  }

  lemma CompactedNumbers(levels: Levels, j: Job, levels': Levels, nextFile: nat, nextFile': nat)
    requires UniqueNumbers(levels, nextFile)
    requires GoodJob(levels, j) && GoodOutputNumbers(j, nextFile, nextFile') && Compacted(levels, j, levels')
    ensures UniqueNumbers(levels', nextFile')
  {
    assert |levels'| == |levels| == NUM_LEVELS;
    hide GoodJob, Compacted;
    forall i, f | 0 <= i < |levels'| && f in levels'[i]
      ensures f.number < nextFile'
    {
      CompactedFile(levels, j, levels', i, f);
    }
    forall i, k, f, g | 0 <= i < |levels'| && 0 <= k < |levels'| && f in levels'[i] && g in levels'[k]
                      && f.number == g.number
      ensures i == k && f == g
    {
      CompactedFile(levels, j, levels', i, f);
      CompactedFile(levels, j, levels', k, g);
    }
  }

  lemma CompactedLevel0(levels: Levels, j: Job, levels': Levels, nextFile: nat)
    requires WellFormed(levels) && GoodJob(levels, j) && Compacted(levels, j, levels')
    requires UniqueNumbers(levels', nextFile)
    ensures DistinctNumbers(levels'[0]) && NewerByNumber(levels'[0])
  {
    assert forall f | f in levels'[0] :: f in levels[0];
    DistinctInLevel(levels', nextFile, 0);
  }

  /** A compaction keeps the whole version invariant. */
  lemma CompactionKeepsInvariant(levels: Levels, j: Job, levels': Levels, nextFile: nat, nextFile': nat)
    requires VersionInv(levels, nextFile)
    requires GoodJob(levels, j) && GoodOutputs(j) && Compacted(levels, j, levels') && UniqueNumbers(levels', nextFile')
    ensures VersionInv(levels', nextFile')
  {
    assert AllSorted(levels') && |levels'| == |levels| == NUM_LEVELS;
    assert OnePerSequence(From(levels, 0));
    hide GoodJob, GoodOutputs, Newer, Disjoint, ValidFiles, Compacted, OnePerSequence, UniqueNumbers,
         NewerByNumber, DistinctNumbers, From, EntriesOf, AllSorted;
    CompactedLevel0(levels, j, levels', nextFile');
    forall k | 0 <= k < NUM_LEVELS
      ensures ValidFiles(levels'[k])
    {
      CompactedFilesValid(levels, j, levels', k);
    }
    forall k | 1 <= k < NUM_LEVELS
      ensures Disjoint(levels'[k])
    {
      CompactedDisjoint(levels, j, levels', k);
    }
    forall i, k | 0 <= i < k < NUM_LEVELS
      ensures Newer(EntriesOf(levels'[i]), EntriesOf(levels'[k]))
    {
      CompactedNewer(levels, j, levels', i, k);
    }
    CompactedShrinks(levels, j, levels');
    SubsetOnePerSequence(From(levels', 0), From(levels, 0));
  }

  /** A trivial move keeps file numbers unique: the file keeps its number and leaves its level. */
  lemma MovedNumbers(levels: Levels, j: Job, levels': Levels, nextFile: nat)
    requires UniqueNumbers(levels, nextFile)
    requires GoodJob(levels, j) && Compacted(levels, j, levels')
    requires |j.inputs0| == 1 && j.outputs == j.inputs0
    ensures UniqueNumbers(levels', nextFile)
  {
    var moved := j.inputs0[0];
    assert |levels'| == |levels| == NUM_LEVELS;
    assert moved in levels[j.level] && moved !in levels'[j.level] && j.outputs == [moved];
    hide GoodJob, Compacted;
    forall i, f | 0 <= i < |levels'| && f in levels'[i]
      ensures f.number < nextFile
    {
      CompactedFile(levels, j, levels', i, f);
    }
    forall i, k, f, g | 0 <= i < |levels'| && 0 <= k < |levels'| && f in levels'[i] && g in levels'[k]
                      && f.number == g.number
      ensures i == k && f == g
    {
      CompactedFile(levels, j, levels', i, f);
      CompactedFile(levels, j, levels', k, g);
    }
  }

  // ----- a flush -----

  /** The levels after a new file has been added at one level. */
  ghost predicate Flushed(levels: Levels, k: nat, f: File, levels': Levels) {
    && |levels| == |levels'| == NUM_LEVELS && k < NUM_LEVELS && AllSorted(levels')
    && (forall i | 0 <= i < NUM_LEVELS && i != k :: levels'[i] == levels[i])
    && (forall g :: g in levels'[k] <==> g in levels[k] || g == f)
  }

  /** The flushed file is newer than everything and, below level 0, clear of every file it passes. */
  ghost predicate GoodFlush(levels: Levels, k: nat, f: File, nextFile: nat) {
    && |levels| == NUM_LEVELS && k < NUM_LEVELS && f.Valid() && f.number == nextFile
    && Newer(Contents(f.entries), From(levels, 0))
    && OnePerSequence(Contents(f.entries) + From(levels, 0))
    && (k > 0 ==> forall i, g | 0 <= i <= k && g in levels[i] :: !UserOverlap(f, g))
  }

  lemma FlushedContents(levels: Levels, k: nat, f: File, levels': Levels)
    requires Flushed(levels, k, f, levels')
    ensures From(levels', 0) == Contents(f.entries) + From(levels, 0)
  {
    forall e
      ensures e in From(levels', 0) <==> e in f.entries || e in From(levels, 0)
    {
      FromContains(levels, 0, e);
      FromContains(levels', 0, e);
      if e in f.entries {
        assert f in levels'[k] && e in EntriesOf(levels'[k]);
      }
      if e in From(levels, 0) {
        var i :| 0 <= i < |levels| && e in EntriesOf(levels[i]);
        assert e in EntriesOf(levels'[i]);
      }
    }
  }

  lemma FlushedNewer(levels: Levels, k: nat, f: File, levels': Levels, nextFile: nat, i: nat, j: nat)
    requires WellFormed(levels) && GoodFlush(levels, k, f, nextFile) && Flushed(levels, k, f, levels')
    requires i < j < NUM_LEVELS
    ensures Newer(EntriesOf(levels'[i]), EntriesOf(levels'[j]))
  {
    hide GoodFlush, WellFormed;
    forall a, b | a in EntriesOf(levels'[i]) && b in EntriesOf(levels'[j]) && a.key.user == b.key.user
      ensures a.key.sequence > b.key.sequence
    {
      var g :| g in levels'[i] && a in g.entries;
      var h :| h in levels'[j] && b in h.entries;
      FlushedPair(levels, k, f, nextFile, i, j, g, h, a, b);
    }
  }

  lemma FlushedPair(levels: Levels, k: nat, f: File, nextFile: nat, i: nat, j: nat, g: File, h: File, a: Entry,
                    b: Entry)
    requires WellFormed(levels) && GoodFlush(levels, k, f, nextFile) && i < j < NUM_LEVELS
    requires g in levels[i] || (i == k && g == f)
    requires h in levels[j] || (j == k && h == f)
    requires a in g.entries && b in h.entries && a.key.user == b.key.user
    ensures a.key.sequence > b.key.sequence
  {
    if g in levels[i] && h in levels[j] {
      DeeperIsOlder(levels, i, j, g, h, a, b);
    } else if g in levels[i] {
      ValidMember(levels[i], g);
      ShareUserKey(f, g, b, a);
    } else {
      assert h in levels[j];
      InFrom(levels, j, h, b);
      assert a in Contents(f.entries);
    }
  }

  lemma FlushedLevel(levels: Levels, k: nat, f: File, levels': Levels, nextFile: nat)
    requires WellFormed(levels) && GoodFlush(levels, k, f, nextFile) && Flushed(levels, k, f, levels')
    ensures ValidFiles(levels'[k])
    ensures k > 0 ==> Disjoint(levels'[k])
  {
    assert ValidFiles(levels[k]) && (k > 0 ==> Disjoint(levels[k]));
    hide WellFormed;
    forall i | 0 <= i < |levels'[k]|
      ensures levels'[k][i].Valid()
    {
      assert levels'[k][i] in levels'[k];
    }
    if k > 0 {
      forall g, h | g in levels'[k] && h in levels'[k] && g != h
        ensures Apart(g, h)
      {
        if g == f || h == f {
          assert !UserOverlap(g, h) || !UserOverlap(h, g);
        } else {
          PairsFromDisjoint(levels[k], g, h);
        }
      }
      DisjointFromPairs(levels'[k]);
    }
  }

  lemma FlushedLevel0(levels: Levels, k: nat, f: File, levels': Levels, nextFile: nat)
    requires VersionInv(levels, nextFile) && GoodFlush(levels, k, f, nextFile) && Flushed(levels, k, f, levels')
    ensures NewerByNumber(levels'[0])
  {
    forall g, h | g in levels'[0] && h in levels'[0] && g.number > h.number
      ensures Newer(Contents(g.entries), Contents(h.entries))
    {
      if g in levels[0] && h in levels[0] {
      } else {
        assert g == f && h in levels[0];
        forall b | b in Contents(h.entries)
          ensures b in From(levels, 0)
        {
          InFrom(levels, 0, h, b);
        }
      }
    }
  }

  lemma FlushedNumbers(levels: Levels, k: nat, f: File, levels': Levels, nextFile: nat)
    requires UniqueNumbers(levels, nextFile) && Flushed(levels, k, f, levels') && f.number == nextFile
    ensures UniqueNumbers(levels', nextFile + 1)
  {
    assert forall i, g | 0 <= i < |levels'| && g in levels'[i] :: g in levels[i] || (i == k && g == f);
    hide Flushed;
    forall i, j, g, h | 0 <= i < |levels'| && 0 <= j < |levels'| && g in levels'[i] && h in levels'[j]
                      && g.number == h.number
      ensures i == j && g == h
    {
      assert g in levels[i] ==> g.number < nextFile;
      assert h in levels[j] ==> h.number < nextFile;
    }
  }

  lemma FlushedValid(levels: Levels, k: nat, f: File, levels': Levels, nextFile: nat, i: nat)
    requires WellFormed(levels) && GoodFlush(levels, k, f, nextFile) && Flushed(levels, k, f, levels')
    requires i < NUM_LEVELS
    ensures ValidFiles(levels'[i])
    ensures i > 0 ==> Disjoint(levels'[i])
  {
    if i == k {
      FlushedLevel(levels, k, f, levels', nextFile);
    }
  }

  /** A flush keeps the whole version invariant. */
  lemma FlushKeepsInvariant(levels: Levels, k: nat, f: File, levels': Levels, nextFile: nat)
    requires VersionInv(levels, nextFile) && GoodFlush(levels, k, f, nextFile) && Flushed(levels, k, f, levels')
    ensures VersionInv(levels', nextFile + 1)
    ensures From(levels', 0) == Contents(f.entries) + From(levels, 0)
  {
    assert WellFormed(levels) && UniqueNumbers(levels, nextFile);
    assert OnePerSequence(Contents(f.entries) + From(levels, 0));
    assert |levels'| == NUM_LEVELS && AllSorted(levels') && FilesSorted(levels'[0]);
    FlushedLevel0(levels, k, f, levels', nextFile);
    hide *;
    FlushedContents(levels, k, f, levels');
    FlushedNumbers(levels, k, f, levels', nextFile);
    DistinctInLevel(levels', nextFile + 1, 0);
    forall i | 0 <= i < NUM_LEVELS
      ensures ValidFiles(levels'[i])
      ensures i > 0 ==> Disjoint(levels'[i])
    {
      FlushedValid(levels, k, f, levels', nextFile, i);
    }
    forall i, j | 0 <= i < j < NUM_LEVELS
      ensures Newer(EntriesOf(levels'[i]), EntriesOf(levels'[j]))
    {
      FlushedNewer(levels, k, f, levels', nextFile, i, j);
    }
    AssembleInvariant(levels', nextFile + 1);
  }

  lemma AssembleInvariant(levels: Levels, nextFile: nat)
    requires |levels| == NUM_LEVELS && AllSorted(levels) && UniqueNumbers(levels, nextFile)
    requires DistinctNumbers(levels[0]) && NewerByNumber(levels[0])
    requires forall i | 0 <= i < NUM_LEVELS :: ValidFiles(levels[i])
    requires forall i | 1 <= i < NUM_LEVELS :: Disjoint(levels[i])
    requires forall i, j | 0 <= i < j < NUM_LEVELS :: Newer(EntriesOf(levels[i]), EntriesOf(levels[j]))
    requires OnePerSequence(From(levels, 0))
    ensures VersionInv(levels, nextFile)
  {
  }

  lemma DistinctInLevel(levels: Levels, nextFile: nat, k: nat)
    requires UniqueNumbers(levels, nextFile) && k < |levels| && FilesSorted(levels[k])
    ensures DistinctNumbers(levels[k])
  {
    DistinctFromUnique(levels[k]);
  }
}
