/** A run in which a compaction brings a deleted key back. Key 1.0 is written at sequence 1, key 2.0 at 2 and deleted
    at 3; the flushed table goes to level 2. While a snapshot at 2 is held, a manual compaction of level 2 keeps all
    three versions and ends an output file between the deletion and the value of 2.0. The snapshot is released, 1.0 is
    written again and flushed to level 2. The next compaction of level 2 overlaps only the file with the deletion. */
module ResurrectionExample {
  import opened Wrappers
  import opened InternalKeys
  import opened MultiVersion
  import opened Tables
  import opened Lookup
  import opened Inputs
  import opened Compactions
  import opened LevelSteps
  import opened DropLoop
  import opened CompactionReads
  import opened Engine
  import opened Database

  const OLD_ONE := Entry(InternalKey(1.0, 1, Value), [2])
  const TWO := Entry(InternalKey(2.0, 2, Value), [3])
  const TWO_DELETED := Entry(InternalKey(2.0, 3, Deletion), [])
  const NEW_ONE := Entry(InternalKey(1.0, 4, Value), [1])

  const FIRST := File(2, 0, OLD_ONE.key, TWO.key, [OLD_ONE, TWO_DELETED, TWO])
  const LEFT := File(3, 0, OLD_ONE.key, TWO_DELETED.key, [OLD_ONE, TWO_DELETED])
  const RIGHT := File(4, 0, TWO.key, TWO.key, [TWO])
  const UPPER := File(5, 0, NEW_ONE.key, NEW_ONE.key, [NEW_ONE])
  const OUTPUT := File(6, 0, NEW_ONE.key, NEW_ONE.key, [NEW_ONE])

  const NO_FILES: Levels := [[], [], [], [], [], [], []]
  const FLUSHED: Levels := [[], [], [FIRST], [], [], [], []]
  const SPLIT: Levels := [[], [], [], [LEFT, RIGHT], [], [], []]
  const LEVELS: Levels := [[], [], [UPPER], [LEFT, RIGHT], [], [], []]
  const LEVELS_AFTER: Levels := [[], [], [], [OUTPUT, RIGHT], [], [], []]

  const FIRST_STREAM := [OLD_ONE, TWO_DELETED, TWO]
  const FIRST_JOB := Job(2, [FIRST], [], OLD_ONE.key, TWO.key, [LEFT, RIGHT])
  const STREAM := [NEW_ONE, OLD_ONE, TWO_DELETED]
  const JOB := Job(2, [UPPER], [LEFT], NEW_ONE.key, NEW_ONE.key, [OUTPUT])

  const THREE_WRITTEN: set<Entry> := {OLD_ONE, TWO, TWO_DELETED}
  const ALL_WRITTEN: set<Entry> := {OLD_ONE, TWO, TWO_DELETED, NEW_ONE}

  const START := State([], None, NO_FILES, 2, {}, 0, {})
  const IN_MEMORY := State(FIRST_STREAM, None, NO_FILES, 2, THREE_WRITTEN, 0, {})
  const RETIRED := State([], Some(FIRST_STREAM), NO_FILES, 2, THREE_WRITTEN, 0, {})
  const ON_DISK := State([], None, FLUSHED, 3, THREE_WRITTEN, 0, {})
  const CUT := State([], None, SPLIT, 5, THREE_WRITTEN, 2, {})
  const WRITTEN_AGAIN := State([NEW_ONE], None, SPLIT, 5, ALL_WRITTEN, 2, {})
  const RETIRED_AGAIN := State([], Some([NEW_ONE]), SPLIT, 5, ALL_WRITTEN, 2, {})
  const READY := State([], None, LEVELS, 6, ALL_WRITTEN, 2, {})
  const BROUGHT_BACK := State([], None, LEVELS_AFTER, 7, ALL_WRITTEN, 4, {2.0})

  // ----- the run up to the compaction -----

  lemma FilesAreValid()
    ensures FIRST.Valid() && UPPER.Valid() && LEFT.Valid() && RIGHT.Valid() && OUTPUT.Valid()
  {
  }

  lemma Insertions()
    ensures InsertEntry([], OLD_ONE) == [OLD_ONE] && InsertEntry([OLD_ONE], TWO) == [OLD_ONE, TWO]
    ensures InsertEntry([OLD_ONE, TWO], TWO_DELETED) == FIRST_STREAM && InsertEntry([], NEW_ONE) == [NEW_ONE]
  {
    assert [OLD_ONE, TWO][1..] == [TWO] && [OLD_ONE][1..] == [];
    assert InsertEntry([TWO], TWO_DELETED) == [TWO_DELETED, TWO];
  }

  lemma Histories()
    ensures {TWO_DELETED} + ({TWO} + ({OLD_ONE} + {})) == THREE_WRITTEN && {NEW_ONE} + THREE_WRITTEN == ALL_WRITTEN
  {
  }

  lemma WrittenToMemory()
    ensures Inv(IN_MEMORY, 3)
  {
    assert forall k | 0 <= k < NUM_LEVELS :: NO_FILES[k] == [];
    hide *;
    EmptyLevels(NO_FILES);
    Insertions();
    Histories();
    WriteKeepsInv(START, 0, OLD_ONE);
    var one := START.(mem := [OLD_ONE], history := {OLD_ONE} + {});
    WriteKeepsInv(one, 1, TWO);
    var two := one.(mem := [OLD_ONE, TWO], history := {TWO} + ({OLD_ONE} + {}));
    WriteKeepsInv(two, 2, TWO_DELETED);
  }

  lemma FirstTable()
    ensures Inv(ON_DISK, 3)
  {
    hide Inv, Flushed, File.Valid, UserOverlap;
    WrittenToMemory();
    FilesAreValid();
    FirstFlush();
    SwitchKeepsInv(IN_MEMORY, 3);
    FlushKeepsInv(RETIRED, 3, 2, FIRST, FLUSHED);
  }

  lemma FirstFlush()
    ensures |NO_FILES| == NUM_LEVELS && Flushed(NO_FILES, 2, FIRST, FLUSHED)
    ensures forall i, g | 0 <= i <= 2 && g in NO_FILES[i] :: !UserOverlap(FIRST, g)
    ensures IN_MEMORY.(mem := [], imm := Some(IN_MEMORY.mem)) == RETIRED
    ensures RETIRED.(imm := None, levels := FLUSHED, nextFile := RETIRED.nextFile + 1) == ON_DISK
  {
    assert forall i | 0 <= i < NUM_LEVELS :: NO_FILES[i] == [];
    assert FLUSHED[2] == [FIRST];
  }

  lemma SingleFile(f: File)
    ensures EntriesOf([f]) == Contents(f.entries) && EntriesOf([]) == {}
  {
    assert f in [f];
  }

  lemma Pieces()
    ensures EntriesOf([FIRST]) == THREE_WRITTEN && EntriesOf([LEFT, RIGHT]) == THREE_WRITTEN
    ensures EntriesOf([LEFT]) == {OLD_ONE, TWO_DELETED} && EntriesOf([UPPER]) == EntriesOf([OUTPUT]) == {NEW_ONE}
  {
    SingleFile(FIRST);
    SingleFile(LEFT);
    SingleFile(RIGHT);
    SingleFile(UPPER);
    SingleFile(OUTPUT);
    assert Contents(FIRST.entries) == THREE_WRITTEN && Contents(LEFT.entries) == {OLD_ONE, TWO_DELETED};
    assert [LEFT, RIGHT] == [LEFT] + [RIGHT];
    EntriesOfConcat([LEFT], [RIGHT]);
  }

  /** With the snapshot at 2, no version is dropped. */
  lemma AllKept()
    ensures Kept(FIRST_STREAM, 3, 2, FLUSHED, 2) == FIRST_STREAM
  {
    assert !Dropped(FIRST_STREAM, 0, 2, FLUSHED, 2) && !Dropped(FIRST_STREAM, 1, 2, FLUSHED, 2) &&
           !Dropped(FIRST_STREAM, 2, 2, FLUSHED, 2);
    assert Kept(FIRST_STREAM, 0, 2, FLUSHED, 2) == [];
    assert Kept(FIRST_STREAM, 1, 2, FLUSHED, 2) == [OLD_ONE];
    assert Kept(FIRST_STREAM, 2, 2, FLUSHED, 2) == [OLD_ONE, TWO_DELETED];
  }

  lemma FirstJobIsGood()
    ensures GoodJob(FLUSHED, FIRST_JOB) && Compacted(FLUSHED, FIRST_JOB, SPLIT)
  {
    assert FIRST in [FIRST] && Select([], Some(1.0), Some(2.0)) == [];
    assert FIRST in FLUSHED[2] && LEFT in SPLIT[3] && RIGHT in SPLIT[3];
  }

  lemma FirstJobFits()
    ensures StreamOf(FIRST_STREAM, FIRST_JOB) && GoodOutputs(FIRST_JOB)
    ensures EntriesOf(FIRST_JOB.outputs) == KeptSet(FIRST_STREAM, 2, FLUSHED, 2)
  {
    Pieces();
    SingleFile(FIRST);
    AllKept();
    FilesAreValid();
    assert Contents(FIRST_STREAM) == THREE_WRITTEN;
    assert THREE_WRITTEN + {} == THREE_WRITTEN;
    hide Kept, File.Valid, EntriesOf;
  }

  lemma CutInTwo()
    ensures Inv(CUT, 3)
  {
    hide Inv, GoodJob, Compacted, StreamOf, GoodOutputs, UniqueNumbers, EntriesOf, KeptSet, KeysBroughtBack, Top;
    FirstTable();
    FirstJobIsGood();
    FirstJobFits();
    SplitNumbers();
    NothingBroughtBack(FLUSHED, FIRST_JOB, Top(ON_DISK), 2);
    CompactionKeepsInv(ON_DISK, 3, FIRST_JOB, SPLIT, 5, FIRST_STREAM, 2);
  }

  lemma SplitNumbers()
    ensures UniqueNumbers(SPLIT, 5)
    ensures ON_DISK.(levels := SPLIT, nextFile := 5, floor := Max(ON_DISK.floor, 2), lost := ON_DISK.lost + {}) == CUT
  {
    NumbersInOneLevel(SPLIT, 3, LEFT, RIGHT, 5);
    assert {} + {} == CUT.lost;
  }

  lemma NumbersInOneLevel(levels: Levels, k: nat, f: File, g: File, nextFile: nat)
    requires |levels| == NUM_LEVELS && k < NUM_LEVELS && levels[k] == [f, g] && f.number != g.number
    requires f.number < nextFile && g.number < nextFile
    requires forall i | 0 <= i < NUM_LEVELS && i != k :: levels[i] == []
    ensures UniqueNumbers(levels, nextFile)
  {
    forall i, h | 0 <= i < |levels| && h in levels[i]
      ensures i == k && (h == f || h == g)
    {
      assert levels[i] == if i == k then [f, g] else [];
    }
  }

  lemma VersionIsReached()
    ensures Inv(READY, 4)
  {
    hide Inv, Flushed, File.Valid, UserOverlap, InsertEntry;
    CutInTwo();
    FilesAreValid();
    SecondFlush();
    WriteKeepsInv(CUT, 3, NEW_ONE);
    SwitchKeepsInv(WRITTEN_AGAIN, 4);
    FlushKeepsInv(RETIRED_AGAIN, 4, 2, UPPER, LEVELS);
  }

  lemma SecondFlush()
    ensures |SPLIT| == NUM_LEVELS && Flushed(SPLIT, 2, UPPER, LEVELS)
    ensures forall i, g | 0 <= i <= 2 && g in SPLIT[i] :: !UserOverlap(UPPER, g)
    ensures CUT.(mem := InsertEntry(CUT.mem, NEW_ONE), history := {NEW_ONE} + CUT.history) == WRITTEN_AGAIN
    ensures WRITTEN_AGAIN.(mem := [], imm := Some(WRITTEN_AGAIN.mem)) == RETIRED_AGAIN
    ensures RETIRED_AGAIN.(imm := None, levels := LEVELS, nextFile := RETIRED_AGAIN.nextFile + 1) == READY
  {
    Insertions();
    Histories();
    assert forall k | 0 <= k < NUM_LEVELS :: SPLIT[k] == if k == 3 then [LEFT, RIGHT] else [];
    assert LEVELS[2] == [UPPER] && LEVELS[3] == SPLIT[3];
  }

  // ----- the compaction -----

  /** Whatever start the caller has, the inputs of a compaction of level 2 are these two files. */
  lemma OnlyTheseInputs(c: Chosen)
    requires GoodChoice(LEVELS[2], LEVELS[3], 2, c)
    ensures c.inputs0 == [UPPER] && c.inputs1 == [LEFT]
  {
    hide ClosedInputs, ParentInputs, IsHull;
    var lo: nat, hi: nat :| IsSlice(LEVELS[2], lo, hi, c.inputs0);
    assert lo == 0 && hi == 1 && c.inputs0 == [UPPER];
    OnlyHull(c);
  }

  lemma OnlyHull(c: Chosen)
    requires ParentInputs([LEFT, RIGHT], [UPPER], c.inputs1)
    ensures c.inputs1 == [LEFT]
  {
    var s, l :| IsHull([UPPER], s, l) && c.inputs1 == Select([LEFT, RIGHT], Some(s.user), Some(l.user));
    assert s.user == 1.0 && l.user == 1.0;
    OverlappedFiles();
  }

  lemma OverlappedFiles()
    ensures Select([LEFT, RIGHT], Some(1.0), Some(1.0)) == [LEFT]
  {
    assert [LEFT, RIGHT][..1] == [LEFT] && [LEFT][..0] == [];
    assert Select([LEFT], Some(1.0), Some(1.0)) == [LEFT];
  }

  lemma JobIsGood()
    ensures GoodJob(LEVELS, JOB) && Compacted(LEVELS, JOB, LEVELS_AFTER)
  {
    OverlappedFiles();
    assert UPPER in JOB.inputs0;
    assert UPPER in LEVELS[2] && LEFT in LEVELS[3] && RIGHT in LEVELS[3] &&
           OUTPUT in LEVELS_AFTER[3] && RIGHT in LEVELS_AFTER[3];
  }

  lemma OneEntryKept()
    ensures Kept(STREAM, 3, 4, LEVELS, 2) == [NEW_ONE]
  {
    assert !Dropped(STREAM, 0, 4, LEVELS, 2) && Dropped(STREAM, 1, 4, LEVELS, 2) && Dropped(STREAM, 2, 4, LEVELS, 2);
    assert Kept(STREAM, 0, 4, LEVELS, 2) == [];
    assert Kept(STREAM, 1, 4, LEVELS, 2) == [NEW_ONE];
    assert Kept(STREAM, 2, 4, LEVELS, 2) == [NEW_ONE];
  }

  lemma JobFits()
    ensures StreamOf(STREAM, JOB) && GoodOutputs(JOB)
    ensures EntriesOf(JOB.outputs) == KeptSet(STREAM, 4, LEVELS, 2)
  {
    Pieces();
    OneEntryKept();
    FilesAreValid();
    SingleFile(OUTPUT);
    assert Contents(STREAM) == {NEW_ONE, OLD_ONE, TWO_DELETED};
    hide Kept, File.Valid, EntriesOf;
  }

  lemma AllEntries()
    ensures Top(READY) == {} && From(LEVELS, 0) == ALL_WRITTEN
  {
    Pieces();
    forall e
      ensures e in From(LEVELS, 0) <==> e in ALL_WRITTEN
    {
      FromContains(LEVELS, 0, e);
      assert e in ALL_WRITTEN ==> e in EntriesOf(LEVELS[2]) || e in EntriesOf(LEVELS[3]);
    }
  }

  lemma KeyTwoIsBroughtBack()
    ensures KeysBroughtBack(LEVELS, JOB, {}, 4) == {2.0}
  {
    AllEntries();
    Pieces();
    hide From, EntriesOf;
    assert {} + From(LEVELS, 0) == ALL_WRITTEN;
    NewestIs(ALL_WRITTEN, 2.0, 4, TWO_DELETED);
    assert RIGHT in LEVELS[3] && LeftBehind(LEVELS, JOB, 2.0, RIGHT);
    assert BringsBack(LEVELS, JOB, {}, 4, 2.0, RIGHT);
    BroughtBackIffMember(LEVELS, JOB, {}, 4, 2.0);
    forall u | u in KeysBroughtBack(LEVELS, JOB, {}, 4)
      ensures u == 2.0
    {
      BroughtBackIffMember(LEVELS, JOB, {}, 4, u);
    }
  }

  /** A run reaches a version whose next compaction, on the only inputs it can have, brings the deleted key back: it
      reads as absent before, as it should, and as present after. */
  lemma DeletedKeyComesBack()
    ensures Inv(READY, 4) && Inv(BROUGHT_BACK, 4)
    ensures forall c | GoodChoice(LEVELS[2], LEVELS[3], 2, c) :: c.inputs0 == JOB.inputs0 && c.inputs1 == JOB.inputs1
    ensures GoodJob(LEVELS, JOB) && Compacted(LEVELS, JOB, LEVELS_AFTER) && StreamOf(STREAM, JOB)
    ensures EntriesOf(JOB.outputs) == KeptSet(STREAM, 4, LEVELS, 2)
    ensures KeysBroughtBack(LEVELS, JOB, Top(READY), 4) == {2.0}
    ensures ReadAt(ALL_WRITTEN, 2.0, 4) == ReadAt(All(READY), 2.0, 4) == None
    ensures ReadAt(All(BROUGHT_BACK), 2.0, 4) == Some(TWO.value)
  {
    hide Inv, GoodJob, GoodChoice, Compacted, StreamOf, GoodOutputs, UniqueNumbers, EntriesOf, KeptSet, KeysBroughtBack,
         Top, ReadAt, All;
    VersionIsReached();
    JobIsGood();
    JobFits();
    AllEntries();
    KeyTwoIsBroughtBack();
    ReadsOfKeyTwo();
    NumbersAfter();
    CompactionKeepsInv(READY, 4, JOB, LEVELS_AFTER, 7, STREAM, 4);
    forall c | GoodChoice(LEVELS[2], LEVELS[3], 2, c)
      ensures c.inputs0 == JOB.inputs0 && c.inputs1 == JOB.inputs1
    {
      OnlyTheseInputs(c);
    }
  }

  lemma NumbersAfter()
    ensures UniqueNumbers(LEVELS_AFTER, 7)
    ensures READY.(levels := LEVELS_AFTER, nextFile := 7, floor := Max(READY.floor, 4), lost := READY.lost + {2.0})
         == BROUGHT_BACK
  {
    NumbersInOneLevel(LEVELS_AFTER, 3, OUTPUT, RIGHT, 7);
    assert {} + {2.0} == BROUGHT_BACK.lost;
  }

  lemma ReadsOfKeyTwo()
    ensures ReadAt(ALL_WRITTEN, 2.0, 4) == ReadAt(All(READY), 2.0, 4) == None
    ensures ReadAt(All(BROUGHT_BACK), 2.0, 4) == Some(TWO.value)
  {
    hide From;
    AllEntries();
    EntriesAfter();
    assert All(READY) == ALL_WRITTEN && All(BROUGHT_BACK) == {NEW_ONE, TWO};
    NewestIs(ALL_WRITTEN, 2.0, 4, TWO_DELETED);
    NewestIs({NEW_ONE, TWO}, 2.0, 4, TWO);
  }

  lemma EntriesAfter()
    ensures From(LEVELS_AFTER, 0) == {NEW_ONE, TWO}
  {
    SingleFile(OUTPUT);
    SingleFile(RIGHT);
    assert [OUTPUT, RIGHT] == [OUTPUT] + [RIGHT];
    EntriesOfConcat([OUTPUT], [RIGHT]);
    forall e
      ensures e in From(LEVELS_AFTER, 0) <==> e in {NEW_ONE, TWO}
    {
      FromContains(LEVELS_AFTER, 0, e);
      assert e in {NEW_ONE, TWO} ==> e in EntriesOf(LEVELS_AFTER[3]);
    }
  }
}
