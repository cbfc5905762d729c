/** The database object (db_impl.cc): the background steps and reads over memtables and levels. The ghost map
    `history` holds every version ever written; the invariant says what readers may tell apart from it. */
module Database {
  import opened Wrappers
  import opened InternalKeys
  import opened MultiVersion
  import opened Tables
  import opened Lookup
  import opened Inputs
  import opened Compactions
  import opened VersionBuilder
  import opened LevelSteps
  import opened DropLoop
  import opened CompactionReads
  import opened UndividedKeys
  import opened Engine
  import Manifests

  /** A snapshot of the object's fields, for stating and proving the invariant. The keys that compactions have brought
      back are in `lost`. */
  datatype State = State(mem: seq<Entry>, imm: Option<seq<Entry>>, levels: Levels, nextFile: nat,
                         history: set<Entry>, floor: nat, lost: set<UserKey>)

  ghost function ImmSet(imm: Option<seq<Entry>>): set<Entry> {
    if imm.Some? then Contents(imm.value) else {}
  }

  ghost function Top(st: State): set<Entry> {
    Contents(st.mem) + ImmSet(st.imm)
  }

  ghost function All(st: State): set<Entry> {
    Top(st) + From(st.levels, 0)
  }

  ghost predicate AgreeExcept(A: set<Entry>, B: set<Entry>, floor: nat, lost: set<UserKey>) {
    forall u: UserKey | u !in lost :: KeyReadsAgree(A, B, floor, u)
  }

  /** Memtables sorted, layers ordered by age; and every read, at or above the floor, of a key that no compaction has
      brought back equals the read of the plain map. */
  ghost predicate Inv(st: State, last: nat) {
    && Sorted(st.mem) && (st.imm.Some? ==> Sorted(st.imm.value))
    && VersionInv(st.levels, st.nextFile)
    && OnePerSequence(All(st)) && OnePerSequence(st.history)
    && Newer(Contents(st.mem), ImmSet(st.imm)) && Newer(Top(st), From(st.levels, 0))
    && SequencesUpTo(All(st), last) && SequencesUpTo(st.history, last)
    && st.floor <= last < MAX_SEQUENCE
    && AgreeExcept(All(st), st.history, st.floor, st.lost)
  }

  lemma NewestAdded(S: set<Entry>, e: Entry, last: nat, u: UserKey, s: nat)
    requires OnePerSequence(S) && SequencesUpTo(S, last) && e.key.sequence == last + 1
    ensures OnePerSequence({e} + S)
    ensures Newest({e} + S, u, s) == if Matches(e, u, s) then Some(e) else Newest(S, u, s)
  {
    LayeredNewest({e}, S, u, s);
    if Matches(e, u, s) {
      NewestIs({e} + S, u, s, e);
    }
  }

  /** Writing one version with the next sequence number. */
  lemma WriteKeepsInv(st: State, last: nat, e: Entry)
    requires Inv(st, last) && e.key.sequence == last + 1 < MAX_SEQUENCE
    ensures var st' := st.(mem := InsertEntry(st.mem, e), history := {e} + st.history);
            Inv(st', last + 1) && All(st') == {e} + All(st)
  {
    hide *;
    var st' := st.(mem := InsertEntry(st.mem, e), history := {e} + st.history);
    InvParts(st, last);
    MemGrows(st, last, e);
    AgreeAdded(All(st), st.history, e, last, st.floor, st.lost);
    NewestAdded(All(st), e, last, e.key.user, 0);
    NewestAdded(st.history, e, last, e.key.user, 0);
    SequencesAdded(All(st), e, last);
    SequencesAdded(st.history, e, last);
    AssembleInv(st', last + 1);
  }

  lemma MemGrows(st: State, last: nat, e: Entry)
    requires Inv(st, last) && e.key.sequence == last + 1
    ensures var st' := st.(mem := InsertEntry(st.mem, e), history := {e} + st.history);
            && Sorted(st'.mem) && All(st') == {e} + All(st)
            && Newer(Contents(st'.mem), ImmSet(st.imm)) && Newer(Top(st'), From(st.levels, 0))
  {
    assert forall x | x in st.mem :: x in All(st);
    hide VersionInv, From, AgreeExcept;
    InsertEntrySorted(st.mem, e);
    var M, I, L := Contents(st.mem), ImmSet(st.imm), From(st.levels, 0);
    assert Contents(InsertEntry(st.mem, e)) == {e} + M;
    assert All(st) == M + I + L;
    NewerAdded(M, I, L, e, last);
  }

  lemma InvParts(st: State, last: nat)
    requires Inv(st, last)
    ensures VersionInv(st.levels, st.nextFile) && (st.imm.Some? ==> Sorted(st.imm.value))
    ensures OnePerSequence(All(st)) && OnePerSequence(st.history)
    ensures SequencesUpTo(All(st), last) && SequencesUpTo(st.history, last)
    ensures st.floor <= last && AgreeExcept(All(st), st.history, st.floor, st.lost)
  {
  }

  lemma SequencesAdded(S: set<Entry>, e: Entry, last: nat)
    requires SequencesUpTo(S, last) && e.key.sequence == last + 1
    ensures SequencesUpTo({e} + S, last + 1)
  {
  }

  lemma AssembleInv(st: State, last: nat)
    requires Sorted(st.mem) && (st.imm.Some? ==> Sorted(st.imm.value))
    requires VersionInv(st.levels, st.nextFile)
    requires OnePerSequence(All(st)) && OnePerSequence(st.history)
    requires Newer(Contents(st.mem), ImmSet(st.imm)) && Newer(Top(st), From(st.levels, 0))
    requires SequencesUpTo(All(st), last) && SequencesUpTo(st.history, last)
    requires st.floor <= last < MAX_SEQUENCE
    requires AgreeExcept(All(st), st.history, st.floor, st.lost)
    ensures Inv(st, last)
  {
  }

  lemma NewerAdded(M: set<Entry>, I: set<Entry>, L: set<Entry>, e: Entry, last: nat)
    requires Newer(M, I) && Newer(M + I, L) && SequencesUpTo(M + I + L, last) && e.key.sequence == last + 1
    ensures Newer({e} + M, I) && Newer({e} + M + I, L)
  {
  }

  lemma AgreeAdded(A: set<Entry>, B: set<Entry>, e: Entry, last: nat, floor: nat, lost: set<UserKey>)
    requires OnePerSequence(A) && OnePerSequence(B) && SequencesUpTo(A, last) && SequencesUpTo(B, last)
    requires e.key.sequence == last + 1
    requires AgreeExcept(A, B, floor, lost)
    ensures AgreeExcept({e} + A, {e} + B, floor, lost)
  {
    hide OnePerSequence, SequencesUpTo, Newest;
    forall u: UserKey, s: nat | u !in lost && s >= floor
      ensures ReadAt({e} + A, u, s) == ReadAt({e} + B, u, s)
    {
      assert KeyReadsAgree(A, B, floor, u);
      NewestAdded(A, e, last, u, s);
      NewestAdded(B, e, last, u, s);
      assert ReadAt(A, u, s) == ReadAt(B, u, s);
    }
  }

  lemma SwitchKeepsInv(st: State, last: nat)
    requires Inv(st, last) && st.imm.None?
    ensures Inv(st.(mem := [], imm := Some(st.mem)), last) && All(st.(mem := [], imm := Some(st.mem))) == All(st)
  {
    var st' := st.(mem := [], imm := Some(st.mem));
    assert Top(st') == Top(st);
  }

  /** Flushing the immutable memtable moves its entries into the levels: nothing a reader sees changes. */
  lemma FlushKeepsInv(st: State, last: nat, level: nat, f: File, levels': Levels)
    requires Inv(st, last) && st.imm.Some? && f.entries == st.imm.value && f.number == st.nextFile
    requires f.Valid() && |st.levels| == NUM_LEVELS && level < NUM_LEVELS
    requires level > 0 ==> forall i, g | 0 <= i <= level && g in st.levels[i] :: !UserOverlap(f, g)
    requires Flushed(st.levels, level, f, levels')
    ensures var st' := st.(imm := None, levels := levels', nextFile := st.nextFile + 1);
            Inv(st', last) && All(st') == All(st)
  {
    ImmFlushIsGood(st, last, level, f);
    assert VersionInv(st.levels, st.nextFile);
    hide VersionInv, GoodFlush, Flushed, From;
    FlushKeepsInvariant(st.levels, level, f, levels', st.nextFile);
    ImmIntoLevels(st, last, levels', Contents(f.entries));
  }

  lemma ImmFlushIsGood(st: State, last: nat, level: nat, f: File)
    requires Inv(st, last) && st.imm.Some? && f.entries == st.imm.value && f.number == st.nextFile
    requires f.Valid() && level < NUM_LEVELS && |st.levels| == NUM_LEVELS
    requires level > 0 ==> forall i, g | 0 <= i <= level && g in st.levels[i] :: !UserOverlap(f, g)
    ensures GoodFlush(st.levels, level, f, st.nextFile)
  {
    hide VersionInv, From, AgreeExcept, File.Valid;
    assert Contents(f.entries) == ImmSet(st.imm);
    SubsetOnePerSequence(Contents(f.entries) + From(st.levels, 0), All(st));
  }

  lemma ImmIntoLevels(st: State, last: nat, levels': Levels, moved: set<Entry>)
    requires Inv(st, last) && moved == ImmSet(st.imm) && VersionInv(levels', st.nextFile + 1)
    requires From(levels', 0) == moved + From(st.levels, 0)
    ensures var st' := st.(imm := None, levels := levels', nextFile := st.nextFile + 1);
            Inv(st', last) && All(st') == All(st)
  {
    hide VersionInv, From, AgreeExcept;
    var st' := st.(imm := None, levels := levels', nextFile := st.nextFile + 1);
    assert All(st') == All(st);
    assert Newer(Top(st'), From(levels', 0));
  }

  /** An immutable memtable without entries leaves no file behind. */
  lemma FlushEmptyKeepsInv(st: State, last: nat)
    requires Inv(st, last) && st.imm == Some([])
    ensures var st' := st.(imm := None, nextFile := st.nextFile + 1);
            Inv(st', last) && All(st') == All(st)
  {
    var st' := st.(imm := None, nextFile := st.nextFile + 1);
    assert All(st') == All(st) && Top(st') == Top(st);
  }

  function Max(a: nat, b: nat): nat {
    if a > b then a else b
  }

  lemma CompactionSetting(st: State, last: nat, j: Job, stream: seq<Entry>, smallestSnapshot: nat)
    requires Inv(st, last) && GoodJob(st.levels, j) && StreamOf(stream, j) && smallestSnapshot <= last
    ensures Setting(st.levels, j, Top(st), stream, smallestSnapshot)
  {
  }

  /** Replacing the levels by ones with no new entries keeps the invariant as far as reads agree. */
  lemma ReplaceLevels(st: State, last: nat, levels': Levels, nextFile': nat, floor': nat, lost': set<UserKey>)
    requires Inv(st, last) && VersionInv(levels', nextFile') && From(levels', 0) <= From(st.levels, 0)
    requires st.floor <= floor' <= last && st.lost <= lost'
    requires AgreeExcept(All(st), Top(st) + From(levels', 0), floor', lost')
    ensures Inv(st.(levels := levels', nextFile := nextFile', floor := floor', lost := lost'), last)
  {
    hide VersionInv, From, ReadAt;
    var st' := st.(levels := levels', nextFile := nextFile', floor := floor', lost := lost');
    assert Top(st') == Top(st) && All(st') == Top(st) + From(levels', 0) && All(st') <= All(st);
    AgreeThrough(All(st), All(st'), st.history, st.floor, floor', st.lost, lost');
  }

  lemma AgreeThrough(A: set<Entry>, A': set<Entry>, B: set<Entry>, floor: nat, floor': nat, lost: set<UserKey>,
                     lost': set<UserKey>)
    requires AgreeExcept(A, B, floor, lost) && AgreeExcept(A, A', floor', lost') && lost <= lost' && floor <= floor'
    ensures AgreeExcept(A', B, floor', lost')
  {
    hide ReadAt;
    forall u: UserKey | u !in lost'
      ensures KeyReadsAgree(A', B, floor', u)
    {
      assert KeyReadsAgree(A, B, floor, u) && KeyReadsAgree(A, A', floor', u);
    }
  }

  /** A compaction. Reads at and above the smallest snapshot stay right for all keys but those it brings back. */
  lemma CompactionKeepsInv(st: State, last: nat, j: Job, levels': Levels, nextFile': nat, stream: seq<Entry>,
                           smallestSnapshot: nat)
    requires Inv(st, last) && GoodJob(st.levels, j) && StreamOf(stream, j) && smallestSnapshot <= last
    requires GoodOutputs(j) && UniqueNumbers(levels', nextFile') && Compacted(st.levels, j, levels')
    requires EntriesOf(j.outputs) == KeptSet(stream, smallestSnapshot, st.levels, j.level)
    ensures Inv(st.(levels := levels', nextFile := nextFile', floor := Max(st.floor, smallestSnapshot),
                    lost := st.lost + KeysBroughtBack(st.levels, j, Top(st), smallestSnapshot)), last)
  {
    InvFacts(st, last);
    var floor' := Max(st.floor, smallestSnapshot);
    assert st.floor <= floor' && smallestSnapshot <= floor' && (floor' == st.floor || floor' == smallestSnapshot);
    assert j.level + 1 < |st.levels|;
    hide *;
    CompactionSetting(st, last, j, stream, smallestSnapshot);
    CompactionKeepsInvariant(st.levels, j, levels', st.nextFile, nextFile');
    CompactedShrinks(st.levels, j, levels');
    var lost' := st.lost + KeysBroughtBack(st.levels, j, Top(st), smallestSnapshot);
    AgreeOffLost(st, j, levels', stream, smallestSnapshot, floor', lost');
    ReplaceLevels(st, last, levels', nextFile', floor', lost');
  }

  lemma AgreeOffLost(st: State, j: Job, levels': Levels, stream: seq<Entry>, smallestSnapshot: nat, floor': nat,
                     lost': set<UserKey>)
    requires Setting(st.levels, j, Top(st), stream, smallestSnapshot) && Compacted(st.levels, j, levels')
    requires EntriesOf(j.outputs) == KeptSet(stream, smallestSnapshot, st.levels, j.level)
    requires j.level + 1 < |st.levels| && smallestSnapshot <= floor'
    requires KeysBroughtBack(st.levels, j, Top(st), smallestSnapshot) <= lost'
    ensures AgreeExcept(All(st), Top(st) + From(levels', 0), floor', lost')
  {
    hide Setting, Compacted, From, Top, KeptSet, EntriesOf, KeysBroughtBack, BringsKeyBack, ReadAt;
    forall u: UserKey | u !in lost'
      ensures KeyReadsAgree(All(st), Top(st) + From(levels', 0), floor', u)
    {
      BroughtBackIffMember(st.levels, j, Top(st), smallestSnapshot, u);
      KeyPreservedExactlyWhen(st.levels, j, levels', Top(st), stream, smallestSnapshot, u);
    }
  }

  lemma InvFacts(st: State, last: nat)
    requires Inv(st, last)
    ensures VersionInv(st.levels, st.nextFile) && st.floor <= last && All(st) == Top(st) + From(st.levels, 0)
  {
  }

  /** A trivial move. Nothing a reader sees changes. */
  lemma MoveKeepsInv(st: State, last: nat, j: Job, levels': Levels)
    requires Inv(st, last) && GoodJob(st.levels, j) && Compacted(st.levels, j, levels')
    requires |j.inputs0| == 1 && j.inputs1 == [] && j.outputs == j.inputs0
    ensures Inv(st.(levels := levels'), last) && All(st.(levels := levels')) == All(st)
  {
    assert VersionInv(st.levels, st.nextFile) && WellFormed(st.levels) &&
           st.floor <= last && UniqueNumbers(st.levels, st.nextFile);
    SameAll(st, levels');
    assert All(st) == Top(st) + From(st.levels, 0);
    assert InputEntries(j) == EntriesOf(j.outputs) + EntriesOf([]) == EntriesOf(j.outputs);
    hide *;
    MovedOutputs(st.levels, j);
    MovedNumbers(st.levels, j, levels', st.nextFile);
    CompactionKeepsInvariant(st.levels, j, levels', st.nextFile, st.nextFile);
    LayersCoverBefore(st.levels, j);
    LayersCoverAfter(st.levels, j, levels');
    assert From(levels', 0) == From(st.levels, 0);
    SameReads(All(st), st.floor, st.lost);
    ReplaceLevels(st, last, levels', st.nextFile, st.floor, st.lost);
  }

  lemma SameAll(st: State, levels': Levels)
    ensures From(levels', 0) == From(st.levels, 0) ==> All(st.(levels := levels')) == All(st)
  {
  }

  lemma SameReads(A: set<Entry>, floor: nat, lost: set<UserKey>)
    ensures AgreeExcept(A, A, floor, lost)
  {
  }

  lemma MovedOutputs(levels: Levels, j: Job)
    requires WellFormed(levels) && GoodJob(levels, j)
    requires |j.inputs0| == 1 && j.inputs1 == [] && j.outputs == j.inputs0
    ensures GoodOutputs(j)
  {
    var f := j.inputs0[0];
    assert j.outputs == [f] && f in j.inputs0;
    ValidMember(levels[j.level], f);
    SingleOutput(j, f);
  }

  lemma SingleOutput(j: Job, f: File)
    requires j.outputs == [f] && f in j.inputs0 && f.Valid()
    ensures GoodOutputs(j)
  {
    hide File.Valid;
    assert forall e | e in f.entries :: e in EntriesOf(j.inputs0);
  }

  // ----- installing edits -----

  /** What is asked of the background thread. */
  datatype Request =
    | Manual(level: nat, begin: Bound, end: Bound)
    | Automatic(level: nat, seekFile: Option<nat>)

  /** Sizes and cut points the engine takes from files and options. */
  datatype Tuning = Tuning(maxFileSize: nat, stopBefore: nat -> bool, full: nat -> bool, size: nat -> nat)

  /** LogAndApply: the edit, applied through a builder, becomes the next version. */
  method LogAndApply(levels: Levels, edit: VersionEdit) returns (next: Levels)
    requires |levels| == NUM_LEVELS && AllSorted(levels) && edit.Valid()
    requires forall k | 0 <= k < NUM_LEVELS :: NumbersApart(levels[k], ApplyAt(LevelState({}, []), edit, k).added)
    ensures AppliedTo(levels, edit, next)
  {
    var builder := new Builder(levels);
    builder.Apply(edit);
    next := builder.SaveTo();
  }

  /** WriteLevel0Table: the file goes to the deepest level it may skip to. */
  method AddTable(levels: Levels, nextFile: nat, f: File, maxGrandParentOverlap: nat) returns (level: nat, next: Levels)
    requires VersionInv(levels, nextFile) && f.number == nextFile
    ensures |levels| == NUM_LEVELS && level < NUM_LEVELS && level <= MAX_MEM_COMPACT_LEVEL
    ensures Flushed(levels, level, f, next)
    ensures AppliedTo(levels, FlushEdit(level, f), next)
    ensures IsMemTableLevel(levels, f.smallest.user, f.largest.user, maxGrandParentOverlap, level)
    ensures level > 0 ==> forall i, g | 0 <= i <= level && g in levels[i] :: !UserOverlap(f, g)
  {
    level := PickLevelForMemTableOutput(levels, f.smallest.user, f.largest.user, maxGrandParentOverlap);
    MemTableLevelClear(levels, level, f, maxGrandParentOverlap);
    FlushEditApart(levels, level, f, nextFile);
    assert AllSorted(levels) && |levels| == NUM_LEVELS;
    hide VersionInv, WellFormed, ApplyAt, AllSorted, IsMemTableLevel;
    next := LogAndApply(levels, FlushEdit(level, f));
    FlushEditFlushes(levels, level, f, next);
    ClearOfPassed(levels, level, f);
  }

  lemma MemTableLevelClear(levels: Levels, level: nat, f: File, limit: nat)
    requires IsMemTableLevel(levels, f.smallest.user, f.largest.user, limit, level)
    ensures |levels| == NUM_LEVELS && level < NUM_LEVELS && level <= MAX_MEM_COMPACT_LEVEL
    ensures level > 0 ==> forall k | 0 <= k <= level :: ClearOf(levels[k], Some(f.smallest.user), Some(f.largest.user))
  {
  }

  /** The choice of inputs, as a job without outputs yet. */
  lemma JobOf(levels: Levels, level: nat, c: Chosen) returns (j: Job)
    requires level + 1 < |levels| == NUM_LEVELS && GoodChoice(levels[level], levels[level + 1], level, c)
    ensures GoodJob(levels, j) && RunsOn(level, c, j) && j.outputs == []
  {
    hide ClosedInputs, IsHull, Select;
    var s, l :| IsHull(c.inputs0, s, l) && c.inputs1 == Select(levels[level + 1], Some(s.user), Some(l.user));
    var s' :| IsHull(c.inputs0, s', c.pointer);
    OneLargest(c.inputs0, s, l, s', c.pointer);
    j := Job(level, c.inputs0, c.inputs1, s, l, []);
  }

  /** The job works on the chosen files, and the chosen pointer is its largest key. */
  predicate RunsOn(level: nat, c: Chosen, j: Job) {
    j.level == level && j.inputs0 == c.inputs0 && j.inputs1 == c.inputs1 && j.high == c.pointer
  }

  lemma StillRunsOn(level: nat, c: Chosen, j: Job, outputs: seq<File>)
    requires RunsOn(level, c, j)
    ensures RunsOn(level, c, j.(outputs := outputs))
  {
  }

  lemma OneLargest(files: seq<File>, s: InternalKey, l: InternalKey, s': InternalKey, l': InternalKey)
    requires IsHull(files, s, l) && IsHull(files, s', l')
    ensures l == l'
  {
    var f :| f in files && f.largest == l;
    var g :| g in files && g.largest == l';
  }

  /** The merged input: every input entry, in order. */
  lemma MergedInput(levels: Levels, nextFile: nat, j: Job, last: nat)
    requires VersionInv(levels, nextFile) && GoodJob(levels, j)
    requires SequencesUpTo(From(levels, 0), last) && last < MAX_SEQUENCE
    ensures StreamOf(MergeFiles(j.inputs0 + j.inputs1), j)
  {
    var files := j.inputs0 + j.inputs1;
    EntriesOfConcat(j.inputs0, j.inputs1);
    LayersCoverBefore(levels, j);
    assert EntriesOf(files) == InputEntries(j) <= From(levels, 0);
    assert OnePerSequence(From(levels, 0));
    hide *;
    InputsDistinct(EntriesOf(files), From(levels, 0), last);
    MergeFilesSorted(files);
    SequencesInStream(MergeFiles(files), EntriesOf(files), last);
    AssembleStream(MergeFiles(files), j);
  }

  lemma InputsDistinct(S: set<Entry>, all: set<Entry>, last: nat)
    requires S <= all && OnePerSequence(all) && SequencesUpTo(all, last)
    ensures OneEntryPerKey(S) && SequencesUpTo(S, last)
  {
  }

  lemma SequencesInStream(stream: seq<Entry>, S: set<Entry>, last: nat)
    requires Contents(stream) == S && SequencesUpTo(S, last) && last < MAX_SEQUENCE
    ensures SequencesFit(stream)
  {
    forall i | 0 <= i < |stream|
      ensures stream[i].key.sequence <= MAX_SEQUENCE
    {
      assert stream[i] in Contents(stream);
    }
  }

  lemma AssembleStream(stream: seq<Entry>, j: Job)
    requires Sorted(stream) && SequencesFit(stream) && Contents(stream) == InputEntries(j)
    ensures StreamOf(stream, j)
  {
  }

  lemma NewNumbersApart(levels: Levels, nextFile: nat, j: Job, runs: seq<seq<Entry>>, sizes: nat -> nat)
    requires UniqueNumbers(levels, nextFile) && |levels| == NUM_LEVELS && j.level + 1 < |levels|
    requires NonEmptyRuns(runs) && j.outputs == NumberRuns(runs, sizes, nextFile)
    ensures DistinctFileNumbers(j.outputs)
    ensures NumberedApart(levels[j.level + 1], j.outputs)
    ensures forall k | 0 <= k < NUM_LEVELS ::
              NumbersApart(levels[k], ApplyAt(LevelState({}, []), CompactionEdit(j), k).added)
  {
    assert DistinctFileNumbers(j.outputs);
    forall k | 0 <= k < NUM_LEVELS
      ensures NumbersApart(levels[k], ApplyAt(LevelState({}, []), CompactionEdit(j), k).added)
    {
      CompactionState(j, k);
    }
  }

  /** The runs the loop produced, as output files of the job. */
  lemma FinishOutputs(j: Job, stream: seq<Entry>, runs: seq<seq<Entry>>, sizes: nat -> nat, number: nat,
                      smallestSnapshot: nat, levels: Levels)
    requires StreamOf(stream, j) && NonEmptyRuns(runs)
    requires Flatten(runs) == Kept(stream, |stream|, smallestSnapshot, levels, j.level)
    requires j.outputs == NumberRuns(runs, sizes, number)
    ensures GoodOutputs(j) && GoodOutputNumbers(j, number, number + |runs|)
    ensures EntriesOf(j.outputs) == KeptSet(stream, smallestSnapshot, levels, j.level)
  {
    KeptSorted(stream, |stream|, smallestSnapshot, levels, j.level);
    KeptIsSubset(stream, smallestSnapshot, levels, j.level);
    KeptFits(stream, smallestSnapshot, levels, j.level);
    OutputsAreGood(runs, sizes, number, Kept(stream, |stream|, smallestSnapshot, levels, j.level), j);
  }

  /** DoCompactionWork and InstallCompactionResults on the current version. */
  method Compact(levels: Levels, nextFile: nat, level: nat, c: Chosen, smallestSnapshot: nat, tuning: Tuning,
                 ghost last: nat)
    returns (next: Levels, nextFile': nat, ghost j: Job, ghost stream: seq<Entry>)
    requires VersionInv(levels, nextFile) && |levels| == NUM_LEVELS && level + 1 < NUM_LEVELS
    requires GoodChoice(levels[level], levels[level + 1], level, c)
    requires SequencesUpTo(From(levels, 0), last) && last < MAX_SEQUENCE
    ensures GoodJob(levels, j) && GoodOutputs(j) && StreamOf(stream, j) && RunsOn(level, c, j)
    ensures UniqueNumbers(next, nextFile') && Compacted(levels, j, next)
    ensures AppliedTo(levels, CompactionEdit(j), next)
    ensures GoodOutputNumbers(j, nextFile, nextFile') && DistinctFileNumbers(j.outputs)
    ensures EntriesOf(j.outputs) == KeptSet(stream, smallestSnapshot, levels, j.level)
  {
    hide *;
    var input := MergeFiles(c.inputs0 + c.inputs1);
    ghost var j0 := JobOf(levels, level, c);
    RunsOnChosen(level, c, j0);
    MergedInput(levels, nextFile, j0, last);
    InputReady(levels, nextFile, input, j0);
    var runs := DoCompactionWork(levels, level, input, smallestSnapshot, tuning.stopBefore, tuning.full);
    var outputs := NumberRuns(runs, tuning.size, nextFile);
    j, stream := j0.(outputs := outputs), input;
    WithOutputs(levels, j0, stream, outputs);
    StillRunsOn(level, c, j0, outputs);
    FinishOutputs(j, stream, runs, tuning.size, nextFile, smallestSnapshot, levels);
    NewNumbersApart(levels, nextFile, j, runs, tuning.size);
    var edit := EditFor(level, c, outputs);
    EditForJob(level, c, outputs, j);
    next := LogAndApply(levels, edit);
    nextFile' := nextFile + |runs|;
    CompactionEditCompacts(levels, j, next, nextFile);
    CompactedNumbers(levels, j, next, nextFile, nextFile');
  }

  lemma InputReady(levels: Levels, nextFile: nat, stream: seq<Entry>, j: Job)
    requires VersionInv(levels, nextFile) && StreamOf(stream, j)
    ensures SortedLevels(levels) && AllSorted(levels) && UniqueNumbers(levels, nextFile) && Sorted(stream)
  {
  }

  /** A trivial move: one file, nothing to merge it with, and not much under it. */
  predicate IsTrivialMove(c: Chosen, maxFileSize: nat) {
    |c.inputs0| == 1 && |c.inputs1| == 0 && TotalFileSize(c.grandparents) <= 10 * maxFileSize
  }

  method MoveFile(levels: Levels, nextFile: nat, level: nat, c: Chosen) returns (next: Levels, ghost j: Job)
    requires VersionInv(levels, nextFile) && |levels| == NUM_LEVELS && level + 1 < NUM_LEVELS
    requires GoodChoice(levels[level], levels[level + 1], level, c)
    requires |c.inputs0| == 1 && |c.inputs1| == 0
    ensures GoodJob(levels, j) && Compacted(levels, j, next) && RunsOn(level, c, j)
    ensures |j.inputs0| == 1 && j.inputs1 == [] && j.outputs == j.inputs0
    ensures AppliedTo(levels, CompactionEdit(j), next)
  {
    ghost var j0 := JobOf(levels, level, c);
    j := j0.(outputs := c.inputs0);
    MovedApart(levels, nextFile, j0, j);
    hide *;
    EditForJob(level, c, c.inputs0, j);
    next := LogAndApply(levels, EditFor(level, c, c.inputs0));
    CompactionEditCompacts(levels, j, next, nextFile);
  }

  lemma MovedApart(levels: Levels, nextFile: nat, j0: Job, j: Job)
    requires VersionInv(levels, nextFile) && GoodJob(levels, j0) && |j0.inputs0| == 1 && j0.inputs1 == []
    requires j == j0.(outputs := j0.inputs0)
    ensures GoodJob(levels, j) && AllSorted(levels) && UniqueNumbers(levels, nextFile)
    ensures DistinctFileNumbers(j.outputs) && NumberedApart(levels[j.level + 1], j.outputs)
    ensures forall k | 0 <= k < NUM_LEVELS ::
              NumbersApart(levels[k], ApplyAt(LevelState({}, []), CompactionEdit(j), k).added)
  {
    assert j.outputs[0] in j.inputs0 && forall f | f in j.outputs :: f in levels[j.level];
    MovedNumberApart(levels, nextFile, j);
  }

  lemma MovedNumberApart(levels: Levels, nextFile: nat, j: Job)
    requires UniqueNumbers(levels, nextFile) && |levels| == NUM_LEVELS && j.level + 1 < NUM_LEVELS
    requires |j.outputs| == 1 && forall f | f in j.outputs :: f in levels[j.level]
    ensures DistinctFileNumbers(j.outputs) && NumberedApart(levels[j.level + 1], j.outputs)
    ensures forall k | 0 <= k < NUM_LEVELS ::
              NumbersApart(levels[k], ApplyAt(LevelState({}, []), CompactionEdit(j), k).added)
  {
    forall k | 0 <= k < NUM_LEVELS
      ensures NumbersApart(levels[k], ApplyAt(LevelState({}, []), CompactionEdit(j), k).added)
    {
      CompactionState(j, k);
    }
  }

  function EditFor(level: nat, c: Chosen, outputs: seq<File>): VersionEdit {
    VersionEdit(InputDeletions(level, c.inputs0) + InputDeletions(level + 1, c.inputs1), AllAt(level + 1, outputs))
  }

  lemma EditForJob(level: nat, c: Chosen, outputs: seq<File>, j: Job)
    requires j.level == level && j.inputs0 == c.inputs0 && j.inputs1 == c.inputs1 && j.outputs == outputs
    ensures EditFor(level, c, outputs) == CompactionEdit(j)
    ensures level + 1 < NUM_LEVELS ==> CompactionEdit(j).Valid()
  {
  }

  lemma WithOutputs(levels: Levels, j: Job, stream: seq<Entry>, outputs: seq<File>)
    requires GoodJob(levels, j) && StreamOf(stream, j)
    ensures GoodJob(levels, j.(outputs := outputs)) && StreamOf(stream, j.(outputs := outputs))
  {
  }

  lemma KeptFits(stream: seq<Entry>, smallestSnapshot: nat, levels: Levels, level: nat)
    requires SequencesFit(stream)
    ensures SequencesFit(Kept(stream, |stream|, smallestSnapshot, levels, level))
  {
    KeptMembers(stream, |stream|, smallestSnapshot, levels, level);
    var kept := Kept(stream, |stream|, smallestSnapshot, levels, level);
    forall i | 0 <= i < |kept|
      ensures kept[i].key.sequence <= MAX_SEQUENCE
    {
      assert kept[i] in kept;
    }
  }

  // ----- the object -----

  datatype Op = Op(kind: ValueType, user: UserKey, value: Bytes)

  function VersionOf(op: Op, sequence: nat): Entry {
    Entry(InternalKey(op.user, sequence, op.kind), op.value)
  }

  /** The versions a batch writes: contiguous sequence numbers after `last`, in order. */
  ghost function BatchVersions(batch: seq<Op>, last: nat): set<Entry> {
    set i | 0 <= i < |batch| :: VersionOf(batch[i], last + 1 + i)
  }

  datatype Command =
    | WriteBatch(batch: seq<Op>)
    | RetireMemTable
    | TakeSnapshot
    | DropSnapshot(i: nat)
    | BackgroundWork(request: Request, tuning: Tuning)

  /** What a caller knows without looking at any file: the live snapshots, the last sequence number, and whether a
      retired memtable waits for the background thread. */
  datatype Clock = Clock(snapshots: seq<nat>, last: nat, retired: bool) {
    /** Snapshots are kept oldest first. */
    function Oldest(): nat {
      if snapshots == [] then last else snapshots[0]
    }
  }

  /** What a command does to the clock. */
  function Ticked(c: Clock, command: Command): Clock {
    match command
    case WriteBatch(batch) => if c.last + |batch| < MAX_SEQUENCE then c.(last := c.last + |batch|) else c
    case RetireMemTable => c.(retired := true)
    case TakeSnapshot => c.(snapshots := c.snapshots + [c.last])
    case DropSnapshot(i) => if i < |c.snapshots| then c.(snapshots := c.snapshots[..i] + c.snapshots[i + 1..]) else c
    case BackgroundWork(request, _) => if request.level + 1 < NUM_LEVELS then c.(retired := false) else c
  }

  /** The command starts no compaction while a live snapshot is older than the last write. */
  predicate QuietCommand(c: Clock, command: Command) {
    command.BackgroundWork? && !c.retired && command.request.level + 1 < NUM_LEVELS ==> c.Oldest() == c.last
  }

  predicate Quiet(c: Clock, script: seq<Command>)
    decreases |script|
  {
    script == [] || (QuietCommand(c, script[0]) && Quiet(Ticked(c, script[0]), script[1..]))
  }

  /** The files that a request asks for: the overlapping ones, cut at the size limit below level 0; or the one that the
      seek statistics name or the compaction pointer leads to. */
  ghost predicate Asks(request: Request, tuning: Tuning, files: seq<File>, pointer: Option<InternalKey>,
                       wanted: seq<File>)
  {
    match request
    case Manual(level, begin, end) =>
      && (exists f :: f in files && Overlaps(f, begin, end))
      && wanted == if level == 0 then Select(files, begin, end)
                   else Cut(Select(files, begin, end), 0, tuning.maxFileSize)
    case Automatic(_, seekFile) =>
      exists k: nat ::
        IsPick(files, pointer, seekFile, k) && k < |files| && wanted == [files[k]]
  }

  ghost predicate IsPick(files: seq<File>, pointer: Option<InternalKey>, seekFile: Option<nat>, k: nat) {
    k < |files| && if seekFile.Some? then k == seekFile.value else FollowsPointer(files, pointer, k)
  }

  /** Nothing to compact: no file overlaps the range, the level is empty, or the seek file is gone. */
  ghost predicate Idle(request: Request, files: seq<File>) {
    match request
    case Manual(_, begin, end) => forall f | f in files :: !Overlaps(f, begin, end)
    case Automatic(_, seekFile) => files == [] || (seekFile.Some? && seekFile.value >= |files|)
  }

  /** What the request leads to: inputs for the wanted files, widened within 25 file sizes. */
  ghost predicate Answers(request: Request, tuning: Tuning, levels: Levels, pointer: Option<InternalKey>, c: Chosen) {
    var level := request.level;
    && |levels| == NUM_LEVELS && level + 1 < NUM_LEVELS && HasGrandparents(levels, level, c)
    && exists wanted :: Asks(request, tuning, levels[level], pointer, wanted)
                     && Chooses(levels[level], levels[level + 1], level, wanted, 25 * tuning.maxFileSize, c)
  }

  /** What becomes of the inputs: a single file with nothing to merge, and no more than 10 file sizes under it, moves
      down as it is unless the compaction was asked for by hand; else the inputs are merged and the drop rules applied
      at the oldest snapshot. */
  ghost predicate OutputsAre(levels: Levels, isManual: bool, maxFileSize: nat, oldest: nat, c: Chosen, j: Job) {
    if !isManual && |c.inputs0| == 1 && c.inputs1 == [] && TotalFileSize(c.grandparents) <= 10 * maxFileSize
    then j.outputs == j.inputs0
    else exists stream :: StreamOf(stream, j) && EntriesOf(j.outputs) == KeptSet(stream, oldest, levels, j.level)
  }

  ghost predicate RunOf(request: Request, tuning: Tuning, levels: Levels, pointer: Option<InternalKey>, oldest: nat,
                        j: Job)
  {
    exists c ::
      && Answers(request, tuning, levels, pointer, c) && RunsOn(request.level, c, j)
      && OutputsAre(levels, request.Manual?, tuning.maxFileSize, oldest, c, j)
  }

  /** A retired memtable with entries becomes one file, at the deepest level it may go to. */
  ghost predicate FlushedTo(levels: Levels, entries: seq<Entry>, number: nat, limit: nat, levels': Levels) {
    if entries == [] then levels' == levels
    else exists level: nat, f: File :: FlushedAs(levels, entries, number, limit, level, f, levels')
  }

  ghost predicate FlushedAs(levels: Levels, entries: seq<Entry>, number: nat, limit: nat, level: nat, f: File,
                            levels': Levels) {
    && entries != [] && f.entries == entries && f.number == number
    && f.smallest == entries[0].key && f.largest == entries[|entries| - 1].key
    && Flushed(levels, level, f, levels') && IsMemTableLevel(levels, f.smallest.user, f.largest.user, limit, level)
  }

  /** The object between two commands. */
  datatype Moment = Moment(state: State, pointers: seq<Option<InternalKey>>, clock: Clock)

  /** What a write does: the next sequence numbers, in order; all of them visible afterwards. */
  ghost predicate Wrote(before: Moment, batch: seq<Op>, after: Moment) {
    var added := if before.clock.last + |batch| < MAX_SEQUENCE then BatchVersions(batch, before.clock.last) else {};
    && after.state.history == added + before.state.history && All(after.state) == added + All(before.state)
    && after.state.imm == before.state.imm && after.state.levels == before.state.levels
  }

  ghost predicate Retired(before: Moment, after: Moment) {
    && after.state.levels == before.state.levels
    && if before.state.imm.Some? then after.state == before.state
       else after.state.mem == [] && after.state.imm == Some(before.state.mem)
  }

  /** What the background thread does: a flush if a memtable is waiting; else the compaction asked for, if any. The lost
      keys grow by exactly those that the compaction brings back. */
  ghost predicate Worked(before: Moment, request: Request, tuning: Tuning, job: Option<Job>, after: Moment) {
    var levels := before.state.levels;
    && |levels| == |before.pointers| == NUM_LEVELS && request.level + 1 < NUM_LEVELS
    && after.state.mem == before.state.mem && after.state.imm == None
    && if before.state.imm.Some? then
         && job == None && after.pointers == before.pointers && All(after.state) == All(before.state)
         && after.state.lost == before.state.lost
         && FlushedTo(levels, before.state.imm.value, before.state.nextFile, 10 * tuning.maxFileSize,
                      after.state.levels)
       else match job
         case None => Idle(request, levels[request.level]) && after == before
         case Some(j) =>
           && GoodJob(levels, j) && Compacted(levels, j, after.state.levels) && j.level == request.level
           && RunOf(request, tuning, levels, before.pointers[j.level], before.clock.Oldest(), j)
           && after.pointers == before.pointers[j.level := Some(j.high)]
           && after.state.lost ==
                before.state.lost + KeysBroughtBack(levels, j, Top(before.state), before.clock.Oldest())
  }

  /** One step of a run. */
  ghost predicate StepIs(before: Moment, command: Command, job: Option<Job>, after: Moment) {
    && after.clock == Ticked(before.clock, command)
    && (command.WriteBatch? || after.state.history == before.state.history)
    && (command.BackgroundWork? || after.pointers == before.pointers)
    && (job.None? ==> after.state.lost == before.state.lost)
    && match command
       case WriteBatch(batch) => job == None && Wrote(before, batch, after)
       case RetireMemTable => job == None && Retired(before, after)
       case TakeSnapshot => job == None && after.state == before.state
       case DropSnapshot(_) => job == None && after.state == before.state
       case BackgroundWork(request, tuning) =>
         if request.level + 1 < NUM_LEVELS then Worked(before, request, tuning, job, after)
         else job == None && after == before
  }

  class Db {
    var mem: seq<Entry>
    var imm: Option<seq<Entry>>
    var levels: Levels
    var compactPointers: seq<Option<InternalKey>>
    var lastSequence: nat
    var nextFile: nat
    var snapshots: seq<nat>
    ghost var history: set<Entry>
    ghost var floor: nat
    ghost var lost: set<UserKey>
    ghost var manifest: Manifests.Journal

    ghost function Abstract(): State
      reads this
    {
      State(mem, imm, levels, nextFile, history, floor, lost)
    }

    ghost function CurrentClock(): Clock
      reads this
    {
      Clock(snapshots, lastSequence, imm.Some?)
    }

    ghost function Now(): Moment
      reads this
    {
      Moment(Abstract(), compactPointers, CurrentClock())
    }

    ghost predicate Valid()
      reads this
    {
      && Inv(Abstract(), lastSequence)
      && |compactPointers| == NUM_LEVELS
      && SnapshotsInOrder(snapshots, floor, lastSequence)
      && Manifests.Journaled(manifest, levels, nextFile)
    }

    /** A new database, with the manifest that opening it has just written. */
    constructor ()
      ensures Valid() && lost == {} && history == {} && lastSequence == 0 && snapshots == [] && imm == None
      ensures Undivided(levels) && manifest.recording.edits != []
      ensures levels == [[], [], [], [], [], [], []]
    {
      hide Inv, Manifests.Journaled;
      mem, imm := [], None;
      levels := seq(NUM_LEVELS, _ => []);
      compactPointers := seq(NUM_LEVELS, _ => None);
      lastSequence, nextFile, snapshots := 0, 2, [];
      history, floor, lost := {}, 0, {};
      new;
      EmptyLevels(levels);
      LevelsOf(State([], None, levels, 2, {}, 0, {}), 0);
      manifest := OpeningManifest(levels);
    }

    /** DBImpl::Write and MemTableInserter for one batch: contiguous sequence numbers, made visible at the end. */
    method Write(batch: seq<Op>)
      requires Valid() && lastSequence + |batch| < MAX_SEQUENCE
      modifies this
      ensures Valid()
      ensures lastSequence == old(lastSequence) + |batch|
      ensures history == BatchVersions(batch, old(lastSequence)) + old(history)
      ensures lost == old(lost) && floor == old(floor) && snapshots == old(snapshots)
      ensures All(Abstract()) == BatchVersions(batch, old(lastSequence)) + old(All(Abstract()))
      ensures imm == old(imm) && levels == old(levels) && compactPointers == old(compactPointers)
      ensures manifest == old(manifest) && nextFile == old(nextFile)
    {
      hide Inv, Manifests.Journaled, All, BatchVersions, InsertEntry;
      ghost var st := Abstract();
      NoVersions(lastSequence);
      var m, sequence, i := mem, lastSequence, 0;
      while i < |batch|
        invariant 0 <= i <= |batch| && sequence == old(lastSequence) + i && unchanged(this)
        invariant Inv(st, sequence) && st.mem == m
        invariant All(st) == BatchVersions(batch[..i], old(lastSequence)) + All(old(Abstract()))
        invariant st ==
                    old(Abstract()).(mem := m, history := BatchVersions(batch[..i], old(lastSequence)) + old(history))
      {
        var e := VersionOf(batch[i], sequence + 1);
        WriteKeepsInv(st, sequence, e);
        BatchGrows(batch, i, old(lastSequence));
        m := InsertEntry(m, e);
        st := st.(mem := m, history := {e} + st.history);
        sequence := sequence + 1;
        i := i + 1;
      }
      assert batch[..i] == batch && batch[..0] == [];
      mem, lastSequence, history := m, sequence, st.history;
      assert Abstract() == st;
    }

    /** The part of MakeRoomForWrite that retires a full memtable. */
    method SwitchMemTable()
      requires Valid() && imm.None?
      modifies this
      ensures Valid() && history == old(history) && lost == old(lost) && lastSequence == old(lastSequence)
      ensures mem == [] && imm == Some(old(mem)) && levels == old(levels) && snapshots == old(snapshots)
      ensures floor == old(floor)
      ensures compactPointers == old(compactPointers) && manifest == old(manifest)
      ensures All(Abstract()) == old(All(Abstract()))
    {
      hide Inv, Manifests.Journaled;
      SwitchKeepsInv(Abstract(), lastSequence);
      mem, imm := [], Some(mem);
    }

    method GetSnapshot() returns (s: nat)
      requires Valid()
      modifies this`snapshots
      ensures Valid() && s == lastSequence && snapshots == old(snapshots) + [s]
    {
      hide Inv, Manifests.Journaled;
      s := lastSequence;
      snapshots := snapshots + [s];
    }

    method ReleaseSnapshot(i: nat)
      requires Valid() && i < |snapshots|
      modifies this`snapshots
      ensures Valid() && snapshots == old(snapshots)[..i] + old(snapshots)[i + 1..]
    {
      hide Inv, Manifests.Journaled;
      snapshots := snapshots[..i] + snapshots[i + 1..];
    }

    /** DBImpl::Get. The answer is always the newest version present; and for a key that no compaction has brought
        back, it is what the plain map of everything ever written says at that snapshot. */
    method Get(u: UserKey, snapshot: Option<nat>) returns (r: Option<Bytes>)
      requires Valid()
      requires snapshot.Some? ==> snapshot.value in snapshots
      ensures var s := if snapshot.Some? then snapshot.value else lastSequence;
              && r == ReadAt(All(Abstract()), u, s)
              && (u !in lost ==> r == ReadAt(history, u, s))
    {
      hide Manifests.Journaled;
      var s := if snapshot.Some? then snapshot.value else lastSequence;
      LookupOrder(Abstract(), lastSequence, u, s);
      assert s >= floor;
      assert u !in lost ==> KeyReadsAgree(All(Abstract()), history, floor, u);
      var found := Probe(mem, u, s);
      if found.None? && imm.Some? {
        found := Probe(imm.value, u, s);
      }
      if found.None? {
        found := GetFromVersion(levels, u, s);
      }
      r := Answer(found);
    }

    lemma Expose()
      requires Valid()
      ensures Abstract() == State(mem, imm, levels, nextFile, history, floor, lost)
      ensures CurrentClock() == Clock(snapshots, lastSequence, imm.Some?) && CurrentClock().Oldest() <= lastSequence
      ensures Now() == Moment(Abstract(), compactPointers, CurrentClock())
      ensures Inv(Abstract(), lastSequence) && Manifests.Journaled(manifest, levels, nextFile)
      ensures |compactPointers| == NUM_LEVELS && SnapshotsInOrder(snapshots, floor, lastSequence)
    {
      hide Inv, Manifests.Journaled;
    }

    /** The new fields are a state that the invariant was shown for. */
    lemma Install(st: State)
      requires Inv(st, lastSequence) && Manifests.Journaled(manifest, levels, nextFile)
      requires st == State(mem, imm, levels, nextFile, history, floor, lost)
      requires |compactPointers| == NUM_LEVELS && SnapshotsInOrder(snapshots, floor, lastSequence)
      ensures Valid() && Abstract() == st
    {
      hide Inv, Manifests.Journaled;
    }

    method OldestSnapshot() returns (s: nat)
      requires Valid()
      ensures s == CurrentClock().Oldest() <= lastSequence && forall x | x in snapshots :: s <= x
      ensures if snapshots == [] then s == lastSequence else s in snapshots
    {
      hide Inv, Manifests.Journaled;
      s := if snapshots == [] then lastSequence else snapshots[0];
    }

    /** CompactMemTable: the immutable memtable becomes a table, at the deepest level it may skip to. */
    method CompactMemTable(maxGrandParentOverlap: nat)
      requires Valid() && imm.Some?
      modifies this
      ensures Valid() && imm == None && All(Abstract()) == old(All(Abstract()))
      ensures history == old(history) && lost == old(lost) && lastSequence == old(lastSequence)
      ensures mem == old(mem) && snapshots == old(snapshots) && floor == old(floor)
      ensures compactPointers == old(compactPointers)
      ensures FlushedTo(old(levels), old(imm).value, old(nextFile), maxGrandParentOverlap, levels)
      ensures old(Undivided(levels)) ==> Undivided(levels)
      ensures Grown(old(manifest), manifest)
    {
      hide *;
      Expose();
      ghost var st := State(mem, imm, levels, nextFile, history, floor, lost);
      LevelsOf(st, lastSequence);
      var entries := imm.value;
      if entries == [] {
        FlushEmptyKeepsInv(st, lastSequence);
        NothingFlushed(levels, nextFile, maxGrandParentOverlap);
        var next := LogNothing(levels, nextFile);
        LevelsOf(st.(imm := None, nextFile := st.nextFile + 1), lastSequence);
        manifest := RecordNoFile(manifest, levels, nextFile, lastSequence);
        imm, levels, nextFile := None, next, nextFile + 1;
        Install(st.(imm := None, nextFile := st.nextFile + 1));
      } else {
        var f := File(nextFile, 0, entries[0].key, entries[|entries| - 1].key, entries);
        ImmIsValidFile(st, lastSequence, f);
        var level, next := AddTable(levels, nextFile, f, maxGrandParentOverlap);
        FlushKeepsInv(st, lastSequence, level, f, next);
        TableFlushed(levels, entries, nextFile, maxGrandParentOverlap, level, f, next);
        if Undivided(levels) {
          FlushKeepsUndivided(levels, level, f, next);
        }
        LevelsOf(st.(imm := None, levels := next, nextFile := st.nextFile + 1), lastSequence);
        manifest := RecordTable(manifest, levels, nextFile, level, f, next, lastSequence);
        imm, levels, nextFile := None, next, nextFile + 1;
        Install(st.(imm := None, levels := next, nextFile := st.nextFile + 1));
      }
    }

    /** Run one chosen compaction: move the file, or merge, drop and install. The keys lost are those that the job
        brings back, given what lies above it and the oldest live snapshot. */
    method RunCompaction(level: nat, c: Chosen, isManual: bool, tuning: Tuning) returns (ghost j: Job)
      requires Valid() && |levels| == NUM_LEVELS && level + 1 < NUM_LEVELS
      requires GoodChoice(levels[level], levels[level + 1], level, c)
      modifies this
      ensures Valid()
      ensures history == old(history) && lastSequence == old(lastSequence) && snapshots == old(snapshots)
      ensures mem == old(mem) && imm == old(imm) && floor >= old(floor) && compactPointers == old(compactPointers)
      ensures GoodJob(old(levels), j) && RunsOn(level, c, j) && Compacted(old(levels), j, levels)
      ensures lost == old(lost) + KeysBroughtBack(old(levels), j, Top(old(Abstract())), CurrentClock().Oldest())
      ensures OutputsAre(old(levels), isManual, tuning.maxFileSize, CurrentClock().Oldest(), c, j)
      ensures !isManual && IsTrivialMove(c, tuning.maxFileSize) ==>
                All(Abstract()) == old(All(Abstract())) && lost == old(lost)
      ensures old(Undivided(levels)) && CurrentClock().Oldest() == lastSequence ==>
                Undivided(levels) && lost == old(lost)
      ensures Grown(old(manifest), manifest)
    {
      ghost var st := Abstract();
      hide *;
      Expose();
      LevelsOf(st, lastSequence);
      if !isManual && IsTrivialMove(c, tuning.maxFileSize) {
        TrivialMoveShape(c, tuning.maxFileSize);
        var next;
        next, j := MoveFile(levels, nextFile, level, c);
        MoveKeepsInv(st, lastSequence, j, next);
        NothingBroughtBack(levels, j, Top(st), CurrentClock().Oldest());
        MovedAsIs(levels, isManual, tuning.maxFileSize, CurrentClock().Oldest(), c, j);
        if Undivided(levels) {
          MoveKeepsUndivided(levels, j, next);
        }
        LevelsOf(st.(levels := next), lastSequence);
        manifest := RecordMoved(manifest, levels, nextFile, j, next, lastSequence);
        levels := next;
        Install(st.(levels := next));
        Expose();
      } else {
        var smallestSnapshot := OldestSnapshot();
        var next, nextFile';
        ghost var stream;
        next, nextFile', j, stream := Compact(levels, nextFile, level, c, smallestSnapshot, tuning, lastSequence);
        CompactionKeepsInv(st, lastSequence, j, next, nextFile', stream, smallestSnapshot);
        Merged(levels, isManual, tuning.maxFileSize, smallestSnapshot, c, j, stream);
        QuietCompaction(levels, nextFile, j, next, stream, Top(st), smallestSnapshot, lastSequence);
        SnapshotsStay(snapshots, floor, smallestSnapshot, lastSequence);
        ghost var lost' := lost + KeysBroughtBack(levels, j, Top(st), smallestSnapshot);
        LevelsOf(st.(levels := next, nextFile := nextFile', floor := Max(st.floor, smallestSnapshot), lost := lost'),
                 lastSequence);
        manifest := RecordMerged(manifest, levels, nextFile, j, next, nextFile', lastSequence);
        levels, nextFile := next, nextFile';
        floor, lost := Max(floor, smallestSnapshot), lost';
        Install(st.(levels := next, nextFile := nextFile', floor := Max(st.floor, smallestSnapshot), lost := lost'));
        Expose();
      }
    }

    /** BackgroundCompaction: the immutable memtable first; otherwise the requested compaction, or the one picked. */
    method BackgroundCompaction(request: Request, tuning: Tuning) returns (ghost job: Option<Job>)
      requires Valid() && request.level + 1 < NUM_LEVELS
      modifies this
      ensures Valid()
      ensures history == old(history) && lastSequence == old(lastSequence) && snapshots == old(snapshots)
      ensures StepIs(old(Now()), BackgroundWork(request, tuning), job, Now())
      ensures CurrentClock() == Ticked(old(CurrentClock()), BackgroundWork(request, tuning))
      ensures old(Undivided(levels)) && QuietCommand(old(CurrentClock()), BackgroundWork(request, tuning))
          ==> Undivided(levels) && lost == old(lost)
      ensures Continues(old(manifest), manifest)
    {
      hide *;
      Expose();
      ghost var before := Now();
      ghost var command := BackgroundWork(request, tuning);
      BackgroundTicks(before.clock, request, tuning);
      job := None;
      var level := request.level;
      LevelsOf(Abstract(), lastSequence);
      LevelShape(levels, nextFile, level);
      if imm.Some? {
        ghost var was := manifest;
        CompactMemTable(10 * tuning.maxFileSize);
        GrownContinues(was, manifest);
        Expose();
        WorkedByFlush(before, request, tuning, Now());
        return;
      }
      var chosen: Option<Chosen> := None;
      match request {
        case Manual(_, begin, end) =>
          chosen := CompactRange(levels, level, begin, end, tuning.maxFileSize, 25 * tuning.maxFileSize);
          if chosen.Some? {
            RangeAnswers(level, begin, end, tuning, levels, compactPointers[level], chosen.value);
          } else {
            IdleRange(level, begin, end, levels[level]);
          }
        case Automatic(_, seekFile) =>
          if levels[level] != [] && (seekFile.Some? ==> seekFile.value < |levels[level]|) {
            var c;
            ghost var pick;
            c, pick := PickCompaction(levels, level, compactPointers[level], seekFile, 25 * tuning.maxFileSize);
            PickAnswers(level, seekFile, tuning, levels, compactPointers[level], pick, c);
            chosen := Some(c);
          } else {
            IdlePick(level, seekFile, levels[level]);
          }
      }
      if chosen.Some? {
        ghost var was := manifest;
        compactPointers := compactPointers[level := Some(chosen.value.pointer)];
        Install(before.state);
        ghost var j := RunCompaction(level, chosen.value, request.Manual?, tuning);
        Expose();
        RunsOnChosen(level, chosen.value, j);
        GrownContinues(was, manifest);
        RunMade(request, tuning, before.state.levels, before.pointers[level], before.clock.Oldest(), chosen.value, j);
        WorkedByJob(before, request, tuning, j, Now());
        job := Some(j);
      } else {
        SameContinues(manifest);
        NothingWorked(before, request, tuning);
      }
    }

    /** Any run of commands; one that is not possible in the state it meets is skipped. The moments and jobs of the run
        account for every lost key; and a run that compacts only while no live snapshot is older than the last write
        loses none. */
    method Execute(script: seq<Command>) returns (ghost moments: seq<Moment>, ghost jobs: seq<Option<Job>>)
      requires Valid()
      modifies this
      ensures Valid() && old(history) <= history && old(lastSequence) <= lastSequence
      ensures VersionInv(levels, nextFile) && AgreeExcept(All(Abstract()), history, floor, lost)
      ensures |moments| == |script| + 1 && |jobs| == |script|
      ensures moments[0] == old(Now()) && moments[|script|] == Now()
      ensures forall n | 0 <= n < |script| :: StepIs(moments[n], script[n], jobs[n], moments[n + 1])
      ensures old(Undivided(levels)) && Quiet(old(CurrentClock()), script) ==> Undivided(levels) && lost == old(lost)
      ensures Manifests.Journaled(manifest, levels, nextFile)
      ensures Continues(old(manifest), manifest)
    {
      hide *;
      moments, jobs := [Now()], [];
      SameContinues(manifest);
      ghost var quiet := Undivided(levels) && Quiet(CurrentClock(), script);
      for n := 0 to |script|
        invariant Valid() && old(history) <= history && old(lastSequence) <= lastSequence
        invariant |moments| == n + 1 && |jobs| == n && moments[0] == old(Now()) && moments[n] == Now()
        invariant forall i | 0 <= i < n :: StepIs(moments[i], script[i], jobs[i], moments[i + 1])
        invariant quiet ==> Undivided(levels) && lost == old(lost) && Quiet(CurrentClock(), script[n..])
        invariant Continues(old(manifest), manifest)
      {
        QuietNext(CurrentClock(), script, n);
        ghost var was := manifest;
        ghost var job := Perform(script[n]);
        ContinuesTwice(old(manifest), was, manifest);
        moments, jobs := moments + [Now()], jobs + [job];
      }
      Expose();
      InvParts(Abstract(), lastSequence);
      AbstractLevels();
    }

    lemma AbstractLevels()
      ensures Abstract().levels == levels && Abstract().nextFile == nextFile
      ensures Abstract().history == history && Abstract().floor == floor && Abstract().lost == lost
    {
    }

    method Perform(command: Command) returns (ghost job: Option<Job>)
      requires Valid()
      modifies this
      ensures Valid() && old(history) <= history && old(lastSequence) <= lastSequence
      ensures StepIs(old(Now()), command, job, Now()) && CurrentClock() == Ticked(old(CurrentClock()), command)
      ensures old(Undivided(levels)) && QuietCommand(old(CurrentClock()), command) ==>
                Undivided(levels) && lost == old(lost)
      ensures Continues(old(manifest), manifest)
    {
      hide Inv, Manifests.Journaled, Undivided, All, Worked, BatchVersions, Continues;
      SameContinues(manifest);
      Expose();
      ghost var before := Now();
      job := None;
      match command {
        case WriteBatch(batch) =>
          if lastSequence + |batch| < MAX_SEQUENCE {
            Write(batch);
          }
        case RetireMemTable =>
          if imm.None? {
            SwitchMemTable();
          }
        case TakeSnapshot =>
          var s := GetSnapshot();
        case DropSnapshot(i) =>
          if i < |snapshots| {
            ReleaseSnapshot(i);
          }
        case BackgroundWork(request, tuning) =>
          if request.level + 1 < NUM_LEVELS {
            job := BackgroundCompaction(request, tuning);
          }
      }
      assert [] + snapshots == snapshots;
    }
  }

  /** An edit without files, logged and applied, changes nothing. */
  method LogNothing(levels: Levels, nextFile: nat) returns (next: Levels)
    requires VersionInv(levels, nextFile)
    ensures next == levels
  {
    assert |levels| == NUM_LEVELS && AllSorted(levels);
    hide VersionInv, AllSorted;
    EmptyEdit();
    next := LogAndApply(levels, VersionEdit({}, []));
    NothingApplied(levels, next);
  }

  lemma EmptyEdit()
    ensures forall k: nat :: ApplyAt(LevelState({}, []), VersionEdit({}, []), k) == LevelState({}, [])
  {
    forall k: nat
      ensures ApplyAt(LevelState({}, []), VersionEdit({}, []), k) == LevelState({}, [])
    {
      var none: set<nat> := {};
      assert DeletedAt({}, k) == none && none + none == none;
    }
  }

  lemma NothingApplied(levels: Levels, next: Levels)
    requires AllSorted(levels) && AppliedTo(levels, VersionEdit({}, []), next)
    ensures next == levels
  {
    EmptyEdit();
    forall k | 0 <= k < NUM_LEVELS
      ensures next[k] == levels[k]
    {
      SavedUnchanged(levels[k], next[k]);
    }
  }

  // ----- the manifest of the object -----

  ghost predicate Grown(m: Manifests.Journal, m': Manifests.Journal) {
    && m.recording.edits < m'.recording.edits && m.recording.versions < m'.recording.versions
    && m.counters < m'.counters
  }

  ghost predicate Continues(m: Manifests.Journal, m': Manifests.Journal) {
    && m.recording.edits <= m'.recording.edits && m.recording.versions <= m'.recording.versions
    && m.counters <= m'.counters
  }

  lemma SameContinues(m: Manifests.Journal)
    ensures Continues(m, m)
  {
  }

  lemma GrownContinues(m: Manifests.Journal, m': Manifests.Journal)
    requires Grown(m, m')
    ensures Continues(m, m')
  {
  }

  lemma ContinuesTwice(m: Manifests.Journal, m': Manifests.Journal, m'': Manifests.Journal)
    requires Continues(m, m') && Continues(m', m'')
    ensures Continues(m, m'')
  {
  }

  /** One more edit, logged with the counters as they are. */
  lemma OneMore(m: Manifests.Journal, levels: Levels, nextFile: nat, edit: VersionEdit, next: Levels,
                c: Manifests.Counters, tables: map<nat, seq<Entry>>)
    returns (m': Manifests.Journal)
    requires Manifests.Journaled(m, levels, nextFile) && Manifests.Bounded(next, c)
    requires Manifests.Recorded(Manifests.Extended(m.recording, edit, next, tables), next, c.nextFile)
    ensures Manifests.Journaled(m', next, c.nextFile) && Grown(m, m')
    ensures m'.recording.edits == m.recording.edits + [edit]
  {
    hide Manifests.Recorded, Manifests.Bounded;
    m' := Manifests.Journal(Manifests.Extended(m.recording, edit, next, tables), m.counters + [c]);
  }

  lemma JournalParts(m: Manifests.Journal, levels: Levels, nextFile: nat)
    requires Manifests.Journaled(m, levels, nextFile)
    ensures Manifests.Recorded(m.recording, levels, nextFile)
  {
  }

  lemma InBounds(levels: Levels, nextFile: nat, last: nat)
    requires VersionInv(levels, nextFile) && SequencesUpTo(From(levels, 0), last)
    ensures Manifests.Bounded(levels, Manifests.Counters(nextFile, last))
  {
  }

  lemma OpeningManifest(levels: Levels) returns (m: Manifests.Journal)
    requires |levels| == NUM_LEVELS && forall k | 0 <= k < NUM_LEVELS :: levels[k] == []
    requires VersionInv(levels, 2) && SequencesUpTo(From(levels, 0), 0)
    ensures Manifests.Journaled(m, levels, 2) && m.recording.edits == [VersionEdit({}, [])]
  {
    AppliesNothing(levels);
    assert AllSorted(levels) && UniqueNumbers(levels, 2);
    assert Manifests.NumberedBelow(map[], 2);
    hide *;
    var snapshot := Manifests.Recording(levels, [], [levels], map[]);
    var c := Manifests.Counters(2, 0);
    Manifests.StartRecording(levels, 2, map[]);
    Manifests.RecordNothing(snapshot, levels, 2, 2);
    InBounds(levels, 2, 0);
    FirstJournal(snapshot, levels, c);
    m := OneMore(Manifests.Journal(snapshot, [c]), levels, 2, VersionEdit({}, []), levels, c, map[]);
    assert [] + [VersionEdit({}, [])] == [VersionEdit({}, [])];
  }

  lemma FirstJournal(r: Manifests.Recording, levels: Levels, c: Manifests.Counters)
    requires Manifests.Recorded(r, levels, c.nextFile) && r.versions == [levels] && Manifests.Bounded(levels, c)
    ensures Manifests.Journaled(Manifests.Journal(r, [c]), levels, c.nextFile)
  {
    hide Manifests.Recorded, Manifests.Bounded;
  }

  lemma RecordNoFile(m: Manifests.Journal, levels: Levels, nextFile: nat, last: nat) returns (m': Manifests.Journal)
    requires Manifests.Journaled(m, levels, nextFile) && VersionInv(levels, nextFile)
    requires VersionInv(levels, nextFile + 1) && SequencesUpTo(From(levels, 0), last)
    ensures Manifests.Journaled(m', levels, nextFile + 1) && Grown(m, m')
  {
    assert |levels| == NUM_LEVELS && AllSorted(levels);
    hide *;
    JournalParts(m, levels, nextFile);
    AppliesNothing(levels);
    Manifests.RecordNothing(m.recording, levels, nextFile, nextFile + 1);
    InBounds(levels, nextFile + 1, last);
    m' := OneMore(m, levels, nextFile, VersionEdit({}, []), levels, Manifests.Counters(nextFile + 1, last),
                  m.recording.tables);
  }

  lemma RecordTable(m: Manifests.Journal, levels: Levels, nextFile: nat, level: nat, f: File, next: Levels, last: nat)
    returns (m': Manifests.Journal)
    requires Manifests.Journaled(m, levels, nextFile) && VersionInv(levels, nextFile) && level < NUM_LEVELS
    requires AppliedTo(levels, FlushEdit(level, f), next) && Flushed(levels, level, f, next) && f.number == nextFile
    requires VersionInv(next, nextFile + 1) && SequencesUpTo(From(next, 0), last)
    ensures Manifests.Journaled(m', next, nextFile + 1) && Grown(m, m')
  {
    assert UniqueNumbers(levels, nextFile);
    hide *;
    JournalParts(m, levels, nextFile);
    Manifests.RecordFlush(m.recording, levels, nextFile, level, f, next);
    InBounds(next, nextFile + 1, last);
    m' := OneMore(m, levels, nextFile, FlushEdit(level, f), next, Manifests.Counters(nextFile + 1, last),
                  m.recording.tables[f.number := f.entries]);
  }

  lemma RecordMoved(m: Manifests.Journal, levels: Levels, nextFile: nat, j: Job, next: Levels, last: nat)
    returns (m': Manifests.Journal)
    requires Manifests.Journaled(m, levels, nextFile) && VersionInv(levels, nextFile) && GoodJob(levels, j)
    requires AppliedTo(levels, CompactionEdit(j), next) && Compacted(levels, j, next)
    requires |j.inputs0| == 1 && j.outputs == j.inputs0
    requires VersionInv(next, nextFile) && SequencesUpTo(From(next, 0), last)
    ensures Manifests.Journaled(m', next, nextFile) && Grown(m, m')
  {
    assert UniqueNumbers(levels, nextFile);
    hide *;
    JournalParts(m, levels, nextFile);
    Manifests.RecordMove(m.recording, levels, nextFile, j, next);
    InBounds(next, nextFile, last);
    m' := OneMore(m, levels, nextFile, CompactionEdit(j), next, Manifests.Counters(nextFile, last), m.recording.tables);
  }

  lemma RecordMerged(m: Manifests.Journal, levels: Levels, nextFile: nat, j: Job, next: Levels, nextFile': nat,
                     last: nat)
    returns (m': Manifests.Journal)
    requires Manifests.Journaled(m, levels, nextFile) && VersionInv(levels, nextFile) && GoodJob(levels, j)
    requires AppliedTo(levels, CompactionEdit(j), next) && Compacted(levels, j, next)
    requires GoodOutputNumbers(j, nextFile, nextFile') && DistinctFileNumbers(j.outputs)
    requires VersionInv(next, nextFile') && SequencesUpTo(From(next, 0), last)
    ensures Manifests.Journaled(m', next, nextFile') && Grown(m, m')
  {
    assert UniqueNumbers(levels, nextFile);
    hide *;
    JournalParts(m, levels, nextFile);
    Manifests.RecordCompaction(m.recording, levels, nextFile, j, next, nextFile');
    InBounds(next, nextFile', last);
    m' := OneMore(m, levels, nextFile, CompactionEdit(j), next, Manifests.Counters(nextFile', last),
                  Manifests.WithTables(m.recording.tables, j.outputs));
  }

  // ----- one background step -----

  lemma NothingBroughtBack(levels: Levels, j: Job, top: set<Entry>, smallestSnapshot: nat)
    requires GoodJob(levels, j) && j.inputs1 == []
    ensures j.level + 1 < |levels| && KeysBroughtBack(levels, j, top, smallestSnapshot) == {}
  {
    assert EntriesOf(j.inputs1) == {};
    hide BringsKeyBack, GoodJob;
  }

  /** A compaction with no live snapshot older than the last write. */
  lemma QuietCompaction(levels: Levels, nextFile: nat, j: Job, next: Levels, stream: seq<Entry>, top: set<Entry>,
                        smallestSnapshot: nat, last: nat)
    requires VersionInv(levels, nextFile) && GoodJob(levels, j) && GoodOutputs(j) && Compacted(levels, j, next)
    requires StreamOf(stream, j) && SequencesUpTo(From(levels, 0), last)
    requires EntriesOf(j.outputs) == KeptSet(stream, smallestSnapshot, levels, j.level)
    ensures j.level + 1 < |levels|
    ensures Undivided(levels) ==> KeysBroughtBack(levels, j, top, smallestSnapshot) == {}
    ensures Undivided(levels) && smallestSnapshot == last ==> Undivided(next)
  {
    assert WellFormed(levels) && j.level + 1 < |levels|;
    assert smallestSnapshot == last ==> forall e | e in From(levels, 0) :: e.key.sequence <= smallestSnapshot;
    hide *;
    if Undivided(levels) {
      UndividedLosesNothing(levels, j, top, smallestSnapshot);
      if smallestSnapshot == last {
        CompactionKeepsUndivided(levels, j, next, stream, smallestSnapshot);
      }
    }
  }

  lemma RunsOnChosen(level: nat, c: Chosen, j: Job)
    requires RunsOn(level, c, j)
    ensures j.level == level && j.inputs0 == c.inputs0 && j.inputs1 == c.inputs1 && j.high == c.pointer
  {
  }

  lemma NothingFlushed(levels: Levels, number: nat, limit: nat)
    ensures FlushedTo(levels, [], number, limit, levels)
  {
  }

  lemma TableFlushed(levels: Levels, entries: seq<Entry>, number: nat, limit: nat, level: nat, f: File, levels': Levels)
    requires entries != [] && f == File(number, 0, entries[0].key, entries[|entries| - 1].key, entries)
    requires Flushed(levels, level, f, levels')
    requires IsMemTableLevel(levels, f.smallest.user, f.largest.user, limit, level)
    ensures FlushedTo(levels, entries, number, limit, levels')
  {
    hide Flushed, IsMemTableLevel;
    assert FlushedAs(levels, entries, number, limit, level, f, levels');
  }

  lemma MovedAsIs(levels: Levels, isManual: bool, maxFileSize: nat, oldest: nat, c: Chosen, j: Job)
    requires !isManual && IsTrivialMove(c, maxFileSize) && j.outputs == j.inputs0
    ensures OutputsAre(levels, isManual, maxFileSize, oldest, c, j)
  {
    hide TotalFileSize;
  }

  lemma Merged(levels: Levels, isManual: bool, maxFileSize: nat, oldest: nat, c: Chosen, j: Job, stream: seq<Entry>)
    requires isManual || !IsTrivialMove(c, maxFileSize)
    requires StreamOf(stream, j) && EntriesOf(j.outputs) == KeptSet(stream, oldest, levels, j.level)
    ensures OutputsAre(levels, isManual, maxFileSize, oldest, c, j)
  {
    hide TotalFileSize, StreamOf, EntriesOf, KeptSet;
  }

  lemma RangeAnswers(level: nat, begin: Bound, end: Bound, tuning: Tuning, levels: Levels, pointer: Option<InternalKey>,
                     c: Chosen)
    requires |levels| == NUM_LEVELS && level + 1 < NUM_LEVELS && HasGrandparents(levels, level, c)
    requires !forall f | f in levels[level] :: !Overlaps(f, begin, end)
    requires var found := Select(levels[level], begin, end);
             Chooses(levels[level], levels[level + 1], level,
                     if level == 0 then found else Cut(found, 0, tuning.maxFileSize), 25 * tuning.maxFileSize, c)
    ensures Answers(Manual(level, begin, end), tuning, levels, pointer, c)
  {
    hide Chooses, HasGrandparents, Select, Cut, Overlaps;
    var found := Select(levels[level], begin, end);
    var wanted := if level == 0 then found else Cut(found, 0, tuning.maxFileSize);
    assert Asks(Manual(level, begin, end), tuning, levels[level], pointer, wanted);
  }

  lemma PickAnswers(level: nat, seekFile: Option<nat>, tuning: Tuning, levels: Levels, pointer: Option<InternalKey>,
                    pick: nat, c: Chosen)
    requires |levels| == NUM_LEVELS && level + 1 < NUM_LEVELS && HasGrandparents(levels, level, c)
    requires pick < |levels[level]|
    requires if seekFile.Some? then pick == seekFile.value else FollowsPointer(levels[level], pointer, pick)
    requires Chooses(levels[level], levels[level + 1], level, [levels[level][pick]], 25 * tuning.maxFileSize, c)
    ensures Answers(Automatic(level, seekFile), tuning, levels, pointer, c)
  {
    hide Chooses, HasGrandparents, FollowsPointer;
    assert IsPick(levels[level], pointer, seekFile, pick);
    assert Asks(Automatic(level, seekFile), tuning, levels[level], pointer, [levels[level][pick]]);
  }

  lemma IdleRange(level: nat, begin: Bound, end: Bound, files: seq<File>)
    requires forall f | f in files :: !Overlaps(f, begin, end)
    ensures Idle(Manual(level, begin, end), files)
  {
  }

  lemma IdlePick(level: nat, seekFile: Option<nat>, files: seq<File>)
    requires files == [] || (seekFile.Some? && seekFile.value >= |files|)
    ensures Idle(Automatic(level, seekFile), files)
  {
  }

  lemma RunMade(request: Request, tuning: Tuning, levels: Levels, pointer: Option<InternalKey>, oldest: nat, c: Chosen,
                j: Job)
    requires Answers(request, tuning, levels, pointer, c) && RunsOn(request.level, c, j)
    requires OutputsAre(levels, request.Manual?, tuning.maxFileSize, oldest, c, j)
    ensures RunOf(request, tuning, levels, pointer, oldest, j)
  {
    hide Answers, OutputsAre;
  }

  lemma BackgroundTicks(c: Clock, request: Request, tuning: Tuning)
    requires request.level + 1 < NUM_LEVELS
    ensures Ticked(c, BackgroundWork(request, tuning)) == c.(retired := false)
    ensures QuietCommand(c, BackgroundWork(request, tuning)) && !c.retired ==> c.Oldest() == c.last
  {
  }

  lemma WorkedByFlush(before: Moment, request: Request, tuning: Tuning, after: Moment)
    requires |before.state.levels| == |before.pointers| == NUM_LEVELS && request.level + 1 < NUM_LEVELS
    requires after.clock == Ticked(before.clock, BackgroundWork(request, tuning)) && before.state.imm.Some?
    requires after.state.mem == before.state.mem && after.state.imm == None && after.pointers == before.pointers
    requires All(after.state) == All(before.state) && after.state.lost == before.state.lost
    requires after.state.history == before.state.history
    requires FlushedTo(before.state.levels, before.state.imm.value, before.state.nextFile, 10 * tuning.maxFileSize,
                       after.state.levels)
    ensures StepIs(before, BackgroundWork(request, tuning), None, after)
  {
    hide All, FlushedTo;
  }

  lemma NothingWorked(before: Moment, request: Request, tuning: Tuning)
    requires |before.state.levels| == |before.pointers| == NUM_LEVELS && request.level + 1 < NUM_LEVELS
    requires before.state.imm.None? && Idle(request, before.state.levels[request.level])
    requires before.clock == Ticked(before.clock, BackgroundWork(request, tuning))
    ensures StepIs(before, BackgroundWork(request, tuning), None, before)
  {
    hide Idle;
  }

  lemma WorkedByJob(before: Moment, request: Request, tuning: Tuning, j: Job, after: Moment)
    requires |before.state.levels| == |before.pointers| == NUM_LEVELS && request.level + 1 < NUM_LEVELS
    requires after.clock == Ticked(before.clock, BackgroundWork(request, tuning)) && before.state.imm.None?
    requires after.state.mem == before.state.mem && after.state.imm == None
    requires after.state.history == before.state.history && j.level == request.level
    requires GoodJob(before.state.levels, j) && Compacted(before.state.levels, j, after.state.levels)
    requires RunOf(request, tuning, before.state.levels, before.pointers[j.level], before.clock.Oldest(), j)
    requires after.pointers == before.pointers[j.level := Some(j.high)] && j.level + 1 < |before.state.levels|
    requires after.state.lost ==
               before.state.lost + KeysBroughtBack(before.state.levels, j, Top(before.state), before.clock.Oldest())
    ensures StepIs(before, BackgroundWork(request, tuning), Some(j), after)
  {
    hide GoodJob, Compacted, RunOf, KeysBroughtBack, Top;
  }

  lemma QuietNext(c: Clock, script: seq<Command>, n: nat)
    requires n < |script|
    ensures Quiet(c, script[n..]) ==> QuietCommand(c, script[n]) && Quiet(Ticked(c, script[n]), script[n + 1..])
  {
    assert script[n..][1..] == script[n + 1..];
  }

  lemma AppliesNothing(levels: Levels)
    requires |levels| == NUM_LEVELS && AllSorted(levels)
    ensures AppliedTo(levels, VersionEdit({}, []), levels)
  {
    EmptyEdit();
  }

  lemma ImmIsValidFile(st: State, last: nat, f: File)
    requires Inv(st, last) && st.imm.Some? && st.imm.value == f.entries && f.entries != []
    requires f.smallest == f.entries[0].key && f.largest == f.entries[|f.entries| - 1].key
    ensures f.Valid() && VersionInv(st.levels, st.nextFile)
  {
    assert f.entries[|f.entries| - 1] in Contents(f.entries);
    assert f.entries[|f.entries| - 1] in All(st);
  }

  lemma FlushEditApart(levels: Levels, level: nat, f: File, nextFile: nat)
    requires VersionInv(levels, nextFile) && level < NUM_LEVELS && f.number == nextFile
    ensures forall k | 0 <= k < NUM_LEVELS ::
              NumbersApart(levels[k], ApplyAt(LevelState({}, []), FlushEdit(level, f), k).added)
  {
    assert |levels| == NUM_LEVELS && UniqueNumbers(levels, nextFile);
    hide VersionInv;
    forall k | 0 <= k < NUM_LEVELS
      ensures NumbersApart(levels[k], ApplyAt(LevelState({}, []), FlushEdit(level, f), k).added)
    {
      FlushState(level, f, k);
    }
  }

  lemma ClearOfPassed(levels: Levels, level: nat, f: File)
    requires level < |levels|
    requires level > 0 ==> forall k | 0 <= k <= level :: ClearOf(levels[k], Some(f.smallest.user), Some(f.largest.user))
    ensures level > 0 ==> forall i, g | 0 <= i <= level && g in levels[i] :: !UserOverlap(f, g)
  {
    if level > 0 {
      forall i, g | 0 <= i <= level && g in levels[i]
        ensures !UserOverlap(f, g)
      {
        assert !Overlaps(g, Some(f.smallest.user), Some(f.largest.user));
      }
    }
  }

  ghost predicate SnapshotsInOrder(snapshots: seq<nat>, floor: nat, last: nat) {
    && floor <= last
    && (forall i | 0 <= i < |snapshots| :: floor <= snapshots[i] <= last)
    && (forall i, k | 0 <= i < k < |snapshots| :: snapshots[i] <= snapshots[k])
  }

  lemma TrivialMoveShape(c: Chosen, maxFileSize: nat)
    requires IsTrivialMove(c, maxFileSize)
    ensures |c.inputs0| == 1 && |c.inputs1| == 0
  {
  }

  lemma LevelShape(levels: Levels, nextFile: nat, level: nat)
    requires VersionInv(levels, nextFile) && level + 1 < NUM_LEVELS
    ensures WellFormed(levels) && |levels| == NUM_LEVELS
  {
  }

  lemma LevelsOf(st: State, last: nat)
    requires Inv(st, last)
    ensures VersionInv(st.levels, st.nextFile) && SequencesUpTo(From(st.levels, 0), last) && last < MAX_SEQUENCE
  {
  }

  lemma SnapshotsStay(snapshots: seq<nat>, floor: nat, smallest: nat, last: nat)
    requires SnapshotsInOrder(snapshots, floor, last) && smallest <= last && forall x | x in snapshots :: smallest <= x
    ensures SnapshotsInOrder(snapshots, Max(floor, smallest), last) && Max(floor, smallest) >= floor
  {
    assert forall i | 0 <= i < |snapshots| :: snapshots[i] in snapshots;
  }

  lemma EmptyLevels(levels: Levels)
    requires |levels| == NUM_LEVELS && forall k | 0 <= k < NUM_LEVELS :: levels[k] == []
    ensures Inv(State([], None, levels, 2, {}, 0, {}), 0)
  {
    forall e
      ensures e !in From(levels, 0)
    {
      FromContains(levels, 0, e);
    }
    assert From(levels, 0) == {};
    assert forall k | 0 <= k < NUM_LEVELS :: EntriesOf(levels[k]) == {};
    AssembleInvariant(levels, 2);
    EmptyState(levels);
  }

  lemma EmptyState(levels: Levels)
    requires VersionInv(levels, 2) && From(levels, 0) == {}
    ensures Inv(State([], None, levels, 2, {}, 0, {}), 0)
  {
    hide VersionInv, From;
    var st := State([], None, levels, 2, {}, 0, {});
    assert Top(st) == {} && All(st) == {};
    SameReads({}, 0, {});
    AssembleInv(st, 0);
  }

  lemma NoVersions(last: nat)
    ensures BatchVersions([], last) == {}
  {
  }

  lemma BatchGrows(batch: seq<Op>, i: nat, last: nat)
    requires i < |batch|
    ensures BatchVersions(batch[..i + 1], last) == {VersionOf(batch[i], last + 1 + i)} + BatchVersions(batch[..i], last)
  {
    var shorter, longer := batch[..i], batch[..i + 1];
    assert forall k | 0 <= k < i :: longer[k] == shorter[k] == batch[k];
    assert longer[i] == batch[i];
    forall e
      ensures e in BatchVersions(longer, last)
         <==> e == VersionOf(batch[i], last + 1 + i) || e in BatchVersions(shorter, last)
    {
      if e in BatchVersions(shorter, last) {
        var k :| 0 <= k < |shorter| && e == VersionOf(shorter[k], last + 1 + k);
        assert e == VersionOf(longer[k], last + 1 + k);
      }
    }
  }

  /** Memtable, then immutable memtable, then the levels: first hit wins. */
  lemma LookupOrder(st: State, last: nat, u: UserKey, s: nat)
    requires Inv(st, last)
    ensures var m := Probe(st.mem, u, s);
            var i := if st.imm.Some? then Probe(st.imm.value, u, s) else None;
            Newest(All(st), u, s) == if m.Some? then m else if i.Some? then i else Newest(From(st.levels, 0), u, s)
  {
    var M, I, L := Contents(st.mem), ImmSet(st.imm), From(st.levels, 0);
    assert All(st) == M + (I + L);
    SubsetOnePerSequence(M, All(st));
    SubsetOnePerSequence(I, All(st));
    assert Newer(M, I) && Newer(M, L) && Newer(I, L);
    hide VersionInv, From;
    ProbeIsNewest(st.mem, u, s);
    if st.imm.Some? {
      ProbeIsNewest(st.imm.value, u, s);
    }
    ReadThroughLayers(M, I, L, u, s);
  }
}
