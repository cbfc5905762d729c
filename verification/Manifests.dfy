/** The manifest of a database: a snapshot of the version at opening and then every logged edit. Reading any byte prefix
    of it and replaying the whole edits found through one builder rebuilds the version after the last of them
    (VersionSet::LogAndApply, WriteSnapshot and Recover). */
module Manifests {
  import opened Wrappers
  import opened InternalKeys
  import opened MultiVersion
  import opened Tables
  import opened Lookup
  import opened VersionBuilder
  import opened LevelSteps
  import opened Engine
  import Coding
  import VersionEdits
  import LogFormat
  import LogFiles

  /** What has been logged: the version the manifest starts with, the edits since, the version after each of them, and
      the contents of every table file ever named. */
  datatype Recording = Recording(base: Levels, edits: seq<VersionEdit>, versions: seq<Levels>,
                                 tables: map<nat, seq<Entry>>)

  ghost function HeldAt(r: Recording, n: nat, k: nat): set<nat>
    requires |r.base| == NUM_LEVELS && k < NUM_LEVELS && n <= |r.edits|
  {
    Held(r.base[k], r.edits, n, k)
  }

  // ----- the invariant of a recording -----

  ghost predicate Shape(r: Recording, levels: Levels) {
    && |r.base| == |levels| == NUM_LEVELS && |r.versions| == |r.edits| + 1
    && r.versions[0] == r.base && r.versions[|r.edits|] == levels
    && (forall i | 0 <= i < |r.edits| :: AppliedTo(r.versions[i], r.edits[i], r.versions[i + 1]))
    && (forall k | 0 <= k < NUM_LEVELS :: FilesSorted(r.base[k]) && DistinctFileNumbers(r.base[k]))
  }

  /** No number ever held by a level was free to be handed out again. */
  ghost predicate HeldBelow(r: Recording, nextFile: nat)
    requires |r.base| == NUM_LEVELS
  {
    forall k, m | 0 <= k < NUM_LEVELS && m in HeldAt(r, |r.edits|, k) :: m < nextFile
  }

  /** Files only ever move down: no deeper level has held the number of a file. */
  ghost predicate OnlyDown(r: Recording, levels: Levels)
    requires |r.base| == |levels| == NUM_LEVELS
  {
    forall k, k', f | 0 <= k < k' < NUM_LEVELS && f in levels[k] :: f.number !in HeldAt(r, |r.edits|, k')
  }

  ghost predicate FileKnown(tables: map<nat, seq<Entry>>, f: File) {
    f.number in tables && tables[f.number] == f.entries
  }

  ghost predicate AllKnown(tables: map<nat, seq<Entry>>, files: seq<(nat, File)>) {
    forall i | 0 <= i < |files| :: FileKnown(tables, files[i].1)
  }

  /** A file number names one table for ever. */
  ghost predicate TablesKnown(r: Recording) {
    && (forall k, f | 0 <= k < |r.base| && f in r.base[k] :: FileKnown(r.tables, f))
    && forall i | 0 <= i < |r.edits| :: AllKnown(r.tables, r.edits[i].newFiles)
  }

  ghost predicate LevelsKnown(tables: map<nat, seq<Entry>>, levels: Levels) {
    forall k, f | 0 <= k < |levels| && f in levels[k] :: FileKnown(tables, f)
  }

  ghost predicate NoneReadded(r: Recording)
    requires |r.base| == NUM_LEVELS
  {
    forall k | 0 <= k < NUM_LEVELS :: NeverReadded(r.base[k], r.edits, k)
  }

  ghost predicate NumberedBelow(tables: map<nat, seq<Entry>>, nextFile: nat) {
    forall m | m in tables :: m < nextFile
  }

  ghost predicate Recorded(r: Recording, levels: Levels, nextFile: nat) {
    && Shape(r, levels) && NoneReadded(r) && HeldBelow(r, nextFile) && OnlyDown(r, levels)
    && TablesKnown(r) && LevelsKnown(r.tables, levels) && NumberedBelow(r.tables, nextFile)
  }

  function Extended(r: Recording, edit: VersionEdit, next: Levels, tables: map<nat, seq<Entry>>): Recording {
    Recording(r.base, r.edits + [edit], r.versions + [next], tables)
  }

  /** The numbers the edit adds at a level were never there. */
  ghost predicate AddsFresh(r: Recording, edit: VersionEdit)
    requires |r.base| == NUM_LEVELS
  {
    forall k | 0 <= k < NUM_LEVELS :: FreshNumbers(HeldAt(r, |r.edits|, k), FilesAt(edit.newFiles, k))
  }

  lemma {:induction false} HeldPrefix(base: seq<File>, edits: seq<VersionEdit>, more: seq<VersionEdit>, n: nat,
                                      level: nat)
    requires n <= |edits|
    ensures Held(base, edits + more, n, level) == Held(base, edits, n, level)
    decreases n
  {
    if n > 0 {
      HeldPrefix(base, edits, more, n - 1, level);
      assert (edits + more)[n - 1] == edits[n - 1];
    }
  }

  lemma HeldMore(r: Recording, edit: VersionEdit, next: Levels, tables: map<nat, seq<Entry>>, k: nat)
    requires |r.base| == NUM_LEVELS && k < NUM_LEVELS
    ensures HeldAt(Extended(r, edit, next, tables), |r.edits| + 1, k) ==
            HeldAt(r, |r.edits|, k) + NumbersOf(FilesAt(edit.newFiles, k))
  {
    HeldPrefix(r.base[k], r.edits, [edit], |r.edits|, k);
    assert (r.edits + [edit])[|r.edits|] == edit;
  }

  lemma NeverReaddedMore(base: seq<File>, edits: seq<VersionEdit>, edit: VersionEdit, level: nat)
    requires NeverReadded(base, edits, level)
    requires FreshNumbers(Held(base, edits, |edits|, level), FilesAt(edit.newFiles, level))
    ensures NeverReadded(base, edits + [edit], level)
  {
    forall n | 0 <= n < |edits| + 1
      ensures AddsFreshNumbers(base, edits + [edit], n, level)
    {
      HeldPrefix(base, edits, [edit], n, level);
      if n < |edits| {
        assert AddsFreshNumbers(base, edits, n, level) && (edits + [edit])[n] == edits[n];
      }
    }
  }

  lemma ShapeMore(r: Recording, levels: Levels, edit: VersionEdit, next: Levels, tables: map<nat, seq<Entry>>)
    requires Shape(r, levels) && AppliedTo(levels, edit, next)
    ensures Shape(Extended(r, edit, next, tables), next)
  {
    hide AppliedTo, FilesSorted, DistinctFileNumbers;
    var more := Extended(r, edit, next, tables);
    AppliedLevels(levels, edit, next);
    forall i | 0 <= i < |more.edits|
      ensures AppliedTo(more.versions[i], more.edits[i], more.versions[i + 1])
    {
      if i < |r.edits| {
        assert AppliedTo(r.versions[i], r.edits[i], r.versions[i + 1]);
      }
    }
  }

  lemma AppliedLevels(levels: Levels, edit: VersionEdit, next: Levels)
    requires AppliedTo(levels, edit, next)
    ensures |levels| == |next| == NUM_LEVELS
  {
  }

  lemma TablesMore(r: Recording, edit: VersionEdit, next: Levels, tables: map<nat, seq<Entry>>)
    requires TablesKnown(r) && AllKnown(tables, edit.newFiles)
    requires forall m | m in r.tables :: m in tables && tables[m] == r.tables[m]
    ensures TablesKnown(Extended(r, edit, next, tables))
  {
    var more := Extended(r, edit, next, tables);
    forall i | 0 <= i < |more.edits|
      ensures AllKnown(tables, more.edits[i].newFiles)
    {
      if i < |r.edits| {
        assert AllKnown(r.tables, r.edits[i].newFiles);
        assert more.edits[i] == r.edits[i];
        forall m | 0 <= m < |r.edits[i].newFiles|
          ensures FileKnown(tables, r.edits[i].newFiles[m].1)
        {
          assert FileKnown(r.tables, r.edits[i].newFiles[m].1);
        }
      }
    }
    forall k, f | 0 <= k < |r.base| && f in r.base[k]
      ensures FileKnown(tables, f)
    {
      assert FileKnown(r.tables, f);
    }
  }

  /** One more edit, if what it adds is fresh and files still only move down. */
  lemma RecordOne(r: Recording, levels: Levels, nextFile: nat, edit: VersionEdit, next: Levels, nextFile': nat,
                  tables: map<nat, seq<Entry>>)
    requires Recorded(r, levels, nextFile) && AppliedTo(levels, edit, next) && nextFile <= nextFile'
    requires |r.base| == |next| == NUM_LEVELS && AddsFresh(r, edit)
    requires HeldBelow(Extended(r, edit, next, tables), nextFile') && OnlyDown(Extended(r, edit, next, tables), next)
    requires AllKnown(tables, edit.newFiles) && forall m | m in r.tables :: m in tables && tables[m] == r.tables[m]
    requires LevelsKnown(tables, next) && NumberedBelow(tables, nextFile')
    ensures Recorded(Extended(r, edit, next, tables), next, nextFile')
  {
    hide Shape, HeldBelow, OnlyDown, TablesKnown, LevelsKnown, AllKnown, FreshNumbers, NeverReadded;
    ShapeMore(r, levels, edit, next, tables);
    TablesMore(r, edit, next, tables);
    forall k | 0 <= k < NUM_LEVELS
      ensures NeverReadded(r.base[k], r.edits + [edit], k)
    {
      assert NeverReadded(r.base[k], r.edits, k) && FreshNumbers(HeldAt(r, |r.edits|, k), FilesAt(edit.newFiles, k));
      NeverReaddedMore(r.base[k], r.edits, edit, k);
    }
  }

  /** A new manifest, for a version whose file numbers are unique. */
  lemma StartRecording(levels: Levels, nextFile: nat, tables: map<nat, seq<Entry>>)
    requires |levels| == NUM_LEVELS && AllSorted(levels) && UniqueNumbers(levels, nextFile)
    requires forall k, f | 0 <= k < |levels| && f in levels[k] :: FileKnown(tables, f)
    requires NumberedBelow(tables, nextFile)
    ensures Recorded(Recording(levels, [], [levels], tables), levels, nextFile)
  {
    var r := Recording(levels, [], [levels], tables);
    forall k | 0 <= k < NUM_LEVELS
      ensures DistinctFileNumbers(levels[k])
    {
      DistinctInLevel(levels, nextFile, k);
    }
    forall k, k', f | 0 <= k < k' < NUM_LEVELS && f in levels[k]
      ensures f.number !in HeldAt(r, 0, k')
    {
      assert forall g | g in levels[k'] :: g.number != f.number;
    }
  }

  // ----- the edits of the background steps are fresh -----

  /** The edit adds these files at one level and nothing at the others. */
  ghost predicate AddsAt(edit: VersionEdit, at: nat, files: seq<File>) {
    forall k: nat :: FilesAt(edit.newFiles, k) == if k == at then files else []
  }

  /** Neither the level the files go to nor a deeper one has ever held their numbers. */
  ghost predicate NewToLevel(r: Recording, at: nat, files: seq<File>)
    requires |r.base| == NUM_LEVELS
  {
    DistinctFileNumbers(files) &&
    forall f, k | f in files && at <= k < NUM_LEVELS :: f.number !in HeldAt(r, |r.edits|, k)
  }

  /** A file of the next version was there before, or is one of the added ones; those above do not share their
      numbers. */
  ghost predicate Succeeds(levels: Levels, at: nat, files: seq<File>, next: Levels)
    requires |levels| == |next| == NUM_LEVELS
  {
    forall k, g | 0 <= k < NUM_LEVELS && g in next[k] :: WasThereOrAdded(levels, at, files, k, g)
  }

  ghost predicate WasThereOrAdded(levels: Levels, at: nat, files: seq<File>, k: nat, g: File)
    requires k < |levels|
  {
    (g in levels[k] && (k < at ==> g.number !in NumbersOf(files))) || (k == at && g in files)
  }

  lemma HeldAfter(r: Recording, edit: VersionEdit, at: nat, files: seq<File>, next: Levels,
                  tables: map<nat, seq<Entry>>, k: nat)
    requires |r.base| == NUM_LEVELS && k < NUM_LEVELS && AddsAt(edit, at, files)
    ensures HeldAt(Extended(r, edit, next, tables), |r.edits| + 1, k) ==
            HeldAt(r, |r.edits|, k) + if k == at then NumbersOf(files) else {}
  {
    HeldMore(r, edit, next, tables, k);
    assert NumbersOf([]) == {};
  }

  lemma RecordAdded(r: Recording, levels: Levels, nextFile: nat, edit: VersionEdit, at: nat, files: seq<File>,
                    next: Levels, nextFile': nat, tables: map<nat, seq<Entry>>)
    requires Recorded(r, levels, nextFile) && AppliedTo(levels, edit, next) && nextFile <= nextFile'
    requires |r.base| == |levels| == |next| == NUM_LEVELS && AddsAt(edit, at, files)
    requires NewToLevel(r, at, files) && Succeeds(levels, at, files, next)
    requires forall m | m in NumbersOf(files) :: m < nextFile'
    requires AllKnown(tables, edit.newFiles) && forall m | m in r.tables :: m in tables && tables[m] == r.tables[m]
    requires LevelsKnown(tables, next) && NumberedBelow(tables, nextFile')
    ensures Recorded(Extended(r, edit, next, tables), next, nextFile')
  {
    var more := Extended(r, edit, next, tables);
    FreshlyAdded(r, edit, at, files);
    HeldStaysBelow(r, nextFile, edit, at, files, next, nextFile', tables);
    StillOnlyDown(r, levels, edit, at, files, next, tables);
    hide *;
    RecordOne(r, levels, nextFile, edit, next, nextFile', tables);
  }

  lemma FreshlyAdded(r: Recording, edit: VersionEdit, at: nat, files: seq<File>)
    requires |r.base| == NUM_LEVELS && AddsAt(edit, at, files) && NewToLevel(r, at, files)
    ensures AddsFresh(r, edit)
  {
    hide HeldAt;
    forall k | 0 <= k < NUM_LEVELS
      ensures FreshNumbers(HeldAt(r, |r.edits|, k), FilesAt(edit.newFiles, k))
    {
      assert FilesAt(edit.newFiles, k) == if k == at then files else [];
    }
  }

  lemma HeldStaysBelow(r: Recording, nextFile: nat, edit: VersionEdit, at: nat, files: seq<File>, next: Levels,
                       nextFile': nat, tables: map<nat, seq<Entry>>)
    requires |r.base| == NUM_LEVELS && HeldBelow(r, nextFile) && nextFile <= nextFile' && AddsAt(edit, at, files)
    requires forall m | m in NumbersOf(files) :: m < nextFile'
    ensures HeldBelow(Extended(r, edit, next, tables), nextFile')
  {
    hide HeldAt, NumbersOf, AddsAt;
    var more := Extended(r, edit, next, tables);
    forall k, m | 0 <= k < NUM_LEVELS && m in HeldAt(more, |more.edits|, k)
      ensures m < nextFile'
    {
      HeldAfter(r, edit, at, files, next, tables, k);
    }
  }

  lemma StillOnlyDown(r: Recording, levels: Levels, edit: VersionEdit, at: nat, files: seq<File>, next: Levels,
                      tables: map<nat, seq<Entry>>)
    requires |r.base| == |levels| == |next| == NUM_LEVELS && OnlyDown(r, levels) && AddsAt(edit, at, files)
    requires NewToLevel(r, at, files) && Succeeds(levels, at, files, next)
    ensures OnlyDown(Extended(r, edit, next, tables), next)
  {
    hide HeldAt, NumbersOf, AddsAt;
    var more := Extended(r, edit, next, tables);
    forall k, k', g | 0 <= k < k' < NUM_LEVELS && g in next[k]
      ensures g.number !in HeldAt(more, |more.edits|, k')
    {
      HeldAfter(r, edit, at, files, next, tables, k');
    }
  }

  lemma AddsAtIs(edit: VersionEdit, at: nat, files: seq<File>)
    requires edit.newFiles == AllAt(at, files)
    ensures AddsAt(edit, at, files)
  {
    forall k: nat
      ensures FilesAt(edit.newFiles, k) == if k == at then files else []
    {
      FilesAtAll(at, files, k);
    }
  }

  /** Numbers from nextFile on are new to every level. */
  lemma NewNumbersAreNew(r: Recording, nextFile: nat, at: nat, files: seq<File>)
    requires |r.base| == NUM_LEVELS && HeldBelow(r, nextFile) && DistinctFileNumbers(files)
    requires forall f | f in files :: nextFile <= f.number
    ensures NewToLevel(r, at, files)
  {
    hide HeldAt;
  }

  lemma RecordedParts(r: Recording, levels: Levels, nextFile: nat)
    requires Recorded(r, levels, nextFile)
    ensures |r.base| == |levels| == NUM_LEVELS && HeldBelow(r, nextFile) && OnlyDown(r, levels)
    ensures LevelsKnown(r.tables, levels) && NumberedBelow(r.tables, nextFile)
  {
  }

  /** LogAndApply of the edit of a flush: its file has the next number. */
  lemma RecordFlush(r: Recording, levels: Levels, nextFile: nat, level: nat, f: File, next: Levels)
    requires Recorded(r, levels, nextFile) && UniqueNumbers(levels, nextFile) && level < NUM_LEVELS
    requires AppliedTo(levels, FlushEdit(level, f), next) && Flushed(levels, level, f, next) && f.number == nextFile
    ensures Recorded(Extended(r, FlushEdit(level, f), next, r.tables[f.number := f.entries]), next, nextFile + 1)
  {
    var edit, tables := FlushEdit(level, f), r.tables[f.number := f.entries];
    hide Shape, TablesKnown, NoneReadded, AppliedTo, HeldAt;
    RecordedParts(r, levels, nextFile);
    AddsAtIs(edit, level, [f]);
    NewNumbersAreNew(r, nextFile, level, [f]);
    NumbersOfOne(f);
    forall k, g | 0 <= k < NUM_LEVELS && g in next[k]
      ensures WasThereOrAdded(levels, level, [f], k, g)
      ensures FileKnown(tables, g)
    {
      assert g in levels[k] ==> FileKnown(r.tables, g);
    }
    assert Succeeds(levels, level, [f], next);
    RecordAdded(r, levels, nextFile, edit, level, [f], next, nextFile + 1, tables);
  }

  lemma NumbersOfOne(f: File)
    ensures NumbersOf([f]) == {f.number}
  {
    assert f in [f];
  }

  /** LogAndApply of an edit without files. */
  lemma RecordNothing(r: Recording, levels: Levels, nextFile: nat, nextFile': nat)
    requires Recorded(r, levels, nextFile) && AppliedTo(levels, VersionEdit({}, []), levels) && nextFile <= nextFile'
    ensures Recorded(Extended(r, VersionEdit({}, []), levels, r.tables), levels, nextFile')
  {
    var edit := VersionEdit({}, []);
    hide Shape, TablesKnown, NoneReadded, AppliedTo, HeldAt;
    RecordedParts(r, levels, nextFile);
    assert edit.newFiles == AllAt(0, []);
    AddsAtIs(edit, 0, []);
    RecordAdded(r, levels, nextFile, edit, 0, [], levels, nextFile', r.tables);
  }

  /** The tables with those of the files added. */
  ghost function WithTables(tables: map<nat, seq<Entry>>, files: seq<File>): map<nat, seq<Entry>>
    decreases |files|
  {
    if files == [] then tables
    else WithTables(tables, files[..|files| - 1])[files[|files| - 1].number := files[|files| - 1].entries]
  }

  lemma {:induction false} WithTablesKnown(tables: map<nat, seq<Entry>>, files: seq<File>)
    requires DistinctFileNumbers(files) && NumbersOf(files) !! tables.Keys
    ensures WithTables(tables, files).Keys == tables.Keys + NumbersOf(files)
    ensures forall m | m in tables :: m in WithTables(tables, files) && WithTables(tables, files)[m] == tables[m]
    ensures forall f | f in files :: FileKnown(WithTables(tables, files), f)
    decreases |files|
  {
    if files != [] {
      var n := |files| - 1;
      assert files == files[..n] + [files[n]];
      assert NumbersOf(files) == NumbersOf(files[..n]) + {files[n].number};
      WithTablesKnown(tables, files[..n]);
      forall f | f in files
        ensures FileKnown(WithTables(tables, files), f)
      {
        if f in files[..n] {
          assert FileKnown(WithTables(tables, files[..n]), f);
          var i :| 0 <= i < n && files[i] == f;
        }
      }
    }
  }

  /** LogAndApply of the edit of a merge: the outputs have new numbers. */
  lemma RecordCompaction(r: Recording, levels: Levels, nextFile: nat, j: Job, next: Levels, nextFile': nat)
    requires Recorded(r, levels, nextFile) && GoodJob(levels, j)
    requires AppliedTo(levels, CompactionEdit(j), next) && Compacted(levels, j, next)
    requires GoodOutputNumbers(j, nextFile, nextFile') && DistinctFileNumbers(j.outputs)
    requires UniqueNumbers(levels, nextFile)
    ensures Recorded(Extended(r, CompactionEdit(j), next, WithTables(r.tables, j.outputs)), next, nextFile')
  {
    hide *;
    var edit, tables := CompactionEdit(j), WithTables(r.tables, j.outputs);
    RecordedParts(r, levels, nextFile);
    JobShape(levels, j, next);
    OutputTables(r.tables, j, nextFile, nextFile');
    AddsAtIs(edit, j.level + 1, j.outputs);
    NewNumbersAreNew(r, nextFile, j.level + 1, j.outputs);
    OutputsSucceed(levels, j, next, nextFile, nextFile');
    OutputsKnown(r.tables, tables, levels, j, next);
    KnownAt(tables, j.level + 1, j.outputs);
    RecordAdded(r, levels, nextFile, edit, j.level + 1, j.outputs, next, nextFile', tables);
  }

  lemma JobShape(levels: Levels, j: Job, next: Levels)
    requires GoodJob(levels, j) && Compacted(levels, j, next)
    ensures |levels| == |next| == NUM_LEVELS && j.level + 1 < NUM_LEVELS
    ensures CompactionEdit(j).newFiles == AllAt(j.level + 1, j.outputs)
    ensures forall f | f in j.inputs0 :: f in levels[j.level]
  {
  }

  lemma OutputTables(before: map<nat, seq<Entry>>, j: Job, nextFile: nat, nextFile': nat)
    requires GoodOutputNumbers(j, nextFile, nextFile') && DistinctFileNumbers(j.outputs)
    requires NumberedBelow(before, nextFile)
    ensures var tables := WithTables(before, j.outputs);
            && (forall m | m in before :: m in tables && tables[m] == before[m])
            && (forall f | f in j.outputs :: FileKnown(tables, f))
            && NumberedBelow(tables, nextFile')
    ensures nextFile <= nextFile' && forall m | m in NumbersOf(j.outputs) :: m < nextFile'
    ensures forall f | f in j.outputs :: nextFile <= f.number
  {
    assert NumbersOf(j.outputs) !! before.Keys;
    WithTablesKnown(before, j.outputs);
  }

  lemma KnownAt(tables: map<nat, seq<Entry>>, at: nat, files: seq<File>)
    requires forall f | f in files :: FileKnown(tables, f)
    ensures AllKnown(tables, AllAt(at, files))
  {
    forall i | 0 <= i < |AllAt(at, files)|
      ensures FileKnown(tables, AllAt(at, files)[i].1)
    {
      assert files[i] in files;
    }
  }

  lemma OutputsSucceed(levels: Levels, j: Job, next: Levels, nextFile: nat, nextFile': nat)
    requires |levels| == |next| == NUM_LEVELS && GoodJob(levels, j) && Compacted(levels, j, next)
    requires UniqueNumbers(levels, nextFile) && GoodOutputNumbers(j, nextFile, nextFile')
    ensures Succeeds(levels, j.level + 1, j.outputs, next)
  {
    hide GoodJob, Compacted;
    forall k, g | 0 <= k < NUM_LEVELS && g in next[k]
      ensures WasThereOrAdded(levels, j.level + 1, j.outputs, k, g)
    {
      CompactedFile(levels, j, next, k, g);
    }
  }

  lemma OutputsKnown(before: map<nat, seq<Entry>>, tables: map<nat, seq<Entry>>, levels: Levels, j: Job, next: Levels)
    requires |levels| == |next| == NUM_LEVELS && GoodJob(levels, j) && Compacted(levels, j, next)
    requires LevelsKnown(before, levels) && forall f | f in j.outputs :: FileKnown(tables, f)
    requires forall m | m in before :: m in tables && tables[m] == before[m]
    ensures LevelsKnown(tables, next)
  {
    hide GoodJob, Compacted;
    forall k, g | 0 <= k < |next| && g in next[k]
      ensures FileKnown(tables, g)
    {
      CompactedFile(levels, j, next, k, g);
      assert g in levels[k] ==> FileKnown(before, g);
    }
  }

  /** LogAndApply of the edit of a trivial move: the file's number was never in the next level. */
  lemma RecordMove(r: Recording, levels: Levels, nextFile: nat, j: Job, next: Levels)
    requires Recorded(r, levels, nextFile) && UniqueNumbers(levels, nextFile) && GoodJob(levels, j)
    requires AppliedTo(levels, CompactionEdit(j), next) && Compacted(levels, j, next)
    requires |j.inputs0| == 1 && j.outputs == j.inputs0
    ensures Recorded(Extended(r, CompactionEdit(j), next, r.tables), next, nextFile)
  {
    hide *;
    var edit, moved := CompactionEdit(j), j.inputs0[0];
    RecordedParts(r, levels, nextFile);
    JobShape(levels, j, next);
    assert j.outputs == [moved] && moved in j.inputs0 && moved in levels[j.level];
    MovedFacts(r.tables, levels, nextFile, j.level, moved);
    NumbersOfOne(moved);
    AddsAtIs(edit, j.level + 1, j.outputs);
    MovedIsNew(r, levels, j.level, moved);
    MoveSucceeds(levels, j, next, nextFile);
    OutputsKnown(r.tables, r.tables, levels, j, next);
    KnownAt(r.tables, j.level + 1, j.outputs);
    RecordAdded(r, levels, nextFile, edit, j.level + 1, j.outputs, next, nextFile, r.tables);
  }

  lemma MovedFacts(tables: map<nat, seq<Entry>>, levels: Levels, nextFile: nat, level: nat, moved: File)
    requires level < |levels| && moved in levels[level] && LevelsKnown(tables, levels)
    requires UniqueNumbers(levels, nextFile)
    ensures FileKnown(tables, moved) && moved.number < nextFile
  {
  }

  lemma MovedIsNew(r: Recording, levels: Levels, level: nat, moved: File)
    requires |r.base| == |levels| == NUM_LEVELS && OnlyDown(r, levels) && level + 1 < NUM_LEVELS
    requires moved in levels[level]
    ensures NewToLevel(r, level + 1, [moved])
  {
    hide HeldAt;
  }

  lemma MoveSucceeds(levels: Levels, j: Job, next: Levels, nextFile: nat)
    requires |levels| == |next| == NUM_LEVELS && GoodJob(levels, j) && Compacted(levels, j, next)
    requires UniqueNumbers(levels, nextFile) && |j.inputs0| == 1 && j.outputs == j.inputs0
    ensures Succeeds(levels, j.level + 1, j.outputs, next)
  {
    var moved := j.inputs0[0];
    NumbersOfOne(moved);
    assert j.outputs == [moved] && moved in j.inputs0 && moved in levels[j.level];
    forall k, g | 0 <= k < NUM_LEVELS && g in next[k]
      ensures WasThereOrAdded(levels, j.level + 1, j.outputs, k, g)
    {
      CompactedFile(levels, j, next, k, g);
    }
  }

  // ----- the snapshot record -----

  /** The files of the first n levels, as WriteSnapshot lists them. */
  function SnapshotFiles(levels: Levels, n: nat): seq<(nat, File)>
    requires n <= |levels|
  {
    if n == 0 then [] else SnapshotFiles(levels, n - 1) + AllAt(n - 1, levels[n - 1])
  }

  /** WriteSnapshot: the edit that makes the version out of nothing. */
  function SnapshotEdit(levels: Levels): VersionEdit {
    VersionEdit({}, SnapshotFiles(levels, |levels|))
  }

  const EMPTY: Levels := [[], [], [], [], [], [], []]

  lemma {:induction false} FilesAtConcat(a: seq<(nat, File)>, b: seq<(nat, File)>, k: nat)
    ensures FilesAt(a + b, k) == FilesAt(a, k) + FilesAt(b, k)
    decreases |b|
  {
    if b == [] {
      assert a + b == a;
    } else {
      var n := |b| - 1;
      assert (a + b)[..|a + b| - 1] == a + b[..n];
      FilesAtConcat(a, b[..n], k);
    }
  }

  lemma NoneAt(k: nat)
    ensures FilesAt([], k) == []
  {
  }

  lemma {:induction false} SnapshotFilesAt(levels: Levels, n: nat, k: nat)
    requires n <= |levels|
    ensures FilesAt(SnapshotFiles(levels, n), k) == if k < n then levels[k] else []
  {
    hide FilesAt, AllAt;
    if n == 0 {
      NoneAt(k);
    } else {
      SnapshotFilesAt(levels, n - 1, k);
      var before := if k < n - 1 then levels[k] else [];
      assert before + [] == before;
      FilesAtConcat(SnapshotFiles(levels, n - 1), AllAt(n - 1, levels[n - 1]), k);
      FilesAtAll(n - 1, levels[n - 1], k);
    }
  }

  /** Applying the snapshot to empty levels gives the version. */
  lemma SnapshotRebuilds(levels: Levels)
    requires |levels| == NUM_LEVELS && forall k | 0 <= k < NUM_LEVELS ::
               FilesSorted(levels[k]) && DistinctFileNumbers(levels[k])
    ensures AppliedTo(EMPTY, SnapshotEdit(levels), levels)
  {
    forall k | 0 <= k < NUM_LEVELS
      ensures Saved(EMPTY[k], ApplyAt(LevelState({}, []), SnapshotEdit(levels), k), levels[k])
    {
      SnapshotFilesAt(levels, NUM_LEVELS, k);
      assert DeletedAt({}, k) == {} && {} + DeletedAt({}, k) == {};
      assert EMPTY[k] == [];
      AddFilesMembers(LevelState({}, []), levels[k]);
    }
  }

  // ----- replaying the recording from nothing -----

  function WholeEdits(r: Recording): seq<VersionEdit> {
    [SnapshotEdit(r.base)] + r.edits
  }

  /** The files of one level in the first n + 1 of them. */
  ghost function Column(r: Recording, n: nat, k: nat): seq<seq<File>>
    requires n <= |r.versions| && k < NUM_LEVELS && forall i | 0 <= i < |r.versions| :: |r.versions[i]| == NUM_LEVELS
  {
    seq(n + 1, i requires 0 <= i <= n => if i == 0 then [] else r.versions[i - 1][k])
  }

  lemma ShapeVersions(r: Recording, levels: Levels)
    requires Shape(r, levels)
    ensures forall i | 0 <= i < |r.versions| :: |r.versions[i]| == NUM_LEVELS
  {
    forall i | 0 <= i < |r.versions|
      ensures |r.versions[i]| == NUM_LEVELS
    {
      if i < |r.edits| {
        AppliedLevels(r.versions[i], r.edits[i], r.versions[i + 1]);
      }
    }
  }

  lemma {:induction false} WholeHeld(r: Recording, n: nat, k: nat)
    requires |r.base| == NUM_LEVELS && k < NUM_LEVELS && n <= |r.edits|
    ensures Held([], WholeEdits(r), n + 1, k) == Held(r.base[k], r.edits, n, k)
    decreases n
  {
    if n == 0 {
      SnapshotFilesAt(r.base, NUM_LEVELS, k);
      assert NumbersOf([]) == {};
      assert Held([], WholeEdits(r), 0, k) == {};
      assert WholeEdits(r)[0] == SnapshotEdit(r.base);
    } else {
      WholeHeld(r, n - 1, k);
      assert WholeEdits(r)[n] == r.edits[n - 1];
    }
  }

  lemma WholeNeverReadded(r: Recording, levels: Levels, n: nat, k: nat)
    requires Shape(r, levels) && NoneReadded(r) && k < NUM_LEVELS && n <= |r.edits| + 1
    ensures NeverReadded([], WholeEdits(r)[..n], k)
  {
    var whole := WholeEdits(r);
    assert NeverReadded(r.base[k], r.edits, k) && DistinctFileNumbers(r.base[k]);
    forall i | 0 <= i < n
      ensures AddsFreshNumbers([], whole[..n], i, k)
    {
      assert whole[..n] + whole[n..] == whole;
      HeldPrefix([], whole[..n], whole[n..], i, k);
      if i == 0 {
        SnapshotFilesAt(r.base, NUM_LEVELS, k);
        assert NumbersOf([]) == {};
      } else {
        WholeHeld(r, i - 1, k);
        assert AddsFreshNumbers(r.base[k], r.edits, i - 1, k) && whole[i] == r.edits[i - 1];
      }
    }
  }

  lemma WholeOneByOne(r: Recording, levels: Levels, n: nat, k: nat)
    requires Shape(r, levels) && k < NUM_LEVELS && n <= |r.edits| + 1
    requires forall i | 0 <= i < |r.versions| :: |r.versions[i]| == NUM_LEVELS
    ensures OneByOne(Column(r, n, k), WholeEdits(r)[..n], k)
  {
    assert |WholeEdits(r)| == |r.edits| + 1 && |r.versions| == |r.edits| + 1;
    var whole, column := WholeEdits(r)[..n], Column(r, n, k);
    hide Shape, WholeEdits;
    forall i | 0 <= i < n
      ensures AppliedAlone(column, whole, i, k)
    {
      WholeStep(r, levels, n, k, i);
    }
  }

  lemma WholeStep(r: Recording, levels: Levels, n: nat, k: nat, i: nat)
    requires Shape(r, levels) && k < NUM_LEVELS && i < n <= |r.edits| + 1
    requires forall i | 0 <= i < |r.versions| :: |r.versions[i]| == NUM_LEVELS
    ensures AppliedAlone(Column(r, n, k), WholeEdits(r)[..n], i, k)
  {
    assert |WholeEdits(r)| == |r.edits| + 1 && |r.versions| == |r.edits| + 1;
    hide *;
    var whole, column := WholeEdits(r)[..n], Column(r, n, k);
    if i == 0 {
      SnapshotFirst(r, levels, n, k);
    } else {
      EditAfterSnapshot(r, levels, n, k, i);
    }
    if i == 0 {
      AppliedAt(EMPTY, SnapshotEdit(r.base), r.base, k);
    } else {
      AppliedAt(r.versions[i - 1], r.edits[i - 1], r.versions[i], k);
    }
    AssembleAlone(column, whole, i, k);
  }

  lemma SnapshotFirst(r: Recording, levels: Levels, n: nat, k: nat)
    requires Shape(r, levels) && k < NUM_LEVELS && 0 < n <= |r.edits| + 1
    requires forall i | 0 <= i < |r.versions| :: |r.versions[i]| == NUM_LEVELS
    ensures WholeEdits(r)[..n][0] == SnapshotEdit(r.base) && AppliedTo(EMPTY, SnapshotEdit(r.base), r.base)
    ensures Column(r, n, k)[0] == EMPTY[k] && |r.base| == NUM_LEVELS && Column(r, n, k)[1] == r.base[k]
  {
    SnapshotRebuilds(r.base);
  }

  lemma EditAfterSnapshot(r: Recording, levels: Levels, n: nat, k: nat, i: nat)
    requires Shape(r, levels) && k < NUM_LEVELS && 0 < i < n <= |r.edits| + 1
    requires forall i | 0 <= i < |r.versions| :: |r.versions[i]| == NUM_LEVELS
    ensures WholeEdits(r)[..n][i] == r.edits[i - 1] && AppliedTo(r.versions[i - 1], r.edits[i - 1], r.versions[i])
    ensures Column(r, n, k)[i] == r.versions[i - 1][k] && Column(r, n, k)[i + 1] == r.versions[i][k]
  {
    hide AppliedTo, FilesSorted, DistinctFileNumbers;
  }

  lemma AppliedAt(levels: Levels, edit: VersionEdit, next: Levels, k: nat)
    requires AppliedTo(levels, edit, next) && k < NUM_LEVELS
    ensures |levels| == |next| == NUM_LEVELS && Saved(levels[k], ApplyAt(LevelState({}, []), edit, k), next[k])
  {
  }

  lemma AssembleAlone(versions: seq<seq<File>>, edits: seq<VersionEdit>, i: nat, level: nat)
    requires i < |edits| && i + 1 < |versions|
    requires Saved(versions[i], ApplyAt(LevelState({}, []), edits[i], level), versions[i + 1])
    ensures AppliedAlone(versions, edits, i, level)
  {
  }

  /** One builder fed the first n edits of the manifest, the snapshot included, rebuilds the version after the last. */
  lemma ReplayRebuilds(r: Recording, levels: Levels, nextFile: nat, n: nat, k: nat, files: seq<File>)
    requires Recorded(r, levels, nextFile) && 0 < n <= |r.edits| + 1 && k < NUM_LEVELS
    requires Saved([], ApplyAll(LevelState({}, []), WholeEdits(r)[..n], k), files)
    ensures |r.versions| == |r.edits| + 1 && |r.versions[n - 1]| == NUM_LEVELS && files == r.versions[n - 1][k]
  {
    assert Shape(r, levels) && NoneReadded(r);
    hide Recorded, Shape, NoneReadded, NeverReadded, OneByOne, Saved, WholeEdits;
    ShapeVersions(r, levels);
    ShapeCounts(r, levels);
    WholeNeverReadded(r, levels, n, k);
    WholeOneByOne(r, levels, n, k);
    ReplayEqualsStepwise([], Column(r, n, k), WholeEdits(r)[..n], k, files);
  }

  lemma ShapeCounts(r: Recording, levels: Levels)
    requires Shape(r, levels)
    ensures |r.versions| == |r.edits| + 1 && |WholeEdits(r)| == |r.edits| + 1
  {
  }

  // ----- as bytes -----

  /** What a file entry of the manifest stands for: the key bytes are read by the comparator's order, and the number
      names a table. */
  function FileOf(keyOf: Bytes -> InternalKey, tables: map<nat, seq<Entry>>, m: VersionEdits.FileMeta): File {
    File(m.number, m.fileSize, keyOf(m.smallest), keyOf(m.largest), if m.number in tables then tables[m.number] else [])
  }

  function EditOf(keyOf: Bytes -> InternalKey, tables: map<nat, seq<Entry>>, e: VersionEdits.Edit): VersionEdit {
    VersionEdit(set d | d in e.deletedFiles,
                seq(|e.newFiles|, i requires 0 <= i < |e.newFiles| =>
                    (e.newFiles[i].0, FileOf(keyOf, tables, e.newFiles[i].1))))
  }

  function EditsOf(keyOf: Bytes -> InternalKey, tables: map<nat, seq<Entry>>, decoded: seq<(VersionEdits.Edit, bool)>)
    : (r: seq<VersionEdit>)
    ensures |r| == |decoded|
  {
    seq(|decoded|, i requires 0 <= i < |decoded| => EditOf(keyOf, tables, decoded[i].0))
  }

  /** The written records stand for the snapshot and the logged edits. */
  ghost predicate Writes(keyOf: Bytes -> InternalKey, r: Recording, written: seq<VersionEdits.Edit>) {
    && |written| == |WholeEdits(r)|
    && forall i | 0 <= i < |written| ::
          VersionEdits.Storable(written[i]) && EditOf(keyOf, r.tables, written[i]) == WholeEdits(r)[i]
  }

  /** What recovery decodes from the bytes of a manifest, and the sizes it reports as dropped. */
  function DecodedFrom(crc: LogFormat.Checksum, file: Bytes): seq<(VersionEdits.Edit, bool)> {
    VersionEdits.DecodeRecords(LogFormat.ReadAll(crc, true, file, 0).0)
  }

  function DropsFrom(crc: LogFormat.Checksum, file: Bytes): seq<nat> {
    LogFormat.ReadAll(crc, true, file, 0).1
  }

  function Layout(crc: LogFormat.Checksum, written: seq<VersionEdits.Edit>): Bytes {
    LogFormat.LayoutAll(crc, 0, VersionEdits.Records(written))
  }

  /** How many of the written records end within the bytes. */
  function WholeRecords(crc: LogFormat.Checksum, written: seq<VersionEdits.Edit>, file: Bytes): nat {
    LogFormat.Complete(crc, 0, VersionEdits.Records(written), |file|)
  }

  ghost predicate FirstOf(written: seq<VersionEdits.Edit>, decoded: seq<(VersionEdits.Edit, bool)>) {
    |decoded| <= |written| && forall i | 0 <= i < |decoded| :: decoded[i] == (written[i], true)
  }

  /** What a byte prefix of the manifest decodes to: the first whole edits. */
  lemma PrefixDecodes(crc: LogFormat.Checksum, keyOf: Bytes -> InternalKey, r: Recording,
                      written: seq<VersionEdits.Edit>, file: Bytes)
    requires Writes(keyOf, r, written) && file <= Layout(crc, written)
    ensures var n, decoded := WholeRecords(crc, written, file), DecodedFrom(crc, file);
            && DropsFrom(crc, file) == [] && |decoded| == n <= |WholeEdits(r)| == |written|
            && FirstOf(written, decoded)
            && EditsOf(keyOf, r.tables, decoded) == WholeEdits(r)[..n]
  {
    hide LogFormat.ReadAll, LogFormat.LayoutAll, LogFormat.Complete, VersionEdits.Storable, WholeEdits, EditOf,
         VersionEdits.DecodeInto;
    VersionEdits.ManifestReadsBack(crc, written, file);
    var n, decoded := WholeRecords(crc, written, file), DecodedFrom(crc, file);
    forall i | 0 <= i < n
      ensures decoded[i] == (written[i], true) && EditsOf(keyOf, r.tables, decoded)[i] == WholeEdits(r)[i]
    {
    }
    assert EditsOf(keyOf, r.tables, decoded) == WholeEdits(r)[..n];
  }

  /** Reading any byte prefix of the manifest, decoding each whole record into a fresh edit and saving one builder over
      empty levels gives, at every level, exactly the files of the version after the last whole edit. */
  lemma ManifestRebuildsVersion(crc: LogFormat.Checksum, keyOf: Bytes -> InternalKey, r: Recording, levels: Levels,
                                nextFile: nat, written: seq<VersionEdits.Edit>, file: Bytes, k: nat, files: seq<File>)
    requires Recorded(r, levels, nextFile) && Writes(keyOf, r, written) && k < NUM_LEVELS
    requires file <= Layout(crc, written)
    requires Saved([], ApplyAll(LevelState({}, []), EditsOf(keyOf, r.tables, DecodedFrom(crc, file)), k), files)
    ensures var n := WholeRecords(crc, written, file);
            n > 0 ==> n <= |r.versions| && |r.versions[n - 1]| == NUM_LEVELS && files == r.versions[n - 1][k]
  {
    assert Shape(r, levels);
    hide *;
    PrefixDecodes(crc, keyOf, r, written, file);
    ShapeCounts(r, levels);
    var n := WholeRecords(crc, written, file);
    if n > 0 {
      ReplayRebuilds(r, levels, nextFile, n, k, files);
    }
  }

  // ----- what LogAndApply and WriteSnapshot write -----

  function MetaOf(bytesOf: InternalKey -> Bytes, f: File): VersionEdits.FileMeta {
    VersionEdits.FileMeta(f.number, f.size, bytesOf(f.smallest), bytesOf(f.largest))
  }

  function MetasOf(bytesOf: InternalKey -> Bytes, files: seq<(nat, File)>): seq<(nat, VersionEdits.FileMeta)> {
    seq(|files|, i requires 0 <= i < |files| => (files[i].0, MetaOf(bytesOf, files[i].1)))
  }

  /** The deleted files in the order in which they are written. */
  ghost function InOrder(deleted: set<(nat, nat)>): seq<(nat, nat)> {
    if deleted == {} then []
    else
      var d :| d in deleted;
      VersionEdits.InsertDeleted(InOrder(deleted - {d}), d)
  }

  /** The bytes-level edit: the stamp has the numbers, the name and the compaction pointers. */
  ghost function WrittenEdit(bytesOf: InternalKey -> Bytes, stamp: VersionEdits.Edit,
                             e: VersionEdit): VersionEdits.Edit {
    stamp.(deletedFiles := InOrder(e.deletedFiles), newFiles := MetasOf(bytesOf, e.newFiles))
  }

  lemma {:induction false} InsertKeepsSet(d: seq<(nat, nat)>, x: (nat, nat))
    requires VersionEdits.SortedSet(d)
    ensures VersionEdits.SortedSet(VersionEdits.InsertDeleted(d, x))
    ensures forall y :: y in VersionEdits.InsertDeleted(d, x) <==> y in d || y == x
  {
    if d == [] || VersionEdits.Before(x, d[0]) {
    } else if d[0] != x {
      InsertKeepsSet(d[1..], x);
      var rest := VersionEdits.InsertDeleted(d[1..], x);
      assert forall y | y in rest :: VersionEdits.Before(d[0], y);
      assert forall y | y in d :: y == d[0] || y in d[1..];
    }
  }

  lemma {:induction false} InOrderIsSet(deleted: set<(nat, nat)>)
    ensures VersionEdits.SortedSet(InOrder(deleted))
    ensures forall d :: d in InOrder(deleted) <==> d in deleted
  {
    if deleted != {} {
      var d :| d in deleted && InOrder(deleted) == VersionEdits.InsertDeleted(InOrder(deleted - {d}), d);
      InOrderIsSet(deleted - {d});
      InsertKeepsSet(InOrder(deleted - {d}), d);
    }
  }

  /** The key comes back from its bytes, and they fit a length-prefixed string. */
  predicate KeySurvives(keyOf: Bytes -> InternalKey, bytesOf: InternalKey -> Bytes, k: InternalKey) {
    keyOf(bytesOf(k)) == k && VersionEdits.StorableKey(bytesOf(k))
  }

  /** So do the keys of the edit that are written: the bounds of its files. */
  predicate KeysSurvive(keyOf: Bytes -> InternalKey, bytesOf: InternalKey -> Bytes, files: seq<(nat, File)>) {
    forall i | 0 <= i < |files| ::
      KeySurvives(keyOf, bytesOf, files[i].1.smallest) && KeySurvives(keyOf, bytesOf, files[i].1.largest)
  }

  /** What is written stands for the edit, when its keys survive the way to bytes and back. */
  lemma WrittenStandsForEdit(keyOf: Bytes -> InternalKey, bytesOf: InternalKey -> Bytes, tables: map<nat, seq<Entry>>,
                             stamp: VersionEdits.Edit, e: VersionEdit)
    requires KeysSurvive(keyOf, bytesOf, e.newFiles) && AllKnown(tables, e.newFiles)
    ensures EditOf(keyOf, tables, WrittenEdit(bytesOf, stamp, e)) == e
  {
    InOrderIsSet(e.deletedFiles);
    var back := EditOf(keyOf, tables, WrittenEdit(bytesOf, stamp, e));
    assert back.deletedFiles == e.deletedFiles;
    forall i | 0 <= i < |e.newFiles|
      ensures back.newFiles[i] == e.newFiles[i]
    {
      assert FileKnown(tables, e.newFiles[i].1);
    }
  }

  predicate FileFits(f: File) {
    f.number < Coding.U64 && f.size < Coding.U64
  }

  /** Levels in range, numbers and sizes in 64 bits. */
  predicate EditFits(e: VersionEdit) {
    && e.Valid() && (forall d | d in e.deletedFiles :: d.1 < Coding.U64)
    && forall i | 0 <= i < |e.newFiles| :: FileFits(e.newFiles[i].1)
  }

  lemma {:induction false} DeletedStorable(ds: seq<(nat, nat)>)
    requires forall d | d in ds :: d.0 < NUM_LEVELS && d.1 < Coding.U64
    ensures forall f | f in VersionEdits.Deleted(ds) :: VersionEdits.StorableField(f)
    decreases |ds|
  {
    if ds != [] {
      DeletedStorable(ds[..|ds| - 1]);
    }
  }

  lemma {:induction false} NewStorable(keyOf: Bytes -> InternalKey, bytesOf: InternalKey -> Bytes,
                                       files: seq<(nat, File)>)
    requires KeysSurvive(keyOf, bytesOf, files)
    requires forall i | 0 <= i < |files| :: files[i].0 < NUM_LEVELS && FileFits(files[i].1)
    ensures forall f | f in VersionEdits.New(MetasOf(bytesOf, files)) :: VersionEdits.StorableField(f)
    decreases |files|
  {
    if files != [] {
      var n := |files| - 1;
      NewStorable(keyOf, bytesOf, files[..n]);
      assert MetasOf(bytesOf, files)[..n] == MetasOf(bytesOf, files[..n]);
    }
  }

  lemma WrittenIsStorable(keyOf: Bytes -> InternalKey, bytesOf: InternalKey -> Bytes, stamp: VersionEdits.Edit,
                          e: VersionEdit)
    requires EditFits(e) && VersionEdits.Storable(stamp) && KeysSurvive(keyOf, bytesOf, e.newFiles)
    ensures VersionEdits.Storable(WrittenEdit(bytesOf, stamp, e))
  {
    var w := WrittenEdit(bytesOf, stamp, e);
    InOrderIsSet(e.deletedFiles);
    DeletedStorable(w.deletedFiles);
    NewStorable(keyOf, bytesOf, e.newFiles);
    hide VersionEdits.StorableField, VersionEdits.Deleted, VersionEdits.New, VersionEdits.Pointers;
    var singles, pointers := VersionEdits.Singles(stamp), VersionEdits.Pointers(stamp.compactPointers);
    assert VersionEdits.Singles(w) == singles && w.compactPointers == stamp.compactPointers;
    hide VersionEdits.Singles;
    var before := VersionEdits.FieldsOf(stamp);
    forall f | f in VersionEdits.FieldsOf(w)
      ensures VersionEdits.StorableField(f)
    {
      if f in singles || f in pointers {
        assert f in before;
      }
    }
  }

  /** The stamps of a manifest: one per edit, with the name in the first and the numbers in the others. */
  ghost function WrittenAll(bytesOf: InternalKey -> Bytes, stamps: seq<VersionEdits.Edit>,
                            edits: seq<VersionEdit>): seq<VersionEdits.Edit>
    requires |stamps| == |edits|
  {
    seq(|edits|, i requires 0 <= i < |edits| => WrittenEdit(bytesOf, stamps[i], edits[i]))
  }

  /** The records that the code writes for a recording stand for its edits, whatever the stamps, when the keys that are
      written survive. */
  lemma WrittenManifest(keyOf: Bytes -> InternalKey, bytesOf: InternalKey -> Bytes, r: Recording,
                        stamps: seq<VersionEdits.Edit>, comparator: Bytes)
    requires forall i | 0 <= i < |WholeEdits(r)| :: KeysSurvive(keyOf, bytesOf, WholeEdits(r)[i].newFiles)
    requires TablesKnown(r) && |stamps| == |WholeEdits(r)| && Stamped(comparator, stamps)
    requires forall i | 0 <= i < |stamps| :: VersionEdits.Storable(stamps[i]) && EditFits(WholeEdits(r)[i])
    ensures Writes(keyOf, r, WrittenAll(bytesOf, stamps, WholeEdits(r)))
    ensures Stamped(comparator, WrittenAll(bytesOf, stamps, WholeEdits(r)))
  {
    var whole := WholeEdits(r);
    hide WholeEdits, VersionEdits.Storable, EditOf, KeysSurvive;
    forall i | 0 <= i < |stamps|
      ensures VersionEdits.Storable(WrittenEdit(bytesOf, stamps[i], whole[i]))
      ensures EditOf(keyOf, r.tables, WrittenEdit(bytesOf, stamps[i], whole[i])) == whole[i]
      ensures i > 0 ==> StampedEdit(WrittenEdit(bytesOf, stamps[i], whole[i]))
    {
      WrittenIsStorable(keyOf, bytesOf, stamps[i], whole[i]);
      WholeKnown(r, i);
      WrittenStandsForEdit(keyOf, bytesOf, r.tables, stamps[i], whole[i]);
    }
  }

  // ----- internal keys as bytes -----

  /** AppendInternalKey: the bytes of the user key, then sequence number and type packed into 64 bits. */
  function PackedKey(userBytes: UserKey -> Bytes, k: InternalKey): Bytes {
    userBytes(k.user) + Coding.EncodeFixed64(PackSequenceAndType(k.sequence, k.kind) % Coding.U64)
  }

  /** ParseInternalKey. */
  function ParseKey(userOf: Bytes -> UserKey, b: Bytes): Option<InternalKey> {
    if |b| < 8 then None
    else
      var n := |b| - 8;
      var num := Coding.DecodeFixed64(b[n..]);
      if num % 256 > 1 then None
      else Some(InternalKey(userOf(b[..n]), num / 256, if num % 256 == 1 then Value else Deletion))
  }

  const NO_KEY := InternalKey(0.0, 0, Deletion)

  /** The key that the bytes stand for. */
  function KeyFrom(userOf: Bytes -> UserKey, b: Bytes): InternalKey {
    var k := ParseKey(userOf, b);
    if k.Some? then k.value else NO_KEY
  }

  predicate UserSurvives(userOf: Bytes -> UserKey, userBytes: UserKey -> Bytes, u: UserKey) {
    userOf(userBytes(u)) == u && |userBytes(u)| + 8 < Coding.U32
  }

  /** An internal key survives when its user key does and its sequence number has 56 bits. */
  lemma PackedKeySurvives(userOf: Bytes -> UserKey, userBytes: UserKey -> Bytes, k: InternalKey)
    requires UserSurvives(userOf, userBytes, k.user) && k.sequence <= MAX_SEQUENCE
    ensures ParseKey(userOf, PackedKey(userBytes, k)) == Some(k)
    ensures KeySurvives(b => KeyFrom(userOf, b), k => PackedKey(userBytes, k), k)
  {
    hide Coding.EncodeFixed64, Coding.DecodeFixed64, PackSequenceAndType;
    PackedParts(k.sequence, k.kind);
    var num: Coding.u64 := PackSequenceAndType(k.sequence, k.kind);
    var user, tail := userBytes(k.user), Coding.EncodeFixed64(num);
    var b := user + tail;
    assert b[..|b| - 8] == user && b[|b| - 8..] == tail;
    Coding.Fixed64RoundTrip(num, []);
    assert tail + [] == tail;
  }

  lemma PackedParts(sequence: nat, kind: ValueType)
    requires sequence <= MAX_SEQUENCE
    ensures var num := PackSequenceAndType(sequence, kind);
            && num < Coding.U64 && num % Coding.U64 == num
            && num / 256 == sequence && num % 256 == if kind.Value? then 1 else 0
  {
  }

  function Place(users: seq<UserKey>, u: UserKey): nat {
    if users == [] || users[0] == u then 0 else 1 + Place(users[1..], u)
  }

  lemma {:induction false} PlaceFinds(users: seq<UserKey>, u: UserKey)
    requires u in users
    ensures Place(users, u) < |users| && users[Place(users, u)] == u
  {
    if users[0] != u {
      PlaceFinds(users[1..], u);
    }
  }

  function UserAt(users: seq<UserKey>, b: Bytes): UserKey {
    if |b| < 8 then 0.0
    else
      var n := Coding.DecodeFixed64(b);
      if n < |users| then users[n] else 0.0
  }

  /** The bytes of a listed user key: its place in the list. */
  function PlaceBytes(users: seq<UserKey>, u: UserKey): Bytes {
    Coding.EncodeFixed64(Place(users, u) % Coding.U64)
  }

  predicate BoundAmong(users: seq<UserKey>, k: InternalKey) {
    k.user in users && k.sequence <= MAX_SEQUENCE
  }

  /** The bounds of the files have listed user keys. */
  predicate BoundsAmong(users: seq<UserKey>, files: seq<(nat, File)>) {
    forall i | 0 <= i < |files| :: BoundAmong(users, files[i].1.smallest) && BoundAmong(users, files[i].1.largest)
  }

  function KeyIn(users: seq<UserKey>): Bytes -> InternalKey {
    b => KeyFrom(c => UserAt(users, c), b)
  }

  function BytesIn(users: seq<UserKey>): InternalKey -> Bytes {
    k => PackedKey(u => PlaceBytes(users, u), k)
  }

  lemma ListedKeySurvives(users: seq<UserKey>, k: InternalKey)
    requires BoundAmong(users, k) && |users| <= Coding.U64
    ensures KeySurvives(KeyIn(users), BytesIn(users), k)
  {
    PlaceFinds(users, k.user);
    var n: Coding.u64 := Place(users, k.user);
    assert n % Coding.U64 == n;
    Coding.Fixed64RoundTrip(n, []);
    assert Coding.EncodeFixed64(n) + [] == Coding.EncodeFixed64(n);
    var userOf: Bytes -> UserKey := c => UserAt(users, c);
    var userBytes: UserKey -> Bytes := u => PlaceBytes(users, u);
    PackedKeySurvives(userOf, userBytes, k);
    assert KeyIn(users)(BytesIn(users)(k)) == KeyFrom(userOf, PackedKey(userBytes, k));
  }

  /** For every recording there are bytes for its keys, and so a manifest that stands for it. */
  lemma SomeManifest(r: Recording, users: seq<UserKey>, stamps: seq<VersionEdits.Edit>, comparator: Bytes)
    requires forall i | 0 <= i < |WholeEdits(r)| :: BoundsAmong(users, WholeEdits(r)[i].newFiles)
    requires TablesKnown(r) && |stamps| == |WholeEdits(r)| && Stamped(comparator, stamps) && |users| <= Coding.U64
    requires forall i | 0 <= i < |stamps| :: VersionEdits.Storable(stamps[i]) && EditFits(WholeEdits(r)[i])
    ensures Writes(KeyIn(users), r, WrittenAll(BytesIn(users), stamps, WholeEdits(r)))
    ensures Stamped(comparator, WrittenAll(BytesIn(users), stamps, WholeEdits(r)))
  {
    hide WholeEdits, KeySurvives, VersionEdits.Storable, EditFits, TablesKnown, KeyIn, BytesIn, Writes, Stamped,
         WrittenAll;
    forall i | 0 <= i < |WholeEdits(r)|
      ensures KeysSurvive(KeyIn(users), BytesIn(users), WholeEdits(r)[i].newFiles)
    {
      var files := WholeEdits(r)[i].newFiles;
      assert BoundsAmong(users, files);
      forall x | 0 <= x < |files|
        ensures KeySurvives(KeyIn(users), BytesIn(users), files[x].1.smallest)
        ensures KeySurvives(KeyIn(users), BytesIn(users), files[x].1.largest)
      {
        ListedKeySurvives(users, files[x].1.smallest);
        ListedKeySurvives(users, files[x].1.largest);
      }
    }
    WrittenManifest(KeyIn(users), BytesIn(users), r, stamps, comparator);
  }

  lemma WholeKnown(r: Recording, i: nat)
    requires TablesKnown(r) && i < |WholeEdits(r)|
    ensures AllKnown(r.tables, WholeEdits(r)[i].newFiles)
  {
    if i == 0 {
      SnapshotKnown(r, |r.base|);
    } else {
      assert WholeEdits(r)[i] == r.edits[i - 1];
    }
  }

  lemma {:induction false} SnapshotKnown(r: Recording, n: nat)
    requires TablesKnown(r) && n <= |r.base|
    ensures AllKnown(r.tables, SnapshotFiles(r.base, n))
    decreases n
  {
    if n > 0 {
      SnapshotKnown(r, n - 1);
      KnownAt(r.tables, n - 1, r.base[n - 1]);
    }
  }

  // ----- recovery -----

  predicate LevelsInRange(e: VersionEdits.Edit) {
    && (forall i | 0 <= i < |e.deletedFiles| :: e.deletedFiles[i].0 < NUM_LEVELS)
    && (forall i | 0 <= i < |e.newFiles| :: e.newFiles[i].0 < NUM_LEVELS)
  }

  lemma {:induction false} InsertDeletedMembers(d: seq<(nat, nat)>, x: (nat, nat))
    ensures forall y | y in VersionEdits.InsertDeleted(d, x) :: y in d || y == x
  {
    if d != [] && !VersionEdits.Before(x, d[0]) && d[0] != x {
      InsertDeletedMembers(d[1..], x);
    }
  }

  lemma PayloadInRange(tag: nat, input: Bytes)
    ensures var f := VersionEdits.GetPayload(tag, input);
            f.Some? ==>
              && (f.value.0.DeletedFile? ==> f.value.0.level < NUM_LEVELS)
              && (f.value.0.NewFile? ==> f.value.0.level < NUM_LEVELS)
  {
  }

  lemma SetInRange(e: VersionEdits.Edit, f: VersionEdits.Field)
    requires LevelsInRange(e)
    requires (f.DeletedFile? ==> f.level < NUM_LEVELS) && (f.NewFile? ==> f.level < NUM_LEVELS)
    ensures LevelsInRange(VersionEdits.Set(e, f))
  {
    if f.DeletedFile? {
      InsertDeletedMembers(e.deletedFiles, (f.level, f.number));
      var after := VersionEdits.InsertDeleted(e.deletedFiles, (f.level, f.number));
      assert forall i | 0 <= i < |after| :: after[i] in after;
    }
  }

  /** DecodeFrom lets no level out of range through. */
  lemma {:induction false} DecodedInRange(e: VersionEdits.Edit, input: Bytes)
    requires LevelsInRange(e)
    ensures LevelsInRange(VersionEdits.DecodeInto(e, input).0)
    decreases |input|
  {
    hide VersionEdits.GetPayload, VersionEdits.Set, LevelsInRange;
    var tag := Coding.GetVarint32(input);
    if tag.Some? {
      var f := VersionEdits.GetPayload(tag.value.0, tag.value.1);
      PayloadInRange(tag.value.0, tag.value.1);
      if f.Some? {
        SetInRange(e, f.value.0);
        DecodedInRange(VersionEdits.Set(e, f.value.0), f.value.1);
      }
    }
  }

  /** What recovery keeps of the numbers in the edits: the last one of each kind. */
  datatype Numbers = Numbers(log: Option<nat>, prevLog: Option<nat>, nextFile: Option<nat>, lastSequence: Option<nat>)

  function Later(was: Option<nat>, now: Option<nat>): Option<nat> {
    if now.Some? then now else was
  }

  function Noted(n: Numbers, e: VersionEdits.Edit): Numbers {
    Numbers(Later(n.log, e.logNumber), Later(n.prevLog, e.prevLogNumber),
            Later(n.nextFile, e.nextFileNumber), Later(n.lastSequence, e.lastSequence))
  }

  function NotedAll(decoded: seq<(VersionEdits.Edit, bool)>): Numbers {
    if decoded == [] then Numbers(None, None, None, None)
    else Noted(NotedAll(decoded[..|decoded| - 1]), decoded[|decoded| - 1].0)
  }

  datatype Recovered = Recovered(levels: Levels, logNumber: nat, prevLogNumber: nat, nextFile: nat, lastSequence: nat)

  predicate Accepted(comparator: Bytes, d: (VersionEdits.Edit, bool)) {
    d.1 && (d.0.comparator.Some? ==> d.0.comparator.value == comparator)
  }

  predicate Complete(n: Numbers) {
    n.nextFile.Some? && n.log.Some? && n.lastSequence.Some?
  }

  ghost predicate AllSaved(edits: seq<VersionEdit>, levels: Levels) {
    && |levels| == NUM_LEVELS
    && forall k | 0 <= k < NUM_LEVELS :: Saved([], ApplyAll(LevelState({}, []), edits, k), levels[k])
  }

  /** The outcome of recovery for given records. None stands for every failure. */
  ghost predicate Outcome(keyOf: Bytes -> InternalKey, tables: map<nat, seq<Entry>>, comparator: Bytes,
                          decoded: seq<(VersionEdits.Edit, bool)>, drops: seq<nat>, r: Option<Recovered>) {
    var n := NotedAll(decoded);
    && (r.Some? <==> drops == [] && (forall i | 0 <= i < |decoded| :: Accepted(comparator, decoded[i])) && Complete(n))
    && (r.Some? ==>
          && r.value.nextFile == n.nextFile.value + 1 && r.value.logNumber == n.log.value
          && r.value.prevLogNumber == (if n.prevLog.Some? then n.prevLog.value else 0)
          && r.value.lastSequence == n.lastSequence.value
          && AllSaved(EditsOf(keyOf, tables, decoded), r.value.levels))
  }

  /** The builder has taken in the first i edits. */
  ghost predicate Fed(states: seq<LevelState>, edits: seq<VersionEdit>) {
    |states| == NUM_LEVELS && forall k | 0 <= k < NUM_LEVELS :: states[k] == ApplyAll(LevelState({}, []), edits, k)
  }

  lemma FedMore(was: seq<LevelState>, now: seq<LevelState>, edits: seq<VersionEdit>, edit: VersionEdit)
    requires Fed(was, edits) && |now| == NUM_LEVELS
    requires forall k | 0 <= k < NUM_LEVELS :: now[k] == ApplyAt(was[k], edit, k)
    ensures Fed(now, edits + [edit])
  {
    assert (edits + [edit])[..|edits|] == edits;
  }

  lemma NextDecoded(keyOf: Bytes -> InternalKey, tables: map<nat, seq<Entry>>, decoded: seq<(VersionEdits.Edit, bool)>,
                    i: nat)
    requires i < |decoded|
    ensures EditsOf(keyOf, tables, decoded[..i + 1]) ==
              EditsOf(keyOf, tables, decoded[..i]) + [EditOf(keyOf, tables, decoded[i].0)]
    ensures NotedAll(decoded[..i + 1]) == Noted(NotedAll(decoded[..i]), decoded[i].0)
  {
    assert decoded[..i + 1][..i] == decoded[..i];
  }

  lemma EditInRange(keyOf: Bytes -> InternalKey, tables: map<nat, seq<Entry>>, e: VersionEdits.Edit)
    requires LevelsInRange(e)
    ensures EditOf(keyOf, tables, e).Valid()
  {
  }

  lemma FreshInRange()
    ensures LevelsInRange(VersionEdits.FRESH)
  {
  }

  /** VersionSet::Recover on the bytes of the manifest that CURRENT names. */
  method Recover(crc: LogFormat.Checksum, keyOf: Bytes -> InternalKey, tables: map<nat, seq<Entry>>, comparator: Bytes,
                 file: Bytes)
    returns (r: Option<Recovered>)
    ensures Outcome(keyOf, tables, comparator, DecodedFrom(crc, file), DropsFrom(crc, file), r)
  {
    hide LogFormat.ReadAll, LogFormat.LayoutAll, LogFormat.Complete, VersionEdits.DecodeInto, ApplyAt, EditOf, EditsOf,
         Fed, LevelsInRange;
    var records, drops := LogFiles.ReadLog(crc, true, file);
    ghost var decoded := VersionEdits.DecodeRecords(records);
    var builder := new Builder(EMPTY);
    var numbers := Numbers(None, None, None, None);
    StartsFed(builder.levels);
    assert EditsOf(keyOf, tables, decoded[..0]) == [];
    for i := 0 to |records|
      invariant fresh(builder) && builder.Valid() && builder.base == EMPTY
      invariant Fed(builder.levels, EditsOf(keyOf, tables, decoded[..i])) && numbers == NotedAll(decoded[..i])
      invariant forall x | 0 <= x < i :: Accepted(comparator, decoded[x])
    {
      var edit := new VersionEdits.VersionEdit();
      VersionEdits.FreshIsCleared();
      var ok := edit.DecodeFrom(records[i]);
      if !ok || (edit.comparator.Some? && edit.comparator.value != comparator) {
        assert !Accepted(comparator, decoded[i]);
        return None;
      }
      var e := VersionEdits.Edit(edit.comparator, edit.logNumber, edit.prevLogNumber, edit.nextFileNumber,
                                 edit.lastSequence, edit.compactPointers, edit.deletedFiles, edit.newFiles);
      FreshInRange();
      DecodedInRange(VersionEdits.FRESH, records[i]);
      EditInRange(keyOf, tables, e);
      NextDecoded(keyOf, tables, decoded, i);
      ghost var was := builder.levels;
      builder.Apply(EditOf(keyOf, tables, e));
      FedMore(was, builder.levels, EditsOf(keyOf, tables, decoded[..i]), EditOf(keyOf, tables, e));
      numbers := Noted(numbers, e);
    }
    assert decoded[..|records|] == decoded;
    if drops != [] || !Complete(numbers) {
      return None;
    }
    var levels := builder.SaveTo();
    FedIsSaved(builder.levels, EditsOf(keyOf, tables, decoded), levels);
    r := Some(Recovered(levels, numbers.log.value, if numbers.prevLog.Some? then numbers.prevLog.value else 0,
                        numbers.nextFile.value + 1, numbers.lastSequence.value));
  }

  lemma StartsFed(states: seq<LevelState>)
    requires |states| == NUM_LEVELS && forall k | 0 <= k < NUM_LEVELS :: states[k] == LevelState({}, [])
    ensures Fed(states, [])
  {
  }

  lemma FedIsSaved(states: seq<LevelState>, edits: seq<VersionEdit>, levels: Levels)
    requires Fed(states, edits) && |levels| == NUM_LEVELS
    requires forall k | 0 <= k < NUM_LEVELS :: Saved(EMPTY[k], states[k], levels[k])
    ensures AllSaved(edits, levels)
  {
    forall k | 0 <= k < NUM_LEVELS
      ensures Saved([], ApplyAll(LevelState({}, []), edits, k), levels[k])
    {
      assert EMPTY[k] == [] && states[k] == ApplyAll(LevelState({}, []), edits, k);
    }
  }

  /** LogAndApply puts the numbers into every edit; the snapshot has the comparator's name alone. */
  predicate Stamped(comparator: Bytes, written: seq<VersionEdits.Edit>) {
    && written != [] && written[0].comparator == Some(comparator)
    && written[0].logNumber == written[0].prevLogNumber == written[0].nextFileNumber == written[0].lastSequence == None
    && forall i | 1 <= i < |written| :: StampedEdit(written[i])
  }

  predicate StampedEdit(e: VersionEdits.Edit) {
    e.comparator.None? && e.logNumber.Some? && e.prevLogNumber.Some? && e.nextFileNumber.Some? && e.lastSequence.Some?
  }

  lemma {:induction false} StampsNoted(comparator: Bytes, written: seq<VersionEdits.Edit>,
                                       decoded: seq<(VersionEdits.Edit, bool)>)
    requires Stamped(comparator, written) && FirstOf(written, decoded)
    ensures forall i | 0 <= i < |decoded| :: Accepted(comparator, decoded[i])
    ensures |decoded| <= |written| && (|decoded| < 2 ==> NotedAll(decoded) == Numbers(None, None, None, None))
    ensures |decoded| >= 2 ==>
              var e := written[|decoded| - 1];
              StampedEdit(e)
              && NotedAll(decoded) == Numbers(e.logNumber, e.prevLogNumber, e.nextFileNumber, e.lastSequence)
    decreases |decoded|
  {
    if decoded != [] {
      StampsNoted(comparator, written, decoded[..|decoded| - 1]);
    }
  }

  predicate NumbersFrom(e: VersionEdits.Edit, result: Recovered) {
    && e.nextFileNumber.Some? && result.nextFile == e.nextFileNumber.value + 1
    && Some(result.lastSequence) == e.lastSequence
    && Some(result.logNumber) == e.logNumber && Some(result.prevLogNumber) == e.prevLogNumber
  }

  /** With n whole records in the manifest, the snapshot included: the version after the last, and the numbers in it. */
  predicate RecoversWith(r: Recording, written: seq<VersionEdits.Edit>, n: nat, result: Option<Recovered>) {
    && n <= |written| == |r.versions|
    && (result.Some? <==> n >= 2)
    && (n >= 2 ==> result.value.levels == r.versions[n - 1] && NumbersFrom(written[n - 1], result.value))
  }

  /** Recovery from any byte prefix of the manifest succeeds exactly when the snapshot and one edit are whole in it,
      and then gives the version after the last whole edit and the numbers in that edit. */
  lemma RecoversLastVersion(crc: LogFormat.Checksum, keyOf: Bytes -> InternalKey, r: Recording, levels: Levels,
                            nextFile: nat, written: seq<VersionEdits.Edit>, comparator: Bytes, file: Bytes,
                            result: Option<Recovered>)
    requires Recorded(r, levels, nextFile) && Writes(keyOf, r, written) && Stamped(comparator, written)
    requires file <= Layout(crc, written)
    requires Outcome(keyOf, r.tables, comparator, DecodedFrom(crc, file), DropsFrom(crc, file), result)
    ensures RecoversWith(r, written, WholeRecords(crc, written, file), result)
  {
    hide *;
    PrefixDecodes(crc, keyOf, r, written, file);
    RecoversFirst(keyOf, r, levels, nextFile, written, comparator, WholeRecords(crc, written, file),
                  DecodedFrom(crc, file), DropsFrom(crc, file), result);
  }

  lemma RecoversFirst(keyOf: Bytes -> InternalKey, r: Recording, levels: Levels, nextFile: nat,
                      written: seq<VersionEdits.Edit>, comparator: Bytes, n: nat,
                      decoded: seq<(VersionEdits.Edit, bool)>, drops: seq<nat>, result: Option<Recovered>)
    requires Recorded(r, levels, nextFile) && Stamped(comparator, written) && FirstOf(written, decoded) && drops == []
    requires |decoded| == n <= |WholeEdits(r)| == |written| && EditsOf(keyOf, r.tables, decoded) == WholeEdits(r)[..n]
    requires Outcome(keyOf, r.tables, comparator, decoded, drops, result)
    ensures RecoversWith(r, written, n, result)
  {
    assert Shape(r, levels);
    hide *;
    ShapeCounts(r, levels);
    OutcomeOfPrefix(keyOf, r.tables, comparator, written, decoded, drops, result);
    if n >= 2 {
      SavedLevels(r, levels, nextFile, n, EditsOf(keyOf, r.tables, decoded), result.value.levels);
    }
    AssembleRecovers(r, written, n, result);
  }

  lemma AssembleRecovers(r: Recording, written: seq<VersionEdits.Edit>, n: nat, result: Option<Recovered>)
    requires n <= |written| == |r.versions| && (result.Some? <==> n >= 2)
    requires n >= 2 ==> result.value.levels == r.versions[n - 1] && NumbersFrom(written[n - 1], result.value)
    ensures RecoversWith(r, written, n, result)
  {
  }

  lemma OutcomeOfPrefix(keyOf: Bytes -> InternalKey, tables: map<nat, seq<Entry>>, comparator: Bytes,
                        written: seq<VersionEdits.Edit>, decoded: seq<(VersionEdits.Edit, bool)>, drops: seq<nat>,
                        result: Option<Recovered>)
    requires Stamped(comparator, written) && FirstOf(written, decoded) && drops == []
    requires Outcome(keyOf, tables, comparator, decoded, drops, result)
    ensures |decoded| <= |written| && (result.Some? <==> |decoded| >= 2)
    ensures |decoded| >= 2 ==>
              NumbersFrom(written[|decoded| - 1], result.value)
              && AllSaved(EditsOf(keyOf, tables, decoded), result.value.levels)
  {
    hide AllSaved, EditsOf, Stamped;
    StampsNoted(comparator, written, decoded);
  }

  lemma SavedLevels(r: Recording, levels: Levels, nextFile: nat, n: nat, edits: seq<VersionEdit>, recovered: Levels)
    requires Recorded(r, levels, nextFile) && 0 < n <= |r.edits| + 1
    requires n <= |WholeEdits(r)| && edits == WholeEdits(r)[..n] && AllSaved(edits, recovered)
    ensures |r.versions| == |r.edits| + 1 && recovered == r.versions[n - 1]
  {
    assert Shape(r, levels) && |recovered| == NUM_LEVELS;
    ShapeVersions(r, levels);
    hide Recorded, WholeEdits, Saved, Shape;
    ShapeCounts(r, levels);
    forall k | 0 <= k < NUM_LEVELS
      ensures recovered[k] == r.versions[n - 1][k]
    {
      ReplayRebuilds(r, levels, nextFile, n, k, recovered[k]);
    }
    assert |r.versions[n - 1]| == NUM_LEVELS;
  }

  /** Recovery from the whole manifest gives the current version. */
  lemma RecoversCurrentVersion(crc: LogFormat.Checksum, keyOf: Bytes -> InternalKey, r: Recording, levels: Levels,
                               nextFile: nat, written: seq<VersionEdits.Edit>, comparator: Bytes,
                               result: Option<Recovered>)
    requires Recorded(r, levels, nextFile) && Writes(keyOf, r, written) && Stamped(comparator, written) && r.edits != []
    requires var file := Layout(crc, written);
             Outcome(keyOf, r.tables, comparator, DecodedFrom(crc, file), DropsFrom(crc, file), result)
    ensures result.Some? && result.value.levels == levels && NumbersFrom(written[|written| - 1], result.value)
  {
    assert Shape(r, levels);
    assert r.versions[|r.edits|] == levels;
    hide *;
    var file := Layout(crc, written);
    RecoversLastVersion(crc, keyOf, r, levels, nextFile, written, comparator, file, result);
    AllRecordsWhole(crc, keyOf, r, written);
    ShapeCounts(r, levels);
    WrittenCount(keyOf, r, written);
    RecoversAll(r, written, result);
  }

  lemma WrittenCount(keyOf: Bytes -> InternalKey, r: Recording, written: seq<VersionEdits.Edit>)
    requires Writes(keyOf, r, written)
    ensures |written| == |WholeEdits(r)|
  {
  }

  lemma RecoversAll(r: Recording, written: seq<VersionEdits.Edit>, result: Option<Recovered>)
    requires RecoversWith(r, written, |written|, result) && |written| >= 2
    ensures result.Some? && |r.versions| == |written| && result.value.levels == r.versions[|written| - 1]
    ensures NumbersFrom(written[|written| - 1], result.value)
  {
  }

  lemma AllRecordsWhole(crc: LogFormat.Checksum, keyOf: Bytes -> InternalKey, r: Recording,
                        written: seq<VersionEdits.Edit>)
    requires Writes(keyOf, r, written)
    ensures WholeRecords(crc, written, Layout(crc, written)) == |written|
  {
    hide *;
    PrefixDecodes(crc, keyOf, r, written, Layout(crc, written));
    WholeDecodes(crc, written);
  }

  lemma WholeDecodes(crc: LogFormat.Checksum, written: seq<VersionEdits.Edit>)
    ensures |DecodedFrom(crc, Layout(crc, written))| == |written|
  {
    hide LogFormat.ReadAll, LogFormat.LayoutAll;
    LogFormat.LogReadsBack(crc, true, VersionEdits.Records(written));
  }

  // ----- the counters in the edits -----

  /** next_file_number_ and last_sequence_ of the version set. */
  datatype Counters = Counters(nextFile: nat, lastSequence: nat)

  /** The version is in order, with its file numbers below the one counter and its sequence numbers within the other. */
  ghost predicate Bounded(levels: Levels, c: Counters) {
    VersionInv(levels, c.nextFile) && SequencesUpTo(From(levels, 0), c.lastSequence)
  }

  ghost predicate Counted(versions: seq<Levels>, counters: seq<Counters>) {
    |versions| == |counters| && forall i | 0 <= i < |versions| :: Bounded(versions[i], counters[i])
  }

  /** A recording, and the counters when each of its versions was logged. */
  datatype Journal = Journal(recording: Recording, counters: seq<Counters>)

  ghost predicate Journaled(j: Journal, levels: Levels, nextFile: nat) {
    Recorded(j.recording, levels, nextFile) && Counted(j.recording.versions, j.counters)
  }

  /** LogAndApply sets both counters in the edit that leads to a version. */
  predicate StampedAt(counters: seq<Counters>, written: seq<VersionEdits.Edit>) {
    |written| == |counters| && forall i | 1 <= i < |written| :: StampedWith(counters[i], written[i])
  }

  predicate StampedWith(c: Counters, e: VersionEdits.Edit) {
    e.nextFileNumber == Some(c.nextFile) && e.lastSequence == Some(c.lastSequence)
  }

  /** The recovered version is in order with the recovered counters: no file of it has a number that will be handed out
      again, and no entry of it a sequence number above the last one. */
  lemma RecoversInOrder(crc: LogFormat.Checksum, keyOf: Bytes -> InternalKey, j: Journal, levels: Levels, nextFile: nat,
                        written: seq<VersionEdits.Edit>, comparator: Bytes, file: Bytes, result: Option<Recovered>)
    requires Journaled(j, levels, nextFile) && Writes(keyOf, j.recording, written)
    requires Stamped(comparator, written) && StampedAt(j.counters, written) && file <= Layout(crc, written)
    requires Outcome(keyOf, j.recording.tables, comparator, DecodedFrom(crc, file), DropsFrom(crc, file), result)
    ensures result.Some? ==>
              Bounded(result.value.levels, Counters(result.value.nextFile, result.value.lastSequence))
  {
    assert Recorded(j.recording, levels, nextFile) && Counted(j.recording.versions, j.counters);
    hide *;
    RecoversLastVersion(crc, keyOf, j.recording, levels, nextFile, written, comparator, file, result);
    RecoveredBounds(j, written, WholeRecords(crc, written, file), result);
  }

  lemma RecoveredBounds(j: Journal, written: seq<VersionEdits.Edit>, n: nat, result: Option<Recovered>)
    requires RecoversWith(j.recording, written, n, result)
    requires Counted(j.recording.versions, j.counters) && StampedAt(j.counters, written)
    ensures result.Some? ==>
              Bounded(result.value.levels, Counters(result.value.nextFile, result.value.lastSequence))
  {
    hide Bounded;
    if result.Some? {
      var c := j.counters[n - 1];
      assert Bounded(j.recording.versions[n - 1], c) && StampedWith(c, written[n - 1]);
      OneNumberMore(result.value.levels, c);
    }
  }

  lemma OneNumberMore(levels: Levels, c: Counters)
    requires Bounded(levels, c)
    ensures Bounded(levels, c.(nextFile := c.nextFile + 1))
  {
    hide WellFormed, AllSorted, From;
  }
}
