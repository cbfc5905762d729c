/** The storage engine as an object (db_impl.cc): memtables, levels, snapshots and sequence numbers, and the
    plain multi-version map `history` that it must be indistinguishable from. */
module Engine {
  import opened Wrappers
  import opened InternalKeys
  import opened MultiVersion
  import opened Tables
  import opened Lookup
  import opened Inputs
  import opened VersionBuilder
  import opened LevelSteps
  import opened DropLoop

  // ----- sorted insertion: the memtable, and the merged input of a compaction -----

  function InsertEntry(es: seq<Entry>, e: Entry): seq<Entry> {
    if es == [] || Before(e.key, es[0].key) then [e] + es
    else if es[0].key == e.key then es
    else [es[0]] + InsertEntry(es[1..], e)
  }

  lemma {:induction false} InsertEntrySorted(es: seq<Entry>, e: Entry)
    requires Sorted(es) && forall x | x in es && x.key == e.key :: x == e
    ensures Sorted(InsertEntry(es, e))
    ensures forall x :: x in InsertEntry(es, e) <==> x in es || x == e
  {
    if es == [] || Before(e.key, es[0].key) {
    } else if es[0].key == e.key {
      assert es[0] in es;
    } else {
      assert forall x | x in es :: x == es[0] || x in es[1..];
      assert forall x | x in es[1..] :: x in es && Before(es[0].key, x.key);
      InsertEntrySorted(es[1..], e);
      FrontSorted(es[0], InsertEntry(es[1..], e));
    }
  }

  lemma FrontSorted(first: Entry, rest: seq<Entry>)
    requires Sorted(rest) && forall x | x in rest :: Before(first.key, x.key)
    ensures Sorted([first] + rest)
  {
  }

  /** The merging iterator over the inputs: every entry of every file, in internal key order. */
  function MergeEntries(es: seq<Entry>, more: seq<Entry>): seq<Entry> {
    if more == [] then es else InsertEntry(MergeEntries(es, more[..|more| - 1]), more[|more| - 1])
  }

  function MergeFiles(files: seq<File>): seq<Entry> {
    if files == [] then [] else MergeEntries(MergeFiles(files[..|files| - 1]), files[|files| - 1].entries)
  }

  lemma {:induction false} MergeEntriesSorted(es: seq<Entry>, more: seq<Entry>, all: set<Entry>)
    requires Sorted(es) && OneEntryPerKey(all) && Contents(es) <= all && Contents(more) <= all
    ensures Sorted(MergeEntries(es, more))
    ensures Contents(MergeEntries(es, more)) == Contents(es) + Contents(more)
    decreases |more|
  {
    if more != [] {
      var n := |more| - 1;
      MergeEntriesSorted(es, more[..n], all);
      LastOf(more, n);
      MergeOneMore(MergeEntries(es, more[..n]), more[n], all);
    }
  }

  lemma LastOf(more: seq<Entry>, n: nat)
    requires |more| == n + 1
    ensures Contents(more) == Contents(more[..n]) + {more[n]} && more[n] in Contents(more)
    ensures Contents(more[..n]) <= Contents(more)
  {
    assert more == more[..n] + [more[n]];
  }

  lemma MergeOneMore(es: seq<Entry>, e: Entry, all: set<Entry>)
    requires Sorted(es) && OneEntryPerKey(all) && Contents(es) <= all && e in all
    ensures Sorted(InsertEntry(es, e)) && Contents(InsertEntry(es, e)) == Contents(es) + {e}
  {
    assert forall x | x in es :: x in Contents(es);
    InsertEntrySorted(es, e);
  }

  ghost predicate OneEntryPerKey(S: set<Entry>) {
    forall e, e' | e in S && e' in S && e.key == e'.key :: e == e'
  }

  lemma {:induction false} MergeFilesSorted(files: seq<File>)
    requires OneEntryPerKey(EntriesOf(files))
    ensures Sorted(MergeFiles(files))
    ensures Contents(MergeFiles(files)) == EntriesOf(files)
    decreases |files|
  {
    if files != [] {
      var n := |files| - 1;
      assert files == files[..n] + [files[n]];
      EntriesOfConcat(files[..n], [files[n]]);
      assert EntriesOf([files[n]]) == Contents(files[n].entries);
      MergeFilesSorted(files[..n]);
      MergeEntriesSorted(MergeFiles(files[..n]), files[n].entries, EntriesOf(files));
    }
  }

  // ----- output files -----

  /** The runs written by the compaction, as files with consecutive new numbers. */
  function NumberRuns(runs: seq<seq<Entry>>, sizes: nat -> nat, number: nat): seq<File>
    requires NonEmptyRuns(runs)
  {
    seq(|runs|, i requires 0 <= i < |runs| =>
      File(number + i, sizes(i), runs[i][0].key, runs[i][|runs[i]| - 1].key, runs[i]))
  }

  lemma {:induction false} FlattenParts(runs: seq<seq<Entry>>)
    requires Sorted(Flatten(runs))
    ensures forall i | 0 <= i < |runs| :: Sorted(runs[i])
    ensures forall i, k, a, b | 0 <= i < k < |runs| && a in runs[i] && b in runs[k] :: Before(a.key, b.key)
    ensures forall e :: e in Flatten(runs) <==> exists i :: 0 <= i < |runs| && e in runs[i]
    decreases |runs|
  {
    if runs != [] {
      var n := |runs| - 1;
      var front, last := Flatten(runs[..n]), runs[n];
      assert Flatten(runs) == front + last && runs == runs[..n] + [last];
      ConcatSorted(front, last);
      FlattenParts(runs[..n]);
      hide *;
      PartsMore(runs[..n], last, front);
    }
  }

  lemma ConcatSorted(front: seq<Entry>, last: seq<Entry>)
    requires Sorted(front + last)
    ensures Sorted(front) && Sorted(last)
  {
    var all := front + last;
    assert forall i | 0 <= i < |front| :: all[i] == front[i];
    assert forall i | 0 <= i < |last| :: all[|front| + i] == last[i];
  }

  lemma PartsMore(runs: seq<seq<Entry>>, last: seq<Entry>, front: seq<Entry>)
    requires Sorted(front + last) && Sorted(last)
    requires forall i | 0 <= i < |runs| :: Sorted(runs[i])
    requires forall i, k, a, b | 0 <= i < k < |runs| && a in runs[i] && b in runs[k] :: Before(a.key, b.key)
    requires forall e :: e in front <==> exists i :: 0 <= i < |runs| && e in runs[i]
    ensures var more := runs + [last];
            && (forall i | 0 <= i < |more| :: Sorted(more[i]))
            && (forall i, k, a, b | 0 <= i < k < |more| && a in more[i] && b in more[k] :: Before(a.key, b.key))
            && forall e :: e in front + last <==> exists i :: 0 <= i < |more| && e in more[i]
  {
    hide Sorted, Before;
    var more := runs + [last];
    forall a, b | a in front && b in last
      ensures Before(a.key, b.key)
    {
      SplitSorted(front, last, a, b);
    }
    forall e | e in front + last
      ensures exists i :: 0 <= i < |more| && e in more[i]
    {
      if e in last {
        assert e in more[|runs|];
      } else {
        var i :| 0 <= i < |runs| && e in runs[i];
        assert e in more[i];
      }
    }
  }

  lemma SplitSorted(front: seq<Entry>, last: seq<Entry>, a: Entry, b: Entry)
    requires Sorted(front + last) && a in front && b in last
    ensures Before(a.key, b.key)
  {
    var i :| 0 <= i < |front| && front[i] == a;
    var k :| 0 <= k < |last| && last[k] == b;
    assert (front + last)[i] == a && (front + last)[|front| + k] == b;
  }

  lemma OutputsAreGood(runs: seq<seq<Entry>>, sizes: nat -> nat, number: nat, kept: seq<Entry>, j: Job)
    requires NonEmptyRuns(runs) && Flatten(runs) == kept && Sorted(kept)
    requires SequencesFit(kept) && Contents(kept) <= InputEntries(j)
    requires j.outputs == NumberRuns(runs, sizes, number)
    ensures GoodOutputs(j)
    ensures EntriesOf(j.outputs) == Contents(kept)
    ensures GoodOutputNumbers(j, number, number + |runs|)
  {
    FlattenParts(runs);
    OutputEntries(runs, sizes, number, kept);
    hide *;
    forall f | f in j.outputs
      ensures f.Valid()
      ensures forall e | e in f.entries :: e in InputEntries(j)
    {
      OutputFileValid(runs, sizes, number, kept, f);
    }
    forall f, g | f in j.outputs && g in j.outputs && f != g
      ensures Apart(f, g)
    {
      OutputFilesApart(runs, sizes, number, f, g);
    }
    AssembleOutputs(j);
    OutputNumbers(runs, sizes, number, j);
  }

  lemma AssembleOutputs(j: Job)
    requires forall f | f in j.outputs :: f.Valid() && forall e | e in f.entries :: e in InputEntries(j)
    requires forall f, g | f in j.outputs && g in j.outputs && f != g :: Apart(f, g)
    ensures GoodOutputs(j)
  {
  }

  lemma OutputNumbers(runs: seq<seq<Entry>>, sizes: nat -> nat, number: nat, j: Job)
    requires NonEmptyRuns(runs) && j.outputs == NumberRuns(runs, sizes, number)
    ensures GoodOutputNumbers(j, number, number + |runs|)
  {
  }

  lemma OutputFileValid(runs: seq<seq<Entry>>, sizes: nat -> nat, number: nat, kept: seq<Entry>, f: File)
    requires NonEmptyRuns(runs) && Flatten(runs) == kept && Sorted(kept) && SequencesFit(kept)
    requires f in NumberRuns(runs, sizes, number)
    ensures f.Valid() && forall e | e in f.entries :: e in Contents(kept)
  {
    FlattenParts(runs);
    var i :| 0 <= i < |runs| && NumberRuns(runs, sizes, number)[i] == f;
    RunIsFile(runs, sizes, number, kept, i);
  }

  lemma OutputFilesApart(runs: seq<seq<Entry>>, sizes: nat -> nat, number: nat, f: File, g: File)
    requires NonEmptyRuns(runs) && Sorted(Flatten(runs))
    requires f in NumberRuns(runs, sizes, number) && g in NumberRuns(runs, sizes, number) && f != g
    ensures Apart(f, g)
  {
    var i :| 0 <= i < |runs| && NumberRuns(runs, sizes, number)[i] == f;
    var k :| 0 <= k < |runs| && NumberRuns(runs, sizes, number)[k] == g;
    if i < k {
      RunsInOrder(runs, i, k);
    } else {
      RunsInOrder(runs, k, i);
    }
  }

  lemma RunsInOrder(runs: seq<seq<Entry>>, i: nat, k: nat)
    requires NonEmptyRuns(runs) && Sorted(Flatten(runs)) && i < k < |runs|
    ensures Before(runs[i][|runs[i]| - 1].key, runs[k][0].key)
  {
    RunEnds(runs[i]);
    RunEnds(runs[k]);
    FlattenParts(runs);
  }

  lemma RunIsFile(runs: seq<seq<Entry>>, sizes: nat -> nat, number: nat, kept: seq<Entry>, i: nat)
    requires NonEmptyRuns(runs) && i < |runs| && Sorted(runs[i]) && SequencesFit(kept)
    requires forall e | e in runs[i] :: e in kept
    ensures NumberRuns(runs, sizes, number)[i].Valid() && NumberRuns(runs, sizes, number)[i].entries == runs[i]
  {
    RunEnds(runs[i]);
  }

  lemma OutputEntries(runs: seq<seq<Entry>>, sizes: nat -> nat, number: nat, kept: seq<Entry>)
    requires NonEmptyRuns(runs)
    requires forall e :: e in kept <==> exists i :: 0 <= i < |runs| && e in runs[i]
    ensures EntriesOf(NumberRuns(runs, sizes, number)) == Contents(kept)
  {
    var outs := NumberRuns(runs, sizes, number);
    forall e | e in EntriesOf(outs)
      ensures e in kept
    {
      var f :| f in outs && e in f.entries;
      var i :| 0 <= i < |outs| && outs[i] == f;
      assert e in runs[i];
    }
    forall e | e in kept
      ensures e in EntriesOf(outs)
    {
      var i :| 0 <= i < |runs| && e in runs[i];
      assert outs[i] in outs && e in outs[i].entries;
    }
  }

  lemma RunEnds(run: seq<Entry>)
    requires run != []
    ensures run[0] in run && run[|run| - 1] in run
  {
  }

  // ----- version edits of the three background steps -----

  function FlushEdit(level: nat, f: File): VersionEdit {
    VersionEdit({}, [(level, f)])
  }

  ghost predicate AppliedTo(levels: Levels, edit: VersionEdit, levels': Levels) {
    && |levels| == |levels'| == NUM_LEVELS
    && forall k | 0 <= k < NUM_LEVELS :: Saved(levels[k], ApplyAt(LevelState({}, []), edit, k), levels'[k])
  }

  lemma FlushState(level: nat, f: File, k: nat)
    ensures ApplyAt(LevelState({}, []), FlushEdit(level, f), k) ==
              if k == level then LevelState({}, [f]) else LevelState({}, [])
  {
    var edit := FlushEdit(level, f);
    assert edit.newFiles[..0] == [];
    AddFilesSnoc(LevelState({}, []), [], f);
    assert {} - {f.number} == {};
    assert {} + DeletedAt({}, k) == {};
    FilesAtNext(edit.newFiles, 0);
    assert edit.newFiles[..1] == edit.newFiles && [] + [f] == [f];
    assert FilesAt(edit.newFiles, k) == if k == level then [f] else [];
  }

  lemma FlushEditFlushes(levels: Levels, level: nat, f: File, levels': Levels)
    requires AllSorted(levels) && level < NUM_LEVELS && AppliedTo(levels, FlushEdit(level, f), levels')
    ensures Flushed(levels, level, f, levels')
  {
    forall k | 0 <= k < NUM_LEVELS
      ensures Saved(levels[k], if k == level then LevelState({}, [f]) else LevelState({}, []), levels'[k])
    {
      FlushState(level, f, k);
    }
    hide ApplyAt, FlushEdit, AppliedTo;
    forall k | 0 <= k < NUM_LEVELS && k != level
      ensures levels'[k] == levels[k]
    {
      SavedUnchanged(levels[k], levels'[k]);
    }
    assert Saved(levels[level], LevelState({}, [f]), levels'[level]);
  }

  function InputDeletions(level: nat, inputs: seq<File>): set<(nat, nat)> {
    set f | f in inputs :: (level, f.number)
  }

  function AllAt(level: nat, files: seq<File>): seq<(nat, File)> {
    seq(|files|, i requires 0 <= i < |files| => (level, files[i]))
  }

  /** AddInputDeletions plus the outputs (InstallCompactionResults), or the moved file. */
  function CompactionEdit(j: Job): VersionEdit {
    VersionEdit(InputDeletions(j.level, j.inputs0) + InputDeletions(j.level + 1, j.inputs1),
                AllAt(j.level + 1, j.outputs))
  }

  lemma {:induction false} FilesAtAll(level: nat, files: seq<File>, k: nat)
    ensures FilesAt(AllAt(level, files), k) == if k == level then files else []
    decreases |files|
  {
    if files != [] {
      var n := |files| - 1;
      FilesAtAll(level, files[..n], k);
      assert AllAt(level, files)[..n] == AllAt(level, files[..n]);
      assert files == files[..n] + [files[n]];
    }
  }

  lemma CompactionDeletions(j: Job, k: nat)
    ensures DeletedAt(CompactionEdit(j).deletedFiles, k) ==
              if k == j.level then NumbersOf(j.inputs0) else if k == j.level + 1 then NumbersOf(j.inputs1) else {}
  {
    var del := CompactionEdit(j).deletedFiles;
    if k == j.level {
      assert forall f | f in j.inputs0 :: (k, f.number) in del;
    } else if k == j.level + 1 {
      assert forall f | f in j.inputs1 :: (k, f.number) in del;
    }
  }

  lemma CompactionState(j: Job, k: nat)
    requires DistinctFileNumbers(j.outputs)
    ensures var s := ApplyAt(LevelState({}, []), CompactionEdit(j), k);
            && FilesSorted(s.added)
            && (k == j.level + 1 ==>
                  && s.deleted == NumbersOf(j.inputs1) - NumbersOf(j.outputs)
                  && forall f :: f in s.added <==> f in j.outputs)
            && (k == j.level ==> s == LevelState(NumbersOf(j.inputs0), []))
            && (k != j.level && k != j.level + 1 ==> s == LevelState({}, []))
  {
    FilesAtAll(j.level + 1, j.outputs, k);
    CompactionDeletions(j, k);
    var deleted := DeletedAt(CompactionEdit(j).deletedFiles, k);
    assert {} + deleted == deleted;
    assert CompactionEdit(j).newFiles == AllAt(j.level + 1, j.outputs);
    hide InputDeletions, DeletedAt, CompactionEdit, DistinctFileNumbers, AllAt;
    if k == j.level + 1 {
      AddedOutputs(deleted, j.outputs);
    }
  }

  lemma AddedOutputs(deleted: set<nat>, outputs: seq<File>)
    requires DistinctFileNumbers(outputs)
    ensures var s := AddFiles(LevelState(deleted, []), outputs);
            && FilesSorted(s.added) && s.deleted == deleted - NumbersOf(outputs)
            && forall f :: f in s.added <==> f in outputs
  {
    AddFilesMembers(LevelState(deleted, []), outputs);
  }

  ghost predicate NumberedApart(fs: seq<File>, files: seq<File>) {
    forall f, g | f in fs && g in files :: f.number != g.number
  }

  lemma ConsumedByNumber(fs: seq<File>, inputs: seq<File>)
    requires forall f, g | f in fs && g in fs && f.number == g.number :: f == g
    requires forall f | f in inputs :: f in fs
    ensures forall f | f in fs :: f.number in NumbersOf(inputs) <==> f in inputs
  {
  }

  lemma SavedWithout(base: seq<File>, inputs: seq<File>, r: seq<File>)
    requires forall f, g | f in base && g in base && f.number == g.number :: f == g
    requires forall f | f in inputs :: f in base
    requires Saved(base, LevelState(NumbersOf(inputs), []), r)
    ensures forall f :: f in r <==> f in base && f !in inputs
  {
    ConsumedByNumber(base, inputs);
    hide NumbersOf;
  }

  lemma SavedReplacing(base: seq<File>, inputs: seq<File>, outputs: seq<File>, s: LevelState, r: seq<File>)
    requires forall f, g | f in base && g in base && f.number == g.number :: f == g
    requires forall f | f in inputs :: f in base
    requires NumberedApart(base, outputs)
    requires s.deleted == NumbersOf(inputs) - NumbersOf(outputs) && forall f :: f in s.added <==> f in outputs
    requires Saved(base, s, r)
    ensures forall f :: f in r <==> (f in base && f !in inputs) || f in outputs
  {
    ConsumedByNumber(base, inputs);
    assert forall f | f in outputs :: f.number in NumbersOf(outputs);
    assert forall f | f in base :: f.number !in NumbersOf(outputs);
    hide NumbersOf, NumberedApart;
  }

  lemma CompactionEditCompacts(levels: Levels, j: Job, levels': Levels, nextFile: nat)
    requires AllSorted(levels) && UniqueNumbers(levels, nextFile) && GoodJob(levels, j)
    requires DistinctFileNumbers(j.outputs) && NumberedApart(levels[j.level + 1], j.outputs)
    requires AppliedTo(levels, CompactionEdit(j), levels')
    ensures Compacted(levels, j, levels')
  {
    hide *;
    JobInRange(levels, j);
    AppliedIsSorted(levels, CompactionEdit(j), levels');
    EditedLevel(levels, j, levels', nextFile);
    EditedNextLevel(levels, j, levels', nextFile);
    forall k: nat | k < NUM_LEVELS && k != j.level && k != j.level + 1
      ensures levels'[k] == levels[k]
    {
      OtherLevel(levels, j, levels', k);
    }
    AssembleCompacted(levels, j, levels');
  }

  lemma JobInRange(levels: Levels, j: Job)
    requires GoodJob(levels, j)
    ensures |levels| == NUM_LEVELS && j.level + 1 < NUM_LEVELS
  {
  }

  lemma AssembleCompacted(levels: Levels, j: Job, levels': Levels)
    requires GoodJob(levels, j) && |levels| == |levels'| == NUM_LEVELS && j.level + 1 < NUM_LEVELS && AllSorted(levels')
    requires forall k: nat | k < NUM_LEVELS && k != j.level && k != j.level + 1 :: levels'[k] == levels[k]
    requires forall f :: f in levels'[j.level] <==> f in levels[j.level] && f !in j.inputs0
    requires forall f :: f in levels'[j.level + 1] <==> (f in levels[j.level + 1] && f !in j.inputs1) || f in j.outputs
    ensures Compacted(levels, j, levels')
  {
    hide GoodJob, AllSorted;
  }

  lemma AppliedIsSorted(levels: Levels, edit: VersionEdit, levels': Levels)
    requires AppliedTo(levels, edit, levels')
    ensures AllSorted(levels') && |levels'| == NUM_LEVELS
  {
    assert forall k | 0 <= k < NUM_LEVELS :: Saved(levels[k], ApplyAt(LevelState({}, []), edit, k), levels'[k]);
  }

  lemma OtherLevel(levels: Levels, j: Job, levels': Levels, k: nat)
    requires AllSorted(levels) && DistinctFileNumbers(j.outputs) && AppliedTo(levels, CompactionEdit(j), levels')
    requires k < NUM_LEVELS && k != j.level && k != j.level + 1
    ensures |levels| == |levels'| == NUM_LEVELS && levels'[k] == levels[k]
  {
    hide ApplyAt, CompactionEdit;
    CompactionState(j, k);
    SavedUnchanged(levels[k], levels'[k]);
  }

  lemma EditedLevel(levels: Levels, j: Job, levels': Levels, nextFile: nat)
    requires UniqueNumbers(levels, nextFile) && GoodJob(levels, j)
    requires DistinctFileNumbers(j.outputs) && AppliedTo(levels, CompactionEdit(j), levels')
    ensures |levels| == |levels'| == NUM_LEVELS
    ensures forall f :: f in levels'[j.level] <==> f in levels[j.level] && f !in j.inputs0
  {
    hide ApplyAt, CompactionEdit;
    CompactionState(j, j.level);
    SavedWithout(levels[j.level], j.inputs0, levels'[j.level]);
  }

  lemma EditedNextLevel(levels: Levels, j: Job, levels': Levels, nextFile: nat)
    requires UniqueNumbers(levels, nextFile) && GoodJob(levels, j)
    requires DistinctFileNumbers(j.outputs) && NumberedApart(levels[j.level + 1], j.outputs)
    requires AppliedTo(levels, CompactionEdit(j), levels')
    ensures |levels| == |levels'| == NUM_LEVELS
    ensures forall f :: f in levels'[j.level + 1] <==> (f in levels[j.level + 1] && f !in j.inputs1) || f in j.outputs
  {
    hide ApplyAt, CompactionEdit;
    SelectMembers(levels[j.level + 1], Some(j.low.user), Some(j.high.user));
    CompactionState(j, j.level + 1);
    SavedReplacing(levels[j.level + 1], j.inputs1, j.outputs,
                   ApplyAt(LevelState({}, []), CompactionEdit(j), j.level + 1), levels'[j.level + 1]);
  }

  lemma SavedUnchanged(base: seq<File>, r: seq<File>)
    requires FilesSorted(base) && Saved(base, LevelState({}, []), r)
    ensures r == base
  {
    SortedFilesUnique(r, base);
  }
}
