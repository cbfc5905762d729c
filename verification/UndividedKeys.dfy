/** When no key can be brought back: as long as no two files of a level below 0 share a user key. Flushes and moves
    keep it so, and so does a compaction that runs while no live snapshot is older than the last write. */
module UndividedKeys {
  import opened Wrappers
  import opened InternalKeys
  import opened MultiVersion
  import opened Tables
  import opened Lookup
  import opened Inputs
  import opened LevelSteps
  import opened DropLoop
  import opened CompactionReads

  ghost predicate LevelUndivided(fs: seq<File>) {
    forall f, g | f in fs && g in fs && f != g :: !UserOverlap(f, g)
  }

  ghost predicate Undivided(levels: Levels) {
    forall k | 1 <= k < |levels| :: LevelUndivided(levels[k])
  }

  /** In such a version no compaction brings anything back. */
  lemma UndividedLosesNothing(levels: Levels, j: Job, top: set<Entry>, smallestSnapshot: nat)
    requires WellFormed(levels) && GoodJob(levels, j) && Undivided(levels)
    ensures KeysBroughtBack(levels, j, top, smallestSnapshot) == {}
  {
    assert j.level + 1 < |levels|;
    hide *;
    forall u: UserKey
      ensures u !in KeysBroughtBack(levels, j, top, smallestSnapshot)
    {
      NotBroughtBack(levels, j, top, smallestSnapshot, u);
      BroughtBackIffMember(levels, j, top, smallestSnapshot, u);
    }
  }

  lemma NotBroughtBack(levels: Levels, j: Job, top: set<Entry>, smallestSnapshot: nat, u: UserKey)
    requires WellFormed(levels) && GoodJob(levels, j) && Undivided(levels)
    ensures !BringsKeyBack(levels, j, top, smallestSnapshot, u)
  {
    hide WellFormed, Undivided, BringsBack;
    if g :| BringsBack(levels, j, top, smallestSnapshot, u, g) {
      var d := DeletionBeside(levels, j, top, smallestSnapshot, u, g);
      SharedWithInput(levels, j, g, d);
    }
  }

  lemma DeletionBeside(levels: Levels, j: Job, top: set<Entry>, smallestSnapshot: nat, u: UserKey, g: File)
    returns (d: Entry)
    requires j.level + 1 < |levels| && BringsBack(levels, j, top, smallestSnapshot, u, g)
    ensures d in EntriesOf(j.inputs1) && d.key.user == u
    ensures g in levels[j.level + 1] && g !in j.inputs1 && g.smallest.user == u
  {
    DeletionIsInput(levels, j, top, smallestSnapshot, u, g);
    d := Newest(top + From(levels, 0), u, smallestSnapshot).value;
  }

  lemma SharedWithInput(levels: Levels, j: Job, g: File, d: Entry)
    requires WellFormed(levels) && GoodJob(levels, j) && Undivided(levels)
    requires g in levels[j.level + 1] && g !in j.inputs1 && d in EntriesOf(j.inputs1)
    ensures g.smallest.user != d.key.user && g.largest.user != d.key.user
  {
    assert LevelUndivided(levels[j.level + 1]) && ValidFiles(levels[j.level + 1]);
    SelectMembers(levels[j.level + 1], Some(j.low.user), Some(j.high.user));
    assert forall h | h in j.inputs1 :: h in levels[j.level + 1];
    hide WellFormed, GoodJob, Undivided, ValidFiles, LevelUndivided;
    var h :| h in j.inputs1 && d in h.entries;
    OtherFileLacks(levels[j.level + 1], h, g, d);
  }

  lemma OtherFileLacks(fs: seq<File>, h: File, g: File, d: Entry)
    requires ValidFiles(fs) && LevelUndivided(fs) && h in fs && g in fs && h != g && d in h.entries
    ensures g.smallest.user != d.key.user && g.largest.user != d.key.user
  {
    ValidMember(fs, h);
    ValidMember(fs, g);
    assert !UserOverlap(h, g);
    hide ValidFiles, LevelUndivided, File.Valid;
    FileBounds(h, d);
    SmallestAtMostLargest(g);
  }

  lemma FlushKeepsUndivided(levels: Levels, k: nat, f: File, levels': Levels)
    requires Undivided(levels) && Flushed(levels, k, f, levels')
    requires k > 0 ==> forall i, g | 0 <= i <= k && g in levels[i] :: !UserOverlap(f, g)
    ensures Undivided(levels')
  {
    forall i | 1 <= i < |levels'|
      ensures LevelUndivided(levels'[i])
    {
      assert LevelUndivided(levels[i]);
      forall g, h | g in levels'[i] && h in levels'[i] && g != h
        ensures !UserOverlap(g, h)
      {
        OverlapSymmetric(g, h);
        assert g in levels[i] || g == f;
      }
    }
  }

  lemma MoveKeepsUndivided(levels: Levels, j: Job, levels': Levels)
    requires WellFormed(levels) && Undivided(levels) && GoodJob(levels, j) && Compacted(levels, j, levels')
    requires |j.inputs0| == 1 && j.inputs1 == [] && j.outputs == j.inputs0
    ensures Undivided(levels')
  {
    assert |levels'| == |levels| == NUM_LEVELS;
    hide *;
    forall k | 1 <= k < |levels'|
      ensures LevelUndivided(levels'[k])
    {
      MovedLevelUndivided(levels, j, levels', k);
    }
    AllUndivided(levels');
  }

  lemma MovedLevelUndivided(levels: Levels, j: Job, levels': Levels, k: nat)
    requires Undivided(levels) && GoodJob(levels, j) && Compacted(levels, j, levels')
    requires |j.inputs0| == 1 && j.inputs1 == [] && j.outputs == j.inputs0
    requires 1 <= k < |levels'| == |levels| == NUM_LEVELS
    ensures LevelUndivided(levels'[k])
  {
    assert LevelUndivided(levels[k]) && j.inputs0 == [j.inputs0[0]];
    hide GoodJob, Compacted, UserOverlap, Undivided;
    forall f, g | f in levels'[k] && g in levels'[k] && f != g
      ensures !UserOverlap(f, g)
    {
      CompactedFile(levels, j, levels', k, f);
      CompactedFile(levels, j, levels', k, g);
      if f !in levels[k] {
        MovedBeside(levels, j, g);
      } else if g !in levels[k] {
        MovedBeside(levels, j, f);
        OverlapSymmetric(f, g);
      }
    }
  }

  /** With nothing to merge with, the file's user keys are not in the next level. */
  lemma MovedBeside(levels: Levels, j: Job, g: File)
    requires GoodJob(levels, j) && |j.inputs0| == 1 && j.inputs1 == [] && g in levels[j.level + 1]
    ensures !UserOverlap(j.inputs0[0], g)
  {
    var moved := j.inputs0[0];
    LeftOrRight(levels, j, g);
    assert moved in j.inputs0 && AtMost(j.low, moved.smallest) && AtMost(moved.largest, j.high);
  }

  /** Rule (A) leaves one version of each key when the smallest snapshot sees every version. */
  lemma OneKeptPerKey(stream: seq<Entry>, smallestSnapshot: nat, levels: Levels, level: nat, a: Entry, b: Entry)
    requires Sorted(stream) && forall e | e in stream :: e.key.sequence <= smallestSnapshot
    requires a in KeptSet(stream, smallestSnapshot, levels, level)
    requires b in KeptSet(stream, smallestSnapshot, levels, level)
    requires a.key.user == b.key.user
    ensures a == b
  {
    KeptMembers(stream, |stream|, smallestSnapshot, levels, level);
    var i :| 0 <= i < |stream| && stream[i] == a && !Dropped(stream, i, smallestSnapshot, levels, level);
    var k :| 0 <= k < |stream| && stream[k] == b && !Dropped(stream, k, smallestSnapshot, levels, level);
    FirstOfKey(stream, smallestSnapshot, i, k);
    FirstOfKey(stream, smallestSnapshot, k, i);
  }

  lemma FirstOfKey(stream: seq<Entry>, smallestSnapshot: nat, i: nat, k: nat)
    requires Sorted(stream) && forall e | e in stream :: e.key.sequence <= smallestSnapshot
    requires i < k < |stream| ==> stream[i].key.user == stream[k].key.user
    ensures i < k < |stream| ==> LastSequenceForKey(stream, k) <= smallestSnapshot
  {
    if i < k < |stream| {
      assert i < k - 1 ==> Before(stream[i].key, stream[k - 1].key);
      assert Before(stream[k - 1].key, stream[k].key);
      assert stream[k - 1] in stream;
    }
  }

  lemma OutputsUndivided(f: File, g: File)
    requires f.Valid() && g.Valid() && Apart(f, g)
    requires forall a, b | a in f.entries && b in g.entries :: a.key.user != b.key.user
    ensures !UserOverlap(f, g)
  {
    assert f.entries[0] in f.entries && f.entries[|f.entries| - 1] in f.entries;
    assert g.entries[0] in g.entries && g.entries[|g.entries| - 1] in g.entries;
  }

  /** Two outputs share no user key, since no two kept versions do. */
  lemma OutputPair(j: Job, f: File, g: File)
    requires GoodOutputs(j) && f in j.outputs && g in j.outputs && f != g
    requires OneEntryPerUser(EntriesOf(j.outputs))
    ensures !UserOverlap(f, g)
  {
    assert Apart(f, g);
    forall a, b | a in f.entries && b in g.entries
      ensures a.key.user != b.key.user
    {
      if a.key.user == b.key.user {
        assert a in EntriesOf(j.outputs) && b in EntriesOf(j.outputs);
        FileBounds(f, a);
        FileBounds(g, a);
      }
    }
    OutputsUndivided(f, g);
  }

  /** An output shares no user key with a file of the next level that stays. */
  lemma OutputBesideFile(levels: Levels, j: Job, f: File, g: File)
    requires WellFormed(levels) && Undivided(levels) && GoodJob(levels, j) && GoodOutputs(j)
    requires f in j.outputs && g in levels[j.level + 1] && g !in j.inputs1
    ensures !UserOverlap(f, g)
  {
    OutputsApart(levels, j, f, g);
    ValidMember(levels[j.level + 1], g);
    var first, last := f.entries[0], f.entries[|f.entries| - 1];
    assert first in f.entries && last in f.entries;
    EndNotShared(levels, j, g, first);
    EndNotShared(levels, j, g, last);
    SmallestAtMostLargest(g);
    SmallestAtMostLargest(f);
  }

  lemma EndNotShared(levels: Levels, j: Job, g: File, e: Entry)
    requires WellFormed(levels) && Undivided(levels) && GoodJob(levels, j)
    requires g in levels[j.level + 1] && g !in j.inputs1 && e in InputEntries(j)
    ensures g.smallest.user != e.key.user && g.largest.user != e.key.user
  {
    if e in EntriesOf(j.inputs1) {
      SharedWithInput(levels, j, g, e);
    } else {
      LeftOrRight(levels, j, g);
      InsideHull(levels, j, e);
      ValidMember(levels[j.level + 1], g);
      SmallestAtMostLargest(g);
    }
  }

  lemma InsideHull(levels: Levels, j: Job, e: Entry)
    requires WellFormed(levels) && GoodJob(levels, j) && e in EntriesOf(j.inputs0)
    ensures j.low.user <= e.key.user <= j.high.user
  {
    assert ValidFiles(levels[j.level]);
    InsideHullOf(levels[j.level], j.inputs0, j.low, j.high, e);
  }

  lemma InsideHullOf(fs: seq<File>, inputs: seq<File>, low: InternalKey, high: InternalKey, e: Entry)
    requires ValidFiles(fs) && (forall h | h in inputs :: h in fs) && IsHull(inputs, low, high)
    requires e in EntriesOf(inputs)
    ensures low.user <= e.key.user <= high.user
  {
    var h :| h in inputs && e in h.entries;
    ValidMember(fs, h);
    hide ValidFiles, File.Valid;
    FileBounds(h, e);
    assert AtMost(low, h.smallest) && AtMost(h.largest, high);
  }

  lemma CompactionKeepsUndivided(levels: Levels, j: Job, levels': Levels, stream: seq<Entry>, smallestSnapshot: nat)
    requires WellFormed(levels) && Undivided(levels) && GoodJob(levels, j) && GoodOutputs(j)
    requires Compacted(levels, j, levels')
    requires StreamOf(stream, j) && forall e | e in From(levels, 0) :: e.key.sequence <= smallestSnapshot
    requires EntriesOf(j.outputs) == KeptSet(stream, smallestSnapshot, levels, j.level)
    ensures Undivided(levels')
  {
    assert |levels'| == |levels| == NUM_LEVELS && Sorted(stream);
    StreamSeen(levels, j, stream, smallestSnapshot);
    hide *;
    OneOutputPerKey(levels, j, stream, smallestSnapshot);
    forall k | 1 <= k < |levels'|
      ensures LevelUndivided(levels'[k])
    {
      CompactedLevelUndivided(levels, j, levels', k);
    }
    AllUndivided(levels');
  }

  lemma AllUndivided(levels: Levels)
    requires forall k | 1 <= k < |levels| :: LevelUndivided(levels[k])
    ensures Undivided(levels)
  {
  }

  ghost predicate OneEntryPerUser(S: set<Entry>) {
    forall a, b | a in S && b in S && a.key.user == b.key.user :: a == b
  }

  lemma OneOutputPerKey(levels: Levels, j: Job, stream: seq<Entry>, smallestSnapshot: nat)
    requires Sorted(stream) && forall e | e in stream :: e.key.sequence <= smallestSnapshot
    requires EntriesOf(j.outputs) == KeptSet(stream, smallestSnapshot, levels, j.level)
    ensures OneEntryPerUser(EntriesOf(j.outputs))
  {
    hide EntriesOf, KeptSet, Sorted;
    forall a, b | a in EntriesOf(j.outputs) && b in EntriesOf(j.outputs) && a.key.user == b.key.user
      ensures a == b
    {
      OneKeptPerKey(stream, smallestSnapshot, levels, j.level, a, b);
    }
  }

  lemma CompactedLevelUndivided(levels: Levels, j: Job, levels': Levels, k: nat)
    requires WellFormed(levels) && Undivided(levels) && GoodJob(levels, j) && GoodOutputs(j)
    requires Compacted(levels, j, levels')
    requires OneEntryPerUser(EntriesOf(j.outputs)) && |levels'| == |levels| == NUM_LEVELS && 1 <= k < |levels'|
    ensures LevelUndivided(levels'[k])
  {
    assert LevelUndivided(levels[k]);
    hide WellFormed, GoodJob, GoodOutputs, Compacted, UserOverlap, EntriesOf, OneEntryPerUser, Undivided;
    forall f, g | f in levels'[k] && g in levels'[k] && f != g
      ensures !UserOverlap(f, g)
    {
      CompactedFile(levels, j, levels', k, f);
      CompactedFile(levels, j, levels', k, g);
      if k == j.level + 1 && f in j.outputs {
        if g in j.outputs {
          OutputPair(j, f, g);
        } else {
          OutputBesideFile(levels, j, f, g);
        }
      } else if k == j.level + 1 && g in j.outputs {
        OutputBesideFile(levels, j, g, f);
        OverlapSymmetric(f, g);
      }
    }
  }

  lemma OverlapSymmetric(f: File, g: File)
    ensures UserOverlap(f, g) <==> UserOverlap(g, f)
  {
  }

  lemma StreamSeen(levels: Levels, j: Job, stream: seq<Entry>, smallestSnapshot: nat)
    requires GoodJob(levels, j) && StreamOf(stream, j) &&
             forall e | e in From(levels, 0) :: e.key.sequence <= smallestSnapshot
    ensures forall e | e in stream :: e.key.sequence <= smallestSnapshot
  {
    LayersCoverBefore(levels, j);
    forall e | e in stream
      ensures e.key.sequence <= smallestSnapshot
    {
      assert e in Contents(stream) && e in From(levels, 0);
    }
  }
}
