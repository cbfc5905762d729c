/** The compaction loop: which entries of the merged input are dropped, and why no reader notices
    (DBImpl::DoCompactionWork, Compaction::IsBaseLevelForKey). */
module DropLoop {
  import opened Wrappers
  import opened InternalKeys
  import opened MultiVersion
  import opened Tables
  import opened Lookup
  import opened Inputs

  /** No file two or more levels further down covers the user key: a full scan. */
  ghost predicate IsBaseLevel(levels: Levels, level: nat, u: UserKey) {
    forall k, f | level + 2 <= k < |levels| && f in levels[k] :: !CoversUserKey(f, u)
  }

  lemma BaseLevelMeansAbsent(levels: Levels, level: nat, u: UserKey)
    requires forall k | 0 <= k < |levels| :: ValidFiles(levels[k])
    requires IsBaseLevel(levels, level, u)
    ensures forall e | e in From(levels, level + 2) :: e.key.user != u
  {
    forall e | e in From(levels, level + 2)
      ensures e.key.user != u
    {
      FromContains(levels, level + 2, e);
      var k :| level + 2 <= k < |levels| && e in EntriesOf(levels[k]);
      var f :| f in levels[k] && e in f.entries;
      FileBounds(f, e);
      assert !CoversUserKey(f, u);
    }
  }

  ghost predicate SortedLevels(levels: Levels) {
    |levels| == NUM_LEVELS && forall k | 1 <= k < NUM_LEVELS :: ValidFiles(levels[k]) && Disjoint(levels[k])
  }

  /** The cursor part of a Compaction: one pointer per deeper level, which only moves forward. */
  class BaseLevelCursor {
    const levels: Levels
    const level: nat
    var pointers: seq<nat>
    ghost var lastKey: Bound

    ghost predicate Valid()
      reads this
    {
      && SortedLevels(levels) && |pointers| == NUM_LEVELS
      && (forall k | level + 2 <= k < NUM_LEVELS :: pointers[k] <= |levels[k]|)
      && (forall k, i | level + 2 <= k < NUM_LEVELS && 0 <= i < pointers[k] :: AfterFile(lastKey, levels[k][i]))
    }

    constructor (levels: Levels, level: nat)
      requires SortedLevels(levels)
      ensures Valid() && lastKey == None && this.levels == levels && this.level == level
    {
      this.levels := levels;
      this.level := level;
      pointers := seq(NUM_LEVELS, _ => 0);
      lastKey := None;
    }

    /** IsBaseLevelForKey: for keys asked in non-decreasing order the moving pointers answer what a
        scan of all deeper files would. */
    method IsBaseLevelForKey(u: UserKey) returns (r: bool)
      requires Valid()
      requires lastKey.Some? ==> lastKey.value <= u
      modifies this
      ensures Valid() && lastKey == Some(u)
      ensures r <==> IsBaseLevel(levels, level, u)
    {
      lastKey := Some(u);
      var lvl := level + 2;
      while lvl < NUM_LEVELS
        invariant Valid() && lastKey == Some(u)
        invariant level + 2 <= lvl
        invariant forall k, f | level + 2 <= k < lvl && k < NUM_LEVELS && f in levels[k] :: !CoversUserKey(f, u)
      {
        var files := levels[lvl];
        while pointers[lvl] < |files|
          invariant Valid() && lastKey == Some(u)
          decreases |files| - pointers[lvl]
        {
          var f := files[pointers[lvl]];
          if u <= f.largest.user {
            if u >= f.smallest.user {
              assert f in levels[lvl] && CoversUserKey(f, u);
              return false;
            }
            LaterFilesStartLater(files, pointers[lvl], u);
            break;
          }
          pointers := pointers[lvl := pointers[lvl] + 1];
        }
        assert forall i | 0 <= i < |files| :: !CoversUserKey(files[i], u);
        lvl := lvl + 1;
      }
      return true;
    }
  }

  lemma LaterFilesStartLater(files: seq<File>, p: nat, u: UserKey)
    requires ValidFiles(files) && Disjoint(files) && p < |files| && u < files[p].smallest.user
    ensures forall i | p <= i < |files| :: !CoversUserKey(files[i], u)
  {
    SmallestAtMostLargest(files[p]);
    forall i | p < i < |files|
      ensures u < files[i].smallest.user
    {
      assert Before(files[p].largest, files[i].smallest);
    }
  }

  // ----- which entries are dropped -----

  /** last_sequence_for_key when the loop reaches entry i. */
  function LastSequenceForKey(stream: seq<Entry>, i: nat): nat
    requires i < |stream|
  {
    if i > 0 && stream[i - 1].key.user == stream[i].key.user then stream[i - 1].key.sequence else MAX_SEQUENCE
  }

  /** Rule (A): a newer entry for the key is already visible to every snapshot. Rule (B): an obsolete deletion. */
  ghost predicate Dropped(stream: seq<Entry>, i: nat, smallestSnapshot: nat, levels: Levels, level: nat)
    requires i < |stream|
  {
    || LastSequenceForKey(stream, i) <= smallestSnapshot
    || (stream[i].key.kind.Deletion? && stream[i].key.sequence <= smallestSnapshot
        && IsBaseLevel(levels, level, stream[i].key.user))
  }

  ghost function Kept(stream: seq<Entry>, n: nat, smallestSnapshot: nat, levels: Levels, level: nat): seq<Entry>
    requires n <= |stream|
  {
    if n == 0 then []
    else
      var before := Kept(stream, n - 1, smallestSnapshot, levels, level);
      if Dropped(stream, n - 1, smallestSnapshot, levels, level) then before else before + [stream[n - 1]]
  }

  lemma {:induction false} KeptMembers(stream: seq<Entry>, n: nat, smallestSnapshot: nat, levels: Levels, level: nat)
    requires n <= |stream|
    ensures forall e :: e in Kept(stream, n, smallestSnapshot, levels, level) <==>
              exists i :: 0 <= i < n && stream[i] == e && !Dropped(stream, i, smallestSnapshot, levels, level)
  {
    if n > 0 {
      KeptMembers(stream, n - 1, smallestSnapshot, levels, level);
    }
  }

  lemma {:induction false} KeptSorted(stream: seq<Entry>, n: nat, smallestSnapshot: nat, levels: Levels, level: nat)
    requires n <= |stream| && Sorted(stream)
    ensures Sorted(Kept(stream, n, smallestSnapshot, levels, level))
  {
    if n > 0 {
      KeptSorted(stream, n - 1, smallestSnapshot, levels, level);
      KeptMembers(stream, n - 1, smallestSnapshot, levels, level);
      var before := Kept(stream, n - 1, smallestSnapshot, levels, level);
      assert forall e | e in before :: Before(e.key, stream[n - 1].key);
    }
  }

  ghost predicate SequencesFit(stream: seq<Entry>) {
    forall i | 0 <= i < |stream| :: stream[i].key.sequence <= MAX_SEQUENCE
  }

  ghost function KeptSet(stream: seq<Entry>, smallestSnapshot: nat, levels: Levels, level: nat): set<Entry> {
    Contents(Kept(stream, |stream|, smallestSnapshot, levels, level))
  }

  lemma KeptIsSubset(stream: seq<Entry>, smallestSnapshot: nat, levels: Levels, level: nat)
    ensures KeptSet(stream, smallestSnapshot, levels, level) <= Contents(stream)
  {
    KeptMembers(stream, |stream|, smallestSnapshot, levels, level);
  }

  /** What the loop does to the newest version of u at a snapshot no older than the smallest one: it keeps it,
      or it was a deletion with nothing under it two levels down, and then no version of u up to s is left. */
  lemma KeptNewest(stream: seq<Entry>, smallestSnapshot: nat, levels: Levels, level: nat, u: UserKey, s: nat)
    requires Sorted(stream) && SequencesFit(stream) && OnePerSequence(Contents(stream))
    requires smallestSnapshot <= s && smallestSnapshot < MAX_SEQUENCE
    ensures var all := Newest(Contents(stream), u, s);
            var kept := Newest(KeptSet(stream, smallestSnapshot, levels, level), u, s);
            if all.Some? && all.value.key.kind.Deletion? && all.value.key.sequence <= smallestSnapshot
               && IsBaseLevel(levels, level, u)
            then kept == None
            else kept == all
  {
    var S, K := Contents(stream), KeptSet(stream, smallestSnapshot, levels, level);
    KeptMembers(stream, |stream|, smallestSnapshot, levels, level);
    KeptIsSubset(stream, smallestSnapshot, levels, level);
    var all := Newest(S, u, s);
    if all.Some? {
      var i :| 0 <= i < |stream| && stream[i] == all.value;
      NewestEscapesRuleA(stream, i, smallestSnapshot, u, s);
      if Dropped(stream, i, smallestSnapshot, levels, level) {
        forall e | e in K && Matches(e, u, s)
          ensures false
        {
          var j :| 0 <= j < |stream| && stream[j] == e && !Dropped(stream, j, smallestSnapshot, levels, level);
          OlderAreHidden(stream, i, j, smallestSnapshot);
        }
      } else {
        assert IsNewest(K, u, s, all.value);
        NewestIs(K, u, s, all.value);
      }
    }
  }

  lemma NewestEscapesRuleA(stream: seq<Entry>, i: nat, smallestSnapshot: nat, u: UserKey, s: nat)
    requires Sorted(stream) && i < |stream| && IsNewest(Contents(stream), u, s, stream[i])
    requires smallestSnapshot <= s && smallestSnapshot < MAX_SEQUENCE
    requires OnePerSequence(Contents(stream))
    ensures LastSequenceForKey(stream, i) > smallestSnapshot
  {
    if i > 0 && stream[i - 1].key.user == u && stream[i - 1].key.sequence <= smallestSnapshot {
      assert Before(stream[i - 1].key, stream[i].key);
      assert stream[i - 1] in Contents(stream) && Matches(stream[i - 1], u, s);
      assert false;
    }
  }

  /** Rule (A) removes every version older than one that every snapshot sees. */
  lemma OlderAreHidden(stream: seq<Entry>, i: nat, j: nat, smallestSnapshot: nat)
    requires Sorted(stream) && i < |stream| && j < |stream| && i != j
    requires stream[i].key.user == stream[j].key.user
    requires stream[j].key.sequence <= stream[i].key.sequence <= smallestSnapshot
    requires OnePerSequence(Contents(stream))
    ensures LastSequenceForKey(stream, j) <= smallestSnapshot
  {
    assert stream[i] in Contents(stream) && stream[j] in Contents(stream);
    assert i < j;
    if i < j - 1 {
      assert Before(stream[i].key, stream[j - 1].key);
      assert Before(stream[j - 1].key, stream[j].key);
    }
  }

  /** A newer version of the same key is already visible to every snapshot. */
  ghost predicate Superseded(S: set<Entry>, e: Entry, smallestSnapshot: nat) {
    exists e' :: e' in S && e'.key.user == e.key.user && e.key.sequence < e'.key.sequence <= smallestSnapshot
  }

  /** Which entries go, in terms of the set of entries alone: the superseded ones, and the deletions that every snapshot
      sees and that have no file over their key two or more levels down. */
  lemma GoneExactlyWhen(stream: seq<Entry>, smallestSnapshot: nat, levels: Levels, level: nat, e: Entry)
    requires Sorted(stream) && OnePerSequence(Contents(stream)) && e in Contents(stream)
    requires smallestSnapshot < MAX_SEQUENCE
    ensures e !in KeptSet(stream, smallestSnapshot, levels, level) <==>
              || Superseded(Contents(stream), e, smallestSnapshot)
              || (e.key.kind.Deletion? && e.key.sequence <= smallestSnapshot &&
                  forall k, f | level + 2 <= k < |levels| && f in levels[k] ::
                    !(f.smallest.user <= e.key.user <= f.largest.user))
  {
    var i :| 0 <= i < |stream| && stream[i] == e;
    SupersededMeansRuleA(stream, i, smallestSnapshot);
    KeptMembers(stream, |stream|, smallestSnapshot, levels, level);
    if e in KeptSet(stream, smallestSnapshot, levels, level) {
      var j :| 0 <= j < |stream| && stream[j] == e && !Dropped(stream, j, smallestSnapshot, levels, level);
      OnlyOnce(stream, i, j);
    }
    hide LastSequenceForKey, Kept, Superseded;
    RuleB(levels, level, e);
  }

  lemma RuleB(levels: Levels, level: nat, e: Entry)
    ensures IsBaseLevel(levels, level, e.key.user) <==>
              forall k, f | level + 2 <= k < |levels| && f in levels[k] ::
                !(f.smallest.user <= e.key.user <= f.largest.user)
  {
    forall k, f | level + 2 <= k < |levels| && f in levels[k]
      ensures CoversUserKey(f, e.key.user) <==> f.smallest.user <= e.key.user <= f.largest.user
    {
    }
  }

  lemma OnlyOnce(stream: seq<Entry>, i: nat, j: nat)
    requires Sorted(stream) && i < |stream| && j < |stream| && stream[i] == stream[j]
    ensures i == j
  {
  }

  lemma SupersededMeansRuleA(stream: seq<Entry>, i: nat, smallestSnapshot: nat)
    requires Sorted(stream) && OnePerSequence(Contents(stream)) && i < |stream| && smallestSnapshot < MAX_SEQUENCE
    ensures Superseded(Contents(stream), stream[i], smallestSnapshot) <==>
              LastSequenceForKey(stream, i) <= smallestSnapshot
  {
    var S := Contents(stream);
    if Superseded(S, stream[i], smallestSnapshot) {
      var e' :| e' in S && e'.key.user == stream[i].key.user
                && stream[i].key.sequence < e'.key.sequence <= smallestSnapshot;
      var j :| 0 <= j < |stream| && stream[j] == e';
      OlderAreHidden(stream, j, i, smallestSnapshot);
    }
    if LastSequenceForKey(stream, i) <= smallestSnapshot {
      assert Before(stream[i - 1].key, stream[i].key);
      assert stream[i - 1] in S && stream[i] in S;
    }
  }

  /** Compaction preserves reads: over the compacted entries and the levels two or more further down, every
      reader at a snapshot no older than the smallest one gets the same answer before and after. */
  lemma DropsPreserveReads(stream: seq<Entry>, smallestSnapshot: nat, levels: Levels, level: nat, u: UserKey, s: nat)
    requires Sorted(stream) && SequencesFit(stream)
    requires smallestSnapshot <= s && smallestSnapshot < MAX_SEQUENCE
    requires forall k | 0 <= k < |levels| :: ValidFiles(levels[k])
    requires OnePerSequence(Contents(stream) + From(levels, level + 2))
    requires Newer(Contents(stream), From(levels, level + 2))
    ensures ReadAt(KeptSet(stream, smallestSnapshot, levels, level) + From(levels, level + 2), u, s)
         == ReadAt(Contents(stream) + From(levels, level + 2), u, s)
  {
    var S, K, O := Contents(stream), KeptSet(stream, smallestSnapshot, levels, level), From(levels, level + 2);
    KeptIsSubset(stream, smallestSnapshot, levels, level);
    SubsetOnePerSequence(K + O, S + O);
    SubsetOnePerSequence(S, S + O);
    KeptNewest(stream, smallestSnapshot, levels, level, u, s);
    LayeredNewest(S, O, u, s);
    LayeredNewest(K, O, u, s);
    if IsBaseLevel(levels, level, u) {
      BaseLevelMeansAbsent(levels, level, u);
    }
  }

  // ----- the loop itself -----

  ghost function Flatten(outputs: seq<seq<Entry>>): seq<Entry> {
    if outputs == [] then [] else Flatten(outputs[..|outputs| - 1]) + outputs[|outputs| - 1]
  }

  lemma FlattenSnoc(outputs: seq<seq<Entry>>, run: seq<Entry>)
    ensures Flatten(outputs + [run]) == Flatten(outputs) + run
  {
    assert (outputs + [run])[..|outputs|] == outputs;
  }

  ghost predicate NonEmptyRuns(outputs: seq<seq<Entry>>) {
    forall i | 0 <= i < |outputs| :: outputs[i] != []
  }

  /** DoCompactionWork. Where an output file ends is up to the caller: stopBefore(i) stands for ShouldStopBefore,
      full(i) for the size test after adding entry i. The outputs, in order, are exactly the kept entries. */
  method DoCompactionWork(levels: Levels, level: nat, stream: seq<Entry>, smallestSnapshot: nat,
                          stopBefore: nat -> bool, full: nat -> bool)
    returns (outputs: seq<seq<Entry>>)
    requires SortedLevels(levels)
    requires Sorted(stream)
    ensures Flatten(outputs) == Kept(stream, |stream|, smallestSnapshot, levels, level)
    ensures NonEmptyRuns(outputs)
  {
    hide Dropped, SortedLevels, Sorted, LastSequenceForKey, Kept, Flatten, BaseLevelCursor.Valid;
    NothingKept(stream, smallestSnapshot, levels, level);
    var cursor := new BaseLevelCursor(levels, level);
    outputs := [];
    var builder: seq<Entry> := [];
    var currentUserKey: Option<UserKey> := None;
    var lastSequenceForKey := MAX_SEQUENCE;
    var i := 0;
    while i < |stream|
      invariant 0 <= i <= |stream|
      invariant Flatten(outputs) + builder == Kept(stream, i, smallestSnapshot, levels, level)
      invariant NonEmptyRuns(outputs)
      invariant currentUserKey == if i == 0 then None else Some(stream[i - 1].key.user)
      invariant i > 0 ==> lastSequenceForKey == stream[i - 1].key.sequence
      invariant cursor.Valid() && fresh(cursor) && cursor.levels == levels && cursor.level == level
      invariant i < |stream| && cursor.lastKey.Some? ==> cursor.lastKey.value <= stream[i].key.user
    {
      var e := stream[i];
      if stopBefore(i) && builder != [] {
        FlattenSnoc(outputs, builder);
        outputs, builder := outputs + [builder], [];
      }
      if currentUserKey != Some(e.key.user) {
        currentUserKey := Some(e.key.user);
        lastSequenceForKey := MAX_SEQUENCE;
      }
      CarriedSequence(stream, i);
      KeptNext(stream, i, smallestSnapshot, levels, level);
      var drop := DropEntry(cursor, stream, i, lastSequenceForKey, smallestSnapshot);
      lastSequenceForKey := e.key.sequence;
      if !drop {
        builder := builder + [e];
        if full(i) {
          FlattenSnoc(outputs, builder);
          outputs, builder := outputs + [builder], [];
        }
      }
      i := i + 1;
    }
    if builder != [] {
      FlattenSnoc(outputs, builder);
      outputs := outputs + [builder];
    }
  }

  lemma NothingKept(stream: seq<Entry>, smallestSnapshot: nat, levels: Levels, level: nat)
    ensures Kept(stream, 0, smallestSnapshot, levels, level) == Flatten([]) == []
  {
  }

  lemma KeptNext(stream: seq<Entry>, i: nat, smallestSnapshot: nat, levels: Levels, level: nat)
    requires i < |stream|
    ensures Kept(stream, i + 1, smallestSnapshot, levels, level) ==
              if Dropped(stream, i, smallestSnapshot, levels, level)
              then Kept(stream, i, smallestSnapshot, levels, level)
              else Kept(stream, i, smallestSnapshot, levels, level) + [stream[i]]
  {
  }

  lemma CarriedSequence(stream: seq<Entry>, i: nat)
    requires i < |stream|
    ensures LastSequenceForKey(stream, i) ==
              if i > 0 && stream[i - 1].key.user == stream[i].key.user then stream[i - 1].key.sequence else MAX_SEQUENCE
  {
  }

  /** The decision for one entry. */
  method DropEntry(cursor: BaseLevelCursor, stream: seq<Entry>, i: nat, lastSequenceForKey: nat, smallestSnapshot: nat)
    returns (drop: bool)
    requires i < |stream| && Sorted(stream)
    requires cursor.Valid() && (cursor.lastKey.Some? ==> cursor.lastKey.value <= stream[i].key.user)
    requires lastSequenceForKey == LastSequenceForKey(stream, i)
    modifies cursor
    ensures cursor.Valid()
    ensures i + 1 < |stream| && cursor.lastKey.Some? ==> cursor.lastKey.value <= stream[i + 1].key.user
    ensures drop <==> Dropped(stream, i, smallestSnapshot, cursor.levels, cursor.level)
  {
    var e := stream[i];
    drop := false;
    if lastSequenceForKey <= smallestSnapshot {
      drop := true;
    } else if e.key.kind == Deletion && e.key.sequence <= smallestSnapshot {
      drop := cursor.IsBaseLevelForKey(e.key.user);
    }
    if i + 1 < |stream| {
      assert Before(stream[i].key, stream[i + 1].key);
    }
  }
}
