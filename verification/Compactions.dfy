/** The rest of input selection: memtable output level, boundary files in sorted levels,
    SetupOtherInputs, PickCompaction and CompactRange (version_set.cc). */
module Compactions {
  import opened Wrappers
  import opened InternalKeys
  import opened Tables
  import opened Lookup
  import opened Inputs

  const MAX_MEM_COMPACT_LEVEL: nat := 2

  /** No file of the list overlaps the range. */
  ghost predicate ClearOf(files: seq<File>, smallest: Bound, largest: Bound) {
    forall f | f in files :: !Overlaps(f, smallest, largest)
  }

  /** SomeFileOverlapsRange: one binary search when the files are sorted, a scan when not. */
  method SomeFileOverlapsRange(disjointSortedFiles: bool, files: seq<File>, smallest: Bound, largest: Bound)
    returns (r: bool)
    requires ValidFiles(files)
    requires disjointSortedFiles ==> Disjoint(files)
    ensures r <==> !ClearOf(files, smallest, largest)
  {
    if !disjointSortedFiles {
      var i := 0;
      while i < |files|
        invariant i <= |files|
        invariant forall k | 0 <= k < i :: !Overlaps(files[k], smallest, largest)
      {
        if AfterFile(smallest, files[i]) || BeforeFile(largest, files[i]) {
          // no overlap
        } else {
          assert files[i] in files && Overlaps(files[i], smallest, largest);
          return true;
        }
        i := i + 1;
      }
      return false;
    }
    var index := 0;
    if smallest.Some? {
      index := FindFile(files, InternalKey(smallest.value, MAX_SEQUENCE, Value));
    }
    if index >= |files| {
      return false;
    }
    if !BeforeFile(largest, files[index]) {
      assert Overlaps(files[index], smallest, largest);
      return true;
    }
    forall k | 0 <= k < |files|
      ensures !Overlaps(files[k], smallest, largest)
    {
      if index < k {
        SmallestAtMostLargest(files[index]);
        assert Before(files[index].largest, files[k].smallest);
      }
    }
    return false;
  }

  lemma LevelReady(levels: Levels, k: nat)
    requires WellFormed(levels) && k < NUM_LEVELS
    ensures |levels| == NUM_LEVELS && ValidFiles(levels[k]) && (k > 0 ==> Disjoint(levels[k]))
  {
  }

  /** The deepest level, down to 2, that a table with these bounds may go to: it passes no file that it overlaps, and at
      each step the overlap two levels below where it stands is within the limit. */
  ghost predicate IsMemTableLevel(levels: Levels, smallest: UserKey, largest: UserKey, limit: nat, level: nat) {
    && |levels| == NUM_LEVELS && level <= 2
    && (level > 0 ==> forall k | 0 <= k <= level :: ClearOf(levels[k], Some(smallest), Some(largest)))
    && (forall k | 2 <= k <= level + 1 :: TotalFileSize(Select(levels[k], Some(smallest), Some(largest))) <= limit)
    && (level < 2 && ClearOf(levels[0], Some(smallest), Some(largest)) ==>
          || !ClearOf(levels[level + 1], Some(smallest), Some(largest))
          || TotalFileSize(Select(levels[level + 2], Some(smallest), Some(largest))) > limit)
  }

  /** PickLevelForMemTableOutput: a flushed table may skip levels only past files it does not overlap. */
  method PickLevelForMemTableOutput(levels: Levels, smallest: UserKey, largest: UserKey, maxGrandParentOverlap: nat)
    returns (level: nat)
    requires WellFormed(levels)
    ensures IsMemTableLevel(levels, smallest, largest, maxGrandParentOverlap, level)
  {
    hide WellFormed, ValidFiles, Disjoint, Overlaps, Select, ClearOf, Reached, TotalFileSize;
    level := 0;
    LevelReady(levels, 0);
    var overlap := SomeFileOverlapsRange(false, levels[0], Some(smallest), Some(largest));
    if !overlap {
      while level < MAX_MEM_COMPACT_LEVEL
        invariant level <= MAX_MEM_COMPACT_LEVEL
        invariant forall k | 0 <= k <= level :: ClearOf(levels[k], Some(smallest), Some(largest))
        invariant forall k | 2 <= k <= level + 1 ::
                    TotalFileSize(Select(levels[k], Some(smallest), Some(largest))) <= maxGrandParentOverlap
      {
        var go := CanSkipTo(levels, level + 1, smallest, largest, maxGrandParentOverlap);
        if !go {
          break;
        }
        level := level + 1;
      }
    }
  }

  /** No overlap in the level, and not too much in the one after it. */
  method CanSkipTo(levels: Levels, level: nat, smallest: UserKey, largest: UserKey, maxGrandParentOverlap: nat)
    returns (go: bool)
    requires WellFormed(levels) && 0 < level < NUM_LEVELS
    ensures |levels| == NUM_LEVELS
    ensures go <==>
              && ClearOf(levels[level], Some(smallest), Some(largest))
              && (level + 1 < NUM_LEVELS ==>
                    TotalFileSize(Select(levels[level + 1], Some(smallest), Some(largest))) <= maxGrandParentOverlap)
  {
    hide WellFormed, ValidFiles, Disjoint, Overlaps, Select, ClearOf, Reached;
    LevelReady(levels, level);
    var overlap := SomeFileOverlapsRange(true, levels[level], Some(smallest), Some(largest));
    if overlap {
      return false;
    }
    if level + 1 < NUM_LEVELS {
      LevelReady(levels, level + 1);
      var overlaps, _, _ := GetOverlappingInputs(levels[level + 1], level + 1, Some(smallest), Some(largest));
      return TotalFileSize(overlaps) <= maxGrandParentOverlap;
    }
    return true;
  }

  // ----- boundary files in a sorted level -----

  lemma NextIsContinuation(fs: seq<File>, k: nat, f: File)
    requires ValidFiles(fs) && Disjoint(fs) && k < |fs|
    requires FirstContinuation(fs, fs[k].largest, f)
    ensures k + 1 < |fs| && f == fs[k + 1]
  {
    var m :| 0 <= m < |fs| && fs[m] == f;
    SmallestAtMostLargest(f);
    if m < k {
      DisjointLargest(fs);
    } else if m > k + 1 {
      assert Before(fs[k].largest, fs[k + 1].smallest);
      assert Before(fs[k + 1].largest, fs[m].smallest);
      SmallestAtMostLargest(fs[k + 1]);
      assert ContinuesAt(fs[k + 1], fs[k].largest);
    }
  }

  lemma {:induction false} ChainIsSlice(fs: seq<File>, hi: nat, added: seq<File>)
    requires ValidFiles(fs) && Disjoint(fs) && 0 < hi <= |fs|
    requires BoundaryChain(fs, fs[hi - 1].largest, added)
    ensures hi + |added| <= |fs| && added == fs[hi..hi + |added|]
    decreases |added|
  {
    hide ValidFiles, Disjoint, FirstContinuation;
    if added != [] {
      var n := |added| - 1;
      var start := fs[hi - 1].largest;
      var front := added[..n];
      assert forall i {:trigger EndKey(start, front, i)} | 0 <= i <= n ::
        EndKey(start, front, i) == EndKey(start, added, i);
      ChainIsSlice(fs, hi, front);
      assert EndKey(start, added, n) == fs[hi + n - 1].largest;
      assert FirstContinuation(fs, EndKey(start, added, n), added[n]);
      hide *;
      NextIsContinuation(fs, hi + n - 1, added[n]);
      SliceSnoc(fs, hi, n, added);
    }
  }

  lemma SliceSnoc<T>(fs: seq<T>, lo: nat, n: nat, s: seq<T>)
    requires lo + n < |fs| && |s| == n + 1 && s[..n] == fs[lo..lo + n] && s[n] == fs[lo + n]
    ensures s == fs[lo..lo + |s|]
  {
    assert s == s[..n] + [s[n]];
  }

  lemma LargestOfSlice(fs: seq<File>, lo: nat, hi: nat, k: InternalKey)
    requires ValidFiles(fs) && Disjoint(fs) && lo < hi <= |fs|
    requires IsLargestKey(fs[lo..hi], k)
    ensures k == fs[hi - 1].largest
  {
    DisjointLargest(fs);
    var f :| f in fs[lo..hi] && f.largest == k;
    assert fs[hi - 1] in fs[lo..hi];
  }

  /** Files lo..hi-1, extended so that the next file starts at a new user key. */
  ghost predicate CleanSlice(fs: seq<File>, lo: nat, hi: nat) {
    && lo < hi <= |fs|
    && (hi < |fs| ==> fs[hi].smallest.user != fs[hi - 1].largest.user)
  }

  /** No file left behind holds, for a user key of a selected file, a version that is not newer. */
  ghost predicate ClosedInputs(fs: seq<File>, level: nat, inputs: seq<File>) {
    && inputs != []
    && (forall f | f in inputs :: f in fs)
    && forall f, g | f in inputs && g in fs && g !in inputs && UserOverlap(f, g) ::
          level > 0 && Before(g.largest, f.smallest)
  }

  lemma CleanSliceIsClosed(fs: seq<File>, lo: nat, hi: nat, level: nat, inputs: seq<File>)
    requires ValidFiles(fs) && Disjoint(fs) && CleanSlice(fs, lo, hi) && level > 0
    requires inputs == fs[lo..hi]
    ensures ClosedInputs(fs, level, inputs)
  {
    assert fs[lo] in inputs;
    hide ValidFiles, Disjoint, UserOverlap, Before;
    forall f, g | f in inputs && g in fs && g !in inputs && UserOverlap(f, g)
      ensures Before(g.largest, f.smallest)
    {
      BeforeSlice(fs, lo, hi, inputs, f, g);
    }
  }

  lemma BeforeSlice(fs: seq<File>, lo: nat, hi: nat, inputs: seq<File>, f: File, g: File)
    requires ValidFiles(fs) && Disjoint(fs) && CleanSlice(fs, lo, hi) && inputs == fs[lo..hi]
    requires f in inputs && g in fs && g !in inputs && UserOverlap(f, g)
    ensures Before(g.largest, f.smallest)
  {
    hide ValidFiles, UserOverlap, Before;
    var i: nat :| lo <= i < hi && fs[i] == f;
    var j: nat :| 0 <= j < |fs| && fs[j] == g;
    SliceMembers(fs, lo, hi);
    if j >= hi {
      UserKeysMeet(fs, i, hi - 1, hi, j);
    }
  }

  lemma SliceMembers(fs: seq<File>, lo: nat, hi: nat)
    requires lo <= hi <= |fs|
    ensures forall j | lo <= j < hi :: fs[j] in fs[lo..hi]
  {
    forall j | lo <= j < hi
      ensures fs[j] in fs[lo..hi]
    {
      assert fs[j] == fs[lo..hi][j - lo];
    }
  }

  /** When files i and j share a user key, all files between them consist of that user key alone. */
  lemma UserKeysMeet(fs: seq<File>, i: nat, p: nat, q: nat, j: nat)
    requires ValidFiles(fs) && Disjoint(fs) && i <= p < q <= j < |fs|
    requires UserOverlap(fs[i], fs[j])
    ensures fs[p].largest.user == fs[q].smallest.user
  {
    DisjointLargest(fs);
    SmallestAtMostLargest(fs[q]);
    assert Before(fs[p].largest, fs[q].smallest);
    if i < p {
      assert Before(fs[i].largest, fs[p].largest);
    }
    if q < j {
      assert Before(fs[q].largest, fs[j].smallest);
    }
  }

  /** The files in the order of the list: in level 0 a selection, deeper a run. */
  ghost predicate InOrder(fs: seq<File>, level: nat, r: seq<File>) {
    if level == 0 then exists b: Bound, e: Bound :: r == Select(fs, b, e) else IsSomeSlice(fs, r)
  }

  /** The smallest set of files that holds the wanted ones and leaves nothing behind. */
  ghost predicate LeastClosed(fs: seq<File>, level: nat, wanted: seq<File>, r: seq<File>) {
    && ClosedInputs(fs, level, r) && InOrder(fs, level, r) && (forall f | f in wanted :: f in r)
    && forall s: seq<File> | ClosedInputs(fs, level, s) && Holds(s, wanted) :: Holds(s, r)
  }

  ghost predicate Holds(s: seq<File>, fs: seq<File>) {
    forall f | f in fs :: f in s
  }

  /** Boundary files are in every closed set that holds the files before them. */
  lemma {:induction false} ChainIsHeld(fs: seq<File>, level: nat, inputs: seq<File>, added: seq<File>,
                                       start: InternalKey, s: seq<File>)
    requires ValidFiles(fs) && IsLargestKey(inputs, start) && BoundaryChain(fs, start, added)
    requires ClosedInputs(fs, level, s) && Holds(s, inputs)
    ensures Holds(s, inputs + added)
    decreases |added|
  {
    if added != [] {
      var n := |added| - 1;
      var front := added[..n];
      assert forall i {:trigger EndKey(start, front, i)} | 0 <= i <= n ::
        EndKey(start, front, i) == EndKey(start, added, i);
      ChainIsHeld(fs, level, inputs, front, start, s);
      assert FirstContinuation(fs, EndKey(start, added, n), added[n]);
      var h: File := if n == 0 then FileEndingAt(inputs, start) else added[n - 1];
      assert h in inputs + front;
      ContinuationIsHeld(fs, level, s, h, added[n]);
      assert added == front + [added[n]];
    }
  }

  ghost function FileEndingAt(inputs: seq<File>, k: InternalKey): (f: File)
    requires IsLargestKey(inputs, k)
    ensures f in inputs && f.largest == k
  {
    var f :| f in inputs && f.largest == k;
    f
  }

  lemma ContinuationIsHeld(fs: seq<File>, level: nat, s: seq<File>, h: File, f: File)
    requires ValidFiles(fs) && ClosedInputs(fs, level, s) && h in s && f in fs && ContinuesAt(f, h.largest)
    ensures f in s
  {
    SmallestAtMostLargest(h);
    SmallestAtMostLargest(f);
    assert UserOverlap(h, f);
  }

  /** The closure of a range under overlap is the smallest closed set that holds its selection. */
  lemma ClosureIsLeast(fs: seq<File>, begin: Bound, end: Bound, r: seq<File>, b: Bound, e: Bound)
    requires ValidFiles(fs) && ClosedInputs(fs, 0, r) && r == Select(fs, b, e)
    requires forall f :: f in r <==> Reached(fs, begin, end, f)
    ensures LeastClosed(fs, 0, Select(fs, begin, end), r)
  {
    SelectMembers(fs, begin, end);
    OverlapIsReached(fs, begin, end);
    hide Reached;
    var wanted := Select(fs, begin, end);
    forall s: seq<File> | ClosedInputs(fs, 0, s) && Holds(s, wanted)
      ensures Holds(s, r)
    {
      forall f | f in r
        ensures f in s
      {
        ReachedIsHeld(fs, begin, end, s, f);
      }
    }
  }

  lemma ReachedIsHeld(fs: seq<File>, begin: Bound, end: Bound, s: seq<File>, f: File)
    requires ClosedInputs(fs, 0, s) && Holds(s, Select(fs, begin, end)) && Reached(fs, begin, end, f)
    ensures f in s
  {
    var n: nat :| ReachedIn(fs, begin, end, n, f);
    ReachedInIsHeld(fs, begin, end, s, n, f);
  }

  lemma {:induction false} ReachedInIsHeld(fs: seq<File>, begin: Bound, end: Bound, s: seq<File>, n: nat, f: File)
    requires ClosedInputs(fs, 0, s) && Holds(s, Select(fs, begin, end)) && ReachedIn(fs, begin, end, n, f)
    ensures f in s
    decreases n
  {
    if n == 0 {
      SelectMembers(fs, begin, end);
    } else {
      var g :| ReachedIn(fs, begin, end, n - 1, g) && UserOverlap(g, f);
      ReachedInIsHeld(fs, begin, end, s, n - 1, g);
    }
  }

  /** Asking for one file of level 0 or for the files that overlap it comes to the same. */
  lemma LeastOfOne(fs: seq<File>, f: File, r: seq<File>)
    requires ValidFiles(fs) && f in fs
    requires LeastClosed(fs, 0, Select(fs, Some(f.smallest.user), Some(f.largest.user)), r)
    ensures LeastClosed(fs, 0, [f], r)
  {
    var near := Select(fs, Some(f.smallest.user), Some(f.largest.user));
    SelectMembers(fs, Some(f.smallest.user), Some(f.largest.user));
    SmallestAtMostLargest(f);
    assert f in near;
    forall s: seq<File> | ClosedInputs(fs, 0, s) && Holds(s, [f])
      ensures Holds(s, r)
    {
      assert f in [f] && f in s;
      assert Holds(s, near);
    }
  }

  /** What the caller hands to SetupOtherInputs: in level 0 a set closed under overlap, deeper a run of files. */
  ghost predicate StartInputs(fs: seq<File>, level: nat, inputs: seq<File>) {
    if level == 0 then ClosedInputs(fs, level, inputs)
    else IsSomeSlice(fs, inputs)
  }

  ghost predicate IsSlice(fs: seq<File>, lo: nat, hi: nat, s: seq<File>) {
    lo < hi <= |fs| && s == fs[lo..hi]
  }

  ghost predicate IsSomeSlice(fs: seq<File>, s: seq<File>) {
    exists lo: nat, hi: nat :: IsSlice(fs, lo, hi, s)
  }

  method AddBoundaries(fs: seq<File>, level: nat, inputs: seq<File>) returns (r: seq<File>)
    requires ValidFiles(fs) && (level > 0 ==> Disjoint(fs))
    requires StartInputs(fs, level, inputs)
    ensures ClosedInputs(fs, level, r)
    ensures inputs <= r
    ensures level == 0 ==> r == inputs
    ensures level > 0 ==> LeastClosed(fs, level, inputs, r)
  {
    ghost var added, start;
    r, added, start := AddBoundaryInputs(fs, inputs);
    if level == 0 {
      NoBoundaryInLevel0(fs, inputs, added, start);
    } else {
      BoundariesCloseSlice(fs, level, inputs, added, start);
      BoundariesAreLeast(fs, level, inputs, added, start);
    }
  }

  lemma BoundariesAreLeast(fs: seq<File>, level: nat, inputs: seq<File>, added: seq<File>, start: InternalKey)
    requires ValidFiles(fs) && level > 0 && IsLargestKey(inputs, start) && BoundaryChain(fs, start, added)
    requires ClosedInputs(fs, level, inputs + added) && IsSomeSlice(fs, inputs + added)
    ensures LeastClosed(fs, level, inputs, inputs + added)
  {
    hide ClosedInputs, BoundaryChain, IsSomeSlice;
    forall s: seq<File> | ClosedInputs(fs, level, s) && Holds(s, inputs)
      ensures Holds(s, inputs + added)
    {
      ChainIsHeld(fs, level, inputs, added, start, s);
    }
  }

  /** A set closed under overlap already contains every file that continues it. */
  lemma NoBoundaryInLevel0(fs: seq<File>, inputs: seq<File>, added: seq<File>, start: InternalKey)
    requires ValidFiles(fs) && ClosedInputs(fs, 0, inputs)
    requires IsLargestKey(inputs, start) && BoundaryChain(fs, start, added)
    ensures added == []
  {
    if added != [] {
      assert FirstContinuation(fs, EndKey(start, added, 0), added[0]);
      var f :| f in inputs && f.largest == start;
      SmallestAtMostLargest(f);
      SmallestAtMostLargest(added[0]);
      assert UserOverlap(f, added[0]);
      assert false;
    }
  }

  lemma BoundariesCloseSlice(fs: seq<File>, level: nat, inputs: seq<File>, added: seq<File>, start: InternalKey)
    requires ValidFiles(fs) && Disjoint(fs) && level > 0 && StartInputs(fs, level, inputs)
    requires IsLargestKey(inputs, start) && BoundaryChain(fs, start, added)
    requires forall f | f in fs :: !ContinuesAt(f, EndKey(start, added, |added|))
    ensures ClosedInputs(fs, level, inputs + added) && IsSomeSlice(fs, inputs + added)
  {
    hide ClosedInputs;
    var lo: nat, hi: nat :| IsSlice(fs, lo, hi, inputs);
    ChainExtendsSlice(fs, lo, hi, inputs, added, start);
    assert IsSlice(fs, lo, hi + |added|, inputs + added);
    CleanSliceIsClosed(fs, lo, hi + |added|, level, inputs + added);
  }

  lemma ChainExtendsSlice(fs: seq<File>, lo: nat, hi: nat, inputs: seq<File>, added: seq<File>, start: InternalKey)
    requires ValidFiles(fs) && Disjoint(fs) && IsSlice(fs, lo, hi, inputs)
    requires IsLargestKey(inputs, start) && BoundaryChain(fs, start, added)
    requires forall f | f in fs :: !ContinuesAt(f, EndKey(start, added, |added|))
    ensures hi + |added| <= |fs| && CleanSlice(fs, lo, hi + |added|)
    ensures inputs + added == fs[lo..hi + |added|]
  {
    LargestOfSlice(fs, lo, hi, start);
    ChainIsSlice(fs, hi, added);
    JoinSlices(fs, lo, hi, hi + |added|, inputs, added);
    SliceEndsClean(fs, lo, hi, added);
  }

  lemma JoinSlices<T>(fs: seq<T>, lo: nat, mid: nat, hi: nat, a: seq<T>, b: seq<T>)
    requires lo <= mid <= hi <= |fs| && a == fs[lo..mid] && b == fs[mid..hi]
    ensures a + b == fs[lo..hi]
  {
  }

  lemma SliceEndsClean(fs: seq<File>, lo: nat, hi: nat, added: seq<File>)
    requires Disjoint(fs) && lo < hi && hi + |added| <= |fs| && added == fs[hi..hi + |added|]
    requires forall f | f in fs :: !ContinuesAt(f, EndKey(fs[hi - 1].largest, added, |added|))
    ensures CleanSlice(fs, lo, hi + |added|)
  {
    var end := hi + |added|;
    assert fs[end - 1].largest == EndKey(fs[hi - 1].largest, added, |added|);
    if end < |fs| {
      assert Before(fs[end - 1].largest, fs[end].smallest);
      assert fs[end] in fs;
    }
  }

  /** The files of the next level that share user keys with the hull of the inputs. */
  ghost predicate ParentInputs(fs: seq<File>, inputs: seq<File>, parents: seq<File>) {
    exists s, l :: IsHull(inputs, s, l) && parents == Select(fs, Some(s.user), Some(l.user))
  }

  method SelectRange(fs: seq<File>, level: nat, s: InternalKey, l: InternalKey) returns (r: seq<File>)
    requires ValidFiles(fs) && (level > 0 ==> Disjoint(fs))
    ensures level > 0 ==> r == Select(fs, Some(s.user), Some(l.user))
    ensures forall f | f in fs && Overlaps(f, Some(s.user), Some(l.user)) :: f in r
    ensures r != [] ==> StartInputs(fs, level, r)
    ensures r != [] && level == 0 ==> LeastClosed(fs, 0, Select(fs, Some(s.user), Some(l.user)), r)
  {
    ghost var b, e;
    r, b, e := GetOverlappingInputs(fs, level, Some(s.user), Some(l.user));
    SelectMembers(fs, b, e);
    if r != [] {
      SelectionIsStart(fs, level, Some(s.user), Some(l.user), r, b, e);
      if level == 0 {
        ClosureIsLeast(fs, Some(s.user), Some(l.user), r, b, e);
      }
    }
  }

  /** What GetOverlappingInputs returns is a legal start for SetupOtherInputs. */
  lemma SelectionIsStart(fs: seq<File>, level: nat, begin: Bound, end: Bound, r: seq<File>, b: Bound, e: Bound)
    requires ValidFiles(fs) && (level > 0 ==> Disjoint(fs))
    requires r != [] && r == Select(fs, b, e)
    requires level == 0 ==> forall f :: f in r <==> Reached(fs, begin, end, f)
    ensures StartInputs(fs, level, r)
  {
    SelectMembers(fs, b, e);
    if level == 0 {
      forall f, g | f in r && g in fs && g !in r && UserOverlap(f, g)
        ensures false
      {
        ReachedStep(fs, begin, end, f, g);
      }
    } else {
      var lo, hi := SelectIsSlice(fs, b, e);
      assert IsSlice(fs, lo, hi, r);
    }
  }

  /** The outcome of SetupOtherInputs. */
  datatype Chosen = Chosen(inputs0: seq<File>, inputs1: seq<File>, grandparents: seq<File>, pointer: InternalKey)

  ghost predicate GoodChoice(fs: seq<File>, parents: seq<File>, level: nat, c: Chosen) {
    && ClosedInputs(fs, level, c.inputs0)
    && ParentInputs(parents, c.inputs0, c.inputs1)
    && (exists s :: IsHull(c.inputs0, s, c.pointer))
    && (level > 0 ==> IsSomeSlice(fs, c.inputs0))
  }

  /** The files that a wider selection would take: those that overlap the hull of all inputs, closed again. */
  ghost predicate Widened(fs: seq<File>, level: nat, all: seq<File>, wider: seq<File>) {
    exists s, l :: IsHull(all, s, l) && LeastClosed(fs, level, Select(fs, Some(s.user), Some(l.user)), wider)
  }

  /** How the wanted files lead to the inputs: they are closed, and widened if that adds files of this level, stays
      under the limit and leaves the files of the next level as they are. */
  ghost predicate ChosenFrom(fs: seq<File>, parents: seq<File>, level: nat, wanted: seq<File>, limit: nat,
                             first: seq<File>, wider: seq<File>, c: Chosen) {
    && LeastClosed(fs, level, wanted, first) && ParentInputs(parents, first, c.inputs1)
    && (c.inputs1 != [] ==> Widened(fs, level, first + c.inputs1, wider))
    && c.inputs0 ==
         (if c.inputs1 != [] && |wider| > |first| && TotalFileSize(c.inputs1) + TotalFileSize(wider) < limit
             && ParentInputs(parents, wider, c.inputs1)
          then wider else first)
    && exists s :: IsHull(c.inputs0, s, c.pointer)
  }

  ghost predicate Chooses(fs: seq<File>, parents: seq<File>, level: nat, wanted: seq<File>, limit: nat, c: Chosen) {
    exists first, wider :: ChosenFrom(fs, parents, level, wanted, limit, first, wider, c)
  }

  lemma SameChoice(fs: seq<File>, parents: seq<File>, level: nat, wanted: seq<File>, limit: nat, c: Chosen,
                   grandparents: seq<File>)
    requires Chooses(fs, parents, level, wanted, limit, c)
    ensures Chooses(fs, parents, level, wanted, limit, c.(grandparents := grandparents))
  {
    hide ChosenFrom;
    var first, wider :| ChosenFrom(fs, parents, level, wanted, limit, first, wider, c);
    SameChosen(fs, parents, level, wanted, limit, first, wider, c, grandparents);
  }

  lemma SameChosen(fs: seq<File>, parents: seq<File>, level: nat, wanted: seq<File>, limit: nat, first: seq<File>,
                   wider: seq<File>, c: Chosen, grandparents: seq<File>)
    requires ChosenFrom(fs, parents, level, wanted, limit, first, wider, c)
    ensures ChosenFrom(fs, parents, level, wanted, limit, first, wider, c.(grandparents := grandparents))
  {
    hide LeastClosed, ParentInputs, Widened, IsHull, TotalFileSize;
  }

  /** The inputs before expansion: boundary files, then the overlapping files one level down. */
  method FirstChoice(fs: seq<File>, parents: seq<File>, level: nat, start: seq<File>) returns (c: Chosen)
    requires ValidFiles(fs) && (level > 0 ==> Disjoint(fs))
    requires ValidFiles(parents) && Disjoint(parents)
    requires StartInputs(fs, level, start)
    ensures GoodChoice(fs, parents, level, c)
    ensures start <= c.inputs0 && c.grandparents == []
    ensures if level == 0 then c.inputs0 == start else LeastClosed(fs, level, start, c.inputs0)
  {
    var inputs0 := AddBoundaries(fs, level, start);
    var smallest, largest := GetRange(inputs0);
    var inputs1 := SelectRange(parents, level + 1, smallest, largest);
    c := Chosen(inputs0, inputs1, [], largest);
  }

  /** More files of this level, if they cost no further file below. The source compares only the number of
      files below; that is the same as comparing the files. */
  method TryExpand(fs: seq<File>, parents: seq<File>, level: nat, c: Chosen, expandedSizeLimit: nat)
    returns (r: Chosen, ghost expanded0: seq<File>)
    requires ValidFiles(fs) && (level > 0 ==> Disjoint(fs))
    requires ValidFiles(parents) && Disjoint(parents)
    requires GoodChoice(fs, parents, level, c) && c.inputs1 != []
    ensures GoodChoice(fs, parents, level, r)
    ensures forall f | f in c.inputs0 :: f in r.inputs0
    ensures r.inputs1 == c.inputs1 && (r != c ==> r.grandparents == [])
    ensures Widened(fs, level, c.inputs0 + c.inputs1, expanded0)
    ensures r.inputs0 ==
              if |expanded0| > |c.inputs0| && TotalFileSize(c.inputs1) + TotalFileSize(expanded0) < expandedSizeLimit
                 && ParentInputs(parents, expanded0, c.inputs1)
              then expanded0 else c.inputs0
  {
    r := c;
    var expanded := ExpandedInputs(fs, level, c.inputs0, c.inputs0 + c.inputs1);
    expanded0 := expanded;
    if |expanded| > |c.inputs0| && TotalFileSize(c.inputs1) + TotalFileSize(expanded) < expandedSizeLimit {
      var newStart, newLimit := GetRange(expanded);
      var expanded1 := SelectRange(parents, level + 1, newStart, newLimit);
      EqualCountIsEqualSet(parents, c.inputs0, c.inputs1, expanded0, newStart, newLimit);
      OneHull(parents, expanded0, newStart, newLimit, c.inputs1);
      if |expanded1| == |c.inputs1| {
        r := Chosen(expanded, expanded1, [], newLimit);
      }
    }
  }

  method ExpandedInputs(fs: seq<File>, level: nat, inputs0: seq<File>, all: seq<File>) returns (r: seq<File>)
    requires ValidFiles(fs) && (level > 0 ==> Disjoint(fs))
    requires inputs0 != [] && inputs0 <= all && forall f | f in inputs0 :: f in fs
    ensures ClosedInputs(fs, level, r)
    ensures level > 0 ==> IsSomeSlice(fs, r)
    ensures forall f | f in inputs0 :: f in r
    ensures Widened(fs, level, all, r)
  {
    var allStart, allLimit := GetRange(all);
    var selected := SelectRange(fs, level, allStart, allLimit);
    HullSelectsInputs(fs, inputs0, all, allStart, allLimit);
    assert inputs0[0] in selected;
    r := AddBoundaries(fs, level, selected);
    assert IsHull(all, allStart, allLimit)
        && LeastClosed(fs, level, Select(fs, Some(allStart.user), Some(allLimit.user)), r);
  }

  /** The hull of a list of files is unique up to the keys, so its overlap with the next level is. */
  lemma OneHull(parents: seq<File>, files: seq<File>, s: InternalKey, l: InternalKey, inputs1: seq<File>)
    requires IsHull(files, s, l)
    ensures ParentInputs(parents, files, inputs1) <==> inputs1 == Select(parents, Some(s.user), Some(l.user))
  {
    if ParentInputs(parents, files, inputs1) {
      var s', l' :| IsHull(files, s', l') && inputs1 == Select(parents, Some(s'.user), Some(l'.user));
      WiderHull(files, s, l, files, s', l');
      WiderHull(files, s', l', files, s, l);
    }
  }

  /** Widening the hull keeps the number of overlapping files exactly when it keeps the files. */
  lemma EqualCountIsEqualSet(parents: seq<File>, inputs0: seq<File>, inputs1: seq<File>, expanded0: seq<File>,
                             s: InternalKey, l: InternalKey)
    requires ParentInputs(parents, inputs0, inputs1)
    requires IsHull(expanded0, s, l)
    requires forall f | f in inputs0 :: f in expanded0
    ensures |Select(parents, Some(s.user), Some(l.user))| == |inputs1|
       <==> Select(parents, Some(s.user), Some(l.user)) == inputs1
  {
    var s0, l0 :| IsHull(inputs0, s0, l0) && inputs1 == Select(parents, Some(s0.user), Some(l0.user));
    WiderHull(inputs0, s0, l0, expanded0, s, l);
    WiderSelect(parents, Some(s.user), Some(l.user), Some(s0.user), Some(l0.user));
  }

  /** SetupOtherInputs. */
  method SetupOtherInputs(levels: Levels, level: nat, start: seq<File>, expandedSizeLimit: nat, ghost wanted: seq<File>)
    returns (c: Chosen)
    requires WellFormed(levels) && level + 1 < NUM_LEVELS
    requires StartInputs(levels[level], level, start)
    requires if level == 0 then LeastClosed(levels[0], 0, wanted, start) else wanted == start
    ensures Chooses(levels[level], levels[level + 1], level, wanted, expandedSizeLimit, c)
    ensures GoodChoice(levels[level], levels[level + 1], level, c)
    ensures forall f | f in start :: f in c.inputs0
    ensures HasGrandparents(levels, level, c)
  {
    hide LeastClosed, ParentInputs, Widened, IsHull, TotalFileSize, ClosedInputs, IsSomeSlice, InOrder, Chooses,
         WellFormed, Select, ValidFiles, Disjoint, Overlaps;
    LevelReady(levels, level);
    LevelReady(levels, level + 1);
    ghost var fs, parents := levels[level], levels[level + 1];
    c := FirstChoice(levels[level], levels[level + 1], level, start);
    ghost var first, wider: seq<File> := c.inputs0, [];
    ChoicePointer(fs, parents, level, c);
    if c.inputs1 != [] {
      c, wider := TryExpand(levels[level], levels[level + 1], level, c, expandedSizeLimit);
      ChoicePointer(fs, parents, level, c);
    }
    assert ChosenFrom(fs, parents, level, wanted, expandedSizeLimit, first, wider, c);
    ChosenIsChoice(fs, parents, level, wanted, expandedSizeLimit, first, wider, c);
    if level + 2 < NUM_LEVELS {
      LevelReady(levels, level + 2);
      var allStart, allLimit := GetRange(c.inputs0 + c.inputs1);
      var grandparents := SelectRange(levels[level + 2], level + 2, allStart, allLimit);
      HullGivesParents(levels[level + 2], c.inputs0 + c.inputs1, allStart, allLimit);
      SameChoice(fs, parents, level, wanted, expandedSizeLimit, c, grandparents);
      c := c.(grandparents := grandparents);
    }
  }

  /** The grandparents are the files two levels down that share user keys with the hull of all inputs. */
  ghost predicate HasGrandparents(levels: Levels, level: nat, c: Chosen) {
    if level + 2 < |levels| then ParentInputs(levels[level + 2], c.inputs0 + c.inputs1, c.grandparents)
    else c.grandparents == []
  }

  lemma ChosenIsChoice(fs: seq<File>, parents: seq<File>, level: nat, wanted: seq<File>, limit: nat, first: seq<File>,
                       wider: seq<File>, c: Chosen)
    requires ChosenFrom(fs, parents, level, wanted, limit, first, wider, c)
    ensures Chooses(fs, parents, level, wanted, limit, c)
  {
    hide ChosenFrom;
  }

  lemma ChoicePointer(fs: seq<File>, parents: seq<File>, level: nat, c: Chosen)
    requires GoodChoice(fs, parents, level, c)
    ensures c.inputs0 != [] && ParentInputs(parents, c.inputs0, c.inputs1)
    ensures exists s :: IsHull(c.inputs0, s, c.pointer)
  {
  }

  lemma HullGivesParents(fs: seq<File>, inputs: seq<File>, s: InternalKey, l: InternalKey)
    requires IsHull(inputs, s, l)
    ensures ParentInputs(fs, inputs, Select(fs, Some(s.user), Some(l.user)))
  {
  }

  /** Selecting by the hull of a list finds every file of the list again. */
  lemma HullSelectsInputs(fs: seq<File>, inputs: seq<File>, all: seq<File>, s: InternalKey, l: InternalKey)
    requires ValidFiles(fs) && IsHull(all, s, l)
    requires forall f | f in inputs :: f in fs && f in all
    ensures forall f | f in inputs :: Overlaps(f, Some(s.user), Some(l.user))
  {
    forall f | f in inputs
      ensures Overlaps(f, Some(s.user), Some(l.user))
    {
      SmallestAtMostLargest(f);
    }
  }

  lemma WiderHull(a: seq<File>, s: InternalKey, l: InternalKey, b: seq<File>, s': InternalKey, l': InternalKey)
    requires IsHull(a, s, l) && IsHull(b, s', l')
    requires forall f | f in a :: f in b
    ensures s'.user <= s.user && l.user <= l'.user
  {
    var f :| f in a && f.smallest == s;
    var g :| g in a && g.largest == l;
    assert AtMost(s', f.smallest) && AtMost(g.largest, l');
  }

  /** The file the compaction pointer leads to: the first that ends after it, or file 0 when there is none. */
  ghost predicate FollowsPointer(files: seq<File>, pointer: Option<InternalKey>, k: nat) {
    && k < |files|
    && if pointer.None? then k == 0
       else if EndsAfter(files[k], pointer.value) then forall i | 0 <= i < k :: !EndsAfter(files[i], pointer.value)
       else k == 0 && forall i | 0 <= i < |files| :: !EndsAfter(files[i], pointer.value)
  }

  predicate EndsAfter(f: File, key: InternalKey) {
    Before(key, f.largest)
  }

  method PickAfterPointer(files: seq<File>, pointer: Option<InternalKey>) returns (pick: nat)
    requires files != []
    ensures pick < |files| && FollowsPointer(files, pointer, pick)
  {
    for i := 0 to |files|
      invariant i > 0 ==> pointer.Some?
      invariant forall k | 0 <= k < i :: !EndsAfter(files[k], pointer.value)
    {
      if pointer.Some? {
        ComparePackedIsBefore(files[i].largest, pointer.value);
      }
      if pointer.None? || Compare(files[i].largest, pointer.value) > 0 {
        return i;
      }
    }
    return 0;
  }

  /** PickCompaction: the file after the compaction pointer, wrapping around, or the file the seek statistics named. */
  method PickCompaction(levels: Levels, level: nat, pointer: Option<InternalKey>, seekFile: Option<nat>,
                        expandedSizeLimit: nat)
    returns (c: Chosen, ghost pick: nat)
    requires WellFormed(levels) && level + 1 < NUM_LEVELS && levels[level] != []
    requires seekFile.Some? ==> seekFile.value < |levels[level]|
    ensures GoodChoice(levels[level], levels[level + 1], level, c)
    ensures if seekFile.Some? then pick == seekFile.value else FollowsPointer(levels[level], pointer, pick)
    ensures pick < |levels[level]|
    ensures Chooses(levels[level], levels[level + 1], level, [levels[level][pick]], expandedSizeLimit, c)
    ensures HasGrandparents(levels, level, c)
  {
    hide FollowsPointer, WellFormed, Chooses;
    LevelReady(levels, level);
    var files := levels[level];
    var i: nat := 0;
    if seekFile.Some? {
      i := seekFile.value;
    } else {
      i := PickAfterPointer(files, pointer);
    }
    pick := i;
    var start := [files[i]];
    if level == 0 {
      var s, l := GetRange(start);
      start := SelectRange(files, 0, s, l);
      SmallestAtMostLargest(files[i]);
      assert files[i] in [files[i]] && files[i] in start;
      LeastOfOne(files, files[i], start);
    } else {
      assert IsSlice(files, i, i + 1, start);
    }
    c := SetupOtherInputs(levels, level, start, expandedSizeLimit, [files[i]]);
  }

  /** The first files whose sizes reach the limit, or all of them. */
  function Cut(files: seq<File>, total: nat, limit: nat): seq<File> {
    if files == [] then []
    else [files[0]] + if total + files[0].size >= limit then [] else Cut(files[1..], total + files[0].size, limit)
  }

  /** The cut is a first run that stops as soon as its size reaches the limit. */
  lemma {:induction false} CutStopsAtLimit(files: seq<File>, total: nat, limit: nat, k: nat)
    ensures var c := Cut(files, total, limit);
            && c <= files && (files != [] ==> c != [])
            && (|c| < |files| ==> total + TotalFileSize(c) >= limit)
            && (0 < k < |c| ==> total + TotalFileSize(files[..k]) < limit)
    decreases |files|
  {
    if files != [] && total + files[0].size < limit {
      var c := Cut(files, total, limit);
      CutStopsAtLimit(files[1..], total + files[0].size, limit, if k > 0 then k - 1 else 0);
      assert c[1..] == Cut(files[1..], total + files[0].size, limit);
      if 0 < k < |c| {
        assert files[..k][1..] == files[1..][..k - 1];
      }
    }
  }

  lemma CutStart(files: seq<File>, limit: nat)
    ensures Cut(files, 0, limit) == files[..0] + Cut(files[0..], 0, limit)
  {
    assert files[0..] == files && files[..0] == [];
  }

  lemma CutEnd(files: seq<File>, total: nat, limit: nat)
    ensures files[..|files|] + Cut(files[|files|..], total, limit) == files
  {
    assert files[..|files|] == files;
  }

  lemma CutStep(files: seq<File>, i: nat, total: nat, limit: nat)
    requires i < |files|
    ensures files[..i] + Cut(files[i..], total, limit) ==
              files[..i + 1] + if total + files[i].size >= limit
              then []
              else Cut(files[i + 1..], total + files[i].size, limit)
  {
    var rest := files[i..];
    var last := if total + files[i].size >= limit then [] else Cut(files[i + 1..], total + files[i].size, limit);
    assert rest[0] == files[i] && rest[1..] == files[i + 1..];
    assert Cut(rest, total, limit) == [files[i]] + last;
    hide Cut;
    assert files[..i + 1] == files[..i] + [files[i]];
    assert files[..i] + ([files[i]] + last) == files[..i] + [files[i]] + last;
  }

  lemma PrefixIsSlice(fs: seq<File>, inputs: seq<File>, n: nat)
    requires IsSomeSlice(fs, inputs) && 0 < n <= |inputs|
    ensures IsSomeSlice(fs, inputs[..n])
  {
    var lo: nat, hi: nat :| IsSlice(fs, lo, hi, inputs);
    assert IsSlice(fs, lo, lo + n, inputs[..n]);
  }

  /** Below level 0 a manual compaction takes only a first run of the files, up to the size limit. */
  method LimitSize(fs: seq<File>, level: nat, inputs: seq<File>, maxFileSize: nat) returns (r: seq<File>)
    requires StartInputs(fs, level, inputs) && level > 0
    ensures StartInputs(fs, level, r) && r == Cut(inputs, 0, maxFileSize)
  {
    hide *;
    StartIsSlice(fs, level, inputs);
    var total: nat := 0;
    r := inputs;
    CutStart(inputs, maxFileSize);
    for i := 0 to |inputs|
      invariant r == inputs
      invariant Cut(inputs, 0, maxFileSize) == inputs[..i] + Cut(inputs[i..], total, maxFileSize)
    {
      CutStep(inputs, i, total, maxFileSize);
      total := total + inputs[i].size;
      if total >= maxFileSize {
        PrefixIsSlice(fs, inputs, i + 1);
        SliceIsStart(fs, level, inputs[..i + 1]);
        assert inputs[..i + 1] + [] == inputs[..i + 1];
        return inputs[..i + 1];
      }
    }
    CutEnd(inputs, total, maxFileSize);
  }

  lemma StartIsSlice(fs: seq<File>, level: nat, inputs: seq<File>)
    requires StartInputs(fs, level, inputs) && level > 0
    ensures IsSomeSlice(fs, inputs)
  {
  }

  lemma SliceIsStart(fs: seq<File>, level: nat, inputs: seq<File>)
    requires IsSomeSlice(fs, inputs) && level > 0
    ensures StartInputs(fs, level, inputs)
  {
  }

  /** CompactRange: nothing when no file overlaps the range. */
  method CompactRange(levels: Levels, level: nat, begin: Bound, end: Bound, maxFileSize: nat, expandedSizeLimit: nat)
    returns (c: Option<Chosen>)
    requires WellFormed(levels) && level + 1 < NUM_LEVELS
    ensures c.None? <==> forall f | f in levels[level] :: !Overlaps(f, begin, end)
    ensures c.Some? ==> GoodChoice(levels[level], levels[level + 1], level, c.value)
    ensures c.Some? ==>
              var found := Select(levels[level], begin, end);
              Chooses(levels[level], levels[level + 1], level, if level == 0 then found else Cut(found, 0, maxFileSize),
                      expandedSizeLimit, c.value)
    ensures c.Some? ==> HasGrandparents(levels, level, c.value)
  {
    ghost var b, e;
    var inputs;
    inputs, b, e := GetOverlappingInputs(levels[level], level, begin, end);
    SelectMembers(levels[level], b, e);
    if inputs == [] {
      OverlapIsReached(levels[level], begin, end);
      return None;
    }
    assert inputs[0] in inputs;
    SelectionIsStart(levels[level], level, begin, end, inputs, b, e);
    ghost var wanted;
    if level == 0 {
      ClosureNotEmpty(levels[0], begin, end, inputs[0]);
      ClosureIsLeast(levels[0], begin, end, inputs, b, e);
      wanted := Select(levels[0], begin, end);
    } else {
      inputs := LimitSize(levels[level], level, inputs, maxFileSize);
      wanted := inputs;
    }
    var chosen := SetupOtherInputs(levels, level, inputs, expandedSizeLimit, wanted);
    c := Some(chosen);
  }

  lemma ClosureNotEmpty(fs: seq<File>, begin: Bound, end: Bound, f: File)
    requires Reached(fs, begin, end, f)
    ensures exists g :: g in fs && Overlaps(g, begin, end)
  {
    var n: nat :| ReachedIn(fs, begin, end, n, f);
    ClosureStartsSomewhere(fs, begin, end, n, f);
  }

  lemma {:induction false} ClosureStartsSomewhere(fs: seq<File>, begin: Bound, end: Bound, n: nat, f: File)
    requires ReachedIn(fs, begin, end, n, f)
    ensures exists g :: g in fs && Overlaps(g, begin, end)
    decreases n
  {
    if n > 0 {
      var g :| ReachedIn(fs, begin, end, n - 1, g) && UserOverlap(g, f);
      ClosureStartsSomewhere(fs, begin, end, n - 1, g);
    }
  }
}
