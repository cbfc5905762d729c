/** Choosing the inputs of a compaction (version_set.cc). File lists are values; the loops,
    restarts and in/out vectors of the source are methods over them. */
module Inputs {
  import opened Wrappers
  import opened InternalKeys
  import opened Tables

  /** An end of a user-key range; None is unbounded. */
  type Bound = Option<UserKey>

  predicate AfterFile(u: Bound, f: File) {
    u.Some? && u.value > f.largest.user
  }

  predicate BeforeFile(u: Bound, f: File) {
    u.Some? && u.value < f.smallest.user
  }

  predicate Overlaps(f: File, begin: Bound, end: Bound) {
    !AfterFile(begin, f) && !BeforeFile(end, f)
  }

  predicate UserOverlap(f: File, g: File) {
    f.smallest.user <= g.largest.user && g.smallest.user <= f.largest.user
  }

  /** The files overlapping a range, in list order. */
  function Select(fs: seq<File>, begin: Bound, end: Bound): seq<File> {
    if fs == [] then []
    else
      var rest := Select(fs[..|fs| - 1], begin, end);
      if Overlaps(fs[|fs| - 1], begin, end) then rest + [fs[|fs| - 1]] else rest
  }

  lemma {:induction false} SelectMembers(fs: seq<File>, begin: Bound, end: Bound)
    ensures forall f :: f in Select(fs, begin, end) <==> f in fs && Overlaps(f, begin, end)
    decreases |fs|
  {
    if fs != [] {
      SelectMembers(fs[..|fs| - 1], begin, end);
      assert forall f | f in fs :: f in fs[..|fs| - 1] || f == fs[|fs| - 1];
    }
  }

  /** f is reached from [begin, end] by n further steps of user-range overlap. */
  ghost predicate ReachedIn(fs: seq<File>, begin: Bound, end: Bound, n: nat, f: File)
    decreases n
  {
    && f in fs
    && if n == 0 then Overlaps(f, begin, end)
       else exists g :: ReachedIn(fs, begin, end, n - 1, g) && UserOverlap(g, f)
  }

  /** The transitive closure of overlap from [begin, end]. */
  ghost predicate Reached(fs: seq<File>, begin: Bound, end: Bound, f: File) {
    exists n: nat :: ReachedIn(fs, begin, end, n, f)
  }

  lemma OverlapIsReached(fs: seq<File>, begin: Bound, end: Bound)
    ensures forall f | f in fs && Overlaps(f, begin, end) :: Reached(fs, begin, end, f)
  {
    forall f | f in fs && Overlaps(f, begin, end)
      ensures Reached(fs, begin, end, f)
    {
      assert ReachedIn(fs, begin, end, 0, f);
    }
  }

  lemma ReachedStep(fs: seq<File>, begin: Bound, end: Bound, g: File, f: File)
    requires Reached(fs, begin, end, g) && f in fs && UserOverlap(g, f)
    ensures Reached(fs, begin, end, f)
  {
    var n: nat :| ReachedIn(fs, begin, end, n, g);
    assert ReachedIn(fs, begin, end, n + 1, f);
  }

  predicate Within(f: File, begin: Bound, end: Bound) {
    && (begin.Some? ==> begin.value <= f.smallest.user)
    && (end.Some? ==> f.largest.user <= end.value)
  }

  predicate Wider(b1: Bound, e1: Bound, b2: Bound, e2: Bound) {
    && (b1.Some? == b2.Some?) && (e1.Some? == e2.Some?)
    && (b1.Some? ==> b1.value <= b2.value)
    && (e1.Some? ==> e2.value <= e1.value)
  }

  /** A range that no selected file sticks out of contains the whole closure. */
  lemma {:induction false} ClosureInside(fs: seq<File>, b: Bound, e: Bound, begin: Bound, end: Bound, n: nat, f: File)
    requires ValidFiles(fs)
    requires Wider(b, e, begin, end)
    requires forall g | g in fs && Overlaps(g, b, e) :: Within(g, b, e)
    requires ReachedIn(fs, begin, end, n, f)
    ensures Overlaps(f, b, e)
    decreases n
  {
    if n > 0 {
      var g :| ReachedIn(fs, begin, end, n - 1, g) && UserOverlap(g, f);
      ClosureInside(fs, b, e, begin, end, n - 1, g);
    }
  }

  /** How many files still stick out of the range on either side. */
  ghost function OutsideCount(fs: seq<File>, b: Bound, e: Bound): nat {
    if fs == [] then 0
    else
      (if b.Some? && fs[0].smallest.user < b.value then 1 else 0) +
      (if e.Some? && fs[0].largest.user > e.value then 1 else 0) + OutsideCount(fs[1..], b, e)
  }

  lemma {:induction false} WiderCount(fs: seq<File>, b1: Bound, e1: Bound, b2: Bound, e2: Bound)
    requires Wider(b1, e1, b2, e2)
    ensures OutsideCount(fs, b1, e1) <= OutsideCount(fs, b2, e2)
    ensures (exists f :: f in fs &&
              ((b1.Some? && b1.value <= f.smallest.user < b2.value)
               || (e1.Some? && e2.value < f.largest.user <= e1.value)))
            ==> OutsideCount(fs, b1, e1) < OutsideCount(fs, b2, e2)
  {
    if fs != [] {
      WiderCount(fs[1..], b1, e1, b2, e2);
      assert forall f | f in fs :: f == fs[0] || f in fs[1..];
    }
  }

  /** Version::GetOverlappingInputs. Deeper levels: the files overlapping the range. Level 0: every time an
      added file sticks out of the range the range grows and the scan restarts, and the result is
      exactly the closure of the range under overlap. */
  method GetOverlappingInputs(files: seq<File>, level: nat, begin: Bound, end: Bound)
    returns (inputs: seq<File>, ghost b: Bound, ghost e: Bound)
    requires ValidFiles(files)
    ensures inputs == Select(files, b, e) && Wider(b, e, begin, end)
    ensures level > 0 ==> b == begin && e == end
    ensures level == 0 ==> forall f :: f in inputs <==> Reached(files, begin, end, f)
  {
    inputs := [];
    var userBegin, userEnd := begin, end;
    var i := 0;
    OverlapIsReached(files, begin, end);
    while i < |files|
      invariant i <= |files|
      invariant inputs == Select(files[..i], userBegin, userEnd)
      invariant Wider(userBegin, userEnd, begin, end)
      invariant level > 0 ==> userBegin == begin && userEnd == end
      invariant level == 0 ==> forall f | f in inputs :: Within(f, userBegin, userEnd)
      invariant forall f | f in files && Overlaps(f, userBegin, userEnd) :: Reached(files, begin, end, f)
      decreases OutsideCount(files, userBegin, userEnd), |files| - i
    {
      var f := files[i];
      i := i + 1;
      assert files[..i][..i - 1] == files[..i - 1];
      if userBegin.Some? && f.largest.user < userBegin.value {
        // completely before the range
      } else if userEnd.Some? && f.smallest.user > userEnd.value {
        // completely after the range
      } else {
        inputs := inputs + [f];
        if level == 0 {
          if userBegin.Some? && f.smallest.user < userBegin.value {
            GrowKeepsReached(files, begin, end, f, userBegin, userEnd, Some(f.smallest.user), userEnd);
            WiderCount(files, Some(f.smallest.user), userEnd, userBegin, userEnd);
            userBegin := Some(f.smallest.user);
            inputs := [];
            i := 0;
          } else if userEnd.Some? && f.largest.user > userEnd.value {
            GrowKeepsReached(files, begin, end, f, userBegin, userEnd, userBegin, Some(f.largest.user));
            WiderCount(files, userBegin, Some(f.largest.user), userBegin, userEnd);
            userEnd := Some(f.largest.user);
            inputs := [];
            i := 0;
          }
        }
      }
    }
    assert files[..i] == files;
    b, e := userBegin, userEnd;
    SelectMembers(files, b, e);
    if level == 0 {
      forall f | Reached(files, begin, end, f)
        ensures f in inputs
      {
        var n: nat :| ReachedIn(files, begin, end, n, f);
        ClosureInside(files, b, e, begin, end, n, f);
      }
    }
  }

  /** Stretching one end of the range to cover a file that overlaps it adds only files reached through that file. */
  lemma GrowKeepsReached(fs: seq<File>, begin: Bound, end: Bound, f: File, b: Bound, e: Bound, b': Bound, e': Bound)
    requires ValidFiles(fs) && f in fs && Overlaps(f, b, e)
    requires forall g | g in fs && Overlaps(g, b, e) :: Reached(fs, begin, end, g)
    requires Wider(b', e', b, e)
    requires b' == b || (b'.Some? && b'.value == f.smallest.user)
    requires e' == e || (e'.Some? && e'.value == f.largest.user)
    ensures forall g | g in fs && Overlaps(g, b', e') :: Reached(fs, begin, end, g)
  {
    forall g | g in fs && Overlaps(g, b', e')
      ensures Reached(fs, begin, end, g)
    {
      if !Overlaps(g, b, e) {
        UserRange(fs, f);
        UserRange(fs, g);
        ReachedStep(fs, begin, end, f, g);
      }
    }
  }

  lemma UserRange(fs: seq<File>, f: File)
    requires ValidFiles(fs) && f in fs
    ensures f.smallest.user <= f.largest.user
  {
    SmallestAtMostLargest(f);
  }

  // ----- what a selection looks like in a sorted level -----

  lemma {:induction false} SelectConcat(a: seq<File>, c: seq<File>, b: Bound, e: Bound)
    ensures Select(a + c, b, e) == Select(a, b, e) + Select(c, b, e)
    decreases |c|
  {
    if c == [] {
      assert a + c == a;
    } else {
      var n := |c| - 1;
      assert (a + c)[..|a + c| - 1] == a + c[..n];
      SelectConcat(a, c[..n], b, e);
    }
  }

  lemma {:induction false} SelectEvery(fs: seq<File>, b: Bound, e: Bound)
    requires forall i | 0 <= i < |fs| :: Overlaps(fs[i], b, e)
    ensures Select(fs, b, e) == fs
    decreases |fs|
  {
    if fs != [] {
      SelectEvery(fs[..|fs| - 1], b, e);
      assert fs == fs[..|fs| - 1] + [fs[|fs| - 1]];
    }
  }

  lemma {:induction false} SelectNone(fs: seq<File>, b: Bound, e: Bound)
    requires forall i | 0 <= i < |fs| :: !Overlaps(fs[i], b, e)
    ensures Select(fs, b, e) == []
    decreases |fs|
  {
    if fs != [] {
      SelectNone(fs[..|fs| - 1], b, e);
    }
  }

  /** In a sorted level the files overlapping a range are consecutive. */
  lemma SelectIsSlice(fs: seq<File>, b: Bound, e: Bound) returns (lo: nat, hi: nat)
    requires ValidFiles(fs) && Disjoint(fs)
    ensures lo <= hi <= |fs| && Select(fs, b, e) == fs[lo..hi]
    ensures forall i | 0 <= i < lo :: AfterFile(b, fs[i])
    ensures forall i | hi <= i < |fs| :: BeforeFile(e, fs[i])
  {
    lo := 0;
    while lo < |fs| && AfterFile(b, fs[lo])
      invariant lo <= |fs|
      invariant forall i | 0 <= i < lo :: AfterFile(b, fs[i])
    {
      lo := lo + 1;
    }
    DisjointLargest(fs);
    assert forall i | lo <= i < |fs| :: !AfterFile(b, fs[i]);
    hi := lo;
    while hi < |fs| && !BeforeFile(e, fs[hi])
      invariant lo <= hi <= |fs|
      invariant forall i | lo <= i < hi :: Overlaps(fs[i], b, e)
    {
      hi := hi + 1;
    }
      forall i | hi <= i < |fs|
      ensures BeforeFile(e, fs[i])
    {
      if i > hi {
        SmallestAtMostLargest(fs[hi]);
        assert Before(fs[hi].largest, fs[i].smallest);
      }
    }
    SelectMiddle(fs, lo, hi, b, e);
  }

  lemma SelectMiddle(fs: seq<File>, lo: nat, hi: nat, b: Bound, e: Bound)
    requires lo <= hi <= |fs|
    requires forall i | 0 <= i < |fs| :: Overlaps(fs[i], b, e) <==> lo <= i < hi
    ensures Select(fs, b, e) == fs[lo..hi]
  {
    assert fs == (fs[..lo] + fs[lo..hi]) + fs[hi..];
    SelectConcat(fs[..lo] + fs[lo..hi], fs[hi..], b, e);
    SelectConcat(fs[..lo], fs[lo..hi], b, e);
    SelectNone(fs[..lo], b, e);
    SelectEvery(fs[lo..hi], b, e);
    SelectNone(fs[hi..], b, e);
  }

  /** A wider range selects at least as many files, and if it selects equally many it selects the same ones. */
  lemma {:induction false} WiderSelect(fs: seq<File>, b1: Bound, e1: Bound, b2: Bound, e2: Bound)
    requires forall f | f in fs && Overlaps(f, b2, e2) :: Overlaps(f, b1, e1)
    ensures |Select(fs, b2, e2)| <= |Select(fs, b1, e1)|
    ensures |Select(fs, b2, e2)| == |Select(fs, b1, e1)| <==> Select(fs, b2, e2) == Select(fs, b1, e1)
    decreases |fs|
  {
    if fs != [] {
      WiderSelect(fs[..|fs| - 1], b1, e1, b2, e2);
      assert fs[|fs| - 1] in fs;
    }
  }

  // ----- the hull of a list of files -----

  function TotalFileSize(fs: seq<File>): nat {
    if fs == [] then 0 else fs[0].size + TotalFileSize(fs[1..])
  }

  /** The size of one file is its own, and sizes add up. */
  lemma {:induction false} SizesAddUp(a: seq<File>, b: seq<File>, f: File)
    ensures TotalFileSize(a + b) == TotalFileSize(a) + TotalFileSize(b)
    ensures TotalFileSize([f]) == f.size && TotalFileSize([]) == 0
  {
    assert [f][1..] == [];
    if a == [] {
      assert a + b == b;
    } else {
      SizesAddUp(a[1..], b, f);
      assert (a + b)[1..] == a[1..] + b;
    }
  }

  ghost predicate IsHull(fs: seq<File>, smallest: InternalKey, largest: InternalKey) {
    && (forall f | f in fs :: AtMost(smallest, f.smallest) && AtMost(f.largest, largest))
    && (exists f :: f in fs && f.smallest == smallest)
    && (exists f :: f in fs && f.largest == largest)
  }

  method GetRange(inputs: seq<File>) returns (smallest: InternalKey, largest: InternalKey)
    requires inputs != []
    ensures IsHull(inputs, smallest, largest)
  {
    smallest, largest := inputs[0].smallest, inputs[0].largest;
    var i := 1;
    while i < |inputs|
      invariant 1 <= i <= |inputs|
      invariant IsHull(inputs[..i], smallest, largest)
    {
      var f := inputs[i];
      ComparePackedIsBefore(f.smallest, smallest);
      ComparePackedIsBefore(f.largest, largest);
      ghost var s0, l0 := smallest, largest;
      if Compare(f.smallest, smallest) < 0 {
        smallest := f.smallest;
      }
      if Compare(f.largest, largest) > 0 {
        largest := f.largest;
      }
      HullExtends(inputs[..i], s0, l0, f, smallest, largest);
      assert inputs[..i + 1] == inputs[..i] + [f];
      i := i + 1;
    }
    assert inputs[..i] == inputs;
  }

  lemma HullExtends(fs: seq<File>, s: InternalKey, l: InternalKey, f: File, s': InternalKey, l': InternalKey)
    requires IsHull(fs, s, l)
    requires s' == if Before(f.smallest, s) then f.smallest else s
    requires l' == if Before(l, f.largest) then f.largest else l
    ensures IsHull(fs + [f], s', l')
  {
    var a :| a in fs && a.smallest == s;
    var b :| b in fs && b.largest == l;
    assert a in fs + [f] && b in fs + [f] && f in fs + [f];
  }

  /** FindLargestKey: the largest upper bound. */
  method FindLargestKey(files: seq<File>) returns (r: Option<InternalKey>)
    ensures r.None? <==> files == []
    ensures r.Some? ==> IsLargestKey(files, r.value)
  {
    if files == [] {
      return None;
    }
    var largest := files[0].largest;
    var i := 1;
    while i < |files|
      invariant 1 <= i <= |files|
      invariant forall k | 0 <= k < i :: AtMost(files[k].largest, largest)
      invariant exists k :: 0 <= k < i && files[k].largest == largest
    {
      ComparePackedIsBefore(files[i].largest, largest);
      if Compare(files[i].largest, largest) > 0 {
        largest := files[i].largest;
      }
      i := i + 1;
    }
    r := Some(largest);
  }

  ghost predicate IsLargestKey(files: seq<File>, k: InternalKey) {
    && (forall f | f in files :: AtMost(f.largest, k))
    && exists f :: f in files && f.largest == k
  }

  /** f continues, in a later file, the user key at which k ends. */
  predicate ContinuesAt(f: File, k: InternalKey) {
    Before(k, f.smallest) && f.smallest.user == k.user
  }

  /** FindSmallestBoundaryFile: of the files that continue the key, one that starts first. */
  method FindSmallestBoundaryFile(files: seq<File>, largest: InternalKey) returns (r: Option<File>)
    ensures r.None? <==> forall f | f in files :: !ContinuesAt(f, largest)
    ensures r.Some? ==> r.value in files && ContinuesAt(r.value, largest)
    ensures r.Some? ==> forall f | f in files && ContinuesAt(f, largest) :: AtMost(r.value.smallest, f.smallest)
  {
    r := None;
    var i := 0;
    while i < |files|
      invariant i <= |files|
      invariant r.None? <==> forall k | 0 <= k < i :: !ContinuesAt(files[k], largest)
      invariant r.Some? ==> r.value in files && ContinuesAt(r.value, largest)
      invariant r.Some? ==>
                forall k | 0 <= k < i && ContinuesAt(files[k], largest) :: AtMost(r.value.smallest, files[k].smallest)
    {
      var f := files[i];
      ComparePackedIsBefore(f.smallest, largest);
      if Compare(f.smallest, largest) > 0 && f.smallest.user == largest.user {
        if r.Some? {
          ComparePackedIsBefore(f.smallest, r.value.smallest);
        }
        if r.None? || Compare(f.smallest, r.value.smallest) < 0 {
          r := Some(f);
        }
      }
      i := i + 1;
    }
  }

  ghost function ContinuationCount(files: seq<File>, k: InternalKey): nat {
    if files == [] then 0
    else (if Before(k, files[0].smallest) then 1 else 0) + ContinuationCount(files[1..], k)
  }

  lemma {:induction false} ContinuationCountDrops(files: seq<File>, k: InternalKey, k': InternalKey)
    requires Before(k, k')
    ensures ContinuationCount(files, k') <= ContinuationCount(files, k)
    ensures (exists f :: f in files && Before(k, f.smallest) && AtMost(f.smallest, k')) ==>
              ContinuationCount(files, k') < ContinuationCount(files, k)
  {
    if files != [] {
      ContinuationCountDrops(files[1..], k, k');
      assert forall f | f in files :: f == files[0] || f in files[1..];
    }
  }

  /** The key at which the list ends just before its i-th added file. */
  ghost function EndKey(start: InternalKey, added: seq<File>, i: nat): InternalKey
    requires i <= |added|
  {
    if i == 0 then start else added[i - 1].largest
  }

  ghost predicate FirstContinuation(level: seq<File>, k: InternalKey, f: File) {
    && f in level
    && ContinuesAt(f, k)
    && forall g | g in level && ContinuesAt(g, k) :: AtMost(f.smallest, g.smallest)
  }

  /** Every added file starts with the user key at which the files before it end. */
  ghost predicate BoundaryChain(level: seq<File>, start: InternalKey, added: seq<File>) {
    forall i {:trigger EndKey(start, added, i)} | 0 <= i < |added| ::
      FirstContinuation(level, EndKey(start, added, i), added[i])
  }

  /** The added files are in strictly increasing order, all after the start: no file is added twice
      and none that was there already. */
  lemma ChainAscends(start: InternalKey, added: seq<File>)
    requires ValidFiles(added)
    requires forall i {:trigger EndKey(start, added, i)} | 0 <= i < |added| ::
              ContinuesAt(added[i], EndKey(start, added, i))
    ensures forall i | 0 <= i < |added| :: Before(start, added[i].smallest)
    ensures Disjoint(added)
  {
    forall i | 0 <= i < |added|
      ensures Before(start, added[i].smallest)
    {
      ChainFrom(start, added, 0, i);
    }
    forall i, j | 0 <= i < j < |added|
      ensures Before(added[i].largest, added[j].smallest)
    {
      ChainFrom(start, added, i + 1, j);
    }
  }

  lemma {:induction false} ChainFrom(start: InternalKey, added: seq<File>, i: nat, j: nat)
    requires ValidFiles(added)
    requires forall i {:trigger EndKey(start, added, i)} | 0 <= i < |added| ::
              ContinuesAt(added[i], EndKey(start, added, i))
    requires i <= j < |added|
    ensures Before(EndKey(start, added, i), added[j].smallest)
    decreases j
  {
    assert ContinuesAt(added[j], EndKey(start, added, j));
    if i < j {
      ChainFrom(start, added, i, j - 1);
      SmallestAtMostLargest(added[j - 1]);
    }
  }

  /** AddBoundaryInputs: extend the list, file by file, until no file of the level continues the
      user key at which the list ends. */
  method AddBoundaryInputs(level: seq<File>, compaction: seq<File>)
    returns (r: seq<File>, ghost added: seq<File>, ghost start: InternalKey)
    requires ValidFiles(level)
    ensures compaction == [] ==> r == []
    ensures compaction != [] ==>
      && IsLargestKey(compaction, start)
      && r == compaction + added
      && BoundaryChain(level, start, added)
      && forall f | f in level :: !ContinuesAt(f, EndKey(start, added, |added|))
  {
    r, added := compaction, [];
    var found := FindLargestKey(compaction);
    if found.None? {
      start := InternalKey(0.0, 0, Deletion);
      return;
    }
    var largest := found.value;
    start := largest;
    var continueSearching := true;
    while continueSearching
      invariant r == compaction + added
      invariant BoundaryChain(level, start, added)
      invariant largest == EndKey(start, added, |added|)
      invariant !continueSearching ==> forall f | f in level :: !ContinuesAt(f, largest)
      decreases continueSearching, ContinuationCount(level, largest)
    {
      var boundary := FindSmallestBoundaryFile(level, largest);
      if boundary.Some? {
        SmallestAtMostLargest(boundary.value);
        ContinuationCountDrops(level, largest, boundary.value.largest);
        r := r + [boundary.value];
        ghost var longer := added + [boundary.value];
        assert forall i | 0 <= i <= |added| :: EndKey(start, longer, i) == EndKey(start, added, i);
        added := longer;
        largest := boundary.value.largest;
      } else {
        continueSearching := false;
      }
    }
  }
}
