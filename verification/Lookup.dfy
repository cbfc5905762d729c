/** The level structure of a version and the early-stopping search through it
    (Version::ForEachOverlapping, Version::Get, DBImpl::Get). */
module Lookup {
  import opened Wrappers
  import opened InternalKeys
  import opened MultiVersion
  import opened Tables

  const NUM_LEVELS: nat := 7

  type Levels = seq<seq<File>>

  /** Everything at level k and deeper. */
  ghost function From(levels: Levels, k: nat): set<Entry>
    decreases |levels| - k
  {
    if k >= |levels| then {} else EntriesOf(levels[k]) + From(levels, k + 1)
  }

  ghost predicate DistinctNumbers(fs: seq<File>) {
    forall i, j | 0 <= i < j < |fs| :: fs[i].number != fs[j].number
  }

  /** In level 0 a larger file number means newer versions of every shared user key. */
  ghost predicate NewerByNumber(fs: seq<File>) {
    forall f, g | f in fs && g in fs && f.number > g.number :: Newer(Contents(f.entries), Contents(g.entries))
  }

  /** The invariant of a version. */
  ghost predicate WellFormed(levels: Levels) {
    && |levels| == NUM_LEVELS
    && (forall k | 0 <= k < |levels| :: ValidFiles(levels[k]))
    && (forall k | 1 <= k < |levels| :: Disjoint(levels[k]))
    && DistinctNumbers(levels[0])
    && NewerByNumber(levels[0])
    && (forall i, j | 0 <= i < j < |levels| :: Newer(EntriesOf(levels[i]), EntriesOf(levels[j])))
    && OnePerSequence(From(levels, 0))
  }

  lemma {:induction false} FromContains(levels: Levels, k: nat, e: Entry)
    ensures e in From(levels, k) <==> exists j :: k <= j < |levels| && e in EntriesOf(levels[j])
    decreases |levels| - k
  {
    if k < |levels| {
      FromContains(levels, k + 1, e);
    }
  }

  lemma NewerThanDeeper(levels: Levels, k: nat)
    requires k < |levels|
    requires forall i, j | 0 <= i < j < |levels| :: Newer(EntriesOf(levels[i]), EntriesOf(levels[j]))
    ensures Newer(EntriesOf(levels[k]), From(levels, k + 1))
  {
    forall a, b | a in EntriesOf(levels[k]) && b in From(levels, k + 1) && a.key.user == b.key.user
      ensures a.key.sequence > b.key.sequence
    {
      FromContains(levels, k + 1, b);
    }
  }

  lemma SubsetOnePerSequence(A: set<Entry>, B: set<Entry>)
    requires A <= B && OnePerSequence(B)
    ensures OnePerSequence(A)
  {
  }

  lemma {:induction false} FromShrinks(levels: Levels, k: nat)
    ensures From(levels, k) <= From(levels, 0)
  {
    forall e | e in From(levels, k)
      ensures e in From(levels, 0)
    {
      FromContains(levels, k, e);
      FromContains(levels, 0, e);
    }
  }

  predicate CoversUserKey(f: File, u: UserKey) {
    f.smallest.user <= u <= f.largest.user
  }

  function Covering(fs: seq<File>, u: UserKey): (r: seq<File>)
    ensures forall f | f in r :: f in fs && CoversUserKey(f, u)
    ensures forall f | f in fs && CoversUserKey(f, u) :: f in r
    ensures DistinctNumbers(fs) ==> DistinctNumbers(r)
  {
    if fs == [] then []
    else
      var rest := Covering(fs[1..], u);
      assert DistinctNumbers(fs) ==> DistinctNumbers(fs[1..]);
      assert DistinctNumbers(fs) ==> forall f | f in fs[1..] :: f.number != fs[0].number;
      if CoversUserKey(fs[0], u) then [fs[0]] + rest else rest
  }

  ghost predicate NewestFirst(fs: seq<File>) {
    forall i, j | 0 <= i < j < |fs| :: fs[i].number > fs[j].number
  }

  /** std::sort by descending file number. */
  function SortNewestFirst(fs: seq<File>): (r: seq<File>)
    requires DistinctNumbers(fs)
    ensures NewestFirst(r) && |r| == |fs|
    ensures forall g :: g in r <==> g in fs
  {
    if fs == [] then [] else InsertByNumber(fs[0], SortNewestFirst(fs[1..]))
  }

  function InsertByNumber(f: File, fs: seq<File>): (r: seq<File>)
    requires NewestFirst(fs)
    requires forall g | g in fs :: g.number != f.number
    ensures NewestFirst(r) && |r| == |fs| + 1
    ensures forall g :: g in r <==> g == f || g in fs
  {
    if fs == [] || f.number > fs[0].number then [f] + fs
    else
      var rest := InsertByNumber(f, fs[1..]);
      assert forall g | g in rest :: g.number < fs[0].number;
      [fs[0]] + rest
  }

  /** Level 0, newest covering file first: the first probe that hits is the newest version in the level. */
  method GetFromLevel0(files: seq<File>, u: UserKey, s: nat) returns (r: Option<Entry>)
    requires ValidFiles(files) && DistinctNumbers(files) && NewerByNumber(files)
    requires OnePerSequence(EntriesOf(files))
    ensures r == Newest(EntriesOf(files), u, s)
  {
    var tmp := SortNewestFirst(Covering(files, u));
    NonCoveringIrrelevant(files, tmp, u, s);
    r := None;
    var i := 0;
    while i < |tmp|
      invariant i <= |tmp|
      invariant r == None
      invariant Newest(EntriesOf(files), u, s) == Newest(EntriesOf(tmp[i..]), u, s)
    {
      Level0Step(files, tmp, i, u, s);
      r := Probe(tmp[i].entries, u, s);
      if r.Some? {
        return;
      }
      i := i + 1;
    }
  }

  lemma NonCoveringIrrelevant(files: seq<File>, tmp: seq<File>, u: UserKey, s: nat)
    requires ValidFiles(files) && OnePerSequence(EntriesOf(files))
    requires forall f | f in tmp :: f in files
    requires forall f | f in files && CoversUserKey(f, u) :: f in tmp
    ensures Newest(EntriesOf(files), u, s) == Newest(EntriesOf(tmp), u, s)
  {
    forall f, e | f in files && e in f.entries && e.key.user == u
      ensures f in tmp
    {
      FileBounds(f, e);
    }
    var t := Newest(EntriesOf(tmp), u, s);
    if t.Some? {
      assert IsNewest(EntriesOf(files), u, s, t.value);
      NewestIs(EntriesOf(files), u, s, t.value);
    }
  }

  lemma Level0Step(files: seq<File>, tmp: seq<File>, i: nat, u: UserKey, s: nat)
    requires ValidFiles(files) && NewerByNumber(files)
    requires OnePerSequence(EntriesOf(files))
    requires NewestFirst(tmp) && forall f | f in tmp :: f in files
    requires i < |tmp|
    ensures var p := Probe(tmp[i].entries, u, s);
            Newest(EntriesOf(tmp[i..]), u, s) == if p.Some? then p else Newest(EntriesOf(tmp[i + 1..]), u, s)
  {
    var A, B := Contents(tmp[i].entries), EntriesOf(tmp[i + 1..]);
    EntriesOfSuffix(tmp, i);
    EntriesOfMono(tmp[i..], files);
    FirstIsNewer(files, tmp, i);
    assert Sorted(tmp[i].entries) && A + B <= EntriesOf(files);
    hide *;
    SubsetOnePerSequence(A + B, EntriesOf(files));
    SubsetOnePerSequence(A, EntriesOf(files));
    LayeredNewest(A, B, u, s);
    ProbeIsNewest(tmp[i].entries, u, s);
  }

  lemma FirstIsNewer(files: seq<File>, tmp: seq<File>, i: nat)
    requires ValidFiles(files) && NewerByNumber(files)
    requires NewestFirst(tmp) && (forall f | f in tmp :: f in files) && i < |tmp|
    ensures Newer(Contents(tmp[i].entries), EntriesOf(tmp[i + 1..]))
  {
    hide ValidFiles, NewerByNumber;
    forall a, b | a in Contents(tmp[i].entries) && b in EntriesOf(tmp[i + 1..]) && a.key.user == b.key.user
      ensures a.key.sequence > b.key.sequence
    {
      var g :| g in tmp[i + 1..] && b in g.entries;
      NewerFiles(files, tmp[i], g, a, b);
    }
  }

  lemma NewerFiles(files: seq<File>, f: File, g: File, a: Entry, b: Entry)
    requires NewerByNumber(files) && f in files && g in files && f.number > g.number
    requires a in f.entries && b in g.entries && a.key.user == b.key.user
    ensures a.key.sequence > b.key.sequence
  {
    assert Newer(Contents(f.entries), Contents(g.entries));
  }

  /** A sorted level: one binary search, one probe. Versions of u may continue into the next file;
      the first file whose largest key is not before the target still holds the newest one. */
  method GetFromSortedLevel(files: seq<File>, u: UserKey, s: nat) returns (r: Option<Entry>)
    requires ValidFiles(files) && Disjoint(files)
    requires OnePerSequence(EntriesOf(files))
    ensures r == Newest(EntriesOf(files), u, s)
  {
    var index := FindFile(files, SeekKey(u, s));
    if index < |files| {
      EntriesBounds(files, index, u, s);
      var f := files[index];
      assert Contents(f.entries) <= EntriesOf(files);
      if u < f.smallest.user {
        r := None;
      } else {
        r := Probe(f.entries, u, s);
        ProbeIsNewest(f.entries, u, s);
      }
    } else {
      NoneBeforeTarget(files, u, s);
      r := None;
    }
  }

  lemma NoneBeforeTarget(files: seq<File>, u: UserKey, s: nat)
    requires ValidFiles(files)
    requires forall i | 0 <= i < |files| :: Before(files[i].largest, SeekKey(u, s))
    ensures Newest(EntriesOf(files), u, s) == None
  {
    forall e | e in EntriesOf(files)
      ensures !Matches(e, u, s)
    {
      var f :| f in files && e in f.entries;
      FileBounds(f, e);
    }
  }

  lemma EntriesBounds(files: seq<File>, index: nat, u: UserKey, s: nat)
    requires ValidFiles(files) && Disjoint(files)
    requires OnePerSequence(EntriesOf(files))
    requires index < |files|
    requires forall i | 0 <= i < index :: Before(files[i].largest, SeekKey(u, s))
    requires forall i | index <= i < |files| :: !Before(files[i].largest, SeekKey(u, s))
    ensures u < files[index].smallest.user ==> Newest(EntriesOf(files), u, s) == None
    ensures Newest(EntriesOf(files), u, s) == Newest(Contents(files[index].entries), u, s)
  {
    var f := files[index];
    var A := Contents(f.entries);
    forall e | e in EntriesOf(files) && Matches(e, u, s)
      ensures u >= f.smallest.user
      ensures exists a :: a in A && Matches(a, u, s) && a.key.sequence >= e.key.sequence
    {
      var k :| 0 <= k < |files| && e in files[k].entries;
      FileBounds(files[k], e);
      var last := f.entries[|f.entries| - 1];
      assert !Before(f.largest, SeekKey(u, s));
      if k > index {
        assert Before(f.largest, files[k].smallest);
        SmallestAtMostLargest(f);
        assert last in A && Matches(last, u, s);
      }
    }
    var r := Newest(A, u, s);
    if r.Some? {
      assert IsNewest(EntriesOf(files), u, s, r.value);
      NewestIs(EntriesOf(files), u, s, r.value);
    }
  }

  lemma LevelStep(levels: Levels, k: nat, u: UserKey, s: nat)
    requires WellFormed(levels) && k < |levels|
    ensures OnePerSequence(EntriesOf(levels[k]))
    ensures var r := Newest(EntriesOf(levels[k]), u, s);
            Newest(From(levels, k), u, s) == if r.Some? then r else Newest(From(levels, k + 1), u, s)
  {
    NewerThanDeeper(levels, k);
    FromShrinks(levels, k);
    LayeredNewest(EntriesOf(levels[k]), From(levels, k + 1), u, s);
  }

  /** Version::Get: level 0 newest first, then one file per deeper level, stopping at the first hit,
      be it a value or a deletion. */
  method GetFromVersion(levels: Levels, u: UserKey, s: nat) returns (r: Option<Entry>)
    requires WellFormed(levels)
    ensures r == Newest(From(levels, 0), u, s)
  {
    LevelStep(levels, 0, u, s);
    r := GetFromLevel0(levels[0], u, s);
    var level := 1;
    while level < NUM_LEVELS && r.None?
      invariant 1 <= level <= NUM_LEVELS
      invariant Newest(From(levels, 0), u, s) == if r.Some? then r else Newest(From(levels, level), u, s)
    {
      LevelStep(levels, level, u, s);
      r := GetFromSortedLevel(levels[level], u, s);
      level := level + 1;
    }
  }
}
