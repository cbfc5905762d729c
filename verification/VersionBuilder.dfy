/** VersionSet::Builder: applying version edits to a version, and replaying a list of them. */
module VersionBuilder {
  import opened InternalKeys
  import opened Tables
  import opened Lookup

  /** The part of a VersionEdit that changes files. */
  datatype VersionEdit = VersionEdit(deletedFiles: set<(nat, nat)>, newFiles: seq<(nat, File)>) {
    predicate Valid() {
      && (forall d | d in deletedFiles :: d.0 < NUM_LEVELS)
      && (forall i | 0 <= i < |newFiles| :: newFiles[i].0 < NUM_LEVELS)
    }
  }

  /** BySmallestKey. */
  predicate BySmallestKey(f: File, g: File) {
    var r := Compare(f.smallest, g.smallest);
    if r != 0 then r < 0 else f.number < g.number
  }

  lemma BySmallestKeyIsOrder(f: File, g: File)
    ensures BySmallestKey(f, g) <==> Before(f.smallest, g.smallest) || (f.smallest == g.smallest && f.number < g.number)
  {
    ComparePackedIsBefore(f.smallest, g.smallest);
  }

  predicate FileLess(f: File, g: File) {
    Before(f.smallest, g.smallest) || (f.smallest == g.smallest && f.number < g.number)
  }

  ghost predicate FilesSorted(fs: seq<File>) {
    forall i, j | 0 <= i < j < |fs| :: FileLess(fs[i], fs[j])
  }

  /** A sorted list of files is determined by its members. */
  lemma {:induction false} SortedFilesUnique(a: seq<File>, b: seq<File>)
    requires FilesSorted(a) && FilesSorted(b)
    requires forall f :: f in a <==> f in b
    ensures a == b
    decreases |a|
  {
    HasMember(a);
    HasMember(b);
    if a != [] {
      assert a[0] in b && b[0] in b;
      assert a[0] == b[0] by {
        var i :| 0 <= i < |b| && b[i] == a[0];
        var j :| 0 <= j < |a| && a[j] == b[0];
      }
      TailMembers(a);
      TailMembers(b);
      SortedFilesUnique(a[1..], b[1..]);
    }
  }

  lemma HasMember(a: seq<File>)
    ensures a != [] ==> exists f :: f in a
  {
    if a != [] {
      assert a[0] in a;
    }
  }

  lemma TailMembers(a: seq<File>)
    requires FilesSorted(a) && a != []
    ensures forall f :: f in a[1..] <==> f in a && f != a[0]
  {
    forall f | f in a && f != a[0]
      ensures f in a[1..]
    {
      var i :| 0 <= i < |a| && a[i] == f;
      assert a[1..][i - 1] == f;
    }
    forall f | f in a[1..]
      ensures f != a[0]
    {
      var i :| 0 <= i < |a[1..]| && a[1..][i] == f;
      assert FileLess(a[0], a[i + 1]);
    }
  }

  datatype LevelState = LevelState(deleted: set<nat>, added: seq<File>)

  /** std::set::insert: a file equivalent to one already there is not inserted. */
  function InsertFile(added: seq<File>, f: File): seq<File> {
    if added == [] || FileLess(f, added[0]) then [f] + added
    else if FileLess(added[0], f) then [added[0]] + InsertFile(added[1..], f)
    else added
  }

  predicate Equivalent(f: File, g: File) {
    f.smallest == g.smallest && f.number == g.number
  }

  lemma {:induction false} InsertFileSorted(added: seq<File>, f: File)
    requires FilesSorted(added)
    ensures FilesSorted(InsertFile(added, f))
    ensures forall g | g in InsertFile(added, f) :: g in added || g == f
    ensures forall g | g in added :: g in InsertFile(added, f)
    ensures (forall g | g in added :: !Equivalent(f, g)) ==> f in InsertFile(added, f)
  {
    if added == [] || FileLess(f, added[0]) {
    } else if FileLess(added[0], f) {
      InsertFileSorted(added[1..], f);
      assert forall g | g in InsertFile(added[1..], f) :: FileLess(added[0], g);
      assert forall g | g in added :: g == added[0] || g in added[1..];
      assert forall g | g in added[1..] :: g in added;
    } else {
      assert added[0] in added && Equivalent(f, added[0]);
    }
  }

  /** Builder::Apply at one level, after the deletions: each new file is undeleted and inserted. */
  function AddFiles(s: LevelState, files: seq<File>): LevelState {
    if files == [] then s
    else
      var t := AddFiles(s, files[..|files| - 1]);
      var f := files[|files| - 1];
      LevelState(t.deleted - {f.number}, InsertFile(t.added, f))
  }

  function FilesAt(newFiles: seq<(nat, File)>, level: nat): seq<File> {
    if newFiles == [] then []
    else
      var rest := FilesAt(newFiles[..|newFiles| - 1], level);
      if newFiles[|newFiles| - 1].0 == level then rest + [newFiles[|newFiles| - 1].1] else rest
  }

  ghost function DeletedAt(deleted: set<(nat, nat)>, level: nat): set<nat> {
    set d | d in deleted && d.0 == level :: d.1
  }

  ghost function ApplyAt(s: LevelState, edit: VersionEdit, level: nat): LevelState {
    AddFiles(LevelState(s.deleted + DeletedAt(edit.deletedFiles, level), s.added), FilesAt(edit.newFiles, level))
  }

  /** What SaveTo produces at one level. */
  ghost predicate Saved(base: seq<File>, s: LevelState, r: seq<File>) {
    && FilesSorted(r)
    && forall f :: f in r <==> (f in base || f in s.added) && f.number !in s.deleted
  }

  ghost predicate NumbersApart(base: seq<File>, added: seq<File>) {
    forall f, g | f in base && g in added :: f.number != g.number
  }

  /** No added file is in the base too, with the same number and the same smallest key. */
  ghost predicate NoneTwice(base: seq<File>, added: seq<File>) {
    forall f, g | f in base && g in added :: !Equivalent(f, g)
  }

  /** The builder object: the deletions and additions collected per level. */
  class Builder {
    const base: Levels
    var levels: seq<LevelState>

    ghost predicate Valid()
      reads this
    {
      && |base| == |levels| == NUM_LEVELS
      && (forall k | 0 <= k < NUM_LEVELS :: FilesSorted(base[k]))
      && (forall k | 0 <= k < NUM_LEVELS :: FilesSorted(levels[k].added))
    }

    constructor (base: Levels)
      requires |base| == NUM_LEVELS && forall k | 0 <= k < NUM_LEVELS :: FilesSorted(base[k])
      ensures Valid() && this.base == base
      ensures forall k | 0 <= k < NUM_LEVELS :: levels[k] == LevelState({}, [])
    {
      this.base := base;
      levels := seq(NUM_LEVELS, _ => LevelState({}, []));
    }

    method Apply(edit: VersionEdit)
      requires Valid() && edit.Valid()
      modifies this
      ensures Valid()
      ensures forall k | 0 <= k < NUM_LEVELS :: levels[k] == ApplyAt(old(levels[k]), edit, k)
    {
      MarkDeleted(edit.deletedFiles);
      AddNewFiles(edit.newFiles);
    }

    method MarkDeleted(deletedFiles: set<(nat, nat)>)
      requires Valid() && forall d | d in deletedFiles :: d.0 < NUM_LEVELS
      modifies this
      ensures Valid()
      ensures forall k | 0 <= k < NUM_LEVELS ::
                levels[k] == LevelState(old(levels[k]).deleted + DeletedAt(deletedFiles, k), old(levels[k]).added)
    {
      var todo := deletedFiles;
      while todo != {}
        invariant Valid() && todo <= deletedFiles
        invariant forall k | 0 <= k < NUM_LEVELS ::
                    levels[k] == LevelState(old(levels[k]).deleted + DeletedAt(deletedFiles - todo, k),
                                            old(levels[k]).added)
        decreases todo
      {
        var d :| d in todo;
        DeletedAtGrows(deletedFiles - todo, d);
        assert deletedFiles - (todo - {d}) == (deletedFiles - todo) + {d};
        todo := todo - {d};
        levels := levels[d.0 := levels[d.0].(deleted := levels[d.0].deleted + {d.1})];
      }
      assert deletedFiles - todo == deletedFiles;
    }

    method AddNewFiles(newFiles: seq<(nat, File)>)
      requires Valid() && forall i | 0 <= i < |newFiles| :: newFiles[i].0 < NUM_LEVELS
      modifies this
      ensures Valid()
      ensures forall k | 0 <= k < NUM_LEVELS :: levels[k] == AddFiles(old(levels[k]), FilesAt(newFiles, k))
    {
      ghost var was := levels;
      var i := 0;
      while i < |newFiles|
        invariant 0 <= i <= |newFiles| && Valid()
        invariant forall k | 0 <= k < NUM_LEVELS :: levels[k] == AddFiles(was[k], FilesAt(newFiles[..i], k))
      {
        var (level, f) := newFiles[i];
        InsertFileSorted(levels[level].added, f);
        AddNext(was, levels, newFiles, i);
        levels := levels[level := LevelState(levels[level].deleted - {f.number}, InsertFile(levels[level].added, f))];
        i := i + 1;
      }
      assert newFiles[..i] == newFiles;
    }

    /** SaveTo: merge base and added files in order, skipping deleted ones. */
    method SaveTo() returns (v: Levels)
      requires Valid()
      requires forall k | 0 <= k < NUM_LEVELS :: NoneTwice(base[k], levels[k].added)
      ensures |v| == NUM_LEVELS
      ensures forall k | 0 <= k < NUM_LEVELS :: Saved(base[k], levels[k], v[k])
    {
      v := [];
      while |v| < NUM_LEVELS
        invariant |v| <= NUM_LEVELS
        invariant forall k | 0 <= k < |v| :: Saved(base[k], levels[k], v[k])
        decreases NUM_LEVELS - |v|
      {
        var files := SaveLevel(base[|v|], levels[|v|]);
        v := v + [files];
      }
    }
  }

  lemma AddFilesSnoc(s: LevelState, files: seq<File>, f: File)
    ensures var t := AddFiles(s, files);
            AddFiles(s, files + [f]) == LevelState(t.deleted - {f.number}, InsertFile(t.added, f))
  {
    assert (files + [f])[..|files|] == files;
  }

  lemma DeletedAtGrows(s: set<(nat, nat)>, d: (nat, nat))
    ensures forall k: nat :: DeletedAt(s + {d}, k) == DeletedAt(s, k) + if d.0 == k then {d.1} else {}
  {
    assert forall x | x in s + {d} :: x in s || x == d;
  }

  lemma FilesAtNext(newFiles: seq<(nat, File)>, i: nat)
    requires i < |newFiles|
    ensures forall k: nat :: FilesAt(newFiles[..i + 1], k) ==
              if newFiles[i].0 == k then FilesAt(newFiles[..i], k) + [newFiles[i].1] else FilesAt(newFiles[..i], k)
  {
    assert newFiles[..i + 1][..i] == newFiles[..i];
  }

  lemma AddNext(was: seq<LevelState>, now: seq<LevelState>, newFiles: seq<(nat, File)>, i: nat)
    requires |was| == |now| == NUM_LEVELS && i < |newFiles| && newFiles[i].0 < NUM_LEVELS
    requires forall k | 0 <= k < NUM_LEVELS :: now[k] == AddFiles(was[k], FilesAt(newFiles[..i], k))
    ensures var (level, f) := newFiles[i];
            var next := now[level := LevelState(now[level].deleted - {f.number}, InsertFile(now[level].added, f))];
            forall k | 0 <= k < NUM_LEVELS :: next[k] == AddFiles(was[k], FilesAt(newFiles[..i + 1], k))
  {
    var (level, f) := newFiles[i];
    FilesAtNext(newFiles, i);
    AddFilesSnoc(was[level], FilesAt(newFiles[..i], level), f);
  }

  /** MaybeAddFile. */
  function MaybeAddFile(files: seq<File>, deleted: set<nat>, f: File): seq<File> {
    if f.number in deleted then files else files + [f]
  }

  ghost predicate SavedPrefix(base: seq<File>, b: nat, added: seq<File>, a: nat, deleted: set<nat>, r: seq<File>)
    requires b <= |base| && a <= |added|
  {
    && FilesSorted(r)
    && (forall f :: f in r <==> (f in base[..b] || f in added[..a]) && f.number !in deleted)
  }

  method SaveLevel(base: seq<File>, s: LevelState) returns (r: seq<File>)
    requires FilesSorted(base) && FilesSorted(s.added) && NoneTwice(base, s.added)
    ensures Saved(base, s, r)
  {
    hide Saved, SavedPrefix, FilesSorted, NoneTwice, FileLess;
    r := [];
    var b, a := 0, 0;
    NothingSaved(base, s.added, s.deleted);
    while a < |s.added|
      invariant 0 <= a <= |s.added| && 0 <= b <= |base|
      invariant SavedPrefix(base, b, s.added, a, s.deleted, r)
      invariant a < |s.added| ==> AllBefore(base, b, s.added[a])
      invariant a > 0 ==> AllAfter(base, b, s.added[a - 1])
    {
      // all base files that upper_bound finds at or before the added file
      while b < |base| && !FileLess(s.added[a], base[b])
        invariant 0 <= b <= |base|
        invariant SavedPrefix(base, b, s.added, a, s.deleted, r)
        invariant AllBefore(base, b, s.added[a])
        invariant a > 0 ==> AllAfter(base, b, s.added[a - 1])
      {
        NotAfterIsBefore(base, b, s.added, a);
        TakeBase(base, b, s.added, a, s.deleted, r);
        r := MaybeAddFile(r, s.deleted, base[b]);
        b := b + 1;
      }
      RestIsAfter(base, b, s.added, a);
      TakeAdded(base, b, s.added, a, s.deleted, r);
      r := MaybeAddFile(r, s.deleted, s.added[a]);
      a := a + 1;
    }
    while b < |base|
      invariant 0 <= b <= |base|
      invariant SavedPrefix(base, b, s.added, a, s.deleted, r)
      invariant a > 0 ==> AllAfter(base, b, s.added[a - 1])
    {
      TakeBase(base, b, s.added, a, s.deleted, r);
      r := MaybeAddFile(r, s.deleted, base[b]);
      b := b + 1;
    }
    SavedAll(base, s, r);
  }

  ghost predicate AllBefore(base: seq<File>, b: nat, f: File)
    requires b <= |base|
  {
    forall i | 0 <= i < b :: FileLess(base[i], f)
  }

  ghost predicate AllAfter(base: seq<File>, b: nat, f: File) {
    forall i | b <= i < |base| :: FileLess(f, base[i])
  }

  lemma NothingSaved(base: seq<File>, added: seq<File>, deleted: set<nat>)
    ensures SavedPrefix(base, 0, added, 0, deleted, [])
  {
  }

  lemma NotAfterIsBefore(base: seq<File>, b: nat, added: seq<File>, a: nat)
    requires b < |base| && a < |added| && NoneTwice(base, added)
    requires !FileLess(added[a], base[b]) && AllBefore(base, b, added[a])
    ensures AllBefore(base, b + 1, added[a])
  {
    assert base[b] in base && added[a] in added && !Equivalent(base[b], added[a]);
  }

  /** Once an added file comes before the next base file, it comes before all later ones, and the base files
      passed so far come before the next added file too. */
  lemma RestIsAfter(base: seq<File>, b: nat, added: seq<File>, a: nat)
    requires b <= |base| && a < |added| && FilesSorted(base) && FilesSorted(added)
    requires b < |base| ==> FileLess(added[a], base[b])
    requires AllBefore(base, b, added[a])
    ensures AllAfter(base, b, added[a])
    ensures a + 1 < |added| ==> AllBefore(base, b, added[a + 1])
  {
    if a + 1 < |added| {
      assert FileLess(added[a], added[a + 1]);
    }
  }

  lemma SavedAll(base: seq<File>, s: LevelState, r: seq<File>)
    requires SavedPrefix(base, |base|, s.added, |s.added|, s.deleted, r)
    ensures Saved(base, s, r)
  {
    assert base[..|base|] == base && s.added[..|s.added|] == s.added;
  }

  lemma TakeBase(base: seq<File>, b: nat, added: seq<File>, a: nat, deleted: set<nat>, r: seq<File>)
    requires b < |base| && a <= |added| && FilesSorted(base) && FilesSorted(added)
    requires SavedPrefix(base, b, added, a, deleted, r)
    requires a > 0 ==> AllAfter(base, b, added[a - 1])
    ensures SavedPrefix(base, b + 1, added, a, deleted, MaybeAddFile(r, deleted, base[b]))
  {
    assert base[..b + 1] == base[..b] + [base[b]];
    forall f | f in r
      ensures FileLess(f, base[b])
    {
      if f in added[..a] {
        var i :| 0 <= i < a && added[i] == f;
        assert FileLess(added[a - 1], base[b]);
        assert i < a - 1 ==> FileLess(added[i], added[a - 1]);
      }
    }
  }

  lemma TakeAdded(base: seq<File>, b: nat, added: seq<File>, a: nat, deleted: set<nat>, r: seq<File>)
    requires b <= |base| && a < |added| && FilesSorted(base) && FilesSorted(added)
    requires SavedPrefix(base, b, added, a, deleted, r)
    requires AllBefore(base, b, added[a])
    ensures SavedPrefix(base, b, added, a + 1, deleted, MaybeAddFile(r, deleted, added[a]))
  {
    assert added[..a + 1] == added[..a] + [added[a]];
  }

  // ----- replaying edits -----

  ghost function NumbersOf(files: seq<File>): set<nat> {
    set f | f in files :: f.number
  }

  ghost predicate DistinctFileNumbers(files: seq<File>) {
    forall i, j | 0 <= i < j < |files| :: files[i].number != files[j].number
  }

  /** No number in files was ever held by the level: neither by a file ever there nor twice in the list. */
  ghost predicate FreshNumbers(held: set<nat>, files: seq<File>) {
    DistinctFileNumbers(files) && NumbersOf(files) !! held
  }

  lemma {:induction false} AddFilesMembers(s: LevelState, files: seq<File>)
    requires FilesSorted(s.added) && FreshNumbers(NumbersOf(s.added), files)
    ensures FilesSorted(AddFiles(s, files).added)
    ensures AddFiles(s, files).deleted == s.deleted - NumbersOf(files)
    ensures forall f :: f in AddFiles(s, files).added <==> f in s.added || f in files
    decreases |files|
  {
    if files != [] {
      var n := |files| - 1;
      var front, f := files[..n], files[n];
      assert files == front + [f];
      assert NumbersOf(files) == NumbersOf(front) + {f.number};
      AddFilesMembers(s, front);
      var t := AddFiles(s, front);
      forall g | g in t.added
        ensures !Equivalent(f, g)
      {
        if g in front {
          var i :| 0 <= i < n && files[i] == g;
        } else {
          assert g.number in NumbersOf(s.added);
        }
      }
      InsertFileSorted(t.added, f);
    }
  }

  /** One builder fed a whole list of edits, at one level. */
  ghost function ApplyAll(s: LevelState, edits: seq<VersionEdit>, level: nat): LevelState {
    if edits == [] then s else ApplyAt(ApplyAll(s, edits[..|edits| - 1], level), edits[|edits| - 1], level)
  }

  /** versions[i + 1] is versions[i] with edit i applied through a builder of its own. */
  ghost predicate OneByOne(versions: seq<seq<File>>, edits: seq<VersionEdit>, level: nat) {
    && |versions| == |edits| + 1
    && forall i | 0 <= i < |edits| :: AppliedAlone(versions, edits, i, level)
  }

  ghost predicate AppliedAlone(versions: seq<seq<File>>, edits: seq<VersionEdit>, i: nat, level: nat)
    requires i < |edits| && i + 1 < |versions|
  {
    Saved(versions[i], ApplyAt(LevelState({}, []), edits[i], level), versions[i + 1])
  }

  /** All file numbers the level ever held after the first n edits. */
  ghost function Held(base: seq<File>, edits: seq<VersionEdit>, n: nat, level: nat): set<nat>
    requires n <= |edits|
  {
    if n == 0 then NumbersOf(base)
    else Held(base, edits, n - 1, level) + NumbersOf(FilesAt(edits[n - 1].newFiles, level))
  }

  ghost predicate NeverReadded(base: seq<File>, edits: seq<VersionEdit>, level: nat) {
    forall n | 0 <= n < |edits| :: AddsFreshNumbers(base, edits, n, level)
  }

  ghost predicate AddsFreshNumbers(base: seq<File>, edits: seq<VersionEdit>, n: nat, level: nat)
    requires n < |edits|
  {
    FreshNumbers(Held(base, edits, n, level), FilesAt(edits[n].newFiles, level))
  }

  /** The builder state s, saved over base, stands for the version v; all numbers seen are in held. */
  ghost predicate Represents(base: seq<File>, s: LevelState, v: seq<File>, held: set<nat>) {
    && FilesSorted(s.added)
    && NumbersOf(s.added) <= held && NumbersOf(v) <= held && NumbersOf(base) <= held
    && NumbersApart(base, s.added)
    && Saved(base, s, v)
  }

  lemma {:induction false} ReplayState(base: seq<File>, versions: seq<seq<File>>, edits: seq<VersionEdit>, n: nat,
                                       level: nat)
    requires n <= |edits| && OneByOne(versions, edits, level) && versions[0] == base && FilesSorted(base)
    requires NeverReadded(base, edits, level)
    ensures Represents(base, ApplyAll(LevelState({}, []), edits[..n], level), versions[n], Held(base, edits, n, level))
    decreases n
  {
    if n == 0 {
      assert edits[..0] == [];
    } else {
      hide Represents, NeverReadded, FilesSorted;
      ReplayState(base, versions, edits, n - 1, level);
      ReplayOneMore(base, versions, edits, n, level);
    }
  }

  lemma ReplayOneMore(base: seq<File>, versions: seq<seq<File>>, edits: seq<VersionEdit>, n: nat, level: nat)
    requires 0 < n <= |edits| && OneByOne(versions, edits, level) && NeverReadded(base, edits, level)
    requires Represents(base, ApplyAll(LevelState({}, []), edits[..n - 1], level), versions[n - 1],
                        Held(base, edits, n - 1, level))
    ensures Represents(base, ApplyAll(LevelState({}, []), edits[..n], level), versions[n], Held(base, edits, n, level))
  {
    assert edits[..n][..n - 1] == edits[..n - 1];
    assert AppliedAlone(versions, edits, n - 1, level) && AddsFreshNumbers(base, edits, n - 1, level);
    hide Represents, Saved, FreshNumbers, NeverReadded, OneByOne, ApplyAt, NumbersOf;
    ReplayStep(base, ApplyAll(LevelState({}, []), edits[..n - 1], level), versions[n - 1], versions[n], edits[n - 1],
               level, Held(base, edits, n - 1, level));
  }

  lemma ReplayStep(base: seq<File>, s: LevelState, v: seq<File>, w: seq<File>, edit: VersionEdit, level: nat,
                   held: set<nat>)
    requires Represents(base, s, v, held)
    requires Saved(v, ApplyAt(LevelState({}, []), edit, level), w)
    requires FreshNumbers(held, FilesAt(edit.newFiles, level))
    ensures Represents(base, ApplyAt(s, edit, level), w, held + NumbersOf(FilesAt(edit.newFiles, level)))
  {
    var files := FilesAt(edit.newFiles, level);
    var del := DeletedAt(edit.deletedFiles, level);
    AddFilesMembers(LevelState(s.deleted + del, s.added), files);
    AddFilesMembers(LevelState({} + del, []), files);
    var t := ApplyAt(s, edit, level);
    forall f | f in base || f in s.added
      ensures f.number !in NumbersOf(files) && f !in files
    {
      assert f.number in NumbersOf(base) || f.number in NumbersOf(s.added);
    }
    assert forall f | f in files :: f.number in NumbersOf(files);
  }

  /** Replaying any list of edits through one builder gives, at every level, the files that applying them one
      version at a time gives, as long as no file number returns to a level that ever held it. */
  lemma ReplayEqualsStepwise(base: seq<File>, versions: seq<seq<File>>, edits: seq<VersionEdit>, level: nat,
                             replayed: seq<File>)
    requires OneByOne(versions, edits, level) && versions[0] == base && FilesSorted(base)
    requires NeverReadded(base, edits, level)
    requires Saved(base, ApplyAll(LevelState({}, []), edits, level), replayed)
    ensures replayed == versions[|edits|]
  {
    ReplayState(base, versions, edits, |edits|, level);
    assert edits[..|edits|] == edits;
    SortedFilesUnique(replayed, versions[|edits|]);
  }
}
