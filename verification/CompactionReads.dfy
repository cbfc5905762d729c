/** What a compaction does to reads of the whole database: exactly when every reader is told the same as before. */
module CompactionReads {
  import opened Wrappers
  import opened InternalKeys
  import opened MultiVersion
  import opened Tables
  import opened Lookup
  import opened Inputs
  import opened LevelSteps
  import opened DropLoop

  /** Every read of the key at or above the floor is answered alike. */
  ghost predicate KeyReadsAgree(A: set<Entry>, B: set<Entry>, floor: nat, u: UserKey) {
    forall s: nat | s >= floor :: ReadAt(A, u, s) == ReadAt(B, u, s)
  }

  ghost predicate ReadsAgree(A: set<Entry>, B: set<Entry>, floor: nat) {
    forall u: UserKey :: KeyReadsAgree(A, B, floor, u)
  }

  // ----- the entries around a compaction, in layers -----

  /** File f of level k is not an input and holds newer versions than the inputs do. */
  ghost predicate IsAbove(levels: Levels, j: Job, k: nat, f: File)
    requires k < |levels|
  {
    && f in levels[k]
    && (k < j.level || (k == j.level && f !in j.inputs0)
        || (k == j.level + 1 && f !in j.inputs1 && f.largest.user < j.low.user))
  }

  ghost predicate IsUnder(levels: Levels, j: Job, k: nat, f: File)
    requires k < |levels|
  {
    && f in levels[k]
    && (k > j.level + 1 || (k == j.level + 1 && f !in j.inputs1 && j.high.user < f.smallest.user))
  }

  ghost function Above(levels: Levels, j: Job): set<Entry> {
    set k, f, e | 0 <= k < |levels| && f in levels[k] && IsAbove(levels, j, k, f) && e in f.entries :: e
  }

  ghost function Under(levels: Levels, j: Job): set<Entry> {
    set k, f, e | 0 <= k < |levels| && f in levels[k] && IsUnder(levels, j, k, f) && e in f.entries :: e
  }

  lemma FileLayer(levels: Levels, j: Job, k: nat, f: File)
    requires GoodJob(levels, j) && k < |levels| && f in levels[k]
    ensures IsAbove(levels, j, k, f) || IsUnder(levels, j, k, f)
         || (k == j.level && f in j.inputs0) || (k == j.level + 1 && f in j.inputs1)
  {
    if k == j.level + 1 && f !in j.inputs1 {
      LeftOrRight(levels, j, f);
    }
  }

  lemma LayersCoverBefore(levels: Levels, j: Job)
    requires GoodJob(levels, j)
    ensures From(levels, 0) == Above(levels, j) + (InputEntries(j) + Under(levels, j))
  {
    forall e
      ensures e in From(levels, 0) <==> e in Above(levels, j) || e in InputEntries(j) || e in Under(levels, j)
    {
      FromContains(levels, 0, e);
      if e in From(levels, 0) {
        var k :| 0 <= k < |levels| && e in EntriesOf(levels[k]);
        var f :| f in levels[k] && e in f.entries;
        FileLayer(levels, j, k, f);
      }
      if e in InputEntries(j) {
        InputOrigin(levels, j, e);
      }
    }
  }

  lemma LayersCoverAfter(levels: Levels, j: Job, levels': Levels)
    requires GoodJob(levels, j) && Compacted(levels, j, levels')
    ensures From(levels', 0) == Above(levels, j) + (EntriesOf(j.outputs) + Under(levels, j))
  {
    forall e | e in From(levels', 0)
      ensures e in Above(levels, j) || e in EntriesOf(j.outputs) || e in Under(levels, j)
    {
      FromContains(levels', 0, e);
      var k :| 0 <= k < |levels'| && e in EntriesOf(levels'[k]);
      var f :| f in levels'[k] && e in f.entries;
      CompactedFile(levels, j, levels', k, f);
      if f in levels[k] {
        FileLayer(levels, j, k, f);
        assert IsAbove(levels, j, k, f) || IsUnder(levels, j, k, f) || e in EntriesOf(j.outputs);
      }
    }
    forall e | e in Above(levels, j) || e in EntriesOf(j.outputs) || e in Under(levels, j)
      ensures e in From(levels', 0)
    {
      FromContains(levels', 0, e);
    }
  }

  // ----- the layers are ordered by age -----

  lemma BelongsToAll(levels: Levels, j: Job, e: Entry)
    requires GoodJob(levels, j)
    requires e in Above(levels, j) || e in InputEntries(j) || e in Under(levels, j)
    ensures e in From(levels, 0)
  {
    LayersCoverBefore(levels, j);
  }

  lemma AboveNewerThanInputs(levels: Levels, j: Job)
    requires WellFormed(levels) && GoodJob(levels, j)
    ensures Newer(Above(levels, j), InputEntries(j))
  {
    hide WellFormed, GoodJob;
    forall a, b | a in Above(levels, j) && b in InputEntries(j) && a.key.user == b.key.user
      ensures a.key.sequence > b.key.sequence
    {
      var k, f :| 0 <= k < |levels| && f in levels[k] && IsAbove(levels, j, k, f) && a in f.entries;
      if k < j.level {
        assert CameFrom(levels, k, a);
        NewerThanInputs(levels, j, k, a, b);
      } else if k == j.level {
        RemainingIsNewer(levels, j, f, a, b);
      } else {
        LeftIsNewer(levels, j, f, a, b);
      }
    }
  }

  lemma LeftIsNewer(levels: Levels, j: Job, f: File, a: Entry, b: Entry)
    requires WellFormed(levels) && GoodJob(levels, j)
    requires f in levels[j.level + 1] && f !in j.inputs1 && f.largest.user < j.low.user
    requires a in f.entries && b in InputEntries(j) && a.key.user == b.key.user
    ensures a.key.sequence > b.key.sequence
  {
    BesideInputs(levels, j, f, b);
    ValidMember(levels[j.level + 1], f);
    FileBounds(f, a);
    InFrom(levels, j.level + 1, f, a);
    BelongsToAll(levels, j, b);
    OneEntry(From(levels, 0), a, b);
  }

  lemma InputsNewerThanUnder(levels: Levels, j: Job)
    requires WellFormed(levels) && GoodJob(levels, j)
    ensures Newer(InputEntries(j), Under(levels, j))
  {
    hide WellFormed, GoodJob;
    forall a, b | a in InputEntries(j) && b in Under(levels, j) && a.key.user == b.key.user
      ensures a.key.sequence > b.key.sequence
    {
      var k, f :| 0 <= k < |levels| && f in levels[k] && IsUnder(levels, j, k, f) && b in f.entries;
      if k > j.level + 1 {
        assert CameFrom(levels, k, b);
        InputsNewerThan(levels, j, k, a, b);
      } else {
        InputsNewerThanRight(levels, j, f, a, b);
      }
    }
  }

  lemma InputsNewerThanRight(levels: Levels, j: Job, f: File, a: Entry, b: Entry)
    requires WellFormed(levels) && GoodJob(levels, j)
    requires f in levels[j.level + 1] && f !in j.inputs1 && j.high.user < f.smallest.user
    requires b in f.entries && a in InputEntries(j) && a.key.user == b.key.user
    ensures a.key.sequence > b.key.sequence
  {
    assert ValidFiles(levels[j.level + 1]) && OnePerSequence(From(levels, 0));
    hide *;
    BesideInputs(levels, j, f, a);
    ValidMember(levels[j.level + 1], f);
    FileBounds(f, b);
    InFrom(levels, j.level + 1, f, b);
    BelongsToAll(levels, j, a);
    OrderedInOne(From(levels, 0), a, b, f.smallest);
  }

  lemma OrderedInOne(S: set<Entry>, a: Entry, b: Entry, k: InternalKey)
    requires OnePerSequence(S) && a in S && b in S && a.key.user == b.key.user
    requires Before(a.key, k) && AtMost(k, b.key)
    ensures a.key.sequence > b.key.sequence
  {
    OneEntry(S, a, b);
  }

  lemma AboveNewerThanUnder(levels: Levels, j: Job)
    requires WellFormed(levels) && GoodJob(levels, j)
    ensures Newer(Above(levels, j), Under(levels, j))
  {
    hide WellFormed;
    forall a, b | a in Above(levels, j) && b in Under(levels, j) && a.key.user == b.key.user
      ensures a.key.sequence > b.key.sequence
    {
      var k, f :| 0 <= k < |levels| && f in levels[k] && IsAbove(levels, j, k, f) && a in f.entries;
      var i, g :| 0 <= i < |levels| && g in levels[i] && IsUnder(levels, j, i, g) && b in g.entries;
      if k < i {
        DeeperIsOlder(levels, k, i, f, g, a, b);
      } else {
        SidesShareNoKey(levels, j, f, g, a, b);
        assert false;
      }
    }
  }

  lemma SidesShareNoKey(levels: Levels, j: Job, f: File, g: File, a: Entry, b: Entry)
    requires WellFormed(levels) && GoodJob(levels, j)
    requires f in levels[j.level + 1] && f.largest.user < j.low.user && a in f.entries
    requires g in levels[j.level + 1] && j.high.user < g.smallest.user && b in g.entries
    ensures a.key.user != b.key.user
  {
    ValidMember(levels[j.level + 1], f);
    ValidMember(levels[j.level + 1], g);
    HullOrdered(levels[j.level], j.inputs0, j.low, j.high);
    hide *;
    FileBounds(f, a);
    FileBounds(g, b);
  }

  lemma HullOrdered(fs: seq<File>, inputs: seq<File>, low: InternalKey, high: InternalKey)
    requires ValidFiles(fs) && (forall h | h in inputs :: h in fs) && IsHull(inputs, low, high)
    ensures low.user <= high.user
  {
    var h :| h in inputs && h.smallest == low;
    ValidMember(fs, h);
    SmallestAtMostLargest(h);
  }

  // ----- when the compaction brings back a deleted key -----

  /** g is the first file of the next level, right of the inputs, that starts with u and is not an input. */
  ghost predicate LeftBehind(levels: Levels, j: Job, u: UserKey, g: File)
    requires j.level + 1 < |levels|
  {
    && g in levels[j.level + 1] && g !in j.inputs1
    && g.smallest.user == u && j.high.user < u
    && forall h | h in levels[j.level + 1] && h !in j.inputs1 && h.smallest.user == u :: AtMost(g.smallest, h.smallest)
  }

  /** The situation in which dropping an obsolete deletion is wrong. The key reads as deleted at the smallest
      snapshot because of a deletion in a file of the next level that is an input; no file two levels down covers the
      key; and the next level continues the key, with a value, in a file that is not an input. */
  ghost predicate Resurrects(levels: Levels, j: Job, top: set<Entry>, smallestSnapshot: nat)
    requires j.level + 1 < |levels|
  {
    exists u :: BringsKeyBack(levels, j, top, smallestSnapshot, u)
  }

  ghost predicate BringsKeyBack(levels: Levels, j: Job, top: set<Entry>, smallestSnapshot: nat, u: UserKey)
    requires j.level + 1 < |levels|
  {
    exists g :: BringsBack(levels, j, top, smallestSnapshot, u, g)
  }

  /** The keys the compaction brings back. */
  ghost function KeysBroughtBack(levels: Levels, j: Job, top: set<Entry>, smallestSnapshot: nat): set<UserKey>
    requires j.level + 1 < |levels|
  {
    set e | e in EntriesOf(j.inputs1) && BringsKeyBack(levels, j, top, smallestSnapshot, e.key.user) :: e.key.user
  }

  lemma BroughtBackIffMember(levels: Levels, j: Job, top: set<Entry>, smallestSnapshot: nat, u: UserKey)
    requires j.level + 1 < |levels|
    ensures u in KeysBroughtBack(levels, j, top, smallestSnapshot)
       <==> BringsKeyBack(levels, j, top, smallestSnapshot, u)
  {
    if g :| BringsBack(levels, j, top, smallestSnapshot, u, g) {
      DeletionIsInput(levels, j, top, smallestSnapshot, u, g);
    }
  }

  ghost predicate BringsBack(levels: Levels, j: Job, top: set<Entry>, smallestSnapshot: nat, u: UserKey, g: File)
    requires j.level + 1 < |levels|
  {
    && LeftBehind(levels, j, u, g) && g.smallest.kind.Value?
    && IsBaseLevel(levels, j.level, u)
    && var n := Newest(top + From(levels, 0), u, smallestSnapshot);
       n.Some? && n.value.key.kind.Deletion? && n.value in EntriesOf(j.inputs1)
  }

  ghost predicate StreamOf(stream: seq<Entry>, j: Job) {
    Sorted(stream) && SequencesFit(stream) && Contents(stream) == InputEntries(j)
  }

  /** The inputs, the layers around them and the memtables above, as one argument list for the lemmas below. */
  ghost predicate Setting(levels: Levels, j: Job, top: set<Entry>, stream: seq<Entry>, smallestSnapshot: nat) {
    && WellFormed(levels) && GoodJob(levels, j)
    && StreamOf(stream, j)
    && Newer(top, From(levels, 0)) && OnePerSequence(top + From(levels, 0))
    && smallestSnapshot < MAX_SEQUENCE
  }

  /** Reading through the layers: what is above the inputs answers first. */
  lemma ReadThroughLayers(T: set<Entry>, S: set<Entry>, U: set<Entry>, u: UserKey, s: nat)
    requires OnePerSequence(T + (S + U)) && Newer(T, S) && Newer(T, U) && Newer(S, U)
    ensures Newest(T + (S + U), u, s) ==
              if Newest(T, u, s).Some? then Newest(T, u, s)
              else if Newest(S, u, s).Some? then Newest(S, u, s) else Newest(U, u, s)
  {
    LayeredNewest(T, S + U, u, s);
    assert S + U <= T + (S + U);
    LayeredNewest(S, U, u, s);
  }

  lemma TopOverLayers(top: set<Entry>, A: set<Entry>, S: set<Entry>, U: set<Entry>, all: set<Entry>)
    requires all == A + (S + U) && Newer(top, all) && Newer(A, S) && Newer(A, U)
    ensures top + all == top + A + (S + U)
    ensures Newer(top + A, S) && Newer(top + A, U)
  {
  }

  /** The layers of a setting: above, inputs, under; and the same with the kept entries in place of the inputs. */
  lemma SettingLayers(levels: Levels, j: Job, top: set<Entry>, stream: seq<Entry>, smallestSnapshot: nat)
    requires Setting(levels, j, top, stream, smallestSnapshot)
    ensures var T, S, K, U := top + Above(levels, j), InputEntries(j),
                              KeptSet(stream, smallestSnapshot, levels, j.level), Under(levels, j);
            && top + From(levels, 0) == T + (S + U)
            && OnePerSequence(T + (S + U)) && OnePerSequence(T + (K + U))
            && Newer(T, S) && Newer(T, U) && Newer(S, U)
            && K <= S && Contents(stream) == S
  {
    var A, S, U := Above(levels, j), InputEntries(j), Under(levels, j);
    var K := KeptSet(stream, smallestSnapshot, levels, j.level);
    LayersCoverBefore(levels, j);
    AboveNewerThanInputs(levels, j);
    AboveNewerThanUnder(levels, j);
    InputsNewerThanUnder(levels, j);
    KeptIsSubset(stream, smallestSnapshot, levels, j.level);
    assert Contents(stream) == S && OnePerSequence(top + From(levels, 0));
    hide *;
    TopOverLayers(top, A, S, U, From(levels, 0));
    SubsetOnePerSequence(top + A + (K + U), top + A + (S + U));
  }

  /** Under the inputs, versions of a base-level key that an input of the next level also holds can only be in
      files of the next level that start with the key. */
  lemma UnderStartsWithKey(levels: Levels, j: Job, u: UserKey, d: Entry, o: Entry) returns (g: File)
    requires WellFormed(levels) && GoodJob(levels, j) && IsBaseLevel(levels, j.level, u)
    requires d in EntriesOf(j.inputs1) && d.key.user == u && o in Under(levels, j) && o.key.user == u
    ensures g in levels[j.level + 1] && g !in j.inputs1 && g.smallest.user == u && j.high.user < u && o in g.entries
  {
    hide *;
    var k;
    k, g := UnderWitness(levels, j, o);
    NotDeeper(levels, j, u, k, g, o);
    RightOfInput(levels, j, g, d);
  }

  lemma NotDeeper(levels: Levels, j: Job, u: UserKey, k: nat, g: File, o: Entry)
    requires WellFormed(levels) && IsBaseLevel(levels, j.level, u)
    requires j.level < k < |levels| && g in levels[k] && o in g.entries && o.key.user == u
    ensures k == j.level + 1 && CoversUserKey(g, u)
  {
    ValidMember(levels[k], g);
    FileBounds(g, o);
    assert CoversUserKey(g, u);
  }

  lemma RightOfInput(levels: Levels, j: Job, g: File, d: Entry)
    requires WellFormed(levels) && GoodJob(levels, j)
    requires g in levels[j.level + 1] && g !in j.inputs1 && j.high.user < g.smallest.user
    requires d in EntriesOf(j.inputs1)
    ensures d.key.user <= g.smallest.user
  {
    assert d in InputEntries(j);
    BesideInputs(levels, j, g, d);
  }

  lemma UnderWitness(levels: Levels, j: Job, o: Entry) returns (k: nat, g: File)
    requires o in Under(levels, j)
    ensures k < |levels| && g in levels[k] && o in g.entries && k > j.level
    ensures k == j.level + 1 ==> g !in j.inputs1 && j.high.user < g.smallest.user
  {
    k, g :| 0 <= k < |levels| && g in levels[k] && IsUnder(levels, j, k, g) && o in g.entries;
  }

  lemma UnderMember(levels: Levels, j: Job, k: nat, g: File, o: Entry)
    requires k < |levels| && IsUnder(levels, j, k, g) && o in g.entries
    ensures o in Under(levels, j)
  {
  }

  lemma FirstStartingWith(fs: seq<File>, inputs: seq<File>, u: UserKey, g: File) returns (h: File)
    requires ValidFiles(fs) && Disjoint(fs) && g in fs && g !in inputs && g.smallest.user == u
    ensures h in fs && h !in inputs && h.smallest.user == u
    ensures forall f | f in fs && f !in inputs && f.smallest.user == u :: AtMost(h.smallest, f.smallest)
  {
    var i := 0;
    while fs[i] in inputs || fs[i].smallest.user != u
      invariant 0 <= i < |fs|
      invariant forall k | 0 <= k < i :: fs[k] in inputs || fs[k].smallest.user != u
      invariant exists k :: i <= k < |fs| && fs[k] == g
      decreases |fs| - i
    {
      i := i + 1;
    }
    h := fs[i];
    forall f | f in fs && f !in inputs && f.smallest.user == u
      ensures AtMost(h.smallest, f.smallest)
    {
      var k :| 0 <= k < |fs| && fs[k] == f;
      SmallestAtMostLargest(h);
      if i < k {
        assert Before(fs[i].largest, fs[k].smallest);
      }
    }
  }

  lemma FirstEntryIsUnder(levels: Levels, j: Job, u: UserKey, g: File, d: Entry)
    requires WellFormed(levels) && GoodJob(levels, j) && LeftBehind(levels, j, u, g)
    requires d in EntriesOf(j.inputs1) && d.key.user == u
    ensures |g.entries| > 0 && g.entries[0].key == g.smallest && g.entries[0].key.user == u
    ensures g.entries[0] in Under(levels, j) && g.entries[0].key.sequence < d.key.sequence
  {
    ValidMember(levels[j.level + 1], g);
    UnderMember(levels, j, j.level + 1, g, g.entries[0]);
    InputsNewerThanUnder(levels, j);
    assert d in InputEntries(j);
  }

  lemma UnderOnePerSequence(levels: Levels, j: Job)
    requires WellFormed(levels) && GoodJob(levels, j)
    ensures OnePerSequence(Under(levels, j))
  {
    LayersCoverBefore(levels, j);
    SubsetOnePerSequence(Under(levels, j), From(levels, 0));
  }

  /** The version that comes back: the first entry of the file left behind is the newest one under the inputs. */
  lemma NewestUnder(levels: Levels, j: Job, u: UserKey, g: File, d: Entry, s: nat)
    requires WellFormed(levels) && GoodJob(levels, j) && IsBaseLevel(levels, j.level, u)
    requires LeftBehind(levels, j, u, g)
    requires d in EntriesOf(j.inputs1) && d.key.user == u && d.key.sequence <= s
    ensures |g.entries| > 0 && g.entries[0].key == g.smallest
    ensures Newest(Under(levels, j), u, s) == Some(g.entries[0])
  {
    FirstEntryIsUnder(levels, j, u, g, d);
    UnderOnePerSequence(levels, j);
    hide *;
    forall o | o in Under(levels, j) && Matches(o, u, s)
      ensures o.key.sequence <= g.entries[0].key.sequence
    {
      UnderVersionIsOlder(levels, j, u, g, d, s, o);
    }
    FirstMakesNewest(Under(levels, j), u, s, g.entries[0]);
  }

  lemma UnderVersionIsOlder(levels: Levels, j: Job, u: UserKey, g: File, d: Entry, s: nat, o: Entry)
    requires WellFormed(levels) && GoodJob(levels, j) && IsBaseLevel(levels, j.level, u)
    requires LeftBehind(levels, j, u, g)
    requires d in EntriesOf(j.inputs1) && d.key.user == u
    requires o in Under(levels, j) && Matches(o, u, s)
    ensures |g.entries| > 0 && o.key.sequence <= g.entries[0].key.sequence
  {
    assert o.key.user == u;
    hide *;
    var h := UnderStartsWithKey(levels, j, u, d, o);
    FirstIsNewest(levels, j, u, g, h, o);
  }

  lemma FirstIsNewest(levels: Levels, j: Job, u: UserKey, g: File, h: File, o: Entry)
    requires WellFormed(levels) && GoodJob(levels, j) && LeftBehind(levels, j, u, g)
    requires h in levels[j.level + 1] && h !in j.inputs1 && h.smallest.user == u && o in h.entries && o.key.user == u
    ensures |g.entries| > 0 && o.key.sequence <= g.entries[0].key.sequence
  {
    ValidMember(levels[j.level + 1], g);
    ValidMember(levels[j.level + 1], h);
    FileBounds(h, o);
    assert AtMost(g.smallest, h.smallest);
  }

  lemma FirstMakesNewest(S: set<Entry>, u: UserKey, s: nat, e: Entry)
    requires OnePerSequence(S) && e in S && e.key.user == u && e.key.sequence <= s
    requires forall o | o in S && Matches(o, u, s) :: o.key.sequence <= e.key.sequence
    ensures Newest(S, u, s) == Some(e)
  {
    NewestIs(S, u, s, e);
  }

  /** A version that is newest overall and lies in the middle layer is newest there, and the top layer has none. */
  lemma NewestComesFrom(T: set<Entry>, S: set<Entry>, U: set<Entry>, u: UserKey, s: nat, d: Entry)
    requires OnePerSequence(T + (S + U)) && Newer(T, S) && Newer(T, U) && Newer(S, U)
    requires Newest(T + (S + U), u, s) == Some(d) && d in S
    ensures Newest(T, u, s) == None && Newest(S, u, s) == Some(d)
  {
    ReadThroughLayers(T, S, U, u, s);
    forall t | t in T
      ensures !Matches(t, u, s)
    {
      assert t in T + (S + U);
    }
    NewestIs(S, u, s, d) by {
      assert S <= T + (S + U);
      assert IsNewest(T + (S + U), u, s, d);
    }
  }

  /** When the situation arises, the deleted key reads as present after the compaction. */
  lemma ResurrectionIsVisible(levels: Levels, j: Job, top: set<Entry>, stream: seq<Entry>, smallestSnapshot: nat,
                              u: UserKey, g: File)
    requires Setting(levels, j, top, stream, smallestSnapshot)
    requires BringsBack(levels, j, top, smallestSnapshot, u, g)
    ensures ReadAt(top + From(levels, 0), u, smallestSnapshot) == None
    ensures ReadAt(top + Above(levels, j) + (KeptSet(stream, smallestSnapshot, levels, j.level) + Under(levels, j)),
                   u, smallestSnapshot) != None
  {
    var d := Newest(top + From(levels, 0), u, smallestSnapshot).value;
    var first := if g.entries == [] then d else g.entries[0];
    DeletionIsInput(levels, j, top, smallestSnapshot, u, g);
    assert g.smallest.kind.Value? && WellFormed(levels) && GoodJob(levels, j) &&
           IsBaseLevel(levels, j.level, u) && LeftBehind(levels, j, u, g);
    hide *;
    var T, S, K, U := top + Above(levels, j), InputEntries(j),
                      KeptSet(stream, smallestSnapshot, levels, j.level), Under(levels, j);
    SettingLayers(levels, j, top, stream, smallestSnapshot);
    NewestUnder(levels, j, u, g, d, smallestSnapshot);
    NewestComesFrom(T, S, U, u, smallestSnapshot, d);
    KeptOfSetting(levels, j, top, stream, smallestSnapshot, u, smallestSnapshot);
    BroughtBack(T, S, K, U, u, smallestSnapshot, d, first);
  }

  lemma DeletionIsInput(levels: Levels, j: Job, top: set<Entry>, smallestSnapshot: nat, u: UserKey, g: File)
    requires j.level + 1 < |levels| && BringsBack(levels, j, top, smallestSnapshot, u, g)
    ensures var n := Newest(top + From(levels, 0), u, smallestSnapshot);
            && n.Some? && n.value in InputEntries(j) && n.value in EntriesOf(j.inputs1)
            && n.value.key.user == u && n.value.key.sequence <= smallestSnapshot && n.value.key.kind.Deletion?
  {
  }

  lemma BroughtBack(T: set<Entry>, S: set<Entry>, K: set<Entry>, U: set<Entry>, u: UserKey, s: nat, d: Entry,
                    first: Entry)
    requires OnePerSequence(T + (S + U)) && OnePerSequence(T + (K + U)) && Newer(T, S) && Newer(T, U) && Newer(S, U)
    requires K <= S
    requires Newest(T + (S + U), u, s) == Some(d) && d.key.kind.Deletion?
    requires Newest(T, u, s) == None && Newest(K, u, s) == None && Newest(U, u, s) == Some(first)
    requires first.key.kind.Value?
    ensures ReadAt(T + (S + U), u, s) == None
    ensures ReadAt(T + (K + U), u, s) == Some(first.value)
  {
    KeptLayers(T, S, K, U, u, s);
  }

  lemma KeptLayers(T: set<Entry>, S: set<Entry>, K: set<Entry>, U: set<Entry>, u: UserKey, s: nat)
    requires OnePerSequence(T + (K + U)) && Newer(T, S) && Newer(T, U) && Newer(S, U) && K <= S
    ensures Newest(T + (K + U), u, s) ==
              if Newest(T, u, s).Some? then Newest(T, u, s)
              else if Newest(K, u, s).Some? then Newest(K, u, s) else Newest(U, u, s)
  {
    ReadThroughLayers(T, K, U, u, s);
  }

  lemma KeptOfSetting(levels: Levels, j: Job, top: set<Entry>, stream: seq<Entry>, smallestSnapshot: nat, u: UserKey,
                      s: nat)
    requires Setting(levels, j, top, stream, smallestSnapshot) && smallestSnapshot <= s
    ensures var all := Newest(InputEntries(j), u, s);
            var kept := Newest(KeptSet(stream, smallestSnapshot, levels, j.level), u, s);
            if all.Some? && all.value.key.kind.Deletion? && all.value.key.sequence <= smallestSnapshot
               && IsBaseLevel(levels, j.level, u)
            then kept == None
            else kept == all
  {
    LayersCoverBefore(levels, j);
    SubsetOnePerSequence(InputEntries(j), From(levels, 0));
    KeptNewest(stream, smallestSnapshot, levels, j.level, u, s);
  }

  /** If the deletion that u reads as was dropped and something is left under it, a file was left behind. */
  lemma SomethingLeftBehind(levels: Levels, j: Job, top: set<Entry>, smallestSnapshot: nat, u: UserKey, d: Entry,
                            o: Entry, s: nat)
    returns (g: File)
    requires WellFormed(levels) && GoodJob(levels, j) && IsBaseLevel(levels, j.level, u)
    requires d in InputEntries(j) && d.key.user == u && d.key.sequence <= s
    requires Newest(Under(levels, j), u, s) == Some(o)
    ensures LeftBehind(levels, j, u, g) && g.smallest.kind == o.key.kind && d in EntriesOf(j.inputs1)
  {
    assert IsNewest(Under(levels, j), u, s, o);
    assert o in Under(levels, j) && o.key.user == u;
    hide *;
    var h := UnderOfBase(levels, j, u, o);
    InputNextToIt(levels, j, u, h, d);
    h := UnderStartsWithKey(levels, j, u, d, o);
    g := FirstFileLeftBehind(levels, j, u, h);
    NewestUnder(levels, j, u, g, d, s);
  }

  lemma FirstFileLeftBehind(levels: Levels, j: Job, u: UserKey, h: File) returns (g: File)
    requires WellFormed(levels) && GoodJob(levels, j)
    requires h in levels[j.level + 1] && h !in j.inputs1 && h.smallest.user == u && j.high.user < u
    ensures LeftBehind(levels, j, u, g)
  {
    g := FirstStartingWith(levels[j.level + 1], j.inputs1, u, h);
  }

  lemma UnderOfBase(levels: Levels, j: Job, u: UserKey, o: Entry) returns (g: File)
    requires WellFormed(levels) && GoodJob(levels, j) && IsBaseLevel(levels, j.level, u)
    requires o in Under(levels, j) && o.key.user == u
    ensures g in levels[j.level + 1] && g !in j.inputs1 && CoversUserKey(g, u) && j.high.user < g.smallest.user
  {
    hide *;
    var k;
    k, g := UnderWitness(levels, j, o);
    NotDeeper(levels, j, u, k, g, o);
  }

  /** A key to the right of the level's inputs that an input holds is held by an input of the next level. */
  lemma InputNextToIt(levels: Levels, j: Job, u: UserKey, g: File, d: Entry)
    requires WellFormed(levels) && GoodJob(levels, j)
    requires CoversUserKey(g, u) && j.high.user < g.smallest.user
    requires d in InputEntries(j) && d.key.user == u
    ensures d in EntriesOf(j.inputs1)
  {
    NotRightOfHull(levels[j.level], j.inputs0, j.low, j.high, d);
  }

  lemma NotRightOfHull(fs: seq<File>, inputs: seq<File>, low: InternalKey, high: InternalKey, d: Entry)
    requires ValidFiles(fs) && (forall h | h in inputs :: h in fs) && IsHull(inputs, low, high)
    ensures d in EntriesOf(inputs) ==> d.key.user <= high.user
  {
    if d in EntriesOf(inputs) {
      var h :| h in inputs && d in h.entries;
      ValidMember(fs, h);
      FileBounds(h, d);
      assert AtMost(h.largest, high);
    }
  }

  /** If some reader of a key at a snapshot no older than the smallest one can tell that the compaction happened,
      that key was brought back. */
  lemma ChangeMeansResurrection(levels: Levels, j: Job, top: set<Entry>, stream: seq<Entry>, smallestSnapshot: nat,
                                u: UserKey, s: nat)
    requires Setting(levels, j, top, stream, smallestSnapshot) && s >= smallestSnapshot
    requires ReadAt(top + From(levels, 0), u, s)
          != ReadAt(top + Above(levels, j) + (KeptSet(stream, smallestSnapshot, levels, j.level) + Under(levels, j)),
                    u, s)
    ensures BringsKeyBack(levels, j, top, smallestSnapshot, u)
  {
    var T, S, K, U := top + Above(levels, j), InputEntries(j),
                      KeptSet(stream, smallestSnapshot, levels, j.level), Under(levels, j);
    assert WellFormed(levels) && GoodJob(levels, j);
    SettingLayers(levels, j, top, stream, smallestSnapshot);
    KeptOfSetting(levels, j, top, stream, smallestSnapshot, u, s);
    hide WellFormed, GoodJob, Setting, Above, Under, InputEntries, KeptSet, From, OnePerSequence, EntriesOf,
         IsBaseLevel, LeftBehind, Newer;
    ReadThroughLayers(T, S, U, u, s);
    KeptLayers(T, S, K, U, u, s);
    var d, o := Newest(S, u, s).value, Newest(U, u, s).value;
    var g := SomethingLeftBehind(levels, j, top, smallestSnapshot, u, d, o, s);
    NewestAtSmallest(T, S, U, u, s, smallestSnapshot, d);
    assert BringsBack(levels, j, top, smallestSnapshot, u, g);
  }

  lemma NewestAtSmallest(T: set<Entry>, S: set<Entry>, U: set<Entry>, u: UserKey, s: nat, smallest: nat, d: Entry)
    requires OnePerSequence(T + (S + U)) && Newer(T, S) && Newer(T, U) && Newer(S, U)
    requires smallest <= s && Newest(T, u, s) == None && Newest(S, u, s) == Some(d) && d.key.sequence <= smallest
    ensures Newest(T + (S + U), u, smallest) == Some(d)
  {
    ReadThroughLayers(T, S, U, u, s);
    assert IsNewest(T + (S + U), u, s, d);
    assert IsNewest(T + (S + U), u, smallest, d);
    NewestIs(T + (S + U), u, smallest, d);
  }

  /** For each key, the compaction preserves its reads at and above the smallest snapshot exactly when it does not
      bring the key back. */
  lemma KeyPreservedExactlyWhen(levels: Levels, j: Job, levels': Levels, top: set<Entry>, stream: seq<Entry>,
                                smallestSnapshot: nat, u: UserKey)
    requires Setting(levels, j, top, stream, smallestSnapshot)
    requires Compacted(levels, j, levels')
    requires EntriesOf(j.outputs) == KeptSet(stream, smallestSnapshot, levels, j.level)
    ensures KeyReadsAgree(top + From(levels, 0), top + From(levels', 0), smallestSnapshot, u)
       <==> !BringsKeyBack(levels, j, top, smallestSnapshot, u)
  {
    LayersCoverAfter(levels, j, levels');
    var K, U := KeptSet(stream, smallestSnapshot, levels, j.level), Under(levels, j);
    assert top + From(levels', 0) == top + Above(levels, j) + (K + U);
    hide Setting, Above, Under, KeptSet, From, Compacted, EntriesOf, ReadAt, BringsBack;
    if BringsKeyBack(levels, j, top, smallestSnapshot, u) {
      var g :| BringsBack(levels, j, top, smallestSnapshot, u, g);
      ResurrectionIsVisible(levels, j, top, stream, smallestSnapshot, u, g);
    } else {
      forall s: nat | s >= smallestSnapshot
        ensures ReadAt(top + From(levels, 0), u, s) == ReadAt(top + From(levels', 0), u, s)
      {
        if ReadAt(top + From(levels, 0), u, s) != ReadAt(top + From(levels', 0), u, s) {
          ChangeMeansResurrection(levels, j, top, stream, smallestSnapshot, u, s);
        }
      }
    }
  }

  /** The compaction preserves reads at and above the smallest snapshot exactly when it resurrects nothing. */
  lemma CompactionPreservesReadsExactlyWhen(levels: Levels, j: Job, levels': Levels, top: set<Entry>,
                                            stream: seq<Entry>, smallestSnapshot: nat)
    requires Setting(levels, j, top, stream, smallestSnapshot)
    requires Compacted(levels, j, levels')
    requires EntriesOf(j.outputs) == KeptSet(stream, smallestSnapshot, levels, j.level)
    ensures ReadsAgree(top + From(levels, 0), top + From(levels', 0), smallestSnapshot)
       <==> !Resurrects(levels, j, top, smallestSnapshot)
  {
    assert GoodJob(levels, j);
    hide GoodJob, Setting, KeptSet, From, Compacted, EntriesOf, KeyReadsAgree, BringsKeyBack;
    forall u: UserKey
      ensures KeyReadsAgree(top + From(levels, 0), top + From(levels', 0), smallestSnapshot, u)
         <==> !BringsKeyBack(levels, j, top, smallestSnapshot, u)
    {
      KeyPreservedExactlyWhen(levels, j, levels', top, stream, smallestSnapshot, u);
    }
  }
}
