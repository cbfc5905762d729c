/** DBIter (db_iter.cc): the iterator handed to users. It walks the versioned entries of the whole database and shows
    one entry per user key, the version visible at its sequence number. Every method is proved to move exactly like a
    cursor over the plain sorted list of visible keys and values. */
module DbIterator {
  import opened Wrappers
  import opened InternalKeys
  import opened MultiVersion
  import opened Tables

  // ----- what the iterator shows -----

  predicate Visible(e: Entry, s: nat) {
    e.key.sequence <= s
  }

  /** Entry i is the newest visible version of its user key, and not a deletion. */
  ghost predicate Live(es: seq<Entry>, s: nat, i: int) {
    && 0 <= i < |es|
    && es[i].key.kind.Value? && Visible(es[i], s)
    && forall k | 0 <= k < i && Visible(es[k], s) :: es[k].key.user != es[i].key.user
  }

  ghost function ViewUpTo(es: seq<Entry>, s: nat, n: nat): seq<(UserKey, Bytes)>
    requires n <= |es|
  {
    if n == 0 then []
    else ViewUpTo(es, s, n - 1) + if Live(es, s, n - 1) then [(es[n - 1].key.user, es[n - 1].value)] else []
  }

  /** The visible keys and values, in key order. */
  ghost function View(es: seq<Entry>, s: nat): seq<(UserKey, Bytes)> {
    ViewUpTo(es, s, |es|)
  }

  /** The place of entry i in the view. */
  ghost function Rank(es: seq<Entry>, s: nat, i: nat): nat
    requires i <= |es|
  {
    |ViewUpTo(es, s, i)|
  }

  lemma {:induction false} ViewPrefix(es: seq<Entry>, s: nat, i: nat, n: nat)
    requires i <= n <= |es|
    ensures ViewUpTo(es, s, i) <= ViewUpTo(es, s, n)
    decreases n
  {
    if i < n {
      ViewPrefix(es, s, i, n - 1);
    }
  }

  lemma LiveInView(es: seq<Entry>, s: nat, i: nat)
    requires Live(es, s, i)
    ensures Rank(es, s, i) < |View(es, s)| && View(es, s)[Rank(es, s, i)] == (es[i].key.user, es[i].value)
    ensures Rank(es, s, i + 1) == Rank(es, s, i) + 1
  {
    ViewPrefix(es, s, i + 1, |es|);
  }

  /** No live entry in between, no change of rank. */
  lemma {:induction false} SameRank(es: seq<Entry>, s: nat, i: nat, j: nat)
    requires i <= j <= |es| && forall k | i <= k < j :: !Live(es, s, k)
    ensures Rank(es, s, i) == Rank(es, s, j)
    decreases j
  {
    if i < j {
      SameRank(es, s, i, j - 1);
    }
  }

  lemma {:induction false} ViewEntryIsLive(es: seq<Entry>, s: nat, n: nat, c: nat) returns (i: nat)
    requires n <= |es| && c < Rank(es, s, n)
    ensures i < n && Live(es, s, i) && Rank(es, s, i) == c
    decreases n
  {
    if Live(es, s, n - 1) && c == Rank(es, s, n - 1) {
      i := n - 1;
    } else {
      i := ViewEntryIsLive(es, s, n - 1, c);
    }
  }

  lemma LiveOrdered(es: seq<Entry>, s: nat, i: nat, j: nat)
    requires Sorted(es) && Live(es, s, i) && Live(es, s, j) && i < j
    ensures es[i].key.user < es[j].key.user
  {
    assert Before(es[i].key, es[j].key);
  }

  lemma LaterLiveIsAbove(es: seq<Entry>, s: nat, i: nat)
    requires Sorted(es) && Live(es, s, i)
    ensures forall k | i < k < |es| && Live(es, s, k) :: es[i].key.user < es[k].key.user
  {
    forall k | i < k < |es| && Live(es, s, k)
      ensures es[i].key.user < es[k].key.user
    {
      LiveOrdered(es, s, i, k);
    }
  }

  /** The view is in strictly ascending key order. */
  lemma ViewSorted(es: seq<Entry>, s: nat, c: nat, c': nat)
    requires Sorted(es) && c < c' < |View(es, s)|
    ensures View(es, s)[c].0 < View(es, s)[c'].0
  {
    var i := ViewEntryIsLive(es, s, |es|, c);
    var i' := ViewEntryIsLive(es, s, |es|, c');
    LiveInView(es, s, i);
    LiveInView(es, s, i');
    if i' <= i {
      ViewPrefix(es, s, i', i);
    }
    LiveOrdered(es, s, i, i');
  }

  /** The view is the plain map: u is in it with value v exactly when a read of u at s answers v. */
  lemma ViewIsWhatReadsSee(es: seq<Entry>, s: nat, u: UserKey, v: Bytes)
    requires Sorted(es) && OnePerSequence(Contents(es))
    ensures (u, v) in View(es, s) <==> ReadAt(Contents(es), u, s) == Some(v)
  {
    ProbeIsNewest(es, u, s);
    var i := SeekIndex(es, SeekKey(u, s));
    if (u, v) in View(es, s) {
      var c :| 0 <= c < |View(es, s)| && View(es, s)[c] == (u, v);
      var j := ViewEntryIsLive(es, s, |es|, c);
      LiveInView(es, s, j);
      FirstVisibleIsSought(es, s, j);
    }
    if ReadAt(Contents(es), u, s) == Some(v) {
      SoughtIsFirstVisible(es, s, u);
      LiveInView(es, s, i);
    }
  }

  lemma FirstVisibleIsSought(es: seq<Entry>, s: nat, j: nat)
    requires Sorted(es) && Live(es, s, j)
    ensures SeekIndex(es, SeekKey(es[j].key.user, s)) == j
  {
    forall k | 0 <= k < j
      ensures Before(es[k].key, SeekKey(es[j].key.user, s))
    {
      assert Before(es[k].key, es[j].key);
    }
  }

  lemma SoughtIsFirstVisible(es: seq<Entry>, s: nat, u: UserKey)
    requires Sorted(es)
    ensures var i := SeekIndex(es, SeekKey(u, s));
            i < |es| && es[i].key.user == u && es[i].key.kind.Value? ==> Live(es, s, i)
  {
  }

  /** The next live entry is the next place in the view. */
  lemma NextPlace(es: seq<Entry>, s: nat, i: nat, j: nat)
    requires Live(es, s, i) && i < j <= |es| && (j < |es| ==> Live(es, s, j))
    requires forall k | i < k < j :: !Live(es, s, k)
    ensures Rank(es, s, j) == Rank(es, s, i) + 1
    ensures j < |es| <==> Rank(es, s, j) < |View(es, s)|
  {
    LiveInView(es, s, i);
    SameRank(es, s, i + 1, j);
    if j < |es| {
      LiveInView(es, s, j);
    }
  }

  lemma FirstPlace(es: seq<Entry>, s: nat, j: nat)
    requires j <= |es| && (j < |es| ==> Live(es, s, j)) && forall k | 0 <= k < j :: !Live(es, s, k)
    ensures Rank(es, s, j) == 0
    ensures j < |es| <==> 0 < |View(es, s)|
  {
    SameRank(es, s, 0, j);
    if j < |es| {
      LiveInView(es, s, j);
    }
  }

  /** When every earlier entry has the same key, i is the first place. */
  lemma OneGroupBefore(es: seq<Entry>, s: nat, i: nat)
    requires Sorted(es) && Live(es, s, i) && forall k | 0 <= k < i :: es[k].key.user == es[i].key.user
    ensures Rank(es, s, i) == 0
  {
    FirstPlace(es, s, i);
  }

  lemma NotLive(es: seq<Entry>, s: nat)
    ensures forall k | 0 <= k < |es| && (es[k].key.kind.Deletion? || !Visible(es[k], s)) :: !Live(es, s, k)
  {
  }

  /** An older version of the key of a visible one is not live. */
  lemma Shadowed(es: seq<Entry>, s: nat, newer: nat, older: nat)
    requires Sorted(es) && newer < older < |es| && Visible(es[newer], s) && es[newer].key.user >= es[older].key.user
    ensures !Live(es, s, older)
  {
    assert Before(es[newer].key, es[older].key);
  }

  lemma FoundLive(es: seq<Entry>, s: nat, pos: int, i: nat)
    requires Sorted(es) && -1 <= pos < i < |es| && es[i].key.kind.Value? && Visible(es[i], s)
    requires forall k | pos < k < i :: !Visible(es[k], s)
    requires pos >= 0 ==> es[pos].key.user < es[i].key.user
    ensures Live(es, s, i)
  {
    forall k | 0 <= k < i && Visible(es[k], s)
      ensures es[k].key.user != es[i].key.user
    {
      assert k < pos ==> Before(es[k].key, es[pos].key);
    }
  }

  lemma LastPlace(es: seq<Entry>, s: nat, i: nat)
    requires Live(es, s, i) && forall k | i < k < |es| :: !Live(es, s, k)
    ensures Rank(es, s, i) == |View(es, s)| - 1
  {
    NextPlace(es, s, i, |es|);
  }

  /** Where a seek must land: the first key at or after the target. */
  ghost predicate SeeksTo(view: seq<(UserKey, Bytes)>, target: UserKey, c: Option<nat>) {
    var end := if c.Some? then c.value else |view|;
    && end <= |view| && (c.Some? ==> end < |view| && view[end].0 >= target)
    && forall k | 0 <= k < end :: view[k].0 < target
  }

  lemma SeekPlace(es: seq<Entry>, s: nat, target: UserKey, j: nat)
    requires Sorted(es) && j <= |es| && (j < |es| ==> Live(es, s, j) && es[j].key.user >= target)
    requires forall k | 0 <= k < j && Live(es, s, k) :: es[k].key.user < target
    ensures SeeksTo(View(es, s), target, if j < |es| then Some(Rank(es, s, j)) else None)
  {
    if j < |es| {
      LiveInView(es, s, j);
    }
    forall c | 0 <= c < Rank(es, s, j)
      ensures c < |View(es, s)| && View(es, s)[c].0 < target
    {
      var i := ViewEntryIsLive(es, s, j, c);
      LiveInView(es, s, i);
    }
  }

  // ----- runs of a plain cursor -----

  datatype Move = ToFirst | ToLast | To(target: UserKey) | Forth | Back

  /** The first place of the view at or above the target. */
  function PlaceOf(view: seq<(UserKey, Bytes)>, target: UserKey): nat {
    if view == [] || view[0].0 >= target then 0 else 1 + PlaceOf(view[1..], target)
  }

  lemma {:induction false} PlaceIsSought(view: seq<(UserKey, Bytes)>, target: UserKey, c: Option<nat>)
    requires SeeksTo(view, target, c)
    ensures PlaceOf(view, target) <= |view|
    ensures c == if PlaceOf(view, target) < |view| then Some(PlaceOf(view, target)) else None
    decreases |view|
  {
    if view != [] && view[0].0 < target {
      PlaceIsSought(view[1..], target, if c.Some? then Some(c.value - 1) else None);
    }
  }

  function InView(view: seq<(UserKey, Bytes)>, c: nat): Option<nat> {
    if c < |view| then Some(c) else None
  }

  /** A move of the plain cursor. Next and Prev may only be called on a valid iterator and are skipped otherwise. */
  function Moved(view: seq<(UserKey, Bytes)>, c: Option<nat>, m: Move): Option<nat> {
    match m
    case ToFirst => InView(view, 0)
    case ToLast => if view == [] then None else Some(|view| - 1)
    case To(target) => InView(view, PlaceOf(view, target))
    case Forth => if c.None? then None else InView(view, c.value + 1)
    case Back => if c.None? || c.value == 0 then None else Some(c.value - 1)
  }

  function MovedAll(view: seq<(UserKey, Bytes)>, c: Option<nat>, moves: seq<Move>): Option<nat> {
    if moves == [] then c else Moved(view, MovedAll(view, c, moves[..|moves| - 1]), moves[|moves| - 1])
  }

  /** What a cursor shows: a pair of the view, or nothing. */
  function Shown(view: seq<(UserKey, Bytes)>, c: Option<nat>): Option<(UserKey, Bytes)> {
    if c.Some? && c.value < |view| then Some(view[c.value]) else None
  }

  lemma NotMoved(view: seq<(UserKey, Bytes)>, c: Option<nat>)
    ensures MovedAll(view, c, []) == c
  {
  }

  lemma OneMoreMove(view: seq<(UserKey, Bytes)>, c: Option<nat>, moves: seq<Move>, n: nat)
    requires n < |moves|
    ensures MovedAll(view, c, moves[..n + 1]) == Moved(view, MovedAll(view, c, moves[..n]), moves[n])
  {
    assert moves[..n + 1][..n] == moves[..n];
  }

  // ----- the iterator -----

  datatype Direction = Forward | Reverse

  class DBIter {
    const es: seq<Entry>    // what iter_ iterates over
    const sequence: nat
    var pos: int            // iter_ is valid when 0 <= pos < |es|
    var direction: Direction
    var valid: bool
    var savedKey: Option<UserKey>
    var savedValue: Bytes
    ghost var at: int       // the entry shown, when valid

    ghost predicate Valid()
      reads this
    {
      && Sorted(es) && -1 <= pos <= |es|
      && (valid ==> Live(es, sequence, at) && if direction.Forward? then pos == at else BeforeShown())
    }

    /** Moving backwards, iter_ is just before the entries of the key shown: only invisible entries are in between. */
    ghost predicate BeforeShown()
      reads this
      requires 0 <= at < |es|
    {
      && savedKey == Some(es[at].key.user) && savedValue == es[at].value
      && -1 <= pos < at
      && (pos >= 0 ==> es[pos].key.user < es[at].key.user)
      && forall k | pos < k < at :: !Visible(es[k], sequence)
    }

    /** The cursor this iterator stands for: a place in the view, or none. */
    ghost function Cursor(): (c: Option<nat>)
      reads this
      requires Valid()
    {
      if valid then Some(Rank(es, sequence, at)) else None
    }

    predicate IterValid()
      reads this
    {
      0 <= pos < |es|
    }

    constructor (es: seq<Entry>, sequence: nat)
      requires Sorted(es)
      ensures Valid() && Cursor() == None && this.es == es && this.sequence == sequence
    {
      this.es, this.sequence := es, sequence;
      pos, direction, valid, savedKey, savedValue, at := -1, Forward, false, None, [], 0;
    }

    function Key(): (k: UserKey)
      reads this
      requires Valid() && valid
      ensures Cursor().value < |View(es, sequence)| && k == View(es, sequence)[Cursor().value].0
    {
      LiveInView(es, sequence, at);
      if direction.Forward? then es[pos].key.user else savedKey.value
    }

    function CurrentValue(): (v: Bytes)
      reads this
      requires Valid() && valid
      ensures Cursor().value < |View(es, sequence)| && v == View(es, sequence)[Cursor().value].1
    {
      LiveInView(es, sequence, at);
      if direction.Forward? then es[pos].value else savedValue
    }

    /** Stops at the first live entry from pos on whose key lies above the one to skip. */
    method FindNextUserEntry(skipping0: bool)
      requires Sorted(es) && 0 <= pos < |es| && direction.Forward?
      requires skipping0 ==> savedKey.Some?
      requires skipping0 ==> forall k | pos <= k < |es| && Visible(es[k], sequence) :: savedKey.value <= es[k].key.user
      requires forall k, m | 0 <= k < pos <= m < |es| && Visible(es[k], sequence) && es[k].key.user == es[m].key.user ::
                 skipping0 && es[m].key.user <= savedKey.value
      modifies this
      ensures Valid() && direction.Forward? && old(pos) <= pos
      ensures valid ==> pos < |es| && pos == at
      ensures valid ==> !skipping0 || old(savedKey).value < es[at].key.user
      ensures forall k | old(pos) <= k < if valid then at else |es| ::
                Live(es, sequence, k) ==> skipping0 && es[k].key.user <= old(savedKey).value
    {
      var skipping := skipping0;
      ghost var p0, last := pos, -1;
      while true
        invariant p0 <= pos < |es| && direction.Forward? && (skipping ==> savedKey.Some?)
        invariant skipping0 ==> skipping && old(savedKey).value <= savedKey.value
        invariant if last == -1 then skipping == skipping0 && savedKey == old(savedKey)
                  else p0 <= last < pos && Visible(es[last], sequence)
                       && skipping && savedKey == Some(es[last].key.user)
        invariant forall k, m | 0 <= k < pos <= m < |es| && Visible(es[k], sequence)
                                  && es[k].key.user == es[m].key.user ::
                    skipping && es[m].key.user <= savedKey.value
        invariant forall k | p0 <= k < pos ::
                    Live(es, sequence, k) ==> skipping0 && es[k].key.user <= old(savedKey).value
        decreases |es| - pos
      {
        var e := es[pos];
        if Visible(e, sequence) {
          match e.key.kind {
            case Deletion =>
              savedKey, skipping, last := Some(e.key.user), true, pos;
            case Value =>
              if skipping && e.key.user <= savedKey.value {
              } else {
                at := pos;
                valid, savedKey := true, None;
                return;
              }
          }
        }
        pos := pos + 1;
        if !IterValid() {
          break;
        }
      }
      savedKey, valid := None, false;
    }

    /** Collects the oldest-to-newest run of visible entries of one key, going backwards; stops at the first visible
        entry of a smaller key once something undeleted has been found. */
    method FindPrevUserEntry()
      requires Sorted(es) && -1 <= pos < |es| && direction.Reverse?
      modifies this
      ensures Valid() && (valid <==> direction.Reverse?)
      ensures valid ==> at <= old(pos)
      ensures forall k | (if valid then at else -1) < k <= old(pos) :: !Live(es, sequence, k)
    {
      hide Live, Sorted, Rank, View;
      var kind := Deletion;
      ghost var p0 := pos;
      NotLive(es, sequence);
      if IterValid() {
        while true
          invariant 0 <= pos <= p0 && direction.Reverse?
          invariant kind.Deletion? ==> forall k | pos < k <= p0 :: !Live(es, sequence, k)
          invariant kind.Value? ==> pos < at <= p0 && Collected() && forall k | at < k <= p0 :: !Live(es, sequence, k)
          decreases pos
        {
          var e := es[pos];
          if Visible(e, sequence) {
            if kind.Value? && e.key.user < savedKey.value {
              break;
            }
            if kind.Value? {
              Shadowed(es, sequence, pos, at);
            }
            kind := e.key.kind;
            if kind.Deletion? {
              savedKey, savedValue := None, [];
            } else {
              savedKey, savedValue := Some(e.key.user), e.value;
            }
            at := pos;
          }
          pos := pos - 1;
          if !IterValid() {
            break;
          }
        }
      }
      if kind.Deletion? {
        valid, savedKey, savedValue, direction := false, None, [], Forward;
      } else {
        FoundLive(es, sequence, pos, at);
        valid := true;
      }
    }

    /** While going backwards: entry `at` is the last visible entry met, and holds a value. */
    ghost predicate Collected()
      reads this
      requires 0 <= at < |es| && -1 <= pos
    {
      && savedKey == Some(es[at].key.user) && savedValue == es[at].value
      && es[at].key.kind.Value? && Visible(es[at], sequence)
      && forall k | pos < k < at :: !Visible(es[k], sequence)
    }

    method Next()
      requires Valid() && valid
      modifies this
      ensures Valid()
      ensures var c := old(Cursor()).value + 1; Cursor() == if c < |View(es, sequence)| then Some(c) else None
    {
      ghost var i := at;
      if direction.Reverse? {
        direction := Forward;
        if !IterValid() {
          pos := 0;
        } else {
          pos := pos + 1;
        }
      } else {
        savedKey := Some(es[pos].key.user);
        pos := pos + 1;
      }
      if !IterValid() {
        NextPlace(es, sequence, i, |es|);
        valid, savedKey := false, None;
        return;
      }
      FindNextUserEntry(true);
      ghost var end := if valid then at else |es|;
      LaterLiveIsAbove(es, sequence, i);
      NextPlace(es, sequence, i, end);
    }

    method Prev()
      requires Valid() && valid
      modifies this
      ensures Valid()
      ensures var c := old(Cursor()).value; Cursor() == if c > 0 then Some(c - 1) else None
    {
      ghost var i := at;
      if direction.Forward? {
        var key := es[pos].key.user;
        savedKey := Some(key);
        while true
          invariant 0 <= pos <= i && direction.Forward? && forall k | pos <= k < i :: es[k].key.user == key
          decreases pos
        {
          pos := pos - 1;
          if !IterValid() {
            valid, savedKey, savedValue := false, None, [];
            OneGroupBefore(es, sequence, i);
            return;
          }
          if es[pos].key.user < key {
            break;
          }
        }
        direction := Reverse;
      }
      ghost var p0 := pos;
      FindPrevUserEntry();
      assert forall k | p0 < k < i :: !Live(es, sequence, k);
      if valid {
        NextPlace(es, sequence, at, i);
      } else {
        FirstPlace(es, sequence, i);
      }
    }

    method Seek(target: UserKey)
      requires Valid()
      modifies this
      ensures Valid() && SeeksTo(View(es, sequence), target, Cursor())
    {
      direction, savedValue, savedKey := Forward, [], None;
      pos := SeekIndex(es, SeekKey(target, sequence));
      ghost var p0 := pos;
      if IterValid() {
        FindNextUserEntry(false);
      } else {
        valid := false;
      }
      SeekPlace(es, sequence, target, if valid then at else |es|);
    }

    method SeekToFirst()
      requires Valid()
      modifies this
      ensures Valid() && Cursor() == if |View(es, sequence)| > 0 then Some(0) else None
    {
      direction, savedValue, pos := Forward, [], 0;
      if IterValid() {
        FindNextUserEntry(false);
      } else {
        valid := false;
      }
      FirstPlace(es, sequence, if valid then at else |es|);
    }

    method SeekToLast()
      requires Valid()
      modifies this
      ensures Valid()
      ensures var n := |View(es, sequence)|; Cursor() == if n > 0 then Some(n - 1) else None
    {
      direction, savedValue, pos := Reverse, [], |es| - 1;
      FindPrevUserEntry();
      if valid {
        LastPlace(es, sequence, at);
      } else {
        FirstPlace(es, sequence, |es|);
      }
    }

    /** Any run of moves: after each of them the iterator shows what the plain cursor shows. */
    method Run(moves: seq<Move>) returns (shown: seq<Option<(UserKey, Bytes)>>)
      requires Valid()
      modifies this
      ensures Valid() && |shown| == |moves|
      ensures var view := View(es, sequence);
              && Cursor() == MovedAll(view, old(Cursor()), moves)
              && forall k | 0 <= k < |moves| :: shown[k] == Shown(view, MovedAll(view, old(Cursor()), moves[..k + 1]))
    {
      hide *;
      shown := [];
      ghost var view, c0 := View(es, sequence), Cursor();
      NotMoved(view, c0);
      assert moves[..0] == [];
      for n := 0 to |moves|
        invariant Valid() && |shown| == n && Cursor() == MovedAll(view, c0, moves[..n])
        invariant forall k | 0 <= k < n :: shown[k] == Shown(view, MovedAll(view, c0, moves[..k + 1]))
      {
        OneMoreMove(view, c0, moves, n);
        Perform(moves[n]);
        var pair := Show();
        shown := shown + [pair];
      }
      assert moves[..|moves|] == moves;
    }

    method Perform(m: Move)
      requires Valid()
      modifies this
      ensures Valid() && Cursor() == Moved(View(es, sequence), old(Cursor()), m)
    {
      hide Live, BeforeShown, Rank, View, Sorted;
      match m {
        case ToFirst => SeekToFirst();
        case ToLast => SeekToLast();
        case To(target) =>
          Seek(target);
          PlaceIsSought(View(es, sequence), target, Cursor());
        case Forth =>
          if valid {
            Next();
          }
        case Back =>
          if valid {
            Prev();
          }
      }
    }

    /** Valid, key and value. */
    method Show() returns (pair: Option<(UserKey, Bytes)>)
      requires Valid()
      ensures pair == Shown(View(es, sequence), Cursor())
    {
      if !valid {
        return None;
      }
      LiveInView(es, sequence, at);
      return Some((Key(), CurrentValue()));
    }
  }
}
