/** The specification of the storage engine: a plain multi-version map. It is the set of all
    versions written; a read of u at snapshot s sees the newest version of u not newer than s,
    and a deletion reads as absent. */
module MultiVersion {
  import opened Wrappers
  import opened InternalKeys

  datatype Entry = Entry(key: InternalKey, value: Bytes)

  predicate Matches(e: Entry, u: UserKey, s: nat) {
    e.key.user == u && e.key.sequence <= s
  }

  ghost predicate SequencesUpTo(S: set<Entry>, last: nat) {
    forall e | e in S :: e.key.sequence <= last
  }

  ghost predicate OnePerSequence(S: set<Entry>) {
    forall e, e' | e in S && e' in S && e.key.user == e'.key.user && e.key.sequence == e'.key.sequence :: e == e'
  }

  ghost predicate IsNewest(S: set<Entry>, u: UserKey, s: nat, e: Entry) {
    && e in S
    && Matches(e, u, s)
    && forall e' | e' in S && Matches(e', u, s) :: e'.key.sequence <= e.key.sequence
  }

  /** The newest version of u in S at snapshot s, if there is one. */
  ghost function Newest(S: set<Entry>, u: UserKey, s: nat): (r: Option<Entry>)
    ensures r.Some? ==> IsNewest(S, u, s, r.value)
    ensures r.None? ==> forall e | e in S :: !Matches(e, u, s)
  {
    if exists e :: e in S && Matches(e, u, s) then
      NewestExists(S, u, s);
      var e :| IsNewest(S, u, s, e);
      Some(e)
    else None
  }

  /** What a reader is told: the value, or nothing when there is no version or it is a deletion. */
  function Answer(o: Option<Entry>): Option<Bytes> {
    if o.Some? && o.value.key.kind.Value? then Some(o.value.value) else None
  }

  ghost function ReadAt(S: set<Entry>, u: UserKey, s: nat): Option<Bytes> {
    Answer(Newest(S, u, s))
  }

  lemma {:induction false} NewestExists(S: set<Entry>, u: UserKey, s: nat)
    requires exists e :: e in S && Matches(e, u, s)
    ensures exists e :: IsNewest(S, u, s, e)
    decreases S
  {
    var e :| e in S && Matches(e, u, s);
    var rest := S - {e};
    if exists e' :: e' in rest && Matches(e', u, s) {
      NewestExists(rest, u, s);
      var m :| IsNewest(rest, u, s, m);
      if m.key.sequence >= e.key.sequence {
        assert IsNewest(S, u, s, m);
      } else {
        assert IsNewest(S, u, s, e);
      }
    } else {
      assert forall e' | e' in S && Matches(e', u, s) :: e' == e || e' in rest;
      assert IsNewest(S, u, s, e);
    }
  }

  /** Whoever is newest is the answer. */
  lemma NewestIs(S: set<Entry>, u: UserKey, s: nat, e: Entry)
    requires OnePerSequence(S)
    requires IsNewest(S, u, s, e)
    ensures Newest(S, u, s) == Some(e)
  {
    var r := Newest(S, u, s);
    assert r.Some?;
  }

  /** For every user key they share, every version in A is newer than every version in B. */
  ghost predicate Newer(A: set<Entry>, B: set<Entry>) {
    forall a, b | a in A && b in B && a.key.user == b.key.user :: a.key.sequence > b.key.sequence
  }

  /** Searching newest layer first and stopping at the first hit finds the newest version overall. */
  lemma LayeredNewest(A: set<Entry>, B: set<Entry>, u: UserKey, s: nat)
    requires OnePerSequence(A + B)
    requires Newer(A, B)
    ensures Newest(A + B, u, s) == if Newest(A, u, s).Some? then Newest(A, u, s) else Newest(B, u, s)
  {
    var a, b := Newest(A, u, s), Newest(B, u, s);
    if a.Some? {
      assert forall e | e in A + B && Matches(e, u, s) :: e.key.sequence <= a.value.key.sequence;
      NewestIs(A + B, u, s, a.value);
    } else if b.Some? {
      NewestIs(A + B, u, s, b.value);
    }
  }
}
