/** Internal keys and their order (dbformat.h, dbformat.cc).
    A user key is represented by its position in the user comparator's order: every
    countable linear order embeds in the reals. */
module InternalKeys {
  type UserKey = real

  datatype ValueType = Deletion | Value

  const MAX_SEQUENCE: nat := 0xFF_FFFF_FFFF_FFFF

  datatype InternalKey = InternalKey(user: UserKey, sequence: nat, kind: ValueType)

  /** Low byte: the type; upper 56 bits: the sequence number. */
  function PackSequenceAndType(sequence: nat, kind: ValueType): nat {
    sequence * 256 + if kind.Value? then 1 else 0
  }

  /** Three-way comparison, user key first and then the packed number, larger first. */
  function Compare(a: InternalKey, b: InternalKey): int {
    if a.user < b.user then -1
    else if a.user > b.user then 1
    else
      var anum := PackSequenceAndType(a.sequence, a.kind);
      var bnum := PackSequenceAndType(b.sequence, b.kind);
      if anum > bnum then -1 else if anum < bnum then 1 else 0
  }

  /** The order every other module reasons with. */
  predicate Before(a: InternalKey, b: InternalKey) {
    || a.user < b.user
    || (a.user == b.user &&
        (a.sequence > b.sequence || (a.sequence == b.sequence && a.kind.Value? && b.kind.Deletion?)))
  }

  /** The packed comparison is a total order: user key ascending, sequence number descending,
      a value before a deletion; it reports equality only for identical keys. */
  lemma ComparePackedIsBefore(a: InternalKey, b: InternalKey)
    ensures Compare(a, b) < 0 <==> Before(a, b)
    ensures Compare(a, b) > 0 <==> Before(b, a)
    ensures Compare(a, b) == 0 <==> a == b
  {
    if a.user == b.user && a.sequence < b.sequence {
      assert (a.sequence + 1) * 256 <= b.sequence * 256;
    } else if a.user == b.user && a.sequence > b.sequence {
      assert (b.sequence + 1) * 256 <= a.sequence * 256;
    }
  }

  /** Before or equal. */
  predicate AtMost(a: InternalKey, b: InternalKey) {
    a == b || Before(a, b)
  }

  /** The key a lookup seeks with: the newest entry of u not newer than s is the first at or after it. */
  function SeekKey(u: UserKey, s: nat): InternalKey {
    InternalKey(u, s, Value)
  }
}
