/** Table blocks (block.cc, block_builder.cc): prefix-compressed entries with restart points. The iterator over the
    bytes is proved to move like a cursor over the list of entries. */
module Blocks {
  import opened Wrappers
  import opened Coding

  datatype Pair = Pair(key: Bytes, value: Bytes)

  /** The comparator, given by the rank of each key: every order on byte strings embeds in the reals. */
  type Rank = Bytes -> real

  // ----- one entry -----

  /** The three lengths at position p, and where the key delta starts. */
  datatype Header = Header(shared: nat, nonShared: nat, valueLength: nat, start: nat)

  /** DecodeEntry, over data that ends at the restart array. Lengths whose sum overflows are too long here. */
  function DecodeEntry(data: Bytes, p: nat): (r: Option<Header>)
    requires p <= |data|
    ensures r.Some? ==> r.value.start + r.value.nonShared + r.value.valueLength <= |data|
  {
    if |data| - p < 3 then None
    else
      var h :=
        if data[p] < 128 && data[p + 1] < 128 && data[p + 2] < 128 then
          Some(Header(data[p], data[p + 1], data[p + 2], p + 3))
        else SlowHeader(data, p);
      if h.None? || h.value.start + h.value.nonShared + h.value.valueLength > |data| then None
      else h
  }

  function SlowHeader(data: Bytes, p: nat): Option<Header>
    requires p <= |data|
  {
    var a := GetVarint32(data[p..]);
    if a.None? then None
    else
      var b := GetVarint32(a.value.1);
      if b.None? then None
      else
        var c := GetVarint32(b.value.1);
        if c.None? || |c.value.1| > |data| then None
        else Some(Header(a.value.0, b.value.0, c.value.0, |data| - |c.value.1|))
  }

  function EncodeEntry(shared: nat, delta: Bytes, value: Bytes): (r: Bytes)
    ensures |r| >= 3
  {
    Varint(shared) + Varint(|delta|) + Varint(|value|) + delta + value
  }

  /** The header written is the header read, by the fast path or the slow one. */
  lemma HeaderRoundTrip(data: Bytes, p: nat, shared: nat, delta: Bytes, value: Bytes, rest: Bytes)
    requires p <= |data| < U32 && data[p..] == EncodeEntry(shared, delta, value) + rest && shared < U32
    ensures var start := |data| - |rest| - |value| - |delta|;
            && p < start && DecodeEntry(data, p) == Some(Header(shared, |delta|, |value|, start))
            && data[start..start + |delta|] == delta && data[start + |delta|..start + |delta| + |value|] == value
  {
    hide *;
    var a, b, c := Varint(shared), Varint(|delta|), Varint(|value|);
    var tail := delta + value + rest;
    EntryParts(shared, delta, value, rest);
    TailAt(data, p, a + (b + c), delta, value, rest);
    SlowRoundTrip(data, p, shared, |delta|, |value|, tail);
    FastPath(shared, |delta|, |value|, data, p, tail);
    HeaderFits(data, p, Header(shared, |delta|, |value|, |data| - |tail|));
  }

  lemma EntryParts(shared: nat, delta: Bytes, value: Bytes, rest: Bytes)
    ensures var tail := delta + value + rest;
            var a, b, c := Varint(shared), Varint(|delta|), Varint(|value|);
            && EncodeEntry(shared, delta, value) + rest == a + (b + (c + tail))
            && EncodeEntry(shared, delta, value) + rest == a + (b + c) + tail
            && |a + (b + c)| >= 3
  {
    hide Varint;
    var a, b, c := Varint(shared), Varint(|delta|), Varint(|value|);
    assert a + b + c + delta + value + rest == a + (b + (c + (delta + value + rest)));
  }

  lemma TailAt(data: Bytes, p: nat, header: Bytes, delta: Bytes, value: Bytes, rest: Bytes)
    requires p <= |data| && data[p..] == header + (delta + value + rest)
    ensures var start := |data| - |rest| - |value| - |delta|;
            && p + |header| == start && data[start..] == delta + value + rest
            && data[start..start + |delta|] == delta && data[start + |delta|..start + |delta| + |value|] == value
  {
    var start, tail := p + |header|, delta + value + rest;
    assert data[start..] == data[p..][|header|..] == tail;
    assert data[start..start + |delta|] == tail[..|delta|];
    assert data[start + |delta|..start + |delta| + |value|] == tail[|delta|..|delta| + |value|];
  }

  lemma SlowRoundTrip(data: Bytes, p: nat, x: nat, y: nat, z: nat, tail: Bytes)
    requires p <= |data| && x < U32 && y < U32 && z < U32
    requires data[p..] == Varint(x) + (Varint(y) + (Varint(z) + tail))
    ensures |tail| <= |data| && SlowHeader(data, p) == Some(Header(x, y, z, |data| - |tail|))
  {
    hide Varint, GetVarint32;
    Varint32RoundTrip(x, Varint(y) + (Varint(z) + tail));
    Varint32RoundTrip(y, Varint(z) + tail);
    Varint32RoundTrip(z, tail);
  }

  lemma HeaderFits(data: Bytes, p: nat, h: Header)
    requires p + 3 <= |data| < U32 && SlowHeader(data, p) == Some(h) && h.start + h.nonShared + h.valueLength <= |data|
    requires data[p] < 128 && data[p + 1] < 128 && data[p + 2] < 128 ==>
              h == Header(data[p], data[p + 1], data[p + 2], p + 3)
    ensures DecodeEntry(data, p) == Some(h)
  {
    hide SlowHeader;
  }

  /** When the first three bytes are small they are the three lengths. */
  lemma FastPath(x: nat, y: nat, z: nat, data: Bytes, p: nat, tail: Bytes)
    requires p + 3 <= |data| && data[p..] == Varint(x) + (Varint(y) + (Varint(z) + tail))
    ensures data[p] < 128 && data[p + 1] < 128 && data[p + 2] < 128 ==>
              data[p] == x && data[p + 1] == y && data[p + 2] == z && |data| - |tail| == p + 3
  {
    var d := data[p..];
    assert d[0] == data[p] && d[1] == data[p + 1] && d[2] == data[p + 2];
  }

  // ----- a well-formed block -----

  /** Where the entries lie: entry i starts at offsets[i] and shares the first shared[i] bytes of the key before it;
      offsets ends with the length of the data. restarts lists the entries that share nothing. */
  datatype Layout = Layout(offsets: seq<nat>, shared: seq<nat>, restarts: seq<nat>)

  function KeyBefore(es: seq<Pair>, i: nat): Bytes
    requires i <= |es|
  {
    if i == 0 then [] else es[i - 1].key
  }

  /** Entry i of the data, given the key before it. */
  ghost predicate EntryOk(data: Bytes, es: seq<Pair>, l: Layout, i: nat)
    requires i < |es| && |l.offsets| == |es| + 1 && |l.shared| == |es|
  {
    var p, s := l.offsets[i], l.shared[i];
    && p < l.offsets[i + 1] <= |data|
    && s <= |KeyBefore(es, i)| && s <= |es[i].key| && KeyBefore(es, i)[..s] == es[i].key[..s]
    && var h := DecodeEntry(data, p);
       && h.Some? && h.value.shared == s && h.value.start + h.value.nonShared + h.value.valueLength == l.offsets[i + 1]
       && data[h.value.start..h.value.start + h.value.nonShared] == es[i].key[s..]
       && data[h.value.start + h.value.nonShared..l.offsets[i + 1]] == es[i].value
  }

  ghost predicate WellFormed(data: Bytes, es: seq<Pair>, l: Layout) {
    && |l.offsets| == |es| + 1 && |l.shared| == |es| && l.offsets[0] == 0 && l.offsets[|es|] == |data|
    && (forall i | 0 <= i < |es| :: EntryOk(data, es, l, i))
    && l.restarts != [] && l.restarts[0] == 0
    && (forall j, k | 0 <= j < k < |l.restarts| :: l.restarts[j] < l.restarts[k])
    && (forall j | 0 <= j < |l.restarts| ::
          l.restarts[j] <= |es| && (l.restarts[j] < |es| ==> l.shared[l.restarts[j]] == 0))
    && (|es| > 0 ==> l.restarts[|l.restarts| - 1] < |es|)
  }

  ghost predicate SortedBy(rank: Rank, es: seq<Pair>) {
    forall i, j | 0 <= i < j < |es| :: rank(es[i].key) < rank(es[j].key)
  }

  lemma {:induction false} OffsetsAscend(data: Bytes, es: seq<Pair>, l: Layout, i: nat, j: nat)
    requires WellFormed(data, es, l) && i < j <= |es|
    ensures l.offsets[i] < l.offsets[j] <= |data|
    decreases j
  {
    assert EntryOk(data, es, l, j - 1);
    if i < j - 1 {
      OffsetsAscend(data, es, l, i, j - 1);
    }
  }

  /** The offsets are in the order of the entries. */
  lemma OffsetOrder(data: Bytes, es: seq<Pair>, l: Layout, i: nat, j: nat)
    requires WellFormed(data, es, l) && i <= |es| && j <= |es|
    ensures l.offsets[i] < l.offsets[j] <==> i < j
    ensures l.offsets[i] <= |data| && (l.offsets[i] == |data| <==> i == |es|)
  {
    if i < j {
      OffsetsAscend(data, es, l, i, j);
    } else if j < i {
      OffsetsAscend(data, es, l, j, i);
    }
    if i < |es| {
      OffsetsAscend(data, es, l, i, |es|);
    }
  }

  /** How many entries rank below the target: where a seek must stop. */
  ghost function CountBelow(rank: Rank, es: seq<Pair>, target: Bytes): (c: nat)
    ensures c <= |es|
    ensures forall k | 0 <= k < c :: rank(es[k].key) < rank(target)
    ensures c < |es| ==> rank(es[c].key) >= rank(target)
  {
    if es == [] || rank(es[0].key) >= rank(target) then 0 else 1 + CountBelow(rank, es[1..], target)
  }

  // ----- the iterator -----

  class Iter {
    const rank: Rank
    const data: Bytes               // up to the restart array, which starts at |data|
    const restartPoints: seq<nat>   // the decoded restart array
    ghost const es: seq<Pair>
    ghost const l: Layout
    var current: nat
    var restartIndex: nat
    var key: Bytes
    var valueStart: nat
    var valueEnd: nat
    var corrupt: bool
    ghost var at: nat               // the entry shown, or |es|

    ghost predicate BlockOk()
      reads this
    {
      && WellFormed(data, es, l) && |data| < U32
      && |restartPoints| == |l.restarts|
      && forall j | 0 <= j < |restartPoints| :: restartPoints[j] == l.offsets[l.restarts[j]]
    }

    ghost predicate Valid()
      reads this
    {
      && BlockOk() && !corrupt && at <= |es| && current == l.offsets[at]
      && (at < |es| ==>
            && key == es[at].key && valueEnd == l.offsets[at + 1]
            && valueStart <= valueEnd <= |data| && data[valueStart..valueEnd] == es[at].value
            && restartIndex < |restartPoints|)
    }

    /** ParseNextKey would read entry j: its prefix is in place. */
    ghost predicate Ready(j: nat)
      reads this
    {
      && BlockOk() && !corrupt && j <= |es| && valueEnd == l.offsets[j] && restartIndex < |restartPoints|
      && (j < |es| ==>
            l.shared[j] <= |key| && l.shared[j] <= |es[j].key| && key[..l.shared[j]] == es[j].key[..l.shared[j]])
    }

    constructor (rank: Rank, data: Bytes, restartPoints: seq<nat>, ghost es: seq<Pair>, ghost l: Layout)
      requires WellFormed(data, es, l) && |data| < U32 && |restartPoints| == |l.restarts|
      requires forall j | 0 <= j < |restartPoints| :: restartPoints[j] == l.offsets[l.restarts[j]]
      ensures Valid() && at == |es| && this.es == es && this.rank == rank
    {
      this.rank, this.data, this.restartPoints, this.es, this.l := rank, data, restartPoints, es, l;
      current, restartIndex, key, valueStart, valueEnd, corrupt := |data|, |restartPoints|, [], 0, 0, false;
      at := |es|;
    }

    predicate IsValid()
      reads this
    {
      current < |data|
    }

    function Key(): (k: Bytes)
      reads this
      requires Valid() && IsValid()
      ensures at < |es| && k == es[at].key
    {
      key
    }

    function Value(): (v: Bytes)
      reads this
      requires Valid() && IsValid()
      ensures at < |es| && v == es[at].value
    {
      data[valueStart..valueEnd]
    }

    lemma ShownIsCurrent()
      requires Valid()
      ensures IsValid() <==> at < |es|
    {
      OffsetOrder(data, es, l, at, |es|);
    }

    method SeekToRestartPoint(index: nat)
      requires BlockOk() && !corrupt && index < |restartPoints|
      modifies this`key, this`restartIndex, this`valueStart, this`valueEnd
      ensures Ready(l.restarts[index])
    {
      key, restartIndex := [], index;
      var offset := restartPoints[index];
      valueStart, valueEnd := offset, offset;
    }

    method CorruptionError()
      modifies this
      ensures corrupt && !IsValid()
    {
      current, restartIndex, corrupt, key, valueStart, valueEnd := |data|, |restartPoints|, true, [], 0, 0;
    }

    /** Reads the next entry; in a well-formed block that is entry j, and nothing is corrupt. */
    method ParseNextKey(ghost j: nat) returns (ok: bool)
      requires restartIndex <= |restartPoints|
      modifies this
      ensures old(Ready(j)) ==> Valid() && at == j && ok == (j < |es|)
      ensures old(Ready(j)) && j < |es| ==> Ready(j + 1)
      ensures old(Ready(j)) || ok || !IsValid()
    {
      hide WellFormed, DecodeEntry;
      if Ready(j) {
        EntryFacts(data, es, l, j);
      }
      current := valueEnd;
      at := j;
      if current >= |data| {
        current, restartIndex := |data|, |restartPoints|;
        return false;
      }
      var h := DecodeEntry(data, current);
      if h.None? || |key| < h.value.shared {
        CorruptionError();
        return false;
      }
      var start, end := h.value.start, h.value.start + h.value.nonShared;
      EntryInside(data, current);
      key := key[..h.value.shared] + data[start..end];
      valueStart, valueEnd := end, end + h.value.valueLength;
      AdvanceRestart();
      ok := true;
    }

    method AdvanceRestart()
      requires restartIndex <= |restartPoints|
      modifies this`restartIndex
      ensures old(restartIndex) < |restartPoints| ==> restartIndex < |restartPoints|
    {
      while restartIndex + 1 < |restartPoints| && restartPoints[restartIndex + 1] < current
        invariant restartIndex < |restartPoints| || restartIndex == old(restartIndex)
        decreases |restartPoints| - restartIndex
      {
        restartIndex := restartIndex + 1;
      }
    }

    method Next()
      requires Valid() && IsValid()
      modifies this
      ensures Valid() && at == old(at) + 1
    {
      ShownIsCurrent();
      ShownIsReady();
      var _ := ParseNextKey(at + 1);
    }

    /** After showing an entry the next one can be read. */
    lemma ShownIsReady()
      requires Valid() && at < |es|
      ensures Ready(at + 1)
    {
      NextEntry(data, es, l, at);
    }

    method SeekToFirst()
      requires Valid()
      modifies this
      ensures Valid() && at == 0
    {
      SeekToRestartPoint(0);
      var _ := ParseNextKey(0);
    }

    method SeekToLast()
      requires Valid()
      modifies this
      ensures Valid() && at == if |es| == 0 then 0 else |es| - 1
    {
      SeekToRestartPoint(|restartPoints| - 1);
      ghost var j := l.restarts[|restartPoints| - 1];
      while true
        invariant Ready(j) && (|es| > 0 ==> j < |es|)
        decreases |es| - j
      {
        var ok := ParseNextKey(j);
        if !ok {
          break;
        }
        OffsetOrder(data, es, l, j + 1, |es|);
        if valueEnd >= |data| {
          break;
        }
        j := j + 1;
      }
    }

    method Prev()
      requires Valid() && IsValid()
      modifies this
      ensures Valid() && at == if old(at) == 0 then |es| else old(at) - 1
    {
      ShownIsCurrent();
      ghost var n := at;
      var original := current;
      while restartPoints[restartIndex] >= original
        invariant Valid() && at == n && restartIndex < |restartPoints|
        decreases restartIndex
      {
        OffsetOrder(data, es, l, l.restarts[restartIndex], n);
        if restartIndex == 0 {
          current, restartIndex, at := |data|, |restartPoints|, |es|;
          return;
        }
        restartIndex := restartIndex - 1;
      }
      OffsetOrder(data, es, l, l.restarts[restartIndex], n);
      ghost var j := l.restarts[restartIndex];
      SeekToRestartPoint(restartIndex);
      while true
        invariant Ready(j) && j < n
        decreases n - j
      {
        var ok := ParseNextKey(j);
        OffsetOrder(data, es, l, j + 1, n);
        if !ok || valueEnd >= original {
          break;
        }
        j := j + 1;
      }
    }

    /** The first entry that does not rank below the target, by binary search over the restart points and then entry
        by entry. */
    method Seek(target: Bytes)
      requires Valid() && SortedBy(rank, es)
      modifies this
      ensures Valid() && at == CountBelow(rank, es, target)
    {
      hide WellFormed, DecodeEntry, SortedBy;
      ghost var c := CountBelow(rank, es, target);
      var left := LastRestartBelow(target);
      ghost var j := l.restarts[left];
      SeekToRestartPoint(left);
      while true
        invariant Ready(j) && j <= c
        decreases |es| - j
      {
        var ok := ParseNextKey(j);
        if !ok {
          return;
        }
        ShownIsCurrent();
        if rank(key) >= rank(target) {
          return;
        }
        BelowIsCounted(rank, es, target, j);
        j := j + 1;
      }
    }

    method LastRestartBelow(target: Bytes) returns (left: nat)
      requires Valid() && SortedBy(rank, es)
      ensures left < |restartPoints| && (left == 0 || l.restarts[left] < CountBelow(rank, es, target))
      ensures l.restarts[left] <= CountBelow(rank, es, target)
      ensures left + 1 < |restartPoints| ==> CountBelow(rank, es, target) <= l.restarts[left + 1]
    {
      hide DecodeEntry, SortedBy;
      var right := |restartPoints| - 1;
      left := 0;
      while left < right
        invariant 0 <= left <= right < |restartPoints|
        invariant left == 0 || l.restarts[left] < CountBelow(rank, es, target)
        invariant right + 1 < |restartPoints| ==> CountBelow(rank, es, target) <= l.restarts[right + 1]
        decreases right - left
      {
        var mid := (left + right + 1) / 2;
        var regionOffset := restartPoints[mid];
        RestartEntry(data, es, l, mid);
        var h := DecodeEntry(data, regionOffset);
        if h.None? || h.value.shared != 0 {
          return; // corruption, which a well-formed block does not have
        }
        EntryInside(data, regionOffset);
        var midKey := data[h.value.start..h.value.start + h.value.nonShared];
        if rank(midKey) < rank(target) {
          BelowIsCounted(rank, es, target, l.restarts[mid]);
          left := mid;
        } else {
          right := mid - 1;
        }
      }
    }
  }

  /** A restart point other than the first entry of an empty block starts an entry that shares nothing. */
  lemma RestartEntry(data: Bytes, es: seq<Pair>, l: Layout, r: nat)
    requires WellFormed(data, es, l) && 0 < r < |l.restarts|
    ensures l.restarts[r] < |es| && l.offsets[l.restarts[r]] < |data|
    ensures var h := DecodeEntry(data, l.offsets[l.restarts[r]]);
            && h.Some? && h.value.shared == 0
            && data[h.value.start..h.value.start + h.value.nonShared] == es[l.restarts[r]].key
  {
    var i := l.restarts[r];
    assert l.restarts[0] < i;
    if |es| > 0 {
      if r < |l.restarts| - 1 {
        assert i < l.restarts[|l.restarts| - 1];
      }
      assert EntryOk(data, es, l, i);
    }
  }

  lemma BelowIsCounted(rank: Rank, es: seq<Pair>, target: Bytes, i: nat)
    requires SortedBy(rank, es) && i < |es| && rank(es[i].key) < rank(target)
    ensures i < CountBelow(rank, es, target)
  {
  }

  lemma EntryInside(data: Bytes, p: nat)
    requires p <= |data|
    ensures var h := DecodeEntry(data, p);
            h.Some? ==> h.value.start + h.value.nonShared + h.value.valueLength <= |data|
  {
  }

  /** What reading entry j takes from the data, and what it leaves for entry j + 1. */
  lemma EntryFacts(data: Bytes, es: seq<Pair>, l: Layout, j: nat)
    requires WellFormed(data, es, l) && j <= |es|
    ensures |l.offsets| == |es| + 1 && |l.shared| == |es| && l.offsets[j] <= |data|
    ensures (l.offsets[j] == |data| <==> j == |es|)
    ensures j < |es| ==>
              var h, s := DecodeEntry(data, l.offsets[j]), l.shared[j];
              && h.Some? && h.value.shared == s <= |es[j].key|
              && h.value.start + h.value.nonShared + h.value.valueLength == l.offsets[j + 1] <= |data|
              && es[j].key == es[j].key[..s] + data[h.value.start..h.value.start + h.value.nonShared]
              && es[j].value == data[h.value.start + h.value.nonShared..l.offsets[j + 1]]
    ensures j + 1 < |es| ==>
              var s := l.shared[j + 1];
              s <= |es[j].key| && s <= |es[j + 1].key| && es[j].key[..s] == es[j + 1].key[..s]
  {
    OffsetOrder(data, es, l, j, |es|);
    if j < |es| {
      NextEntry(data, es, l, j);
    }
  }

  lemma NextEntry(data: Bytes, es: seq<Pair>, l: Layout, j: nat)
    requires WellFormed(data, es, l) && j < |es|
    ensures EntryOk(data, es, l, j) && (j + 1 < |es| ==> EntryOk(data, es, l, j + 1))
    ensures es[j].key == es[j].key[..l.shared[j]] + es[j].key[l.shared[j]..]
  {
  }

  // ----- the builder -----

  /** Entry i as the builder writes it. */
  ghost predicate WrittenAt(data: Bytes, es: seq<Pair>, l: Layout, i: nat)
    requires i < |es| && |l.offsets| == |es| + 1 && |l.shared| == |es|
  {
    var s := l.shared[i];
    && l.offsets[i] <= l.offsets[i + 1] <= |data|
    && s <= |KeyBefore(es, i)| && s <= |es[i].key| && KeyBefore(es, i)[..s] == es[i].key[..s]
    && data[l.offsets[i]..l.offsets[i + 1]] == EncodeEntry(s, es[i].key[s..], es[i].value)
  }

  ghost predicate Written(data: Bytes, es: seq<Pair>, l: Layout) {
    && |l.offsets| == |es| + 1 && |l.shared| == |es| && l.offsets[0] == 0 && l.offsets[|es|] == |data|
    && (forall i | 0 <= i < |es| :: WrittenAt(data, es, l, i))
  }

  ghost predicate RestartsOk(n: nat, l: Layout) {
    && |l.shared| == n && l.restarts != [] && l.restarts[0] == 0
    && (forall j, k | 0 <= j < k < |l.restarts| :: l.restarts[j] < l.restarts[k])
    && (forall j | 0 <= j < |l.restarts| :: l.restarts[j] <= n && (l.restarts[j] < n ==> l.shared[l.restarts[j]] == 0))
    && (n > 0 ==> l.restarts[|l.restarts| - 1] < n)
  }

  /** What the builder writes is a well-formed block of its entries. */
  lemma WrittenIsWellFormed(data: Bytes, es: seq<Pair>, l: Layout)
    requires Written(data, es, l) && RestartsOk(|es|, l) && |data| < U32
    ensures WellFormed(data, es, l)
  {
    forall i | 0 <= i < |es|
      ensures EntryOk(data, es, l, i)
    {
      assert WrittenAt(data, es, l, i);
      var p, q, s := l.offsets[i], l.offsets[i + 1], l.shared[i];
      assert data[p..] == data[p..q] + data[q..];
      SharedFits(data, es, l, i);
      HeaderRoundTrip(data, p, s, es[i].key[s..], es[i].value, data[q..]);
    }
  }

  /** A key is no longer than the bytes it took, so the lengths fit in 32 bits. */
  lemma {:induction false} KeyFits(data: Bytes, es: seq<Pair>, l: Layout, i: nat)
    requires Written(data, es, l) && i <= |es|
    ensures |KeyBefore(es, i)| <= l.offsets[i] <= |data|
  {
    if i > 0 {
      KeyFits(data, es, l, i - 1);
      assert WrittenAt(data, es, l, i - 1);
      var s := l.shared[i - 1];
      assert |EncodeEntry(s, es[i - 1].key[s..], es[i - 1].value)| >= |es[i - 1].key| - s;
    }
  }

  lemma SharedFits(data: Bytes, es: seq<Pair>, l: Layout, i: nat)
    requires Written(data, es, l) && i < |es| && |data| < U32
    ensures l.shared[i] < U32
  {
    KeyFits(data, es, l, i);
    assert WrittenAt(data, es, l, i);
  }

  /** The state of a builder to which the entries es have been added. */
  ghost predicate Building(buffer: Bytes, es: seq<Pair>, l: Layout, points: seq<nat>, counter: nat, lastKey: Bytes,
                           interval: nat)
  {
    && Written(buffer, es, l) && lastKey == KeyBefore(es, |es|)
    && RestartsOk(|es|, l) && interval >= 1 && (es == [] ==> counter == 0 && l.restarts == [0])
    && |points| == |l.restarts| && (forall j | 0 <= j < |points| :: points[j] == l.offsets[l.restarts[j]])
    && Compressed(es, l, interval)
    && (es != [] ==> counter == |es| - l.restarts[|l.restarts| - 1] <= interval)
  }

  class BlockBuilder {
    const restartInterval: nat
    var buffer: Bytes
    var restarts: seq<nat>
    var counter: nat
    var lastKey: Bytes
    ghost var es: seq<Pair>
    ghost var l: Layout

    ghost predicate Valid()
      reads this
    {
      Building(buffer, es, l, restarts, counter, lastKey, restartInterval)
    }

    constructor (restartInterval: nat)
      requires restartInterval >= 1
      ensures Valid() && es == []
    {
      this.restartInterval := restartInterval;
      buffer, restarts, counter, lastKey := [], [0], 0, [];
      es, l := [], Layout([0], [], [0]);
    }

    method Add(key: Bytes, value: Bytes)
      requires Valid()
      modifies this
      ensures Valid() && es == old(es) + [Pair(key, value)]
      ensures |l.shared| == |es| && l.shared[..|old(es)|] == old(l).shared
      ensures if old(counter) < restartInterval then l.restarts == old(l).restarts
              else l.restarts == old(l).restarts + [|old(es)|]
    {
      hide Written, RestartsOk, Compressed;
      LengthsOf(buffer, es, l);
      var shared: nat := 0;
      ghost var restart := false;
      if counter < restartInterval {
        var minLength := if |lastKey| < |key| then |lastKey| else |key|;
        while shared < minLength && lastKey[shared] == key[shared]
          invariant shared <= minLength && lastKey[..shared] == key[..shared]
        {
          shared := shared + 1;
        }
      } else {
        restarts := restarts + [|buffer|];
        counter := 0;
        restart := true;
      }
      RestartDue(es, l, restartInterval, counter, restart);
      AddEntry(key, value, shared, restart);
    }

    /** The second half of Add. */
    method AddEntry(key: Bytes, value: Bytes, shared: nat, ghost restart: bool)
      requires Written(buffer, es, l) && lastKey == KeyBefore(es, |es|) && restartInterval >= 1
      requires RestartsOk(|es|, l) && (es == [] ==> l.restarts == [0] && !restart)
      requires |restarts| == |l.restarts| + if restart then 1 else 0
      requires forall j | 0 <= j < |l.restarts| :: restarts[j] == l.offsets[l.restarts[j]]
      requires restart ==> shared == 0 && restarts[|l.restarts|] == |buffer|
      requires es == [] ==> shared == 0
      requires shared <= |lastKey| && shared <= |key| && lastKey[..shared] == key[..shared]
      requires Compressed(es, l, restartInterval)
      requires DueAt(es, l, restartInterval, restart)
      requires counter == if restart || es == [] then 0 else |es| - l.restarts[|l.restarts| - 1]
      requires restart || Longest(lastKey, key, shared)
      modifies this
      ensures Valid() && es == old(es) + [Pair(key, value)]
      ensures l == Extended(old(l), |buffer|, shared, restart)
    {
      hide Building, Written, RestartsOk, EncodeEntry, Varint, KeyBefore, Compressed, Longest, DueAt, Extended;
      EntryBytes(buffer, shared, key[shared..], value);
      ExtendBuilding(buffer, es, l, restarts, counter, lastKey, restartInterval, Pair(key, value), shared, restart);
      var nonShared := |key| - shared;
      buffer := buffer + Varint(shared) + Varint(nonShared) + Varint(|value|);
      buffer := buffer + key[shared..] + value;
      lastKey := lastKey[..shared] + key[shared..];
      assert lastKey == key;
      counter := counter + 1;
      l, es := Extended(l, |buffer|, shared, restart), es + [Pair(key, value)];
    }
  }

  lemma ExtendBuilding(buffer: Bytes, es: seq<Pair>, l: Layout, points: seq<nat>, counter: nat, lastKey: Bytes,
                       interval: nat, pair: Pair, shared: nat, restart: bool)
    requires Written(buffer, es, l) && lastKey == KeyBefore(es, |es|) && interval >= 1
    requires RestartsOk(|es|, l) && (es == [] ==> l.restarts == [0] && !restart)
    requires |points| == |l.restarts| + if restart then 1 else 0
    requires forall j | 0 <= j < |l.restarts| :: points[j] == l.offsets[l.restarts[j]]
    requires restart ==> shared == 0 && points[|l.restarts|] == |buffer|
    requires es == [] ==> shared == 0
    requires Compressed(es, l, interval) && DueAt(es, l, interval, restart)
    requires counter == if restart || es == [] then 0 else |es| - l.restarts[|l.restarts| - 1]
    requires shared <= |lastKey| && shared <= |pair.key| && lastKey[..shared] == pair.key[..shared]
    requires restart || Longest(lastKey, pair.key, shared)
    ensures var buffer' := buffer + EncodeEntry(shared, pair.key[shared..], pair.value);
            Building(buffer', es + [pair], Extended(l, |buffer'|, shared, restart), points, counter + 1, pair.key,
                     interval)
    ensures lastKey[..shared] + pair.key[shared..] == pair.key
  {
    hide *;
    var entry := EncodeEntry(shared, pair.key[shared..], pair.value);
    var end := |buffer| + |entry|;
    LastKey(es, pair);
    ExtendWritten(buffer, es, l, pair, shared, restart, entry);
    ExtendRestarts(es, l, end, shared, restart);
    ExtendPoints(buffer, es, l, points, end, shared, restart);
    ExtendCompressed(buffer, es, l, interval, pair, end, shared, restart);
    Assemble(buffer + entry, es + [pair], Extended(l, end, shared, restart), points, counter + 1, pair.key, interval);
  }

  lemma Assemble(buffer: Bytes, es: seq<Pair>, l: Layout, points: seq<nat>, counter: nat, lastKey: Bytes, interval: nat)
    requires Written(buffer, es, l) && es != [] && lastKey == KeyBefore(es, |es|) && RestartsOk(|es|, l)
    requires interval >= 1
    requires |points| == |l.restarts|
    requires forall j | 0 <= j < |points| :: l.restarts[j] < |l.offsets| && points[j] == l.offsets[l.restarts[j]]
    requires Compressed(es, l, interval) && counter == |es| - l.restarts[|l.restarts| - 1] <= interval
    ensures Building(buffer, es, l, points, counter, lastKey, interval)
  {
    hide Written, Compressed, KeyBefore;
  }

  /** No longer prefix is shared. */
  predicate Longest(before: Bytes, key: Bytes, shared: nat) {
    && shared <= |before| && shared <= |key| && before[..shared] == key[..shared]
    && (shared == |before| || shared == |key| || before[shared] != key[shared])
  }

  /** The restart points are `interval` entries apart, the last one at most `interval` entries from the end, and every
      other entry shares as much as it can with the one before it. */
  ghost predicate Compressed(es: seq<Pair>, l: Layout, interval: nat) {
    && |l.shared| == |es| && l.restarts != [] && l.restarts[0] == 0
    && (forall j | 0 < j < |l.restarts| :: l.restarts[j] == l.restarts[j - 1] + interval)
    && (es != [] ==> 1 <= |es| - l.restarts[|l.restarts| - 1] <= interval)
    && (forall i | 0 <= i < |es| :: SharedOk(es, l, i))
  }

  ghost predicate SharedOk(es: seq<Pair>, l: Layout, i: nat)
    requires i < |es| == |l.shared|
  {
    if i in l.restarts then l.shared[i] == 0 else Longest(KeyBefore(es, i), es[i].key, l.shared[i])
  }

  lemma LengthsOf(data: Bytes, es: seq<Pair>, l: Layout)
    requires Written(data, es, l)
    ensures |l.offsets| == |es| + 1 && |l.shared| == |es|
  {
  }

  /** A restart is due exactly when the last one is `interval` entries away. */
  ghost predicate DueAt(es: seq<Pair>, l: Layout, interval: nat, restart: bool) {
    l.restarts != [] && (restart <==> es != [] && |es| - l.restarts[|l.restarts| - 1] == interval)
  }

  lemma RestartDue(es: seq<Pair>, l: Layout, interval: nat, counter: nat, restart: bool)
    requires Compressed(es, l, interval) && interval >= 1
    requires restart ==> es != [] && |es| - l.restarts[|l.restarts| - 1] == interval
    requires !restart ==> es == [] || |es| - l.restarts[|l.restarts| - 1] < interval
    ensures DueAt(es, l, interval, restart)
  {
  }

  lemma ExtendCompressed(data: Bytes, es: seq<Pair>, l: Layout, interval: nat, pair: Pair, end: nat, shared: nat,
                         restart: bool)
    requires Compressed(es, l, interval) && DueAt(es, l, interval, restart) && interval >= 1
    requires RestartsOk(|es|, l) && (es == [] ==> l.restarts == [0])
    requires if restart then shared == 0 else Longest(KeyBefore(es, |es|), pair.key, shared)
    requires es == [] ==> shared == 0
    ensures Compressed(es + [pair], Extended(l, end, shared, restart), interval)
    ensures var after := Extended(l, end, shared, restart).restarts;
            |es| + 1 - after[|after| - 1]
              == 1 + (if restart || es == [] then 0 else |es| - l.restarts[|l.restarts| - 1]) <= interval
  {
    hide Longest, SharedOk, RestartsOk;
    var es', l' := es + [pair], Extended(l, end, shared, restart);
    RestartsBelow(es, l);
    forall i: nat | i < |es'|
      ensures SharedOk(es', l', i)
    {
      assert i < |es| ==> SharedOk(es, l, i);
      ExtendShared(es, l, pair, end, shared, restart, i);
    }
  }

  lemma ExtendShared(es: seq<Pair>, l: Layout, pair: Pair, end: nat, shared: nat, restart: bool, i: nat)
    requires |es| == |l.shared| && i <= |es|
    requires if i < |es| then SharedOk(es, l, i) else |es| !in l.restarts || es == []
    requires if restart then shared == 0 else Longest(KeyBefore(es, |es|), pair.key, shared)
    requires es == [] ==> shared == 0
    ensures SharedOk(es + [pair], Extended(l, end, shared, restart), i)
  {
    hide Longest;
    var es', l' := es + [pair], Extended(l, end, shared, restart);
    assert KeyBefore(es', i) == KeyBefore(es, i);
    if i < |es| {
      assert i in l'.restarts <==> i in l.restarts;
    } else if restart {
      assert l'.restarts[|l.restarts|] == i;
    }
  }

  lemma RestartsBelow(es: seq<Pair>, l: Layout)
    requires RestartsOk(|es|, l)
    ensures es != [] ==> |es| !in l.restarts
  {
  }

  lemma ExtendPoints(data: Bytes, es: seq<Pair>, l: Layout, points: seq<nat>, end: nat, shared: nat, restart: bool)
    requires Written(data, es, l) && RestartsOk(|es|, l) && |points| == |l.restarts| + if restart then 1 else 0
    requires forall j | 0 <= j < |l.restarts| :: points[j] == l.offsets[l.restarts[j]]
    requires restart ==> points[|l.restarts|] == |data|
    ensures var l' := Extended(l, end, shared, restart);
            |points| == |l'.restarts| &&
            forall j | 0 <= j < |points| :: l'.restarts[j] < |l'.offsets| && points[j] == l'.offsets[l'.restarts[j]]
  {
  }

  lemma LastKey(es: seq<Pair>, pair: Pair)
    ensures KeyBefore(es + [pair], |es| + 1) == pair.key
  {
  }

  lemma EntryBytes(b: Bytes, shared: nat, delta: Bytes, value: Bytes)
    ensures b + Varint(shared) + Varint(|delta|) + Varint(|value|) + delta + value
         == b + EncodeEntry(shared, delta, value)
  {
    hide Varint;
  }

  /** The layout with one more entry; a restart adds its index to the restart list. */
  ghost function Extended(l: Layout, end: nat, shared: nat, restart: bool): Layout {
    Layout(l.offsets + [end], l.shared + [shared], if restart then l.restarts + [|l.shared|] else l.restarts)
  }

  lemma ExtendWritten(data: Bytes, es: seq<Pair>, l: Layout, pair: Pair, shared: nat, restart: bool, entry: Bytes)
    requires Written(data, es, l) && shared <= |pair.key| && shared <= |KeyBefore(es, |es|)|
    requires KeyBefore(es, |es|)[..shared] == pair.key[..shared]
    requires entry == EncodeEntry(shared, pair.key[shared..], pair.value)
    ensures Written(data + entry, es + [pair], Extended(l, |data| + |entry|, shared, restart))
  {
    var es', l', data' := es + [pair], Extended(l, |data| + |entry|, shared, restart), data + entry;
    forall i | 0 <= i < |es'|
      ensures WrittenAt(data', es', l', i)
    {
      if i < |es| {
        assert WrittenAt(data, es, l, i);
        assert data'[l.offsets[i]..l.offsets[i + 1]] == data[l.offsets[i]..l.offsets[i + 1]];
      } else {
        assert data'[|data|..|data'|] == entry;
      }
    }
  }

  lemma ExtendRestarts(es: seq<Pair>, l: Layout, end: nat, shared: nat, restart: bool)
    requires RestartsOk(|es|, l) && (restart ==> shared == 0 && |es| > 0)
    requires es == [] ==> shared == 0 && l.restarts == [0]
    ensures RestartsOk(|es| + 1, Extended(l, end, shared, restart))
  {
    var n, l' := |es|, Extended(l, end, shared, restart);
    var before, after, shared' := l.restarts, l'.restarts, l'.shared;
    assert after == if restart then before + [n] else before;
    assert n > 0 ==> forall j | 0 <= j < |before| :: before[j] <= before[|before| - 1] < n;
    assert forall k | 0 <= k < n :: shared'[k] == l.shared[k];
    forall j, k | 0 <= j < k < |after|
      ensures after[j] < after[k]
    {
    }
    forall j | 0 <= j < |after|
      ensures after[j] < n + 1 && shared'[after[j]] == 0
    {
      assert j < |before| ==> after[j] == before[j];
    }
  }

  // ----- the restart array -----

  function RestartArray(points: seq<nat>): (r: Bytes)
    requires forall j | 0 <= j < |points| :: points[j] < U32
    ensures |r| == 4 * |points|
  {
    if points == [] then []
    else
      var last: u32 := points[|points| - 1];
      RestartArray(points[..|points| - 1]) + EncodeFixed32(last)
  }

  lemma {:induction false} RestartArrayAt(points: seq<nat>, j: nat)
    requires (forall j | 0 <= j < |points| :: points[j] < U32) && j < |points|
    ensures DecodeFixed32(RestartArray(points)[4 * j..]) == points[j]
    decreases |points|
  {
    var last := |points| - 1;
    var a, b := RestartArray(points[..last]), EncodeFixed32(points[last]);
    if j == last {
      assert (a + b)[4 * j..] == b;
      Fixed32RoundTrip(points[last]);
    } else {
      RestartArrayAt(points[..last], j);
      Fixed32Prefix((a + b)[4 * j..]);
      Fixed32Prefix(a[4 * j..]);
      assert (a + b)[4 * j..][..4] == a[4 * j..][..4];
    }
  }

  /** BlockBuilder::Finish. */
  function Finish(data: Bytes, points: seq<nat>): Bytes
    requires |points| < U32 && forall j | 0 <= j < |points| :: points[j] < U32
  {
    data + RestartArray(points) + EncodeFixed32(|points|)
  }

  /** The Block constructor and GetRestartPoint: the data and the restart points, or none for bad contents. */
  function Open(contents: Bytes): Option<(Bytes, seq<nat>)> {
    if |contents| < 4 then None
    else
      var n: nat := DecodeFixed32(contents[|contents| - 4..]);
      if n > (|contents| - 4) / 4 then None
      else
        var offset := |contents| - (1 + n) * 4;
        Some((contents[..offset], seq(n, j requires 0 <= j < n => DecodeFixed32(contents[offset + 4 * j..]) as nat)))
  }

  /** Opening a finished block gives back its data and its restart points. */
  lemma OpenFinished(data: Bytes, points: seq<nat>)
    requires |points| < U32 && forall j | 0 <= j < |points| :: points[j] < U32
    ensures var r := Open(Finish(data, points));
            r.Some? && r.value.0 == data && r.value.1 == points
  {
    hide *;
    var contents := Finish(data, points);
    FinishedParts(data, points);
    forall j | 0 <= j < |points|
      ensures DecodeFixed32(contents[|data| + 4 * j..]) == points[j]
    {
      PointRead(data, points, j);
    }
    OpenParts(contents, data, points);
  }

  lemma FinishedParts(data: Bytes, points: seq<nat>)
    requires |points| < U32 && forall j | 0 <= j < |points| :: points[j] < U32
    ensures var contents := Finish(data, points);
            && |contents| == |data| + 4 * |points| + 4 && contents[..|data|] == data
            && contents[|data|..] == RestartArray(points) + EncodeFixed32(|points|)
            && DecodeFixed32(contents[|contents| - 4..]) == |points|
  {
    hide RestartArray, EncodeFixed32, DecodeFixed32;
    var contents, tail := Finish(data, points), EncodeFixed32(|points|);
    Fixed32RoundTrip(|points|);
    assert contents[|contents| - 4..] == tail;
  }

  lemma PointRead(data: Bytes, points: seq<nat>, j: nat)
    requires |points| < U32 && (forall j | 0 <= j < |points| :: points[j] < U32) && j < |points|
    ensures |Finish(data, points)| == |data| + 4 * |points| + 4
    ensures DecodeFixed32(Finish(data, points)[|data| + 4 * j..]) == points[j]
  {
    hide RestartArray, EncodeFixed32, DecodeFixed32, Finish;
    FinishedParts(data, points);
    RestartArrayAt(points, j);
    var contents, words, tail := Finish(data, points), RestartArray(points), EncodeFixed32(|points|);
    var a, b := contents[|data| + 4 * j..], words[4 * j..];
    assert a == contents[|data|..][4 * j..] == b + tail;
    Fixed32Prefix(a);
    Fixed32Prefix(b);
    assert a[..4] == b[..4];
  }

  lemma OpenParts(contents: Bytes, data: Bytes, points: seq<nat>)
    requires |contents| == |data| + 4 * |points| + 4 && contents[..|data|] == data
    requires DecodeFixed32(contents[|contents| - 4..]) == |points|
    requires forall j | 0 <= j < |points| :: DecodeFixed32(contents[|data| + 4 * j..]) == points[j]
    ensures Open(contents) == Some((data, points))
  {
    hide DecodeFixed32;
    var n: nat := |points|;
    assert |contents| - (1 + n) * 4 == |data|;
    var read := seq(n, j requires 0 <= j < n => DecodeFixed32(contents[|data| + 4 * j..]) as nat);
    assert read == points;
  }

  /** A block of "ab" and "ac" written out: the second entry shares one byte with the first, and one restart point
      follows, with the count. */
  lemma KnownBlock()
    ensures EncodeEntry(0, [97, 98], [120]) == [0, 2, 1, 97, 98, 120]
    ensures EncodeEntry(1, [99], [121]) == [1, 1, 1, 99, 121]
    ensures Finish([0, 2, 1, 97, 98, 120, 1, 1, 1, 99, 121], [0]) ==
              [0, 2, 1, 97, 98, 120, 1, 1, 1, 99, 121, 0, 0, 0, 0, 1, 0, 0, 0]
  {
    assert RestartArray([]) == [];
    assert RestartArray([0]) == [0, 0, 0, 0];
  }
}
