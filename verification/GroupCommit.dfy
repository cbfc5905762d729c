/** Group commit (db_impl.cc): the writer at the front of the queue writes for those behind it. The log and the memtable
    receive exactly the queued operations in queue order, under contiguous sequence numbers. */
module GroupCommit {
  import opened Wrappers
  import opened Coding
  import opened WriteBatches

  /** An operation in the memtable. */
  datatype Stamped = Stamped(sequence: nat, op: Op)

  function Number(first: nat, ops: seq<Op>): (r: seq<Stamped>)
    ensures |r| == |ops|
  {
    seq(|ops|, k requires 0 <= k < |ops| => Stamped(first + k, ops[k]))
  }

  /** What recovery puts into the memtable when it replays log records. */
  function Replay(log: seq<Bytes>): seq<Stamped> {
    if log == [] then []
    else
      var last := log[|log| - 1];
      Replay(log[..|log| - 1])
      + if |last| < HEADER then [] else Number(DecodeFixed64(last), DecodeOps(last[HEADER..]).0)
  }

  /** What a reader at the given sequence number sees. */
  function VisibleAt(mem: seq<Stamped>, sequence: nat): seq<Stamped> {
    if mem == [] then []
    else
      var last := mem[|mem| - 1];
      VisibleAt(mem[..|mem| - 1], sequence) + if last.sequence <= sequence then [last] else []
  }

  lemma {:induction false} LaterIsInvisible(mem: seq<Stamped>, more: seq<Stamped>, sequence: nat)
    requires forall k | 0 <= k < |more| :: more[k].sequence > sequence
    ensures VisibleAt(mem + more, sequence) == VisibleAt(mem, sequence)
    decreases |more|
  {
    if more == [] {
      assert mem + more == mem;
    } else {
      var last := |more| - 1;
      assert (mem + more)[..|mem + more| - 1] == mem + more[..last];
      LaterIsInvisible(mem, more[..last], sequence);
    }
  }

  lemma {:induction false} AllVisible(mem: seq<Stamped>, sequence: nat)
    requires forall k | 0 <= k < |mem| :: mem[k].sequence <= sequence
    ensures VisibleAt(mem, sequence) == mem
  {
    if mem != [] {
      AllVisible(mem[..|mem| - 1], sequence);
    }
  }

  lemma ReplayOne(log: seq<Bytes>, sequence: u64, ops: seq<Op>)
    requires AllStorable(ops) && |ops| < U32
    ensures Replay(log + [Encode(sequence, ops)]) == Replay(log) + Number(sequence, ops)
  {
    var rep := Encode(sequence, ops);
    assert (log + [rep])[..|log|] == log;
    Fields(sequence, ops);
    OpsRoundTrip(ops);
  }

  lemma {:induction false} BytesPerOp(ops: seq<Op>)
    ensures |EncodeOps(ops)| >= |ops|
  {
    if ops != [] {
      BytesPerOp(ops[1..]);
    }
  }

  // ----- groups of operations that become visible together -----

  /** One committed group: its first sequence number and its operations. */
  datatype Group = Group(first: nat, ops: seq<Op>) {
    predicate EndsBy(last: nat) {
      first + |ops| <= last + 1
    }

    predicate Precedes(g: Group) {
      first + |ops| <= g.first
    }

    /** The sequence number lies before the group or covers all of it. */
    predicate Spares(p: nat) {
      p < first || p + 1 >= first + |ops|
    }
  }

  function MemOf(groups: seq<Group>): seq<Stamped> {
    if groups == [] then []
    else MemOf(groups[..|groups| - 1]) + Number(groups[|groups| - 1].first, groups[|groups| - 1].ops)
  }

  /** The groups have ascending sequence numbers, none above the last. */
  ghost predicate Ascending(groups: seq<Group>, last: nat) {
    && (forall i | 0 <= i < |groups| :: groups[i].EndsBy(last))
    && (forall i, j | 0 <= i < j < |groups| :: groups[i].Precedes(groups[j]))
  }

  /** No published sequence number lies inside a group. */
  ghost predicate Aside(groups: seq<Group>, published: set<nat>) {
    forall i, p | 0 <= i < |groups| && p in published :: groups[i].Spares(p)
  }

  lemma {:induction false} NoneVisible(mem: seq<Stamped>, sequence: nat)
    requires forall k | 0 <= k < |mem| :: mem[k].sequence > sequence
    ensures VisibleAt(mem, sequence) == []
  {
    LaterIsInvisible([], mem, sequence);
    assert [] + mem == mem;
  }

  lemma {:induction false} VisibleAppend(a: seq<Stamped>, b: seq<Stamped>, sequence: nat)
    ensures VisibleAt(a + b, sequence) == VisibleAt(a, sequence) + VisibleAt(b, sequence)
    decreases |b|
  {
    if b == [] {
      assert a + b == a;
    } else {
      var last := |b| - 1;
      assert (a + b)[..|a + b| - 1] == a + b[..last];
      VisibleAppend(a, b[..last], sequence);
    }
  }

  /** A group is visible whole or not at all at a published sequence number. */
  lemma GroupWholeOrNot(groups: seq<Group>, published: set<nat>, i: nat, p: nat)
    requires Aside(groups, published) && i < |groups| && p in published
    ensures var all := Number(groups[i].first, groups[i].ops);
            VisibleAt(all, p) == if p < groups[i].first then [] else all
  {
    var all := Number(groups[i].first, groups[i].ops);
    assert groups[i].Spares(p);
    if p < groups[i].first {
      NoneVisible(all, p);
    } else {
      AllVisible(all, p);
    }
  }

  /** What a reader at a published sequence number sees: whole groups, a first run of them. */
  lemma {:induction false} PublishedSeesWholeGroups(groups: seq<Group>, last: nat, published: set<nat>, p: nat)
    returns (k: nat)
    requires Ascending(groups, last) && Aside(groups, published) && p in published
    ensures k <= |groups| && VisibleAt(MemOf(groups), p) == MemOf(groups[..k])
    ensures forall i | 0 <= i < k :: groups[i].first <= p
    ensures forall i | k <= i < |groups| && groups[i].ops != [] :: p < groups[i].first
    decreases |groups|
  {
    hide VisibleAt;
    if groups == [] {
      VisibleNone(p);
      return 0;
    }
    var n := |groups| - 1;
    var front, all := groups[..n], Number(groups[n].first, groups[n].ops);
    FrontAscends(groups, last, published);
    k := PublishedSeesWholeGroups(front, last, published, p);
    GroupWholeOrNot(groups, published, n, p);
    VisibleAppend(MemOf(front), all, p);
    assert front[..k] == groups[..k];
    assert forall i | 0 <= i < n :: front[i] == groups[i];
    if p >= groups[n].first {
      BeforeIsBelow(groups, last, n, p);
      NothingBetween(groups, k, n);
      assert groups[..n + 1] == groups;
      k := n + 1;
    } else {
      assert VisibleAt(MemOf(groups), p) == VisibleAt(MemOf(front), p) + [];
    }
  }

  lemma VisibleNone(p: nat)
    ensures VisibleAt([], p) == []
  {
  }

  lemma FrontAscends(groups: seq<Group>, last: nat, published: set<nat>)
    requires groups != [] && Ascending(groups, last) && Aside(groups, published)
    ensures Ascending(groups[..|groups| - 1], last) && Aside(groups[..|groups| - 1], published)
  {
    var front := groups[..|groups| - 1];
    assert forall i | 0 <= i < |front| :: front[i] == groups[i];
  }

  lemma BeforeIsBelow(groups: seq<Group>, last: nat, n: nat, p: nat)
    requires Ascending(groups, last) && n < |groups| && p >= groups[n].first
    ensures forall i | 0 <= i <= n :: groups[i].first <= p
    ensures forall i | 0 <= i < n && p < groups[i].first :: groups[i].ops == []
  {
    forall i | 0 <= i < n
      ensures groups[i].first <= p
    {
      assert groups[i].Precedes(groups[n]);
    }
  }

  /** Groups without operations add nothing. */
  lemma {:induction false} NothingBetween(groups: seq<Group>, k: nat, n: nat)
    requires k <= n <= |groups| && forall i | k <= i < n :: groups[i].ops == []
    ensures MemOf(groups[..n]) == MemOf(groups[..k])
    decreases n
  {
    if k < n {
      NothingBetween(groups, k, n - 1);
      assert groups[..n][..n - 1] == groups[..n - 1];
    }
  }

  /** While a group is being inserted, readers at the published sequence numbers see what they saw before. */
  lemma BetweenInserts(mem: seq<Stamped>, first: nat, ops: seq<Op>, k: nat, p: nat)
    requires k <= |ops| && p < first
    ensures VisibleAt(mem + Number(first, ops)[..k], p) == VisibleAt(mem, p)
  {
    LaterIsInvisible(mem, Number(first, ops)[..k], p);
  }

  ghost predicate Unseen(mem: seq<Stamped>, first: nat, ops: seq<Op>, k: nat, p: nat)
    requires k <= |ops|
  {
    VisibleAt(mem + Number(first, ops)[..k], p) == VisibleAt(mem, p)
  }

  /** After any first run of the operations, a reader at a sequence number of the set sees what it saw before. */
  ghost predicate UnseenMeanwhile(mem: seq<Stamped>, first: nat, ops: seq<Op>, published: set<nat>) {
    forall p: nat, k: nat | p in published && k <= |ops| :: Unseen(mem, first, ops, k, p)
  }

  lemma NotSeenMeanwhile(mem: seq<Stamped>, first: nat, ops: seq<Op>, published: set<nat>)
    requires forall p | p in published :: p < first
    ensures UnseenMeanwhile(mem, first, ops, published)
  {
    forall p: nat, k: nat | p in published && k <= |ops|
      ensures Unseen(mem, first, ops, k, p)
    {
      BetweenInserts(mem, first, ops, k, p);
    }
  }

  lemma OneMoreGroup(groups: seq<Group>, g: Group, last: nat, published: set<nat>)
    requires Ascending(groups, last) && Aside(groups, published) && g.first == last + 1
    requires forall p | p in published :: p <= last
    ensures MemOf(groups + [g]) == MemOf(groups) + Number(g.first, g.ops)
    ensures Ascending(groups + [g], last + |g.ops|)
    ensures Aside(groups + [g], published + {last + |g.ops|})
  {
    var more := groups + [g];
    assert more[..|groups|] == groups && forall i | 0 <= i < |groups| :: more[i] == groups[i];
    assert forall i | 0 <= i < |groups| :: groups[i].EndsBy(last);
  }

  lemma NoMoreGroups(groups: seq<Group>, last: nat, more: nat, published: set<nat>)
    requires Ascending(groups, last) && Aside(groups, published) && last <= more
    ensures Ascending(groups, more) && Aside(groups, published + {more})
  {
  }

  lemma {:induction false} GroupsUpTo(groups: seq<Group>, last: nat)
    requires Ascending(groups, last)
    ensures forall k | 0 <= k < |MemOf(groups)| :: MemOf(groups)[k].sequence <= last
    decreases |groups|
  {
    if groups != [] {
      var n := |groups| - 1;
      assert forall i | 0 <= i < n :: groups[..n][i] == groups[i];
      GroupsUpTo(groups[..n], last);
    }
  }

  /** The memtable is made of the groups; no sequence number published so far lies inside one. */
  ghost predicate Grouped(mem: seq<Stamped>, groups: seq<Group>, published: set<nat>, last: nat) {
    && mem == MemOf(groups) && Ascending(groups, last) && Aside(groups, published)
    && last in published && forall p | p in published :: p <= last
  }

  lemma GroupedFacts(mem: seq<Stamped>, groups: seq<Group>, published: set<nat>, last: nat)
    requires Grouped(mem, groups, published, last)
    ensures (forall k | 0 <= k < |mem| :: mem[k].sequence <= last) && (forall p | p in published :: p <= last)
    ensures last in published && VisibleAt(mem, last) == mem
  {
    GroupsUpTo(groups, last);
    AllVisible(mem, last);
  }

  lemma GroupCommitted(mem: seq<Stamped>, groups: seq<Group>, published: set<nat>, last: nat, ops: seq<Op>)
    requires Grouped(mem, groups, published, last)
    ensures Grouped(mem + Number(last + 1, ops), groups + [Group(last + 1, ops)], published + {last + |ops|},
                    last + |ops|)
  {
    hide Ascending, Aside, MemOf;
    OneMoreGroup(groups, Group(last + 1, ops), last, published);
  }

  lemma GroupFailed(mem: seq<Stamped>, groups: seq<Group>, published: set<nat>, last: nat, more: nat)
    requires Grouped(mem, groups, published, last) && last <= more
    ensures Grouped(mem, groups, published + {more}, more)
  {
    NoMoreGroups(groups, last, more, published);
  }

  /** The operations of one writer of a group, too, are visible all or not at all. */
  lemma BatchWholeOrNot(g: Group, p: nat, from: nat, to: nat)
    requires g.Spares(p) && from <= to <= |g.ops|
    ensures var part := Number(g.first, g.ops)[from..to];
            VisibleAt(part, p) == if p < g.first then [] else part
  {
    var part := Number(g.first, g.ops)[from..to];
    if p < g.first {
      NoneVisible(part, p);
    } else {
      AllVisible(part, p);
    }
  }

  // ----- the queue -----

  class Writer {
    const batch: WriteBatch?
    const sync: bool
    var done: bool
    var ok: bool

    constructor (batch: WriteBatch?, sync: bool)
      ensures this.batch == batch && this.sync == sync && !done
    {
      this.batch, this.sync, done, ok := batch, sync, false, false;
    }
  }

  ghost function Batches(ws: seq<Writer>): set<WriteBatch> {
    set w | w in ws && w.batch != null :: w.batch
  }

  /** The operations of the writers, in queue order. A writer without a batch only waits. */
  ghost function OpsOf(ws: seq<Writer>): seq<Op>
    reads Batches(ws)
  {
    if ws == [] then []
    else
      OpsOf(ws[..|ws| - 1]) + if ws[|ws| - 1].batch == null then [] else ws[|ws| - 1].batch.ops
  }

  /** The bytes of their batches. */
  ghost function SizeOf(ws: seq<Writer>): nat
    reads Batches(ws)
  {
    if ws == [] then 0
    else SizeOf(ws[..|ws| - 1]) + if ws[|ws| - 1].batch == null then 0 else |ws[|ws| - 1].batch.rep|
  }

  /** The first n writers make up the group: each writer after the first that brings a batch stays within the limit, and
      the group ends only at the end of the queue, at a sync writer behind a leader that is none, or at a batch that
      would exceed the limit. */
  ghost predicate IsGroup(ws: seq<Writer>, n: nat)
    requires 1 <= n <= |ws| && ws[0].batch != null
    reads ws, Batches(ws)
  {
    var limit := if |ws[0].batch.rep| <= 0x2_0000 then |ws[0].batch.rep| + 0x2_0000 else 0x10_0000;
    && WithinLimit(ws, n, limit)
    && (n < |ws| ==> (ws[n].sync && !ws[0].sync) || (ws[n].batch != null && SizeUpTo(ws, n + 1) > limit))
  }

  ghost predicate WithinLimit(ws: seq<Writer>, n: nat, limit: nat)
    requires n <= |ws|
    reads ws, Batches(ws)
  {
    forall k | 0 < k < n && ws[k].batch != null :: SizeUpTo(ws, k + 1) <= limit
  }

  ghost function SizeUpTo(ws: seq<Writer>, n: nat): nat
    requires n <= |ws|
    reads Batches(ws)
  {
    GroupReads(ws, n);
    SizeOf(ws[..n])
  }

  lemma GroupReads(ws: seq<Writer>, n: nat)
    requires n <= |ws|
    ensures Batches(ws[..n]) <= Batches(ws)
  {
  }

  ghost predicate Distinct(ws: seq<Writer>) {
    forall i, j | 0 <= i < j < |ws| :: ws[i] != ws[j]
  }

  /** The log replays to the memtable, or, after a failed sync, to more than it. */
  ghost predicate LogHolds(clean: bool, mem: seq<Stamped>, log: seq<Bytes>) {
    if clean then mem == Replay(log) else |mem| < |Replay(log)|
  }

  lemma CleanIff(clean: bool, mem: seq<Stamped>, log: seq<Bytes>)
    requires LogHolds(clean, mem, log)
    ensures clean <==> mem == Replay(log)
  {
  }

  lemma LogGrows(clean: bool, mem: seq<Stamped>, log: seq<Bytes>, sequence: u64, ops: seq<Op>, ok: bool)
    requires LogHolds(clean, mem, log) && AllStorable(ops) && |ops| < U32
    ensures LogHolds(clean && (ok || ops == []), if ok then mem + Number(sequence, ops) else mem,
                     log + [Encode(sequence, ops)])
  {
    ReplayOne(log, sequence, ops);
    assert Replay(log) + Number(sequence, []) == Replay(log);
  }

  class WriteQueue {
    var writers: seq<Writer>
    var lastSequence: nat
    var log: seq<Bytes>
    var mem: seq<Stamped>
    const tmpBatch: WriteBatch
    ghost var clean: bool    // no failed sync has left operations in the log that the memtable lacks
    ghost var groups: seq<Group>
    ghost var published: set<nat>    // the values of lastSequence so far, at which readers may read

    ghost predicate Valid()
      reads this, tmpBatch, writers, Batches(writers)
    {
      && Distinct(writers) && (forall w | w in writers :: !w.done)
      && tmpBatch.Valid() && tmpBatch.ops == []
      && tmpBatch !in Batches(writers) && (forall b | b in Batches(writers) :: b.Valid())
      && Grouped(mem, groups, published, lastSequence)
      && LogHolds(clean, mem, log)
    }

    constructor ()
      ensures Valid() && writers == [] && lastSequence == 0 && log == [] && mem == [] && clean
      ensures groups == [] && published == {0}
    {
      writers, lastSequence, log, mem, clean, groups, published := [], 0, [], [], true, [], {0};
      tmpBatch := new WriteBatch();
    }

    /** A writer queues up. */
    method Enqueue(w: Writer)
      requires Valid() && w !in writers && !w.done
      requires w.batch != null ==> w.batch.Valid() && w.batch != tmpBatch
      modifies this`writers
      ensures Valid() && writers == old(writers) + [w]
    {
      writers := writers + [w];
      assert Batches(writers) <= Batches(old(writers)) + if w.batch == null then {} else {w.batch};
    }

    lemma QueueParts()
      requires Valid()
      ensures tmpBatch.Valid() && tmpBatch.ops == [] && tmpBatch !in Batches(writers)
      ensures forall b | b in Batches(writers) :: b.Valid()
      ensures Distinct(writers) && (forall w | w in writers :: !w.done)
      ensures Grouped(mem, groups, published, lastSequence) && LogHolds(clean, mem, log)
    {
    }

    /** BuildBatchGroup: the batch to write, and how many writers it answers. */
    method BuildBatchGroup() returns (result: WriteBatch, n: nat)
      requires Valid() && writers != [] && writers[0].batch != null
      modifies tmpBatch
      ensures 1 <= n <= |writers| && result.Valid() && result.ops == OpsOf(writers[..n])
      ensures result == tmpBatch || (result == writers[0].batch && tmpBatch.Valid() && tmpBatch.ops == [])
      ensures !writers[0].sync ==> forall k | 0 <= k < n :: !writers[k].sync
      ensures IsGroup(writers, n)
    {
      hide *;
      QueueParts();
      var first := writers[0];
      result := first.batch;
      var size := |first.batch.rep|;
      var maxSize := if size <= 0x2_0000 then size + 0x2_0000 else 0x10_0000;
      n := 1;
      GroupStep(writers, 0);
      GroupEmpty(writers);
      OneIsWithin(writers, maxSize);
      while n < |writers|
        invariant 1 <= n <= |writers| && size == SizeOf(writers[..n])
        invariant result.Valid() && result.ops == OpsOf(writers[..n])
        invariant result == tmpBatch || (result == first.batch && tmpBatch.Valid() && tmpBatch.ops == [])
        invariant !first.sync ==> forall k | 0 <= k < n :: !writers[k].sync
        invariant tmpBatch.Valid() && forall b | b in Batches(writers) :: b.Valid()
        invariant WithinLimit(writers, n, maxSize)
      {
        var w := writers[n];
        SizeIs(writers, n + 1);
        GroupStep(writers, n);
        if w.sync && !first.sync {
          EndsGroup(writers, n);
          break;
        }
        if w.batch != null {
          size := size + |w.batch.rep|;
          if size > maxSize {
            EndsGroup(writers, n);
            break;
          }
          OneMoreWithin(writers, n, maxSize);
          result := AddToGroup(result, n, maxSize);
        } else {
          OneMoreWithin(writers, n, maxSize);
        }
        n := n + 1;
      }
      if n == |writers| {
        EndsGroup(writers, n);
      }
    }

    /** Append to the result, which the first time becomes the temporary batch. */
    method AddToGroup(result0: WriteBatch, n: nat, ghost limit: nat) returns (result: WriteBatch)
      requires 1 <= n < |writers| && tmpBatch !in Batches(writers) && forall b | b in Batches(writers) :: b.Valid()
      requires writers[0].batch != null && writers[n].batch != null && SizeOf(writers[..n + 1]) < 0x1_0000_0000
      requires tmpBatch.Valid() && result0.Valid() && result0.ops == OpsOf(writers[..n])
      requires result0 == tmpBatch || (result0 == writers[0].batch && tmpBatch.ops == [])
      requires WithinLimit(writers, n + 1, limit)
      modifies tmpBatch
      ensures WithinLimit(writers, n + 1, limit)
      ensures result == tmpBatch && result.Valid() && result.ops == OpsOf(writers[..n + 1])
      ensures SizeOf(writers[..n + 1]) == old(SizeOf(writers[..n + 1]))
      ensures forall b | b in Batches(writers) :: b.Valid()
    {
      hide WriteBatch.Valid, OpsOf, SizeOf, WithinLimit;
      GroupStep(writers, 0);
      GroupStep(writers, n);
      FewOps(writers[..n + 1]);
      result := result0;
      if result == writers[0].batch {
        result := tmpBatch;
        result.Append(writers[0].batch);
      }
      result.Append(writers[n].batch);
    }

    /** Write, from being at the front of the queue to leaving it. The parameters say whether there is room, and whether
        appending to the log and syncing it succeed. `n` is the size of the group, `ops` what it wrote. */
    method Lead(roomOk: bool, logOk: bool, syncOk: bool) returns (ok: bool, ghost n: nat, ghost ops: seq<Op>)
      requires Valid() && writers != [] && lastSequence + U32 < U64
      modifies this, tmpBatch, writers, Batches(writers)
      ensures Valid() && 1 <= n <= |old(writers)| && writers == old(writers)[n..]
      ensures forall k | 0 < k < n :: old(writers)[k].done && old(writers)[k].ok == ok
      ensures forall k | n <= k < |old(writers)| :: !old(writers)[k].done
      ensures n > 1 ==> roomOk && old(writers)[0].batch != null
      ensures !old(writers)[0].sync ==> forall k | 0 <= k < n :: !old(writers)[k].sync
      ensures roomOk && old(writers)[0].batch != null ==> old(IsGroup(writers, n))
      ensures ops == if roomOk then old(OpsOf(writers[..n])) else []
      ensures ok == (roomOk && (old(writers)[0].batch != null ==> logOk && (old(writers)[0].sync ==> syncOk)))
      ensures lastSequence == old(lastSequence) + |ops|
      ensures ok ==> mem == old(mem) + Number(old(lastSequence) + 1, ops)
      ensures !ok ==> mem == old(mem)
      ensures log == if roomOk && logOk && old(writers)[0].batch != null
                     then old(log) + [Encode(old(lastSequence) + 1, ops)] else old(log)
      ensures clean == (old(clean) && (ok || !roomOk || !logOk || ops == [])) && (clean <==> mem == Replay(log))
      ensures published == old(published) + {lastSequence} && VisibleAt(mem, lastSequence) == mem
      ensures groups == if ok && old(writers)[0].batch != null then old(groups) + [Group(old(lastSequence) + 1, ops)]
                        else old(groups)
      ensures UnseenMeanwhile(old(mem), old(lastSequence) + 1, ops, old(published))
    {
      hide WriteBatch.Valid, VisibleAt, Encode, DecodeOps, Replay, OpsOf, SizeOf, Grouped, LogHolds, UnseenMeanwhile,
           IsGroup;
      ghost var ws := writers;
      var last;
      ok, last, ops := WriteGroup(roomOk, logOk, syncOk);
      n := last;
      RestOfBatches(ws, last);
      Answer(last, ok);
    }

    /** Write up to answering the group. */
    method WriteGroup(roomOk: bool, logOk: bool, syncOk: bool) returns (ok: bool, n: nat, ghost ops: seq<Op>)
      requires Valid() && writers != [] && lastSequence + U32 < U64
      modifies this`lastSequence, this`log, this`mem, this`clean, this`groups, this`published,
               tmpBatch, Batches(writers)
      ensures Valid() && 1 <= n <= |writers|
      ensures n > 1 ==> roomOk && writers[0].batch != null
      ensures !writers[0].sync ==> forall k | 0 <= k < n :: !writers[k].sync
      ensures roomOk && writers[0].batch != null ==> old(IsGroup(writers, n))
      ensures ops == if roomOk then old(OpsOf(writers[..n])) else []
      ensures ok == (roomOk && (writers[0].batch != null ==> logOk && (writers[0].sync ==> syncOk)))
      ensures lastSequence == old(lastSequence) + |ops|
      ensures ok ==> mem == old(mem) + Number(old(lastSequence) + 1, ops)
      ensures !ok ==> mem == old(mem)
      ensures log == if roomOk && logOk && writers[0].batch != null
                     then old(log) + [Encode(old(lastSequence) + 1, ops)] else old(log)
      ensures clean == (old(clean) && (ok || !roomOk || !logOk || ops == [])) && (clean <==> mem == Replay(log))
      ensures published == old(published) + {lastSequence} && VisibleAt(mem, lastSequence) == mem
      ensures groups == if ok && writers[0].batch != null then old(groups) + [Group(old(lastSequence) + 1, ops)]
                        else old(groups)
      ensures UnseenMeanwhile(old(mem), old(lastSequence) + 1, ops, old(published))
    {
      hide *;
      if roomOk && writers[0].batch != null {
        ok, n, ops := CommitGroup(logOk, syncOk);
      } else {
        QueueParts();
        GroupStep(writers, 0);
        GroupEmpty(writers);
        GroupedFacts(mem, groups, published, lastSequence);
        NotSeenMeanwhile(mem, lastSequence + 1, [], published);
        ops, n, ok := [], 1, roomOk;
        assert mem + Number(lastSequence + 1, []) == mem && published + {lastSequence} == published;
        assert [] + ops == ops;
      }
      QueueParts();
      GroupedFacts(mem, groups, published, lastSequence);
      CleanIff(clean, mem, log);
    }

    /** BuildBatchGroup, then the commit of what it built. */
    method CommitGroup(logOk: bool, syncOk: bool) returns (ok: bool, n: nat, ghost ops: seq<Op>)
      requires Valid() && writers != [] && writers[0].batch != null && lastSequence + U32 < U64
      modifies this`lastSequence, this`log, this`mem, this`clean, this`groups, this`published,
               tmpBatch, Batches(writers)
      ensures Valid() && 1 <= n <= |writers| && ops == old(OpsOf(writers[..n])) && old(IsGroup(writers, n))
      ensures !writers[0].sync ==> forall k | 0 <= k < n :: !writers[k].sync
      ensures ok == (logOk && (writers[0].sync ==> syncOk)) && lastSequence == old(lastSequence) + |ops|
      ensures mem == if ok then old(mem) + Number(old(lastSequence) + 1, ops) else old(mem)
      ensures log == if logOk then old(log) + [Encode(old(lastSequence) + 1, ops)] else old(log)
      ensures clean == (old(clean) && (ok || !logOk || ops == [])) && published == old(published) + {lastSequence}
      ensures groups == if ok then old(groups) + [Group(old(lastSequence) + 1, ops)] else old(groups)
      ensures UnseenMeanwhile(old(mem), old(lastSequence) + 1, ops, old(published))
    {
      hide WriteBatch.Valid, VisibleAt, Encode, DecodeOps, Replay, OpsOf, SizeOf, Grouped, LogHolds, UnseenMeanwhile,
           Distinct, Number, IsGroup;
      GroupStep(writers, 0);
      var sync := writers[0].sync;
      var batch;
      batch, n := BuildBatchGroup();
      GroupStep(writers, n - 1);
      ops := batch.ops;
      assert ops == old(OpsOf(writers[..n]));
      ok := Commit(batch, sync, logOk, syncOk);
      if batch == tmpBatch {
        tmpBatch.Clear();
      }
    }

    /** Log, sync and insert; readers at the sequence numbers published so far see nothing of it in between. */
    method Commit(batch: WriteBatch, sync: bool, logOk: bool, syncOk: bool) returns (ok: bool)
      requires batch.Valid() && lastSequence + U32 < U64
      requires Grouped(mem, groups, published, lastSequence) && LogHolds(clean, mem, log)
      modifies this`lastSequence, this`log, this`mem, this`clean, this`groups, this`published, batch
      ensures batch.Valid() && batch.ops == old(batch.ops)
      ensures ok == (logOk && (sync ==> syncOk)) && lastSequence == old(lastSequence) + |batch.ops|
      ensures mem == if ok then old(mem) + Number(old(lastSequence) + 1, batch.ops) else old(mem)
      ensures log == if logOk then old(log) + [Encode(old(lastSequence) + 1, batch.ops)] else old(log)
      ensures Grouped(mem, groups, published, lastSequence) && published == old(published) + {lastSequence}
      ensures groups == if ok then old(groups) + [Group(old(lastSequence) + 1, batch.ops)] else old(groups)
      ensures LogHolds(clean, mem, log) && clean == (old(clean) && (ok || !logOk || batch.ops == []))
      ensures UnseenMeanwhile(old(mem), old(lastSequence) + 1, batch.ops, old(published))
    {
      hide WriteBatch.Valid, VisibleAt, Encode, DecodeOps, Replay, Grouped, LogHolds;
      GroupedFacts(mem, groups, published, lastSequence);
      batch.SetSequence(lastSequence + 1);
      BatchRep(batch);
      var count := batch.Count();
      ok := logOk;
      if logOk {
        log := log + [batch.rep];
      }
      if ok && sync {
        ok := syncOk;
      }
      if ok {
        ghost var between := InsertInto(batch);
        GroupCommitted(old(mem), groups, published, lastSequence, batch.ops);
        groups := groups + [Group(lastSequence + 1, batch.ops)];
      } else {
        GroupFailed(mem, groups, published, lastSequence, lastSequence + count);
      }
      if logOk {
        LogGrows(clean, old(mem), old(log), lastSequence + 1, batch.ops, ok);
        clean := clean && (ok || batch.ops == []);
      }
      NotSeenMeanwhile(old(mem), old(lastSequence) + 1, batch.ops, old(published));
      lastSequence := lastSequence + count;
      published := published + {lastSequence};
    }

    /** InsertInto, one operation after the other. `between` lists the memtables that concurrent readers may meet. */
    method InsertInto(batch: WriteBatch) returns (ghost between: seq<seq<Stamped>>)
      requires batch.Valid() && batch.sequence == lastSequence + 1
      modifies this`mem
      ensures mem == old(mem) + Number(lastSequence + 1, batch.ops)
      ensures |between| == |batch.ops| + 1 && between[0] == old(mem) && between[|batch.ops|] == mem
      ensures forall k | 0 <= k <= |batch.ops| :: between[k] == old(mem) + Number(lastSequence + 1, batch.ops)[..k]
      ensures forall k: nat, p: nat | k <= |batch.ops| && p <= lastSequence ::
                VisibleAt(between[k], p) == VisibleAt(old(mem), p)
    {
      hide WriteBatch.Valid, VisibleAt, Encode, DecodeOps;
      var sequence := batch.Sequence();
      var handled, _ := batch.Iterate();
      ghost var all := Number(sequence, handled);
      assert old(mem) + all[..0] == old(mem);
      between := [mem];
      for k := 0 to |handled|
        invariant mem == old(mem) + all[..k] && |between| == k + 1 && between[k] == mem
        invariant forall i | 0 <= i <= k :: between[i] == old(mem) + all[..i]
      {
        assert all[..k + 1] == all[..k] + [Stamped(sequence + k, handled[k])];
        mem := mem + [Stamped(sequence + k, handled[k])];
        between := between + [mem];
      }
      assert all[..|handled|] == all;
      forall k: nat, p: nat | k <= |batch.ops| && p <= lastSequence
        ensures VisibleAt(between[k], p) == VisibleAt(old(mem), p)
      {
        BetweenInserts(old(mem), lastSequence + 1, batch.ops, k, p);
      }
    }

    /** Pop the group off the queue and tell every other member of it the status. */
    method Answer(n: nat, status: bool)
      requires 1 <= n <= |writers| && Distinct(writers) && forall w | w in writers :: !w.done
      modifies this`writers, writers
      ensures writers == old(writers)[n..]
      ensures forall k | 0 < k < n :: old(writers)[k].done && old(writers)[k].ok == status
      ensures forall k | n <= k < |old(writers)| :: !old(writers)[k].done
    {
      ghost var ws := writers;
      var me := writers[0];
      var k := 0;
      while k < n
        invariant 0 <= k <= n && writers == ws[k..]
        invariant forall j | 0 < j < k :: ws[j].done && ws[j].ok == status
        invariant forall j | k <= j < |ws| :: !ws[j].done
      {
        var ready := writers[0];
        assert ready == ws[k];
        writers := writers[1..];
        if ready != me {
          ready.ok, ready.done := status, true;
        }
        k := k + 1;
      }
    }
  }

  lemma BatchRep(b: WriteBatch)
    requires b.Valid()
    ensures b.rep == Encode(b.sequence, b.ops) && AllStorable(b.ops) && |b.ops| < U32
  {
  }

  lemma RestOfBatches(ws: seq<Writer>, n: nat)
    requires n <= |ws|
    ensures Batches(ws[n..]) <= Batches(ws)
    ensures Distinct(ws) ==> Distinct(ws[n..])
    ensures forall k | n <= k < |ws| :: ws[k] == ws[n..][k - n]
    ensures forall w | w in ws[n..] :: w in ws
  {
  }

  lemma SizeIs(ws: seq<Writer>, n: nat)
    requires n <= |ws|
    ensures SizeUpTo(ws, n) == SizeOf(ws[..n])
  {
  }

  lemma OneIsWithin(ws: seq<Writer>, limit: nat)
    requires ws != []
    ensures WithinLimit(ws, 1, limit)
  {
  }

  lemma OneMoreWithin(ws: seq<Writer>, n: nat, limit: nat)
    requires n < |ws| && WithinLimit(ws, n, limit) && (ws[n].batch != null ==> SizeUpTo(ws, n + 1) <= limit)
    ensures WithinLimit(ws, n + 1, limit)
  {
    hide SizeUpTo;
  }

  lemma EndsGroup(ws: seq<Writer>, n: nat)
    requires 1 <= n <= |ws| && ws[0].batch != null
    requires var limit := if |ws[0].batch.rep| <= 0x2_0000 then |ws[0].batch.rep| + 0x2_0000 else 0x10_0000;
             && WithinLimit(ws, n, limit)
             && (n < |ws| ==> (ws[n].sync && !ws[0].sync) || (ws[n].batch != null && SizeUpTo(ws, n + 1) > limit))
    ensures IsGroup(ws, n)
  {
  }

  lemma GroupEmpty(ws: seq<Writer>)
    ensures OpsOf(ws[..0]) == [] && SizeOf(ws[..0]) == 0
  {
  }

  /** One more writer in the group. */
  lemma GroupStep(ws: seq<Writer>, n: nat)
    requires n < |ws|
    ensures Batches(ws[..n]) <= Batches(ws) && Batches(ws[..n + 1]) <= Batches(ws)
    ensures ws[n].batch != null ==> ws[n].batch in Batches(ws)
    ensures OpsOf(ws[..n + 1]) == OpsOf(ws[..n]) + if ws[n].batch == null then [] else ws[n].batch.ops
    ensures SizeOf(ws[..n + 1]) == SizeOf(ws[..n]) + if ws[n].batch == null then 0 else |ws[n].batch.rep|
  {
    assert ws[..n + 1][..n] == ws[..n];
  }

  lemma {:induction false} FewOps(ws: seq<Writer>)
    requires forall b | b in Batches(ws) :: b.Valid()
    ensures |OpsOf(ws)| <= SizeOf(ws)
    decreases |ws|
  {
    if ws != [] {
      var last := ws[|ws| - 1];
      assert Batches(ws[..|ws| - 1]) <= Batches(ws);
      FewOps(ws[..|ws| - 1]);
      if last.batch != null {
        assert last.batch in Batches(ws);
        BytesPerOp(last.batch.ops);
      }
    }
  }
}
