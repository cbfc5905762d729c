/** Sorted runs of entries: a memtable, or a table file. Both answer one question, "the first
    entry at or after this internal key" (skiplist.h, table.cc), and a lookup is one such seek. */
module Tables {
  import opened Wrappers
  import opened InternalKeys
  import opened MultiVersion

  ghost predicate Sorted(es: seq<Entry>) {
    forall i, j | 0 <= i < j < |es| :: Before(es[i].key, es[j].key)
  }

  ghost function Contents(es: seq<Entry>): set<Entry> {
    set e | e in es
  }

  function SeekIndex(es: seq<Entry>, target: InternalKey): (r: nat)
    ensures r <= |es|
    ensures forall i | 0 <= i < r :: Before(es[i].key, target)
    ensures r < |es| ==> !Before(es[r].key, target)
  {
    if es == [] || !Before(es[0].key, target) then 0 else 1 + SeekIndex(es[1..], target)
  }

  /** MemTable::Get, and TableCache::Get with SaveValue: seek, then check the user key. */
  function Probe(es: seq<Entry>, u: UserKey, s: nat): Option<Entry> {
    var i := SeekIndex(es, SeekKey(u, s));
    if i < |es| && es[i].key.user == u then Some(es[i]) else None
  }

  /** A seek in a sorted run finds the newest version in it. */
  lemma ProbeIsNewest(es: seq<Entry>, u: UserKey, s: nat)
    requires Sorted(es)
    requires OnePerSequence(Contents(es))
    ensures Probe(es, u, s) == Newest(Contents(es), u, s)
  {
    var i := SeekIndex(es, SeekKey(u, s));
    var S := Contents(es);
    forall e | e in S && Matches(e, u, s)
      ensures i < |es| && es[i].key.user == u && e.key.sequence <= es[i].key.sequence
    {
      var k :| 0 <= k < |es| && es[k] == e;
      assert i <= k;
      if i < k {
        assert Before(es[i].key, es[k].key);
      }
    }
    if i < |es| && es[i].key.user == u {
      assert Matches(es[i], u, s);
      NewestIs(S, u, s, es[i]);
    }
  }

  /** FileMetaData together with the contents of the table it names. */
  datatype File = File(number: nat, size: nat, smallest: InternalKey, largest: InternalKey, entries: seq<Entry>) {
    ghost predicate Valid() {
      && |entries| > 0
      && Sorted(entries)
      && smallest == entries[0].key
      && largest == entries[|entries| - 1].key
      && largest.sequence <= MAX_SEQUENCE
    }
  }

  /** The bounds of a file enclose its entries and are attained. */
  lemma FileBounds(f: File, e: Entry)
    requires f.Valid() && e in f.entries
    ensures AtMost(f.smallest, e.key) && AtMost(e.key, f.largest)
    ensures f.smallest.user <= e.key.user <= f.largest.user
  {
    var k :| 0 <= k < |f.entries| && f.entries[k] == e;
    if 0 < k {
      assert Before(f.entries[0].key, f.entries[k].key);
    }
    if k < |f.entries| - 1 {
      assert Before(f.entries[k].key, f.entries[|f.entries| - 1].key);
    }
  }

  ghost predicate ValidFiles(fs: seq<File>) {
    forall i | 0 <= i < |fs| :: fs[i].Valid()
  }

  /** The files of a level other than 0: sorted and pairwise disjoint as ranges of internal keys. */
  ghost predicate Disjoint(fs: seq<File>) {
    forall i, j | 0 <= i < j < |fs| :: Before(fs[i].largest, fs[j].smallest)
  }

  ghost function EntriesOf(fs: seq<File>): set<Entry> {
    set f, e | f in fs && e in f.entries :: e
  }

  lemma EntriesOfConcat(a: seq<File>, b: seq<File>)
    ensures EntriesOf(a + b) == EntriesOf(a) + EntriesOf(b)
  {
    assert forall f | f in a + b :: f in a || f in b;
    assert forall f | f in a || f in b :: f in a + b;
  }

  lemma EntriesOfSuffix(fs: seq<File>, i: nat)
    requires i < |fs|
    ensures EntriesOf(fs[i..]) == Contents(fs[i].entries) + EntriesOf(fs[i + 1..])
  {
    assert fs[i..] == [fs[i]] + fs[i + 1..];
    EntriesOfConcat([fs[i]], fs[i + 1..]);
  }

  lemma EntriesOfMono(a: seq<File>, b: seq<File>)
    requires forall f | f in a :: f in b
    ensures EntriesOf(a) <= EntriesOf(b)
  {
  }

  /** Binary search for the first file whose largest key is not before the target. */
  method FindFile(files: seq<File>, target: InternalKey) returns (right: nat)
    requires ValidFiles(files) && Disjoint(files)
    ensures right <= |files|
    ensures forall i | 0 <= i < right :: Before(files[i].largest, target)
    ensures forall i | right <= i < |files| :: !Before(files[i].largest, target)
  {
    DisjointLargest(files);
    var left := 0;
    right := |files|;
    while left < right
      invariant 0 <= left <= right <= |files|
      invariant forall i | 0 <= i < left :: Before(files[i].largest, target)
      invariant forall i | right <= i < |files| :: !Before(files[i].largest, target)
    {
      var mid := (left + right) / 2;
      if Compare(files[mid].largest, target) < 0 {
        ComparePackedIsBefore(files[mid].largest, target);
        left := mid + 1;
      } else {
        ComparePackedIsBefore(files[mid].largest, target);
        right := mid;
      }
    }
  }

  lemma SmallestAtMostLargest(f: File)
    requires f.Valid()
    ensures AtMost(f.smallest, f.largest)
  {
    FileBounds(f, f.entries[0]);
  }

  lemma DisjointLargest(files: seq<File>)
    requires ValidFiles(files) && Disjoint(files)
    ensures forall i, j | 0 <= i < j < |files| :: Before(files[i].largest, files[j].largest)
  {
    forall i, j | 0 <= i < j < |files|
      ensures Before(files[i].largest, files[j].largest)
    {
      SmallestAtMostLargest(files[j]);
      assert Before(files[i].largest, files[j].smallest);
    }
  }
}
