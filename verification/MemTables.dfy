/** The memtable (memtable.cc): versioned entries in a skip list. Reading it answers with the newest version in it. */
module MemTables {
  import opened Wrappers
  import opened InternalKeys
  import opened MultiVersion
  import opened SkipLists
  import Tables

  ghost function EntriesOf(nodes: seq<Node>): (es: seq<Entry>)
    ensures |es| == |nodes| && forall k | 0 <= k < |nodes| :: es[k] == nodes[k].entry
  {
    seq(|nodes|, k requires 0 <= k < |nodes| => nodes[k].entry)
  }

  lemma EntriesSorted(nodes: seq<Node>)
    requires SortedNodes(nodes)
    ensures Tables.Sorted(EntriesOf(nodes))
  {
  }

  /** A seek in the skip list and a seek in the sorted run of its entries stop at the same place. */
  lemma {:induction false} CountIsSeekIndex(nodes: seq<Node>, key: InternalKey)
    ensures Tables.SeekIndex(EntriesOf(nodes), key) == CountBefore(nodes, key)
  {
    if nodes != [] {
      assert EntriesOf(nodes)[1..] == EntriesOf(nodes[1..]);
      CountIsSeekIndex(nodes[1..], key);
    }
  }

  lemma InsertedContents(nodes: seq<Node>, x: Node)
    ensures Tables.Contents(EntriesOf(Inserted(nodes, x))) == Tables.Contents(EntriesOf(nodes)) + {x.entry}
  {
    var c, r := CountBefore(nodes, x.entry.key), Inserted(nodes, x);
    var es, es' := EntriesOf(nodes), EntriesOf(r);
    assert es' == es[..c] + [x.entry] + es[c..];
    assert es == es[..c] + es[c..];
  }

  class MemTable {
    const table: SkipList

    ghost predicate Valid()
      reads this, table, table.head, table.repr
    {
      table.Valid()
    }

    ghost function Contents(): set<Entry>
      reads this, table
      requires |table.levels| > 0
    {
      Tables.Contents(EntriesOf(table.levels[0]))
    }

    constructor ()
      ensures Valid() && Contents() == {}
    {
      table := new SkipList();
    }

    /** MemTable::Add of a version that is not there yet. */
    method Add(sequence: nat, kind: ValueType, user: UserKey, value: Bytes, height: nat)
      requires Valid() && 1 <= height <= MAX_HEIGHT
      requires forall e | e in Contents() :: e.key != InternalKey(user, sequence, kind)
      modifies table, table.head`next, table.repr`next
      ensures Valid() && Contents() == old(Contents()) + {Entry(InternalKey(user, sequence, kind), value)}
    {
      var entry := Entry(InternalKey(user, sequence, kind), value);
      assert NoKey(table.levels[0], entry.key) by {
        forall n | n in table.levels[0]
          ensures n.entry.key != entry.key
        {
          var k :| 0 <= k < |table.levels[0]| && table.levels[0][k] == n;
          assert EntriesOf(table.levels[0])[k] in Contents();
        }
      }
      ghost var nodes := table.levels[0];
      var x := Insert(table, entry, height);
      InsertedContents(nodes, x);
    }

    /** MemTable::Get: the entry found for the user key at the snapshot, if any. */
    method Get(user: UserKey, snapshot: nat) returns (found: Option<Entry>)
      requires Valid() && OnePerSequence(Contents())
      ensures found == Newest(Contents(), user, snapshot)
    {
      var key := SeekKey(user, snapshot);
      var node := table.FindGreaterOrEqual(key, null);
      ghost var nodes := table.levels[0];
      assert LevelOk(table.head, nodes, 0);
      EntriesSorted(nodes);
      CountIsSeekIndex(nodes, key);
      Tables.ProbeIsNewest(EntriesOf(nodes), user, snapshot);
      found := if node != null && node.entry.key.user == user then Some(node.entry) else None;
    }
  }
}
