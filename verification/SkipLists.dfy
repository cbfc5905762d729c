/** The skip list under the memtable (skiplist.h). Every insertion is a sequence of single pointer stores; the list is
    proved well formed after each of them, and a search whose steps run in between them finds the right node. */
module SkipLists {
  import opened InternalKeys
  import opened MultiVersion

  const MAX_HEIGHT: nat := 12

  class Node {
    const entry: Entry
    var next: seq<Node?>

    constructor (entry: Entry, height: nat)
      ensures this.entry == entry && next == seq(height, _ => null)
    {
      this.entry, next := entry, seq(height, _ => null);
    }
  }

  function At(nodes: seq<Node>, k: int): Node? {
    if 0 <= k < |nodes| then nodes[k] else null
  }

  /** The node before position k, where the head stands at position -1. */
  function Owner(head: Node, nodes: seq<Node>, k: int): Node
    requires -1 <= k < |nodes|
  {
    if k == -1 then head else nodes[k]
  }

  /** The pointer of the node at position k of level i. */
  ghost predicate LinkAt(head: Node, nodes: seq<Node>, i: nat, k: int)
    requires -1 <= k < |nodes|
    reads Owner(head, nodes, k)
  {
    var n := Owner(head, nodes, k);
    i < |n.next| && n.next[i] == At(nodes, k + 1)
  }

  ghost predicate SortedNodes(nodes: seq<Node>) {
    forall j, k | 0 <= j < k < |nodes| :: Before(nodes[j].entry.key, nodes[k].entry.key)
  }

  /** Level i links exactly these nodes, in ascending order. */
  ghost predicate LevelOk(head: Node, nodes: seq<Node>, i: nat)
    reads head, nodes
  {
    && head !in nodes && SortedNodes(nodes)
    && forall k | -1 <= k < |nodes| :: LinkAt(head, nodes, i, k)
  }

  /** The level above links some of the nodes of the level below. */
  ghost predicate Within(upper: seq<Node>, lower: seq<Node>) {
    forall n | n in upper :: n in lower
  }

  /** How many nodes come before a key. */
  ghost function CountBefore(nodes: seq<Node>, key: InternalKey): (c: nat)
    ensures c <= |nodes|
  {
    if nodes == [] || !Before(nodes[0].entry.key, key) then 0 else 1 + CountBefore(nodes[1..], key)
  }

  lemma {:induction false} CountBeforeSplits(nodes: seq<Node>, key: InternalKey)
    requires SortedNodes(nodes)
    ensures var c := CountBefore(nodes, key);
            && (forall k | 0 <= k < c :: Before(nodes[k].entry.key, key))
            && forall k | c <= k < |nodes| :: !Before(nodes[k].entry.key, key)
  {
    if nodes != [] && Before(nodes[0].entry.key, key) {
      CountBeforeSplits(nodes[1..], key);
      assert forall k | 1 <= k < |nodes| :: nodes[k] == nodes[1..][k - 1];
    }
  }

  /** FindGreaterOrEqual on the list of a level: the first node not before the key. */
  ghost function FirstAtLeast(nodes: seq<Node>, key: InternalKey): Node? {
    At(nodes, CountBefore(nodes, key))
  }

  /** FindLessThan on the list of a level: the last node before the key, or the head. */
  ghost function LastBefore(head: Node, nodes: seq<Node>, key: InternalKey): Node {
    Owner(head, nodes, CountBefore(nodes, key) - 1)
  }

  class SkipList {
    const head: Node
    var maxHeight: nat
    ghost var levels: seq<seq<Node>>
    ghost var repr: set<Node>

    ghost predicate Valid()
      reads this, head, repr
    {
      && |levels| == MAX_HEIGHT && 1 <= maxHeight <= MAX_HEIGHT && head !in repr
      && |head.next| == MAX_HEIGHT
      && (forall i | 0 <= i < MAX_HEIGHT :: forall n | n in levels[i] :: n in repr)
      && (forall i | 0 <= i < MAX_HEIGHT :: LevelOk(head, levels[i], i))
      && (forall i | 0 < i < MAX_HEIGHT :: Within(levels[i], levels[i - 1]))
      && (forall i | maxHeight <= i < MAX_HEIGHT :: levels[i] == [])
    }

    constructor ()
      ensures Valid() && forall i | 0 <= i < MAX_HEIGHT :: levels[i] == []
    {
      head := new Node(Entry(InternalKey(0.0, 0, Deletion), []), MAX_HEIGHT);
      maxHeight, levels, repr := 1, seq(MAX_HEIGHT, _ => []), {};
    }

    /** A search for the key may stand at node x of a level. */
    ghost predicate SearchOk(x: Node, level: nat, key: InternalKey)
      reads this
      requires |levels| == MAX_HEIGHT
    {
      level < MAX_HEIGHT && (x == head || (x in levels[level] && Before(x.entry.key, key)))
    }

    /** The place of a search in the list of its level. */
    lemma SearchPlace(x: Node, level: nat, key: InternalKey) returns (k: int)
      requires Valid() && SearchOk(x, level, key)
      ensures -1 <= k < CountBefore(levels[level], key) && x == Owner(head, levels[level], k)
    {
      var nodes := levels[level];
      assert LevelOk(head, nodes, level);
      CountBeforeSplits(nodes, key);
      if x == head {
        k := -1;
      } else {
        k :| 0 <= k < |nodes| && nodes[k] == x;
      }
    }

    /** What a search finds at its place. */
    lemma SearchStep(x: Node, level: nat, key: InternalKey, k: int)
      requires Valid() && SearchOk(x, level, key)
      requires -1 <= k < CountBefore(levels[level], key) && x == Owner(head, levels[level], k)
      ensures level < |x.next| && x.next[level] == At(levels[level], k + 1)
      ensures var next := x.next[level];
              if next != null && Before(next.entry.key, key) then
                && SearchOk(next, level, key) && next == Owner(head, levels[level], k + 1)
                && k + 1 < CountBefore(levels[level], key)
              else
                && CountBefore(levels[level], key) == k + 1 && x == LastBefore(head, levels[level], key)
                && next == FirstAtLeast(levels[level], key)
                && (level > 0 ==> SearchOk(x, level - 1, key))
    {
      var nodes := levels[level];
      assert LevelOk(head, nodes, level);
      CountBeforeSplits(nodes, key);
      assert LinkAt(head, nodes, level, k);
      if level > 0 {
        assert Within(levels[level], levels[level - 1]);
      }
    }

    /** prev[level] for every level the list has; levels above are left alone. */
    method FindGreaterOrEqual(key: InternalKey, prev: array?<Node?>) returns (node: Node?)
      requires Valid() && (prev != null ==> prev.Length == MAX_HEIGHT)
      modifies prev
      ensures node == FirstAtLeast(levels[0], key)
      ensures prev != null ==>
                && (forall l | 0 <= l < maxHeight :: prev[l] == LastBefore(head, levels[l], key))
                && forall l | maxHeight <= l < MAX_HEIGHT :: prev[l] == old(prev[l])
    {
      hide LevelOk, CountBefore, Before;
      var x: Node, level: nat := head, maxHeight - 1;
      ghost var k := SearchPlace(x, level, key);
      while true
        invariant level < maxHeight && SearchOk(x, level, key)
        invariant -1 <= k < CountBefore(levels[level], key) && x == Owner(head, levels[level], k)
        invariant prev != null ==>
                    && (forall l | level < l < maxHeight :: prev[l] == LastBefore(head, levels[l], key))
                    && forall l | maxHeight <= l < MAX_HEIGHT :: prev[l] == old(prev[l])
        decreases level, CountBefore(levels[level], key) - k
      {
        SearchStep(x, level, key, k);
        var next := x.next[level];
        if next != null && Before(next.entry.key, key) {
          x, k := next, k + 1;
        } else {
          if prev != null {
            prev[level] := x;
          }
          if level == 0 {
            return next;
          }
          level := level - 1;
          k := SearchPlace(x, level, key);
        }
      }
    }

    method FindLessThan(key: InternalKey) returns (node: Node)
      requires Valid()
      ensures node == LastBefore(head, levels[0], key)
    {
      hide LevelOk, CountBefore, Before;
      var x: Node, level: nat := head, maxHeight - 1;
      ghost var k := SearchPlace(x, level, key);
      while true
        invariant level < maxHeight && SearchOk(x, level, key)
        invariant -1 <= k < CountBefore(levels[level], key) && x == Owner(head, levels[level], k)
        decreases level, CountBefore(levels[level], key) - k
      {
        SearchStep(x, level, key, k);
        var next := x.next[level];
        if next == null || !Before(next.entry.key, key) {
          if level == 0 {
            return x;
          }
          level := level - 1;
          k := SearchPlace(x, level, key);
        } else {
          x, k := next, k + 1;
        }
      }
    }

    method FindLast() returns (node: Node)
      requires Valid()
      ensures node == Owner(head, levels[0], |levels[0]| - 1)
    {
      var x: Node, level: nat := head, maxHeight - 1;
      ghost var k := -1;
      while true
        invariant level < maxHeight && -1 <= k < |levels[level]| && x == Owner(head, levels[level], k)
        decreases level, |levels[level]| - k
      {
        assert LevelOk(head, levels[level], level);
        assert LinkAt(head, levels[level], level, k);
        var next := x.next[level];
        if next == null {
          if level == 0 {
            return x;
          }
          assert x == head || x in levels[level];
          assert Within(levels[level], levels[level - 1]);
          level := level - 1;
          if x == head {
            k := -1;
          } else {
            k :| 0 <= k < |levels[level]| && levels[level][k] == x;
          }
        } else {
          x, k := next, k + 1;
        }
      }
    }

    method Contains(key: InternalKey) returns (found: bool)
      requires Valid()
      ensures found <==> exists n :: n in levels[0] && n.entry.key == key
    {
      var x := FindGreaterOrEqual(key, null);
      CountBeforeSplits(levels[0], key);
      found := x != null && x.entry.key == key;
    }

    // ----- the two stores of an insertion at one level -----

    /** x->NoBarrier_SetNext(i, prev->NoBarrier_Next(i)): nobody can reach this pointer yet. */
    method StoreOwn(x: Node, i: nat, prev: Node)
      requires Valid() && i < MAX_HEIGHT && x != head && i < |x.next| && i < |prev.next|
      requires forall l | i <= l < MAX_HEIGHT :: x !in levels[l]
      modifies x`next
      ensures Valid() && |x.next| == |old(x.next)| && x.next[i] == prev.next[i] == old(prev.next[i])
      ensures forall l | 0 <= l < |x.next| && l != i :: x.next[l] == old(x.next[l])
    {
      x.next := x.next[i := prev.next[i]];
      forall l | 0 <= l < MAX_HEIGHT
        ensures LevelOk(head, levels[l], l)
      {
        assert old(LevelOk(head, levels[l], l));
        forall k | -1 <= k < |levels[l]|
          ensures LinkAt(head, levels[l], l, k)
        {
          assert old(LinkAt(head, levels[l], l, k));
        }
      }
    }

    /** prev->SetNext(i, x): from here on x is in level i. */
    method StorePrev(x: Node, i: nat, prev: Node)
      requires Valid() && i < maxHeight && x != head && i < |x.next|
      requires x !in levels[i] && (i > 0 ==> x in levels[i - 1])
      requires (forall n | n in levels[i] :: n.entry.key != x.entry.key)
      requires prev == LastBefore(head, levels[i], x.entry.key) && x.next[i] == FirstAtLeast(levels[i], x.entry.key)
      modifies this`levels, this`repr, prev`next
      ensures Valid() && repr == old(repr) + {x} && |prev.next| == |old(prev.next)|
      ensures levels == old(levels)[i := Inserted(old(levels)[i], x)]
      ensures forall l | 0 <= l < |prev.next| && l != i :: prev.next[l] == old(prev.next[l])
    {
      hide SortedNodes, CountBefore, Before;
      ghost var nodes := levels[i];
      ghost var c: int := CountBefore(nodes, x.entry.key);
      SortedDistinct(nodes);
      ghost var nodes' := Inserted(nodes, x);
      assert LevelOk(head, nodes, i);
      assert LinkAt(head, nodes, i, c - 1);
      InsertedSorted(nodes, x);
      prev.next := prev.next[i := x];
      levels, repr := levels[i := nodes'], repr + {x};
      forall l | 0 <= l < MAX_HEIGHT && l != i
        ensures LevelOk(head, levels[l], l)
      {
        assert old(LevelOk(head, levels[l], l));
        forall k | -1 <= k < |levels[l]|
          ensures LinkAt(head, levels[l], l, k)
        {
          assert old(LinkAt(head, levels[l], l, k));
        }
      }
      forall k | -1 <= k < |nodes'|
        ensures LinkAt(head, nodes', i, k)
      {
        if k < c {
          assert old(LinkAt(head, nodes, i, k));
        } else if k > c {
          assert old(LinkAt(head, nodes, i, k - 1));
        }
      }
    }
  }

  lemma SortedDistinct(nodes: seq<Node>)
    requires SortedNodes(nodes)
    ensures forall j, k | 0 <= j < k < |nodes| :: nodes[j] != nodes[k]
  {
    forall j, k | 0 <= j < k < |nodes|
      ensures nodes[j] != nodes[k]
    {
      assert Before(nodes[j].entry.key, nodes[k].entry.key);
    }
  }

  /** The list with the node linked in at its place. */
  ghost function Inserted(nodes: seq<Node>, x: Node): (r: seq<Node>)
    ensures |r| == |nodes| + 1
  {
    var c := CountBefore(nodes, x.entry.key);
    nodes[..c] + [x] + nodes[c..]
  }

  lemma InsertedSorted(nodes: seq<Node>, x: Node)
    requires SortedNodes(nodes) && forall n | n in nodes :: n.entry.key != x.entry.key
    ensures SortedNodes(Inserted(nodes, x))
    ensures (forall n | n in Inserted(nodes, x) :: n == x || n in nodes)
         && (forall n | n in nodes :: n in Inserted(nodes, x))
    ensures x in Inserted(nodes, x)
  {
    var c, r := CountBefore(nodes, x.entry.key), Inserted(nodes, x);
    CountBeforeSplits(nodes, x.entry.key);
    assert r[c] == x;
    forall n | n in nodes
      ensures n in r
    {
      var k :| 0 <= k < |nodes| && nodes[k] == n;
      assert r[if k < c then k else k + 1] == n;
    }
    forall j, k | 0 <= j < k < |r|
      ensures Before(r[j].entry.key, r[k].entry.key)
    {
      var j', k' := if j < c then j else j - 1, if k < c then k else k - 1;
      if j == c {
        assert nodes[k'] in nodes;
        assert !Before(nodes[k'].entry.key, x.entry.key);
      } else if k == c {
        assert Before(nodes[j].entry.key, x.entry.key);
      } else {
        assert Before(nodes[j'].entry.key, nodes[k'].entry.key);
      }
    }
  }

  // ----- an insertion, store by store -----

  ghost predicate NoKey(nodes: seq<Node>, key: InternalKey) {
    forall n | n in nodes :: n.entry.key != key
  }

  /** Insert between its stores: levels below i are done; `stored` says that x's own pointer at level i is set. */
  class Insertion {
    const list: SkipList
    const x: Node
    const height: nat
    const prev: array<Node?>
    var i: nat
    var stored: bool

    ghost predicate Valid()
      reads this, list, list.head, list.repr, x, prev
    {
      && list.Valid() && x != list.head && |x.next| == height && 1 <= height <= list.maxHeight
      && prev.Length == MAX_HEIGHT && i <= height
      && (forall l | 0 <= l < i :: x in list.levels[l])
      && (forall l | i <= l < MAX_HEIGHT :: x !in list.levels[l])
      && (forall l | i <= l < height ::
            NoKey(list.levels[l], x.entry.key) && prev[l] == LastBefore(list.head, list.levels[l], x.entry.key))
      && (stored ==> i < height && x.next[i] == FirstAtLeast(list.levels[i], x.entry.key))
    }

    /** Insert up to the loop of stores; the height is the random one. */
    constructor (list: SkipList, entry: Entry, height: nat)
      requires list.Valid() && NoKey(list.levels[0], entry.key) && 1 <= height <= MAX_HEIGHT
      modifies list`maxHeight
      ensures this.list == list && this.height == height && x.entry == entry && i == 0 && !stored
      ensures Valid() && fresh(x) && fresh(prev)
      ensures list.maxHeight == if height > old(list.maxHeight) then height else old(list.maxHeight)
    {
      hide LevelOk, Before, SortedNodes, CountBefore, LastBefore;
      this.list, this.height, i, stored := list, height, 0, false;
      var found := new Node?[MAX_HEIGHT];
      prev := found;
      x := new Node(entry, height);
      new;
      var _ := list.FindGreaterOrEqual(entry.key, prev);
      NoKeyAbove(list, entry.key);
      RaiseHeight(list, prev, entry.key, height);
    }

    /** The next pointer store. */
    method Step()
      requires Valid() && i < height
      modifies this`i, this`stored, list`levels, list`repr, {list.head, x}`next, list.repr`next
      ensures Valid() && list.repr <= old(list.repr) + {x}
      ensures if old(stored) then i == old(i) + 1 && !stored else i == old(i) && stored
      ensures list.levels ==
                if old(stored) then old(list.levels)[old(i) := Inserted(old(list.levels)[old(i)], x)]
                else old(list.levels)
    {
      var p := prev[i];
      PredecessorLinks(list, i, x.entry.key);
      if !stored {
        list.StoreOwn(x, i, p);
        stored := true;
      } else {
        list.StorePrev(x, i, p);
        i, stored := i + 1, false;
      }
    }
  }

  /** Insert, when the new height is above the list's: the head precedes everything on the new levels. */
  method RaiseHeight(list: SkipList, prev: array<Node?>, key: InternalKey, height: nat)
    requires list.Valid() && prev.Length == MAX_HEIGHT && height <= MAX_HEIGHT
    requires forall l | 0 <= l < list.maxHeight :: prev[l] == LastBefore(list.head, list.levels[l], key)
    modifies list`maxHeight, prev
    ensures list.Valid() && list.maxHeight == if height > old(list.maxHeight) then height else old(list.maxHeight)
    ensures forall l | 0 <= l < height :: prev[l] == LastBefore(list.head, list.levels[l], key)
  {
    hide LevelOk, Before, SortedNodes;
    if height > list.maxHeight {
      for l := list.maxHeight to height
        invariant list.maxHeight == old(list.maxHeight) <= l <= height && list.Valid()
        invariant forall m | 0 <= m < l :: prev[m] == LastBefore(list.head, list.levels[m], key)
      {
        prev[l] := list.head;
      }
      list.maxHeight := height;
    }
  }

  lemma PredecessorLinks(list: SkipList, i: nat, key: InternalKey)
    requires list.Valid() && i < MAX_HEIGHT
    ensures var p := LastBefore(list.head, list.levels[i], key);
            && (p == list.head || p in list.repr)
            && i < |p.next| && p.next[i] == FirstAtLeast(list.levels[i], key)
  {
    var nodes := list.levels[i];
    assert LevelOk(list.head, nodes, i);
    var c: int := CountBefore(nodes, key);
    assert LinkAt(list.head, nodes, i, c - 1);
    assert c > 0 ==> nodes[c - 1] in nodes;
  }

  lemma NoKeyAbove(list: SkipList, key: InternalKey)
    requires list.Valid() && NoKey(list.levels[0], key)
    ensures forall l | 0 <= l < MAX_HEIGHT :: NoKey(list.levels[l], key)
  {
    forall l: nat | l < MAX_HEIGHT
      ensures NoKey(list.levels[l], key)
    {
      WithinBottom(list, l);
    }
  }

  lemma {:induction false} WithinBottom(list: SkipList, l: nat)
    requires list.Valid() && l < MAX_HEIGHT
    ensures Within(list.levels[l], list.levels[0])
  {
    if l > 0 {
      WithinBottom(list, l - 1);
      assert Within(list.levels[l], list.levels[l - 1]);
    }
  }

  /** Insert. Exactly the levels below the height get the new node, at its place. */
  method Insert(list: SkipList, entry: Entry, height: nat) returns (x: Node)
    requires list.Valid() && NoKey(list.levels[0], entry.key) && 1 <= height <= MAX_HEIGHT
    modifies list, list.head`next, list.repr`next
    ensures list.Valid() && fresh(x) && x.entry == entry && list.repr <= old(list.repr) + {x}
    ensures |list.levels| == |old(list.levels)| == MAX_HEIGHT
    ensures forall l | 0 <= l < MAX_HEIGHT ::
              list.levels[l] == if l < height then Inserted(old(list.levels)[l], x) else old(list.levels)[l]
  {
    hide CountBefore, LevelOk, LastBefore, FirstAtLeast, Inserted;
    var insertion := new Insertion(list, entry, height);
    x := insertion.x;
    while insertion.i < height
      invariant insertion.Valid() && list.repr <= old(list.repr) + {x} && insertion.i <= height
      invariant fresh(insertion) && insertion.list == list && insertion.x == x && insertion.height == height
      invariant |list.levels| == |old(list.levels)| == MAX_HEIGHT
      invariant forall l | 0 <= l < MAX_HEIGHT ::
                  list.levels[l] == if l < insertion.i then Inserted(old(list.levels)[l], x) else old(list.levels)[l]
      decreases height - insertion.i, !insertion.stored
    {
      insertion.Step();
    }
  }

  // ----- a search, step by step -----

  /** FindGreaterOrEqual by a reader, whose loads may come between the stores of an insertion. */
  class Search {
    const list: SkipList
    const key: InternalKey
    var x: Node
    var level: nat
    var done: bool
    var result: Node?

    ghost predicate Valid()
      reads this, list, list.head, list.repr
    {
      list.Valid() && (!done ==> list.SearchOk(x, level, key))
    }

    /** A reader may see any height the list has had. */
    constructor (list: SkipList, key: InternalKey, height: nat)
      requires list.Valid() && 1 <= height <= MAX_HEIGHT
      ensures Valid() && this.list == list && this.key == key && !done && x == list.head && level == height - 1
    {
      this.list, this.key, x, level, done, result := list, key, list.head, height - 1, false, null;
    }

    /** One turn of the loop. The answer is right for the list as it is at that moment. */
    method Step()
      requires Valid() && !done
      modifies this
      ensures Valid() && (done ==> result == FirstAtLeast(list.levels[0], key))
      ensures !done ==> level < old(level) || (level == old(level) && x in list.levels[level])
    {
      ghost var k := list.SearchPlace(x, level, key);
      list.SearchStep(x, level, key, k);
      var next := x.next[level];
      if next != null && Before(next.entry.key, key) {
        x := next;
      } else if level == 0 {
        result, done := next, true;
      } else {
        level := level - 1;
      }
    }
  }

  /** A store of an insertion leaves a search in progress where it can go on. */
  lemma SearchGoesOn(list: SkipList, before: seq<seq<Node>>, x: Node, level: nat, key: InternalKey)
    requires |before| == |list.levels| == MAX_HEIGHT && level < MAX_HEIGHT
    requires x == list.head || (x in before[level] && Before(x.entry.key, key))
    requires Within(before[level], list.levels[level])
    ensures list.SearchOk(x, level, key)
  {
  }

  /** Any interleaving of one insertion with one search. The search answers from the old list or from the new one:
      every key present at the start is found, and nothing but the new key is found besides. */
  method SearchDuringInsertion(insertion: Insertion, search: Search, schedule: seq<bool>)
    requires insertion.Valid() && search.Valid() && !search.done && insertion.i == 0
    requires insertion.list == search.list
    modifies insertion, search, search.list`levels, search.list`repr
    modifies {search.list.head, insertion.x}`next, search.list.repr`next
    ensures insertion.Valid() && search.Valid()
    ensures search.list.levels[0] == old(search.list.levels)[0]
         || search.list.levels[0] == Inserted(old(search.list.levels)[0], insertion.x)
    ensures search.done ==>
              || search.result == FirstAtLeast(old(search.list.levels)[0], search.key)
              || search.result == FirstAtLeast(Inserted(old(search.list.levels)[0], insertion.x), search.key)
  {
    hide CountBefore, LevelOk, LastBefore, FirstAtLeast, Inserted;
    ghost var bottom := search.list.levels[0];
    ghost var bottom' := Inserted(bottom, insertion.x);
    for n := 0 to |schedule|
      invariant insertion.Valid() && search.Valid() && search.list.repr <= old(search.list.repr) + {insertion.x}
      invariant search.list.levels[0] == if insertion.i == 0 then bottom else bottom'
      invariant search.done ==>
                  search.result == FirstAtLeast(bottom, search.key)
                  || search.result == FirstAtLeast(bottom', search.key)
    {
      if schedule[n] {
        if !search.done {
          search.Step();
        }
      } else if insertion.i < insertion.height {
        ghost var before := search.list.levels;
        insertion.Step();
        if !search.done {
          StepGrows(before, search.list.levels, insertion.x, search.level);
          SearchGoesOn(search.list, before, search.x, search.level, search.key);
        }
      }
    }
  }

  /** Any interleaving of one search with any number of insertions, one after the other. The search answers from the
      list as it was at some moment in between; so a key present at the start is found. A key that is in the list
      already is not inserted. */
  method SearchDuringInsertions(search: Search, writes: seq<(Entry, nat)>, schedule: seq<bool>)
    returns (ghost seen: seq<Node>)
    requires search.Valid() && !search.done
    requires forall i | 0 <= i < |writes| :: 1 <= writes[i].1 <= MAX_HEIGHT
    modifies search, search.list, search.list.head`next, search.list.repr`next
    ensures search.Valid() && Within(old(search.list.levels)[0], search.list.levels[0])
    ensures search.done ==>
              && search.result == FirstAtLeast(seen, search.key) && SortedNodes(seen)
              && Within(old(search.list.levels)[0], seen) && Within(seen, search.list.levels[0])
    ensures search.done ==>
              forall n | n in old(search.list.levels)[0] && n.entry.key == search.key :: search.result == n
  {
    hide CountBefore, LevelOk, LastBefore, FirstAtLeast, Inserted, SortedNodes, Before;
    var list := search.list;
    ghost var bottom := list.levels[0];
    seen := bottom;
    var current: Insertion?, next := null, 0;
    for n := 0 to |schedule|
      invariant search.Valid() && search.list == list && next <= |writes|
      invariant forall m | m in list.repr :: m in old(list.repr) || fresh(m)
      invariant current != null ==> current.Valid() && current.list == list && fresh(current) && fresh(current.x)
      invariant Within(bottom, seen) && Within(seen, list.levels[0])
      invariant search.done ==> search.result == FirstAtLeast(seen, search.key) && SortedNodes(seen)
    {
      if schedule[n] {
        if !search.done {
          search.Step();
          if search.done {
            seen := list.levels[0];
            BottomSorted(list);
          }
        }
      } else if current != null && current.i < current.height {
        ghost var before := list.levels;
        current.Step();
        StepGrows(before, list.levels, current.x, 0);
        if !search.done {
          StepGrows(before, list.levels, current.x, search.level);
          SearchGoesOn(list, before, search.x, search.level, search.key);
        }
      } else if next < |writes| {
        var present := list.Contains(writes[next].0.key);
        if !present {
          current := new Insertion(list, writes[next].0, writes[next].1);
        }
        next := next + 1;
      }
    }
    if search.done {
      forall n | n in bottom && n.entry.key == search.key
        ensures search.result == n
      {
        FirstAtLeastFinds(seen, n);
      }
    }
  }

  lemma BottomSorted(list: SkipList)
    requires list.Valid()
    ensures SortedNodes(list.levels[0])
  {
    assert LevelOk(list.head, list.levels[0], 0);
  }

  lemma FirstAtLeastFinds(nodes: seq<Node>, n: Node)
    requires SortedNodes(nodes) && n in nodes
    ensures FirstAtLeast(nodes, n.entry.key) == n
  {
    var k :| 0 <= k < |nodes| && nodes[k] == n;
    var c := CountBefore(nodes, n.entry.key);
    CountBeforeSplits(nodes, n.entry.key);
  }

  lemma StepGrows(before: seq<seq<Node>>, after: seq<seq<Node>>, x: Node, level: nat)
    requires level < |before| && (after == before ||
             exists i :: 0 <= i < |before| && after == before[i := Inserted(before[i], x)])
    ensures Within(before[level], after[level])
  {
    if after != before {
      var i :| 0 <= i < |before| && after == before[i := Inserted(before[i], x)];
      InsertedKeeps(before[i], x);
    }
  }

  lemma InsertedKeeps(nodes: seq<Node>, x: Node)
    ensures Within(nodes, Inserted(nodes, x))
  {
    var c, r := CountBefore(nodes, x.entry.key), Inserted(nodes, x);
    forall n | n in nodes
      ensures n in r
    {
      var k :| 0 <= k < |nodes| && nodes[k] == n;
      assert r[if k < c then k else k + 1] == n;
    }
  }
}
