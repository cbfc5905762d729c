/** The intrusive binary min heap of heap-inl.h, with the nodes of timer.c in it. The nodes are linked by left, right
    and parent pointers; the ghost sequence `nodes` lists them row by row, and every operation is proved to keep the
    pointers those of the complete tree over that sequence. */
module TimerHeap {
  /** The heap_node and the parts of uv_timer_t that the comparison reads. */
  class Timer {
    var left: Timer?
    var right: Timer?
    var parent: Timer?
    var timeout: nat
    var startId: nat
    var repeat: nat
    var hasCallback: bool
    var active: bool
    var closing: bool

    constructor ()
      ensures !active && !hasCallback && repeat == 0
      ensures left == null && right == null && parent == null
    {
      left, right, parent := null, null, null;
      timeout, startId, repeat, hasCallback, active, closing := 0, 0, 0, false, false, false;
    }
  }

  /** timer_less_than. */
  predicate LessThan(a: Timer, b: Timer)
    reads a, b
  {
    if a.timeout < b.timeout then true
    else if b.timeout < a.timeout then false
    else a.startId < b.startId
  }

  // ----- the order on keys -----

  datatype Key = Key(timeout: nat, startId: nat)

  predicate Less(a: Key, b: Key) {
    a.timeout < b.timeout || (a.timeout == b.timeout && a.startId < b.startId)
  }

  function KeyOf(t: Timer): Key
    reads t`timeout, t`startId
  {
    Key(t.timeout, t.startId)
  }

  lemma LessThanIsLess(a: Timer, b: Timer)
    ensures LessThan(a, b) <==> Less(KeyOf(a), KeyOf(b))
  {
  }

  ghost function Keys(nodes: seq<Timer>): seq<Key>
    reads nodes
  {
    seq(|nodes|, k requires 0 <= k < |nodes| reads nodes => KeyOf(nodes[k]))
  }

  /** No node is less than its parent. */
  ghost predicate Ordered(keys: seq<Key>) {
    forall k | 0 < k < |keys| :: !Less(keys[k], keys[ParentOf(k)])
  }

  /** Ordered but for node i and its parent; the children of i are in order with that parent. */
  ghost predicate OrderedExcept(keys: seq<Key>, i: nat) {
    && (forall k | 0 < k < |keys| && k != i :: !Less(keys[k], keys[ParentOf(k)]))
    && (0 < i < |keys| ==> forall c | 0 < c < |keys| && ParentOf(c) == i :: !Less(keys[c], keys[ParentOf(i)]))
  }

  /** Ordered but for node i, its parent and its children. */
  ghost predicate OrderedAround(keys: seq<Key>, i: nat) {
    && (forall k | 0 < k < |keys| && k != i && ParentOf(k) != i :: !Less(keys[k], keys[ParentOf(k)]))
    && (0 < i < |keys| ==> forall c | 0 < c < |keys| && ParentOf(c) == i :: !Less(keys[c], keys[ParentOf(i)]))
  }

  function SwappedKeys(keys: seq<Key>, i: nat, j: nat): (r: seq<Key>)
    requires i < |keys| && j < |keys|
    ensures |r| == |keys|
  {
    keys[i := keys[j]][j := keys[i]]
  }

  lemma UpStep(keys: seq<Key>, i: nat)
    requires OrderedExcept(keys, i) && 0 < i < |keys| && Less(keys[i], keys[ParentOf(i)])
    ensures OrderedExcept(SwappedKeys(keys, ParentOf(i), i), ParentOf(i))
  {
  }

  lemma UpEnd(keys: seq<Key>, i: nat)
    requires OrderedExcept(keys, i) && i < |keys| && (i > 0 ==> !Less(keys[i], keys[ParentOf(i)]))
    ensures Ordered(keys)
  {
  }

  lemma DownStep(keys: seq<Key>, i: nat, s: nat)
    requires OrderedAround(keys, i) && 0 < s < |keys| && ParentOf(s) == i && Less(keys[s], keys[i])
    requires forall c | 0 < c < |keys| && ParentOf(c) == i :: !Less(keys[c], keys[s])
    ensures OrderedAround(SwappedKeys(keys, i, s), s)
  {
    var keys' := SwappedKeys(keys, i, s);
    forall k | 0 < k < |keys| && k != s && ParentOf(k) != s
      ensures !Less(keys'[k], keys'[ParentOf(k)])
    {
      if k == i {
        assert !Less(keys[s], keys[ParentOf(i)]);
      }
    }
  }

  lemma DownEnd(keys: seq<Key>, i: nat)
    requires OrderedAround(keys, i) && i < |keys|
    requires forall c | 0 < c < |keys| && ParentOf(c) == i :: !Less(keys[c], keys[i])
    ensures OrderedExcept(keys, i)
  {
  }

  /** The root is the least. */
  lemma {:induction false} RootIsLeast(keys: seq<Key>, k: nat)
    requires Ordered(keys) && k < |keys|
    ensures !Less(keys[k], keys[0])
    decreases k
  {
    if k > 0 {
      RootIsLeast(keys, ParentOf(k));
      assert !Less(keys[k], keys[ParentOf(k)]);
    }
  }

  // ----- the complete tree over a sequence -----

  ghost predicate NoDuplicates(nodes: seq<Timer>) {
    forall i, j | 0 <= i < j < |nodes| :: nodes[i] != nodes[j]
  }

  function At(nodes: seq<Timer>, k: int): Timer? {
    if 0 <= k < |nodes| then nodes[k] else null
  }

  function ParentOf(k: nat): int {
    if k == 0 then -1 else (k - 1) / 2
  }

  /** The three pointers of node k. */
  ghost predicate Linked(nodes: seq<Timer>, k: nat)
    requires k < |nodes|
    reads nodes[k]
  {
    && nodes[k].left == At(nodes, 2 * k + 1)
    && nodes[k].right == At(nodes, 2 * k + 2)
    && nodes[k].parent == At(nodes, ParentOf(k))
  }

  ghost predicate Tree(nodes: seq<Timer>)
    reads nodes
  {
    NoDuplicates(nodes) && forall k | 0 <= k < |nodes| :: Linked(nodes, k)
  }

  function Swapped(nodes: seq<Timer>, i: nat, j: nat): (r: seq<Timer>)
    requires i < |nodes| && j < |nodes|
    ensures |r| == |nodes|
  {
    nodes[i := nodes[j]][j := nodes[i]]
  }

  ghost function NodeSet(nodes: seq<Timer>): set<Timer> {
    set t | t in nodes
  }

  function SiblingOf(i: nat): int
    requires i > 0
  {
    if i % 2 == 1 then i + 1 else i - 1
  }

  /** The pointers of node k after the swap of node i with its parent: those of the tree over ns, but for the ones to
      and from the swapped pair. */
  ghost predicate RewiredAt(ns: seq<Timer>, i: nat, k: nat)
    requires 0 < i < |ns| && k < |ns|
    reads ns[k]
  {
    var p := ParentOf(i);
    var g := ParentOf(p);
    var parent, child := ns[p], ns[i];
    if k == i then
      && child.left == (if i % 2 == 1 then parent else At(ns, SiblingOf(i)))
      && child.right == (if i % 2 == 1 then At(ns, SiblingOf(i)) else parent)
      && child.parent == At(ns, g)
    else if k == p then
      && parent.left == At(ns, 2 * i + 1) && parent.right == At(ns, 2 * i + 2) && parent.parent == child
    else
      && ns[k].left == (if k == g && p % 2 == 1 then child else At(ns, 2 * k + 1))
      && ns[k].right == (if k == g && p % 2 == 0 then child else At(ns, 2 * k + 2))
      && ns[k].parent == (if k == SiblingOf(i) then child
                          else if k == 2 * i + 1 || k == 2 * i + 2 then parent
                          else At(ns, ParentOf(k)))
  }

  lemma RewiredLinks(ns: seq<Timer>, i: nat, k: nat)
    requires 0 < i < |ns| && k < |ns| &&
             RewiredAt(ns, i, if k == i then ParentOf(i) else if k == ParentOf(i) then i else k)
    ensures Linked(Swapped(ns, ParentOf(i), i), k)
  {
  }

  lemma RewiredTree(ns: seq<Timer>, i: nat)
    requires 0 < i < |ns| && NoDuplicates(ns) && forall k | 0 <= k < |ns| :: RewiredAt(ns, i, k)
    ensures Tree(Swapped(ns, ParentOf(i), i))
  {
    var ns' := Swapped(ns, ParentOf(i), i);
    forall k | 0 <= k < |ns|
      ensures Linked(ns', k)
    {
      RewiredLinks(ns, i, k);
    }
  }

  lemma Neighbours(ns: seq<Timer>, i: nat)
    requires Tree(ns) && 0 < i < |ns|
    ensures NoDuplicates(ns)
    ensures ns[i].left == At(ns, 2 * i + 1) && ns[i].right == At(ns, 2 * i + 2) && ns[i].parent == ns[ParentOf(i)]
    ensures var p := ParentOf(i);
            && ns[p].left == (if i % 2 == 1 then ns[i] else At(ns, SiblingOf(i)))
            && ns[p].right == (if i % 2 == 1 then At(ns, SiblingOf(i)) else ns[i])
            && ns[p].parent == At(ns, ParentOf(p))
            && (p > 0 ==> if p % 2 == 1 then ns[ParentOf(p)].left == ns[p]
                          else ns[ParentOf(p)].right == ns[p] && ns[ParentOf(p)].left != ns[p])
  {
    var p := ParentOf(i);
    assert Linked(ns, i) && Linked(ns, p);
    ChildPlaces(i);
    if p > 0 {
      ChildPlaces(p);
      assert Linked(ns, ParentOf(p));
    }
  }

  lemma ChildPlaces(i: nat)
    requires i > 0
    ensures var p := ParentOf(i);
            p >= 0 && if i % 2 == 1 then 2 * p + 1 == i && 2 * p + 2 == SiblingOf(i)
                      else 2 * p + 2 == i && 2 * p + 1 == SiblingOf(i)
  {
  }

  // ----- paths from the root -----

  /** A struct heap_node**: where a pointer to a node is stored. */
  datatype Slot = MinSlot | LeftOf(t: Timer) | RightOf(t: Timer)

  /** The slot that holds node number j, counting from 1. */
  ghost function SlotFor(nodes: seq<Timer>, j: nat): Slot
    requires 1 <= j <= |nodes| + 1
  {
    if j == 1 then MinSlot
    else if j % 2 == 0 then LeftOf(nodes[j / 2 - 1])
    else RightOf(nodes[j / 2 - 1])
  }

  /** The node reached from node j by the k low bits of the path, lowest first. */
  ghost function Follow(path: nat, k: nat, j: nat): nat
    decreases k
  {
    if k == 0 then j else Follow(path / 2, k - 1, 2 * j + path % 2)
  }

  lemma {:induction false} FollowDescends(path: nat, k: nat, j: nat)
    ensures Follow(path, k, j) >= j
    ensures k > 0 ==> Follow(path, k, j) >= 2 * j
    decreases k
  {
    if k > 0 {
      FollowDescends(path / 2, k - 1, 2 * j + path % 2);
    }
  }

  ghost predicate SameNodes(a: seq<Timer>, b: seq<Timer>) {
    |a| == |b| && NodeSet(a) == NodeSet(b)
  }

  lemma SwappedNodes(nodes: seq<Timer>, i: nat, j: nat)
    requires i < |nodes| && j < |nodes|
    ensures SameNodes(Swapped(nodes, i, j), nodes)
    ensures Keys(Swapped(nodes, i, j)) == SwappedKeys(Keys(nodes), i, j)
  {
    var r := Swapped(nodes, i, j);
    forall t | t in nodes
      ensures t in r
    {
      var k :| 0 <= k < |nodes| && nodes[k] == t;
      assert r[if k == i then j else if k == j then i else k] == t;
    }
  }

  class Heap {
    var min: Timer?
    var nelts: nat
    ghost var nodes: seq<Timer>

    ghost predicate Shaped()
      reads this, nodes
    {
      Tree(nodes) && nelts == |nodes| && min == At(nodes, 0)
    }

    /** Swap parent with child: every pointer to or from the two nodes is rewired. */
    method NodeSwap(parent: Timer, child: Timer, ghost i: nat)
      requires Shaped() && 0 < i < |nodes| && child == nodes[i] && parent == nodes[ParentOf(i)]
      modifies this`min, this`nodes, NodeSet(nodes)`left, NodeSet(nodes)`right, NodeSet(nodes)`parent
      ensures Shaped() && nodes == Swapped(old(nodes), ParentOf(i), i)
    {
      ghost var p, ns := ParentOf(i), nodes;
      Neighbours(ns, i);
      Exchange(parent, child, i);
      Relink(parent, child, i);
      forall k | 0 <= k < |ns|
        ensures RewiredAt(ns, i, k)
      {
        assert old(Linked(ns, k));
      }
      nodes := Swapped(ns, p, i);
      RewiredTree(ns, i);
    }

    /** heap_node_swap up to the sibling. */
    method Exchange(parent: Timer, child: Timer, ghost i: nat)
      requires Shaped() && 0 < i < |nodes| && child == nodes[i] && parent == nodes[ParentOf(i)]
      modifies NodeSet(nodes)`left, NodeSet(nodes)`right, NodeSet(nodes)`parent
      ensures var p := ParentOf(i);
              && child.left == (if i % 2 == 1 then parent else At(nodes, SiblingOf(i)))
              && child.right == (if i % 2 == 1 then At(nodes, SiblingOf(i)) else parent)
              && child.parent == At(nodes, ParentOf(p))
              && parent.left == At(nodes, 2 * i + 1) && parent.right == At(nodes, 2 * i + 2) && parent.parent == child
              && forall k | 0 <= k < |nodes| && k != i && k != p ::
                   && nodes[k].left == old(nodes[k].left) && nodes[k].right == old(nodes[k].right)
                   && nodes[k].parent == if k == SiblingOf(i) then child else old(nodes[k].parent)
    {
      hide Tree, Linked;
      Neighbours(nodes, i);
      parent.left, parent.right, parent.parent, child.left, child.right, child.parent :=
        child.left, child.right, child.parent, parent.left, parent.right, parent.parent;
      parent.parent := child;
      var sibling;
      if child.left == child {
        child.left := parent;
        sibling := child.right;
      } else {
        child.right := parent;
        sibling := child.left;
      }
      assert sibling == At(nodes, SiblingOf(i));
      if sibling != null {
        sibling.parent := child;
      }
    }

    /** The rest of it: the parent's new children and the child's new parent. */
    method Relink(parent: Timer, child: Timer, ghost i: nat)
      requires NoDuplicates(nodes) && 0 < i < |nodes| && child == nodes[i] && parent == nodes[ParentOf(i)]
      requires parent.left == At(nodes, 2 * i + 1) && parent.right == At(nodes, 2 * i + 2)
      requires var p := ParentOf(i);
               && child.parent == At(nodes, ParentOf(p))
               && (p > 0 ==> if p % 2 == 1 then nodes[ParentOf(p)].left == parent
                             else nodes[ParentOf(p)].right == parent && nodes[ParentOf(p)].left != parent)
      modifies this`min, NodeSet(nodes)`left, NodeSet(nodes)`right, NodeSet(nodes)`parent
      ensures var p := ParentOf(i);
              var g := ParentOf(p);
              && min == (if p == 0 then child else old(min))
              && forall k | 0 <= k < |nodes| ::
                   && nodes[k].left == (if k == g && p % 2 == 1 then child else old(nodes[k].left))
                   && nodes[k].right == (if k == g && p % 2 == 0 then child else old(nodes[k].right))
                   && nodes[k].parent == if k == 2 * i + 1 || k == 2 * i + 2 then parent else old(nodes[k].parent)
    {
      if parent.left != null {
        parent.left.parent := parent;
      }
      if parent.right != null {
        parent.right.parent := parent;
      }
      if child.parent == null {
        min := child;
      } else if child.parent.left == parent {
        child.parent.left := child;
      } else {
        child.parent.right := child;
      }
    }

    function Load(slot: Slot): Timer?
      reads this, if slot.MinSlot? then {} else {slot.t}
    {
      match slot
      case MinSlot => min
      case LeftOf(t) => t.left
      case RightOf(t) => t.right
    }

    method Store(slot: Slot, t: Timer?)
      modifies this`min, (if slot.MinSlot? then {} else {slot.t})`left, (if slot.MinSlot? then {} else {slot.t})`right
      ensures min == if slot.MinSlot? then t else old(min)
      ensures slot.LeftOf? ==> slot.t.left == t && slot.t.right == old(slot.t.right)
      ensures slot.RightOf? ==> slot.t.right == t && slot.t.left == old(slot.t.left)
    {
      match slot {
        case MinSlot => min := t;
        case LeftOf(owner) => owner.left := t;
        case RightOf(owner) => owner.right := t;
      }
    }

    lemma LoadSlot(j: nat)
      requires Shaped() && 1 <= j <= |nodes| + 1
      ensures Load(SlotFor(nodes, j)) == At(nodes, j - 1)
    {
      if j > 1 {
        assert Linked(nodes, j / 2 - 1);
      }
    }

    /** The two loops that start both operations: the bits of target, below its highest, are the path to that node. */
    method Walk(target: nat) returns (parent: Slot, child: Slot)
      requires Shaped() && 1 <= target <= nelts + 1
      ensures child == SlotFor(nodes, target)
      ensures parent == SlotFor(nodes, if target == 1 then 1 else target / 2)
    {
      hide Tree;
      var path, k, n := 0, 0, target;
      while n >= 2
        invariant n >= 1 && Follow(path, k, n) == target && (k == 0 ==> n == target)
        decreases n
      {
        path, k, n := path * 2 + n % 2, k + 1, n / 2;
      }
      parent, child := MinSlot, MinSlot;
      ghost var j := 1;
      while k > 0
        invariant 1 <= j && Follow(path, k, j) == target && j <= target
        invariant child == SlotFor(nodes, j) && parent == SlotFor(nodes, if j == 1 then 1 else j / 2)
        decreases k
      {
        FollowDescends(path, k, j);
        LoadSlot(j);
        parent := child;
        child := if path % 2 == 1 then RightOf(Load(child)) else LeftOf(Load(child));
        j := 2 * j + path % 2;
        FollowDescends(path / 2, k - 1, j);
        path, k := path / 2, k - 1;
      }
    }

    ghost predicate Valid()
      reads this, nodes
    {
      Shaped() && Ordered(Keys(nodes))
    }

    constructor ()
      ensures Valid() && nodes == []
    {
      min, nelts, nodes := null, 0, [];
    }

    /** The last loop of both operations. */
    method SiftUp(node: Timer, ghost i0: nat)
      requires Shaped() && i0 < |nodes| && node == nodes[i0] && OrderedExcept(Keys(nodes), i0)
      modifies this`min, this`nodes, NodeSet(nodes)`left, NodeSet(nodes)`right, NodeSet(nodes)`parent
      ensures Valid() && SameNodes(nodes, old(nodes))
    {
      hide Tree, OrderedExcept, Ordered, SameNodes;
      ghost var i: nat := i0;
      LinksOf(nodes, i);
      ghost var ns0 := nodes;
      SameNodesRefl(nodes);
      while node.parent != null && LessThan(node, node.parent)
        invariant Shaped() && i < |nodes| && node == nodes[i] && OrderedExcept(Keys(nodes), i)
        invariant node.parent == At(nodes, ParentOf(i))
        invariant SameNodes(nodes, ns0) && NodeSet(nodes) == NodeSet(ns0)
        decreases i
      {
        ghost var ns, keys := nodes, Keys(nodes);
        LessThanIsLess(node, node.parent);
        UpStep(keys, i);
        NodeSwap(node.parent, node, i);
        SwappedNodes(ns, ParentOf(i), i);
        assert Keys(nodes) == SwappedKeys(keys, ParentOf(i), i);
        SameNodesTrans(nodes, ns, ns0);
        i := ParentOf(i);
        LinksOf(nodes, i);
      }
      if node.parent != null {
        LessThanIsLess(node, node.parent);
      }
      UpEnd(Keys(nodes), i);
    }

    /** heap_insert. */
    method Insert(newnode: Timer)
      requires Valid() && newnode !in nodes
      modifies this, newnode`left, newnode`right, newnode`parent,
               NodeSet(nodes)`left, NodeSet(nodes)`right, NodeSet(nodes)`parent
      ensures Valid() && SameNodes(nodes, old(nodes) + [newnode])
    {
      hide Tree, Ordered, OrderedExcept;
      ghost var keys := Keys(nodes);
      LinkLast(newnode);
      assert Keys(nodes) == keys + [KeyOf(newnode)];
      AppendedKey(keys, KeyOf(newnode));
      SiftUp(newnode, |nodes| - 1);
    }

    /** heap_insert up to the last loop: the new node becomes the left-most free node of the bottom row. */
    method LinkLast(newnode: Timer)
      requires Shaped() && newnode !in nodes
      modifies this, newnode`left, newnode`right, newnode`parent, NodeSet(nodes)`left, NodeSet(nodes)`right
      ensures Shaped() && nodes == old(nodes) + [newnode]
    {
      ghost var ns, n := nodes, nelts;
      newnode.left, newnode.right, newnode.parent := null, null, null;
      var parent, child := Walk(nelts + 1);
      LoadSlot(if n == 0 then 1 else (n + 1) / 2);
      newnode.parent := Load(parent);
      assert newnode.parent == At(ns, ParentOf(n));
      label Before:
      Store(child, newnode);
      forall k | 0 <= k < n
        ensures AppendedAt(ns, newnode, k)
      {
        assert old@Before(Linked(ns, k));
      }
      nelts := nelts + 1;
      nodes := nodes + [newnode];
      AppendedTree(ns, newnode);
    }

    /** heap_remove of a node of the heap. */
    method Remove(node: Timer)
      requires Valid() && (nelts == 0 || node in nodes)
      modifies this, NodeSet(nodes)`left, NodeSet(nodes)`right, NodeSet(nodes)`parent
      ensures Valid()
      ensures old(nelts) > 0 ==> node !in nodes && SameNodes(nodes + [node], old(nodes))
      ensures old(nelts) == 0 ==> nodes == []
    {
      hide Tree, Ordered, OrderedExcept, OrderedAround, SameNodes;
      if nelts == 0 {
        return;
      }
      ghost var ns, keys := nodes, Keys(nodes);
      ghost var r: nat :| r < |ns| && ns[r] == node;
      DistinctNodes(ns);
      var child := UnlinkLast();
      assert Keys(nodes) == keys[..|ns| - 1];
      DroppedLast(ns, keys);
      if child == node {
        return; // clearing *max has cleared min if this was the root
      }
      Replace(node, child, r);
      assert Keys(nodes) == keys[..|ns| - 1][r := keys[|ns| - 1]];
      ReplacedNodes(ns, r);
      ReplacedKey(keys, r);
      Sift(child, r);
      SameNodesPlus(nodes, ns[..|ns| - 1][r := child], node);
      SameNodesTrans(nodes + [node], ns[..|ns| - 1][r := child] + [node], ns);
    }

    method Sift(child: Timer, ghost r: nat)
      requires Shaped() && r < |nodes| && child == nodes[r] && OrderedAround(Keys(nodes), r)
      modifies this`min, this`nodes, NodeSet(nodes)`left, NodeSet(nodes)`right, NodeSet(nodes)`parent
      ensures Valid() && SameNodes(nodes, old(nodes))
    {
      hide Tree, Ordered, OrderedExcept, OrderedAround;
      ghost var i := SiftDown(child, r);
      SiftUp(child, i);
    }

    /** The node or one of its children, whichever is least. */
    method SmallestOf(child: Timer, ghost i: nat) returns (smallest: Timer, ghost s: nat)
      requires Shaped() && i < |nodes| && child == nodes[i]
      ensures s < |nodes| && smallest == nodes[s] && (smallest == child <==> s == i)
      ensures s != i ==> ParentOf(s) == i && Less(Keys(nodes)[s], Keys(nodes)[i])
      ensures forall c | 0 < c < |nodes| && ParentOf(c) == i :: !Less(Keys(nodes)[c], Keys(nodes)[s])
    {
      LinksOf(nodes, i);
      smallest, s := child, i;
      if child.left != null && LessThan(child.left, smallest) {
        smallest, s := child.left, 2 * i + 1;
      }
      if child.right != null && LessThan(child.right, smallest) {
        smallest, s := child.right, 2 * i + 2;
      }
      DistinctNodes(nodes);
    }

    /** Walk down the subtree, swapping with the smallest child. */
    method SiftDown(child: Timer, ghost r: nat) returns (ghost i: nat)
      requires Shaped() && r < |nodes| && child == nodes[r] && OrderedAround(Keys(nodes), r)
      modifies this`min, this`nodes, NodeSet(nodes)`left, NodeSet(nodes)`right, NodeSet(nodes)`parent
      ensures Shaped() && SameNodes(nodes, old(nodes))
      ensures i < |nodes| && child == nodes[i] && OrderedExcept(Keys(nodes), i)
    {
      hide Tree, OrderedExcept, OrderedAround, SameNodes;
      i := r;
      ghost var ns0 := nodes;
      SameNodesRefl(nodes);
      while true
        invariant Shaped() && i < |nodes| && child == nodes[i] && OrderedAround(Keys(nodes), i)
        invariant SameNodes(nodes, ns0) && NodeSet(nodes) == NodeSet(ns0)
        decreases |nodes| - i
      {
        var smallest;
        ghost var s;
        smallest, s := SmallestOf(child, i);
        if smallest == child {
          DownEnd(Keys(nodes), i);
          break;
        }
        ghost var ns, keys := nodes, Keys(nodes);
        DownStep(keys, i, s);
        NodeSwap(child, smallest, s);
        SwappedNodes(ns, i, s);
        assert Keys(nodes) == SwappedKeys(keys, i, s);
        SameNodesTrans(nodes, ns, ns0);
        i := s;
      }
    }

    /** Unlink the max node, the last of the bottom row. */
    method UnlinkLast() returns (child: Timer)
      requires Shaped() && nelts > 0
      modifies this, NodeSet(nodes)`left, NodeSet(nodes)`right
      ensures Shaped() && nodes == old(nodes)[..|old(nodes)| - 1] && child == old(nodes)[|old(nodes)| - 1]
      ensures nelts == old(nelts) - 1
    {
      ghost var ns, n := nodes, nelts - 1;
      var _, max := Walk(nelts);
      LoadSlot(nelts);
      nelts := nelts - 1;
      child := Load(max);
      label Before:
      Store(max, null);
      forall k | 0 <= k < n
        ensures DroppedAt(ns, k)
      {
        assert old@Before(Linked(ns, k));
      }
      nodes := ns[..n];
      DroppedTree(ns);
    }

    /** Replace the node to be deleted, node r, with the max node. */
    method Replace(node: Timer, child: Timer, ghost r: nat)
      requires Shaped() && r < |nodes| && node == nodes[r] && child !in nodes
      modifies this, child`left, child`right, child`parent
      modifies NodeSet(nodes)`left, NodeSet(nodes)`right, NodeSet(nodes)`parent
      ensures Shaped() && nodes == old(nodes)[r := child]
    {
      ghost var ns := nodes;
      LinksOf(ns, r);
      if r > 0 {
        LinksOf(ns, ParentOf(r));
        ChildPlaces(r);
      }
      child.left, child.right, child.parent := node.left, node.right, node.parent;
      if child.left != null {
        child.left.parent := child;
      }
      if child.right != null {
        child.right.parent := child;
      }
      if node.parent == null {
        min := child;
      } else if node.parent.left == node {
        node.parent.left := child;
      } else {
        node.parent.right := child;
      }
      forall k | 0 <= k < |ns|
        ensures ReplacedAt(ns, child, r, k)
      {
        assert old(Linked(ns, k));
      }
      ReplacedTree(ns, child, r);
      nodes := ns[r := child];
    }
  }

  ghost predicate DroppedAt(ns: seq<Timer>, k: nat)
    requires k < |ns| - 1
    reads ns[k]
  {
    && ns[k].left == (if 2 * k + 1 == |ns| - 1 then null else At(ns, 2 * k + 1))
    && ns[k].right == (if 2 * k + 2 == |ns| - 1 then null else At(ns, 2 * k + 2))
    && ns[k].parent == At(ns, ParentOf(k))
  }

  lemma DroppedTree(ns: seq<Timer>)
    requires |ns| > 0 && NoDuplicates(ns) && forall k | 0 <= k < |ns| - 1 :: DroppedAt(ns, k)
    ensures Tree(ns[..|ns| - 1])
  {
    var ns' := ns[..|ns| - 1];
    forall k | 0 <= k < |ns'|
      ensures Linked(ns', k)
    {
      assert DroppedAt(ns, k);
    }
  }

  ghost predicate ReplacedAt(ns: seq<Timer>, child: Timer, r: nat, k: nat)
    requires k < |ns| && r < |ns|
    reads ns[k], child
  {
    if k == r then
      && child.left == At(ns, 2 * r + 1) && child.right == At(ns, 2 * r + 2) && child.parent == At(ns, ParentOf(r))
    else
      && ns[k].left == (if 2 * k + 1 == r then child else At(ns, 2 * k + 1))
      && ns[k].right == (if 2 * k + 2 == r then child else At(ns, 2 * k + 2))
      && ns[k].parent == (if ParentOf(k) == r then child else At(ns, ParentOf(k)))
  }

  lemma ReplacedTree(ns: seq<Timer>, child: Timer, r: nat)
    requires r < |ns| && NoDuplicates(ns) && child !in ns && forall k | 0 <= k < |ns| :: ReplacedAt(ns, child, r, k)
    ensures Tree(ns[r := child])
  {
    var ns' := ns[r := child];
    forall k | 0 <= k < |ns'|
      ensures Linked(ns', k)
    {
      assert ReplacedAt(ns, child, r, k);
    }
  }

  lemma DistinctNodes(ns: seq<Timer>)
    requires Tree(ns)
    ensures NoDuplicates(ns)
  {
  }

  lemma DroppedLast(ns: seq<Timer>, keys: seq<Key>)
    requires |ns| > 0 && NoDuplicates(ns) && Ordered(keys) && |keys| == |ns|
    ensures SameNodes(ns[..|ns| - 1] + [ns[|ns| - 1]], ns) && ns[|ns| - 1] !in ns[..|ns| - 1]
    ensures Ordered(keys[..|ns| - 1])
  {
    assert ns[..|ns| - 1] + [ns[|ns| - 1]] == ns;
  }

  lemma ReplacedNodes(ns: seq<Timer>, r: nat)
    requires r < |ns| - 1 && NoDuplicates(ns)
    ensures var ns' := ns[..|ns| - 1][r := ns[|ns| - 1]];
            ns[r] !in ns' && SameNodes(ns' + [ns[r]], ns)
  {
    var n := |ns| - 1;
    var ns' := ns[..n][r := ns[n]];
    forall t | t in ns
      ensures t in ns' + [ns[r]]
    {
      var k :| 0 <= k < |ns| && ns[k] == t;
      assert k == r || ns'[if k == n then r else k] == t;
    }
    assert forall k | 0 <= k < n :: ns'[k] in ns;
  }

  lemma ReplacedKey(keys: seq<Key>, r: nat)
    requires r < |keys| - 1 && Ordered(keys)
    ensures OrderedAround(keys[..|keys| - 1][r := keys[|keys| - 1]], r)
  {
    var n := |keys| - 1;
    var keys' := keys[..n][r := keys[n]];
    forall c | 0 < c < n && ParentOf(c) == r && r > 0
      ensures !Less(keys'[c], keys'[ParentOf(r)])
    {
      assert !Less(keys[c], keys[r]) && !Less(keys[r], keys[ParentOf(r)]);
    }
  }

  ghost predicate AppendedAt(ns: seq<Timer>, newnode: Timer, k: nat)
    requires k < |ns|
    reads ns[k]
  {
    && ns[k].left == (if 2 * k + 1 == |ns| then newnode else At(ns, 2 * k + 1))
    && ns[k].right == (if 2 * k + 2 == |ns| then newnode else At(ns, 2 * k + 2))
    && ns[k].parent == At(ns, ParentOf(k))
  }

  lemma AppendedTree(ns: seq<Timer>, newnode: Timer)
    requires NoDuplicates(ns) && newnode !in ns && forall k | 0 <= k < |ns| :: AppendedAt(ns, newnode, k)
    requires newnode.left == null && newnode.right == null && newnode.parent == At(ns, ParentOf(|ns|))
    ensures Tree(ns + [newnode])
  {
    forall k | 0 <= k < |ns|
      ensures Linked(ns + [newnode], k)
    {
      assert AppendedAt(ns, newnode, k);
    }
  }

  lemma AppendedKey(keys: seq<Key>, key: Key)
    requires Ordered(keys)
    ensures OrderedExcept(keys + [key], |keys|)
  {
  }

  lemma SameNodesRefl(a: seq<Timer>)
    ensures SameNodes(a, a)
  {
  }

  lemma SameNodesTrans(a: seq<Timer>, b: seq<Timer>, c: seq<Timer>)
    requires SameNodes(a, b) && SameNodes(b, c)
    ensures SameNodes(a, c) && NodeSet(a) == NodeSet(c)
  {
  }

  lemma SameNodesPlus(a: seq<Timer>, b: seq<Timer>, t: Timer)
    requires SameNodes(a, b)
    ensures SameNodes(a + [t], b + [t]) && (t !in b ==> t !in a)
  {
    assert NodeSet(a + [t]) == NodeSet(a) + {t};
    assert NodeSet(b + [t]) == NodeSet(b) + {t};
    assert t in a <==> t in NodeSet(a);
    assert t in b <==> t in NodeSet(b);
  }

  lemma LinksOf(nodes: seq<Timer>, i: nat)
    requires Tree(nodes) && i < |nodes|
    ensures nodes[i].parent == At(nodes, ParentOf(i))
    ensures nodes[i].left == At(nodes, 2 * i + 1) && nodes[i].right == At(nodes, 2 * i + 2)
  {
    assert Linked(nodes, i);
  }
}
