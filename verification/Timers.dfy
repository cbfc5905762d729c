/** Timers (timer.c) on top of the heap: start, stop, again, the next timeout, and running the due timers. */
module Timers {
  import opened TimerHeap

  const UINT64_MAX: nat := 0xFFFF_FFFF_FFFF_FFFF
  const INT_MAX: nat := 0x7FFF_FFFF

  datatype Status = Ok | InvalidArgument

  /** The sum, cut off at the largest 64-bit number. */
  function Saturated(a: nat, b: nat): nat {
    if a + b > UINT64_MAX then UINT64_MAX else a + b
  }

  class TimerLoop {
    const heap: Heap
    var time: nat
    var timerCounter: nat

    ghost predicate Valid()
      reads this, heap, heap.nodes
    {
      && heap.Valid() && time <= UINT64_MAX
      && (forall t | t in heap.nodes :: t.active && t.hasCallback && t.startId < timerCounter)
      && (forall t, t' | t in heap.nodes && t' in heap.nodes && t != t' :: t.startId != t'.startId)
    }

    /** What the caller of a timer function knows of the handle: active exactly when it is in the heap. */
    ghost predicate Knows(handle: Timer)
      reads this, heap, handle
    {
      handle.active <==> handle in heap.nodes
    }

    constructor (time: nat)
      requires time <= UINT64_MAX
      ensures Valid() && heap.nodes == [] && this.time == time && fresh(heap)
    {
      heap := new Heap();
      this.time, timerCounter := time, 0;
    }

    /** uv_timer_stop. */
    method Stop(handle: Timer)
      requires Valid() && Knows(handle)
      modifies heap, handle`left, handle`right, handle`parent, handle`active
      modifies NodeSet(heap.nodes)`left, NodeSet(heap.nodes)`right, NodeSet(heap.nodes)`parent
      ensures Valid() && !handle.active && NodeSet(heap.nodes) == NodeSet(old(heap.nodes)) - {handle}
    {
      if !handle.active {
        assert NodeSet(heap.nodes) - {handle} == NodeSet(heap.nodes);
        return;
      }
      heap.Remove(handle);
      assert NodeSet(heap.nodes + [handle]) == NodeSet(heap.nodes) + {handle};
      MemberIffInSet(heap.nodes);
      handle.active := false;
    }

    /** uv_timer_start. */
    method Start(handle: Timer, hasCallback: bool, timeout: nat, repeat: nat) returns (rc: Status)
      requires Valid() && Knows(handle) && timeout <= UINT64_MAX
      modifies this`timerCounter, heap, handle
      modifies NodeSet(heap.nodes)`left, NodeSet(heap.nodes)`right, NodeSet(heap.nodes)`parent
      ensures Valid()
      ensures rc == if old(handle.closing) || !hasCallback then InvalidArgument else Ok
      ensures handle.closing == old(handle.closing)
      ensures rc.InvalidArgument? ==>
                unchanged(handle) && heap.nodes == old(heap.nodes) && timerCounter == old(timerCounter)
      ensures rc.Ok? ==>
                && handle.active && handle.hasCallback && handle.repeat == repeat
                && handle.timeout == Saturated(time, timeout)
                && handle.startId == old(timerCounter) && timerCounter == old(timerCounter) + 1
                && NodeSet(heap.nodes) == NodeSet(old(heap.nodes)) + {handle}
    {
      if handle.closing || !hasCallback {
        return InvalidArgument;
      }
      if handle.active {
        Stop(handle);
      }
      MemberIffInSet(heap.nodes);
      Arm(handle, timeout, repeat);
      rc := Ok;
    }

    /** uv_timer_start of a timer that is not running. */
    method Arm(handle: Timer, timeout: nat, repeat: nat)
      requires Valid() && handle !in heap.nodes && timeout <= UINT64_MAX
      modifies this`timerCounter, heap, handle
      modifies NodeSet(heap.nodes)`left, NodeSet(heap.nodes)`right, NodeSet(heap.nodes)`parent
      ensures Valid() && handle.active && handle.hasCallback && handle.repeat == repeat
      ensures handle.timeout == Saturated(time, timeout) && handle.closing == old(handle.closing)
      ensures handle.startId == old(timerCounter) && timerCounter == old(timerCounter) + 1
      ensures NodeSet(heap.nodes) == NodeSet(old(heap.nodes)) + {handle}
    {
      hide Heap.Valid, SameNodes;
      Clamp(time, timeout);
      var clampedTimeout := (time + timeout) % (UINT64_MAX + 1);
      if clampedTimeout < timeout {
        clampedTimeout := UINT64_MAX;
      }
      handle.hasCallback, handle.timeout, handle.repeat := true, clampedTimeout, repeat;
      handle.startId, handle.active := timerCounter, true;
      ghost var before := heap.nodes;
      heap.Insert(handle);
      InsertedSet(heap.nodes, before, handle);
      timerCounter := timerCounter + 1;
    }

    /** uv_timer_again. */
    method Again(handle: Timer) returns (rc: Status)
      requires Valid() && Knows(handle) && handle.repeat <= UINT64_MAX
      modifies this`timerCounter, heap, handle
      modifies NodeSet(heap.nodes)`left, NodeSet(heap.nodes)`right, NodeSet(heap.nodes)`parent
      ensures Valid() && handle.repeat == old(handle.repeat) && timerCounter >= old(timerCounter)
      ensures rc == if old(handle.hasCallback) then Ok else InvalidArgument
      ensures NodeSet(heap.nodes) ==
                if !old(handle.hasCallback) || handle.repeat == 0 then NodeSet(old(heap.nodes))
                else if old(handle.closing) then NodeSet(old(heap.nodes)) - {handle}
                else NodeSet(old(heap.nodes)) + {handle}
      ensures old(handle.hasCallback) && handle.repeat != 0 && !old(handle.closing) ==>
                handle.timeout == Saturated(time, handle.repeat) && handle.startId >= old(timerCounter)
      ensures handle.closing == old(handle.closing)
    {
      hide Heap.Valid;
      if !handle.hasCallback {
        return InvalidArgument;
      }
      if handle.repeat != 0 {
        Stop(handle);
        MemberIffInSet(heap.nodes);
        var _ := Start(handle, handle.hasCallback, handle.repeat, handle.repeat);
      }
      rc := Ok;
    }

    /** uv__next_timeout: -1 without timers, else how long until the first is due, cut off at INT_MAX. */
    method NextTimeout() returns (r: int)
      requires Valid()
      ensures r == -1 <==> heap.nodes == []
      ensures r == 0 <==> exists t :: t in heap.nodes && t.timeout <= time
      ensures r > 0 ==>
                exists t :: t in heap.nodes &&
                  r == (if t.timeout - time > 0x7FFF_FFFF then 0x7FFF_FFFF else t.timeout - time)
                          && forall t' | t' in heap.nodes :: t.timeout <= t'.timeout
    {
      var handle := heap.min;
      if handle == null {
        return -1;
      }
      LeastTimer(heap);
      if handle.timeout <= time {
        return 0;
      }
      var diff := handle.timeout - time;
      if diff > INT_MAX {
        diff := INT_MAX;
      }
      r := diff;
    }

    ghost function Due(): set<Timer>
      reads this, heap, heap.nodes
    {
      set t | t in heap.nodes && t.timeout <= time
    }

    /** One turn of uv__run_timers, up to the callback, for the first timer when it is due. */
    method TakeFirst(handle: Timer)
      requires Valid() && heap.nodes != [] && handle == heap.nodes[0] && handle.timeout <= time
      requires !handle.closing && handle.repeat <= UINT64_MAX
      modifies this`timerCounter, heap, NodeSet(heap.nodes)
      ensures Valid() && handle.repeat == old(handle.repeat) && !handle.closing
      ensures NodeSet(heap.nodes) ==
                if handle.repeat == 0 then NodeSet(old(heap.nodes)) - {handle} else NodeSet(old(heap.nodes))
      ensures handle.repeat != 0 ==> handle.timeout == Saturated(time, handle.repeat)
      ensures forall t | t in old(heap.nodes) && t != handle ::
                KeyOf(t) == old(KeyOf(t)) && t.repeat == old(t.repeat) && t.closing == old(t.closing)
      ensures handle in old(Due())
      ensures Due() == if handle.repeat != 0 && time == UINT64_MAX then old(Due()) else old(Due()) - {handle}
      ensures forall t | t in Due() && t != handle :: Less(old(KeyOf(handle)), KeyOf(t))
    {
      hide Heap.Valid;
      LeastTimer(heap);
      ghost var ns := heap.nodes;
      MemberIffInSet(ns);
      Stop(handle);
      MemberIffInSet(heap.nodes);
      var _ := Again(handle);
      MemberIffInSet(heap.nodes);
      if handle.repeat != 0 {
        RearmedIsNotDue(time, handle.repeat);
      }
    }

    /** With the loop time at its maximum, a due timer that repeats is due again after any number of turns: there
        uv__run_timers has no end. */
    method RunTurns(n: nat, ghost t: Timer)
      requires Valid() && time == UINT64_MAX && t in Due() && t.repeat != 0
      requires forall x | x in heap.nodes :: !x.closing && x.repeat <= UINT64_MAX
      modifies this`timerCounter, heap, NodeSet(heap.nodes)
      ensures Valid() && time == UINT64_MAX && t in Due() && t.repeat == old(t.repeat)
    {
      hide Heap.Valid;
      ghost var all := NodeSet(heap.nodes);
      MemberIffInSet(heap.nodes);
      for i := 0 to n
        invariant Valid() && time == UINT64_MAX && t in Due() && t.repeat == old(t.repeat) && NodeSet(heap.nodes) <= all
        invariant forall x | x in all :: !x.closing && x.repeat == old(x.repeat)
      {
        var handle := heap.min;
        MinIsFirst(heap);
        MemberIffInSet(heap.nodes);
        LeastTimer(heap);
        assert !Less(KeyOf(t), KeyOf(heap.nodes[0]));
        TakeFirst(handle);
        MemberIffInSet(heap.nodes);
      }
    }

    /** uv__run_timers, with callbacks that touch no timers: returns the timers in the order of their callbacks. */
    method RunTimers() returns (fired: seq<Timer>)
      requires Valid() && (time == UINT64_MAX ==> forall t | t in Due() :: t.repeat == 0)
      requires forall t | t in heap.nodes :: !t.closing && t.repeat <= UINT64_MAX
      modifies this`timerCounter, heap, NodeSet(heap.nodes)
      ensures Valid() && Due() == {}
      ensures NoDuplicates(fired) && NodeSet(fired) == old(Due())
      ensures forall i | 0 <= i < |fired| :: fired[i] in old(heap.nodes)
      ensures forall i, j | 0 <= i < j < |fired| :: Less(old(KeyOf(fired[i])), old(KeyOf(fired[j])))
      ensures forall t | t in old(heap.nodes) && t !in old(Due()) :: t in heap.nodes && KeyOf(t) == old(KeyOf(t))
      ensures forall t | t in old(Due()) :: t in heap.nodes <==> old(t.repeat) != 0
      ensures forall t | t in old(Due()) && old(t.repeat) != 0 :: t.timeout == Saturated(time, old(t.repeat))
      ensures forall t | t in heap.nodes :: t in old(heap.nodes)
    {
      hide Heap.Valid;
      fired := [];
      ghost var all := NodeSet(heap.nodes);
      ghost var left := Due();
      while true
        invariant Valid() && time == old(time) && NodeSet(heap.nodes) <= all && left == Due()
        invariant forall t | t in all :: !t.closing && t.repeat == old(t.repeat)
        invariant time == UINT64_MAX ==> forall t | t in left :: t.repeat == 0
        invariant NoDuplicates(fired) && NodeSet(fired) + left == old(Due()) && NodeSet(fired) !! left
        invariant forall i | 0 <= i < |fired| :: fired[i] in all
        invariant forall i, j | 0 <= i < j < |fired| :: Less(old(KeyOf(fired[i])), old(KeyOf(fired[j])))
        invariant forall i, t | 0 <= i < |fired| && t in left :: Less(old(KeyOf(fired[i])), KeyOf(t))
        invariant forall t | t in all && t !in NodeSet(fired) :: t in heap.nodes && KeyOf(t) == old(KeyOf(t))
        invariant forall t | t in NodeSet(fired) :: t in heap.nodes <==> t.repeat != 0
        invariant forall t | t in NodeSet(fired) && t.repeat != 0 :: t.timeout == Saturated(time, t.repeat)
        decreases left
      {
        var handle := heap.min;
        MinIsFirst(heap);
        if handle == null {
          break;
        }
        LeastTimer(heap);
        if handle.timeout > time {
          break;
        }
        ghost var fired0 := fired;
        MemberIffInSet(heap.nodes);
        TakeFirst(handle);
        MemberIffInSet(heap.nodes);
        MemberIffInSet(fired);
        fired := fired + [handle];
        left := left - {handle};
        assert NodeSet(fired) == NodeSet(fired0) + {handle};
      }
    }
  }

  lemma MinIsFirst(heap: Heap)
    requires heap.Valid()
    ensures heap.min == null <==> heap.nodes == []
  {
  }

  /** The root of the heap is the first timer. */
  lemma LeastTimer(heap: Heap)
    requires heap.Valid() && heap.nodes != []
    ensures heap.min != null && heap.min == heap.nodes[0]
    ensures forall t | t in heap.nodes :: !Less(KeyOf(t), KeyOf(heap.nodes[0]))
  {
    forall t | t in heap.nodes
      ensures !Less(KeyOf(t), KeyOf(heap.nodes[0]))
    {
      var k :| 0 <= k < |heap.nodes| && heap.nodes[k] == t;
      RootIsLeast(Keys(heap.nodes), k);
    }
  }

  /** Re-arming puts a timer behind the current time exactly when the time is below the maximum; at the maximum a
      repeating timer stays due, and uv__run_timers would not end. */
  lemma RearmedIsNotDue(time: nat, repeat: nat)
    requires time <= UINT64_MAX && 0 < repeat <= UINT64_MAX
    ensures Saturated(time, repeat) > time <==> time < UINT64_MAX
  {
  }

  /** The overflow check of the code: the wrapped sum is less than the timeout exactly when the sum overflows. */
  lemma Clamp(time: nat, timeout: nat)
    requires time <= UINT64_MAX && timeout <= UINT64_MAX
    ensures var sum := (time + timeout) % (UINT64_MAX + 1);
            (if sum < timeout then UINT64_MAX else sum) == Saturated(time, timeout)
  {
    if time + timeout > UINT64_MAX {
      assert (time + timeout) % (UINT64_MAX + 1) == time + timeout - (UINT64_MAX + 1);
    }
  }

  lemma InsertedSet(after: seq<Timer>, before: seq<Timer>, t: Timer)
    requires SameNodes(after, before + [t])
    ensures NodeSet(after) == NodeSet(before) + {t}
    ensures forall x :: x in after <==> x in before || x == t
  {
    assert NodeSet(before + [t]) == NodeSet(before) + {t};
    assert forall x :: x in after <==> x in NodeSet(after);
  }

  lemma MemberIffInSet(nodes: seq<Timer>)
    ensures forall t :: t in nodes <==> t in NodeSet(nodes)
  {
  }
}
