/** The thread pool (threadpool.c). Every method is one critical section, so any interleaving of the threads is a
    sequence of calls; each call keeps Valid(), which holds the safety properties of the protocol. */
module ThreadPool {
  type Item = nat
  type Loop = nat

  datatype Kind = Cpu | FastIo | SlowIo

  /** What can be linked into wq: the two messages, or the node of a request. */
  datatype Node = RunSlow | Exit | Work(item: Item)

  /** w->work: the callback, NULL once it has run, or uv__cancelled. */
  datatype WorkPtr = Callback | Null | Cancelled

  datatype Worker =
    | Contending                           // about to take the mutex, or holding it
    | Waiting(signaled: bool)              // in uv_cond_wait
    | Executing(item: Item, slow: bool)    // in w->work(w), without the mutex
    | Finishing(slow: bool)                // about to take the mutex again
    | Exited

  /** Where a request is. */
  datatype Phase =
    | Queued                   // in wq, or in slow_io_pending_wq
    | Running
    | Cancelling               // taken out by uv__work_cancel, not yet in the loop's queue
    | Returned                 // in loop->wq
    | Draining                 // in the local queue of uv__work_done
    | Completed                // done callback called

  /** One step of one thread. */
  datatype Action =
    | SubmitWork(item: Item, loop: Loop, kind: Kind)
    | WorkerRuns(worker: nat)
    | CancelRequest(item: Item)
    | FinishCancel(item: Item)
    | LoopWakes(loop: Loop)
    | PostExit

  // ----- counting workers -----

  function CountIf(ws: seq<Worker>, p: Worker -> bool): (n: nat)
    ensures n <= |ws|
  {
    if ws == [] then 0 else CountIf(ws[..|ws| - 1], p) + if p(ws[|ws| - 1]) then 1 else 0
  }

  lemma {:induction false} CountUpdate(ws: seq<Worker>, p: Worker -> bool, i: nat, w: Worker)
    requires i < |ws|
    ensures CountIf(ws[i := w], p) == CountIf(ws, p) - (if p(ws[i]) then 1 else 0) + if p(w) then 1 else 0
  {
    var last := |ws| - 1;
    if i == last {
      assert ws[i := w][..last] == ws[..last];
    } else {
      assert ws[i := w][..last] == ws[..last][i := w];
      CountUpdate(ws[..last], p, i, w);
    }
  }

  lemma {:induction false} CountZero(ws: seq<Worker>, p: Worker -> bool, i: nat)
    requires i < |ws| && p(ws[i])
    ensures CountIf(ws, p) > 0
  {
    if i < |ws| - 1 {
      CountZero(ws[..|ws| - 1], p, i);
    }
  }

  predicate IsWaiting(w: Worker) {
    w.Waiting?
  }

  /** Holds one of the slow_io_work_running slots. */
  predicate HoldsSlowSlot(w: Worker) {
    (w.Executing? || w.Finishing?) && w.slow
  }

  /** In w->work(w) of a slow request. */
  predicate RunsSlow(w: Worker) {
    w.Executing? && w.slow
  }

  /** In uv_cond_wait, and no signal is on its way. */
  predicate Sleeps(w: Worker) {
    w == Waiting(false)
  }

  /** Will take the mutex and look at the queue without waiting for anything else. */
  predicate Looks(w: Worker) {
    w.Contending? || w == Waiting(true) || w.Finishing?
  }

  // ----- the invariants -----

  ghost predicate NoDuplicates<T>(s: seq<T>) {
    forall i, j | 0 <= i < j < |s| :: s[i] != s[j]
  }

  /** slow_work_thread_threshold. */
  function Threshold(nthreads: nat): nat {
    (nthreads + 1) / 2
  }

  /** The condition under which a worker waits. */
  predicate Blocked(wq: seq<Node>, slowRunning: nat, nthreads: nat) {
    wq == [] || (wq == [RunSlow] && slowRunning >= Threshold(nthreads))
  }

  /** How many workers the queue can keep busy; room: a slow request may be started. One exit message is enough, as
      each worker that sees it wakes the next one. */
  function Needed(wq: seq<Node>, room: bool): nat {
    if wq == [] then 0
    else
      match wq[0]
      case Exit => 1
      case Work(_) => 1 + Needed(wq[1..], room)
      case RunSlow => (if room then 1 else 0) + Needed(wq[1..], room)
  }

  /** No lost wakeup: a worker only sleeps while enough others are about to look at the queue. */
  ghost predicate WakeupsOk(wq: seq<Node>, ws: seq<Worker>) {
    CountIf(ws, Sleeps) == 0
    || CountIf(ws, Looks) >= Needed(wq, CountIf(ws, RunsSlow) < Threshold(|ws|))
  }

  /** What a worker that holds the mutex does, room as above: the message for slow requests is put behind the rest or
      dropped when no slow request can be started. */
  ghost predicate Decides(wq: seq<Node>, pending: seq<Item>, room: bool, w: Worker) {
    var rest := if wq != [] && wq[0].RunSlow? && (pending == [] || !room) then wq[1..] else wq;
    if rest == [] then w == Waiting(false)
    else
      match rest[0]
      case Exit => w.Exited?
      case Work(item) => w == Executing(item, false)
      case RunSlow => pending != [] && w == Executing(pending[0], true)
  }

  ghost predicate QueuesOk(wq: seq<Node>, slowPending: seq<Item>) {
    && NoDuplicates(wq) && NoDuplicates(slowPending)
    && (slowPending != [] ==> RunSlow in wq)
  }

  ghost predicate CountersOk(idle: nat, slowRunning: nat, ws: seq<Worker>) {
    && |ws| > 0
    && idle == CountIf(ws, IsWaiting)
    && slowRunning == CountIf(ws, HoldsSlowSlot) <= Threshold(|ws|)
  }

  /** Each request is where its phase says and nowhere else. */
  ghost predicate PlacesOk(wq: seq<Node>, slowPending: seq<Item>, ws: seq<Worker>,
                           loopQueue: map<Loop, seq<Item>>, local: map<Loop, seq<Item>>,
                           loopOf: map<Item, Loop>, phase: map<Item, Phase>)
  {
    QueuePlaces(wq, slowPending, ws, phase) && LoopPlaces(loopQueue, local, loopOf, phase)
  }

  ghost predicate QueuePlaces(wq: seq<Node>, slowPending: seq<Item>, ws: seq<Worker>, phase: map<Item, Phase>) {
    && (forall i | Work(i) in wq :: i in phase && phase[i].Queued? && i !in slowPending)
    && (forall i | i in slowPending :: i in phase && phase[i].Queued?)
    && (forall i | i in phase && phase[i].Queued? :: Work(i) in wq || i in slowPending)
    && (forall k | 0 <= k < |ws| && ws[k].Executing? :: ws[k].item in phase && phase[ws[k].item].Running?)
    && (forall k, k' | 0 <= k < k' < |ws| && ws[k].Executing? && ws[k'].Executing? :: ws[k].item != ws[k'].item)
    && (forall i | i in phase && phase[i].Running? :: RunBySome(ws, i))
  }

  ghost predicate RunBySome(ws: seq<Worker>, item: Item) {
    exists k :: 0 <= k < |ws| && ws[k].Executing? && ws[k].item == item
  }

  ghost predicate LoopPlaces(loopQueue: map<Loop, seq<Item>>, local: map<Loop, seq<Item>>,
                             loopOf: map<Item, Loop>, phase: map<Item, Phase>)
  {
    && (forall l :: l in local <==> l in loopQueue) && SameRequests(loopOf, phase)
    && (forall i | i in phase :: loopOf[i] in loopQueue)
    && LoopQueues(loopQueue, loopOf, phase, Returned)
    && LoopQueues(local, loopOf, phase, Draining)
  }

  ghost predicate SameRequests(loopOf: map<Item, Loop>, phase: map<Item, Phase>) {
    forall i :: i in loopOf <==> i in phase
  }

  /** One queue for each loop, holding exactly the loop's requests in phase p. */
  ghost predicate LoopQueues(queues: map<Loop, seq<Item>>, loopOf: map<Item, Loop>, phase: map<Item, Phase>, p: Phase)
    requires SameRequests(loopOf, phase)
  {
    forall l | l in queues :: LoopQueue(queues[l], l, loopOf, phase, p)
  }

  ghost predicate LoopQueue(queue: seq<Item>, l: Loop, loopOf: map<Item, Loop>, phase: map<Item, Phase>, p: Phase)
    requires SameRequests(loopOf, phase)
  {
    && NoDuplicates(queue)
    && (forall i | i in queue :: i in phase && phase[i] == p && loopOf[i] == l)
    && (forall i | i in phase && phase[i] == p && loopOf[i] == l :: i in queue)
  }

  /** Executed or cancelled, never both; and the node is self-linked exactly while the callback runs. */
  ghost predicate OutcomesOk(phase: map<Item, Phase>, work: map<Item, WorkPtr>, selfLinked: set<Item>,
                             executed: set<Item>)
  {
    && work.Keys == phase.Keys && executed <= phase.Keys && selfLinked <= phase.Keys
    && (forall i | i in phase :: i in selfLinked <==> phase[i].Running?)
    && (forall i | i in phase && (phase[i].Queued? || phase[i].Running?) :: work[i].Callback?)
    && (forall i | i in phase && phase[i].Cancelling? :: !work[i].Null?)
    && (forall i | i in phase && (phase[i].Returned? || phase[i].Draining? || phase[i].Completed?) ::
          !work[i].Callback?)
    && (forall i | i in phase :: i in executed <==> phase[i].Running? || work[i].Null?)
  }

  /** Each done callback is called at most once. */
  ghost predicate DoneOk(phase: map<Item, Phase>, done: seq<Item>) {
    && NoDuplicates(done)
    && (forall i | i in done :: i in phase)
    && (forall i | i in phase :: i in done <==> phase[i].Completed?)
  }

  // ----- queues as sequences -----

  /** The requests linked in wq, in order. */
  function Works(wq: seq<Node>): seq<Item> {
    if wq == [] then [] else (if wq[0].Work? then [wq[0].item] else []) + Works(wq[1..])
  }

  lemma {:induction false} WorksAppend(a: seq<Node>, b: seq<Node>)
    ensures Works(a + b) == Works(a) + Works(b)
  {
    if a == [] {
      assert a + b == b;
    } else {
      assert (a + b)[1..] == a[1..] + b && (a + b)[0] == a[0];
      WorksAppend(a[1..], b);
      assert Works(a + b) == (if a[0].Work? then [a[0].item] else []) + (Works(a[1..]) + Works(b));
    }
  }

  lemma AppendDistinct<T>(s: seq<T>, x: T)
    requires NoDuplicates(s) && x !in s
    ensures NoDuplicates(s + [x])
  {
  }

  lemma TailDistinct<T(!new)>(s: seq<T>)
    requires NoDuplicates(s) && s != []
    ensures NoDuplicates(s[1..]) && s[0] !in s[1..]
    ensures forall x :: x in s <==> x == s[0] || x in s[1..]
  {
    assert s == [s[0]] + s[1..];
  }

  /** QUEUE_REMOVE of a linked node. */
  function Without<T(==,!new)>(s: seq<T>, x: T): (r: seq<T>)
    ensures forall y :: y in r <==> y in s && y != x
  {
    if s == [] then []
    else
      assert s == [s[0]] + s[1..];
      (if s[0] == x then [] else [s[0]]) + Without(s[1..], x)
  }

  lemma {:induction false} WithoutDistinct<T(!new)>(s: seq<T>, x: T)
    requires NoDuplicates(s)
    ensures NoDuplicates(Without(s, x))
  {
    if s != [] {
      TailDistinct(s);
      WithoutDistinct(s[1..], x);
    }
  }

  // ----- the pool -----

  class Pool {
    // under the global mutex
    var idleThreads: nat
    var slowIoWorkRunning: nat
    var wq: seq<Node>
    var slowIoPendingWq: seq<Item>
    var workers: seq<Worker>
    // under each loop's wq_mutex
    var loopQueue: map<Loop, seq<Item>>
    // the local queue of uv__work_done, while it runs
    var local: map<Loop, seq<Item>>
    // the requests
    var loopOf: map<Item, Loop>
    var work: map<Item, WorkPtr>
    var selfLinked: set<Item>    // nodes after QUEUE_INIT
    // where each request is: not in the code, but what its callers must know to cancel only live requests
    var phase: map<Item, Phase>
    ghost var executed: set<Item>
    ghost var done: seq<Item>    // the done callbacks called so far

    ghost predicate Valid()
      reads this
    {
      && QueuesOk(wq, slowIoPendingWq)
      && CountersOk(idleThreads, slowIoWorkRunning, workers)
      && PlacesOk(wq, slowIoPendingWq, workers, loopQueue, local, loopOf, phase)
      && OutcomesOk(phase, work, selfLinked, executed)
      && DoneOk(phase, done)
      && WakeupsOk(wq, workers)
    }

    /** init_threads: every worker is about to take the mutex. */
    constructor (nthreads: nat, loops: set<Loop>)
      requires 1 <= nthreads <= 1024
      ensures Valid() && wq == [] && slowIoPendingWq == [] && |workers| == nthreads && loopQueue.Keys == loops
    {
      idleThreads, slowIoWorkRunning, wq, slowIoPendingWq := 0, 0, [], [];
      workers := seq(nthreads, _ => Contending);
      loopQueue, local := map l | l in loops :: [], map l | l in loops :: [];
      loopOf, work, selfLinked, phase, executed, done := map[], map[], {}, map[], {}, [];
      new;
      NoneCounted(workers, IsWaiting);
      NoneCounted(workers, HoldsSlowSlot);
      NoneCounted(workers, Sleeps);
    }

    /** uv_cond_signal: wakes one of the threads waiting on the condition variable, if there is one. */
    method Signal()
      requires CountersOk(idleThreads, slowIoWorkRunning, workers)
      modifies this`workers
      ensures CountersOk(idleThreads, slowIoWorkRunning, workers)
      ensures Signaled(old(workers), workers) && SameButWaiting(old(workers), workers)
    {
      ghost var ws := workers;
      if i :| 0 <= i < |workers| && workers[i] == Waiting(false) {
        workers := workers[i := Waiting(true)];
        assert WokenAt(ws, workers, i);
      }
      SignaledCounts(ws, workers);
    }

    /** post, of a message or of the node of a request. */
    method Post(q: Node, slow: bool)
      requires QueuesOk(wq, slowIoPendingWq) && CountersOk(idleThreads, slowIoWorkRunning, workers)
      requires WakeupsOk(wq, workers)
      requires q !in wq && !q.RunSlow? && (slow ==> q.Work? && q.item !in slowIoPendingWq)
      modifies this`wq, this`slowIoPendingWq, this`workers
      ensures QueuesOk(wq, slowIoPendingWq) && CountersOk(idleThreads, slowIoWorkRunning, workers)
      ensures WakeupsOk(wq, workers) && SameButWaiting(old(workers), workers)
      ensures if slow && RunSlow in old(wq) then workers == old(workers) else Signaled(old(workers), workers)
      ensures slowIoPendingWq == if slow then old(slowIoPendingWq) + [q.item] else old(slowIoPendingWq)
      ensures wq == if !slow then old(wq) + [q] else if RunSlow in old(wq) then old(wq) else old(wq) + [RunSlow]
    {
      hide WakeupsOk, Needed;
      ghost var wq0, ws := wq, workers;
      var node := q;
      if slow {
        AppendDistinct(slowIoPendingWq, q.item);
        slowIoPendingWq := slowIoPendingWq + [q.item];
        if RunSlow in wq {
          return;
        }
        node := RunSlow;
      }
      AppendDistinct(wq, node);
      wq := wq + [node];
      if idleThreads > 0 {
        Signal();
      } else {
        NoneSleeping(workers);
      }
      PostWakes(wq0, node, ws, workers);
    }

    /** uv__work_submit of a request that is not live. */
    method Submit(item: Item, loop: Loop, kind: Kind)
      requires Valid() && item !in phase && loop in loopQueue
      modifies this
      ensures Valid()
      ensures phase == old(phase)[item := Queued] && executed == old(executed) && loopOf == old(loopOf)[item := loop]
      ensures done == old(done)
      ensures work == old(work)[item := Callback] && selfLinked == old(selfLinked)
      ensures Works(wq) == Works(old(wq)) + if kind.SlowIo? then [] else [item]
      ensures slowIoPendingWq == old(slowIoPendingWq) + if kind.SlowIo? then [item] else []
      ensures loopQueue == old(loopQueue) && local == old(local) && SameButWaiting(old(workers), workers)
      ensures (kind.SlowIo? && RunSlow in old(wq)) || Signaled(old(workers), workers)
      ensures slowIoWorkRunning == old(slowIoWorkRunning) && idleThreads == old(idleThreads)
    {
      hide PlacesOk, OutcomesOk, CountersOk, WakeupsOk, QueuesOk, Works;
      ghost var wq0, pending0, ws0 := wq, slowIoPendingWq, workers;
      NotQueued(wq, slowIoPendingWq, workers, loopQueue, local, loopOf, phase, item);
      Post(Work(item), kind.SlowIo?);
      WorksOf(wq0, item);
      SubmitPlaces(wq0, pending0, ws0, loopQueue, local, loopOf, phase, item, loop, wq, slowIoPendingWq, workers);
      SubmitOutcomes(phase, work, selfLinked, executed, item);
      loopOf, work, phase := loopOf[item := loop], work[item := Callback], phase[item := Queued];
    }

    /** Taking the mutex: after uv_cond_wait returns (signaled or spuriously), or after running a request. */
    method TakeMutex(i: nat)
      requires Valid() && i < |workers| && (workers[i].Contending? || workers[i].Waiting? || workers[i].Finishing?)
      modifies this`workers, this`idleThreads, this`slowIoWorkRunning
      ensures Valid() && workers == old(workers)[i := Contending]
      ensures slowIoWorkRunning == old(slowIoWorkRunning) - if old(workers[i]) == Finishing(true) then 1 else 0
    {
      hide PlacesOk, OutcomesOk, QueuesOk, WakeupsOk;
      SetWorker(workers, i, Contending);
      MutexWakes(wq, workers, i);
      WorkerPlaces(wq, slowIoPendingWq, workers, loopQueue, local, loopOf, phase, i, Contending);
      match workers[i] {
        case Waiting(_) => idleThreads := idleThreads - 1;
        case Finishing(slow) => if slow { slowIoWorkRunning := slowIoWorkRunning - 1; }
        case _ =>
      }
      workers := workers[i := Contending];
    }

    /** The worker loop from taking the mutex to letting go of it: in uv_cond_wait, to run a request, or to exit. */
    method WorkerSection(i: nat)
      requires Valid() && i < |workers| && (workers[i].Contending? || workers[i].Waiting? || workers[i].Finishing?)
      modifies this
      ensures Valid() && |workers| == |old(workers)|
      ensures loopQueue == old(loopQueue) && local == old(local) && loopOf == old(loopOf) && work == old(work)
      ensures done == old(done)
      ensures Decides(old(wq), old(slowIoPendingWq),
                      old(slowIoWorkRunning) - (if old(workers[i]) == Finishing(true) then 1 else 0)
                        < (|workers| + 1) / 2, workers[i])
      ensures match workers[i]
              case Waiting(_) => wq == [] || (wq == [RunSlow] && slowIoWorkRunning >= (|workers| + 1) / 2)
              case Exited => wq != [] && wq[0] == Exit
              case Executing(item, _) => item in work && work[item].Callback? && item !in old(executed)
              case _ => false
      ensures match workers[i]
              case Executing(item, slow) =>
                && phase == old(phase)[item := Running] && executed == old(executed) + {item}
                && selfLinked == old(selfLinked) + {item}
                && (slow ==> slowIoWorkRunning <= (|workers| + 1) / 2)
                && (if slow then old(slowIoPendingWq) == [item] + slowIoPendingWq && Works(wq) == Works(old(wq))
                    else Works(old(wq)) == [item] + Works(wq) && slowIoPendingWq == old(slowIoPendingWq))
              case _ =>
                && phase == old(phase) && executed == old(executed) && selfLinked == old(selfLinked)
                && Works(wq) == Works(old(wq)) && slowIoPendingWq == old(slowIoPendingWq)
    {
      hide PlacesOk, OutcomesOk, QueuesOk, CountersOk, WakeupsOk, DoneOk, Works, Decides;
      TakeMutex(i);
      ghost var room := slowIoWorkRunning < (|workers| + 1) / 2;
      while true
        invariant room == (slowIoWorkRunning < (|workers| + 1) / 2)
        invariant forall w :: Decides(wq, slowIoPendingWq, room, w) ==> Decides(old(wq), slowIoPendingWq, room, w)
        invariant Valid() && |workers| == |old(workers)| && workers[i].Contending?
        invariant loopQueue == old(loopQueue) && local == old(local) && loopOf == old(loopOf) && work == old(work)
        invariant phase == old(phase) && executed == old(executed) && selfLinked == old(selfLinked) && done == old(done)
        invariant Works(wq) == Works(old(wq)) && slowIoPendingWq == old(slowIoPendingWq)
        decreases |wq|, wq != [] && wq[0].RunSlow?
      {
        WhatIsDecided(wq, slowIoPendingWq, room);
        if Blocked(wq, slowIoWorkRunning, |workers|) {
          StartWaiting(i);
          return;
        }
        if wq[0].Exit? {
          ExitWorker(i);
          return;
        }
        if wq[0].RunSlow? {
          var taken := TakeSlow(i);
          if taken {
            return;
          }
        } else {
          WorksTail(wq);
          TakeWork(i);
          return;
        }
      }
    }

    method StartWaiting(i: nat)
      requires Valid() && i < |workers| && workers[i].Contending? && Blocked(wq, slowIoWorkRunning, |workers|)
      modifies this`workers, this`idleThreads
      ensures Valid() && workers == old(workers)[i := Waiting(false)] && idleThreads == old(idleThreads) + 1
    {
      hide PlacesOk, OutcomesOk, QueuesOk, WakeupsOk;
      SetWorker(workers, i, Waiting(false));
      WaitWakes(wq, slowIoWorkRunning, workers, i);
      WorkerPlaces(wq, slowIoPendingWq, workers, loopQueue, local, loopOf, phase, i, Waiting(false));
      idleThreads := idleThreads + 1;
      workers := workers[i := Waiting(false)];
    }

    /** The exit message stays in the queue for the other workers. */
    method ExitWorker(i: nat)
      requires Valid() && i < |workers| && workers[i].Contending? && wq != [] && wq[0].Exit?
      modifies this`workers
      ensures Valid() && Signaled(old(workers)[i := Exited], workers) && workers[i].Exited?
    {
      hide PlacesOk, OutcomesOk, QueuesOk, WakeupsOk;
      ghost var ws0 := workers;
      SetWorker(workers, i, Exited);
      WorkerPlaces(wq, slowIoPendingWq, workers, loopQueue, local, loopOf, phase, i, Exited);
      workers := workers[i := Exited];
      ghost var ws := workers;
      Signal();
      SignalPlaces(wq, slowIoPendingWq, ws, loopQueue, local, loopOf, phase, workers);
      ExitWakes(wq, ws0, i, workers);
    }

    /** The run_slow_work_message at the head of the queue. */
    method TakeSlow(i: nat) returns (taken: bool)
      requires Valid() && i < |workers| && workers[i].Contending?
      requires wq != [] && wq[0].RunSlow? && !Blocked(wq, slowIoWorkRunning, |workers|)
      modifies this`wq, this`slowIoPendingWq, this`slowIoWorkRunning, this`workers
      modifies this`selfLinked, this`phase, this`executed
      ensures Valid() && |workers| == |old(workers)|
      ensures Works(wq) == Works(old(wq))
      ensures taken ==>
                && old(slowIoPendingWq) != [] && slowIoPendingWq == old(slowIoPendingWq)[1..]
                && Took(old(slowIoPendingWq)[0], true, i)
                && slowIoWorkRunning == old(slowIoWorkRunning) + 1 <= (|workers| + 1) / 2
                && wq == old(wq)[1..] + if slowIoPendingWq == [] then [] else [RunSlow]
      ensures taken <==> old(slowIoPendingWq) != [] && old(slowIoWorkRunning) < (|workers| + 1) / 2
      ensures !taken ==>
                && wq == old(wq)[1..] + (if slowIoWorkRunning < (|workers| + 1) / 2 then [] else [RunSlow])
                && slowIoWorkRunning == old(slowIoWorkRunning)
                && workers == old(workers) && slowIoPendingWq == old(slowIoPendingWq)
                && phase == old(phase) && executed == old(executed) && selfLinked == old(selfLinked)
                && (|wq| < |old(wq)| || (|wq| == |old(wq)| && wq[0] != RunSlow))
    {
      hide PlacesOk, OutcomesOk, Works, WakeupsOk;
      ghost var wq0 := wq;
      TailDistinct(wq);
      WorksTail(wq);
      WorksOf(wq[1..], 0);
      PassWakes(wq, workers);
      wq := wq[1..];
      if slowIoWorkRunning >= Threshold(|workers|) {
        AppendDistinct(wq, RunSlow);
        wq := wq + [RunSlow];
        SameWorks(wq0, slowIoPendingWq, workers, loopQueue, local, loopOf, phase, wq);
        return false;
      }
      SameWorks(wq0, slowIoPendingWq, workers, loopQueue, local, loopOf, phase, wq);
      if slowIoPendingWq == [] {
        return false;
      }
      RunPending(i, wq0);
      taken := true;
    }

    /** The rest of it: take the oldest slow request, and schedule the message again if there are more. */
    method RunPending(i: nat, ghost wq0: seq<Node>)
      requires CountersOk(idleThreads, slowIoWorkRunning, workers) && slowIoWorkRunning < Threshold(|workers|)
      requires wq0 == [RunSlow] + wq && WakeupsOk(wq0, workers)
      requires PlacesOk(wq0, slowIoPendingWq, workers, loopQueue, local, loopOf, phase)
      requires OutcomesOk(phase, work, selfLinked, executed) && i < |workers| && workers[i].Contending?
      requires DoneOk(phase, done)
      requires slowIoPendingWq != [] && NoDuplicates(slowIoPendingWq) && NoDuplicates(wq) && RunSlow !in wq
      requires forall j :: Work(j) in wq <==> Work(j) in wq0
      modifies this`wq, this`slowIoPendingWq, this`slowIoWorkRunning, this`workers
      modifies this`selfLinked, this`phase, this`executed
      ensures Valid() && |workers| == |old(workers)|
      ensures slowIoPendingWq == old(slowIoPendingWq)[1..] && Works(wq) == Works(old(wq))
      ensures wq == old(wq) + if slowIoPendingWq == [] then [] else [RunSlow]
      ensures Took(old(slowIoPendingWq)[0], true, i)
      ensures slowIoWorkRunning == old(slowIoWorkRunning) + 1
    {
      hide PlacesOk, OutcomesOk, Works, NoDuplicates, WakeupsOk, DoneOk, Signaled, SameButWaiting;
      ghost var pending0, ws0, wq1 := slowIoPendingWq, workers, wq;
      QueuedHead(wq0, slowIoPendingWq, workers, loopQueue, local, loopOf, phase);
      slowIoWorkRunning := slowIoWorkRunning + 1;
      var item := slowIoPendingWq[0];
      TailDistinct(slowIoPendingWq);
      slowIoPendingWq := slowIoPendingWq[1..];
      Reschedule();
      StartExecuting(i, item, true, wq0, pending0);
      ghost var ws := workers;
      if slowIoPendingWq != [] && idleThreads > 0 {
        Signal();
        SignalPlaces(wq, slowIoPendingWq, ws, loopQueue, local, loopOf, phase, workers);
      } else if slowIoPendingWq != [] {
        NoneSleeping(workers);
      }
      SlowWakes(wq1, ws0, i, item, slowIoPendingWq != [], wq, ws, workers);
    }

    method Reschedule()
      requires NoDuplicates(slowIoPendingWq) && NoDuplicates(wq) && RunSlow !in wq
      modifies this`wq
      ensures QueuesOk(wq, slowIoPendingWq) && Works(wq) == Works(old(wq))
      ensures wq == old(wq) + if slowIoPendingWq == [] then [] else [RunSlow]
      ensures forall j :: Work(j) in wq <==> Work(j) in old(wq)
    {
      if slowIoPendingWq != [] {
        AppendDistinct(wq, RunSlow);
        WorksOf(wq, 0);
        wq := wq + [RunSlow];
      }
    }

    /** QUEUE_INIT of the request's node; the worker is about to run it. */
    method StartExecuting(i: nat, item: Item, slow: bool, ghost wq0: seq<Node>, ghost pending0: seq<Item>)
      requires PlacesOk(wq0, pending0, workers, loopQueue, local, loopOf, phase)
      requires OutcomesOk(phase, work, selfLinked, executed) && i < |workers| && workers[i].Contending?
      requires item in phase && phase[item].Queued? && (Work(item) in wq0 || item in pending0) && DoneOk(phase, done)
      requires forall j :: Work(j) in wq <==> Work(j) in wq0 && j != item
      requires forall j :: j in slowIoPendingWq <==> j in pending0 && j != item
      modifies this`workers, this`selfLinked, this`phase, this`executed
      ensures PlacesOk(wq, slowIoPendingWq, workers, loopQueue, local, loopOf, phase)
      ensures OutcomesOk(phase, work, selfLinked, executed) && workers == old(workers)[i := Executing(item, slow)]
      ensures DoneOk(phase, done)
      ensures CountIf(workers, IsWaiting) == CountIf(old(workers), IsWaiting)
      ensures CountIf(workers, HoldsSlowSlot) == CountIf(old(workers), HoldsSlowSlot) + if slow then 1 else 0
      ensures Took(item, slow, i)
    {
      hide PlacesOk, OutcomesOk;
      SetWorker(workers, i, Executing(item, slow));
      TakePlaces(wq0, pending0, workers, loopQueue, local, loopOf, phase, i, item, slow, wq, slowIoPendingWq);
      TakeOutcomes(phase, work, selfLinked, executed, item);
      workers := workers[i := Executing(item, slow)];
      selfLinked, executed, phase := selfLinked + {item}, executed + {item}, phase[item := Running];
    }

    method TakeWork(i: nat)
      requires Valid() && i < |workers| && workers[i].Contending? && wq != [] && wq[0].Work?
      modifies this`wq, this`workers, this`selfLinked, this`phase, this`executed
      ensures Valid() && |workers| == |old(workers)| && wq == old(wq)[1..]
      ensures Took(old(wq)[0].item, false, i)
    {
      hide PlacesOk, OutcomesOk, WakeupsOk;
      ghost var wq0, ws0 := wq, workers;
      var item := wq[0].item;
      TailDistinct(wq);
      QueuedHead(wq, slowIoPendingWq, workers, loopQueue, local, loopOf, phase);
      wq := wq[1..];
      StartExecuting(i, item, false, wq0, slowIoPendingWq);
      WorkWakes(wq0, ws0, i, item);
    }

    /** After the callback, under the loop's mutex: hand the request to the loop. */
    method FinishWork(i: nat)
      requires Valid() && i < |workers| && workers[i].Executing?
      modifies this`workers, this`work, this`loopQueue, this`selfLinked, this`phase
      ensures Valid()
      ensures var item := old(workers[i]).item;
              && item in old(phase) && phase == old(phase)[item := Returned] && work == old(work)[item := Null]
              && loopQueue == old(loopQueue)[loopOf[item] := old(loopQueue[loopOf[item]]) + [item]]
              && selfLinked == old(selfLinked) - {item}
              && workers == old(workers)[i := Finishing(old(workers[i]).slow)]
    {
      hide PlacesOk, OutcomesOk, DoneOk, WakeupsOk, NoDuplicates;
      var item, slow := workers[i].item, workers[i].slow;
      FinishWakes(wq, workers, i);
      FinishPlaces(wq, slowIoPendingWq, workers, loopQueue, local, loopOf, phase, i, slow);
      FinishOutcomes(phase, work, selfLinked, executed, done, item);
      SetWorker(workers, i, Finishing(slow));
      work := work[item := Null];
      loopQueue := loopQueue[loopOf[item] := loopQueue[loopOf[item]] + [item]];
      selfLinked, phase := selfLinked - {item}, phase[item := Returned];
      workers := workers[i := Finishing(slow)];
    }

    /** uv__work_cancel, under both mutexes. Only the thread of the loop cancels its requests, one at a time, and not
        after their done callback. QUEUE_REMOVE takes the node out of whichever queue it is linked in. */
    method Cancel(item: Item) returns (cancelled: bool)
      requires Valid() && item in phase && !phase[item].Cancelling? && !phase[item].Completed?
      modifies this`wq, this`slowIoPendingWq, this`loopQueue, this`local, this`phase
      ensures Valid()
      ensures cancelled <==> old(phase)[item].Queued? || (!old(phase)[item].Running? && item !in executed)
      ensures cancelled ==> item !in executed && phase == old(phase)[item := Cancelling]
      ensures cancelled ==> wq == Without(old(wq), Work(item)) && slowIoPendingWq == Without(old(slowIoPendingWq), item)
      ensures !cancelled ==> item in executed && phase == old(phase) && wq == old(wq)
      ensures !cancelled ==>
                slowIoPendingWq == old(slowIoPendingWq) && loopQueue == old(loopQueue) && local == old(local)
    {
      hide PlacesOk, OutcomesOk, DoneOk, CountersOk, WakeupsOk;
      CancelTest(wq, slowIoPendingWq, workers, loopQueue, local, loopOf, phase, work, selfLinked, executed, item);
      cancelled := item !in selfLinked && !work[item].Null?;
      if cancelled {
        var l := loopOf[item];
        CancelPlaces(wq, slowIoPendingWq, workers, loopQueue, local, loopOf, phase, item);
        CancelOutcomes(phase, work, selfLinked, executed, done, item);
        CancelQueues(wq, slowIoPendingWq, item, workers);
        wq, slowIoPendingWq := Without(wq, Work(item)), Without(slowIoPendingWq, item);
        loopQueue, local := loopQueue[l := Without(loopQueue[l], item)], local[l := Without(local[l], item)];
        phase := phase[item := Cancelling];
      }
    }

    /** The rest of uv__work_cancel: mark the request and hand it to the loop. */
    method ReturnCancelled(item: Item)
      requires Valid() && item in phase && phase[item].Cancelling?
      modifies this`work, this`loopQueue, this`phase
      ensures Valid() && item in loopOf && loopOf[item] in loopQueue && item !in executed
      ensures phase == old(phase)[item := Returned] && work == old(work)[item := Cancelled]
      ensures loopOf[item] in old(loopQueue) &&
              loopQueue == old(loopQueue)[loopOf[item] := old(loopQueue)[loopOf[item]] + [item]]
    {
      hide PlacesOk, OutcomesOk, DoneOk, CountersOk, QueuesOk, WakeupsOk;
      ReturnPlaces(wq, slowIoPendingWq, workers, loopQueue, local, loopOf, phase, item);
      ReturnOutcomes(phase, work, selfLinked, executed, done, item);
      work := work[item := Cancelled];
      loopQueue := loopQueue[loopOf[item] := loopQueue[loopOf[item]] + [item]];
      phase := phase[item := Returned];
    }

    /** The start of uv__work_done: QUEUE_MOVE to the local queue. */
    method BeginWorkDone(l: Loop)
      requires Valid() && l in local && local[l] == []
      modifies this`loopQueue, this`local, this`phase
      ensures Valid() && l in old(loopQueue)
      ensures local == old(local)[l := old(loopQueue)[l]] && loopQueue == old(loopQueue)[l := []]
      ensures phase.Keys == old(phase).Keys
      ensures forall i | i in phase :: phase[i] == if i in old(loopQueue)[l] then Draining else old(phase)[i]
    {
      hide OutcomesOk, DoneOk, CountersOk, QueuesOk, WakeupsOk, PlacesOk;
      MovePlaces(wq, slowIoPendingWq, workers, loopQueue, local, loopOf, phase, l);
      MoveOutcomes(phase, work, selfLinked, executed, done, loopQueue[l]);
      phase := Drained(phase, loopQueue[l]);
      local, loopQueue := local[l := loopQueue[l]], loopQueue[l := []];
    }

    /** One turn of uv__work_done: call the done callback, with UV_ECANCELED or 0. */
    method CallDone(l: Loop) returns (item: Item, cancelled: bool)
      requires Valid() && l in local && local[l] != []
      modifies this`local, this`phase, this`done
      ensures Valid() && item == old(local)[l][0] && item !in old(done) && done == old(done) + [item]
      ensures cancelled <==> item !in executed
      ensures local == old(local)[l := old(local)[l][1..]] && phase == old(phase)[item := Completed]
    {
      hide OutcomesOk, DoneOk, CountersOk, QueuesOk, WakeupsOk, PlacesOk;
      item := local[l][0];
      DonePlaces(wq, slowIoPendingWq, workers, loopQueue, local, loopOf, phase, l);
      DoneOutcomes(phase, work, selfLinked, executed, done, item);
      cancelled := work[item] == Cancelled;
      local := local[l := local[l][1..]];
      phase, done := phase[item := Completed], done + [item];
    }

    /** The worker goes off to run the request; nobody has run it before. */
    twostate predicate Took(item: Item, slow: bool, i: nat)
      reads this
    {
      && i < |workers| && workers[i] == Executing(item, slow)
      && item in work && work[item].Callback? && item !in old(executed)
      && phase == old(phase)[item := Running] && executed == old(executed) + {item}
      && selfLinked == old(selfLinked) + {item}
    }

    /** The start of cleanup: one exit message for all workers. */
    method PostExitMessage()
      requires Valid() && Exit !in wq
      modifies this`wq, this`slowIoPendingWq, this`workers
      ensures Valid() && wq == old(wq) + [Exit] && slowIoPendingWq == old(slowIoPendingWq)
      ensures Signaled(old(workers), workers)
    {
      hide PlacesOk, OutcomesOk, CountersOk, WakeupsOk, QueuesOk;
      ghost var wq0, ws := wq, workers;
      Post(Exit, false);
      SignalPlaces(wq0, slowIoPendingWq, ws, loopQueue, local, loopOf, phase, workers);
      SameWorks(wq0, slowIoPendingWq, workers, loopQueue, local, loopOf, phase, wq);
    }

    /** Any schedule: the threads take their steps in any order; a step that is not possible is skipped. */
    method Execute(schedule: seq<Action>)
      requires Valid()
      modifies this
      ensures Valid() && old(executed) <= executed && old(done) <= done
    {
      hide *;
      for n := 0 to |schedule|
        invariant Valid() && old(executed) <= executed && old(done) <= done
      {
        Perform(schedule[n]);
      }
    }

    method Perform(a: Action)
      requires Valid()
      modifies this
      ensures Valid() && old(executed) <= executed && old(done) <= done
    {
      hide PlacesOk, OutcomesOk, QueuesOk, CountersOk, WakeupsOk, DoneOk;
      match a {
        case SubmitWork(item, loop, kind) =>
          if item !in phase && loop in loopQueue {
            Submit(item, loop, kind);
          }
        case WorkerRuns(i) =>
          if i < |workers| {
            if workers[i].Executing? {
              FinishWork(i);
            } else if !workers[i].Exited? {
              WorkerSection(i);
            }
          }
        case CancelRequest(item) =>
          if item in phase && !phase[item].Cancelling? && !phase[item].Completed? {
            var cancelled := Cancel(item);
          }
        case FinishCancel(item) =>
          if item in phase && phase[item].Cancelling? {
            ReturnCancelled(item);
          }
        case LoopWakes(l) =>
          if l in local {
            if local[l] == [] {
              BeginWorkDone(l);
            } else {
              var item, cancelled := CallDone(l);
            }
          }
        case PostExit =>
          if Exit !in wq {
            PostExitMessage();
          }
      }
    }
  }

  lemma QueuedHead(wq: seq<Node>, pending: seq<Item>, ws: seq<Worker>,
                   loopQueue: map<Loop, seq<Item>>, local: map<Loop, seq<Item>>,
                   loopOf: map<Item, Loop>, phase: map<Item, Phase>)
    requires PlacesOk(wq, pending, ws, loopQueue, local, loopOf, phase)
    ensures wq != [] && wq[0].Work? ==>
              wq[0].item in phase && phase[wq[0].item].Queued? && wq[0].item !in pending && Work(wq[0].item) in wq
    ensures pending != [] ==> pending[0] in phase && phase[pending[0]].Queued? && Work(pending[0]) !in wq
  {
    if wq != [] && wq[0].Work? {
      assert Work(wq[0].item) == wq[0];
    }
  }

  lemma SameWorks(wq: seq<Node>, pending: seq<Item>, ws: seq<Worker>,
                  loopQueue: map<Loop, seq<Item>>, local: map<Loop, seq<Item>>,
                  loopOf: map<Item, Loop>, phase: map<Item, Phase>, wq': seq<Node>)
    requires PlacesOk(wq, pending, ws, loopQueue, local, loopOf, phase)
    requires forall j :: Work(j) in wq' <==> Work(j) in wq
    ensures PlacesOk(wq', pending, ws, loopQueue, local, loopOf, phase)
  {
  }

  lemma WorksTail(wq: seq<Node>)
    requires wq != []
    ensures Works(wq) == if wq[0].Work? then [wq[0].item] + Works(wq[1..]) else Works(wq[1..])
  {
  }

  /** A queued request handed to worker i. */
  lemma TakePlaces(wq: seq<Node>, pending: seq<Item>, ws: seq<Worker>,
                   loopQueue: map<Loop, seq<Item>>, local: map<Loop, seq<Item>>,
                   loopOf: map<Item, Loop>, phase: map<Item, Phase>, i: nat, item: Item, slow: bool,
                   wq': seq<Node>, pending': seq<Item>)
    requires PlacesOk(wq, pending, ws, loopQueue, local, loopOf, phase)
    requires i < |ws| && !ws[i].Executing? && (Work(item) in wq || item in pending)
    requires forall j :: Work(j) in wq' <==> Work(j) in wq && j != item
    requires forall j :: j in pending' <==> j in pending && j != item
    ensures PlacesOk(wq', pending', ws[i := Executing(item, slow)], loopQueue, local, loopOf, phase[item := Running])
  {
    hide LoopPlaces;
    var ws' := ws[i := Executing(item, slow)];
    assert forall k | 0 <= k < |ws| && k != i && ws'[k].Executing? :: ws'[k] == ws[k] && ws'[k].item != item;
    LoopsPass(loopQueue, local, loopOf, phase, item, Running);
    forall x | x in phase && phase[x].Running? && x != item
      ensures RunBySome(ws', x)
    {
      var k :| 0 <= k < |ws| && ws[k].Executing? && ws[k].item == x;
      assert ws'[k] == ws[k];
    }
    assert ws'[i].Executing? && ws'[i].item == item;
  }

  lemma TakeOutcomes(phase: map<Item, Phase>, work: map<Item, WorkPtr>, selfLinked: set<Item>, executed: set<Item>,
                     item: Item)
    requires OutcomesOk(phase, work, selfLinked, executed) && item in phase && phase[item].Queued?
    ensures OutcomesOk(phase[item := Running], work, selfLinked + {item}, executed + {item})
    ensures item in work && work[item].Callback? && item !in executed
  {
  }

  lemma FinishPlaces(wq: seq<Node>, pending: seq<Item>, ws: seq<Worker>,
                     loopQueue: map<Loop, seq<Item>>, local: map<Loop, seq<Item>>,
                     loopOf: map<Item, Loop>, phase: map<Item, Phase>, i: nat, slow: bool)
    requires PlacesOk(wq, pending, ws, loopQueue, local, loopOf, phase) && i < |ws| && ws[i].Executing?
    ensures var item := ws[i].item;
            && item in phase && phase[item].Running? && item in loopOf && loopOf[item] in loopQueue
            && PlacesOk(wq, pending, ws[i := Finishing(slow)],
                        loopQueue[loopOf[item] := loopQueue[loopOf[item]] + [item]],
                        local, loopOf, phase[item := Returned])
  {
    hide LoopPlaces;
    var item := ws[i].item;
    var ws' := ws[i := Finishing(slow)];
    assert forall k | 0 <= k < |ws| && ws'[k].Executing? :: ws'[k] == ws[k] && ws[k].item != item;
    LoopsReturn(loopQueue, local, loopOf, phase, item);
    forall x | x in phase && phase[x].Running? && x != item
      ensures RunBySome(ws', x)
    {
      var k :| 0 <= k < |ws| && ws[k].Executing? && ws[k].item == x;
      assert ws'[k] == ws[k];
    }
  }

  lemma FinishOutcomes(phase: map<Item, Phase>, work: map<Item, WorkPtr>, selfLinked: set<Item>, executed: set<Item>,
                       done: seq<Item>, item: Item)
    requires OutcomesOk(phase, work, selfLinked, executed) && DoneOk(phase, done) && item in phase
    requires phase[item].Running?
    ensures OutcomesOk(phase[item := Returned], work[item := Null], selfLinked - {item}, executed)
    ensures DoneOk(phase[item := Returned], done)
  {
  }

  lemma CancelTest(wq: seq<Node>, pending: seq<Item>, ws: seq<Worker>,
                   loopQueue: map<Loop, seq<Item>>, local: map<Loop, seq<Item>>,
                   loopOf: map<Item, Loop>, phase: map<Item, Phase>,
                   work: map<Item, WorkPtr>, selfLinked: set<Item>, executed: set<Item>, item: Item)
    requires PlacesOk(wq, pending, ws, loopQueue, local, loopOf, phase) && OutcomesOk(phase, work, selfLinked, executed)
    requires item in phase && !phase[item].Cancelling? && !phase[item].Completed?
    ensures item in work && item in loopOf && loopOf[item] in loopQueue && loopOf[item] in local
    ensures (item !in selfLinked && !work[item].Null?)
       <==> (phase[item].Queued? || (!phase[item].Running? && item !in executed))
    ensures (item !in selfLinked && !work[item].Null?) <==> item !in executed
  {
  }

  lemma CancelPlaces(wq: seq<Node>, pending: seq<Item>, ws: seq<Worker>,
                     loopQueue: map<Loop, seq<Item>>, local: map<Loop, seq<Item>>,
                     loopOf: map<Item, Loop>, phase: map<Item, Phase>, item: Item)
    requires PlacesOk(wq, pending, ws, loopQueue, local, loopOf, phase)
    requires item in phase && !phase[item].Running? && loopOf[item] in loopQueue && loopOf[item] in local
    ensures var l := loopOf[item];
            PlacesOk(Without(wq, Work(item)), Without(pending, item), ws, loopQueue[l := Without(loopQueue[l], item)],
                     local[l := Without(local[l], item)], loopOf, phase[item := Cancelling])
  {
    hide NoDuplicates, Without, LoopPlaces;
    CancelLoops(loopQueue, local, loopOf, phase, item);
  }

  lemma CancelLoops(loopQueue: map<Loop, seq<Item>>, local: map<Loop, seq<Item>>,
                    loopOf: map<Item, Loop>, phase: map<Item, Phase>, item: Item)
    requires LoopPlaces(loopQueue, local, loopOf, phase)
    requires item in phase && loopOf[item] in loopQueue && loopOf[item] in local
    ensures var l := loopOf[item];
            LoopPlaces(loopQueue[l := Without(loopQueue[l], item)], local[l := Without(local[l], item)],
                       loopOf, phase[item := Cancelling])
  {
    hide LoopQueues;
    LoopsRemove(loopQueue, loopOf, phase, Returned, item, Cancelling);
    LoopsRemove(local, loopOf, phase, Draining, item, Cancelling);
  }

  /** One request changes phase; only the queue of its loop changes, and only by this request. */
  lemma LoopsStep(queues: map<Loop, seq<Item>>, loopOf: map<Item, Loop>, phase: map<Item, Phase>, p: Phase,
                  item: Item, p': Phase, queue: seq<Item>)
    requires SameRequests(loopOf, phase) && LoopQueues(queues, loopOf, phase, p)
    requires item in phase && loopOf[item] in queues && NoDuplicates(queue)
    requires forall y :: y in queue <==> (y in queues[loopOf[item]] && y != item) || (y == item && p' == p)
    ensures LoopQueues(queues[loopOf[item] := queue], loopOf, phase[item := p'], p)
  {
    var phase' := phase[item := p'];
    forall l | l in queues
      ensures LoopQueue(queues[loopOf[item] := queue][l], l, loopOf, phase', p)
    {
      assert LoopQueue(queues[l], l, loopOf, phase, p);
      LoopStep(queues[l], if l == loopOf[item] then queue else queues[l], l, loopOf, phase, p, item, p');
    }
  }

  lemma LoopStep(queue: seq<Item>, queue': seq<Item>, l: Loop, loopOf: map<Item, Loop>, phase: map<Item, Phase>,
                 p: Phase, item: Item, p': Phase)
    requires SameRequests(loopOf, phase) && LoopQueue(queue, l, loopOf, phase, p) && item in phase
    requires NoDuplicates(queue')
    requires if l != loopOf[item] then queue' == queue
             else forall y :: y in queue' <==> (y in queue && y != item) || (y == item && p' == p)
    ensures LoopQueue(queue', l, loopOf, phase[item := p'], p)
  {
  }

  /** A request that is in no loop's queue before or after. */
  lemma LoopsUnchanged(queues: map<Loop, seq<Item>>, loopOf: map<Item, Loop>, phase: map<Item, Phase>, p: Phase,
                       item: Item, p': Phase)
    requires SameRequests(loopOf, phase) && LoopQueues(queues, loopOf, phase, p)
    requires item in phase && loopOf[item] in queues && phase[item] != p && p' != p
    ensures LoopQueues(queues, loopOf, phase[item := p'], p)
  {
    var l := loopOf[item];
    assert LoopQueue(queues[l], l, loopOf, phase, p);
    LoopsStep(queues, loopOf, phase, p, item, p', queues[l]);
    assert queues[l := queues[l]] == queues;
  }

  lemma LoopsAppend(queues: map<Loop, seq<Item>>, loopOf: map<Item, Loop>, phase: map<Item, Phase>, p: Phase,
                    item: Item)
    requires SameRequests(loopOf, phase) && LoopQueues(queues, loopOf, phase, p)
    requires item in phase && loopOf[item] in queues && phase[item] != p
    ensures LoopQueues(queues[loopOf[item] := queues[loopOf[item]] + [item]], loopOf, phase[item := p], p)
  {
    var l := loopOf[item];
    assert LoopQueue(queues[l], l, loopOf, phase, p);
    AppendDistinct(queues[l], item);
    LoopsStep(queues, loopOf, phase, p, item, p, queues[l] + [item]);
  }

  lemma LoopsRemove(queues: map<Loop, seq<Item>>, loopOf: map<Item, Loop>, phase: map<Item, Phase>, p: Phase,
                    item: Item, p': Phase)
    requires SameRequests(loopOf, phase) && LoopQueues(queues, loopOf, phase, p)
    requires item in phase && loopOf[item] in queues && p' != p
    ensures LoopQueues(queues[loopOf[item] := Without(queues[loopOf[item]], item)], loopOf, phase[item := p'], p)
  {
    var l := loopOf[item];
    assert LoopQueue(queues[l], l, loopOf, phase, p);
    WithoutDistinct(queues[l], item);
    LoopsStep(queues, loopOf, phase, p, item, p', Without(queues[l], item));
  }

  lemma LoopsSubmit(queues: map<Loop, seq<Item>>, loopOf: map<Item, Loop>, phase: map<Item, Phase>, p: Phase,
                    item: Item, l: Loop)
    requires SameRequests(loopOf, phase) && LoopQueues(queues, loopOf, phase, p) && item !in phase && p != Queued
    ensures LoopQueues(queues, loopOf[item := l], phase[item := Queued], p)
  {
    forall l' | l' in queues
      ensures LoopQueue(queues[l'], l', loopOf[item := l], phase[item := Queued], p)
    {
      assert LoopQueue(queues[l'], l', loopOf, phase, p);
    }
  }

  lemma LoopsPass(loopQueue: map<Loop, seq<Item>>, local: map<Loop, seq<Item>>,
                  loopOf: map<Item, Loop>, phase: map<Item, Phase>, item: Item, p': Phase)
    requires LoopPlaces(loopQueue, local, loopOf, phase) && item in phase && p' != Returned && p' != Draining
    requires phase[item] != Returned && phase[item] != Draining
    ensures LoopPlaces(loopQueue, local, loopOf, phase[item := p'])
  {
    hide LoopQueues;
    LoopsUnchanged(loopQueue, loopOf, phase, Returned, item, p');
    LoopsUnchanged(local, loopOf, phase, Draining, item, p');
  }

  lemma LoopsReturn(loopQueue: map<Loop, seq<Item>>, local: map<Loop, seq<Item>>,
                    loopOf: map<Item, Loop>, phase: map<Item, Phase>, item: Item)
    requires LoopPlaces(loopQueue, local, loopOf, phase) && item in phase
    requires phase[item] != Returned && phase[item] != Draining
    ensures item in loopOf && loopOf[item] in loopQueue
    ensures LoopPlaces(loopQueue[loopOf[item] := loopQueue[loopOf[item]] + [item]], local, loopOf,
                       phase[item := Returned])
  {
    hide LoopQueues;
    LoopsAppend(loopQueue, loopOf, phase, Returned, item);
    LoopsUnchanged(local, loopOf, phase, Draining, item, Returned);
  }

  lemma LoopsDone(loopQueue: map<Loop, seq<Item>>, local: map<Loop, seq<Item>>,
                  loopOf: map<Item, Loop>, phase: map<Item, Phase>, l: Loop)
    requires LoopPlaces(loopQueue, local, loopOf, phase) && l in local && local[l] != []
    ensures local[l][0] in phase && phase[local[l][0]].Draining?
    ensures LoopPlaces(loopQueue, local[l := local[l][1..]], loopOf, phase[local[l][0] := Completed])
  {
    var item := local[l][0];
    assert LoopQueue(local[l], l, loopOf, phase, Draining);
    TailDistinct(local[l]);
    hide LoopQueues;
    LoopsStep(local, loopOf, phase, Draining, item, Completed, local[l][1..]);
    LoopsUnchanged(loopQueue, loopOf, phase, Returned, item, Completed);
  }

  lemma LoopsSubmitted(loopQueue: map<Loop, seq<Item>>, local: map<Loop, seq<Item>>,
                       loopOf: map<Item, Loop>, phase: map<Item, Phase>, item: Item, l: Loop)
    requires LoopPlaces(loopQueue, local, loopOf, phase) && item !in phase && l in loopQueue
    ensures LoopPlaces(loopQueue, local, loopOf[item := l], phase[item := Queued])
  {
    hide LoopQueues;
    LoopsSubmit(loopQueue, loopOf, phase, Returned, item, l);
    LoopsSubmit(local, loopOf, phase, Draining, item, l);
  }

  lemma LoopsMove(loopQueue: map<Loop, seq<Item>>, local: map<Loop, seq<Item>>,
                  loopOf: map<Item, Loop>, phase: map<Item, Phase>, l: Loop)
    requires LoopPlaces(loopQueue, local, loopOf, phase) && l in local && local[l] == []
    ensures l in loopQueue && forall i | i in loopQueue[l] :: i in phase && phase[i].Returned?
    ensures LoopPlaces(loopQueue[l := []], local[l := loopQueue[l]], loopOf, Drained(phase, loopQueue[l]))
  {
    hide LoopQueues;
    MoveOut(loopQueue, loopOf, phase, l);
    MoveIn(loopQueue, local, loopOf, phase, l);
  }

  lemma MoveOut(loopQueue: map<Loop, seq<Item>>, loopOf: map<Item, Loop>, phase: map<Item, Phase>, l: Loop)
    requires SameRequests(loopOf, phase) && LoopQueues(loopQueue, loopOf, phase, Returned) && l in loopQueue
    ensures forall i | i in loopQueue[l] :: i in phase && phase[i].Returned?
    ensures LoopQueues(loopQueue[l := []], loopOf, Drained(phase, loopQueue[l]), Returned)
  {
    assert LoopQueue(loopQueue[l], l, loopOf, phase, Returned);
    forall l' | l' in loopQueue
      ensures LoopQueue(loopQueue[l := []][l'], l', loopOf, Drained(phase, loopQueue[l]), Returned)
    {
      assert LoopQueue(loopQueue[l'], l', loopOf, phase, Returned);
    }
  }

  lemma MoveIn(loopQueue: map<Loop, seq<Item>>, local: map<Loop, seq<Item>>,
               loopOf: map<Item, Loop>, phase: map<Item, Phase>, l: Loop)
    requires SameRequests(loopOf, phase) && LoopQueues(loopQueue, loopOf, phase, Returned) && l in loopQueue
    requires LoopQueues(local, loopOf, phase, Draining) && l in local && local[l] == []
    ensures LoopQueues(local[l := loopQueue[l]], loopOf, Drained(phase, loopQueue[l]), Draining)
  {
    assert LoopQueue(loopQueue[l], l, loopOf, phase, Returned);
    assert LoopQueue(local[l], l, loopOf, phase, Draining);
    forall l' | l' in local
      ensures LoopQueue(local[l := loopQueue[l]][l'], l', loopOf, Drained(phase, loopQueue[l]), Draining)
    {
      assert LoopQueue(local[l'], l', loopOf, phase, Draining);
    }
  }

  lemma CancelOutcomes(phase: map<Item, Phase>, work: map<Item, WorkPtr>, selfLinked: set<Item>, executed: set<Item>,
                       done: seq<Item>, item: Item)
    requires OutcomesOk(phase, work, selfLinked, executed) && DoneOk(phase, done)
    requires item in phase && !phase[item].Running? && !phase[item].Completed? && !work[item].Null?
    ensures OutcomesOk(phase[item := Cancelling], work, selfLinked, executed) && DoneOk(phase[item := Cancelling], done)
  {
  }

  /** Cancelling never creates something to do. */
  lemma CancelQueues(wq: seq<Node>, pending: seq<Item>, item: Item, ws: seq<Worker>)
    requires QueuesOk(wq, pending) && WakeupsOk(wq, ws)
    ensures QueuesOk(Without(wq, Work(item)), Without(pending, item))
    ensures WakeupsOk(Without(wq, Work(item)), ws)
  {
    WithoutDistinct(wq, Work(item));
    WithoutDistinct(pending, item);
    NeededWithout(wq, item, CountIf(ws, RunsSlow) < Threshold(|ws|));
    if pending == [] {
      assert Without(pending, item) == [];
    }
  }

  lemma ReturnPlaces(wq: seq<Node>, pending: seq<Item>, ws: seq<Worker>,
                     loopQueue: map<Loop, seq<Item>>, local: map<Loop, seq<Item>>,
                     loopOf: map<Item, Loop>, phase: map<Item, Phase>, item: Item)
    requires PlacesOk(wq, pending, ws, loopQueue, local, loopOf, phase) && item in phase && phase[item].Cancelling?
    ensures item in loopOf && loopOf[item] in loopQueue
    ensures PlacesOk(wq, pending, ws, loopQueue[loopOf[item] := loopQueue[loopOf[item]] + [item]], local, loopOf,
                     phase[item := Returned])
  {
    hide LoopPlaces;
    LoopsReturn(loopQueue, local, loopOf, phase, item);
  }

  lemma ReturnOutcomes(phase: map<Item, Phase>, work: map<Item, WorkPtr>, selfLinked: set<Item>, executed: set<Item>,
                       done: seq<Item>, item: Item)
    requires OutcomesOk(phase, work, selfLinked, executed) && DoneOk(phase, done) && item in phase
    requires phase[item].Cancelling?
    ensures OutcomesOk(phase[item := Returned], work[item := Cancelled], selfLinked, executed)
    ensures DoneOk(phase[item := Returned], done) && item !in executed
  {
  }

  function Drained(phase: map<Item, Phase>, items: seq<Item>): map<Item, Phase> {
    map i | i in phase :: if i in items then Draining else phase[i]
  }

  lemma MovePlaces(wq: seq<Node>, pending: seq<Item>, ws: seq<Worker>,
                   loopQueue: map<Loop, seq<Item>>, local: map<Loop, seq<Item>>,
                   loopOf: map<Item, Loop>, phase: map<Item, Phase>, l: Loop)
    requires PlacesOk(wq, pending, ws, loopQueue, local, loopOf, phase) && l in local && local[l] == []
    ensures l in loopQueue && forall i | i in loopQueue[l] :: i in phase && phase[i].Returned?
    ensures PlacesOk(wq, pending, ws, loopQueue[l := []], local[l := loopQueue[l]], loopOf,
                     Drained(phase, loopQueue[l]))
  {
    hide LoopPlaces;
    LoopsMove(loopQueue, local, loopOf, phase, l);
  }

  lemma MoveOutcomes(phase: map<Item, Phase>, work: map<Item, WorkPtr>, selfLinked: set<Item>, executed: set<Item>,
                     done: seq<Item>, items: seq<Item>)
    requires OutcomesOk(phase, work, selfLinked, executed) && DoneOk(phase, done)
    requires forall i | i in items :: i in phase && phase[i].Returned?
    ensures OutcomesOk(Drained(phase, items), work, selfLinked, executed) && DoneOk(Drained(phase, items), done)
  {
  }

  lemma DonePlaces(wq: seq<Node>, pending: seq<Item>, ws: seq<Worker>,
                   loopQueue: map<Loop, seq<Item>>, local: map<Loop, seq<Item>>,
                   loopOf: map<Item, Loop>, phase: map<Item, Phase>, l: Loop)
    requires PlacesOk(wq, pending, ws, loopQueue, local, loopOf, phase) && l in local && local[l] != []
    ensures local[l][0] in phase && phase[local[l][0]].Draining?
    ensures PlacesOk(wq, pending, ws, loopQueue, local[l := local[l][1..]], loopOf, phase[local[l][0] := Completed])
  {
    hide LoopPlaces;
    LoopsDone(loopQueue, local, loopOf, phase, l);
  }

  lemma DoneOutcomes(phase: map<Item, Phase>, work: map<Item, WorkPtr>, selfLinked: set<Item>, executed: set<Item>,
                     done: seq<Item>, item: Item)
    requires OutcomesOk(phase, work, selfLinked, executed) && DoneOk(phase, done) && item in phase
    requires phase[item].Draining?
    ensures OutcomesOk(phase[item := Completed], work, selfLinked, executed)
    ensures DoneOk(phase[item := Completed], done + [item]) && item !in done
    ensures item in work && (work[item] == Cancelled <==> item !in executed)
  {
    AppendDistinct(done, item);
  }

  lemma SetWorker(ws: seq<Worker>, i: nat, w: Worker)
    requires i < |ws|
    ensures CountIf(ws[i := w], IsWaiting) ==
              CountIf(ws, IsWaiting) - (if IsWaiting(ws[i]) then 1 else 0) + if IsWaiting(w) then 1 else 0
    ensures CountIf(ws[i := w], HoldsSlowSlot) ==
              CountIf(ws, HoldsSlowSlot) - (if HoldsSlowSlot(ws[i]) then 1 else 0) + if HoldsSlowSlot(w) then 1 else 0
  {
    CountUpdate(ws, IsWaiting, i, w);
    CountUpdate(ws, HoldsSlowSlot, i, w);
  }

  /** A worker that runs no request before or after. */
  lemma WorkerPlaces(wq: seq<Node>, pending: seq<Item>, ws: seq<Worker>,
                     loopQueue: map<Loop, seq<Item>>, local: map<Loop, seq<Item>>,
                     loopOf: map<Item, Loop>, phase: map<Item, Phase>, i: nat, w: Worker)
    requires PlacesOk(wq, pending, ws, loopQueue, local, loopOf, phase)
    requires i < |ws| && !ws[i].Executing? && !w.Executing?
    ensures PlacesOk(wq, pending, ws[i := w], loopQueue, local, loopOf, phase)
  {
    hide LoopPlaces;
    assert forall k | 0 <= k < |ws| && ws[i := w][k].Executing? :: ws[i := w][k] == ws[k];
    forall x | x in phase && phase[x].Running?
      ensures RunBySome(ws[i := w], x)
    {
      var k :| 0 <= k < |ws| && ws[k].Executing? && ws[k].item == x;
      assert ws[i := w][k] == ws[k];
    }
  }

  lemma SignalPlaces(wq: seq<Node>, pending: seq<Item>, ws: seq<Worker>,
                     loopQueue: map<Loop, seq<Item>>, local: map<Loop, seq<Item>>,
                     loopOf: map<Item, Loop>, phase: map<Item, Phase>, ws': seq<Worker>)
    requires PlacesOk(wq, pending, ws, loopQueue, local, loopOf, phase) && SameButWaiting(ws, ws')
    ensures PlacesOk(wq, pending, ws', loopQueue, local, loopOf, phase)
  {
    hide LoopPlaces;
    assert forall k | 0 <= k < |ws| && ws'[k].Executing? :: ws'[k] == ws[k];
    forall x | x in phase && phase[x].Running?
      ensures RunBySome(ws', x)
    {
      var k :| 0 <= k < |ws| && ws[k].Executing? && ws[k].item == x;
      assert ws'[k] == ws[k];
    }
  }

  lemma WorksOf(wq: seq<Node>, item: Item)
    ensures Works(wq + [Work(item)]) == Works(wq) + [item] && Works(wq + [RunSlow]) == Works(wq)
  {
    WorksAppend(wq, [Work(item)]);
    WorksAppend(wq, [RunSlow]);
  }

  lemma NotQueued(wq: seq<Node>, pending: seq<Item>, ws: seq<Worker>,
                  loopQueue: map<Loop, seq<Item>>, local: map<Loop, seq<Item>>,
                  loopOf: map<Item, Loop>, phase: map<Item, Phase>, item: Item)
    requires PlacesOk(wq, pending, ws, loopQueue, local, loopOf, phase)
    requires item !in phase || !phase[item].Queued?
    ensures Work(item) !in wq && item !in pending
  {
  }

  lemma SubmitOutcomes(phase: map<Item, Phase>, work: map<Item, WorkPtr>, selfLinked: set<Item>, executed: set<Item>,
                       item: Item)
    requires OutcomesOk(phase, work, selfLinked, executed) && item !in phase
    ensures OutcomesOk(phase[item := Queued], work[item := Callback], selfLinked, executed)
  {
  }

  lemma SubmitPlaces(wq: seq<Node>, pending: seq<Item>, ws: seq<Worker>,
                     loopQueue: map<Loop, seq<Item>>, local: map<Loop, seq<Item>>,
                     loopOf: map<Item, Loop>, phase: map<Item, Phase>, item: Item, loop: Loop,
                     wq': seq<Node>, pending': seq<Item>, ws': seq<Worker>)
    requires PlacesOk(wq, pending, ws, loopQueue, local, loopOf, phase) && item !in phase && loop in loopQueue
    requires SameButWaiting(ws, ws')
    requires (pending' == pending + [item] && forall i :: Work(i) in wq' <==> Work(i) in wq)
          || (pending' == pending && forall i :: Work(i) in wq' <==> Work(i) in wq || i == item)
    ensures PlacesOk(wq', pending', ws', loopQueue, local, loopOf[item := loop], phase[item := Queued])
  {
    hide LoopPlaces;
    assert forall k | 0 <= k < |ws| && ws'[k].Executing? :: ws[k] == ws'[k];
    LoopsSubmitted(loopQueue, local, loopOf, phase, item, loop);
    forall x | x in phase && phase[x].Running?
      ensures RunBySome(ws', x)
    {
      var k :| 0 <= k < |ws| && ws[k].Executing? && ws[k].item == x;
      assert ws'[k] == ws[k];
    }
  }

  lemma NoneSleeping(ws: seq<Worker>)
    requires CountIf(ws, IsWaiting) == 0
    ensures CountIf(ws, Sleeps) == 0 && Signaled(ws, ws)
  {
    forall i | 0 <= i < |ws|
      ensures !IsWaiting(ws[i])
    {
      if IsWaiting(ws[i]) {
        CountZero(ws, IsWaiting, i);
      }
    }
    NoneCounted(ws, Sleeps);
  }

  /** Signals only change waiting workers, and only to having been signaled. */
  ghost predicate SameButWaiting(before: seq<Worker>, after: seq<Worker>) {
    |before| == |after| &&
    forall i | 0 <= i < |before| :: before[i] == after[i] || (before[i].Waiting? && after[i].Waiting?)
  }

  lemma {:induction false} NoneCounted(ws: seq<Worker>, p: Worker -> bool)
    requires forall i | 0 <= i < |ws| :: !p(ws[i])
    ensures CountIf(ws, p) == 0
  {
    if ws != [] {
      NoneCounted(ws[..|ws| - 1], p);
    }
  }

  lemma WhatIsDecided(wq: seq<Node>, pending: seq<Item>, room: bool)
    requires QueuesOk(wq, pending)
    ensures wq == [] || (wq == [RunSlow] && !room) ==> Decides(wq, pending, room, Waiting(false))
    ensures wq != [] && wq[0].Exit? ==> Decides(wq, pending, room, Exited)
    ensures wq != [] && wq[0].Work? ==> Decides(wq, pending, room, Executing(wq[0].item, false))
    ensures wq != [] && wq[0].RunSlow? && pending != [] && room ==>
              Decides(wq, pending, room, Executing(pending[0], true))
    ensures wq != [] && wq[0].RunSlow? && !(pending != [] && room) && (|wq| > 1 || room) ==>
              forall w :: Decides(wq[1..] + (if room then [] else [RunSlow]), pending, room, w) ==>
                            Decides(wq, pending, room, w)
  {
  }

  // ----- wakeups -----

  ghost predicate WokenAt(before: seq<Worker>, after: seq<Worker>, i: nat) {
    i < |before| && before[i] == Waiting(false) && after == before[i := Waiting(true)]
  }

  /** One sleeper is woken, if there is one. */
  ghost predicate Signaled(before: seq<Worker>, after: seq<Worker>) {
    if exists i :: 0 <= i < |before| && before[i] == Waiting(false) then exists i: nat :: WokenAt(before, after, i)
    else after == before
  }

  lemma SetLooks(ws: seq<Worker>, i: nat, w: Worker)
    requires i < |ws|
    ensures CountIf(ws[i := w], Sleeps) ==
              CountIf(ws, Sleeps) - (if Sleeps(ws[i]) then 1 else 0) + if Sleeps(w) then 1 else 0
    ensures CountIf(ws[i := w], Looks) ==
              CountIf(ws, Looks) - (if Looks(ws[i]) then 1 else 0) + if Looks(w) then 1 else 0
    ensures CountIf(ws[i := w], RunsSlow) ==
              CountIf(ws, RunsSlow) - (if RunsSlow(ws[i]) then 1 else 0) + if RunsSlow(w) then 1 else 0
  {
    CountUpdate(ws, Sleeps, i, w);
    CountUpdate(ws, Looks, i, w);
    CountUpdate(ws, RunsSlow, i, w);
  }

  lemma SignaledCounts(before: seq<Worker>, after: seq<Worker>)
    requires Signaled(before, after)
    ensures |after| == |before|
    ensures CountIf(after, IsWaiting) == CountIf(before, IsWaiting)
    ensures CountIf(after, HoldsSlowSlot) == CountIf(before, HoldsSlowSlot)
    ensures CountIf(after, RunsSlow) == CountIf(before, RunsSlow)
    ensures if CountIf(before, Sleeps) == 0 then after == before
            else CountIf(after, Looks) == CountIf(before, Looks) + 1
  {
    if i: nat :| WokenAt(before, after, i) {
      SetWorker(before, i, Waiting(true));
      SetLooks(before, i, Waiting(true));
    } else {
      NoneCounted(before, Sleeps);
    }
  }

  /** A held slot is one of a running slow request, or of a worker about to give it back. */
  lemma {:induction false} HeldSlots(ws: seq<Worker>)
    ensures CountIf(ws, RunsSlow) <= CountIf(ws, HoldsSlowSlot) <= CountIf(ws, RunsSlow) + CountIf(ws, Looks)
  {
    if ws != [] {
      HeldSlots(ws[..|ws| - 1]);
    }
  }

  lemma {:induction false} NeededAppend(wq: seq<Node>, q: Node, room: bool)
    ensures Needed(wq + [q], room) <= Needed(wq, room) + if q.RunSlow? && !room then 0 else 1
  {
    if wq != [] {
      assert (wq + [q])[1..] == wq[1..] + [q];
      NeededAppend(wq[1..], q, room);
    }
  }

  lemma {:induction false} NeededRoom(wq: seq<Node>)
    requires NoDuplicates(wq)
    ensures Needed(wq, false) <= Needed(wq, true) <= Needed(wq, false) + if RunSlow in wq then 1 else 0
  {
    if wq != [] {
      TailDistinct(wq);
      NeededRoom(wq[1..]);
    }
  }

  lemma {:induction false} NeededWithout(wq: seq<Node>, item: Item, room: bool)
    ensures Needed(Without(wq, Work(item)), room) <= Needed(wq, room)
  {
    if wq != [] {
      var tail := Without(wq[1..], Work(item));
      NeededWithout(wq[1..], item, room);
      if wq[0] == Work(item) {
        assert Without(wq, Work(item)) == tail;
      } else {
        assert Without(wq, Work(item))[1..] == tail;
      }
    }
  }

  lemma {:induction false} NeededWorks(wq: seq<Node>, room: bool)
    requires Exit !in wq
    ensures |Works(wq)| <= Needed(wq, room)
  {
    if wq != [] {
      NeededWorks(wq[1..], room);
    }
  }

  lemma {:induction false} NothingNeeded(wq: seq<Node>, room: bool)
    requires NoDuplicates(wq) && Needed(wq, room) == 0
    ensures wq == [] || (wq == [RunSlow] && !room)
  {
    if wq != [] {
      TailDistinct(wq);
      NothingNeeded(wq[1..], room);
    }
  }

  lemma PostWakes(wq: seq<Node>, q: Node, ws: seq<Worker>, ws': seq<Worker>)
    requires WakeupsOk(wq, ws)
    requires Signaled(ws, ws') || (ws == ws' && CountIf(ws, Sleeps) == 0)
    ensures WakeupsOk(wq + [q], ws')
  {
    NeededAppend(wq, q, CountIf(ws, RunsSlow) < Threshold(|ws|));
    if Signaled(ws, ws') {
      SignaledCounts(ws, ws');
    }
  }

  lemma MutexWakes(wq: seq<Node>, ws: seq<Worker>, i: nat)
    requires WakeupsOk(wq, ws) && i < |ws| && (ws[i].Contending? || ws[i].Waiting? || ws[i].Finishing?)
    ensures WakeupsOk(wq, ws[i := Contending])
  {
    SetLooks(ws, i, Contending);
  }

  lemma WaitWakes(wq: seq<Node>, slowRunning: nat, ws: seq<Worker>, i: nat)
    requires slowRunning == CountIf(ws, HoldsSlowSlot) && i < |ws| && ws[i].Contending?
    requires Blocked(wq, slowRunning, |ws|)
    ensures WakeupsOk(wq, ws[i := Waiting(false)])
  {
    var ws' := ws[i := Waiting(false)];
    SetWorker(ws, i, Waiting(false));
    HeldSlots(ws');
    if wq != [] {
      assert wq[1..] == [];
    }
  }

  lemma ExitWakes(wq: seq<Node>, ws: seq<Worker>, i: nat, ws': seq<Worker>)
    requires WakeupsOk(wq, ws) && i < |ws| && ws[i].Contending? && wq != [] && wq[0].Exit?
    requires Signaled(ws[i := Exited], ws')
    ensures WakeupsOk(wq, ws')
  {
    SetLooks(ws, i, Exited);
    SignaledCounts(ws[i := Exited], ws');
  }

  /** The message for slow requests is put behind the rest, or dropped. */
  lemma PassWakes(wq: seq<Node>, ws: seq<Worker>)
    requires WakeupsOk(wq, ws) && wq != [] && wq[0].RunSlow?
    ensures WakeupsOk(wq[1..], ws) && WakeupsOk(wq[1..] + [RunSlow], ws)
  {
    NeededAppend(wq[1..], RunSlow, CountIf(ws, RunsSlow) < Threshold(|ws|));
  }

  lemma WorkWakes(wq: seq<Node>, ws: seq<Worker>, i: nat, item: Item)
    requires WakeupsOk(wq, ws) && i < |ws| && ws[i].Contending? && wq != [] && wq[0].Work?
    ensures WakeupsOk(wq[1..], ws[i := Executing(item, false)])
  {
    SetLooks(ws, i, Executing(item, false));
  }

  lemma SlowWakes(wq: seq<Node>, ws: seq<Worker>, i: nat, item: Item, more: bool,
                  wq': seq<Node>, ws1: seq<Worker>, ws': seq<Worker>)
    requires WakeupsOk([RunSlow] + wq, ws) && i < |ws| && ws[i].Contending? && NoDuplicates(wq)
    requires CountIf(ws, HoldsSlowSlot) < Threshold(|ws|)
    requires wq' == wq + (if more then [RunSlow] else []) && ws1 == ws[i := Executing(item, true)]
    requires (more && Signaled(ws1, ws')) || (ws1 == ws' && (!more || CountIf(ws1, Sleeps) == 0))
    ensures WakeupsOk(wq', ws')
  {
    assert ([RunSlow] + wq)[1..] == wq;
    HeldSlots(ws);
    SetLooks(ws, i, Executing(item, true));
    NeededRoom(wq);
    NeededAppend(wq, RunSlow, CountIf(ws1, RunsSlow) < Threshold(|ws|));
    if more && Signaled(ws1, ws') {
      SignaledCounts(ws1, ws');
    }
    assert !more ==> wq' == wq;
  }

  lemma FinishWakes(wq: seq<Node>, ws: seq<Worker>, i: nat)
    requires WakeupsOk(wq, ws) && i < |ws| && ws[i].Executing? && NoDuplicates(wq)
    ensures WakeupsOk(wq, ws[i := Finishing(ws[i].slow)])
  {
    SetLooks(ws, i, Finishing(ws[i].slow));
    NeededRoom(wq);
  }

  // ----- what the invariant says -----

  /** What holds in every reachable state in which the mutex is free. */
  lemma ReachableStatesAreSafe(p: Pool)
    requires p.Valid()
    ensures p.slowIoWorkRunning == CountIf(p.workers, HoldsSlowSlot) <= (|p.workers| + 1) / 2
    ensures p.slowIoPendingWq != [] ==> RunSlow in p.wq
    ensures forall i | i in p.phase && p.phase[i].Completed? :: i in p.executed <==> p.work[i] != Cancelled
    ensures forall i | i in p.phase && p.work[i] == Cancelled :: i !in p.executed
    ensures NoDuplicates(p.done)
    ensures forall i | i in p.phase && p.phase[i].Running? :: RunBySome(p.workers, i)
    ensures (forall i | 0 <= i < |p.workers| :: p.workers[i] == Waiting(false)) ==> p.wq == []
  {
    hide WakeupsOk;
    if forall i | 0 <= i < |p.workers| :: p.workers[i] == Waiting(false) {
      NoneCounted(p.workers, HoldsSlowSlot);
      NoneCounted(p.workers, Looks);
      WorkersOnlySleepWhenIdle(p, 0);
    }
  }

  /** No lost wakeup. While some worker sleeps, at least as many workers are about to look at the queue as it holds
      requests; and when no worker is about to look at it, it is empty, or holds only the message for slow requests
      while exactly (n + 1) / 2 slow requests are in their callbacks. */
  lemma WorkersOnlySleepWhenIdle(p: Pool, i: nat)
    requires p.Valid() && i < |p.workers| && p.workers[i] == Waiting(false)
    ensures Exit !in p.wq ==> |Works(p.wq)| <= CountIf(p.workers, Looks)
    ensures CountIf(p.workers, Looks) == 0 ==>
              || (p.wq == [] && p.slowIoPendingWq == [])
              || (p.wq == [RunSlow] && CountIf(p.workers, RunsSlow) == p.slowIoWorkRunning == (|p.workers| + 1) / 2)
  {
    var room := CountIf(p.workers, RunsSlow) < Threshold(|p.workers|);
    CountZero(p.workers, Sleeps, i);
    if Exit !in p.wq {
      NeededWorks(p.wq, room);
    }
    if CountIf(p.workers, Looks) == 0 {
      NothingNeeded(p.wq, room);
      HeldSlots(p.workers);
    }
  }
}
