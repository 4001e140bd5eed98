/** Blocking communication: queues of items with threads waiting for them, as in channels (messages and
    file descriptors) and input files (events). */
module Ipc {
  import opened LinkedList
  import opened Scheduler
  import opened Sequences

  /** The events an input file holds before it drops further ones. */
  const EVENT_CAPACITY: nat := 200

  /** A queue of items and the threads that wait for the first of them. */
  datatype Box = Box(items: seq<nat>, waiters: seq<nat>)

  datatype System = System(sched: State, boxes: map<nat, Box>)

  // -------------------------------------------------------------------------------- operations

  ghost predicate AllKnown(s: State, ws: seq<nat>) {
    forall t :: t in ws ==> t in s.threads
  }

  /** Wake every waiter, in order. */
  ghost function WakeAll(s: State, ws: seq<nat>): (s': State)
    requires AllKnown(s, ws)
    ensures s'.threads.Keys == s.threads.Keys
    decreases |ws|
  {
    if ws == [] then s else WakeAll(WakeUp(s, ws[0]), ws[1..])
  }

  ghost predicate WaitersKnown(y: System) {
    forall b :: b in y.boxes ==> AllKnown(y.sched, y.boxes[b].waiters)
  }

  /** Put an item into a queue and wake all that wait there. */
  ghost function Deliver(y: System, b: nat, item: nat): (y': System)
    requires WaitersKnown(y) && b in y.boxes
    ensures WaitersKnown(y') && y'.boxes.Keys == y.boxes.Keys
  {
    System(WakeAll(y.sched, y.boxes[b].waiters), y.boxes[b := Box(y.boxes[b].items + [item], [])])
  }

  /** The fan-out of a channel: deliver to every endpoint but the sender's. */
  ghost function Broadcast(y: System, ends: seq<nat>, self: nat, item: nat): (y': System)
    requires WaitersKnown(y) && forall b :: b in ends ==> b in y.boxes
    ensures WaitersKnown(y') && y'.boxes.Keys == y.boxes.Keys
    decreases |ends|
  {
    if ends == [] then y
    else Broadcast(if ends[0] == self then y else Deliver(y, ends[0], item), ends[1..], self, item)
  }

  /** input_file_emit: a full queue drops the event. */
  ghost function Emit(y: System, b: nat, event: nat): System
    requires WaitersKnown(y) && b in y.boxes
  {
    if |y.boxes[b].items| == EVENT_CAPACITY then y else Deliver(y, b, event)
  }

  /** One pass of a read that finds nothing: the running thread is queued as a waiter and blocks. */
  function Wait(y: System, b: nat): System
    requires ThreadRuns(y.sched) && b in y.boxes
  {
    System(Block(y.sched), y.boxes[b := y.boxes[b].(waiters := y.boxes[b].waiters + [y.sched.current.value])])
  }

  /** A read that takes the first item. */
  function Take(y: System, b: nat): System
    requires b in y.boxes && y.boxes[b].items != []
  {
    y.(boxes := y.boxes[b := y.boxes[b].(items := y.boxes[b].items[1..])])
  }

  // --------------------------------------------------------------------------------- invariant

  ghost predicate WaitsAt(y: System, t: nat, b: nat) {
    b in y.boxes && t in y.boxes[b].waiters
  }

  /** Nobody waits where there is something to take. */
  ghost predicate NoMissedItems(y: System) {
    forall b :: b in y.boxes ==> Distinct(y.boxes[b].waiters) && (y.boxes[b].waiters != [] ==> y.boxes[b].items == [])
  }

  ghost predicate IsBlocked(s: State, t: nat) {
    t in s.threads && s.threads[t].state.Blocked?
  }

  /** A thread is blocked exactly if it waits somewhere, and it waits in one place only. */
  ghost predicate BlockedWait(y: System) {
    && (forall t, b :: WaitsAt(y, t, b) ==> IsBlocked(y.sched, t))
    && (forall t :: IsBlocked(y.sched, t) ==> exists b :: WaitsAt(y, t, b))
    && (forall t, b, c :: WaitsAt(y, t, b) && WaitsAt(y, t, c) ==> b == c)
  }

  ghost predicate Sound(y: System) {
    Inv(y.sched) && NoMissedItems(y) && BlockedWait(y)
  }

  lemma WaitersAreKnown(y: System)
    requires BlockedWait(y)
    ensures WaitersKnown(y)
  {
    forall b | b in y.boxes ensures AllKnown(y.sched, y.boxes[b].waiters) {
      forall t | t in y.boxes[b].waiters ensures t in y.sched.threads { assert WaitsAt(y, t, b); }
    }
  }

  // ------------------------------------------------------------------------------ preservation

  /** Waking threads that are blocked queues them behind the others, in order. */
  lemma {:induction false} WakeAllKeeps(s: State, ws: seq<nat>)
    requires Inv(s) && Distinct(ws) && forall t :: t in ws ==> IsBlocked(s, t)
    ensures AllKnown(s, ws)
    ensures var u := WakeAll(s, ws);
      && Inv(u) && u.queue == s.queue + ws && u.current == s.current
      && (forall t :: t in s.threads ==> u.threads[t] == if t in ws then Thread(Suspended, true) else s.threads[t])
    decreases |ws|
  {
    hide Inv, WakeUp;
    if ws != [] {
      assert ws[0] in ws;
      WakeKeeps(s, ws[0]);
      assert ws == [ws[0]] + ws[1..];
      var v := WakeUp(s, ws[0]);
      forall t | t in ws[1..] ensures t != ws[0] && IsBlocked(v, t) {
        assert t in ws && IsBlocked(s, t);
      }
      WakeAllKeeps(v, ws[1..]);
      assert WakeAll(s, ws) == WakeAll(v, ws[1..]);
      assert v.queue + ws[1..] == s.queue + ws;
    }
  }

  /** A delivery leaves nobody waiting at the queue: its waiters are on the run queue. */
  lemma DeliverKeeps(y: System, b: nat, item: nat)
    requires Sound(y) && b in y.boxes && WaitersKnown(y)
    ensures var z := Deliver(y, b, item);
      && Sound(z) && z.sched.queue == y.sched.queue + y.boxes[b].waiters && z.sched.current == y.sched.current
      && z.boxes == y.boxes[b := Box(y.boxes[b].items + [item], [])]
  {
    hide Inv, WakeAll;
    var ws := y.boxes[b].waiters;
    forall t | t in ws ensures WaitsAt(y, t, b) && IsBlocked(y.sched, t) { }
    WakeAllKeeps(y.sched, ws);
    var z := Deliver(y, b, item);
    forall t, c | WaitsAt(z, t, c) ensures IsBlocked(z.sched, t) && c != b && WaitsAt(y, t, c) {
      assert WaitsAt(y, t, c);
    }
    forall t | IsBlocked(z.sched, t) ensures exists c :: WaitsAt(z, t, c) {
      assert IsBlocked(y.sched, t);
      var c :| WaitsAt(y, t, c);
      assert WaitsAt(z, t, c);
    }
  }

  lemma {:induction false} BroadcastKeeps(y: System, ends: seq<nat>, self: nat, item: nat)
    requires Sound(y) && WaitersKnown(y) && forall b :: b in ends ==> b in y.boxes
    ensures Sound(Broadcast(y, ends, self, item)) && Broadcast(y, ends, self, item).sched.current == y.sched.current
    ensures y.sched.queue <= Broadcast(y, ends, self, item).sched.queue
    decreases |ends|
  {
    hide Sound, Deliver, WaitersKnown;
    if ends != [] {
      if ends[0] == self {
        BroadcastKeeps(y, ends[1..], self, item);
      } else {
        DeliverKeeps(y, ends[0], item);
        BroadcastKeeps(Deliver(y, ends[0], item), ends[1..], self, item);
      }
    }
  }

  /** The fan-out reaches every other endpoint once, and leaves all that waited there on the run queue. */
  lemma {:induction false} BroadcastWakes(y: System, ends: seq<nat>, self: nat, item: nat, b: nat)
    requires Sound(y) && WaitersKnown(y) && Distinct(ends) && (forall a :: a in ends ==> a in y.boxes)
    requires b in ends && b != self
    ensures var z := Broadcast(y, ends, self, item);
      && z.boxes[b] == Box(y.boxes[b].items + [item], [])
      && forall t :: t in y.boxes[b].waiters ==> t in z.sched.queue
    decreases |ends|
  {
    hide Sound, Deliver, WaitersKnown;
    assert ends == [ends[0]] + ends[1..];
    var v := if ends[0] == self then y else Deliver(y, ends[0], item);
    if ends[0] != self { DeliverKeeps(y, ends[0], item); }
    if ends[0] == b {
      BroadcastKeeps(v, ends[1..], self, item);
      BroadcastSpares(v, ends[1..], self, item, b);
      forall t | t in y.boxes[b].waiters ensures t in Broadcast(v, ends[1..], self, item).sched.queue {
        assert t in v.sched.queue;
      }
    } else {
      BroadcastWakes(v, ends[1..], self, item, b);
    }
  }

  /** And no other queue. */
  lemma {:induction false} BroadcastSpares(y: System, ends: seq<nat>, self: nat, item: nat, b: nat)
    requires WaitersKnown(y) && (forall a :: a in ends ==> a in y.boxes) && b in y.boxes && (b !in ends || b == self)
    ensures Broadcast(y, ends, self, item).boxes[b] == y.boxes[b]
    decreases |ends|
  {
    hide WakeAll, WaitersKnown;
    if ends != [] {
      assert ends[0] in ends;
      BroadcastSpares(if ends[0] == self then y else Deliver(y, ends[0], item), ends[1..], self, item, b);
    }
  }

  /** A thread on the run queue is not blocked. */
  lemma QueuedIsAwake(y: System, t: nat)
    requires Sound(y) && t in y.sched.queue
    ensures t in y.sched.threads && !IsBlocked(y.sched, t)
  {
  }

  lemma EmitKeeps(y: System, b: nat, event: nat)
    requires Sound(y) && WaitersKnown(y) && b in y.boxes
    ensures Sound(Emit(y, b, event)) && Emit(y, b, event).sched.current == y.sched.current
    ensures var woken := if |y.boxes[b].items| == EVENT_CAPACITY then [] else y.boxes[b].waiters;
      Emit(y, b, event).sched.queue == y.sched.queue + woken
    ensures |y.boxes[b].items| < EVENT_CAPACITY ==> Emit(y, b, event).boxes[b].items == y.boxes[b].items + [event]
    ensures |y.boxes[b].items| <= EVENT_CAPACITY ==> |Emit(y, b, event).boxes[b].items| <= EVENT_CAPACITY
    ensures Emit(y, b, event).boxes[b].waiters == []
  {
    hide Inv, Deliver, BlockedWait, WaitersKnown;
    DeliverKeeps(y, b, event);
  }

  /** A read waits only where there is nothing, so a waiter misses no item. */
  lemma WaitKeeps(y: System, b: nat)
    requires Sound(y) && CallerRuns(y.sched) && b in y.boxes && y.boxes[b].items == []
    ensures Sound(Wait(y, b)) && Wait(y, b).boxes[b].waiters == y.boxes[b].waiters + [y.sched.current.value]
    ensures IsBlocked(Wait(y, b).sched, y.sched.current.value) && y.sched.current.value !in Wait(y, b).sched.queue
    ensures Wait(y, b).sched.current == Some(if y.sched.queue == [] then IDLE else y.sched.queue[0])
  {
    hide Run, Queued;
    SetAsideRuns(y.sched, Blocked);
    var z, c := Wait(y, b), y.sched.current.value;
    assert !IsBlocked(y.sched, c);
    assert forall a :: !WaitsAt(y, c, a);
    forall t, a | WaitsAt(z, t, a) ensures IsBlocked(z.sched, t) && (if t == c then a == b else WaitsAt(y, t, a)) {
      if t == c {
        assert a != b ==> WaitsAt(y, c, a);
      } else {
        assert WaitsAt(y, t, a);
      }
    }
    forall t | IsBlocked(z.sched, t) ensures exists a :: WaitsAt(z, t, a) {
      if t == c {
        assert WaitsAt(z, t, b);
      } else {
        assert IsBlocked(y.sched, t);
        var a :| WaitsAt(y, t, a);
        assert WaitsAt(z, t, a);
      }
    }
    assert Distinct(z.boxes[b].waiters) by { assert !WaitsAt(y, c, b); }
  }

  lemma TakeKeeps(y: System, b: nat)
    requires Sound(y) && b in y.boxes && y.boxes[b].items != []
    ensures Sound(Take(y, b))
  {
    hide Inv;
    SameWaiters(y, Take(y, b));
  }

  lemma SameWaiters(y: System, z: System)
    requires BlockedWait(y) && forall t :: IsBlocked(z.sched, t) <==> IsBlocked(y.sched, t)
    requires forall t, b :: WaitsAt(z, t, b) <==> WaitsAt(y, t, b)
    ensures BlockedWait(z)
  {
  }

  // -------------------------------------------------------------------------------------- runs

  /** What the running thread, or the polling of a device, does next. Receive is one pass of a read:
      it waits when nothing is there unless it must not block, and takes the first item if it fits. */
  datatype Action =
    | Scheduling(step: Step)
    | Open(box: nat)
    | Send(ends: seq<nat>, self: nat, item: nat)
    | Event(box: nat, event: nat)
    | Receive(box: nat, blocking: bool, fits: bool)

  ghost predicate Allowed(y: System, a: Action) {
    match a
    case Scheduling(step) => !step.Wake? && !step.BlockNow? && Known(y.sched) && Possible(y.sched, step)
    case Open(b) => b !in y.boxes
    case Send(ends, _, _) => forall b :: b in ends ==> b in y.boxes
    case Event(b, _) => b in y.boxes
    case Receive(b, _, _) => b in y.boxes && CallerRuns(y.sched)
  }

  ghost function Next(y: System, a: Action): System
    requires WaitersKnown(y) && Allowed(y, a)
  {
    match a
    case Scheduling(step) => y.(sched := After(y.sched, step))
    case Open(b) => y.(boxes := y.boxes[b := Box([], [])])
    case Send(ends, self, item) => Broadcast(y, ends, self, item)
    case Event(b, event) => Emit(y, b, event)
    case Receive(b, blocking, fits) =>
      if y.boxes[b].items == [] then if blocking then Wait(y, b) else y
      else if fits then Take(y, b) else y
  }

  lemma SchedulingKeeps(y: System, step: Step)
    requires Sound(y) && Known(y.sched) && Possible(y.sched, step) && !step.Wake? && !step.BlockNow?
    ensures Sound(y.(sched := After(y.sched, step)))
  {
    hide Run, Queued, Begin, Yield;
    var z := y.(sched := After(y.sched, step));
    StepKeeps(y.sched, step);
    BlockedKept(y.sched, step);
    forall t, b ensures WaitsAt(z, t, b) <==> WaitsAt(y, t, b) { }
    SameWaiters(y, z);
  }

  lemma BlockedKept(s: State, step: Step)
    requires Inv(s) && Known(s) && Possible(s, step) && !step.Wake? && !step.BlockNow?
    ensures forall t :: IsBlocked(After(s, step), t) <==> IsBlocked(s, t)
  {
    hide Run, Begin, Yield;
    match step
    case Boot => RunDispatches(s);
    case YieldNow => YieldKeeps(s);
    case ExitNow => SetAsideRuns(s, Terminated);
    case Start(t) => BeginKeeps(s, t);
  }

  lemma ActionKeeps(y: System, a: Action)
    requires Sound(y) && WaitersKnown(y) && Allowed(y, a)
    ensures Sound(Next(y, a)) && WaitersKnown(Next(y, a))
  {
    hide Inv, Deliver, Broadcast, Emit, Wait, Take, After;
    match a {
      case Scheduling(step) => SchedulingKeeps(y, step);
      case Open(b) => OpenKeeps(y, b);
      case Send(ends, self, item) => BroadcastKeeps(y, ends, self, item);
      case Event(b, event) => EmitKeeps(y, b, event);
      case Receive(b, blocking, fits) =>
        if y.boxes[b].items != [] { TakeKeeps(y, b); } else { WaitKeeps(y, b); }
    }
    WaitersAreKnown(Next(y, a));
  }

  /** A read blocks its caller if and only if it may block and nothing is there; it takes the first item
      if and only if there is one that fits. */
  lemma ReceiveExactly(y: System, b: nat, blocking: bool, fits: bool)
    requires Sound(y) && WaitersKnown(y) && Allowed(y, Receive(b, blocking, fits))
    ensures var z, items, t := Next(y, Receive(b, blocking, fits)), y.boxes[b].items, y.sched.current.value;
      && (IsBlocked(z.sched, t) <==> blocking && items == [])
      && (items != [] || !blocking ==> z.sched == y.sched)
      && b in z.boxes && z.boxes[b].items == (if items != [] && fits then items[1..] else items)
      && z.boxes[b].waiters == y.boxes[b].waiters + (if items == [] && blocking then [t] else [])
      && forall a :: a in y.boxes && a != b ==> a in z.boxes && z.boxes[a] == y.boxes[a]
  {
    hide Run, Block;
    if y.boxes[b].items == [] { WaitKeeps(y, b); }
  }

  lemma OpenKeeps(y: System, b: nat)
    requires Sound(y) && b !in y.boxes
    ensures Sound(y.(boxes := y.boxes[b := Box([], [])]))
  {
    hide Inv;
    var z := y.(boxes := y.boxes[b := Box([], [])]);
    forall t, c ensures WaitsAt(z, t, c) <==> WaitsAt(y, t, c) { }
    SameWaiters(y, z);
  }

  ghost predicate Happens(y: System, actions: seq<Action>)
    decreases |actions|
  {
    actions == [] || (WaitersKnown(y) && Allowed(y, actions[0]) && Happens(Next(y, actions[0]), actions[1..]))
  }

  ghost function Reached(y: System, actions: seq<Action>): System
    requires Happens(y, actions)
    decreases |actions|
  {
    if actions == [] then y else Reached(Next(y, actions[0]), actions[1..])
  }

  /** In every run from boot no scheduler assertion fails, every blocked thread waits in exactly one
      place, and nobody waits where there is something to take. */
  lemma {:induction false} AlwaysSound(y: System, actions: seq<Action>)
    requires Sound(y) && Happens(y, actions)
    ensures Sound(Reached(y, actions))
    decreases |actions|
  {
    hide Sound, WaitersKnown, Allowed, Next;
    if actions != [] {
      ActionKeeps(y, actions[0]);
      AlwaysSound(Next(y, actions[0]), actions[1..]);
    }
  }

  lemma StartsSound()
    ensures Sound(System(Booted(), map[]))
  {
  }

  // ------------------------------------------------------------------------------- round robin

  /** The action calls scheduler_run. */
  predicate Switches(y: System, a: Action)
    requires a.Receive? ==> a.box in y.boxes
  {
    match a
    case Scheduling(step) => Dispatches(step)
    case Receive(b, blocking, _) => blocking && y.boxes[b].items == []
    case _ => false
  }

  /** A switch dispatches the head of the run queue; nothing else moves a queued thread. */
  lemma ActionMoves(y: System, a: Action)
    requires Sound(y) && WaitersKnown(y) && Allowed(y, a)
    ensures var q, z := y.sched.queue, Next(y, a).sched;
      if Switches(y, a) then
        && (q != [] ==> z.current == Some(q[0]))
        && (z.current == Some(IDLE) ==> q == [])
        && MovedUp(q, z.queue)
      else z.current == y.sched.current && q <= z.queue
  {
    hide Run, Queued, Yield, Begin, Broadcast, Deliver, Emit, BlockedWait;
    match a {
      case Scheduling(step) =>
        StepKeeps(y.sched, step);
        IdleIsUnqueued(y.sched);
      case Open(b) =>
      case Send(ends, self, item) => BroadcastKeeps(y, ends, self, item);
      case Event(b, event) => EmitKeeps(y, b, event);
      case Receive(b, blocking, fits) =>
        SetAsideRuns(y.sched, Blocked);
        IdleIsUnqueued(y.sched);
    }
  }

  lemma IdleIsUnqueued(s: State)
    requires Queued(s)
    ensures s.queue != [] ==> s.queue[0] != IDLE
  {
  }

  /** How many of the actions switch. */
  ghost function Switched(y: System, actions: seq<Action>): nat
    requires Happens(y, actions)
    decreases |actions|
  {
    if actions == [] then 0
    else (if Switches(y, actions[0]) then 1 else 0) + Switched(Next(y, actions[0]), actions[1..])
  }

  /** A thread with k threads ahead of it on the run queue keeps its place through k switches, whatever
      yields, waits, deliveries, exits and new threads come between. */
  lemma {:induction false} RoundRobin(y: System, actions: seq<Action>, t: nat, k: nat)
    requires Sound(y) && Happens(y, actions) && k < |y.sched.queue| && y.sched.queue[k] == t
    requires Switched(y, actions) <= k
    ensures var q, d := Reached(y, actions).sched.queue, Switched(y, actions); k - d < |q| && q[k - d] == t
    decreases |actions|
  {
    hide Sound, WaitersKnown, Next, Switches;
    if actions != [] {
      ActionKeeps(y, actions[0]);
      ActionMoves(y, actions[0]);
      RoundRobin(Next(y, actions[0]), actions[1..], t, if Switches(y, actions[0]) then k - 1 else k);
    }
  }

  /** The switch after those dispatches it. */
  lemma DispatchedInTurn(y: System, actions: seq<Action>, last: Action, t: nat, k: nat)
    requires Sound(y) && Happens(y, actions) && k < |y.sched.queue| && y.sched.queue[k] == t
    requires Switched(y, actions) == k
    requires WaitersKnown(Reached(y, actions)) && Allowed(Reached(y, actions), last)
    requires Switches(Reached(y, actions), last)
    ensures Next(Reached(y, actions), last).sched.current == Some(t)
  {
    hide Sound, WaitersKnown, Allowed, Next, Reached, Switches;
    RoundRobin(y, actions, t, k);
    AlwaysSound(y, actions);
    ActionMoves(Reached(y, actions), last);
  }

  /** The idle thread makes no calls, so once it has been dispatched it is never left again, whoever is
      woken: the promise above needs another switch to come. */
  lemma {:induction false} IdleStays(y: System, actions: seq<Action>)
    requires Sound(y) && Happens(y, actions) && y.sched.current == Some(IDLE)
    ensures Reached(y, actions).sched.current == Some(IDLE)
    decreases |actions|
  {
    hide Sound, WaitersKnown, Next;
    if actions != [] {
      ActionKeeps(y, actions[0]);
      ActionMoves(y, actions[0]);
      IdleStays(Next(y, actions[0]), actions[1..]);
    }
  }

  // ---------------------------------------------------------------------------------- in place

  /** The wake-up loop of channel_file_write, channel_send_fd and input_file_emit. */
  method WakeWaiters(scheduler: Scheduler, waiters: List<nat>)
    requires scheduler.Valid() && waiters.Valid() && waiters.repr !! scheduler.Footprint()
    requires AllKnown(scheduler.View(), waiters.Items())
    modifies scheduler.Footprint(), waiters.repr
    ensures scheduler.Valid() && fresh(scheduler.Footprint() - old(scheduler.Footprint()))
    ensures waiters.Valid() && waiters.Items() == [] && waiters.repr <= old(waiters.repr)
    ensures scheduler.View() == WakeAll(old(scheduler.View()), old(waiters.Items()))
  {
    hide WakeUp, Matched, Abstract, Linked, Distinct, NodeAt, Contents;
    waiters.HeadShown();
    while waiters.head != null
      invariant scheduler.Valid() && fresh(scheduler.Footprint() - old(scheduler.Footprint()))
      invariant waiters.Valid() && waiters.repr <= old(waiters.repr) && waiters.repr !! scheduler.Footprint()
      invariant waiters.head == null <==> waiters.Items() == []
      invariant AllKnown(scheduler.View(), waiters.Items())
      invariant WakeAll(scheduler.View(), waiters.Items()) == WakeAll(old(scheduler.View()), old(waiters.Items()))
      decreases |waiters.Items()|
    {
      ghost var ws := waiters.Items();
      var t := waiters.RemoveHead();
      assert ws[0] == t && ws[1..] == waiters.Items();
      scheduler.Seen();
      scheduler.Wake(t);
      waiters.HeadShown();
    }
  }

  /** A queue with its waiters, as a channel file has one for messages and one for descriptors. */
  class Mailbox {
    const items: List<nat>
    const waiters: List<nat>

    /** It owns these objects and holds these items and waiters. */
    ghost predicate Is(part: set<object>, view: Box): (r: bool)
      reads items, waiters, part
      ensures r ==> items in part && waiters in part
    {
      && items.repr + waiters.repr == part && items.repr !! waiters.repr && items.Valid() && waiters.Valid()
      && items.Items() == view.items && waiters.Items() == view.waiters
    }

    lemma First(part: set<object>, view: Box)
      requires Is(part, view)
      ensures items.head == null <==> view.items == []
      ensures items.head != null ==> items.head.data == view.items[0]
    {
      items.HeadShown();
    }

    constructor ()
      ensures Is(items.repr + waiters.repr, Box([], [])) && fresh(items.repr + waiters.repr)
    {
      items := new List();
      waiters := new List();
    }

    /** An item is inserted and all that wait are woken. */
    method Insert(scheduler: Scheduler, item: nat, ghost part: set<object>, ghost view: Box)
      returns (ghost now: set<object>)
      requires Is(part, view) && scheduler.Valid() && part !! scheduler.Footprint()
      requires AllKnown(scheduler.View(), view.waiters)
      modifies part, scheduler.Footprint()
      ensures Is(now, Box(view.items + [item], [])) && scheduler.Valid() && now !! scheduler.Footprint()
      ensures fresh(now - part) && fresh(scheduler.Footprint() - old(scheduler.Footprint()))
      ensures scheduler.View() == WakeAll(old(scheduler.View()), view.waiters)
    {
      hide WakeUp, WakeAll, AllKnown, Matched, Abstract, Linked, Distinct, NodeAt, Contents;
      var node := items.Insert(item);
      WakeWaiters(scheduler, waiters);
      now := items.repr + waiters.repr;
    }

    /** The running thread is inserted behind those that wait and blocks. */
    method Wait(scheduler: Scheduler, ghost part: set<object>, ghost view: Box) returns (ghost now: set<object>)
      requires Is(part, view) && scheduler.Valid() && part !! scheduler.Footprint() && ThreadRuns(scheduler.View())
      modifies part, scheduler.Footprint()
      ensures Is(now, view.(waiters := view.waiters + [old(scheduler.View()).current.value]))
      ensures scheduler.Valid() && now !! scheduler.Footprint()
      ensures fresh(now - part) && fresh(scheduler.Footprint() - old(scheduler.Footprint()))
      ensures scheduler.View() == Block(old(scheduler.View()))
    {
      hide Block, Matched, Abstract, Linked, Distinct, NodeAt, Contents;
      var node := waiters.Insert(scheduler.currentThread.value);
      scheduler.BlockCurrent();
      now := items.repr + waiters.repr;
    }

    /** The first item is removed. */
    method RemoveFirst(ghost scheduler: Scheduler, ghost part: set<object>, ghost view: Box)
      returns (ghost now: set<object>)
      requires Is(part, view) && view.items != [] && scheduler.Valid() && part !! scheduler.Footprint()
      modifies part
      ensures Is(now, view.(items := view.items[1..])) && now <= part && scheduler.Valid()
      ensures scheduler.Footprint() == old(scheduler.Footprint()) && scheduler.View() == old(scheduler.View())
    {
      hide Linked, Distinct, NodeAt, Contents, Matched, Abstract;
      scheduler.Owns();
      var item := items.RemoveHead();
      now := items.repr + waiters.repr;
      assert items.Items() == view.items[1..];
    }
  }

  /** Footprints that share nothing, all inside one set. */
  ghost predicate Apart(own: set<object>, parts: map<nat, set<object>>, all: set<object>) {
    && own <= all && (forall b :: b in parts ==> parts[b] <= all && parts[b] !! own)
    && forall b, c :: b in parts && c in parts && b != c ==> parts[b] !! parts[c]
  }

  lemma PartsApart(own: set<object>, parts: map<nat, set<object>>, all: set<object>, b: nat)
    requires Apart(own, parts, all) && b in parts
    ensures parts[b] <= all && own <= all && parts[b] !! own
    ensures forall c :: c in parts && c != b ==> parts[c] <= all && parts[c] !! parts[b] && parts[c] !! own
  {
  }

  lemma ApartAll(own: set<object>, parts: map<nat, set<object>>, all: set<object>)
    requires Apart(own, parts, all)
    ensures own <= all && forall c :: c in parts ==> parts[c] <= all && parts[c] !! own
  {
  }

  /** Two footprints grow by new objects. */
  lemma ApartGrows(own: set<object>, parts: map<nat, set<object>>, all: set<object>, more: set<object>, b: nat,
                   part: set<object>)
    requires Apart(own, parts, all) && (more - own) !! all && more !! part
    requires (if b in parts then part - parts[b] else part) !! all
    ensures Apart(more, parts[b := part], all + more + part)
  {
  }

  class Mailboxes {
    const scheduler: Scheduler
    var boxes: map<nat, Mailbox>

    /** What each queue holds and which objects it owns, and all objects owned. */
    ghost var contents: map<nat, Box>
    ghost var parts: map<nat, set<object>>
    ghost var repr: set<object>

    ghost predicate Valid()
      reads this, repr
    {
      && scheduler in repr && scheduler.runQueue in repr && Own() <= repr
      && scheduler.Valid() && Apart(Own(), parts, repr) && this !in scheduler.Footprint()
      && boxes.Keys == parts.Keys == contents.Keys
      && forall b :: b in boxes ==> parts[b] <= repr && Holds(b)
    }

    /** What the scheduler and this object own. */
    ghost function Own(): set<object>
      reads this, scheduler, scheduler.runQueue
    {
      scheduler.Footprint() + {this}
    }

    ghost predicate Holds(b: nat)
      requires b in boxes && b in parts && b in contents && parts[b] <= repr
      reads this, repr
    {
      boxes[b].items in parts[b] && boxes[b].waiters in parts[b] && boxes[b].Is(parts[b], contents[b])
    }

    ghost function View(): System
      reads this, scheduler, scheduler.runQueue
    {
      System(scheduler.View(), contents)
    }

    lemma Known()
      requires Valid()
      ensures View().boxes.Keys == boxes.Keys && View().sched == scheduler.View()
      ensures {this, scheduler, scheduler.runQueue} <= repr
    {
    }

    constructor (scheduler: Scheduler)
      requires scheduler.Valid()
      ensures Valid() && View() == System(scheduler.View(), map[]) && this.scheduler == scheduler
    {
      this.scheduler := scheduler;
      boxes, contents, parts := map[], map[], map[];
      repr := {this} + scheduler.Footprint();
    }

    /** The queues hold and own these by now. */
    ghost method Adopt(now: map<nat, Box>, owned: map<nat, set<object>>, all: set<object>)
      requires scheduler.Valid() && this !in scheduler.Footprint() && {scheduler, scheduler.runQueue} <= Own()
      requires Apart(Own(), owned, all) && boxes.Keys == owned.Keys == now.Keys
      requires forall b :: b in boxes ==> boxes[b].Is(owned[b], now[b])
      modifies this`contents, this`parts, this`repr
      ensures Valid() && repr == all && View() == System(old(scheduler.View()), now)
    {
      hide Mailbox.Is, List.Valid, Scheduler.Valid, Scheduler.Footprint, Scheduler.View;
      contents, parts, repr := now, owned, all;
      forall b | b in boxes ensures owned[b] <= repr && Holds(b) { assert this !in owned[b]; }
    }

    /** The insertion and wake-up loop shared by channel_file_write and channel_send_fd. */
    method Insert(b: nat, item: nat)
      requires Valid() && WaitersKnown(View()) && b in boxes
      modifies repr
      ensures Valid() && fresh(repr - old(repr)) && boxes == old(boxes)
      ensures View() == Deliver(old(View()), b, item)
    {
      hide WakeAll, Apart, Mailbox.Is, List.Valid, Scheduler.Valid, Scheduler.Footprint, Scheduler.View;
      PartsApart(Own(), parts, repr, b);
      ghost var own, box := Own(), Box(contents[b].items + [item], []);
      ghost var part := boxes[b].Insert(scheduler, item, parts[b], contents[b]);
      ghost var now, owned, all := contents[b := box], parts[b := part], repr + Own() + part;
      scheduler.Owns();
      ApartGrows(own, parts, repr, Own(), b, part);
      forall c | c in boxes ensures boxes[c].Is(owned[c], now[c]) {
        if c != b { assert old(Holds(c)); }
      }
      Adopt(now, owned, all);
    }

    /** A new queue, as opening a channel or an input file makes it. */
    method Open(b: nat)
      requires Valid() && b !in boxes
      modifies repr
      ensures Valid() && fresh(repr - old(repr)) && boxes.Keys == old(boxes).Keys + {b}
      ensures View() == System(old(View()).sched, old(View()).boxes[b := Box([], [])])
    {
      hide Apart, Mailbox.Is, List.Valid, Scheduler.Valid, Scheduler.Footprint, Scheduler.View;
      var box := new Mailbox();
      ghost var part := box.items.repr + box.waiters.repr;
      ghost var now, owned, all := contents[b := Box([], [])], parts[b := part], repr + Own() + part;
      ApartAll(Own(), parts, repr);
      ApartGrows(Own(), parts, repr, Own(), b, part);
      scheduler.Owns();
      boxes := boxes[b := box];
      forall c | c in boxes ensures boxes[c].Is(owned[c], now[c]) {
        if c != b { assert old(Holds(c)); }
      }
      Adopt(now, owned, all);
    }

    /** The fan-out of channel_file_write and channel_send_fd. */
    method FanOut(ends: seq<nat>, self: nat, item: nat)
      requires Valid() && WaitersKnown(View()) && forall b :: b in ends ==> b in boxes
      modifies repr
      ensures Valid() && fresh(repr - old(repr)) && boxes == old(boxes)
      ensures View() == Broadcast(old(View()), ends, self, item)
    {
      hide Deliver, WaitersKnown, Apart, Mailbox.Is, List.Valid, Scheduler.Valid, Scheduler.Footprint, Scheduler.View;
      for i := 0 to |ends|
        invariant Valid() && fresh(repr - old(repr)) && boxes == old(boxes) && WaitersKnown(View())
        invariant Broadcast(View(), ends[i..], self, item) == Broadcast(old(View()), ends, self, item)
      {
        if ends[i] == self { continue; }
        Insert(ends[i], item);
      }
    }

    /** One pass of a read: what is there, or else, for a read that may block, a wait. The reader comes
        back to the same test when it runs again. */
    method Peek(b: nat, blocking: bool) returns (item: Option<nat>)
      requires Valid() && b in boxes && ThreadRuns(scheduler.View())
      modifies repr
      ensures Valid() && fresh(repr - old(repr)) && boxes == old(boxes)
      ensures var empty := old(View()).boxes[b].items == [];
        && item == (if empty then None else Some(old(View()).boxes[b].items[0]))
        && View() == if empty && blocking then Wait(old(View()), b) else old(View())
    {
      hide Apart, Mailbox.Is, List.Valid, Scheduler.Valid, Scheduler.Footprint, Block;
      boxes[b].First(parts[b], contents[b]);
      if boxes[b].items.head != null { return Some(boxes[b].items.head.data); }
      if blocking { WaitAt(b); }
      return None;
    }

    /** The running thread waits at a queue. */
    method WaitAt(b: nat)
      requires Valid() && b in boxes && ThreadRuns(scheduler.View())
      modifies repr
      ensures Valid() && fresh(repr - old(repr)) && boxes == old(boxes)
      ensures View() == Wait(old(View()), b)
    {
      hide Apart, Mailbox.Is, List.Valid, Scheduler.Valid, Scheduler.Footprint, Scheduler.View, Block;
      PartsApart(Own(), parts, repr, b);
      ghost var own, box := Own(), contents[b].(waiters := contents[b].waiters + [View().sched.current.value]);
      ghost var part := boxes[b].Wait(scheduler, parts[b], contents[b]);
      ghost var now, owned, all := contents[b := box], parts[b := part], repr + Own() + part;
      scheduler.Owns();
      ApartGrows(own, parts, repr, Own(), b, part);
      forall c | c in boxes ensures boxes[c].Is(owned[c], now[c]) {
        if c != b { assert old(Holds(c)); }
      }
      Adopt(now, owned, all);
    }

    /** Pop the item that was peeked at. */
    method Pop(b: nat)
      requires Valid() && b in boxes && View().boxes[b].items != []
      modifies repr
      ensures Valid() && fresh(repr - old(repr)) && boxes == old(boxes)
      ensures View() == Take(old(View()), b)
    {
      hide Apart, Mailbox.Is, List.Valid, Scheduler.Valid, Scheduler.Footprint, Scheduler.View;
      PartsApart(Own(), parts, repr, b);
      ghost var own, box := Own(), contents[b].(items := contents[b].items[1..]);
      ghost var part := boxes[b].RemoveFirst(scheduler, parts[b], contents[b]);
      scheduler.Owns();
      ghost var now, owned, all := contents[b := box], parts[b := part], repr + Own() + part;
      ApartGrows(own, parts, repr, Own(), b, part);
      forall c | c in boxes ensures boxes[c].Is(owned[c], now[c]) {
        if c != b { assert old(Holds(c)); }
      }
      Adopt(now, owned, all);
    }
  }
}
