/** The cooperative scheduler: one run queue, one running thread, and the states of all threads. */
module Scheduler {
  import opened LinkedList
  import opened Sequences

  datatype ThreadState = Ready | Running | Suspended | Blocked | Terminated

  /** A thread's state, and whether it has a run queue node. */
  datatype Thread = Thread(state: ThreadState, queued: bool)

  /** The thread that runs when no other can. */
  const IDLE: nat := 0

  /** failed records that an assertion of the source did not hold; the operation goes no further. */
  datatype State = State(threads: map<nat, Thread>, queue: seq<nat>, current: Option<nat>, failed: bool)

  /** Threads that are referred to exist. */
  predicate Known(s: State) {
    && IDLE in s.threads && (forall t :: t in s.queue ==> t in s.threads)
    && (s.current.Some? ==> s.current.value in s.threads)
  }

  // -------------------------------------------------------------------------------- operations

  function SetState(s: State, t: nat, x: ThreadState): State
    requires t in s.threads
  {
    s.(threads := s.threads[t := s.threads[t].(state := x)])
  }

  /** scheduler_add_thread; granted says whether a list node could be had. */
  function AddThread(s: State, t: nat, granted: bool := true): State
    requires t in s.threads
  {
    var x := s.threads[t];
    if x.queued || !(x.state.Ready? || x.state.Suspended?) then s.(failed := true)
    else if !granted then s
    else s.(threads := s.threads[t := x.(queued := true)], queue := s.queue + [t])
  }

  /** scheduler_remove_thread of the thread at the head of the run queue. */
  function RemoveHead(s: State): State
    requires Known(s) && s.queue != []
  {
    var t := s.queue[0];
    s.(threads := s.threads[t := s.threads[t].(queued := false)], queue := s.queue[1..],
       failed := s.failed || !s.threads[t].queued)
  }

  /** The loop of scheduler_run: pass over terminated threads while others are queued. */
  function Skip(s: State, t: nat): (r: (State, nat))
    requires Known(s) && t in s.threads
    ensures r.1 in r.0.threads
    decreases |s.queue|
  {
    if s.queue != [] && s.threads[t].state.Terminated? then Skip(RemoveHead(s), s.queue[0]) else (s, t)
  }

  function Dispatch(s: State, t: nat): State
    requires t in s.threads
  {
    SetState(s, t, Running).(current := Some(t))
  }

  /** The thread that scheduler_run goes on with: from the run queue, or else the idle thread. */
  function Pick(s: State): (r: (State, nat))
    requires Known(s)
    ensures r.1 in r.0.threads
  {
    if s.queue == [] then (s, IDLE) else Skip(RemoveHead(s), s.queue[0])
  }

  /** scheduler_run. */
  function Run(s: State): State
    requires Known(s)
  {
    Dispatch(Pick(s).0, Pick(s).1)
  }

  predicate ThreadRuns(s: State) {
    Known(s) && s.current.Some?
  }

  /** scheduler_yield. */
  function Yield(s: State, granted: bool := true): State
    requires ThreadRuns(s)
  {
    Run(AddThread(SetState(s, s.current.value, Suspended), s.current.value, granted))
  }

  /** scheduler_save_and_block. */
  function Block(s: State): State
    requires ThreadRuns(s)
  {
    Run(SetState(s, s.current.value, Blocked))
  }

  /** scheduler_wake_up. */
  function WakeUp(s: State, t: nat, granted: bool := true): State
    requires t in s.threads
  {
    if !s.threads[t].state.Blocked? then s.(failed := true) else AddThread(SetState(s, t, Suspended), t, granted)
  }

  /** scheduler_terminate. */
  function Terminate(s: State): State
    requires ThreadRuns(s)
  {
    Run(SetState(s, s.current.value, Terminated))
  }

  /** thread_init and thread_start of a new thread. */
  function Begin(s: State, t: nat, granted: bool := true): State {
    AddThread(s.(threads := s.threads[t := Thread(Ready, false)]), t, granted)
  }

  // --------------------------------------------------------------------------------- invariant

  ghost predicate Waits(x: Thread) {
    x.state.Ready? || x.state.Suspended?
  }

  /** No assertion has failed, and the run queue holds exactly the threads that are ready or suspended,
      each once. */
  ghost predicate Queued(s: State) {
    && Known(s) && !s.failed && Distinct(s.queue) && IDLE !in s.queue
    && !s.threads[IDLE].queued && (s.threads[IDLE].state.Ready? || s.threads[IDLE].state.Running?)
    && forall t :: t in s.threads && t != IDLE ==>
         (t in s.queue <==> Waits(s.threads[t])) && (t in s.queue <==> s.threads[t].queued)
  }

  /** No thread but perhaps this one and the idle thread is running. */
  ghost predicate OnlyRunning(s: State, r: Option<nat>) {
    && (r.Some? ==> r.value in s.threads && s.threads[r.value].state.Running?)
    && forall t :: t in s.threads && t != IDLE && s.threads[t].state.Running? ==> r == Some(t)
  }

  ghost predicate Inv(s: State) {
    Queued(s) && OnlyRunning(s, s.current)
  }

  /** Before the first run there is the idle thread alone. */
  function Booted(): State {
    State(map[IDLE := Thread(Ready, false)], [], None, false)
  }

  /** A thread of the source's callers runs: not the idle thread, which makes no calls. */
  ghost predicate CallerRuns(s: State) {
    ThreadRuns(s) && s.current.value != IDLE
  }

  // ------------------------------------------------------------------------------ what runs do

  /** A run dispatches the head of the run queue, and the idle thread only if the queue is empty. */
  lemma RunDispatches(s: State)
    requires Queued(s)
    ensures Run(s).current == Some(if s.queue == [] then IDLE else s.queue[0])
    ensures Run(s).queue == (if s.queue == [] then [] else s.queue[1..])
    ensures Run(s).threads.Keys == s.threads.Keys
    ensures forall t :: t in s.threads && Run(s).current != Some(t) ==> Run(s).threads[t] == s.threads[t]
    ensures Run(s).threads[Run(s).current.value] == Thread(Running, false) && !Run(s).failed
  {
  }

  lemma RunKeeps(s: State)
    requires Queued(s) && OnlyRunning(s, None)
    ensures Inv(Run(s))
  {
    RunDispatches(s);
    hide Run, RemoveHead, Skip, Dispatch;
    var u := Run(s);
    forall t | t in u.threads && t != IDLE
      ensures (t in u.queue <==> Waits(u.threads[t])) && (t in u.queue <==> u.threads[t].queued)
      ensures u.threads[t].state.Running? ==> u.current == Some(t)
    {
      if s.queue != [] { assert s.queue == [s.queue[0]] + u.queue; }
    }
  }

  /** Adding a thread that is ready or suspended and not queued. */
  lemma AddKeeps(s: State, t: nat, x: ThreadState)
    requires Queued(s) && t != IDLE && (x.Ready? || x.Suspended?)
    requires t in s.threads ==> !Waits(s.threads[t])
    ensures var u := AddThread(s.(threads := s.threads[t := Thread(x, false)]), t);
      && Queued(u) && u.queue == s.queue + [t] && u.threads == s.threads[t := Thread(x, true)]
      && (forall r :: OnlyRunning(s, r) && r != Some(t) ==> OnlyRunning(u, r))
  {
  }

  /** Setting the state of a running thread aside, to one that is not queued. */
  lemma SetAsideKeeps(s: State, x: ThreadState)
    requires Inv(s) && CallerRuns(s) && (x.Blocked? || x.Terminated?)
    ensures var u := SetState(s, s.current.value, x); Queued(u) && OnlyRunning(u, None)
  {
  }

  /** The queue after the running thread has been put behind the others, and before the run. */
  function Turn(s: State): (q: seq<nat>)
    requires s.current.Some?
    ensures q != []
  {
    s.queue + [s.current.value]
  }

  lemma YieldKeeps(s: State)
    requires Inv(s) && CallerRuns(s)
    ensures Inv(Yield(s)) && Yield(s).threads.Keys == s.threads.Keys
    ensures Yield(s).current == Some(Turn(s)[0]) && Yield(s).queue == Turn(s)[1..]
    ensures forall t :: t in s.threads ==> (Yield(s).threads[t].state.Blocked? <==> s.threads[t].state.Blocked?)
  {
    hide Run;
    var c := s.current.value;
    assert s.threads[c] == Thread(Running, false);
    var u := AddThread(SetState(s, c, Suspended), c);
    assert u == AddThread(s.(threads := s.threads[c := Thread(Suspended, false)]), c);
    AddKeeps(s, c, Suspended);
    RunKeeps(u);
    RunDispatches(u);
  }

  lemma SetAsideRuns(s: State, x: ThreadState)
    requires Inv(s) && CallerRuns(s) && (x.Blocked? || x.Terminated?)
    ensures var u := Run(SetState(s, s.current.value, x));
      && Inv(u) && u.threads.Keys == s.threads.Keys
      && u.current == Some(if s.queue == [] then IDLE else s.queue[0])
      && u.queue == (if s.queue == [] then [] else s.queue[1..])
      && u.threads[s.current.value].state == x && s.current.value !in u.queue
      && (forall t :: t in s.threads && t != s.current.value ==>
            (u.threads[t].state.Blocked? <==> s.threads[t].state.Blocked?))
  {
    hide Run;
    SetAsideKeeps(s, x);
    var v := SetState(s, s.current.value, x);
    RunKeeps(v);
    RunDispatches(v);
  }

  lemma WakeKeeps(s: State, t: nat)
    requires Inv(s) && t in s.threads && s.threads[t].state.Blocked?
    ensures Inv(WakeUp(s, t)) && WakeUp(s, t).queue == s.queue + [t] && WakeUp(s, t).current == s.current
    ensures WakeUp(s, t).threads == s.threads[t := Thread(Suspended, true)]
  {
  }

  lemma BeginKeeps(s: State, t: nat)
    requires Inv(s) && t !in s.threads
    ensures Inv(Begin(s, t)) && Begin(s, t).queue == s.queue + [t] && Begin(s, t).current == s.current
    ensures Begin(s, t).threads == s.threads[t := Thread(Ready, true)]
  {
  }

  /** A yield for which no list node can be had loses the thread: it is suspended and in no queue. */
  lemma YieldKeepsExactly(s: State, granted: bool)
    requires Inv(s) && CallerRuns(s)
    ensures Inv(Yield(s, granted)) <==> granted
  {
    if granted {
      YieldKeeps(s);
    } else {
      var c := s.current.value;
      var u := SetState(s, c, Suspended);
      assert AddThread(u, c, false) == u;
      if s.queue != [] {
        assert s.queue[0] in s.queue && s.queue[0] != c;
        assert Skip(RemoveHead(u), s.queue[0]) == (RemoveHead(u), s.queue[0]);
      }
      assert c !in Run(u).queue && Waits(Run(u).threads[c]);
    }
  }

  /** So does a wake-up. */
  lemma WakeKeepsExactly(s: State, t: nat, granted: bool)
    requires Inv(s) && t in s.threads && s.threads[t].state.Blocked?
    ensures Inv(WakeUp(s, t, granted)) <==> granted
  {
    if granted {
      WakeKeeps(s, t);
    } else {
      var u := WakeUp(s, t, false);
      assert t !in u.queue && Waits(u.threads[t]);
    }
  }

  /** And so does the start of a thread. */
  lemma BeginKeepsExactly(s: State, t: nat, granted: bool)
    requires Inv(s) && t !in s.threads
    ensures Inv(Begin(s, t, granted)) <==> granted
  {
    if granted {
      BeginKeeps(s, t);
    } else {
      var u := Begin(s, t, false);
      assert t !in u.queue && Waits(u.threads[t]);
    }
  }

  /** A wake-up of a thread that is not blocked fails the source's assertion. */
  lemma WakeFailsExactly(s: State, t: nat)
    requires Inv(s) && t in s.threads && t != IDLE
    ensures WakeUp(s, t).failed <==> !s.threads[t].state.Blocked?
  {
  }

  // -------------------------------------------------------------------------------------- steps

  datatype Step = Boot | YieldNow | BlockNow | ExitNow | Wake(thread: nat) | Start(thread: nat)

  predicate Possible(s: State, a: Step) {
    match a
    case Boot => s.current == None
    case YieldNow => s.current.Some? && s.current.value != IDLE
    case BlockNow => s.current.Some? && s.current.value != IDLE
    case ExitNow => s.current.Some? && s.current.value != IDLE
    case Wake(t) => t in s.threads && s.threads[t].state.Blocked?
    case Start(t) => t !in s.threads
  }

  function After(s: State, a: Step): State
    requires Known(s) && Possible(s, a)
  {
    match a
    case Boot => Run(s)
    case YieldNow => Yield(s)
    case BlockNow => Block(s)
    case ExitNow => Terminate(s)
    case Wake(t) => WakeUp(s, t)
    case Start(t) => Begin(s, t)
  }

  /** The step calls scheduler_run. */
  predicate Dispatches(a: Step) {
    !a.Wake? && !a.Start?
  }

  /** Everything behind the head of a queue has moved up by one place. */
  ghost predicate MovedUp(q: seq<nat>, r: seq<nat>) {
    forall k :: 0 < k < |q| ==> k - 1 < |r| && r[k - 1] == q[k]
  }

  lemma ThreadsKnown(s: State)
    requires Queued(s)
    ensures Known(s)
  {
  }

  lemma StepKeeps(s: State, a: Step)
    requires Inv(s) && Possible(s, a)
    ensures Inv(After(s, a))
    ensures if Dispatches(a) then
              After(s, a).current == Some((s.queue + (if a.YieldNow? then [s.current.value] else [IDLE]))[0])
            else After(s, a).current == s.current && s.queue <= After(s, a).queue
    ensures Dispatches(a) ==> MovedUp(s.queue, After(s, a).queue)
  {
    hide Run, Queued, WakeUp, Begin, Yield;
    assert Known(s) by { ThreadsKnown(s); }
    match a
    case Boot => RunKeeps(s); RunDispatches(s);
    case YieldNow => YieldKeeps(s);
    case BlockNow => SetAsideRuns(s, Blocked);
    case ExitNow => SetAsideRuns(s, Terminated);
    case Wake(t) => WakeKeeps(s, t);
    case Start(t) => BeginKeeps(s, t);
  }

  // ---------------------------------------------------------------------------------- in place

  /** What the kernel keeps of a thread: its state, and its node in the run queue, or null. */
  datatype ThreadObject = ThreadObject(state: ThreadState, node: Node?<nat>)

  ghost function Abstract(threads: map<nat, ThreadObject>): map<nat, Thread> {
    map t | t in threads :: Thread(threads[t].state, threads[t].node != null)
  }

  /** Each node of the run queue is the one its thread knows as its own. */
  ghost predicate Matched(ns: seq<Node<nat>>, threads: map<nat, ThreadObject>) {
    && (forall i :: 0 <= i < |ns| ==> ns[i].data in threads && threads[ns[i].data].node == ns[i])
    && (forall t :: t in threads && threads[t].node != null ==> threads[t].node in ns && threads[t].node.data == t)
  }

  lemma AbstractUpdate(threads: map<nat, ThreadObject>, t: nat, x: ThreadObject)
    ensures Abstract(threads[t := x]) == Abstract(threads)[t := Thread(x.state, x.node != null)]
    ensures t in threads ==>
              t in Abstract(threads) && Abstract(threads)[t] == Thread(threads[t].state, threads[t].node != null)
  {
  }

  lemma MatchedState(ns: seq<Node<nat>>, threads: map<nat, ThreadObject>, t: nat, x: ThreadState)
    requires Matched(ns, threads) && t in threads
    ensures Matched(ns, threads[t := threads[t].(state := x)])
  {
  }

  lemma MatchedNew(ns: seq<Node<nat>>, threads: map<nat, ThreadObject>, t: nat)
    requires Matched(ns, threads) && t !in threads
    ensures Matched(ns, threads[t := ThreadObject(Ready, null)])
  {
  }

  lemma MatchedInsert(ns: seq<Node<nat>>, threads: map<nat, ThreadObject>, node: Node<nat>)
    requires Matched(ns, threads) && node.data in threads && threads[node.data].node == null
    ensures Matched(ns + [node], threads[node.data := threads[node.data].(node := node)])
  {
    var ms, us := ns + [node], threads[node.data := threads[node.data].(node := node)];
    forall i | 0 <= i < |ms| ensures ms[i].data in us && us[ms[i].data].node == ms[i] { }
    assert ms[|ns|] == node;
    forall t | t in us && us[t].node != null ensures us[t].node in ms && us[t].node.data == t {
      if t != node.data { assert us[t].node in ns; }
    }
  }

  lemma MatchedRemove(ns: seq<Node<nat>>, threads: map<nat, ThreadObject>)
    requires Matched(ns, threads) && Distinct(ns) && ns != []
    ensures ns[0].data in threads && threads[ns[0].data].node == ns[0]
    ensures Matched(Cut(ns, 0), threads[ns[0].data := threads[ns[0].data].(node := null)])
  {
    var t, ms := ns[0].data, Cut(ns, 0);
    var us := threads[t := threads[t].(node := null)];
    forall i | 0 <= i < |ms| ensures ms[i].data in us && us[ms[i].data].node == ms[i] {
      assert ms[i] == ns[i + 1] && ms[i] != ns[0];
    }
    forall u | u in us && us[u].node != null ensures us[u].node in ms && us[u].node.data == u {
      var i :| 0 <= i < |ns| && ns[i] == us[u].node;
      assert i > 0 && ms[i - 1] == ns[i];
    }
  }

  class Scheduler {
    /** The thread objects, by address. */
    var threads: map<nat, ThreadObject>
    const runQueue: List<nat>
    var currentThread: Option<nat>
    var failed: bool

    ghost function Footprint(): set<object>
      reads this, runQueue
    {
      {this} + runQueue.repr
    }

    ghost predicate Valid()
      reads this, runQueue, Footprint()
    {
      runQueue.Valid() && this !in runQueue.repr && Matched(runQueue.nodes, threads)
    }

    ghost function View(): State
      reads this, runQueue
    {
      State(Abstract(threads), runQueue.Items(), currentThread, failed)
    }

    /** The threads on the run queue, in order. */
    ghost function Queue(): seq<nat>
      reads this, runQueue
    {
      runQueue.Items()
    }

    /** The scheduler is sound, the first of these threads runs, or else the idle thread, and the others
        are queued. */
    ghost predicate Dispatched(q: seq<nat>)
      reads this, runQueue
    {
      Inv(View()) && currentThread == Some(if q == [] then IDLE else q[0]) && Queue() == if q == [] then [] else q[1..]
    }

    /** A thread has this state and is in no queue. */
    ghost predicate SetAside(t: nat, x: ThreadState)
      reads this, runQueue
    {
      t in threads && threads[t].state == x && t !in Queue()
    }

    lemma Owns()
      requires Valid()
      ensures {this, runQueue} <= Footprint()
    {
    }

    lemma Seen()
      requires Valid()
      ensures View().threads.Keys == threads.Keys && View().queue == Queue() && View().current == currentThread
      ensures forall t :: t in threads ==> View().threads[t].state == threads[t].state
      ensures runQueue.head == null <==> Queue() == []
      ensures runQueue.head != null ==> runQueue.head.data == Queue()[0]
    {
    }

    /** scheduler_init. */
    constructor ()
      ensures Valid() && View() == Booted() && Inv(View()) && fresh(Footprint())
    {
      threads := map[IDLE := ThreadObject(Ready, null)];
      runQueue := new List();
      currentThread := None;
      failed := false;
    }

    method Mark(t: nat, x: ThreadState)
      requires Valid() && t in threads
      modifies this`threads
      ensures Valid() && View() == SetState(old(View()), t, x)
    {
      hide Matched, Contents, Abstract;
      MatchedState(runQueue.nodes, threads, t, x);
      AbstractUpdate(threads, t, threads[t].(state := x));
      threads := threads[t := threads[t].(state := x)];
    }

    /** scheduler_add_thread. */
    method Add(t: nat, granted: bool := true) returns (ok: bool)
      requires Valid() && t in threads
      modifies Footprint()
      ensures Valid() && fresh(Footprint() - old(Footprint()))
      ensures View() == AddThread(old(View()), t, granted)
      ensures ok <==> granted && old(threads)[t].node == null && old(threads)[t].state in {Ready, Suspended}
    {
      hide Matched, Contents, NodeAt, Distinct, Linked, Abstract;
      AbstractUpdate(threads, t, threads[t]);
      if threads[t].node != null || !(threads[t].state == Ready || threads[t].state == Suspended) {
        failed := true;
        return false;
      }
      if !granted { return false; }
      var node := runQueue.Insert(t);
      MatchedInsert(old(runQueue.nodes), threads, node);
      AbstractUpdate(threads, t, threads[t].(node := node));
      threads := threads[t := threads[t].(node := node)];
      return true;
    }

    /** scheduler_remove_thread, as scheduler_run calls it: by the thread's own node. */
    method Remove(t: nat)
      requires Valid() && runQueue.head != null && runQueue.head.data == t
      modifies Footprint()
      ensures Valid() && fresh(Footprint() - old(Footprint()))
      ensures Known(old(View())) ==> View() == RemoveHead(old(View()))
    {
      hide Matched, Contents, Distinct, Linked, Abstract;
      MatchedRemove(runQueue.nodes, threads);
      runQueue.Remove(threads[t].node, 0);
      AbstractUpdate(threads, t, threads[t].(node := null));
      threads := threads[t := threads[t].(node := null)];
    }

    /** The head of the run queue is taken off it. */
    method TakeHead() returns (t: nat)
      requires Valid() && Known(View()) && Queue() != []
      modifies Footprint()
      ensures Valid() && fresh(Footprint() - old(Footprint()))
      ensures t == old(Queue())[0] && View() == RemoveHead(old(View()))
      ensures t in threads && Known(View()) && |Queue()| == |old(Queue())| - 1
    {
      hide Matched, Abstract, Contents, Distinct, Linked, NodeAt;
      Seen();
      t := runQueue.head.data;
      Remove(t);
      Seen();
    }

    /** The first part of scheduler_run: the head of the run queue, past terminated threads, or the idle
        thread. */
    method PickNext() returns (next: nat)
      requires Valid() && Known(View())
      modifies Footprint()
      ensures Valid() && fresh(Footprint() - old(Footprint()))
      ensures next in threads && (View(), next) == Pick(old(View()))
    {
      hide Abstract, Matched, Contents, Distinct, Linked, NodeAt, RemoveHead;
      Seen();
      next := IDLE;
      if runQueue.head != null {
        next := TakeHead();
        Seen();
        ghost var start, first := View(), next;
        while runQueue.head != null && threads[next].state == Terminated
          invariant Valid() && fresh(Footprint() - old(Footprint()))
          invariant View().threads.Keys == threads.Keys && next in threads
          invariant View().threads[next].state == threads[next].state
          invariant View().queue == Queue() && (runQueue.head == null <==> Queue() == [])
          invariant Known(View()) && Skip(View(), next) == Skip(start, first)
          decreases |Queue()|
        {
          next := TakeHead();
          Seen();
        }
      }
    }

    /** scheduler_run. */
    method RunNext()
      requires Valid() && Known(View())
      modifies Footprint()
      ensures Valid() && fresh(Footprint() - old(Footprint()))
      ensures View() == Run(old(View()))
    {
      hide Abstract, Matched, Contents, Distinct, Linked, NodeAt, Pick;
      var next := PickNext();
      Seen();
      currentThread := Some(next);
      Mark(next, Running);
    }

    /** scheduler_yield. */
    method YieldCurrent(granted: bool := true)
      requires Valid() && ThreadRuns(View())
      modifies Footprint()
      ensures Valid() && fresh(Footprint() - old(Footprint()))
      ensures View() == Yield(old(View()), granted)
      ensures granted && old(Inv(View()) && CallerRuns(View())) ==>
                Dispatched(old(Queue()) + [old(currentThread).value])
    {
      hide Matched, Abstract, Contents, Queued, OnlyRunning, Distinct, Linked, NodeAt, Run;
      Seen();
      var t := currentThread.value;
      Mark(t, Suspended);
      Seen();
      var ok := Add(t, granted);
      RunNext();
      Seen();
      if granted && old(Inv(View()) && CallerRuns(View())) { YieldKeeps(old(View())); }
    }

    /** scheduler_wait_for_event: scheduler_save_and_block, then a run. */
    method BlockCurrent()
      requires Valid() && ThreadRuns(View())
      modifies Footprint()
      ensures Valid() && fresh(Footprint() - old(Footprint()))
      ensures View() == Block(old(View()))
      ensures old(Inv(View()) && CallerRuns(View())) ==>
                Dispatched(old(Queue())) && SetAside(old(currentThread).value, Blocked)
    {
      hide Matched, Abstract, Contents, Queued, OnlyRunning, Distinct, Linked, NodeAt, Run;
      Seen();
      Mark(currentThread.value, Blocked);
      RunNext();
      Seen();
      if old(Inv(View()) && CallerRuns(View())) { SetAsideRuns(old(View()), Blocked); }
    }

    /** scheduler_wake_up. */
    method Wake(t: nat, granted: bool := true)
      requires Valid() && t in threads
      modifies Footprint()
      ensures Valid() && fresh(Footprint() - old(Footprint()))
      ensures View() == WakeUp(old(View()), t, granted)
      ensures granted && old(Inv(View())) && old(threads[t].state).Blocked? ==>
                Inv(View()) && Queue() == old(Queue()) + [t] && currentThread == old(currentThread)
    {
      hide Matched, Abstract, Contents, Queued, OnlyRunning, Distinct, Linked, NodeAt, AddThread;
      Seen();
      if threads[t].state != Blocked {
        failed := true;
        return;
      }
      Mark(t, Suspended);
      Seen();
      var ok := Add(t, granted);
      Seen();
      if granted && old(Inv(View())) { WakeKeeps(old(View()), t); }
    }

    /** scheduler_terminate. */
    method TerminateCurrent()
      requires Valid() && ThreadRuns(View())
      modifies Footprint()
      ensures Valid() && fresh(Footprint() - old(Footprint()))
      ensures View() == Terminate(old(View()))
      ensures old(Inv(View()) && CallerRuns(View())) ==>
                Dispatched(old(Queue())) && SetAside(old(currentThread).value, Terminated)
    {
      hide Matched, Abstract, Contents, Queued, OnlyRunning, Distinct, Linked, NodeAt, Run;
      Seen();
      Mark(currentThread.value, Terminated);
      RunNext();
      Seen();
      if old(Inv(View()) && CallerRuns(View())) { SetAsideRuns(old(View()), Terminated); }
    }

    /** thread_init and thread_start of a new thread. */
    method Start(t: nat, granted: bool := true)
      requires Valid() && t !in threads
      modifies Footprint()
      ensures Valid() && fresh(Footprint() - old(Footprint()))
      ensures View() == Begin(old(View()), t, granted)
      ensures granted && old(Inv(View())) ==>
                Inv(View()) && Queue() == old(Queue()) + [t] && currentThread == old(currentThread)
    {
      hide Abstract, Matched, Contents, Queued, OnlyRunning, Distinct, Linked, NodeAt, AddThread;
      AbstractUpdate(threads, t, ThreadObject(Ready, null));
      MatchedNew(runQueue.nodes, threads, t);
      Seen();
      threads := threads[t := ThreadObject(Ready, null)];
      Seen();
      var ok := Add(t, granted);
      Seen();
      if granted && old(Inv(View())) { BeginKeeps(old(View()), t); }
    }
  }
}
