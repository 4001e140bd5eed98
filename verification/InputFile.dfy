/** Input files: the events of a device in a ring buffer, and the threads that wait for them. */
module InputFile {
  import opened Ipc
  import opened LinkedList
  import opened RingBuffer
  import opened Scheduler
  import opened Sequences

  /** The size of an event in bytes. */
  const EVENT_SIZE: nat := 8

  datatype Result = Refused | Waits | Got(event: nat)

  class EventFile {
    const scheduler: Scheduler
    const events: Ring<nat>
    const waiters: List<nat>

    /** The objects the file owns beside the scheduler's. */
    ghost function Footprint(): set<object>
      reads waiters
    {
      {events} + waiters.repr
    }

    ghost predicate Valid()
      reads this, events, waiters, Footprint(), scheduler, scheduler.runQueue, scheduler.Footprint()
    {
      && events.Valid() && events.ringSize == EVENT_CAPACITY && waiters.Valid() && events !in waiters.repr
      && scheduler.Valid() && Footprint() !! scheduler.Footprint()
    }

    ghost function Queue(): Box
      reads events, waiters
    {
      Box(events.contents, waiters.Items())
    }

    /** The file as queue b of a system with these other queues. */
    ghost function View(others: map<nat, Box>, b: nat): System
      reads events, waiters, scheduler, scheduler.runQueue
    {
      System(scheduler.View(), others[b := Queue()])
    }

    /** input_file_create. */
    constructor (scheduler: Scheduler, buffer: nat)
      requires scheduler.Valid()
      ensures Valid() && Queue() == Box([], []) && this.scheduler == scheduler && fresh(Footprint())
    {
      hide Matched, Abstract, Linked, Distinct, NodeAt, Contents, Ring.Holds, Place, Address;
      this.scheduler := scheduler;
      events := new Ring(buffer, EVENT_CAPACITY, EVENT_SIZE);
      waiters := new List();
    }

    /** input_file_emit: a full buffer drops the event; otherwise all that wait are woken. */
    method Emit(event: nat, ghost others: map<nat, Box>, ghost b: nat) returns (ok: bool)
      requires Valid() && WaitersKnown(View(others, b))
      modifies Footprint(), scheduler.Footprint()
      ensures Valid() && fresh(Footprint() - old(Footprint()))
      ensures fresh(scheduler.Footprint() - old(scheduler.Footprint()))
      ensures ok <==> |old(Queue()).items| < EVENT_CAPACITY
      ensures View(others, b) == Ipc.Emit(old(View(others, b)), b, event)
      ensures old(Sound(View(others, b))) ==>
                && Sound(View(others, b))
                && scheduler.Queue() == old(scheduler.Queue()) + if ok then old(Queue()).waiters else []
    {
      hide WakeUp, WakeAll, AllKnown, Matched, Abstract, Linked, Distinct, NodeAt, Contents, Ring.Holds, Place,
           Address, Sound;
      ghost var y := View(others, b);
      assert y.boxes[b] == Queue();
      if events.usedCount == events.ringSize { return false; }
      ok := events.Enqueue(event);
      WakeWaiters(scheduler, waiters);
      assert View(others, b) == Deliver(y, b, event);
      if Sound(y) { EmitKeeps(y, b, event); }
    }

    /** One pass of input_file_read into a buffer of the given size. */
    method Read(size: nat, blocking: bool, ghost others: map<nat, Box>, ghost b: nat) returns (r: Result)
      requires Valid() && ThreadRuns(scheduler.View())
      modifies Footprint(), scheduler.Footprint()
      ensures Valid() && fresh(Footprint() - old(Footprint()))
      ensures fresh(scheduler.Footprint() - old(scheduler.Footprint()))
      ensures var y, items := old(View(others, b)), old(Queue()).items;
        if size < EVENT_SIZE || (items == [] && !blocking) then r == Refused && View(others, b) == y
        else if items == [] then r == Waits && View(others, b) == Wait(y, b)
        else r == Got(items[0]) && View(others, b) == Take(y, b)
    {
      hide Block, Matched, Abstract, Linked, Distinct, NodeAt, Contents, Ring.Holds, Place, Address;
      ghost var y := View(others, b);
      assert y.boxes[b] == Queue();
      if size < EVENT_SIZE { return Refused; }
      if events.usedCount == 0 {
        if !blocking { return Refused; }
        var node := waiters.Insert(scheduler.currentThread.value);
        scheduler.BlockCurrent();
        return Waits;
      }
      var event := events.Dequeue();
      return Got(event.value);
    }
  }
}
