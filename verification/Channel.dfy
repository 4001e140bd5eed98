/** Channels: a message is written once and its one object is queued at every other endpoint; the first
    endpoint to read it frees it. */
module Channel {
  import opened Scheduler
  import opened Ipc
  import opened Sequences

  /** A message as the writer gave it. */
  type Message = seq<nat>

  /** The endpoints in the order they were opened, with a box each; the message objects that are
      allocated; and what has been written and read at each endpoint. faulted records that a freed
      object has been used, frees how often each object has been freed. */
  datatype ChannelState =
    ChannelState(ends: seq<nat>, ipc: System, objects: map<nat, Message>, next: nat, faulted: bool,
                 frees: multiset<nat>, written: map<nat, seq<Message>>, read: map<nat, seq<Message>>)

  datatype Result = Refused | Waits | Got(message: Message)

  ghost predicate WellFormed(c: ChannelState) {
    && WaitersKnown(c.ipc) && Distinct(c.ends)
    && forall e :: e in c.ends ==> e in c.ipc.boxes && e in c.written && e in c.read
  }

  /** channel_file_write. */
  ghost function Write(c: ChannelState, e: nat, message: Message): ChannelState
    requires WellFormed(c) && e in c.ends
  {
    if message == [] then c
    else c.(objects := c.objects[c.next := message], ipc := Broadcast(c.ipc, c.ends, e, c.next), next := c.next + 1,
            written := c.written[e := c.written[e] + [message]])
  }

  /** One pass of channel_file_read into a buffer of the given size. */
  ghost function Read(c: ChannelState, e: nat, size: nat, blocking: bool): (ChannelState, Result)
    requires WellFormed(c) && e in c.ends && (blocking ==> ThreadRuns(c.ipc.sched))
  {
    var items := c.ipc.boxes[e].items;
    if size == 0 then (c, Refused)
    else if items == [] then if blocking then (c.(ipc := Wait(c.ipc, e)), Waits) else (c, Refused)
    else if items[0] !in c.objects then (c.(faulted := true), Refused)
    else
      var message := c.objects[items[0]];
      if |message| > size then (c, Refused)
      else (c.(objects := c.objects - {items[0]}, frees := c.frees + multiset{items[0]}, ipc := Take(c.ipc, e),
               read := c.read[e := c.read[e] + [message]]), Got(message))
  }

  // -------------------------------------------------------------------------------------- runs

  /** A call on the channel, or anything else that threads and devices do: scheduling, and deliveries,
      reads and opens at other queues. */
  datatype Action =
    | Writes(end: nat, message: Message)
    | Reads(end: nat, size: nat, blocking: bool)
    | Elsewhere(other: Ipc.Action)

  /** The action is not at any of the endpoints. */
  ghost predicate Spares(ends: seq<nat>, a: Ipc.Action) {
    match a
    case Scheduling(_) => true
    case Open(b) => b !in ends
    case Send(targets, _, _) => forall t :: t in targets ==> t !in ends
    case Event(b, _) => b !in ends
    case Receive(b, _, _) => b !in ends
  }

  ghost predicate Permitted(c: ChannelState, a: Action) {
    match a
    case Writes(e, _) => e in c.ends
    case Reads(e, _, blocking) => e in c.ends && (blocking ==> CallerRuns(c.ipc.sched))
    case Elsewhere(a) => Allowed(c.ipc, a) && Spares(c.ends, a)
  }

  ghost function Done(c: ChannelState, a: Action): ChannelState
    requires WellFormed(c) && Permitted(c, a)
  {
    match a
    case Writes(e, message) => Write(c, e, message)
    case Reads(e, size, blocking) => Read(c, e, size, blocking).0
    case Elsewhere(a) => c.(ipc := Ipc.Next(c.ipc, a))
  }

  ghost predicate MayRun(c: ChannelState, actions: seq<Action>)
    decreases |actions|
  {
    actions == [] || (WellFormed(c) && Permitted(c, actions[0]) && MayRun(Done(c, actions[0]), actions[1..]))
  }

  ghost function Ran(c: ChannelState, actions: seq<Action>): ChannelState
    requires MayRun(c, actions)
    decreases |actions|
  {
    if actions == [] then c else Ran(Done(c, actions[0]), actions[1..])
  }

  /** A channel whose endpoints have all been opened and not used. */
  ghost predicate Unused(c: ChannelState) {
    && Sound(c.ipc) && WellFormed(c) && c.objects == map[] && c.frees == multiset{} && !c.faulted
    && forall e :: e in c.ends ==> c.ipc.boxes[e].items == [] && c.written[e] == [] && c.read[e] == []
  }

  // ------------------------------------------------------------------------- what a write queues

  /** The fan-out appends the item at every endpoint but the writer's, and nowhere else. */
  lemma {:induction false} BroadcastItems(y: System, ends: seq<nat>, self: nat, item: nat)
    requires WaitersKnown(y) && Distinct(ends) && forall b :: b in ends ==> b in y.boxes
    ensures var z := Broadcast(y, ends, self, item);
      forall b :: b in y.boxes ==> z.boxes[b].items == y.boxes[b].items + if b in ends && b != self then [item] else []
    decreases |ends|
  {
    hide WakeAll, WaitersKnown;
    if ends != [] {
      var v := if ends[0] == self then y else Deliver(y, ends[0], item);
      assert ends[0] in ends;
      assert ends == [ends[0]] + ends[1..];
      assert ends[0] !in ends[1..];
      BroadcastItems(v, ends[1..], self, item);
    }
  }

  // --------------------------------------------------------------------------------- invariant

  ghost predicate Queued(c: ChannelState, e: nat, i: int, id: nat) {
    e in c.ends && e in c.ipc.boxes && 0 <= i < |c.ipc.boxes[e].items| && c.ipc.boxes[e].items[i] == id
  }

  /** Every queued object is allocated and queued once only, every object is freed at most once, and no
      freed object has been used. */
  ghost predicate Unshared(c: ChannelState) {
    && Sound(c.ipc) && WellFormed(c) && !c.faulted
    && (forall e, i, id :: Queued(c, e, i, id) ==> id in c.objects)
    && (forall e, i, f, j, id :: Queued(c, e, i, id) && Queued(c, f, j, id) ==> e == f && i == j)
    && (forall id :: id in c.objects ==> id < c.next && c.frees[id] == 0)
    && (forall id: nat :: c.frees[id] <= 1 && (id >= c.next ==> c.frees[id] == 0))
  }

  lemma WriteKeeps(c: ChannelState, e: nat, message: Message)
    requires Unshared(c) && |c.ends| <= 2 && e in c.ends
    ensures Unshared(Write(c, e, message))
  {
    hide Broadcast, Sound, WaitersKnown;
    var d := Write(c, e, message);
    if message != [] {
      BroadcastKeeps(c.ipc, c.ends, e, c.next);
      BroadcastItems(c.ipc, c.ends, e, c.next);
      forall f, i, id | Queued(d, f, i, id)
        ensures id in d.objects && (if id == c.next then f != e && i == |c.ipc.boxes[f].items| else Queued(c, f, i, id))
      {
        if id != c.next { assert Queued(c, f, i, id); }
        if i < |c.ipc.boxes[f].items| { assert Queued(c, f, i, id); }
      }
      forall f, g | f in c.ends && g in c.ends && f != e && g != e ensures f == g { }
    }
  }

  lemma ReadKeeps(c: ChannelState, e: nat, size: nat, blocking: bool)
    requires Unshared(c) && e in c.ends && (blocking ==> CallerRuns(c.ipc.sched))
    ensures Unshared(Read(c, e, size, blocking).0)
  {
    hide Sound, Wait;
    var d, items := Read(c, e, size, blocking).0, c.ipc.boxes[e].items;
    if size > 0 && items == [] && blocking {
      WaitKeepsItems(c.ipc, e);
      forall f, i, id ensures Queued(d, f, i, id) <==> Queued(c, f, i, id) { }
    } else if size > 0 && items != [] {
      assert Queued(c, e, 0, items[0]);
      TakeKeeps(c.ipc, e);
      WaitersStayKnown(Take(c.ipc, e));
      if |c.objects[items[0]]| <= size {
        forall f, i, id | Queued(d, f, i, id) ensures id != items[0] && Queued(c, f, if f == e then i + 1 else i, id) {
          assert Queued(c, f, if f == e then i + 1 else i, id);
        }
      }
    }
  }

  lemma WaitKeepsItems(y: System, e: nat)
    requires Sound(y) && CallerRuns(y.sched) && e in y.boxes && y.boxes[e].items == []
    ensures Sound(Wait(y, e)) && WaitersKnown(Wait(y, e)) && Wait(y, e).boxes.Keys == y.boxes.Keys
    ensures forall b :: b in y.boxes ==> Wait(y, e).boxes[b].items == y.boxes[b].items
  {
    hide Run, Inv;
    WaitKeeps(y, e);
    WaitersStayKnown(Wait(y, e));
  }

  lemma WaitersStayKnown(y: System)
    requires Sound(y)
    ensures WaitersKnown(y)
  {
    hide Inv;
    WaitersAreKnown(y);
  }

  /** What happens elsewhere leaves the items and the waiters at an endpoint. */
  lemma ElsewhereSpares(c: ChannelState, a: Ipc.Action, e: nat)
    requires WellFormed(c) && Allowed(c.ipc, a) && Spares(c.ends, a) && e in c.ends
    ensures e in Ipc.Next(c.ipc, a).boxes && Ipc.Next(c.ipc, a).boxes[e] == c.ipc.boxes[e]
  {
    hide WaitersKnown, After, Block, WakeAll;
    if a.Send? { BroadcastSpares(c.ipc, a.ends, a.self, a.item, e); }
  }

  lemma ElsewhereKeeps(c: ChannelState, a: Ipc.Action)
    requires Unshared(c) && Permitted(c, Elsewhere(a))
    ensures Unshared(Done(c, Elsewhere(a)))
  {
    hide Sound, WaitersKnown, Allowed, Spares, Ipc.Next;
    ActionKeeps(c.ipc, a);
    var d := Done(c, Elsewhere(a));
    forall e | e in c.ends
      ensures e in d.ipc.boxes && d.ipc.boxes[e].items == c.ipc.boxes[e].items
    {
      ElsewhereSpares(c, a, e);
    }
    forall f, i, id ensures Queued(d, f, i, id) <==> Queued(c, f, i, id) { }
  }

  lemma DoneKeeps(c: ChannelState, a: Action)
    requires Unshared(c) && |c.ends| <= 2 && Permitted(c, a)
    ensures WellFormed(c) && Unshared(Done(c, a)) && Done(c, a).ends == c.ends
  {
    hide Sound, After, Broadcast, Wait, Take, WaitersKnown;
    match a
    case Writes(e, message) => WriteKeeps(c, e, message);
    case Reads(e, size, blocking) => ReadKeeps(c, e, size, blocking);
    case Elsewhere(a) => ElsewhereKeeps(c, a);
  }

  lemma {:induction false} RanKeeps(c: ChannelState, actions: seq<Action>)
    requires Unshared(c) && |c.ends| <= 2 && MayRun(c, actions)
    ensures Unshared(Ran(c, actions))
    decreases |actions|
  {
    hide Unshared, Done, Permitted;
    if actions != [] {
      DoneKeeps(c, actions[0]);
      RanKeeps(Done(c, actions[0]), actions[1..]);
    }
  }

  // --------------------------------------------------------------------------- who may share one

  /** With three endpoints one write and a read at each of the other two use a freed object. */
  lemma ThreeEndsFault(c: ChannelState)
    requires Unused(c) && |c.ends| >= 3
    ensures var actions := [Writes(c.ends[0], [1]), Reads(c.ends[1], 1, false), Reads(c.ends[2], 1, false)];
      MayRun(c, actions) && Ran(c, actions).faulted
  {
    hide Sound, Write, Read, MayRun, Ran;
    ThirdReadFaults(c, c.ends[0], c.ends[1], c.ends[2]);
    RunOfThree(c, Writes(c.ends[0], [1]), Reads(c.ends[1], 1, false), Reads(c.ends[2], 1, false));
  }

  lemma ThirdReadFaults(c: ChannelState, e: nat, f: nat, g: nat)
    requires Unused(c) && e in c.ends && f in c.ends && g in c.ends
    requires e != f && f != g && e != g
    ensures WellFormed(Write(c, e, [1])) && Write(c, e, [1]).ends == c.ends
    ensures var c2 := Read(Write(c, e, [1]), f, 1, false).0;
      WellFormed(c2) && c2.ends == c.ends && Read(c2, g, 1, false).0.faulted
  {
    hide Sound, Broadcast;
    var id, c1 := c.next, Write(c, e, [1]);
    BroadcastKeeps(c.ipc, c.ends, e, id);
    BroadcastItems(c.ipc, c.ends, e, id);
    assert c1.ipc.boxes[f].items == [id] && c1.ipc.boxes[g].items == [id];
    TakeKeeps(c1.ipc, f);
    WaitersStayKnown(Take(c1.ipc, f));
  }

  lemma RunOfThree(c: ChannelState, a0: Action, a1: Action, a2: Action)
    requires WellFormed(c) && Permitted(c, a0)
    requires WellFormed(Done(c, a0)) && Permitted(Done(c, a0), a1)
    requires WellFormed(Done(Done(c, a0), a1)) && Permitted(Done(Done(c, a0), a1), a2)
    ensures MayRun(c, [a0, a1, a2]) && Ran(c, [a0, a1, a2]) == Done(Done(Done(c, a0), a1), a2)
  {
    hide Done, Permitted, WellFormed;
    var c1 := Done(c, a0);
    var c2 := Done(c1, a1);
    RunFrom(c2, a2, []);
    RunFrom(c1, a1, [a2] + []);
    RunFrom(c, a0, [a1] + ([a2] + []));
    assert [a0] + ([a1] + ([a2] + [])) == [a0, a1, a2];
  }

  lemma RunFrom(c: ChannelState, a: Action, rest: seq<Action>)
    requires WellFormed(c) && Permitted(c, a) && MayRun(Done(c, a), rest)
    ensures MayRun(c, [a] + rest) && Ran(c, [a] + rest) == Ran(Done(c, a), rest)
  {
    hide Done, Permitted, WellFormed;
    assert ([a] + rest)[0] == a && ([a] + rest)[1..] == rest;
  }

  /** No run ever uses a freed message exactly if the channel has at most two endpoints. */
  lemma NeverFaultsExactly(c: ChannelState)
    requires Unused(c)
    ensures (forall actions :: MayRun(c, actions) ==> !Ran(c, actions).faulted) <==> |c.ends| <= 2
  {
    hide Unused, Sound;
    if |c.ends| <= 2 {
      assert Unshared(c) by { UnusedIsUnshared(c); }
      forall actions | MayRun(c, actions) ensures !Ran(c, actions).faulted { RanKeeps(c, actions); }
    } else {
      ThreeEndsFault(c);
    }
  }

  lemma UnusedIsUnshared(c: ChannelState)
    requires Unused(c)
    ensures Unshared(c)
  {
  }

  // --------------------------------------------------------------------- delivery between two ends

  /** The messages queued at an endpoint, as they were written. */
  ghost function Pending(c: ChannelState, e: nat): seq<Message>
    requires e in c.ipc.boxes
  {
    var items := c.ipc.boxes[e].items;
    seq(|items|, i requires 0 <= i < |items| => if items[i] in c.objects then c.objects[items[i]] else [])
  }

  /** What an endpoint has read and what is queued for it is what the other one has written. */
  ghost predicate Delivered(c: ChannelState) {
    && |c.ends| == 2 && WellFormed(c)
    && forall e, f :: e in c.ends && f in c.ends && e != f ==> c.read[f] + Pending(c, f) == c.written[e]
  }

  lemma WritePending(c: ChannelState, e: nat, message: Message, f: nat)
    requires Unshared(c) && e in c.ends && f in c.ends && message != []
    ensures var d := Write(c, e, message);
      f in d.ipc.boxes && Pending(d, f) == Pending(c, f) + if f != e then [message] else []
  {
    hide Broadcast, Sound, WaitersKnown;
    BroadcastItems(c.ipc, c.ends, e, c.next);
    var d, items := Write(c, e, message), c.ipc.boxes[f].items;
    forall i | 0 <= i < |items| ensures Pending(d, f)[i] == Pending(c, f)[i] { assert Queued(c, f, i, items[i]); }
  }

  lemma WriteDelivers(c: ChannelState, e: nat, message: Message)
    requires Unshared(c) && Delivered(c) && e in c.ends && WellFormed(Write(c, e, message))
    ensures Delivered(Write(c, e, message))
  {
    hide Broadcast, Unshared, Pending, WaitersKnown, Distinct;
    if message != [] {
      var d := Write(c, e, message);
      forall f | f in c.ends ensures Pending(d, f) == Pending(c, f) + if f != e then [message] else [] {
        WritePending(c, e, message, f);
      }
      forall f, g | f in c.ends && g in c.ends && f != g ensures d.read[g] + Pending(d, g) == d.written[f] {
        assert c.read[g] + Pending(c, g) == c.written[f];
        TwoEnds(c.ends, e, f, g);
      }
    }
  }

  lemma TwoEnds(ends: seq<nat>, e: nat, f: nat, g: nat)
    requires |ends| == 2 && e in ends && f in ends && g in ends && f != g
    ensures e == f || e == g
  {
  }

  lemma GotPending(c: ChannelState, e: nat, size: nat, blocking: bool, f: nat)
    requires Unshared(c) && e in c.ends && f in c.ends && (blocking ==> ThreadRuns(c.ipc.sched))
    requires Read(c, e, size, blocking).1.Got?
    ensures var (d, r) := Read(c, e, size, blocking);
      && f in d.ipc.boxes
      && if f == e then Pending(c, e) == [r.message] + Pending(d, e) else Pending(d, f) == Pending(c, f)
  {
    hide Sound, Wait, WaitersKnown;
    var (d, r) := Read(c, e, size, blocking);
    var items, rest := c.ipc.boxes[e].items, d.ipc.boxes[f].items;
    assert Queued(c, e, 0, items[0]);
    forall i | 0 <= i < |rest| ensures rest[i] != items[0] {
      assert Queued(c, f, if f == e then i + 1 else i, rest[i]);
    }
  }

  lemma WaitPending(c: ChannelState, e: nat, f: nat)
    requires Unshared(c) && e in c.ends && f in c.ends && CallerRuns(c.ipc.sched) && c.ipc.boxes[e].items == []
    ensures var d := c.(ipc := Wait(c.ipc, e)); f in d.ipc.boxes && Pending(d, f) == Pending(c, f)
  {
  }

  /** A read that is refused, for want of room in the buffer or of a message, consumes nothing. */
  lemma RefusedChangesNothing(c: ChannelState, e: nat, size: nat, blocking: bool)
    requires Unshared(c) && e in c.ends && (blocking ==> ThreadRuns(c.ipc.sched))
    requires Read(c, e, size, blocking).1.Refused?
    ensures Read(c, e, size, blocking).0 == c
  {
    hide Sound, Wait, WaitersKnown;
    var items := c.ipc.boxes[e].items;
    if items != [] { assert Queued(c, e, 0, items[0]); }
  }

  lemma ReadDelivers(c: ChannelState, e: nat, size: nat, blocking: bool)
    requires Unshared(c) && Delivered(c) && e in c.ends && (blocking ==> CallerRuns(c.ipc.sched))
    requires WellFormed(Read(c, e, size, blocking).0)
    ensures Delivered(Read(c, e, size, blocking).0)
  {
    hide Unshared, Wait, Pending, WaitersKnown, Distinct;
    var (d, r) := Read(c, e, size, blocking);
    if r.Refused? { RefusedChangesNothing(c, e, size, blocking); }
    forall f, g | f in c.ends && g in c.ends && f != g ensures d.read[g] + Pending(d, g) == d.written[f] {
      assert c.read[g] + Pending(c, g) == c.written[f];
      if r.Waits? {
        WaitPending(c, e, g);
      } else if r.Got? {
        GotPending(c, e, size, blocking, g);
        assert (c.read[g] + [r.message]) + Pending(d, g) == c.read[g] + ([r.message] + Pending(d, g));
      }
    }
  }

  /** A read that answers returns the oldest message written at the other end that it has not returned
      before; one that is refused changes nothing. */
  lemma ReadAnswers(c: ChannelState, e: nat, f: nat, size: nat, blocking: bool)
    requires Unshared(c) && Delivered(c) && e in c.ends && f in c.ends && e != f
    requires blocking ==> CallerRuns(c.ipc.sched)
    ensures var (d, r) := Read(c, e, size, blocking);
      && (r.Refused? ==> d == c)
      && (r.Got? ==> |c.read[e]| < |c.written[f]| && r.message == c.written[f][|c.read[e]|] && |r.message| <= size
                     && d.read[e] == c.read[e] + [r.message])
      && (r.Waits? ==> c.read[e] == c.written[f])
      && (r.Refused? && 0 < size && |c.read[e]| < |c.written[f]| ==> |c.written[f][|c.read[e]|]| > size)
  {
    hide Sound, Wait, WaitersKnown;
    var items := c.ipc.boxes[e].items;
    assert c.read[e] + Pending(c, e) == c.written[f];
    if items != [] { assert Queued(c, e, 0, items[0]); assert Pending(c, e)[0] == c.objects[items[0]]; }
  }

  /** A read into a buffer of non-zero size waits if and only if it is blocking and nothing is unread, and
      answers if and only if the oldest unread message fits; otherwise it is refused and nothing changes. */
  lemma ReadExactly(c: ChannelState, e: nat, size: nat, blocking: bool)
    requires Unshared(c) && e in c.ends && (blocking ==> CallerRuns(c.ipc.sched))
    ensures var (d, r) := Read(c, e, size, blocking); var unread := Pending(c, e);
      && (r.Waits? <==> size > 0 && unread == [] && blocking)
      && (r.Got? <==> size > 0 && unread != [] && |unread[0]| <= size)
      && (r.Got? ==> r.message == unread[0] && e in d.ipc.boxes && Pending(d, e) == unread[1..])
      && (r.Got? ==> d.read == c.read[e := c.read[e] + [r.message]] && d.written == c.written)
      && (r.Refused? ==> d == c)
  {
    hide Sound, Wait, WaitersKnown;
    var items := c.ipc.boxes[e].items;
    if items != [] {
      assert Queued(c, e, 0, items[0]);
      assert Pending(c, e)[0] == c.objects[items[0]];
    }
    if Read(c, e, size, blocking).1.Got? { GotPending(c, e, size, blocking, e); }
  }

  lemma PassWaits(c: ChannelState, e: nat, size: nat, blocking: bool)
    requires WellFormed(c) && e in c.ends && (blocking ==> ThreadRuns(c.ipc.sched))
    ensures var (d, r) := Read(c, e, size, blocking);
      && (r == Waits <==> size > 0 && blocking && c.ipc.boxes[e].items == [])
      && (r == Waits ==> d == c.(ipc := Wait(c.ipc, e)))
  {
    hide Wait, WaitersKnown;
  }

  /** A read that waits leaves the caller blocked, last among those that wait at the endpoint, and changes
      no message. */
  lemma WaitBlocks(c: ChannelState, e: nat, size: nat)
    requires Unshared(c) && e in c.ends && CallerRuns(c.ipc.sched) && size > 0 && Pending(c, e) == []
    ensures var (d, t) := (Read(c, e, size, true).0, c.ipc.sched.current.value);
      && d == c.(ipc := d.ipc) && IsBlocked(d.ipc.sched, t) && t !in d.ipc.sched.queue
      && d.ipc.boxes == c.ipc.boxes[e := Box([], c.ipc.boxes[e].waiters + [t])]
      && d.ipc.sched.current == Some(if c.ipc.sched.queue == [] then IDLE else c.ipc.sched.queue[0])
      && Unshared(d)
  {
    hide Sound, WaitersKnown, Block;
    WaitKeeps(c.ipc, e);
    ReadKeeps(c, e, size, true);
  }

  /** A write of a non-empty message is unread at every other endpoint, behind what was, and nowhere
      else; an empty one changes nothing. */
  lemma WriteExactly(c: ChannelState, e: nat, message: Message)
    requires Unshared(c) && e in c.ends
    ensures message == [] ==> Write(c, e, message) == c
    ensures message != [] ==>
              var d := Write(c, e, message);
              && d.written == c.written[e := c.written[e] + [message]] && d.read == c.read
              && forall f :: f in c.ends ==>
                   f in d.ipc.boxes && Pending(d, f) == Pending(c, f) + if f != e then [message] else []
  {
    hide Broadcast, Sound, WaitersKnown, Pending;
    if message != [] {
      forall f | f in c.ends
        ensures f in Write(c, e, message).ipc.boxes
        ensures Pending(Write(c, e, message), f) == Pending(c, f) + if f != e then [message] else []
      {
        WritePending(c, e, message, f);
      }
    }
  }

  /** Whoever waits at an endpoint is on the run queue after the next write at another, which is what it
      will find. */
  lemma WriteWakes(c: ChannelState, e: nat, message: Message, f: nat, t: nat)
    requires Unshared(c) && e in c.ends && f in c.ends && e != f && message != [] && t in c.ipc.boxes[f].waiters
    ensures var d := Write(c, e, message);
      && t in d.ipc.sched.queue && !IsBlocked(d.ipc.sched, t)
      && f in d.ipc.boxes && d.ipc.boxes[f].waiters == [] && Pending(d, f) == [message]
  {
    hide Broadcast, WaitersKnown, Inv, BlockedWait;
    BroadcastKeeps(c.ipc, c.ends, e, c.next);
    BroadcastWakes(c.ipc, c.ends, e, c.next, f);
    WritePending(c, e, message, f);
    QueuedIsAwake(Write(c, e, message).ipc, t);
  }

  /** The action is a write that an endpoint gets. */
  predicate Reaches(a: Action, f: nat) {
    a.Writes? && a.end != f && a.message != []
  }

  lemma StillWaits(c: ChannelState, a: Action, f: nat, t: nat)
    requires Unshared(c) && f in c.ends && Permitted(c, a) && WaitsAt(c.ipc, t, f) && !Reaches(a, f)
    ensures WaitsAt(Done(c, a).ipc, t, f)
  {
    hide Sound, WaitersKnown, Block, Broadcast, Allowed, Ipc.Next, Spares;
    match a
    case Writes(e, message) =>
      if message != [] { BroadcastSpares(c.ipc, c.ends, e, c.next, f); }
    case Reads(e, size, blocking) =>
    case Elsewhere(a) => ElsewhereSpares(c, a, f);
  }

  lemma {:induction false} WaitsOn(c: ChannelState, actions: seq<Action>, f: nat, t: nat)
    requires Unshared(c) && |c.ends| <= 2 && f in c.ends && WaitsAt(c.ipc, t, f) && MayRun(c, actions)
    requires forall a :: a in actions ==> !Reaches(a, f)
    ensures WaitsAt(Ran(c, actions).ipc, t, f) && Unshared(Ran(c, actions)) && Ran(c, actions).ends == c.ends
    decreases |actions|
  {
    hide Unshared, Done, Permitted, Reaches, WaitsAt;
    if actions != [] {
      assert actions[0] in actions && forall a :: a in actions[1..] ==> a in actions;
      DoneKeeps(c, actions[0]);
      StillWaits(c, actions[0], f, t);
      WaitsOn(Done(c, actions[0]), actions[1..], f, t);
    }
  }

  /** No wake-up is lost: a thread that a blocking read of an empty endpoint has blocked stays there,
      whatever else happens, until the other end writes, and that write leaves it on the run queue with
      the message to read. */
  lemma ReaderIsWoken(c: ChannelState, f: nat, size: nat, actions: seq<Action>, e: nat, message: Message)
    requires Unshared(c) && |c.ends| == 2 && e in c.ends && f in c.ends && e != f && message != []
    requires CallerRuns(c.ipc.sched) && size > 0 && Pending(c, f) == []
    requires MayRun(Read(c, f, size, true).0, actions) && forall a :: a in actions ==> !Reaches(a, f)
    ensures var t, z := c.ipc.sched.current.value, Ran(Read(c, f, size, true).0, actions);
      && IsBlocked(z.ipc.sched, t) && WellFormed(z) && z.ends == c.ends
      && t in Write(z, e, message).ipc.sched.queue && !IsBlocked(Write(z, e, message).ipc.sched, t)
      && f in Write(z, e, message).ipc.boxes && Pending(Write(z, e, message), f) == [message]
  {
    hide Sound, Read, Write, Pending, MayRun, Ran, Reaches;
    var t, d := c.ipc.sched.current.value, Read(c, f, size, true).0;
    WaitBlocks(c, f, size);
    assert WaitsAt(d.ipc, t, f);
    WaitsOn(d, actions, f, t);
    var z := Ran(d, actions);
    WaiterIsBlocked(z.ipc, t, f);
    WriteWakes(z, e, message, f, t);
  }

  lemma WaiterIsBlocked(y: System, t: nat, b: nat)
    requires Sound(y) && WaitsAt(y, t, b)
    ensures IsBlocked(y.sched, t)
  {
  }

  lemma ElsewhereDelivers(c: ChannelState, a: Ipc.Action)
    requires Delivered(c) && Permitted(c, Elsewhere(a)) && WellFormed(Done(c, Elsewhere(a)))
    ensures Delivered(Done(c, Elsewhere(a)))
  {
    hide WaitersKnown, Allowed, Spares, Ipc.Next;
    var d := Done(c, Elsewhere(a));
    forall f | f in c.ends ensures Pending(d, f) == Pending(c, f) { ElsewhereSpares(c, a, f); }
  }

  /** Over any interleaving of writes and reads on a channel of two endpoints, with whatever else threads
      and devices do, what one endpoint has read followed by what is queued for it is exactly what the
      other has written, and each message object has been freed at most once. */
  lemma {:induction false} AlwaysDelivered(c: ChannelState, actions: seq<Action>)
    requires Unshared(c) && Delivered(c) && MayRun(c, actions)
    ensures Delivered(Ran(c, actions)) && forall id: nat :: Ran(c, actions).frees[id] <= 1
    decreases |actions|
  {
    if actions != [] {
      hide Unshared, Done, Permitted, Delivered;
      DoneDelivers(c, actions[0]);
      AlwaysDelivered(Done(c, actions[0]), actions[1..]);
    }
  }

  lemma DoneDelivers(c: ChannelState, a: Action)
    requires Unshared(c) && Delivered(c) && Permitted(c, a)
    ensures WellFormed(c) && Unshared(Done(c, a)) && Delivered(Done(c, a))
  {
    hide Sound, After, Broadcast, Wait, Take, WaitersKnown, Pending;
    DoneKeeps(c, a);
    match a
    case Writes(e, message) => WriteDelivers(c, e, message);
    case Reads(e, size, blocking) => ReadDelivers(c, e, size, blocking);
    case Elsewhere(a) => ElsewhereDelivers(c, a);
  }

  /** A channel of two endpoints starts delivered. */
  lemma UnusedIsDelivered(c: ChannelState)
    requires Unused(c) && |c.ends| == 2
    ensures Unshared(c) && Delivered(c)
  {
  }

  // ---------------------------------------------------------------------------------- in place

  class ChannelFiles {
    const mail: Mailboxes
    const endpoints: seq<nat>
    var objects: map<nat, Message>
    var next: nat
    var faulted: bool

    ghost var frees: multiset<nat>
    ghost var written: map<nat, seq<Message>>
    ghost var read: map<nat, seq<Message>>

    ghost predicate Valid()
      reads this, mail, mail.repr
    {
      mail.Valid() && this !in mail.repr
    }

    ghost function View(): ChannelState
      reads this, mail, mail.scheduler, mail.scheduler.runQueue
    {
      ChannelState(endpoints, mail.View(), objects, next, faulted, frees, written, read)
    }

    constructor (mail: Mailboxes, endpoints: seq<nat>)
      requires mail.Valid() && forall e :: e in endpoints ==> e in mail.boxes
      ensures Valid() && this.mail == mail
      ensures View() == ChannelState(endpoints, mail.View(), map[], 0, false, multiset{},
                                     map e | e in endpoints :: [], map e | e in endpoints :: [])
    {
      hide Mailboxes.View, Mailboxes.Valid;
      mail.Known();
      this.mail := mail;
      this.endpoints := endpoints;
      objects, next, faulted := map[], 0, false;
      frees, written, read := multiset{}, map e | e in endpoints :: [], map e | e in endpoints :: [];
    }

    /** channel_file_write at endpoint e. */
    method FileWrite(e: nat, message: Message) returns (ok: bool)
      requires Valid() && WellFormed(View()) && e in endpoints
      modifies this, mail.repr
      ensures Valid() && fresh(mail.repr - old(mail.repr))
      ensures View() == Write(old(View()), e, message) && (ok <==> message != [])
    {
      hide Broadcast, WaitersKnown, Mailboxes.View, Mailboxes.Valid;
      if message == [] { return false; }
      mail.Known();
      var id := next;
      objects := objects[id := message];
      next := next + 1;
      mail.FanOut(endpoints, e, id);
      written := written[e := written[e] + [message]];
      return true;
    }

    /** One pass of channel_file_read at endpoint e. */
    method FileRead(e: nat, size: nat, blocking: bool) returns (r: Result)
      requires Valid() && WellFormed(View()) && e in endpoints && ThreadRuns(mail.scheduler.View())
      modifies this, mail.repr
      ensures Valid() && fresh(mail.repr - old(mail.repr))
      ensures (View(), r) == Read(old(View()), e, size, blocking)
      ensures r == Waits <==> size > 0 && blocking && old(View().ipc.boxes[e].items) == []
    {
      hide Wait, WaitersKnown, Mailboxes.View, Mailboxes.Valid, ThreadRuns, Distinct, Scheduler.View, Take;
      mail.Known();
      PassWaits(View(), e, size, blocking);
      if size == 0 { return Refused; }
      var item := mail.Peek(e, blocking);
      if item == None {
        return if blocking then Waits else Refused;
      }
      var id := item.value;
      if id !in objects {
        faulted := true;
        return Refused;
      }
      var message := objects[id];
      if |message| > size { return Refused; }
      objects := objects - {id};
      frees := frees + multiset{id};
      mail.Pop(e);
      read := read[e := read[e] + [message]];
      return Got(message);
    }
  }
}
