/** The event ring of the xHCI driver: the controller writes events, and the driver tells a new event
    from an old one by its cycle bit alone (section 4.9.4 of the xHCI specification). */
module EventRing {
  import opened Sequences

  /** An event: its cycle bit and everything else in it. */
  datatype Event = Event(body: nat, cycle: bool)

  /** The ring as the driver sees it: the next event is expected in slot count with this cycle bit. */
  datatype Ring = Ring(slots: seq<Event>, count: nat, cycle: bool)

  /** The controller's enqueue pointer, as a slot number, and its producer cycle state. */
  datatype Controller = Controller(enqueue: nat, cycle: bool)

  /** xhci_event_ring_init. */
  function Initial(memory: seq<Event>): Ring {
    Ring(memory, 0, true)
  }

  /** xhci_event_ring_has_valid_trb. */
  predicate HasEvent(r: Ring)
    requires r.count < |r.slots|
  {
    r.slots[r.count].cycle == r.cycle
  }

  /** xhci_event_ring_dequeue. */
  function Dequeue(r: Ring): (Ring, Option<nat>)
    requires r.count < |r.slots|
  {
    if !HasEvent(r) then (r, None)
    else
      var around := r.count + 1 >= |r.slots|;
      (Ring(r.slots, if around then 0 else r.count + 1, if around then !r.cycle else r.cycle),
       Some(r.slots[r.count].body))
  }

  /** The ring, the controller, and what has been posted and read so far. postedBefore and readBefore
      count the events of the laps before the current one of each side. */
  datatype System = System(ring: Ring, controller: Controller, posted: seq<nat>, read: seq<nat>,
                           postedBefore: nat, readBefore: nat)

  datatype Action = Post(body: nat) | Read

  function Start(memory: seq<Event>): System {
    System(Initial(memory), Controller(0, true), [], [], 0, 0)
  }

  predicate WellFormed(s: System) {
    s.ring.count < |s.ring.slots| && s.controller.enqueue < |s.ring.slots|
  }

  function Next(s: System, a: Action): System
    requires WellFormed(s)
  {
    match a
    case Post(body) =>
      var p, around := s.controller.enqueue, s.controller.enqueue + 1 >= |s.ring.slots|;
      s.(ring := s.ring.(slots := s.ring.slots[p := Event(body, s.controller.cycle)]), posted := s.posted + [body],
         controller := if around then Controller(0, !s.controller.cycle) else Controller(p + 1, s.controller.cycle),
         postedBefore := if around then |s.posted| + 1 else s.postedBefore)
    case Read =>
      var (r, e) := Dequeue(s.ring);
      s.(ring := r, read := if e.Some? then s.read + [e.value] else s.read,
         readBefore := if e.Some? && r.count == 0 then |s.read| + 1 else s.readBefore)
  }

  // --------------------------------------------------------------------------------- invariant

  ghost predicate PostedAt(s: System, e: Event, i: int) {
    0 <= i < |s.posted| && e.body == s.posted[i]
  }

  /** What slot j of the controller's current lap holds: an event of this lap, or one of the lap before
      with the other cycle bit. */
  ghost predicate SlotHolds(s: System, j: nat)
    requires j < |s.ring.slots|
  {
    var n, e, p := |s.ring.slots|, s.ring.slots[j], s.controller.enqueue;
    && (e.cycle == s.controller.cycle <==> j < p)
    && (j < p ==> PostedAt(s, e, s.postedBefore + j))
    && (j >= p && s.postedBefore > 0 ==> PostedAt(s, e, s.postedBefore - n + j))
  }

  ghost predicate SlotsHold(s: System) {
    forall j :: 0 <= j < |s.ring.slots| ==> SlotHolds(s, j)
  }

  ghost predicate Counted(s: System) {
    && |s.posted| == s.postedBefore + s.controller.enqueue && |s.read| == s.readBefore + s.ring.count
    && |s.read| <= |s.posted| <= |s.read| + |s.ring.slots|
  }

  /** The driver is in the controller's lap or one behind. */
  ghost predicate InStep(s: System) {
    || (s.readBefore == s.postedBefore && s.ring.cycle == s.controller.cycle)
    || (s.readBefore + |s.ring.slots| == s.postedBefore && s.ring.cycle != s.controller.cycle)
  }

  ghost predicate Inv(s: System) {
    WellFormed(s) && Counted(s) && InStep(s) && SlotsHold(s) && s.read == s.posted[..|s.read|]
  }

  predicate Cleared(memory: seq<Event>) {
    memory != [] && forall j :: 0 <= j < |memory| ==> !memory[j].cycle
  }

  lemma StartsSoundExactly(memory: seq<Event>)
    requires memory != []
    ensures Inv(Start(memory)) <==> Cleared(memory)
  {
    var s := Start(memory);
    forall j | 0 <= j < |memory| ensures SlotHolds(s, j) <==> !memory[j].cycle { }
  }

  /** The driver sees an event exactly when one is unread, and then takes the oldest: a full ring and an
      empty one differ. */
  lemma SeenExactly(s: System)
    requires Inv(s)
    ensures HasEvent(s.ring) <==> |s.read| < |s.posted|
    ensures HasEvent(s.ring) ==> s.ring.slots[s.ring.count].body == s.posted[|s.read|]
    ensures Dequeue(s.ring).1 == if |s.read| < |s.posted| then Some(s.posted[|s.read|]) else None
  {
    assert SlotHolds(s, s.ring.count);
  }

  /** The controller has room while not every slot holds an unread event. */
  predicate Room(s: System) {
    |s.posted| - |s.read| < |s.ring.slots|
  }

  lemma PostKeeps(s: System, body: nat)
    requires Inv(s) && Room(s)
    ensures Inv(Next(s, Post(body)))
  {
    var t := Next(s, Post(body));
    assert t.posted[..|t.read|] == s.posted[..|s.read|];
    forall j | 0 <= j < |t.ring.slots| ensures SlotHolds(t, j) {
      assert SlotHolds(s, j);
    }
  }

  lemma ReadKeeps(s: System)
    requires Inv(s)
    ensures Inv(Next(s, Read))
  {
    SeenExactly(s);
    var t := Next(s, Read);
    forall j | 0 <= j < |t.ring.slots| ensures SlotHolds(t, j) {
      assert SlotHolds(s, j);
    }
  }

  /** One event posted beyond the room there is hides every unread event from the driver. */
  lemma OverfullIsUnseen(s: System, body: nat)
    requires Inv(s) && !Room(s)
    ensures var t := Next(s, Post(body)); WellFormed(t) && !HasEvent(t.ring) && |t.read| < |t.posted|
  {
  }

  /** A post keeps the ring sound exactly when there is room. */
  lemma PostKeepsExactly(s: System, body: nat)
    requires WellFormed(s) && Inv(s)
    ensures Inv(Next(s, Post(body))) <==> Room(s)
  {
    hide Inv;
    if Room(s) {
      PostKeeps(s, body);
    } else {
      OverfullIsUnseen(s, body);
      if Inv(Next(s, Post(body))) { SeenExactly(Next(s, Post(body))); }
    }
  }

  // -------------------------------------------------------------------------------------- runs

  function Run(s: System, actions: seq<Action>): (t: System)
    requires WellFormed(s) && Within(s, actions)
    decreases |actions|
  {
    if actions == [] then s else Run(Next(s, actions[0]), actions[1..])
  }

  /** The controller never posts without room. */
  predicate Within(s: System, actions: seq<Action>)
    requires WellFormed(s)
    decreases |actions|
  {
    actions == [] || (
      && (actions[0].Post? ==> Room(s))
      && WellFormed(Next(s, actions[0])) && Within(Next(s, actions[0]), actions[1..]))
  }

  lemma {:induction false} RunKeeps(s: System, actions: seq<Action>)
    requires Inv(s) && Within(s, actions)
    ensures Inv(Run(s, actions))
    decreases |actions|
  {
    if actions != [] {
      match actions[0] {
        case Post(body) => PostKeeps(s, body);
        case Read => ReadKeeps(s);
      }
      RunKeeps(Next(s, actions[0]), actions[1..]);
    }
  }

  /** The driver has read a prefix of the events posted, each once and in order, and sees another
      exactly when one is unread. */
  ghost predicate InOrder(s: System) {
    s.read <= s.posted && WellFormed(s) && (HasEvent(s.ring) <==> s.read < s.posted)
  }

  /** Over any number of laps of a ring that started clear, the driver reads in order. */
  lemma ReadsInOrder(memory: seq<Event>, actions: seq<Action>)
    requires Cleared(memory) && Within(Start(memory), actions)
    ensures InOrder(Run(Start(memory), actions))
  {
    StartsSoundExactly(memory);
    RunKeeps(Start(memory), actions);
    SeenExactly(Run(Start(memory), actions));
  }

  // ------------------------------------------------------------------- memory that was not clear

  /** j events, each read as soon as it is posted. */
  function OneByOne(j: nat): seq<Action> {
    if j == 0 then [] else OneByOne(j - 1) + [Post(0), Read]
  }

  function WarmSlots(memory: seq<Event>, j: nat): (slots: seq<Event>)
    ensures |slots| == |memory|
  {
    seq(|memory|, i requires 0 <= i < |memory| => if i < j then Event(0, true) else memory[i])
  }

  /** The ring after that. */
  function Warm(memory: seq<Event>, j: nat): System
    requires j < |memory|
  {
    System(Ring(WarmSlots(memory, j), j, true), Controller(j, true), seq(j, _ => 0), seq(j, _ => 0), 0, 0)
  }

  lemma WarmStep(memory: seq<Event>, j: nat)
    requires j + 1 < |memory|
    ensures var s := Warm(memory, j);
      && WellFormed(s) && Room(s)
      && WellFormed(Next(s, Post(0))) && Next(Next(s, Post(0)), Read) == Warm(memory, j + 1)
      && WellFormed(Warm(memory, j + 1))
  {
    var s := Warm(memory, j);
    assert Next(s, Post(0)).ring.slots == WarmSlots(memory, j + 1);
  }

  lemma WarmStart(memory: seq<Event>)
    requires memory != []
    ensures Warm(memory, 0) == Start(memory)
  {
    assert WarmSlots(memory, 0) == memory;
  }

  lemma {:induction false} WarmRun(memory: seq<Event>, j: nat, rest: seq<Action>)
    requires j < |memory| && WellFormed(Warm(memory, j)) && Within(Warm(memory, j), rest)
    ensures Within(Start(memory), OneByOne(j) + rest)
    ensures Run(Start(memory), OneByOne(j) + rest) == Run(Warm(memory, j), rest)
  {
    hide Within, Run, Next, Warm, WellFormed;
    if j == 0 {
      WarmStart(memory);
      assert OneByOne(0) + rest == rest;
    } else {
      var s, last := Warm(memory, j - 1), [Post(0), Read] + rest;
      WarmStep(memory, j - 1);
      TwoSteps(s, rest);
      WarmRun(memory, j - 1, last);
      assert OneByOne(j) + rest == OneByOne(j - 1) + last;
    }
  }

  lemma TwoSteps(s: System, rest: seq<Action>)
    requires WellFormed(s) && Room(s)
    requires WellFormed(Next(s, Post(0))) && WellFormed(Next(Next(s, Post(0)), Read))
    requires Within(Next(Next(s, Post(0)), Read), rest)
    ensures Within(s, [Post(0), Read] + rest)
    ensures Run(s, [Post(0), Read] + rest) == Run(Next(Next(s, Post(0)), Read), rest)
  {
    var last, all := [Read] + rest, [Post(0), Read] + rest;
    assert last[1..] == rest && all[1..] == last;
    assert Within(Next(s, Post(0)), last);
  }

  /** The initialisation clears no memory. Every run reads in order if and only if all slots were clear
      before: at one that was not, the driver sees an event that was never posted. */
  lemma ReadsInOrderExactly(memory: seq<Event>)
    requires memory != []
    ensures (forall actions :: Within(Start(memory), actions) ==> InOrder(Run(Start(memory), actions)))
            <==> Cleared(memory)
  {
    if Cleared(memory) {
      forall actions | Within(Start(memory), actions) ensures InOrder(Run(Start(memory), actions)) {
        ReadsInOrder(memory, actions);
      }
    } else {
      var j: nat :| j < |memory| && memory[j].cycle;
      WarmRun(memory, j, []);
      assert !InOrder(Warm(memory, j));
      assert !InOrder(Run(Start(memory), OneByOne(j) + []));
    }
  }

  // ---------------------------------------------------------------------------------- in place

  class Consumer {
    const slots: array<Event>
    var dequeuePtr: nat
    var entryCount: nat
    const ringSize: nat
    var cycleBit: bool

    ghost predicate Valid()
      reads this
    {
      slots.Length == ringSize && dequeuePtr == entryCount < ringSize
    }

    ghost function View(): Ring
      reads this, slots
    {
      Ring(slots[..], entryCount, cycleBit)
    }

    /** xhci_event_ring_init over memory for ringSize events. */
    constructor (memory: array<Event>)
      requires memory.Length > 0
      ensures Valid() && slots == memory && View() == Initial(memory[..])
    {
      slots := memory;
      dequeuePtr := 0;
      ringSize := memory.Length;
      entryCount := 0;
      cycleBit := true;
    }

    /** xhci_event_ring_has_valid_trb. */
    method HasValidTrb() returns (valid: bool)
      requires Valid()
      ensures valid == HasEvent(View())
    {
      return slots[dequeuePtr].cycle == cycleBit;
    }

    /** xhci_event_ring_dequeue. */
    method DequeueEvent() returns (e: Option<nat>)
      requires Valid()
      modifies this
      ensures Valid() && (View(), e) == Dequeue(old(View()))
    {
      var valid := HasValidTrb();
      if !valid { return None; }
      e := Some(slots[dequeuePtr].body);
      dequeuePtr := dequeuePtr + 1;
      entryCount := entryCount + 1;
      if entryCount >= ringSize {
        cycleBit := !cycleBit;
        dequeuePtr := 0;
        entryCount := 0;
      }
    }
  }
}
