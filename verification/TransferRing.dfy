/** The transfer ring of the xHCI driver and the controller that reads it: the driver writes TRBs and
    never learns where the controller is; the controller follows cycle bits and the Link TRB (sections
    4.9.2 and 6.4.4.1 of the xHCI specification). */
module TransferRing {
  /** A transfer request block: its cycle bit, whether it is a Link TRB with the toggle bit set, and
      everything else in it. */
  datatype Trb = Trb(body: nat, link: bool, cycle: bool)

  /** The ring as the driver sees it. The last slot is the Link TRB; the next TRB goes to slot count. */
  datatype Ring = Ring(slots: seq<Trb>, count: nat, cycle: bool)

  /** The controller's dequeue pointer, as a slot number, and its consumer cycle state. */
  datatype Controller = Controller(dequeue: nat, cycle: bool)

  function LinkTrb(cycle: bool): Trb {
    Trb(0, true, cycle)
  }

  /** xhci_transfer_ring_init. */
  function Initial(memory: seq<Trb>): Ring
    requires |memory| >= 2
  {
    Ring(memory[|memory| - 1 := LinkTrb(true)], 0, true)
  }

  /** A full lap: the Link TRB gets the cycle bit of the lap it ends, and the next lap begins. */
  function TurnAround(r: Ring): Ring
    requires r.slots != []
  {
    var last := |r.slots| - 1;
    if r.count >= last then Ring(r.slots[last := r.slots[last].(cycle := r.cycle)], 0, !r.cycle) else r
  }

  function Put(r: Ring, body: nat): Ring
    requires r.count < |r.slots|
  {
    Ring(r.slots[r.count := Trb(body, false, r.cycle)], r.count + 1, r.cycle)
  }

  /** xhci_transfer_ring_enqueue: two writes that the controller may see apart. */
  function Enqueue(r: Ring, body: nat): Ring
    requires r.slots != [] && r.count < |r.slots|
  {
    Put(TurnAround(r), body)
  }

  /** The ring, the controller, and what has been sent and consumed so far. sentBefore counts the TRBs
      sent before the driver's current lap, readBefore those consumed before the controller's. */
  datatype System = System(ring: Ring, controller: Controller, sent: seq<nat>, consumed: seq<nat>,
                           sentBefore: nat, readBefore: nat)

  /** The driver's two writes and the controller's step. */
  datatype Action = Turn | Write(body: nat) | Fetch

  function Start(memory: seq<Trb>): System
    requires |memory| >= 2
  {
    System(Initial(memory), Controller(0, true), [], [], 0, 0)
  }

  /** The controller has no TRB it may process. */
  predicate Stalled(s: System)
    requires s.controller.dequeue < |s.ring.slots|
  {
    s.ring.slots[s.controller.dequeue].cycle != s.controller.cycle
  }

  predicate WellFormed(s: System) {
    2 <= |s.ring.slots| && s.ring.count < |s.ring.slots| && s.controller.dequeue < |s.ring.slots|
  }

  function Next(s: System, a: Action): System
    requires WellFormed(s)
  {
    match a
    case Turn =>
      s.(ring := TurnAround(s.ring),
         sentBefore := if s.ring.count >= |s.ring.slots| - 1 then |s.sent| else s.sentBefore)
    case Write(body) => s.(ring := Put(s.ring, body), sent := s.sent + [body])
    case Fetch =>
      var t := s.ring.slots[s.controller.dequeue];
      if Stalled(s) then s
      else if t.link then s.(controller := Controller(0, !s.controller.cycle), readBefore := |s.consumed|)
      else s.(controller := Controller(s.controller.dequeue + 1, s.controller.cycle), consumed := s.consumed + [t.body])
  }

  // --------------------------------------------------------------------------------- invariant

  ghost predicate SentAt(s: System, t: Trb, i: int) {
    0 <= i < |s.sent| && t.body == s.sent[i] && !t.link
  }

  /** What slot j of the driver's current lap holds: its own TRB, or the one of the lap before, with
      the other cycle bit. */
  ghost predicate SlotHolds(s: System, j: nat)
    requires j < |s.ring.slots|
  {
    var n, t := |s.ring.slots| - 1, s.ring.slots[j];
    && (t.cycle == s.ring.cycle <==> j < s.ring.count)
    && (j < s.ring.count ==> SentAt(s, t, s.sentBefore + j))
    && (j >= s.ring.count && s.sentBefore > 0 ==> SentAt(s, t, s.sentBefore - n + j))
  }

  ghost predicate SlotsHold(s: System) {
    forall j :: 0 <= j < |s.ring.slots| - 1 ==> SlotHolds(s, j)
  }

  ghost predicate Counted(s: System) {
    var n := |s.ring.slots| - 1;
    && |s.sent| == s.sentBefore + s.ring.count && |s.consumed| == s.readBefore + s.controller.dequeue
    && |s.consumed| <= |s.sent| <= |s.consumed| + n
    && (s.sentBefore > 0 && s.ring.count == 0 ==> Room(s)) && (s.sentBefore == 0 ==> s.ring.cycle)
    && s.ring.slots[n] == LinkTrb(if s.sentBefore == 0 then s.ring.cycle else !s.ring.cycle)
  }

  /** The controller is in the driver's lap, one lap behind, or, at the very start, already past the
      Link TRB of the full first lap. */
  ghost predicate InStep(s: System) {
    var n := |s.ring.slots| - 1;
    || (s.readBefore == s.sentBefore && s.controller.cycle == s.ring.cycle)
    || (s.readBefore + n == s.sentBefore && s.controller.cycle != s.ring.cycle)
    || (s.readBefore == n && s.sentBefore == 0 && s.ring.count == n && s.controller == Controller(0, false))
  }

  ghost predicate Inv(s: System) {
    WellFormed(s) && Counted(s) && InStep(s) && SlotsHold(s) && s.consumed == s.sent[..|s.consumed|]
  }

  predicate Cleared(memory: seq<Trb>) {
    |memory| >= 2 && forall j :: 0 <= j < |memory| - 1 ==> !memory[j].cycle
  }

  lemma StartsSoundExactly(memory: seq<Trb>)
    requires |memory| >= 2
    ensures Inv(Start(memory)) <==> Cleared(memory)
  {
    var s := Start(memory);
    forall j | 0 <= j < |memory| - 1 ensures SlotHolds(s, j) <==> !memory[j].cycle { }
  }

  /** The driver may send while fewer TRBs are outstanding than the ring has slots beside the Link. */
  predicate Room(s: System) {
    |s.sent| - |s.consumed| < |s.ring.slots| - 1
  }

  lemma TurnKeeps(s: System)
    requires Inv(s) && Room(s)
    ensures Inv(Next(s, Turn))
  {
    var t, n := Next(s, Turn), |s.ring.slots| - 1;
    forall j | 0 <= j < n ensures SlotHolds(t, j) {
      assert SlotHolds(s, j);
    }
  }

  lemma WriteKeeps(s: System, body: nat)
    requires Inv(s) && Room(s) && s.ring.count < |s.ring.slots| - 1
    ensures Inv(Next(s, Write(body)))
  {
    var t, n := Next(s, Write(body)), |s.ring.slots| - 1;
    assert t.sent[..|t.consumed|] == s.sent[..|s.consumed|];
    forall j | 0 <= j < n ensures SlotHolds(t, j) {
      assert SlotHolds(s, j);
    }
  }

  lemma SameSlots(s: System, t: System)
    requires SlotsHold(s) && t.ring == s.ring && t.sent == s.sent && t.sentBefore == s.sentBefore
    ensures SlotsHold(t)
  {
    forall j | 0 <= j < |s.ring.slots| - 1 ensures SlotHolds(t, j) {
      assert SlotHolds(s, j);
    }
  }

  lemma FetchKeeps(s: System)
    requires Inv(s)
    ensures Inv(Next(s, Fetch))
  {
    hide SlotsHold;
    SameSlots(s, Next(s, Fetch));
    if !Stalled(s) { FetchedSlot(s); }
  }

  /** The slot at the dequeue pointer, if the controller may process it. */
  lemma FetchedSlot(s: System)
    requires WellFormed(s) && Counted(s) && InStep(s) && SlotsHold(s) && !Stalled(s)
    ensures var t := s.ring.slots[s.controller.dequeue];
      if s.controller.dequeue < |s.ring.slots| - 1 then
        |s.consumed| < |s.sent| && t.body == s.sent[|s.consumed|] && !t.link
      else t.link
  {
    var d := s.controller.dequeue;
    if d < |s.ring.slots| - 1 { assert SlotHolds(s, d); }
  }

  /** The controller stalls only when it has consumed everything: otherwise its next step, or the one
      after it has followed the Link TRB, consumes the oldest TRB outstanding. */
  lemma OutstandingIsConsumed(s: System)
    requires Inv(s) && |s.consumed| < |s.sent|
    ensures !Stalled(s)
    ensures var t, more := Next(s, Fetch), s.consumed + [s.sent[|s.consumed|]];
      t.consumed == more || (t.consumed == s.consumed && WellFormed(t) && Next(t, Fetch).consumed == more)
  {
    var n, d := |s.ring.slots| - 1, s.controller.dequeue;
    if d < n {
      assert SlotHolds(s, d);
    } else {
      assert SlotHolds(s, 0);
    }
  }

  /** One TRB enqueued beyond the room there is leaves the controller stalled with TRBs unread. */
  lemma OverfullStalls(s: System, body: nat)
    requires Inv(s) && !Room(s)
    ensures var t := Next(s, Turn);
      WellFormed(t) && var u := Next(t, Write(body)); WellFormed(u) && Stalled(u) && |u.consumed| < |u.sent|
  {
  }

  /** An enqueue keeps the ring sound exactly when there is room. */
  lemma EnqueueKeepsExactly(s: System, body: nat)
    requires WellFormed(s) && Inv(s)
    ensures var t := Next(s, Turn);
      && WellFormed(t) && Next(t, Write(body)).ring == Enqueue(s.ring, body)
      && (Inv(Next(t, Write(body))) <==> Room(s))
  {
    hide Inv, Stalled;
    if Room(s) {
      TurnKeeps(s);
      SpaceAfterTurn(s);
      WriteKeeps(Next(s, Turn), body);
    } else {
      OverfullStalls(s, body);
      var u := Next(Next(s, Turn), Write(body));
      if Inv(u) { OutstandingIsConsumed(u); }
    }
  }

  lemma SpaceAfterTurn(s: System)
    requires Inv(s)
    ensures Next(s, Turn).ring.count < |s.ring.slots| - 1 == |Next(s, Turn).ring.slots| - 1 && WellFormed(Next(s, Turn))
    ensures Room(s) ==> Room(Next(s, Turn))
  {
  }

  // -------------------------------------------------------------------------------------- runs

  function Run(s: System, actions: seq<Action>): (t: System)
    requires WellFormed(s) && Within(s, actions)
    decreases |actions|
  {
    if actions == [] then s else Run(Next(s, actions[0]), actions[1..])
  }

  /** The driver never enqueues without room, and writes a TRB only in a lap that is not full. */
  predicate Within(s: System, actions: seq<Action>)
    requires WellFormed(s)
    decreases |actions|
  {
    actions == [] || (
      && (!actions[0].Fetch? ==> Room(s)) && (actions[0].Write? ==> s.ring.count < |s.ring.slots| - 1)
      && WellFormed(Next(s, actions[0])) && Within(Next(s, actions[0]), actions[1..]))
  }

  lemma {:induction false} RunKeeps(s: System, actions: seq<Action>)
    requires Inv(s) && Within(s, actions)
    ensures Inv(Run(s, actions))
    decreases |actions|
  {
    if actions != [] {
      match actions[0] {
        case Turn => TurnKeeps(s);
        case Write(body) => WriteKeeps(s, body);
        case Fetch => FetchKeeps(s);
      }
      RunKeeps(Next(s, actions[0]), actions[1..]);
    }
  }

  /** The controller has consumed a prefix of what was sent, and when it is stalled it has consumed all
      of it. */
  ghost predicate InOrder(s: System) {
    s.consumed <= s.sent && WellFormed(s) && (Stalled(s) ==> s.consumed == s.sent)
  }

  /** Over any number of laps of a ring that started clear, the controller consumes in order. */
  lemma ConsumesInOrder(memory: seq<Trb>, actions: seq<Action>)
    requires Cleared(memory) && Within(Start(memory), actions)
    ensures InOrder(Run(Start(memory), actions))
  {
    StartsSoundExactly(memory);
    RunKeeps(Start(memory), actions);
    var s := Run(Start(memory), actions);
    if |s.consumed| < |s.sent| { OutstandingIsConsumed(s); }
  }

  // ------------------------------------------------------------------- memory that was not clear

  /** j TRBs, each consumed as soon as it is written. */
  function OneByOne(j: nat): seq<Action> {
    if j == 0 then [] else OneByOne(j - 1) + [Write(0), Fetch]
  }

  function WarmSlots(memory: seq<Trb>, j: nat): (slots: seq<Trb>)
    requires |memory| >= 2
    ensures |slots| == |memory|
  {
    seq(|memory|, i requires 0 <= i < |memory| =>
      if i < j then Trb(0, false, true) else if i == |memory| - 1 then LinkTrb(true) else memory[i])
  }

  /** The ring after that. */
  function Warm(memory: seq<Trb>, j: nat): System
    requires 2 <= |memory| && j < |memory|
  {
    System(Ring(WarmSlots(memory, j), j, true), Controller(j, true), seq(j, _ => 0), seq(j, _ => 0), 0, 0)
  }

  lemma WarmStep(memory: seq<Trb>, j: nat)
    requires 2 <= |memory| && j + 1 < |memory|
    ensures var s := Warm(memory, j);
      && WellFormed(s) && Room(s) && s.ring.count < |s.ring.slots| - 1
      && WellFormed(Next(s, Write(0))) && Next(Next(s, Write(0)), Fetch) == Warm(memory, j + 1)
      && WellFormed(Warm(memory, j + 1))
  {
    var s := Warm(memory, j);
    assert Put(s.ring, 0).slots == WarmSlots(memory, j + 1);
  }

  lemma WarmStart(memory: seq<Trb>)
    requires |memory| >= 2
    ensures Warm(memory, 0) == Start(memory)
  {
    assert WarmSlots(memory, 0) == Initial(memory).slots;
  }

  lemma {:induction false} WarmRun(memory: seq<Trb>, j: nat, rest: seq<Action>)
    requires 2 <= |memory| && j < |memory| && WellFormed(Warm(memory, j)) && Within(Warm(memory, j), rest)
    ensures Within(Start(memory), OneByOne(j) + rest)
    ensures Run(Start(memory), OneByOne(j) + rest) == Run(Warm(memory, j), rest)
  {
    hide Within, Run, Next, Warm, WellFormed;
    if j == 0 {
      WarmStart(memory);
      assert OneByOne(0) + rest == rest;
    } else {
      var s, last := Warm(memory, j - 1), [Write(0), Fetch] + rest;
      WarmStep(memory, j - 1);
      TwoSteps(s, rest);
      WarmRun(memory, j - 1, last);
      assert OneByOne(j) + rest == OneByOne(j - 1) + last;
    }
  }

  lemma TwoSteps(s: System, rest: seq<Action>)
    requires WellFormed(s) && Room(s) && s.ring.count < |s.ring.slots| - 1
    requires WellFormed(Next(s, Write(0))) && WellFormed(Next(Next(s, Write(0)), Fetch))
    requires Within(Next(Next(s, Write(0)), Fetch), rest)
    ensures Within(s, [Write(0), Fetch] + rest)
    ensures Run(s, [Write(0), Fetch] + rest) == Run(Next(Next(s, Write(0)), Fetch), rest)
  {
    var last, all := [Fetch] + rest, [Write(0), Fetch] + rest;
    assert last[1..] == rest && all[1..] == last;
    assert Within(Next(s, Write(0)), last);
  }

  /** A slot that was not clear breaks a run in the first lap: when the controller comes to it, it
      consumes what nobody sent, or follows it as a Link and never sees the TRB written there next. */
  lemma StaleSlotBreaksRun(memory: seq<Trb>, j: nat) returns (actions: seq<Action>)
    requires 2 <= |memory| && j < |memory| - 1 && memory[j].cycle
    ensures Within(Start(memory), actions) && !InOrder(Run(Start(memory), actions))
  {
    var s := Warm(memory, j);
    var t := Next(s, Fetch);
    if memory[j].link {
      var rest: seq<Action> := [Fetch, Write(0)];
      var u := Next(t, Write(0));
      assert Within(t, [Write(0)]) && Run(t, [Write(0)]) == u;
      assert rest[1..] == [Write(0)];
      assert Stalled(u);
      WarmRun(memory, j, rest);
      actions := OneByOne(j) + rest;
    } else {
      var rest: seq<Action> := [Fetch];
      assert rest[1..] == [];
      WarmRun(memory, j, rest);
      actions := OneByOne(j) + rest;
    }
  }

  /** The initialisation clears no memory but the Link TRB. Every run consumes in order if and only if
      the other slots were clear before. */
  lemma ConsumesInOrderExactly(memory: seq<Trb>)
    requires |memory| >= 2
    ensures (forall actions :: Within(Start(memory), actions) ==> InOrder(Run(Start(memory), actions)))
            <==> Cleared(memory)
  {
    hide Within, Run, InOrder;
    if Cleared(memory) {
      forall actions | Within(Start(memory), actions) ensures InOrder(Run(Start(memory), actions)) {
        ConsumesInOrder(memory, actions);
      }
    } else {
      var j: nat :| j < |memory| - 1 && memory[j].cycle;
      var actions := StaleSlotBreaksRun(memory, j);
    }
  }

  // ---------------------------------------------------------------------------------- in place

  class Producer {
    const slots: array<Trb>
    var enqueuePtr: nat
    var entryCount: nat
    const ringSize: nat
    var cycleBit: bool

    ghost predicate Valid()
      reads this
    {
      slots.Length == ringSize && 2 <= ringSize && enqueuePtr == entryCount < ringSize
    }

    ghost function View(): Ring
      reads this, slots
    {
      Ring(slots[..], entryCount, cycleBit)
    }

    /** xhci_transfer_ring_init over memory for ringSize TRBs. */
    constructor (memory: array<Trb>)
      requires memory.Length >= 2
      modifies memory
      ensures Valid() && slots == memory && View() == Initial(old(memory[..]))
    {
      slots := memory;
      enqueuePtr := 0;
      ringSize := memory.Length;
      entryCount := 0;
      cycleBit := true;
      new;
      slots[ringSize - 1] := LinkTrb(true);
    }

    /** xhci_transfer_ring_enqueue. */
    method EnqueueTrb(body: nat)
      requires Valid()
      modifies this, slots
      ensures Valid() && View() == Enqueue(old(View()), body)
    {
      if entryCount >= ringSize - 1 {
        slots[ringSize - 1] := slots[ringSize - 1].(cycle := cycleBit);
        cycleBit := !cycleBit;
        enqueuePtr := 0;
        entryCount := 0;
      }
      slots[enqueuePtr] := Trb(body, false, cycleBit);
      enqueuePtr := enqueuePtr + 1;
      entryCount := entryCount + 1;
    }
  }
}
