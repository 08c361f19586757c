/** The process-wide memory budget shared by every session: unit arithmetic and atomic acquisition. */
module Budget {
  import opened Wrappers

  const MESSAGE_MEMORY_BASE_BYTES: nat := 2 * 1024 * 1024
  const MESSAGE_MEMORY_BYTES_PER_WIRE_BYTE: nat := 16
  const FRAMING_MEMORY_BYTES_PER_WIRE_BYTE: nat := 2
  const BUDGET_UNIT_BYTES: nat := 4 * 1024
  const CONTROL_FRAME_MAX_BYTES: nat := 4 * 1024
  const MIN_MESSAGE_MEMORY_BUDGET_BYTES: nat := 2 * 1024 * 1024 + 4 * 1024
  const DEFAULT_MESSAGE_MEMORY_BUDGET_BYTES: nat :=
    MESSAGE_MEMORY_BASE_BYTES + 64 * 1024 * 1024 * MESSAGE_MEMORY_BYTES_PER_WIRE_BYTE
  const U32_MAX: nat := 0xFFFF_FFFF

  datatype BudgetError = TooLarge | Exhausted

  function UnitsOf(bytes: nat): nat {
    (bytes + BUDGET_UNIT_BYTES - 1) / BUDGET_UNIT_BYTES
  }

  function FramingBytes(wire: nat): nat {
    MESSAGE_MEMORY_BASE_BYTES + FRAMING_MEMORY_BYTES_PER_WIRE_BYTE * wire
  }

  function DecodedBytes(wire: nat): nat {
    MESSAGE_MEMORY_BASE_BYTES + MESSAGE_MEMORY_BYTES_PER_WIRE_BYTE * wire
  }

  /** The units an estimate costs, cut to 32 bits before it is compared with the capacity. */
  function UnitsForEstimate(capacity: nat, bytes: nat): Option<nat> {
    var units := if UnitsOf(bytes) > U32_MAX then U32_MAX else UnitsOf(bytes);
    if units > capacity then None else Some(units)
  }

  /** What a frame needs: little while it is being read, much once it may be decoded. */
  function Needed(capacity: nat, wire: nat, decoded: bool): Option<nat> {
    UnitsForEstimate(capacity, if decoded then DecodedBytes(wire) else FramingBytes(wire))
  }

  /**
   A frame of `wire` bytes is charged two mebibytes and two bytes per byte while it is read, sixteen once it may be
   decoded, rounded up to units of four kibibytes. It is refused exactly when that exceeds the whole budget, except that
   a budget of as many units as there can be refuses nothing.
   */
  lemma ChargeIsExact(capacity: nat, wire: nat, decoded: bool)
    requires capacity <= U32_MAX
    ensures var bytes := 2 * 1024 * 1024 + (if decoded then 16 * wire else 2 * wire);
            match Needed(capacity, wire, decoded)
            case None => capacity < U32_MAX && capacity * 4096 < bytes
            case Some(units) =>
              && (capacity < U32_MAX ==> bytes <= capacity * 4096)
              && units * 4096 < bytes + 4096
              && (units < U32_MAX ==> bytes <= units * 4096)
  {
  }

  /** The default budget admits a message exactly up to the default maximum of 64 mebibytes. */
  lemma DefaultAdmitsExactly(wire: nat)
    ensures Needed(UnitsOf(DEFAULT_MESSAGE_MEMORY_BUDGET_BYTES), wire, true).Some? <==> wire <= 64 * 1024 * 1024
  {
  }

  datatype Acquired = Acquired(available: nat, lease: nat, outcome: Result<(), BudgetError>)

  /** Raise a lease to what is needed, all or nothing and without waiting. */
  function Upgrade(capacity: nat, available: nat, lease: nat, wire: nat, decoded: bool): (a: Acquired)
    ensures a.available + a.lease == available + lease
    ensures a.lease >= lease
    ensures a.outcome.Err? ==> a.available == available && a.lease == lease
    ensures a.outcome.Ok? ==> Needed(capacity, wire, decoded).Some? && a.lease >= Needed(capacity, wire, decoded).value
    ensures a.outcome == Err(TooLarge) <==> Needed(capacity, wire, decoded).None?
    ensures a.outcome == Err(Exhausted) <==>
              Needed(capacity, wire, decoded).Some? && Needed(capacity, wire, decoded).value > available + lease
  {
    match Needed(capacity, wire, decoded)
    case None => Acquired(available, lease, Err(TooLarge))
    case Some(desired) =>
      if desired <= lease then Acquired(available, lease, Ok(()))
      else if desired - lease > available then Acquired(available, lease, Err(Exhausted))
      else Acquired(available - (desired - lease), desired, Ok(()))
  }

  /** `try_new`: refuse a budget that could not decode one byte, or one beyond 32-bit units. */
  method TryNew(capacityBytes: nat) returns (r: Result<nat, BudgetError>)
    ensures r.Ok? <==> MIN_MESSAGE_MEMORY_BUDGET_BYTES <= capacityBytes && UnitsOf(capacityBytes) <= U32_MAX
    ensures r.Ok? ==> r.value == UnitsOf(capacityBytes) && capacityBytes <= r.value * BUDGET_UNIT_BYTES < capacityBytes + BUDGET_UNIT_BYTES
    ensures r.Ok? ==> Needed(r.value, 1, true).Some?
  {
    if capacityBytes < MIN_MESSAGE_MEMORY_BUDGET_BYTES || UnitsOf(capacityBytes) > U32_MAX {
      return Err(TooLarge);
    }
    r := Ok(UnitsOf(capacityBytes));
  }
}

/** Any number of sessions sharing one budget, in any interleaving. */
module SharedBudget {
  import opened Wrappers
  import opened Budget
  import PackStream

  /** A message handed on by a framer, with its wire size and the lease that travels with it. */
  datatype Message = Message(wire: nat, lease: nat)

  /** The semaphore, the lease each session's framer holds, and the messages being decoded, executed or prefetched. */
  datatype System = System(capacity: nat, available: nat, framers: seq<nat>, messages: seq<Message>)

  datatype Action =
    | GrowFrame(session: nat, wire: nat)   // a chunk header takes the frame to this size
    | Deliver(session: nat, wire: nat)     // a complete data frame leaves the framer
    | DropFrame(session: nat)              // rejection, end of stream, or the session going away
    | Finish(message: nat)                 // the message was consumed, or its queue cleared

  function Init(capacity: nat, sessions: nat): System {
    System(capacity, capacity, seq(sessions, _ => 0), [])
  }

  function Act(s: System, a: Action): System {
    match a
    case GrowFrame(session, wire) =>
      if session >= |s.framers| then s else
        var up := Upgrade(s.capacity, s.available, s.framers[session], wire, false);
        s.(available := up.available, framers := s.framers[session := up.lease])
    case Deliver(session, wire) =>
      if session >= |s.framers| then s else
        var up := Upgrade(s.capacity, s.available, s.framers[session], wire, true);
        if up.outcome.Err? then s
        else s.(available := up.available, framers := s.framers[session := 0], messages := s.messages + [Message(wire, up.lease)])
    case DropFrame(session) =>
      if session >= |s.framers| then s
      else s.(available := s.available + s.framers[session], framers := s.framers[session := 0])
    case Finish(m) =>
      if m >= |s.messages| then s
      else s.(available := s.available + s.messages[m].lease, messages := s.messages[..m] + s.messages[m + 1..])
  }

  function Run(s: System, actions: seq<Action>): System
    decreases |actions|
  {
    if actions == [] then s else Run(Act(s, actions[0]), actions[1..])
  }

  function Sum(xs: seq<nat>): nat {
    if xs == [] then 0 else xs[0] + Sum(xs[1..])
  }

  function Leased(ms: seq<Message>): nat {
    if ms == [] then 0 else ms[0].lease + Leased(ms[1..])
  }

  /** The body plus the heap its decoder may admit, over all messages in flight. */
  function WorkingSet(ms: seq<Message>, maxLen: nat): nat {
    if ms == [] then 0
    else Footprint(ms[0].wire, maxLen) + WorkingSet(ms[1..], maxLen)
  }

  /** Nothing is lost or created, and every message carries the units its decoded size needs. */
  ghost predicate Accounted(s: System) {
    && s.available + Sum(s.framers) + Leased(s.messages) == s.capacity
    && forall i | 0 <= i < |s.messages| ::
         Needed(s.capacity, s.messages[i].wire, true).Some? && s.messages[i].lease >= Needed(s.capacity, s.messages[i].wire, true).value
  }

  lemma {:induction false} SumSet(xs: seq<nat>, i: nat, x: nat)
    requires i < |xs|
    ensures Sum(xs[i := x]) == Sum(xs) - xs[i] + x
  {
    if i == 0 {
      assert xs[0 := x][1..] == xs[1..];
    } else {
      SumSet(xs[1..], i - 1, x);
      assert xs[i := x][1..] == xs[1..][i - 1 := x];
    }
  }

  lemma {:induction false} LeasedConcat(a: seq<Message>, b: seq<Message>)
    ensures Leased(a + b) == Leased(a) + Leased(b)
  {
    if a == [] {
      assert a + b == b;
    } else {
      LeasedConcat(a[1..], b);
      assert (a + b)[1..] == a[1..] + b;
    }
  }

  lemma LeasedMore(ms: seq<Message>, m: Message)
    ensures Leased(ms + [m]) == Leased(ms) + m.lease
  {
    LeasedConcat(ms, [m]);
    assert [m][1..] == [];
  }

  lemma LeasedWithout(ms: seq<Message>, m: nat)
    requires m < |ms|
    ensures Leased(ms[..m] + ms[m + 1..]) == Leased(ms) - ms[m].lease
  {
    LeasedConcat(ms[..m], ms[m + 1..]);
    LeasedConcat(ms[..m], ms[m..]);
    assert ms == ms[..m] + ms[m..];
    assert ms[m..][1..] == ms[m + 1..];
  }

  lemma {:induction false} NoneHeld(sessions: nat)
    ensures Sum(seq(sessions, _ => 0)) == 0
  {
    if sessions > 0 {
      NoneHeld(sessions - 1);
      assert seq(sessions, _ => 0 as nat)[1..] == seq(sessions - 1, _ => 0);
    }
  }

  /** Every action of every session keeps the books. */
  lemma ActAccounted(s: System, a: Action)
    requires Accounted(s)
    ensures Accounted(Act(s, a)) && Act(s, a).capacity == s.capacity
  {
    hide Upgrade, Needed, Sum, Leased;
    match a
    case GrowFrame(session, wire) =>
      if session < |s.framers| {
        SumSet(s.framers, session, Upgrade(s.capacity, s.available, s.framers[session], wire, false).lease);
      }
    case Deliver(session, wire) =>
      if session < |s.framers| {
        var up := Upgrade(s.capacity, s.available, s.framers[session], wire, true);
        SumSet(s.framers, session, 0);
        LeasedMore(s.messages, Message(wire, up.lease));
      }
    case DropFrame(session) =>
      if session < |s.framers| {
        SumSet(s.framers, session, 0);
      }
    case Finish(m) =>
      if m < |s.messages| {
        LeasedWithout(s.messages, m);
      }
  }

  /** The units a frame asks for can be had: within the whole budget, and within what is free or already leased to it. */
  predicate CanHave(s: System, session: nat, wire: nat, decoded: bool)
    requires session < |s.framers|
  {
    var need := Needed(s.capacity, wire, decoded);
    need.Some? && need.value <= s.available + s.framers[session]
  }

  /** A growing frame is charged what it needs to be read, taken from the free units; if it cannot be, nothing changes. */
  lemma GrowthIsCharged(s: System, session: nat, wire: nat)
    requires session < |s.framers|
    ensures var s' := Act(s, GrowFrame(session, wire));
            if CanHave(s, session, wire, false) then
              var lease := if Needed(s.capacity, wire, false).value <= s.framers[session] then s.framers[session]
                           else Needed(s.capacity, wire, false).value;
              s' == s.(available := s.available + s.framers[session] - lease, framers := s.framers[session := lease])
            else s' == s
  {
    hide Needed;
  }

  /** A complete frame leaves with the units its decoding needs and its framer holds none; if it cannot, nothing changes. */
  lemma DeliveryIsCharged(s: System, session: nat, wire: nat)
    requires session < |s.framers|
    ensures var s' := Act(s, Deliver(session, wire));
            if CanHave(s, session, wire, true) then
              var lease := if Needed(s.capacity, wire, true).value <= s.framers[session] then s.framers[session]
                           else Needed(s.capacity, wire, true).value;
              && s'.available + lease == s.available + s.framers[session]
              && s'.framers == s.framers[session := 0]
              && s'.messages == s.messages + [Message(wire, lease)]
            else s' == s
  {
    hide Needed;
  }

  /** Conservation over every run: available units plus all held leases equal the capacity. */
  lemma {:induction false} RunAccounted(s: System, actions: seq<Action>)
    requires Accounted(s)
    ensures Accounted(Run(s, actions)) && Run(s, actions).capacity == s.capacity
    decreases |actions|
  {
    if actions != [] {
      ActAccounted(s, actions[0]);
      RunAccounted(Act(s, actions[0]), actions[1..]);
    }
  }

  lemma InitAccounted(capacity: nat, sessions: nat)
    ensures Accounted(Init(capacity, sessions))
  {
    NoneHeld(sessions);
  }

  /** The body plus the heap the decoder may admit for it. */
  function Footprint(wire: nat, maxLen: nat): nat {
    wire + PackStream.ForMessage(wire, maxLen).maxHeap
  }

  /** The actions a framer with this message limit lets happen. */
  ghost predicate Framed(actions: seq<Action>, maxLen: nat) {
    forall i | 0 <= i < |actions| :: actions[i].GrowFrame? || actions[i].Deliver? ==> actions[i].wire <= maxLen
  }

  /** Whether 32-bit units can express what the largest message may take. */
  predicate UnitsSuffice(capacity: nat, maxLen: nat) {
    capacity < U32_MAX || Footprint(maxLen, maxLen) <= U32_MAX * BUDGET_UNIT_BYTES
  }

  /** The lease dominates the body and the decoder's limit: 16 bytes per wire byte against 8 and 1, the base is shared. */
  lemma LeaseCovers(capacity: nat, m: Message, maxLen: nat)
    requires UnitsSuffice(capacity, maxLen) && m.wire <= maxLen
    requires Needed(capacity, m.wire, true).Some? && m.lease >= Needed(capacity, m.wire, true).value
    ensures Footprint(m.wire, maxLen) <= m.lease * BUDGET_UNIT_BYTES
  {
  }

  lemma {:induction false} MessagesCovered(capacity: nat, ms: seq<Message>, maxLen: nat)
    requires UnitsSuffice(capacity, maxLen)
    requires forall i | 0 <= i < |ms| :: ms[i].wire <= maxLen
    requires forall i | 0 <= i < |ms| ::
               Needed(capacity, ms[i].wire, true).Some? && ms[i].lease >= Needed(capacity, ms[i].wire, true).value
    ensures WorkingSet(ms, maxLen) <= Leased(ms) * BUDGET_UNIT_BYTES
  {
    hide UnitsSuffice, Footprint, Needed;
    if ms != [] {
      LeaseCovers(capacity, ms[0], maxLen);
      MessagesCovered(capacity, ms[1..], maxLen);
    }
  }

  ghost predicate Within(s: System, maxLen: nat) {
    forall i | 0 <= i < |s.messages| :: s.messages[i].wire <= maxLen
  }

  lemma NothingWithin(capacity: nat, sessions: nat, maxLen: nat)
    ensures Within(Init(capacity, sessions), maxLen) && Init(capacity, sessions).capacity == capacity
  {
  }

  lemma ActWithin(s: System, a: Action, maxLen: nat)
    requires Within(s, maxLen) && (a.Deliver? ==> a.wire <= maxLen)
    ensures Within(Act(s, a), maxLen)
  {
  }

  lemma {:induction false} RunWithin(s: System, actions: seq<Action>, maxLen: nat)
    requires Framed(actions, maxLen) && Within(s, maxLen)
    ensures Within(Run(s, actions), maxLen)
    decreases |actions|
  {
    hide Act, Within;
    if actions != [] {
      ActWithin(s, actions[0], maxLen);
      RunWithin(Act(s, actions[0]), actions[1..], maxLen);
    }
  }

  ghost predicate Safe(s: System, maxLen: nat) {
    WorkingSet(s.messages, maxLen) <= s.capacity * BUDGET_UNIT_BYTES
  }

  /**
   For any number of sessions and any interleaving, the wire bytes plus decoder-admitted heap of all messages in flight
   stay within the budget.
   */
  lemma RunSafe(capacity: nat, sessions: nat, actions: seq<Action>, maxLen: nat)
    requires UnitsSuffice(capacity, maxLen) && Framed(actions, maxLen)
    ensures Safe(Run(Init(capacity, sessions), actions), maxLen)
  {
    hide UnitsSuffice, Needed, Run, Act, WorkingSet, Leased, Sum, Framed, Init;
    InitAccounted(capacity, sessions);
    NothingWithin(capacity, sessions, maxLen);
    RunAccounted(Init(capacity, sessions), actions);
    RunWithin(Init(capacity, sessions), actions, maxLen);
    var s := Run(Init(capacity, sessions), actions);
    MessagesCovered(capacity, s.messages, maxLen);
  }

  /** Beyond 32-bit units a huge frame is charged no more than the whole budget. */
  lemma SaturationUndercharges(capacity: nat, maxLen: nat)
    requires capacity == U32_MAX && !UnitsSuffice(capacity, maxLen)
    ensures !Safe(Run(Init(capacity, 1), [Deliver(0, maxLen)]), maxLen)
  {
  }

  /** Exactly when the budget bounds the working set on every run that a message limit allows. */
  lemma SafeExactlyWhen(capacity: nat, maxLen: nat)
    requires capacity <= U32_MAX
    ensures (forall sessions, actions | Framed(actions, maxLen) :: Safe(Run(Init(capacity, sessions), actions), maxLen))
            <==> UnitsSuffice(capacity, maxLen)
  {
    if UnitsSuffice(capacity, maxLen) {
      forall sessions, actions | Framed(actions, maxLen) ensures Safe(Run(Init(capacity, sessions), actions), maxLen) {
        RunSafe(capacity, sessions, actions, maxLen);
      }
    } else {
      SaturationUndercharges(capacity, maxLen);
      assert Framed([Deliver(0, maxLen)], maxLen);
    }
  }

  // ---- the semaphore ----

  lemma {:induction false} RunAppend(s: System, actions: seq<Action>, a: Action)
    ensures Run(s, actions + [a]) == Act(Run(s, actions), a)
    decreases |actions|
  {
    hide Act;
    if actions == [] {
      assert actions + [a] == [a] && [a][1..] == [];
    } else {
      RunAppend(Act(s, actions[0]), actions[1..], a);
      assert (actions + [a])[0] == actions[0] && (actions + [a])[1..] == actions[1..] + [a];
    }
  }

  /**
   The shared semaphore. What is done with its permits is an action of the system above, so that whatever readers share
   it, its history is a run.
   */
  class MessageMemoryBudget {
    const capacity: nat
    var available: nat
    ghost const sessions: nat
    ghost const maxLen: nat         // the largest message a framer lets through
    ghost var history: seq<Action>
    ghost var system: System

    ghost predicate Valid()
      reads this
    {
      && Framed(history, maxLen) && system == Run(Init(capacity, sessions), history)
      && system.capacity == capacity && system.available == available && |system.framers| == sessions
    }

    /** Session `me` holds this many units for the frame it is reading. */
    ghost predicate Holds(me: nat, lease: nat)
      reads this
    {
      me < |system.framers| && system.framers[me] == lease
    }

    constructor (units: nat, ghost sessions: nat, ghost maxLen: nat)
      ensures Valid() && capacity == available == units && this.sessions == sessions && this.maxLen == maxLen
      ensures forall me | 0 <= me < sessions :: Holds(me, 0)
    {
      capacity, available, this.sessions, this.maxLen := units, units, sessions, maxLen;
      history, system := [], Init(units, sessions);
    }

    ghost method Record(a: Action)
      requires Framed(history + [a], maxLen) && system == Run(Init(capacity, sessions), history)
      modifies this`history, this`system
      ensures Framed(history, maxLen) && system == Run(Init(capacity, sessions), history)
      ensures system == Act(old(system), a) && history == old(history) + [a]
    {
      hide Act, Framed;
      RunAppend(Init(capacity, sessions), history, a);
      history, system := history + [a], Act(system, a);
    }

    /** Raise a lease for a frame, or leave everything as it is; a decoded frame leaves the framer with its lease. */
    method Ensure(ghost me: nat, lease: nat, wire: nat, decoded: bool) returns (lease': nat, r: Result<(), BudgetError>)
      requires Valid() && Holds(me, lease) && wire <= maxLen
      modifies this
      ensures Valid() && Acquired(available, lease', r) == Upgrade(capacity, old(available), lease, wire, decoded)
      ensures system == Act(old(system), if decoded then Deliver(me, wire) else GrowFrame(me, wire))
      ensures Holds(me, if decoded && r.Ok? then 0 else lease')
      ensures system.messages == old(system.messages) + if decoded && r.Ok? then [Message(wire, lease')] else []
    {
      ghost var a := if decoded then Deliver(me, wire) else GrowFrame(me, wire);
      assert Framed(history + [a], maxLen);
      Record(a);
      lease' := lease;
      var needed := Needed(capacity, wire, decoded);
      if needed.None? {
        return lease, Err(TooLarge);
      }
      if needed.value <= lease {
        return lease, Ok(());
      }
      var more := needed.value - lease;
      if more > available {
        return lease, Err(Exhausted);
      }
      available := available - more;
      return lease + more, Ok(());
    }

    /** The permits of a frame come back when its lease is dropped. */
    method Release(ghost me: nat, lease: nat)
      requires Valid() && Holds(me, lease)
      modifies this
      ensures Valid() && Holds(me, 0) && available == old(available) + lease
      ensures system == Act(old(system), DropFrame(me))
    {
      assert Framed(history + [DropFrame(me)], maxLen);
      Record(DropFrame(me));
      available := available + lease;
    }

    /** And those of a message when it has been consumed. */
    method Finish(ghost m: nat, lease: nat)
      requires Valid() && m < |system.messages| && system.messages[m].lease == lease
      modifies this
      ensures Valid() && available == old(available) + lease
      ensures system == Act(old(system), Action.Finish(m))
    {
      ghost var a := Action.Finish(m);
      assert Framed(history + [a], maxLen);
      Record(a);
      available := available + lease;
    }
  }

  /** Whatever has been done with a budget, its units are accounted for, and its messages fit while the units can say so. */
  lemma BudgetIsSafe(b: MessageMemoryBudget)
    requires b.Valid()
    ensures Accounted(b.system)
    ensures UnitsSuffice(b.capacity, b.maxLen) ==> Safe(b.system, b.maxLen)
  {
    InitAccounted(b.capacity, b.sessions);
    RunAccounted(Init(b.capacity, b.sessions), b.history);
    if UnitsSuffice(b.capacity, b.maxLen) {
      RunSafe(b.capacity, b.sessions, b.history, b.maxLen);
    }
  }
}
