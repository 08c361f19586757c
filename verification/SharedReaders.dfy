/** The readers of many sessions on one budget: what the interleaving theorem is about. */
module SharedReaders {
  import opened Chunk
  import opened SharedBudget
  import opened MessageReader

  /** Who acts next: a reader is polled, a rejected frame is given up, or a delivered message has been consumed. */
  datatype Turn = PollReader(session: nat) | GiveUp(session: nat) | Consume(message: nat)

  /** The sessions have their own indices, and the budget knows what each of them holds. */
  ghost predicate AllLinked(readers: seq<StatefulMessageReader>, budget: MessageMemoryBudget)
    reads budget, set i | 0 <= i < |readers| :: readers[i]
  {
    && |readers| == |budget.system.framers|
    && forall i | 0 <= i < |readers| :: readers[i].me == i && readers[i].Valid() && readers[i].Linked(budget)
  }

  /** The leases travelling with the messages being executed or prefetched. */
  ghost predicate InFlight(leases: seq<nat>, messages: seq<Message>) {
    |leases| == |messages| && forall i | 0 <= i < |leases| :: leases[i] == messages[i].lease
  }

  /** What session `i` does leaves the other readers linked. */
  lemma StillLinked(readers: seq<StatefulMessageReader>, budget: MessageMemoryBudget, i: nat, before: System)
    requires i < |readers| && OnlyMine(before, budget.system, i) && |readers| == |before.framers|
    requires budget.Valid() && readers[i].me == i && readers[i].Valid() && readers[i].Linked(budget)
    requires forall j | 0 <= j < |readers| && j != i ::
               && readers[j].me == j && readers[j].Valid() && before.framers[j] == readers[j].lease
               && |readers[j].message| + readers[j].chunkLen <= budget.maxLen
    ensures AllLinked(readers, budget)
  {
    hide Run, Framed;
  }

  /** One reader is polled, and a delivered message's lease joins those in flight. */
  method Poll(readers: seq<StatefulMessageReader>, i: nat, t: Transport, budget: MessageMemoryBudget, limit: nat,
              leases: seq<nat>)
    returns (leases': seq<nat>)
    requires AllLinked(readers, budget) && budget.Valid() && InFlight(leases, budget.system.messages)
    requires i < |readers| && readers[i].oversized == 0 && limit <= budget.maxLen
    modifies readers[i], t, budget
    ensures AllLinked(readers, budget) && budget.Valid() && InFlight(leases', budget.system.messages)
  {
    hide Run, Framed, NeedsLease, Act;
    ghost var before := budget.system;
    var r := readers[i].ReadMessage(t, limit, budget);
    leases' := if r.Ready? && NeedsLease(r.body) then leases + [r.lease] else leases;
    StillLinked(readers, budget, i, before);
  }

  /** A session gives up its frame: after a rejection, at the end of the stream, or because it goes away. */
  method Drop(readers: seq<StatefulMessageReader>, i: nat, budget: MessageMemoryBudget)
    requires AllLinked(readers, budget) && budget.Valid() && i < |readers|
    modifies readers[i], budget
    ensures AllLinked(readers, budget) && budget.Valid() && budget.system.messages == old(budget.system.messages)
  {
    hide Run, Framed, Act;
    ghost var before := budget.system;
    ActIsMine(before, DropFrame(i), i);
    readers[i].ReleaseBuffered(budget);
    StillLinked(readers, budget, i, before);
  }

  /** A message has been consumed. */
  method Finish(readers: seq<StatefulMessageReader>, m: nat, budget: MessageMemoryBudget, leases: seq<nat>)
    returns (leases': seq<nat>)
    requires AllLinked(readers, budget) && budget.Valid() && InFlight(leases, budget.system.messages) && m < |leases|
    modifies budget
    ensures AllLinked(readers, budget) && budget.Valid() && InFlight(leases', budget.system.messages)
  {
    hide Run, Framed;
    budget.Finish(m, leases[m]);
    leases' := leases[..m] + leases[m + 1..];
  }

  /**
   Any number of real readers, polled in any order, cut off anywhere, with messages consumed whenever: what they do with
   the budget is a run of the shared system, so the units are conserved and what is in flight fits the capacity.
   */
  method Interleave(readers: seq<StatefulMessageReader>, transports: seq<Transport>, budget: MessageMemoryBudget,
                    limit: nat, schedule: seq<Turn>)
    requires |transports| == |readers| && limit <= budget.maxLen
    requires AllLinked(readers, budget) && budget.Valid() && budget.system.messages == []
    modifies budget, set i | 0 <= i < |readers| :: readers[i], set i | 0 <= i < |transports| :: transports[i]
    ensures budget.Valid() && Accounted(budget.system)
    ensures UnitsSuffice(budget.capacity, budget.maxLen) ==> Safe(budget.system, budget.maxLen)
  {
    hide Run, Framed, Accounted, Safe, UnitsSuffice;
    var leases: seq<nat> := [];
    for n := 0 to |schedule|
      invariant AllLinked(readers, budget) && budget.Valid() && InFlight(leases, budget.system.messages)
    {
      match schedule[n]
      case PollReader(i) =>
        if i < |readers| && readers[i].oversized == 0 {
          leases := Poll(readers, i, transports[i], budget, limit, leases);
        }
      case GiveUp(i) =>
        if i < |readers| {
          Drop(readers, i, budget);
        }
      case Consume(m) =>
        if m < |leases| {
          leases := Finish(readers, m, budget, leases);
        }
    }
    BudgetIsSafe(budget);
  }
}
