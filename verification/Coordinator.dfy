/**
 The versioned LSM top-k coordinator: ask every segment for its local best, keep the hits that are the current
 version of their node, and widen until the global top-k is proved.

 A score is the score of a payload for one fixed query, and `eligible` says whether that payload matches the query and
 its filters; node ids are the big-endian value of their bytes. Hits rank by (score descending, node id ascending), so
 a hit is `Ranked(-score, node)`.
 */
module Coordinator {
  import opened Wrappers
  import opened Ranking

  /** A record of a segment's version table: a live payload or a suppression, at an LSN. */
  datatype Version = Version(lsn: nat, fingerprint: nat, live: bool)

  datatype Payload = Payload(score: real, eligible: bool)

  /** A base segment has no version table; its rows are current where no delta mentions their node. */
  datatype Segment =
    | Base(payloads: map<nat, Payload>)
    | Delta(versions: map<nat, Version>, payloads: map<nat, Payload>)

  datatype Error = ReservedLsn | ConflictingVersions | CouldNotProve

  /** The two coordinators differ in how a segment reports that it has nothing more to give. */
  datatype Family = Text | Vector

  /** Whether base segments are searched exactly, or by an approximate index that may miss rows. */
  datatype Mode = ExactShadow | ServingAnn

  // ---- one node's versions ----

  /** No reserved LSN, and equal LSNs agree. */
  ghost predicate Clean(records: seq<Version>) {
    && (forall v | v in records :: v.lsn > 0)
    && (forall v, w | v in records && w in records && v.lsn == w.lsn :: v == w)
  }

  /** This record differs from an earlier one of the same LSN, which is the highest so far. */
  ghost predicate Conflicts(records: seq<Version>, i: nat) {
    && i < |records|
    && (forall j | 0 <= j < i :: records[j].lsn <= records[i].lsn)
    && exists j | 0 <= j < i :: records[j].lsn == records[i].lsn && records[j] != records[i]
  }

  /** The highest LSN wins; records that hold it must agree, and one that is reserved is refused. */
  method ReconcileNodeVersions(records: seq<Version>) returns (r: Result<Option<Version>, Error>)
    ensures r.Ok? ==> (r.value.None? <==> records == [])
    ensures r.Ok? && records != [] ==> r.value.value in records
    ensures r.Ok? ==> forall v | v in records ::
              0 < v.lsn <= r.value.value.lsn && (v.lsn == r.value.value.lsn ==> v == r.value.value)
    ensures r.Ok? <==> forall i: nat | i < |records| :: records[i].lsn > 0 && !Conflicts(records, i)
    ensures r == Err(ReservedLsn) ==> exists v :: v in records && v.lsn == 0
    ensures r == Err(ConflictingVersions) ==> exists i: nat :: Conflicts(records, i)
    ensures Clean(records) ==> r.Ok?
    ensures r != Err(CouldNotProve)
  {
    var winner: Option<Version> := None;
    for i := 0 to |records|
      invariant winner.None? <==> i == 0
      invariant winner.Some? ==> winner.value in records
      invariant winner.Some? ==> forall j | 0 <= j < i ::
                  0 < records[j].lsn <= winner.value.lsn && (records[j].lsn == winner.value.lsn ==> records[j] == winner.value)
      invariant winner.Some? ==> exists j | 0 <= j < i :: records[j] == winner.value
      invariant forall j: nat | j < i :: !Conflicts(records, j)
    {
      var record := records[i];
      if record.lsn == 0 {
        return Err(ReservedLsn);
      }
      match winner {
        case None => winner := Some(record);
        case Some(current) =>
          if record.lsn > current.lsn {
            winner := Some(record);
          } else if record.lsn < current.lsn {
          } else if current.fingerprint == record.fingerprint && current.live == record.live {
          } else {
            assert Conflicts(records, i);
            return Err(ConflictingVersions);
          }
      }
    }
    r := Ok(winner);
  }

  // ---- the merged corpus ----

  /** A delta stores a payload for exactly the nodes its version table calls live. */
  ghost predicate WellFormed(seg: Segment) {
    seg.Delta? ==> forall node :: node in seg.payloads <==> node in seg.versions && seg.versions[node].live
  }

  ghost predicate AllWellFormed(segs: seq<Segment>) {
    forall i | 0 <= i < |segs| :: WellFormed(segs[i])
  }

  /** No reserved LSN, and segments agree wherever they hold the same version of a node or bases overlap. */
  ghost predicate Consistent(segs: seq<Segment>) {
    && AllWellFormed(segs)
    && (forall i, node | 0 <= i < |segs| && segs[i].Delta? && node in segs[i].versions :: segs[i].versions[node].lsn > 0)
    && (forall i, j, node | 0 <= i < |segs| && 0 <= j < |segs| && Agreeing(segs[i], segs[j], node) ::
          (segs[i].Delta? ==> segs[i].versions[node] == segs[j].versions[node])
          && (node in segs[i].payloads && node in segs[j].payloads ==> segs[i].payloads[node] == segs[j].payloads[node]))
  }

  /** Both segments speak about the same version of a node. */
  ghost predicate Agreeing(a: Segment, b: Segment, node: nat) {
    || (a.Base? && b.Base?)
    || (a.Delta? && b.Delta? && node in a.versions && node in b.versions && a.versions[node].lsn == b.versions[node].lsn)
  }

  /** Segment i holds the current payload of a node: no segment has a later version of it. */
  ghost predicate Current(segs: seq<Segment>, i: nat, node: nat)
    requires i < |segs|
  {
    && node in segs[i].payloads
    && forall j | 0 <= j < |segs| && segs[j].Delta? && node in segs[j].versions ::
         segs[i].Delta? && node in segs[i].versions && segs[j].versions[node].lsn <= segs[i].versions[node].lsn
  }

  ghost function Eligible(seg: Segment): set<Ranked> {
    set node | node in seg.payloads && seg.payloads[node].eligible :: Ranked(-seg.payloads[node].score, node)
  }

  /** The hits segment i contributes to the merged corpus. */
  ghost function CurrentHits(segs: seq<Segment>, i: nat): set<Ranked>
    requires i < |segs|
  {
    set x | x in Eligible(segs[i]) && Current(segs, i, x.id)
  }

  /** All live, matching, highest-LSN rows: what a flat scan over the merged corpus would score. */
  ghost function Merged(segs: seq<Segment>): set<Ranked> {
    set i, x | 0 <= i < |segs| && x in CurrentHits(segs, i) :: x
  }

  // ---- one segment ----

  /** A segment reader's exact search: its `limit` best eligible rows, and how many rows were eligible. */
  method LocalSearch(seg: Segment, limit: nat) returns (hits: seq<Ranked>, eligibleRows: nat)
    ensures hits == Best(Eligible(seg), limit)
    ensures eligibleRows == |Eligible(seg)|
  {
    var rows :=
      set node | node in seg.payloads && seg.payloads[node].eligible :: Ranked(-seg.payloads[node].score, node);
    hits := IntoSorted(rows);
    eligibleRows := |hits|;
    hits := hits[..Min(limit, |hits|)];
  }

  /** An approximate search: any eligible rows in any order, and any count of rows seen. */
  method ApproximateSearch(seg: Segment) returns (hits: seq<Ranked>, eligibleRows: nat)
    ensures forall x | x in hits :: x in Eligible(seg)
  {
    hits, eligibleRows := [], *;
    var nodes: seq<nat> := *;
    for p := 0 to |nodes|
      invariant forall x | x in hits :: x in Eligible(seg)
    {
      if nodes[p] in seg.payloads && seg.payloads[nodes[p]].eligible {
        hits := hits + [Ranked(-seg.payloads[nodes[p]].score, nodes[p])];
      }
    }
  }

  lemma EligibleAtMostLive(seg: Segment)
    ensures |Eligible(seg)| <= |seg.payloads|
  {
    var nodes := set x | x in Eligible(seg) :: x.id;
    SameSize(seg, Eligible(seg), nodes);
    SubsetCardinality(nodes, seg.payloads.Keys);
  }

  lemma SameSize(seg: Segment, hits: set<Ranked>, nodes: set<nat>)
    requires hits <= Eligible(seg)
    requires nodes == set x | x in hits :: x.id
    ensures |hits| == |nodes|
  {
    if hits != {} {
      var x :| x in hits;
      var fewer := set y | y in hits - {x} :: y.id;
      SameSize(seg, hits - {x}, fewer);
      assert nodes == fewer + {x.id};
      assert x.id !in fewer;
    }
  }

  /** The version records every segment holds for a node, in segment order. */
  function Records(segs: seq<Segment>, node: nat): (rs: seq<Version>)
    ensures forall v :: v in rs <==>
              exists j :: 0 <= j < |segs| && segs[j].Delta? && node in segs[j].versions && segs[j].versions[node] == v
    decreases |segs|
  {
    if segs == [] then [] else
      var n := |segs| - 1;
      Records(segs[..n], node)
      + (if segs[n].Delta? && node in segs[n].versions then [segs[n].versions[node]] else [])
  }

  lemma RecordsAgree(segs: seq<Segment>, node: nat)
    requires Consistent(segs)
    ensures Clean(Records(segs, node))
  {
  }

  /** The reconciled record is the highest LSN, so comparing with it decides currency. */
  lemma WinnerIsCurrent(segs: seq<Segment>, i: nat, node: nat, winner: Option<Version>)
    requires Consistent(segs) && i < |segs| && node in segs[i].payloads
    requires winner.None? <==> Records(segs, node) == []
    requires winner.Some? ==>
               winner.value in Records(segs, node) && forall v | v in Records(segs, node) :: v.lsn <= winner.value.lsn
    ensures segs[i].Base? ==> (Current(segs, i, node) <==> winner.None?)
    ensures segs[i].Delta? ==> node in segs[i].versions
    ensures segs[i].Delta? ==>
              (Current(segs, i, node) <==>
               && winner.Some?
               && winner.value.lsn == segs[i].versions[node].lsn
               && winner.value.fingerprint == segs[i].versions[node].fingerprint
               && winner.value.live)
  {
    RecordsAgree(segs, node);
    assert WellFormed(segs[i]);
    if winner.Some? {
      var j :| 0 <= j < |segs| && segs[j].Delta? && node in segs[j].versions && segs[j].versions[node] == winner.value;
      if segs[i].Delta? {
        assert segs[i].versions[node] in Records(segs, node);
      }
    }
    forall j | 0 <= j < |segs| && segs[j].Delta? && node in segs[j].versions
      ensures segs[j].versions[node] in Records(segs, node)
    {
    }
  }

  /** Whether a hit is the current version of its node, by reconciling every segment's record. */
  method IsWinning(segs: seq<Segment>, i: nat, node: nat) returns (r: Result<bool, Error>)
    requires i < |segs| && node in segs[i].payloads
    requires segs[i].Delta? ==> node in segs[i].versions
    ensures Consistent(segs) ==> r == Ok(Current(segs, i, node))
    ensures r != Err(CouldNotProve)
  {
    var records := Records(segs, node);
    if Consistent(segs) {
      RecordsAgree(segs, node);
    }
    var record :- ReconcileNodeVersions(records);
    if Consistent(segs) {
      WinnerIsCurrent(segs, i, node, record);
    }
    match segs[i] {
      case Base(_) => r := Ok(record.None?);
      case Delta(versions, _) =>
        var own := versions[node];
        r := Ok(record.Some? && record.value.lsn == own.lsn && record.value.fingerprint == own.fingerprint && record.value.live);
    }
  }

  // ---- one round over all segments ----

  /** The rows a segment returns at a limit: those fewer than `limit` of its rows beat. */
  ghost predicate InLocalTop(seg: Segment, limit: nat, x: Ranked) {
    x in Eligible(seg) && Rank(Eligible(seg), x) < limit
  }

  /** The local hits of segment i that are current. */
  ghost function Accepted(segs: seq<Segment>, limits: seq<nat>, i: nat): set<Ranked>
    requires i < |segs| == |limits|
  {
    set x | x in CurrentHits(segs, i) && InLocalTop(segs[i], limits[i], x)
  }

  ghost function AcceptedBelow(segs: seq<Segment>, limits: seq<nat>, n: nat): set<Ranked>
    requires n <= |segs| == |limits|
  {
    if n == 0 then {} else AcceptedBelow(segs, limits, n - 1) + Accepted(segs, limits, n - 1)
  }

  /** The hits of one segment that are current, in order. */
  method JudgeSegment(segs: seq<Segment>, i: nat, hits: seq<Ranked>) returns (r: Result<seq<Ranked>, Error>)
    requires i < |segs|
    requires forall x | x in hits :: x.id in segs[i].payloads
    requires segs[i].Delta? ==> forall x | x in hits :: x.id in segs[i].versions
    ensures Consistent(segs) ==>
              r.Ok? && forall x :: x in r.value <==> x in hits && Current(segs, i, x.id)
    ensures r.Ok? ==> (Ascending(hits) ==> Ascending(r.value)) && forall x | x in r.value :: x in hits
    ensures r != Err(CouldNotProve)
  {
    var won: seq<Ranked> := [];
    for p := 0 to |hits|
      invariant forall x | x in won :: x in hits[..p]
      invariant Ascending(hits) ==> Ascending(won)
      invariant Consistent(segs) ==> forall x :: x in won <==> x in hits[..p] && Current(segs, i, x.id)
    {
      var x := hits[p];
      assert x in hits;
      assert forall y :: y in hits[..p + 1] <==> y in hits[..p] || y == x;
      assert forall q | 0 <= q < |won| :: won[q] in hits[..p];
      var winning :- IsWinning(segs, i, x.id);
      if winning {
        won := won + [x];
      }
    }
    assert hits[..|hits|] == hits;
    r := Ok(won);
  }

  /** The map holds exactly the hits of `w`, one per node. */
  ghost predicate Holds(winners: map<nat, Ranked>, w: set<Ranked>) {
    && (forall node | node in winners :: winners[node] in w && winners[node].id == node)
    && (forall x | x in w :: x.id in winners && winners[x.id] == x)
  }

  /** Hits of the same node are the same hit. */
  ghost predicate OnePerNode(w: set<Ranked>, won: seq<Ranked>) {
    forall x, y | (x in w || x in won) && y in won && x.id == y.id :: x == y
  }

  /** Add a segment's winners to the map keyed by node. */
  method InsertWinners(winners: map<nat, Ranked>, ghost w: set<Ranked>, won: seq<Ranked>) returns (all: map<nat, Ranked>)
    ensures Holds(winners, w) && OnePerNode(w, won) ==> Holds(all, w + Elements(won))
    ensures forall node | node in all :: all[node] in won || (node in winners && all[node] == winners[node])
  {
    all := winners;
    ghost var agree := Holds(winners, w) && OnePerNode(w, won);
    for p := 0 to |won|
      invariant agree ==> Holds(all, w + Elements(won[..p]))
      invariant forall node | node in all :: all[node] in won || (node in winners && all[node] == winners[node])
    {
      var x := won[p];
      assert x in won;
      assert won[..p + 1] == won[..p] + [x];
      assert Elements(won[..p + 1]) == Elements(won[..p]) + {x};
      assert Elements(won[..p]) <= Elements(won);
      all := all[x.id := x];
    }
    assert won[..|won|] == won;
  }

  datatype Status = Status(accepted: nat, exhausted: bool)

  /** What a segment's status tells: an exhausted segment has given everything, another one has more rows to give. */
  ghost predicate Honest(seg: Segment, limit: nat, exhausted: bool) {
    if exhausted then forall x | x in Eligible(seg) :: InLocalTop(seg, limit, x) else limit < |seg.payloads|
  }

  method IsExhausted(family: Family, seg: Segment, limit: nat, hits: seq<Ranked>, eligibleRows: nat) returns (b: bool)
    requires hits == Best(Eligible(seg), limit) && eligibleRows == |Eligible(seg)|
    ensures Honest(seg, limit, b)
  {
    EligibleAtMostLive(seg);
    match family {
      case Text => b := |seg.payloads| <= limit || |hits| < limit;
      case Vector => b := eligibleRows <= limit;
    }
    if b {
      forall x | x in Eligible(seg) ensures InLocalTop(seg, limit, x) {
        BestOfAll(Eligible(seg), limit);
        BestByRank(Eligible(seg), limit, x);
      }
    }
  }

  /** A mode that searches this segment exactly. */
  predicate Exactly(mode: Mode, seg: Segment) {
    mode.ExactShadow? || seg.Delta?
  }

  /** Search one segment at its limit. */
  method SearchSegment(seg: Segment, limit: nat, family: Family, mode: Mode)
    returns (hits: seq<Ranked>, exhausted: bool)
    requires limit == 0 ==> |seg.payloads| == 0
    ensures forall x | x in hits :: x in Eligible(seg)
    ensures Exactly(mode, seg) ==>
              Ascending(hits) && Honest(seg, limit, exhausted) && forall x :: x in hits <==> InLocalTop(seg, limit, x)
  {
    if limit == 0 {
      EligibleAtMostLive(seg);
      return [], true;
    }
    var eligibleRows;
    if Exactly(mode, seg) {
      hits, eligibleRows := LocalSearch(seg, limit);
      forall x ensures x in hits <==> InLocalTop(seg, limit, x) {
        BestByRank(Eligible(seg), limit, x);
      }
      exhausted := IsExhausted(family, seg, limit, hits, eligibleRows);
    } else {
      hits, eligibleRows := ApproximateSearch(seg);
      exhausted := eligibleRows <= limit;
    }
  }

  /** Search and judge one segment. */
  method VisitSegment(segs: seq<Segment>, i: nat, limits: seq<nat>, family: Family, mode: Mode)
    returns (r: Result<(seq<Ranked>, bool), Error>)
    requires i < |segs| == |limits| && AllWellFormed(segs)
    requires limits[i] == 0 ==> |segs[i].payloads| == 0
    ensures r.Ok? && Exactly(mode, segs[i]) ==> Honest(segs[i], limits[i], r.value.1)
    ensures Consistent(segs) ==> r.Ok? && forall x | x in r.value.0 :: x in CurrentHits(segs, i)
    ensures Consistent(segs) && Exactly(mode, segs[i]) ==>
              && Elements(r.value.0) == Accepted(segs, limits, i)
              && |r.value.0| == |Accepted(segs, limits, i)|
    ensures r != Err(CouldNotProve)
  {
    hide Consistent, Honest, InLocalTop, Eligible, Current;
    var hits, exhausted := SearchSegment(segs[i], limits[i], family, mode);
    EligibleStored(segs, i, hits);
    var won :- JudgeSegment(segs, i, hits);
    if Exactly(mode, segs[i]) {
      DistinctCardinality(won);
    }
    r := Ok((won, exhausted));
  }

  /** An eligible row is stored, and a delta has a version record for what it stores. */
  lemma EligibleStored(segs: seq<Segment>, i: nat, hits: seq<Ranked>)
    requires i < |segs| && AllWellFormed(segs) && forall x | x in hits :: x in Eligible(segs[i])
    ensures forall x | x in hits :: x.id in segs[i].payloads && (segs[i].Delta? ==> x.id in segs[i].versions)
  {
    assert WellFormed(segs[i]);
  }

  /** Two current hits of the same node are the same hit. */
  lemma CurrentHitsAgree(segs: seq<Segment>, i: nat, j: nat, x: Ranked, y: Ranked)
    requires Consistent(segs) && i < |segs| && j < |segs| && x.id == y.id
    requires x in CurrentHits(segs, i) && y in CurrentHits(segs, j)
    ensures x == y
  {
  }

  lemma {:induction false} AcceptedBelowFrom(segs: seq<Segment>, limits: seq<nat>, n: nat, x: Ranked) returns (i: nat)
    requires n <= |segs| == |limits| && x in AcceptedBelow(segs, limits, n)
    ensures i < n && x in CurrentHits(segs, i)
  {
    if x in Accepted(segs, limits, n - 1) {
      i := n - 1;
    } else {
      i := AcceptedBelowFrom(segs, limits, n - 1, x);
    }
  }

  lemma AcceptedOnePerNode(segs: seq<Segment>, limits: seq<nat>, n: nat, won: seq<Ranked>)
    requires n < |segs| == |limits| && Consistent(segs)
    requires Elements(won) == Accepted(segs, limits, n)
    ensures OnePerNode(AcceptedBelow(segs, limits, n), won)
  {
    forall x, y | (x in AcceptedBelow(segs, limits, n) || x in won) && y in won && x.id == y.id ensures x == y {
      assert y in Elements(won);
      if x in won {
        assert x in Elements(won);
        CurrentHitsAgree(segs, n, n, x, y);
      } else {
        var i := AcceptedBelowFrom(segs, limits, n, x);
        CurrentHitsAgree(segs, i, n, x, y);
      }
    }
  }

  /** After i segments: the winners so far, and each segment's count of accepted hits. */
  ghost predicate Tallied(segs: seq<Segment>, limits: seq<nat>, winners: map<nat, Ranked>, statuses: seq<Status>)
    requires |statuses| <= |segs| == |limits|
  {
    && Holds(winners, AcceptedBelow(segs, limits, |statuses|))
    && forall j | 0 <= j < |statuses| :: statuses[j].accepted == |Accepted(segs, limits, j)|
  }

  lemma TallyMore(segs: seq<Segment>, limits: seq<nat>, winners: map<nat, Ranked>, statuses: seq<Status>,
                  all: map<nat, Ranked>, next: Status)
    requires |statuses| < |segs| == |limits| && Tallied(segs, limits, winners, statuses)
    requires Holds(all, AcceptedBelow(segs, limits, |statuses|) + Accepted(segs, limits, |statuses|))
    requires next.accepted == |Accepted(segs, limits, |statuses|)|
    ensures Tallied(segs, limits, all, statuses + [next])
  {
    hide Holds, Accepted, AcceptedBelow;
    AcceptedStep(segs, limits, |statuses|);
  }

  lemma AcceptedStep(segs: seq<Segment>, limits: seq<nat>, n: nat)
    requires n < |segs| == |limits|
    ensures AcceptedBelow(segs, limits, n + 1) == AcceptedBelow(segs, limits, n) + Accepted(segs, limits, n)
  {
    hide Accepted;
  }

  /** Every winner is a row of the merged corpus. */
  ghost predicate AllCurrent(segs: seq<Segment>, winners: map<nat, Ranked>) {
    forall node | node in winners :: winners[node] in Merged(segs)
  }

  /** Sort the winners and keep k. */
  method TopWinners(segs: seq<Segment>, winners: map<nat, Ranked>, ghost w: set<Ranked>, k: nat)
    returns (hits: seq<Ranked>)
    ensures Holds(winners, w) ==> hits == Best(w, k)
    ensures Ascending(hits) && |hits| <= k
    ensures AllCurrent(segs, winners) ==> forall x | x in hits :: x in Merged(segs)
  {
    hide Best, Merged, Rank;
    hits := TopK(winners.Values, k);
    assert Holds(winners, w) ==> winners.Values == w;
    forall x | x in hits ensures x in winners.Values {
      BestByRank(winners.Values, k, x);
    }
  }

  /** Whether every segment is searched exactly. */
  ghost predicate AllExactly(mode: Mode, segs: seq<Segment>) {
    forall i | 0 <= i < |segs| :: Exactly(mode, segs[i])
  }

  /** Visit the next segment and add its winners and status. */
  method TallySegment(segs: seq<Segment>, limits: seq<nat>, family: Family, mode: Mode,
                      winners: map<nat, Ranked>, statuses: seq<Status>)
    returns (r: Result<(map<nat, Ranked>, Status), Error>)
    requires |statuses| < |segs| == |limits| && AllWellFormed(segs)
    requires limits[|statuses|] == 0 ==> |segs[|statuses|].payloads| == 0
    ensures r.Ok? && AllExactly(mode, segs) ==> Honest(segs[|statuses|], limits[|statuses|], r.value.1.exhausted)
    ensures Consistent(segs) ==> r.Ok? && (AllCurrent(segs, winners) ==> AllCurrent(segs, r.value.0))
    ensures Consistent(segs) && AllExactly(mode, segs) && Tallied(segs, limits, winners, statuses) ==>
              Tallied(segs, limits, r.value.0, statuses + [r.value.1])
    ensures r != Err(CouldNotProve)
  {
    hide Consistent, Honest, Holds, OnePerNode, Accepted, CurrentHits, AllWellFormed, Exactly;
    var i := |statuses|;
    var visit :- VisitSegment(segs, i, limits, family, mode);
    var won := visit.0;
    if Consistent(segs) && AllExactly(mode, segs) {
      AcceptedOnePerNode(segs, limits, i, won);
    }
    var all := InsertWinners(winners, AcceptedBelow(segs, limits, i), won);
    if Consistent(segs) && AllExactly(mode, segs) && Tallied(segs, limits, winners, statuses) {
      TallyMore(segs, limits, winners, statuses, all, Status(|won|, visit.1));
    }
    r := Ok((all, Status(|won|, visit.1)));
  }

  /** One round: search every segment at its limit, judge the hits, keep the k best winners. */
  method Round(segs: seq<Segment>, k: nat, limits: seq<nat>, family: Family, mode: Mode)
    returns (r: Result<(seq<Ranked>, seq<Status>), Error>)
    requires |limits| == |segs| && AllWellFormed(segs)
    requires forall i | 0 <= i < |segs| && limits[i] == 0 :: |segs[i].payloads| == 0
    ensures r.Ok? ==> |r.value.1| == |segs| && Ascending(r.value.0) && |r.value.0| <= k
    ensures r.Ok? && AllExactly(mode, segs) ==>
              forall i | 0 <= i < |segs| :: Honest(segs[i], limits[i], r.value.1[i].exhausted)
    ensures Consistent(segs) ==> r.Ok? && forall x | x in r.value.0 :: x in Merged(segs)
    ensures Consistent(segs) && AllExactly(mode, segs) ==>
              && r.value.0 == Best(AcceptedBelow(segs, limits, |segs|), k)
              && forall i | 0 <= i < |segs| :: r.value.1[i].accepted == |Accepted(segs, limits, i)|
    ensures r != Err(CouldNotProve)
  {
    hide Consistent, Honest, AllWellFormed, Best, Holds, Accepted, Merged, AllExactly, Ascending;
    var winners: map<nat, Ranked> := map[];
    var statuses: seq<Status> := [];
    NothingTallied(segs, limits);
    for i := 0 to |segs|
      invariant |statuses| == i
      invariant AllExactly(mode, segs) ==> forall j | 0 <= j < i :: Honest(segs[j], limits[j], statuses[j].exhausted)
      invariant Consistent(segs) ==> AllCurrent(segs, winners)
      invariant Consistent(segs) && AllExactly(mode, segs) ==> Tallied(segs, limits, winners, statuses)
    {
      var tally :- TallySegment(segs, limits, family, mode, winners, statuses);
      winners, statuses := tally.0, statuses + [tally.1];
    }
    var hits := TopWinners(segs, winners, AcceptedBelow(segs, limits, |segs|), k);
    r := Ok((hits, statuses));
  }

  lemma NothingTallied(segs: seq<Segment>, limits: seq<nat>)
    requires |segs| == |limits|
    ensures Tallied(segs, limits, map[], [])
  {
  }

  // ---- widening ----

  /** The rows still out of reach of the limits. */
  ghost function Slack(segs: seq<Segment>, limits: seq<nat>): int
    requires |segs| == |limits|
  {
    if segs == [] then 0 else |segs[0].payloads| - limits[0] + Slack(segs[1..], limits[1..])
  }

  ghost predicate WithinLive(segs: seq<Segment>, limits: seq<nat>) {
    |limits| == |segs| && forall i | 0 <= i < |segs| :: limits[i] <= |segs[i].payloads|
  }

  lemma {:induction false} SlackFalls(segs: seq<Segment>, limits: seq<nat>, wider: seq<nat>)
    requires WithinLive(segs, limits) && WithinLive(segs, wider)
    requires forall i | 0 <= i < |segs| :: limits[i] <= wider[i]
    ensures 0 <= Slack(segs, wider) <= Slack(segs, limits)
    ensures limits != wider ==> Slack(segs, wider) < Slack(segs, limits)
  {
    if segs != [] {
      SlackFalls(segs[1..], limits[1..], wider[1..]);
      if limits[0] == wider[0] && limits[1..] == wider[1..] {
        assert limits == [limits[0]] + limits[1..];
        assert wider == [wider[0]] + wider[1..];
      }
    }
  }

  /** Widen geometrically, and by at least what is missing, up to the live rows. */
  function NextLimit(limit: nat, accepted: nat, k: nat, live: nat): nat {
    var missing := Max(if accepted < k then k - accepted else 0, 1);
    Min(Max(2 * limit, limit + missing), live)
  }

  ghost function Pow2(n: nat): nat {
    if n == 0 then 1 else 2 * Pow2(n - 1)
  }

  /** The limit of a segment after it was widened once for each of these counts of accepted hits. */
  ghost function Widened(limit: nat, accepted: seq<nat>, k: nat, live: nat): nat {
    if accepted == [] then limit
    else NextLimit(Widened(limit, accepted[..|accepted| - 1], k, live), accepted[|accepted| - 1], k, live)
  }

  /** Widening is geometric, so a segment is asked for all its rows after at most as many rounds as doublings. */
  lemma {:induction false} WideningIsGeometric(limit: nat, accepted: seq<nat>, k: nat, live: nat)
    requires limit <= live
    ensures Min(Pow2(|accepted|) * limit, live) <= Widened(limit, accepted, k, live) <= live
  {
    if accepted != [] {
      var n := |accepted| - 1;
      WideningIsGeometric(limit, accepted[..n], k, live);
      Doubled(limit, Pow2(n));
    }
  }

  lemma Doubled(limit: nat, p: nat)
    ensures (2 * p) * limit == 2 * (p * limit)
  {
  }

  method Widen(segs: seq<Segment>, k: nat, limits: seq<nat>, statuses: seq<Status>, globallyShort: bool)
    returns (wider: seq<nat>, changed: bool)
    requires WithinLive(segs, limits) && |statuses| == |segs|
    ensures WithinLive(segs, wider)
    ensures forall i | 0 <= i < |segs| :: limits[i] <= wider[i]
    ensures changed <==> limits != wider
    ensures forall i | 0 <= i < |segs| && !statuses[i].exhausted && (globallyShort || statuses[i].accepted < k) ::
              wider[i] == Max(limits[i], NextLimit(limits[i], statuses[i].accepted, k, |segs[i].payloads|))
    ensures forall i | 0 <= i < |segs| && (statuses[i].exhausted || (!globallyShort && statuses[i].accepted >= k)) ::
              wider[i] == limits[i]
  {
    wider, changed := limits, false;
    for i := 0 to |segs|
      invariant WithinLive(segs, wider)
      invariant forall j | 0 <= j < |segs| :: limits[j] <= wider[j]
      invariant forall j | i <= j < |segs| :: limits[j] == wider[j]
      invariant changed <==> limits != wider
      invariant forall j | 0 <= j < i && !statuses[j].exhausted && (globallyShort || statuses[j].accepted < k) ::
                  wider[j] == Max(limits[j], NextLimit(limits[j], statuses[j].accepted, k, |segs[j].payloads|))
      invariant forall j | 0 <= j < i && (statuses[j].exhausted || (!globallyShort && statuses[j].accepted >= k)) ::
                  wider[j] == limits[j]
    {
      if statuses[i].exhausted || (!globallyShort && statuses[i].accepted >= k) {
        continue;
      }
      var next := NextLimit(limits[i], statuses[i].accepted, k, |segs[i].payloads|);
      if next > limits[i] {
        wider := wider[i := next];
        changed := true;
        assert wider[i] != limits[i];
      }
    }
  }

  // ---- the coordinator ----

  lemma {:induction false} InAcceptedBelow(segs: seq<Segment>, limits: seq<nat>, n: nat, i: nat, x: Ranked)
    requires i < n <= |segs| == |limits| && x in Accepted(segs, limits, i)
    ensures x in AcceptedBelow(segs, limits, n)
  {
    hide Accepted;
    if i < n - 1 {
      InAcceptedBelow(segs, limits, n - 1, i, x);
    }
  }

  lemma AcceptedInMerged(segs: seq<Segment>, limits: seq<nat>)
    requires |segs| == |limits|
    ensures AcceptedBelow(segs, limits, |segs|) <= Merged(segs)
  {
    forall x | x in AcceptedBelow(segs, limits, |segs|) ensures x in Merged(segs) {
      var i := AcceptedBelowFrom(segs, limits, |segs|, x);
    }
  }

  /** A current row that its segment did not return is beaten by every row it did return. */
  lemma ReturnedBeatUnreturned(seg: Segment, limit: nat, y: Ranked, x: Ranked)
    requires InLocalTop(seg, limit, y) && x in Eligible(seg) && !InLocalTop(seg, limit, x)
    ensures Before(y, x)
  {
    BestByRank(Eligible(seg), limit, y);
    BestByRank(Eligible(seg), limit, x);
    BestBeatsRest(Eligible(seg), limit, y, x);
  }

  /**
   Why the coordinator may stop: when every segment is exhausted or has k accepted hits of its own, a row nobody
   returned is beaten by k winners, so the k best winners are the k best of the merged corpus.
   */
  lemma StopIsExact(segs: seq<Segment>, limits: seq<nat>, statuses: seq<Status>, k: nat)
    requires |segs| == |limits| == |statuses|
    requires forall i | 0 <= i < |segs| :: Honest(segs[i], limits[i], statuses[i].exhausted)
    requires forall i | 0 <= i < |segs| :: statuses[i].accepted == |Accepted(segs, limits, i)|
    requires forall i | 0 <= i < |segs| :: statuses[i].exhausted || statuses[i].accepted >= k
    ensures Best(AcceptedBelow(segs, limits, |segs|), k) == Best(Merged(segs), k)
  {
    var w, all := AcceptedBelow(segs, limits, |segs|), Merged(segs);
    AcceptedInMerged(segs, limits);
    forall x | x in all && x !in w ensures Rank(w, x) >= k {
      var i: nat :| i < |segs| && x in CurrentHits(segs, i);
      if InLocalTop(segs[i], limits[i], x) {
        InAcceptedBelow(segs, limits, |segs|, i, x);
        assert false;
      }
      assert !statuses[i].exhausted;
      var own := Accepted(segs, limits, i);
      forall y | y in own ensures y in w && Before(y, x) {
        InAcceptedBelow(segs, limits, |segs|, i, y);
        ReturnedBeatUnreturned(segs[i], limits[i], y, x);
      }
      SubsetCardinality(own, set z | z in w && Before(z, x));
    }
    BestOfPart(w, all, k);
  }

  predicate MayStop(statuses: seq<Status>, hits: nat, k: nat) {
    || (forall i | 0 <= i < |statuses| :: statuses[i].exhausted)
    || (hits >= k && forall i | 0 <= i < |statuses| :: statuses[i].accepted >= k || statuses[i].exhausted)
  }

  /** A round that may not stop always widens some limit. */
  lemma MustWiden(segs: seq<Segment>, limits: seq<nat>, statuses: seq<Status>, hits: nat, k: nat, wider: seq<nat>)
    requires |segs| == |limits| == |statuses| == |wider|
    requires forall i | 0 <= i < |segs| :: Honest(segs[i], limits[i], statuses[i].exhausted)
    requires !MayStop(statuses, hits, k)
    requires forall i | 0 <= i < |segs| && !statuses[i].exhausted && (hits < k || statuses[i].accepted < k) ::
               wider[i] == Max(limits[i], NextLimit(limits[i], statuses[i].accepted, k, |segs[i].payloads|))
    ensures limits != wider
  {
  }

  function InitialLimits(segs: seq<Segment>, k: nat): (limits: seq<nat>)
    requires k > 0
    ensures WithinLive(segs, limits)
    ensures forall i | 0 <= i < |segs| :: limits[i] == Min(|segs[i].payloads|, k)
  {
    seq(|segs|, i requires 0 <= i < |segs| => Max(Min(|segs[i].payloads|, k), if |segs[i].payloads| > 0 then 1 else 0))
  }

  /** In the merged corpus a node has one hit. */
  lemma MergedOnePerNode(segs: seq<Segment>, x: Ranked, y: Ranked)
    requires Consistent(segs) && x in Merged(segs) && y in Merged(segs) && x.id == y.id
    ensures x == y
  {
    var i: nat :| i < |segs| && x in CurrentHits(segs, i);
    var j: nat :| j < |segs| && y in CurrentHits(segs, j);
    CurrentHitsAgree(segs, i, j, x, y);
  }

  /**
   The coordinator. On consistent segments it returns, best first, at most k rows of the merged corpus, whatever an
   approximate search finds; when every segment is searched exactly, it returns the k best of them and never gives up.
   */
  method CoordinatedQuery(segs: seq<Segment>, k: nat, family: Family, mode: Mode) returns (r: Result<seq<Ranked>, Error>)
    requires AllWellFormed(segs)
    ensures Consistent(segs) && r.Ok? ==>
              Ascending(r.value) && |r.value| <= k && forall x | x in r.value :: x in Merged(segs)
    ensures Consistent(segs) && r.Ok? ==> forall x, y | x in r.value && y in r.value && x.id == y.id :: x == y
    ensures Consistent(segs) ==> r.Ok? || r == Err(CouldNotProve)
    ensures Consistent(segs) && AllExactly(mode, segs) ==> r == Ok(Best(Merged(segs), k))
    ensures AllExactly(mode, segs) ==> r != Err(CouldNotProve)
  {
    hide Consistent, Honest, AllWellFormed, Merged, AllExactly, Accepted, AcceptedBelow, Slack, NextLimit;
    if k == 0 {
      return Ok([]);
    }
    var limits := InitialLimits(segs, k);
    while true
      invariant WithinLive(segs, limits)
      invariant forall i | 0 <= i < |segs| && limits[i] == 0 :: |segs[i].payloads| == 0
      decreases Slack(segs, limits)
    {
      var round :- Round(segs, k, limits, family, mode);
      var hits, statuses := round.0, round.1;
      if MayStop(statuses, |hits|, k) {
        if Consistent(segs) && AllExactly(mode, segs) {
          StopIsExact(segs, limits, statuses, k);
        }
        forall x, y | Consistent(segs) && x in hits && y in hits && x.id == y.id ensures x == y {
          MergedOnePerNode(segs, x, y);
        }
        return Ok(hits);
      }
      var wider, changed := Widen(segs, k, limits, statuses, |hits| < k);
      if AllExactly(mode, segs) {
        MustWiden(segs, limits, statuses, |hits|, k, wider);
      }
      SlackFalls(segs, limits, wider);
      if !changed {
        return Err(CouldNotProve);
      }
      limits := wider;
    }
  }
}
