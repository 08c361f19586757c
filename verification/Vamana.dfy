/**
 Building a Vamana graph and inserting into one.

 The random choices of the build (medoid sample, initial neighbours, visiting order) are parameters, so every claim
 holds for every seed.
 */
module Vamana {
  import opened Ranking
  import opened VisitScratch
  import opened BeamSearch
  import opened BeamTheorems
  import opened Pruning

  datatype BuildParams = BuildParams(r: nat, lBuild: nat, alpha: real)

  /** How the neighbour lists are seeded; `Random` carries the ids drawn for each member. */
  datatype InitStrategy = BruteForce | Random(draws: seq<seq<nat>>)

  datatype InsertError = Cardinality(spaceLen: nat, graphLen: nat) | OrdinalOverflow

  datatype InsertResult = Inserted(id: nat) | Rejected(error: InsertError)

  /** A neighbour list of `id`: at most r entries, in range, no self-loop, no duplicate. */
  ghost predicate GoodList(list: seq<nat>, id: nat, n: nat, r: nat) {
    && |list| <= r
    && (forall i | 0 <= i < |list| :: list[i] < n && list[i] != id)
    && (forall i, j | 0 <= i < j < |list| :: list[i] != list[j])
  }

  ghost predicate WellBounded(adjacency: seq<seq<nat>>, r: nat) {
    forall id | 0 <= id < |adjacency| :: GoodList(adjacency[id], id, |adjacency|, r)
  }

  function DistanceFrom(pair: PairDistance, i: nat): nat -> real {
    (id: nat) => pair(i, id)
  }

  function Measure(pair: PairDistance, i: nat, ids: seq<nat>): (s: seq<Ranked>)
    ensures |s| == |ids| && forall m | 0 <= m < |ids| :: s[m] == Ranked(pair(i, ids[m]), ids[m])
  {
    seq(|ids|, m requires 0 <= m < |ids| => Ranked(pair(i, ids[m]), ids[m]))
  }

  function Pushed(list: seq<nat>, i: nat): seq<nat> {
    if i in list then list else list + [i]
  }

  /** The list of `j` after the reverse edge to `i`: appended, and pruned again only if it overflows r. */
  function Relinked(pair: PairDistance, alpha: real, r: nat, list: seq<nat>, i: nat, j: nat): seq<nat> {
    if |Pushed(list, i)| > r then Pruned(pair, j, Measure(pair, j, Pushed(list, i)), alpha, r) else Pushed(list, i)
  }

  function LinkAll(pair: PairDistance, alpha: real, r: nat, adjacency: seq<seq<nat>>, i: nat, js: seq<nat>): (linked: seq<seq<nat>>)
    requires forall m | 0 <= m < |js| :: js[m] < |adjacency|
    ensures |linked| == |adjacency|
    decreases |js|
  {
    if js == [] then adjacency else
      LinkAll(pair, alpha, r, adjacency[js[0] := Relinked(pair, alpha, r, adjacency[js[0]], i, js[0])], i, js[1..])
  }

  /** The out-list chosen for `i`: the beam's hits, pruned. */
  ghost function Chosen(pair: PairDistance, params: BuildParams, adjacency: seq<seq<nat>>, entry: nat, i: nat): (out: seq<nat>)
    ensures GoodList(out, i, |adjacency|, params.r)
  {
    HitsMeasured(pair, params, adjacency, entry, i);
    PrunedIsGood(pair, i, Hits(pair, params, adjacency, entry, i), params.alpha, |adjacency|, params.r);
    Pruned(pair, i, Hits(pair, params, adjacency, entry, i), params.alpha, params.r)
  }

  // ---- what linking a member means ----

  /** The list, measured from its anchor, is the RobustPrune of these candidates without the anchor. */
  ghost predicate IsPruneOf(pair: PairDistance, alpha: real, anchor: nat, candidates: seq<Ranked>, r: nat, out: seq<nat>) {
    IsRobustPrune(pair, alpha, (set x | x in candidates && x.id != anchor), r, Measure(pair, anchor, out))
  }

  /** The list of `j` gains `i` if it lacks it, and only a list that then overflows r is pruned. */
  ghost predicate IsRelink(pair: PairDistance, alpha: real, r: nat, list: seq<nat>, i: nat, j: nat, after: seq<nat>) {
    var pushed := if i in list then list else list + [i];
    if |pushed| <= r then after == pushed else IsPruneOf(pair, alpha, j, Measure(pair, j, pushed), r, after)
  }

  /** The beam's hits for `i`, at a width that leaves the prune a choice. */
  ghost function Hits(pair: PairDistance, params: BuildParams, adjacency: seq<seq<nat>>, entry: nat, i: nat): seq<Ranked> {
    var l := if params.lBuild <= params.r then params.r + 1 else params.lBuild;
    Answer(adjacency, |adjacency|, entry, l, l, DistanceFrom(pair, i))
  }

  /**
   Member `i`, new or already in the graph, is linked: its list is the prune of what the search finds, each member on
   that list gains a reverse edge, and nothing else changes.
   */
  ghost predicate Links(pair: PairDistance, params: BuildParams, before: seq<seq<nat>>, entry: nat, i: nat,
                        after: seq<seq<nat>>)
  {
    && i <= |before| && |after| == (if i == |before| then i + 1 else |before|)
    && IsPruneOf(pair, params.alpha, i, Hits(pair, params, before, entry, i), params.r, after[i])
    && forall id | 0 <= id < |before| && id != i ::
         if id in after[i] then IsRelink(pair, params.alpha, params.r, before[id], i, id, after[id])
         else after[id] == before[id]
  }

  lemma PrunedIsPrune(pair: PairDistance, anchor: nat, candidates: seq<Ranked>, alpha: real, r: nat)
    requires Measured(candidates, DistanceFrom(pair, anchor))
    ensures IsPruneOf(pair, alpha, anchor, candidates, r, Pruned(pair, anchor, candidates, alpha, r))
  {
    hide Greedy, Prepared, IsRobustPrune;
    var s := Prepared(anchor, candidates);
    var picks := Greedy(pair, alpha, s, r);
    PreparedCandidates(anchor, candidates, DistanceFrom(pair, anchor));
    GreedyIsRobustPrune(pair, alpha, s, r);
    assert Elements(s) == set x | x in candidates && x.id != anchor;
    PicksMeasured(pair, anchor, candidates, alpha, r, Elements(s), picks);
  }

  lemma PicksMeasured(pair: PairDistance, anchor: nat, candidates: seq<Ranked>, alpha: real, r: nat,
                      s: set<Ranked>, picks: seq<Ranked>)
    requires Measured(candidates, DistanceFrom(pair, anchor)) && IsRobustPrune(pair, alpha, s, r, picks)
    requires forall x | x in s :: x in candidates
    ensures Measure(pair, anchor, IdsOf(picks)) == picks
  {
    var again := Measure(pair, anchor, IdsOf(picks));
    forall m | 0 <= m < |picks| ensures again[m] == picks[m] {
      assert picks[m] in Elements(picks) && picks[m] in candidates;
      var c :| 0 <= c < |candidates| && candidates[c] == picks[m];
      assert candidates[c].key == DistanceFrom(pair, anchor)(candidates[c].id);
    }
  }

  lemma RelinkedIsRelink(pair: PairDistance, alpha: real, r: nat, list: seq<nat>, i: nat, j: nat)
    ensures IsRelink(pair, alpha, r, list, i, j, Relinked(pair, alpha, r, list, i, j))
  {
    hide Pruned, IsPruneOf;
    PrunedIsPrune(pair, j, Measure(pair, j, Pushed(list, i)), alpha, r);
  }

  // ---- lists stay bounded ----

  lemma PrunedIsGood(pair: PairDistance, anchor: nat, candidates: seq<Ranked>, alpha: real, n: nat, r: nat)
    requires Measured(candidates, DistanceFrom(pair, anchor))
    requires forall x | x in candidates :: x.id < n
    ensures GoodList(Pruned(pair, anchor, candidates, alpha, r), anchor, n, r)
  {
    hide Occludes;
    PruneContract(pair, anchor, candidates, alpha, r, DistanceFrom(pair, anchor));
  }

  lemma AnswerMeasured(adjacency: seq<seq<nat>>, n: nat, entry: nat, k: nat, ef: nat, dist: nat -> real)
    requires n <= |adjacency|
    ensures Measured(Answer(adjacency, n, entry, k, ef, dist), dist)
    ensures forall x | x in Answer(adjacency, n, entry, k, ef, dist) :: x.id < n
  {
    if n != 0 && k != 0 && entry < n {
      AnswerShape(adjacency, n, entry, k, ef, dist);
    }
  }

  /**
   The search for a node finds more nodes than a list may hold, and at least the build width, whenever so many can be
   reached from the entry; so the prune has a choice.
   */
  lemma HitsLeaveAChoice(pair: PairDistance, params: BuildParams, adjacency: seq<seq<nat>>, entry: nat, i: nat)
    requires entry < |adjacency|
    ensures var p := Probe(adjacency, |adjacency|, entry, |adjacency|, DistanceFrom(pair, i));
            var hits := Hits(pair, params, adjacency, entry, i);
            && Ascending(hits)
            && |hits| == Min(Max(params.lBuild, params.r + 1), |Reachable(p)|)
            && forall x | x in hits :: x.id in Reachable(p) && x.key == pair(i, x.id)
  {
    hide Answer, Reachable;
    var l := Max(params.lBuild, params.r + 1);
    var p := Probe(adjacency, |adjacency|, entry, |adjacency|, DistanceFrom(pair, i));
    var q := Clamped(adjacency, |adjacency|, entry, l, l, DistanceFrom(pair, i));
    AnswerShape(adjacency, |adjacency|, entry, l, l, DistanceFrom(pair, i));
    SameReach(p, q);
  }

  lemma SameReach(p: Probe, q: Probe)
    requires p.Valid() && q.Valid() && p.entry == q.entry && p.n == q.n && p.adjacency == q.adjacency
    ensures Reachable(p) == Reachable(q)
  {
    forall v | v in Ids(p.n) ensures Reaches(p, v) <==> Reaches(q, v) {
      forall path: seq<nat> ensures Walk(p, path) <==> Walk(q, path) {
      }
    }
  }

  lemma HitsMeasured(pair: PairDistance, params: BuildParams, adjacency: seq<seq<nat>>, entry: nat, i: nat)
    ensures Measured(Hits(pair, params, adjacency, entry, i), DistanceFrom(pair, i))
    ensures forall x | x in Hits(pair, params, adjacency, entry, i) :: x.id < |adjacency|
  {
    hide Answer, Measured;
    var l := if params.lBuild <= params.r then params.r + 1 else params.lBuild;
    AnswerMeasured(adjacency, |adjacency|, entry, l, l, DistanceFrom(pair, i));
  }

  lemma RelinkedIsGood(pair: PairDistance, alpha: real, n: nat, r: nat, list: seq<nat>, i: nat, j: nat)
    requires GoodList(list, j, n, r) && i < n && i != j
    ensures GoodList(Relinked(pair, alpha, r, list, i, j), j, n, r)
  {
    PrunedIsGood(pair, j, Measure(pair, j, Pushed(list, i)), alpha, n, r);
  }

  /** The reverse edge is there, unless pruning an overflowing list found it occluded or had r nearer picks. */
  lemma ReverseEdge(pair: PairDistance, alpha: real, r: nat, list: seq<nat>, i: nat, j: nat)
    requires i != j
    ensures IsRelink(pair, alpha, r, list, i, j, Relinked(pair, alpha, r, list, i, j))
    ensures var linked := Relinked(pair, alpha, r, list, i, j);
            || i in linked
            || |linked| == r
            || exists m :: 0 <= m < |linked| && Occludes(pair, alpha, linked[m], Ranked(pair(j, i), i))
    ensures |Pushed(list, i)| <= r ==> forall x :: x in Relinked(pair, alpha, r, list, i, j) <==> x in list || x == i
  {
    hide IsPruneOf, IsRelink;
    RelinkedIsRelink(pair, alpha, r, list, i, j);
    var pushed := Pushed(list, i);
    if |pushed| > r {
      var candidates := Measure(pair, j, pushed);
      PruneContract(pair, j, candidates, alpha, r, DistanceFrom(pair, j));
      assert i in pushed;
      var m :| 0 <= m < |pushed| && pushed[m] == i;
      assert candidates[m] == Ranked(pair(j, i), i);
    }
  }

  lemma {:induction false} LinkAllIsGood(pair: PairDistance, alpha: real, r: nat, adjacency: seq<seq<nat>>, i: nat, js: seq<nat>)
    requires WellBounded(adjacency, r) && i < |adjacency|
    requires forall m | 0 <= m < |js| :: js[m] < |adjacency| && js[m] != i
    ensures WellBounded(LinkAll(pair, alpha, r, adjacency, i, js), r)
    decreases |js|
  {
    if js != [] {
      RelinkedIsGood(pair, alpha, |adjacency|, r, adjacency[js[0]], i, js[0]);
      LinkAllIsGood(pair, alpha, r, adjacency[js[0] := Relinked(pair, alpha, r, adjacency[js[0]], i, js[0])], i, js[1..]);
    }
  }

  /** Linking changes exactly the lists of the chosen neighbours, each by one reverse edge. */
  lemma {:induction false} LinkAllAt(pair: PairDistance, alpha: real, r: nat, adjacency: seq<seq<nat>>, i: nat, js: seq<nat>, id: nat)
    requires forall m | 0 <= m < |js| :: js[m] < |adjacency|
    requires forall a, b | 0 <= a < b < |js| :: js[a] != js[b]
    requires id < |adjacency|
    ensures var linked := LinkAll(pair, alpha, r, adjacency, i, js);
            linked[id] == if id in js then Relinked(pair, alpha, r, adjacency[id], i, id) else adjacency[id]
    decreases |js|
  {
    if js != [] {
      LinkAllAt(pair, alpha, r, adjacency[js[0] := Relinked(pair, alpha, r, adjacency[js[0]], i, js[0])], i, js[1..], id);
      assert id in js <==> id == js[0] || id in js[1..];
    }
  }

  // ---- the back-edge loop, shared by build and insert ----

  method AddReverseEdges(pair: PairDistance, alpha: real, r: nat, adjacency: seq<seq<nat>>, i: nat, js: seq<nat>)
    returns (linked: seq<seq<nat>>)
    requires forall m | 0 <= m < |js| :: js[m] < |adjacency|
    ensures linked == LinkAll(pair, alpha, r, adjacency, i, js)
    ensures (forall a, b | 0 <= a < b < |js| :: js[a] != js[b]) ==>
              forall id | 0 <= id < |adjacency| ::
                if id in js then IsRelink(pair, alpha, r, adjacency[id], i, id, linked[id]) else linked[id] == adjacency[id]
  {
    hide IsRelink;
    linked := adjacency;
    for m := 0 to |js|
      invariant |linked| == |adjacency|
      invariant LinkAll(pair, alpha, r, linked, i, js[m..]) == LinkAll(pair, alpha, r, adjacency, i, js)
    {
      var j := js[m];
      assert js[m..][0] == j && js[m..][1..] == js[m + 1..];
      var list := linked[j];
      if i !in list {
        list := list + [i];
      }
      if |list| > r {
        list := RobustPrune(pair, j, Measure(pair, j, list), alpha, r);
      }
      linked := linked[j := list];
    }
    assert js[|js|..] == [];
    if forall a, b | 0 <= a < b < |js| :: js[a] != js[b] {
      forall id | 0 <= id < |adjacency|
        ensures if id in js then IsRelink(pair, alpha, r, adjacency[id], i, id, linked[id]) else linked[id] == adjacency[id]
      {
        LinkAllAt(pair, alpha, r, adjacency, i, js, id);
        RelinkedIsRelink(pair, alpha, r, adjacency[id], i, id);
      }
    }
  }

  /** Search the graph so far for `i`, then prune. The prune drops `i` itself, should the search find it. */
  method ChooseNeighbours(pair: PairDistance, params: BuildParams, adjacency: seq<seq<nat>>, entry: nat, i: nat,
                          scratch: BeamScratch)
    returns (out: seq<nat>)
    requires scratch.Valid()
    modifies scratch
    ensures scratch.Valid()
    ensures out == Chosen(pair, params, adjacency, entry, i)
    ensures IsPruneOf(pair, params.alpha, i, Hits(pair, params, adjacency, entry, i), params.r, out)
  {
    hide Answer, Pruned, Measured, GoodList, IsPruneOf;
    var l := Max(params.lBuild, params.r + 1);
    var found := BeamSearchWithScratch(adjacency, |adjacency|, entry, l, l, DistanceFrom(pair, i), scratch);
    assert found == Hits(pair, params, adjacency, entry, i);
    HitsMeasured(pair, params, adjacency, entry, i);
    PrunedIsPrune(pair, i, found, params.alpha, params.r);
    out := RobustPrune(pair, i, found, params.alpha, params.r);
  }

  // ---- incremental insert ----

  /** The adjacency after appending one member: its own chosen list, and one reverse edge on each list it names. */
  method Grow(pair: PairDistance, params: BuildParams, adjacency: seq<seq<nat>>, entry: nat) returns (grown: seq<seq<nat>>)
    ensures Links(pair, params, adjacency, entry, |adjacency|, grown)
    ensures WellBounded(adjacency, params.r) ==> WellBounded(grown, params.r)
  {
    hide Relinked, LinkAll, Chosen, IsPruneOf, IsRelink, Hits;
    var scratch := new BeamScratch.Sparse();
    var neighbours := ChooseNeighbours(pair, params, adjacency, entry, |adjacency|, scratch);
    grown := AddReverseEdges(pair, params.alpha, params.r, adjacency + [neighbours], |adjacency|, neighbours);
    assert grown[|adjacency|] == neighbours;
    if WellBounded(adjacency, params.r) {
      InsertIsGood(pair, params, adjacency, |adjacency|, neighbours);
    }
  }

  class VamanaGraph {
    var adjacency: seq<seq<nat>>
    var entry: nat

    ghost predicate Valid(r: nat)
      reads this
    {
      WellBounded(adjacency, r) && (adjacency == [] || entry < |adjacency|)
    }

    constructor (adjacency: seq<seq<nat>>, entry: nat)
      ensures this.adjacency == adjacency && this.entry == entry
    {
      this.adjacency, this.entry := adjacency, entry;
    }

    /** Insert the last member of a space of `spaceLen` vectors. */
    method InsertLast(pair: PairDistance, spaceLen: nat, params: BuildParams) returns (result: InsertResult)
      modifies this
      ensures result == if spaceLen != |old(adjacency)| + 1 then Rejected(Cardinality(spaceLen, |old(adjacency)|))
                        else if |old(adjacency)| > U32_MAX then Rejected(OrdinalOverflow)
                        else Inserted(|old(adjacency)|)
      ensures result.Rejected? ==> adjacency == old(adjacency) && entry == old(entry)
      ensures result.Inserted? ==> |adjacency| == |old(adjacency)| + 1
      ensures result.Inserted? && old(adjacency) == [] ==> adjacency == [[]] && entry == 0
      ensures result.Inserted? && old(adjacency) != [] ==>
                entry == old(entry) && Links(pair, params, old(adjacency), entry, result.id, adjacency)
      ensures old(Valid(params.r)) ==> Valid(params.r)
    {
      var graphLen := |adjacency|;
      if spaceLen != graphLen + 1 {
        return Rejected(Cardinality(spaceLen, graphLen));
      }
      if graphLen > U32_MAX {
        return Rejected(OrdinalOverflow);
      }
      result := Inserted(graphLen);
      if graphLen == 0 {
        adjacency, entry := adjacency + [[]], 0;
        return;
      }
      adjacency := Grow(pair, params, adjacency, entry);
    }
  }

  lemma InsertIsGood(pair: PairDistance, params: BuildParams, was: seq<seq<nat>>, i: nat, neighbours: seq<nat>)
    requires i == |was| && GoodList(neighbours, i, |was|, params.r) && WellBounded(was, params.r)
    ensures WellBounded(LinkAll(pair, params.alpha, params.r, was + [neighbours], i, neighbours), params.r)
  {
    assert WellBounded(was + [neighbours], params.r) by {
      forall id | 0 <= id <= |was| ensures GoodList((was + [neighbours])[id], id, |was| + 1, params.r) {
        assert id < |was| ==> GoodList(was[id], id, |was|, params.r);
      }
    }
    LinkAllIsGood(pair, params.alpha, params.r, was + [neighbours], i, neighbours);
  }

  /** Any run of inserts, accepted or rejected, from the empty graph: bounded lists and an entry fixed at the first. */
  method InsertRun(pairs: seq<PairDistance>, spaceLens: seq<nat>, params: BuildParams) returns (graph: VamanaGraph)
    requires |pairs| == |spaceLens|
    ensures graph.Valid(params.r)
    ensures graph.entry == 0
    ensures |graph.adjacency| <= |spaceLens|
  {
    graph := new VamanaGraph([], 0);
    for m := 0 to |spaceLens|
      invariant graph.Valid(params.r) && graph.entry == 0 && |graph.adjacency| <= m
    {
      var result := graph.InsertLast(pairs[m], spaceLens[m], params);
    }
  }

  // ---- full build ----

  function Others(n: nat, i: nat): (ids: seq<nat>)
    ensures forall x: nat :: x in ids <==> x < n && x != i
    ensures forall a, b | 0 <= a < b < |ids| :: ids[a] < ids[b]
  {
    if n == 0 then [] else if n - 1 == i then Others(n - 1, i) else
      var before := Others(n - 1, i);
      assert forall a | 0 <= a < |before| :: before[a] in before;
      before + [n - 1]
  }

  /** The r nearest other members, by sorting all of them. */
  function NearestOthers(pair: PairDistance, n: nat, r: nat, i: nat): seq<nat> {
    var sorted := Sort(Measure(pair, i, Others(n, i)));
    IdsOf(sorted[..Min(r, |sorted|)])
  }

  function BruteForceInit(pair: PairDistance, n: nat, r: nat): seq<seq<nat>> {
    seq(n, i requires 0 <= i < n => NearestOthers(pair, n, r, i))
  }

  lemma MeasuredOthers(pair: PairDistance, n: nat, i: nat, x: Ranked)
    ensures x in Measure(pair, i, Others(n, i)) <==> x in Scored(DistanceFrom(pair, i), Ids(n) - {i})
  {
    var s := Measure(pair, i, Others(n, i));
    if x in Scored(DistanceFrom(pair, i), Ids(n) - {i}) {
      assert x.id in Others(n, i);
      var m :| 0 <= m < |s| && Others(n, i)[m] == x.id;
      assert s[m] == x;
    }
    if x in s {
      var m :| 0 <= m < |s| && s[m] == x;
      assert Others(n, i)[m] in Others(n, i);
      assert x == Ranked(DistanceFrom(pair, i)(x.id), x.id);
    }
  }

  lemma NearestOthersAreNearest(pair: PairDistance, n: nat, r: nat, i: nat)
    ensures NearestOthers(pair, n, r, i) == IdsOf(Best(Scored(DistanceFrom(pair, i), Ids(n) - {i}), r))
    ensures GoodList(NearestOthers(pair, n, r, i), i, n, r)
  {
    var s := Measure(pair, i, Others(n, i));
    var all := Scored(DistanceFrom(pair, i), Ids(n) - {i});
    assert Elements(s) == all by {
      forall x ensures x in Elements(s) <==> x in all {
        MeasuredOthers(pair, n, i, x);
      }
    }
    assert Sort(s) == Ordered(all) by { SortDistinct(s); }
    assert Sort(s)[..Min(r, |Sort(s)|)] == Best(all, r);
    BestIsGood(DistanceFrom(pair, i), n, r, i);
  }

  lemma BestIsGood(dist: nat -> real, n: nat, r: nat, i: nat)
    ensures GoodList(IdsOf(Best(Scored(dist, Ids(n) - {i}), r)), i, n, r)
  {
    var all := Scored(dist, Ids(n) - {i});
    var best := Best(all, r);
    forall m | 0 <= m < |best| ensures best[m] in all {
      BestByRank(all, r, best[m]);
    }
    forall a, b | 0 <= a < b < |best| ensures best[a].id != best[b].id {
      assert Before(best[a], best[b]);
    }
  }

  /** Ids drawn for member i: distinct, one more than needed so that dropping i leaves enough. */
  ghost predicate GoodDraw(draw: seq<nat>, n: nat, r: nat)
    requires n > 0
  {
    && |draw| == Min(Min(r, n - 1) + 1, n)
    && (forall a | 0 <= a < |draw| :: draw[a] < n)
    && (forall a, b | 0 <= a < b < |draw| :: draw[a] != draw[b])
  }

  function DropId(s: seq<nat>, i: nat): (t: seq<nat>)
    ensures forall x :: x in t <==> x in s && x != i
    ensures |t| <= |s|
  {
    if s == [] then [] else
      assert forall x :: x in s <==> x == s[0] || x in s[1..];
      (if s[0] == i then [] else [s[0]]) + DropId(s[1..], i)
  }

  lemma {:induction false} DropIdKeepsDistinct(s: seq<nat>, i: nat)
    requires forall a, b | 0 <= a < b < |s| :: s[a] != s[b]
    ensures var t := DropId(s, i);
            && (forall a, b | 0 <= a < b < |t| :: t[a] != t[b])
            && |t| == if i in s then |s| - 1 else |s|
  {
    if s != [] {
      var rest := s[1..];
      DropIdKeepsDistinct(rest, i);
      DropIdStep(s, i);
      hide DropId;
      var t := DropId(rest, i);
      forall a | 0 <= a < |t| ensures t[a] in rest && t[a] != s[0] {
        assert t[a] in t;
      }
      assert i in s <==> i == s[0] || i in rest;
    }
  }

  lemma DropIdStep(s: seq<nat>, i: nat)
    requires s != []
    ensures DropId(s, i) == (if s[0] == i then [] else [s[0]]) + DropId(s[1..], i)
  {
  }

  function RandomInit(n: nat, r: nat, draws: seq<seq<nat>>): seq<seq<nat>>
    requires |draws| == n > 0 && forall i | 0 <= i < n :: |DropId(draws[i], i)| >= Min(r, n - 1)
  {
    seq(n, i requires 0 <= i < n => DropId(draws[i], i)[..Min(r, n - 1)])
  }

  /** Exactly min(r, n - 1) distinct neighbours each, never the member itself. */
  lemma RandomInitIsGood(n: nat, r: nat, draws: seq<seq<nat>>)
    requires |draws| == n > 0 && forall i | 0 <= i < n :: GoodDraw(draws[i], n, r)
    ensures forall i | 0 <= i < n :: |DropId(draws[i], i)| >= Min(r, n - 1)
    ensures WellBounded(RandomInit(n, r, draws), r)
    ensures forall i | 0 <= i < n :: |RandomInit(n, r, draws)[i]| == Min(r, n - 1)
  {
    forall i | 0 <= i < n
      ensures |DropId(draws[i], i)| >= Min(r, n - 1)
      ensures GoodList(DropId(draws[i], i)[..Min(r, n - 1)], i, n, r)
    {
      DropIdKeepsDistinct(draws[i], i);
      var t := DropId(draws[i], i);
      assert forall a | 0 <= a < |t| :: t[a] in draws[i];
    }
  }

  function TotalDistance(pair: PairDistance, c: nat, sample: seq<nat>): real {
    if sample == [] then 0.0 else pair(c, sample[0]) + TotalDistance(pair, c, sample[1..])
  }

  /** The sample member with the least total distance to the sample, the first one on a tie. */
  method ApproximateMedoid(pair: PairDistance, sample: seq<nat>) returns (best: nat)
    requires sample != []
    ensures IsMedoid(pair, best, sample)
  {
    hide TotalDistance;
    best := sample[0];
    var bestSum := TotalDistance(pair, best, sample);
    ghost var p := 0;
    for m := 1 to |sample|
      invariant 0 <= p < m && best == sample[p] && bestSum == TotalDistance(pair, best, sample)
      invariant forall a | 0 <= a < m :: bestSum <= TotalDistance(pair, sample[a], sample)
      invariant forall a | 0 <= a < p :: bestSum < TotalDistance(pair, sample[a], sample)
    {
      var sum := TotalDistance(pair, sample[m], sample);
      if sum < bestSum {
        best, bestSum, p := sample[m], sum, m;
      }
    }
    assert FirstLeast(pair, sample, p);
  }

  ghost function Refined(pair: PairDistance, params: BuildParams, adjacency: seq<seq<nat>>, entry: nat, i: nat): (refined: seq<seq<nat>>)
    requires i < |adjacency|
    ensures |refined| == |adjacency|
  {
    var chosen := Chosen(pair, params, adjacency, entry, i);
    LinkAll(pair, params.alpha, params.r, adjacency[i := chosen], i, chosen)
  }

  ghost predicate GoodInit(init: InitStrategy, n: nat, r: nat) {
    init.Random? && n > 0 ==> |init.draws| == n && forall i | 0 <= i < n :: GoodDraw(init.draws[i], n, r)
  }

  /** What is left of a draw without the member itself, cut to size. */
  ghost predicate IsDrawn(list: seq<nat>, draw: seq<nat>, i: nat, take: nat) {
    |list| == take
    && if i in draw then exists p | 0 <= p < |draw| :: draw[p] == i && list <= draw[..p] + draw[p + 1..] else list <= draw
  }

  /** The lists before the refine pass: the r nearest others, or random draws. */
  ghost predicate IsSeed(pair: PairDistance, n: nat, r: nat, init: InitStrategy, adjacency: seq<seq<nat>>)
    requires n > 0 && GoodInit(init, n, r)
  {
    && |adjacency| == n
    && forall i | 0 <= i < n ::
         match init
         case Random(draws) => IsDrawn(adjacency[i], draws[i], i, Min(r, n - 1))
         case BruteForce => adjacency[i] == IdsOf(Best(Scored(DistanceFrom(pair, i), Ids(n) - {i}), r))
  }

  lemma {:induction false} NothingToDrop(s: seq<nat>, i: nat)
    requires i !in s
    ensures DropId(s, i) == s
  {
    if s != [] {
      DropIdStep(s, i);
      NothingToDrop(s[1..], i);
      assert s == [s[0]] + s[1..];
    }
  }

  lemma {:induction false} DropIdAt(s: seq<nat>, i: nat, p: nat)
    requires p < |s| && s[p] == i && forall a, b | 0 <= a < b < |s| :: s[a] != s[b]
    ensures DropId(s, i) == s[..p] + s[p + 1..]
  {
    var rest := s[1..];
    DropIdStep(s, i);
    hide DropId;
    if p == 0 {
      NothingToDrop(rest, i);
    } else {
      DropIdAt(rest, i, p - 1);
      assert s[..p] == [s[0]] + rest[..p - 1] && s[p + 1..] == rest[p..];
    }
  }

  lemma DropIdIs(s: seq<nat>, i: nat)
    requires forall a, b | 0 <= a < b < |s| :: s[a] != s[b]
    ensures i !in s ==> DropId(s, i) == s
    ensures forall p | 0 <= p < |s| && s[p] == i :: DropId(s, i) == s[..p] + s[p + 1..]
  {
    hide DropId;
    if i !in s {
      NothingToDrop(s, i);
    }
    forall p | 0 <= p < |s| && s[p] == i ensures DropId(s, i) == s[..p] + s[p + 1..] {
      DropIdAt(s, i, p);
    }
  }

  lemma RandomInitIsSeed(pair: PairDistance, n: nat, r: nat, draws: seq<seq<nat>>)
    requires n > 0 && GoodInit(Random(draws), n, r)
    ensures forall i | 0 <= i < n :: |DropId(draws[i], i)| >= Min(r, n - 1)
    ensures IsSeed(pair, n, r, Random(draws), RandomInit(n, r, draws)) && WellBounded(RandomInit(n, r, draws), r)
  {
    RandomInitIsGood(n, r, draws);
    forall i | 0 <= i < n ensures IsDrawn(RandomInit(n, r, draws)[i], draws[i], i, Min(r, n - 1)) {
      DropIdIs(draws[i], i);
    }
  }

  lemma BruteForceInitIsSeed(pair: PairDistance, n: nat, r: nat)
    requires n > 0
    ensures IsSeed(pair, n, r, BruteForce, BruteForceInit(pair, n, r)) && WellBounded(BruteForceInit(pair, n, r), r)
  {
    hide NearestOthers, Best, Scored, IdsOf;
    BruteForceInitIsGood(pair, n, r);
    forall i | 0 <= i < n
      ensures BruteForceInit(pair, n, r)[i] == IdsOf(Best(Scored(DistanceFrom(pair, i), Ids(n) - {i}), r))
    {
      NearestOthersAreNearest(pair, n, r, i);
    }
  }

  lemma BruteForceInitIsGood(pair: PairDistance, n: nat, r: nat)
    ensures WellBounded(BruteForceInit(pair, n, r), r)
  {
    forall i | 0 <= i < n ensures GoodList(BruteForceInit(pair, n, r)[i], i, n, r) {
      NearestOthersAreNearest(pair, n, r, i);
    }
  }

  lemma RefinedIsGood(pair: PairDistance, params: BuildParams, adjacency: seq<seq<nat>>, entry: nat, i: nat)
    requires i < |adjacency| && WellBounded(adjacency, params.r)
    ensures WellBounded(Refined(pair, params, adjacency, entry, i), params.r)
  {
    var chosen := Chosen(pair, params, adjacency, entry, i);
    assert WellBounded(adjacency[i := chosen], params.r);
    LinkAllIsGood(pair, params.alpha, params.r, adjacency[i := chosen], i, chosen);
  }

  method RefineOne(pair: PairDistance, params: BuildParams, adjacency: seq<seq<nat>>, entry: nat, i: nat, scratch: BeamScratch)
    returns (refined: seq<seq<nat>>)
    requires i < |adjacency| && scratch.Valid()
    modifies scratch
    ensures scratch.Valid()
    ensures refined == Refined(pair, params, adjacency, entry, i)
    ensures Links(pair, params, adjacency, entry, i, refined)
  {
    hide Relinked, LinkAll, IsPruneOf, IsRelink, Hits;
    var chosen := ChooseNeighbours(pair, params, adjacency, entry, i, scratch);
    refined := AddReverseEdges(pair, params.alpha, params.r, adjacency[i := chosen], i, chosen);
    assert refined[i] == chosen;
  }

  /** No sample member has a smaller total than the one at `p`, and none before it an equal one. */
  ghost predicate FirstLeast(pair: PairDistance, sample: seq<nat>, p: nat)
    requires p < |sample|
  {
    forall q | 0 <= q < |sample| ::
      var (mine, other) := (TotalDistance(pair, sample[p], sample), TotalDistance(pair, sample[q], sample));
      if q < p then mine < other else mine <= other
  }

  ghost predicate IsMedoid(pair: PairDistance, best: nat, sample: seq<nat>) {
    exists p: nat | p < |sample| :: best == sample[p] && FirstLeast(pair, sample, p)
  }

  /** A refine pass: the graph after each member of the visiting order. */
  ghost predicate IsRefinePass(pair: PairDistance, params: BuildParams, entry: nat, order: seq<nat>,
                               passes: seq<seq<seq<nat>>>)
  {
    && |passes| == |order| + 1
    && forall m | 0 <= m < |order| :: Links(pair, params, passes[m], entry, order[m], passes[m + 1])
  }

  /** Build over n members, for any medoid sample, any draws and any visiting order. */
  method Build(pair: PairDistance, n: nat, params: BuildParams, init: InitStrategy, sample: seq<nat>, order: seq<nat>)
    returns (adjacency: seq<seq<nat>>, entry: nat, ghost passes: seq<seq<seq<nat>>>)
    requires sample != [] && forall m | 0 <= m < |sample| :: sample[m] < Max(n, 1)
    requires forall m | 0 <= m < |order| :: order[m] < n
    requires GoodInit(init, n, params.r)
    ensures |adjacency| == n
    ensures WellBounded(adjacency, params.r)
    ensures n > 0 ==> entry < n
    ensures n > 1 ==>
              && IsMedoid(pair, entry, sample)
              && IsRefinePass(pair, params, entry, order, passes)
              && IsSeed(pair, n, params.r, init, passes[0]) && passes[|order|] == adjacency
  {
    passes := [];
    if n == 0 {
      return [], 0, [];
    }
    if n == 1 {
      return [[]], 0, [];
    }
    hide IsRefinePass, IsSeed, IsMedoid;
    entry := MedoidEntry(pair, sample, n);
    adjacency := SeedLists(pair, n, params.r, init);
    adjacency, passes := RefinePass(pair, params, adjacency, entry, order);
  }

  method MedoidEntry(pair: PairDistance, sample: seq<nat>, n: nat) returns (entry: nat)
    requires sample != [] && forall m | 0 <= m < |sample| :: sample[m] < n
    ensures IsMedoid(pair, entry, sample) && entry < n
  {
    entry := ApproximateMedoid(pair, sample);
  }

  method SeedLists(pair: PairDistance, n: nat, r: nat, init: InitStrategy) returns (adjacency: seq<seq<nat>>)
    requires n > 0 && GoodInit(init, n, r)
    ensures IsSeed(pair, n, r, init, adjacency) && |adjacency| == n && WellBounded(adjacency, r)
  {
    match init
    case Random(draws) =>
      RandomInitIsSeed(pair, n, r, draws);
      adjacency := RandomInit(n, r, draws);
    case BruteForce =>
      BruteForceInitIsSeed(pair, n, r);
      adjacency := BruteForceInit(pair, n, r);
  }

  method RefinePass(pair: PairDistance, params: BuildParams, seeded: seq<seq<nat>>, entry: nat, order: seq<nat>)
    returns (adjacency: seq<seq<nat>>, ghost passes: seq<seq<seq<nat>>>)
    requires WellBounded(seeded, params.r) && forall m | 0 <= m < |order| :: order[m] < |seeded|
    ensures |adjacency| == |seeded| && WellBounded(adjacency, params.r)
    ensures IsRefinePass(pair, params, entry, order, passes) && passes[0] == seeded && passes[|order|] == adjacency
  {
    hide Links, Refined, WellBounded;
    adjacency, passes := seeded, [seeded];
    var scratch := new BeamScratch.Dense(|seeded|);
    for m := 0 to |order|
      invariant scratch.Valid() && fresh(scratch)
      invariant |adjacency| == |seeded| && WellBounded(adjacency, params.r)
      invariant IsRefinePass(pair, params, entry, order[..m], passes) && passes[0] == seeded && passes[m] == adjacency
    {
      RefinedIsGood(pair, params, adjacency, entry, order[m]);
      adjacency := RefineOne(pair, params, adjacency, entry, order[m], scratch);
      passes := passes + [adjacency];
    }
    assert order[..|order|] == order;
  }
}
