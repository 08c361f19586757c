/** What beam search guarantees, for every graph, beam width and distance. */
module BeamTheorems {
  import opened Ranking
  import opened BeamSearch
  import opened VisitScratch

  ghost predicate Edge(p: Probe, u: nat, v: nat)
    requires p.Valid()
  {
    u < p.n && v < p.n && v in p.adjacency[u]
  }

  ghost predicate Walk(p: Probe, path: seq<nat>)
    requires p.Valid()
  {
    path != [] && path[0] == p.entry && forall i | 1 <= i < |path| :: Edge(p, path[i - 1], path[i])
  }

  ghost predicate Reaches(p: Probe, v: nat)
    requires p.Valid()
  {
    exists path: seq<nat> :: Walk(p, path) && path[|path| - 1] == v
  }

  /** The nodes the entry reaches through edges whose ends are both in range. */
  ghost function Reachable(p: Probe): set<nat>
    requires p.Valid()
  {
    set v | v in Ids(p.n) && Reaches(p, v)
  }

  lemma EntryReachable(p: Probe)
    requires p.Valid()
    ensures p.entry in Reachable(p)
  {
    assert Walk(p, [p.entry]) && [p.entry][|[p.entry]| - 1] == p.entry;
  }

  lemma EdgeReachable(p: Probe, u: nat, v: nat)
    requires p.Valid() && u in Reachable(p) && Edge(p, u, v)
    ensures v in Reachable(p)
  {
    var path :| Walk(p, path) && path[|path| - 1] == u;
    var longer := path + [v];
    assert Walk(p, longer) && longer[|longer| - 1] == v;
  }

  ghost predicate NeighboursSeen(p: Probe, id: nat, visited: set<nat>)
    requires p.Valid()
  {
    forall v | Edge(p, id, v) :: v in visited
  }

  /** A set that holds the entry and is closed under edges holds everything reachable. */
  lemma {:induction false} ClosedHoldsWalk(p: Probe, s: set<nat>, path: seq<nat>)
    requires p.Valid() && p.entry in s
    requires forall u | u in s :: NeighboursSeen(p, u, s)
    requires Walk(p, path)
    ensures path[|path| - 1] in s
    decreases |path|
  {
    if |path| > 1 {
      var shorter := path[..|path| - 1];
      assert Walk(p, shorter);
      ClosedHoldsWalk(p, s, shorter);
      assert Edge(p, path[|path| - 2], path[|path| - 1]);
    }
  }

  lemma ClosedHoldsReachable(p: Probe, s: set<nat>)
    requires p.Valid() && p.entry in s
    requires forall u | u in s :: NeighboursSeen(p, u, s)
    ensures Reachable(p) <= s
  {
    forall v | v in Reachable(p) ensures v in s {
      var path :| Walk(p, path) && path[|path| - 1] == v;
      ClosedHoldsWalk(p, s, path);
    }
  }

  // ---- the loop invariant ----

  /** Some result is at least as near as every node scored so far, and no farther than `worst`. */
  ghost predicate KeepsNearest(p: Probe, b: Beam, worst: real) {
    exists r :: r in b.results && r.key <= worst && forall v | v in b.visited :: r.key <= p.dist(v)
  }

  /** Every result other than `current` waits in the heap or has had all its neighbours scored. */
  ghost predicate ResultsTracked(p: Probe, b: Beam, current: Ranked)
    requires p.Valid()
  {
    forall r | r in b.results && r != current && r !in b.candidates :: NeighboursSeen(p, r.id, b.visited)
  }

  /** Nothing has been turned away or evicted while the beam has room. */
  ghost predicate RoomMeansAll(p: Probe, b: Beam) {
    |b.results| < p.ef ==> forall v | v in b.visited :: Ranked(p.dist(v), v) in b.results
  }

  ghost predicate Expanding(p: Probe, b: Beam, worst: real, current: Ranked) {
    && Bounded(p, b)
    && p.entry in b.visited
    && b.visited <= Reachable(p)
    && HoldsScored(b.results, p.dist, b.visited)
    && |b.results| <= p.ef
    && KeepsNearest(p, b, worst)
    && ResultsTracked(p, b, current)
    && RoomMeansAll(p, b)
  }

  /** Between expansions every result is tracked. */
  ghost predicate Invariant(p: Probe, b: Beam) {
    && Bounded(p, b)
    && p.entry in b.visited
    && b.visited <= Reachable(p)
    && HoldsScored(b.results, p.dist, b.visited)
    && |b.results| <= p.ef
    && KeepsNearest(p, b, Greatest(b.results).key)
    && (forall r | r in b.results && r !in b.candidates :: NeighboursSeen(p, r.id, b.visited))
    && RoomMeansAll(p, b)
  }

  /** Evicting the farthest result leaves a nearest one behind. */
  lemma EvictionKeepsNearest(grown: set<Ranked>, nearest: Ranked) returns (r: Ranked)
    requires |grown| >= 2 && nearest in grown
    requires forall x | x in grown :: nearest.key <= x.key
    ensures r in grown - {Greatest(grown)} && r.key == nearest.key
  {
    hide Greatest;
    var far := Greatest(grown);
    EvictionKeepsOne(grown);
    if nearest != far {
      r := nearest;
    } else {
      r :| r in grown - {far};
      assert Before(r, far);
    }
  }

  lemma OfferKeepsNearest(p: Probe, b: Beam, worst: real, nb: nat)
    requires Bounded(p, b) && HoldsScored(b.results, p.dist, b.visited) && KeepsNearest(p, b, worst)
    requires |b.results| <= p.ef
    ensures KeepsNearest(p, Offer(p, b, worst, nb), worst)
  {
    hide Greatest;
    if nb < p.n && nb !in b.visited {
      var r :| r in b.results && r.key <= worst && forall v | v in b.visited :: r.key <= p.dist(v);
      var x := Ranked(p.dist(nb), nb);
      var o := Offer(p, b, worst, nb);
      assert o.visited == b.visited + {nb};
      if |b.results| < p.ef || x.key < worst {
        var kept := GrownKeepsNearest(b.results, p.ef, x, r);
        assert kept in o.results && kept.key <= r.key && kept.key <= x.key;
      } else {
        assert r in o.results && r.key <= x.key;
      }
    }
  }

  /** Adding a result and evicting the farthest beyond the width keeps something as near as both. */
  lemma GrownKeepsNearest(results: set<Ranked>, ef: nat, x: Ranked, r: Ranked) returns (kept: Ranked)
    requires r in results && ef >= 1 && forall y | y in results :: r.key <= y.key
    ensures var grown := results + {x};
            kept in (if |grown| > ef then grown - {Greatest(grown)} else grown)
    ensures kept.key <= r.key && kept.key <= x.key
  {
    hide Greatest;
    var grown := results + {x};
    kept := if x.key < r.key then x else r;
    if |grown| > ef {
      kept := EvictionKeepsNearest(grown, kept);
    }
  }

  /** What an offer of an unseen node does to the beam. */
  lemma OfferShape(p: Probe, b: Beam, worst: real, nb: nat)
    requires |b.results| <= p.ef && nb < p.n && nb !in b.visited
    ensures var o := Offer(p, b, worst, nb);
            var x := Ranked(p.dist(nb), nb);
            && o.visited == b.visited + {nb}
            && |o.results| <= p.ef
            && o.results <= b.results + {x}
            && b.candidates <= o.candidates
            && (x in o.results ==> x in o.candidates || x in b.results)
            && (|o.results| < p.ef ==> |b.results| < p.ef && o.results == b.results + {x})
  {
    var x := Ranked(p.dist(nb), nb);
    var grown := b.results + {x};
    assert x !in b.results ==> |grown| == |b.results| + 1;
    assert x in b.results ==> grown == b.results;
    if |grown| > p.ef {
      assert |grown - {Greatest(grown)}| == |grown| - 1;
    }
  }

  lemma OfferExpanding(p: Probe, b: Beam, worst: real, current: Ranked, nb: nat)
    requires Expanding(p, b, worst, current)
    requires nb < p.n ==> nb in Reachable(p)
    ensures Expanding(p, Offer(p, b, worst, nb), worst, current)
    ensures nb < p.n ==> nb in Offer(p, b, worst, nb).visited
    ensures b.visited <= Offer(p, b, worst, nb).visited
  {
    OfferBounded(p, b, worst, nb);
    OfferKeepsNearest(p, b, worst, nb);
    if nb < p.n && nb !in b.visited {
      OfferShape(p, b, worst, nb);
      OfferTracked(p, b, Offer(p, b, worst, nb), current, nb);
    }
  }

  lemma OfferTracked(p: Probe, b: Beam, o: Beam, current: Ranked, nb: nat)
    requires Bounded(p, b) && HoldsScored(b.results, p.dist, b.visited) && nb !in b.visited
    requires ResultsTracked(p, b, current) && RoomMeansAll(p, b)
    requires var x := Ranked(p.dist(nb), nb);
             && o.visited == b.visited + {nb}
             && o.results <= b.results + {x}
             && b.candidates <= o.candidates
             && (x in o.results ==> x in o.candidates || x in b.results)
             && (|o.results| < p.ef ==> |b.results| < p.ef && o.results == b.results + {x})
    ensures HoldsScored(o.results, p.dist, o.visited)
    ensures ResultsTracked(p, o, current) && RoomMeansAll(p, o)
  {
  }

  lemma {:induction false} ExpandExpanding(p: Probe, b: Beam, worst: real, current: Ranked, nbs: seq<nat>)
    requires Expanding(p, b, worst, current)
    requires forall i | 0 <= i < |nbs| && nbs[i] < p.n :: nbs[i] in Reachable(p)
    ensures Expanding(p, Expand(p, b, worst, nbs), worst, current)
    ensures forall i | 0 <= i < |nbs| && nbs[i] < p.n :: nbs[i] in Expand(p, b, worst, nbs).visited
    ensures b.visited <= Expand(p, b, worst, nbs).visited
    decreases |nbs|
  {
    hide Offer, Reachable, KeepsNearest, ResultsTracked, RoomMeansAll, Bounded, HoldsScored;
    if nbs != [] {
      OfferExpanding(p, b, worst, current, nbs[0]);
      ExpandExpanding(p, Offer(p, b, worst, nbs[0]), worst, current, nbs[1..]);
      assert forall i | 1 <= i < |nbs| :: nbs[i] == nbs[1..][i - 1];
    }
  }

  lemma StepInvariant(p: Probe, b: Beam)
    requires Invariant(p, b) && b.candidates != {}
    ensures Invariant(p, ExpandNearest(p, b))
  {
    hide Greatest, Least, Reachable, Expand, Offer;
    var c := Least(b.candidates);
    var worst := Greatest(b.results).key;
    var popped := b.(candidates := b.candidates - {c});
    PoppedExpanding(p, b, worst, c);
    var nbs := p.adjacency[c.id];
    forall i | 0 <= i < |nbs| && nbs[i] < p.n ensures nbs[i] in Reachable(p) {
      EdgeReachable(p, c.id, nbs[i]);
    }
    ExpandExpanding(p, popped, worst, c, nbs);
    hide Expanding, Invariant;
    ExpansionDone(p, ExpandNearest(p, b), worst, c);
  }

  /** Taking the nearest candidate off the heap starts an expansion. */
  lemma PoppedExpanding(p: Probe, b: Beam, worst: real, c: Ranked)
    requires Invariant(p, b) && c in b.candidates && worst == Greatest(b.results).key
    ensures Expanding(p, b.(candidates := b.candidates - {c}), worst, c)
  {
    hide Greatest, Reachable;
    var popped := b.(candidates := b.candidates - {c});
    var r :| r in b.results && r.key <= worst && forall v | v in b.visited :: r.key <= p.dist(v);
    assert KeepsNearest(p, popped, worst);
  }

  lemma ExpansionDone(p: Probe, b: Beam, worst: real, c: Ranked)
    requires Expanding(p, b, worst, c) && NeighboursSeen(p, c.id, b.visited)
    ensures Invariant(p, b)
  {
    hide Greatest, Reachable;
    var r :| r in b.results && r.key <= worst && forall v | v in b.visited :: r.key <= p.dist(v);
    assert r.key <= Greatest(b.results).key;
  }

  /** The final beam: nothing left in the heap can improve it, so every result has been expanded. */
  ghost predicate Final(p: Probe, b: Beam)
    requires p.Valid()
  {
    forall r | r in b.results :: NeighboursSeen(p, r.id, b.visited)
  }

  lemma {:induction false} SearchInvariant(p: Probe, b: Beam)
    requires Invariant(p, b)
    ensures Invariant(p, Search(p, b)) && Final(p, Search(p, b))
    decreases Fuel(p, b)
  {
    if b.candidates == {} {
    } else if Converged(p, b) {
      forall r | r in b.results ensures r !in b.candidates {
        assert r.key <= Greatest(b.results).key;
      }
    } else {
      ExpandShrinksFuel(p, b);
      StepInvariant(p, b);
      SearchInvariant(p, ExpandNearest(p, b));
    }
  }

  lemma StartInvariant(p: Probe)
    requires p.Valid()
    ensures Invariant(p, Start(p))
  {
    StartBounded(p);
    EntryReachable(p);
    var first := Ranked(p.dist(p.entry), p.entry);
    assert first in Start(p).results && first.key <= Greatest(Start(p).results).key;
    assert KeepsNearest(p, Start(p), Greatest(Start(p).results).key);
  }

  /** The beam when the search stops. */
  ghost function Outcome(p: Probe): (b: Beam)
    requires p.Valid()
    ensures Invariant(p, b) && Final(p, b)
  {
    StartInvariant(p);
    SearchInvariant(p, Start(p));
    Search(p, Start(p))
  }

  // ---- theorems ----

  lemma ScoredCardinality(dist: nat -> real, ids: set<nat>)
    ensures |Scored(dist, ids)| == |ids|
  {
    if ids == {} {
      assert Scored(dist, ids) == {};
    } else {
      var i :| i in ids;
      ScoredCardinality(dist, ids - {i});
      assert Scored(dist, ids) == Scored(dist, ids - {i}) + {Ranked(dist(i), i)};
    }
  }

  /** A beam with room left has scored, and holds, exactly the reachable nodes. */
  lemma RoomMeansReachable(p: Probe)
    requires p.Valid() && |Outcome(p).results| < p.ef
    ensures Outcome(p).results == Scored(p.dist, Reachable(p))
  {
    var b := Outcome(p);
    forall u | u in b.visited ensures NeighboursSeen(p, u, b.visited) {
      assert Ranked(p.dist(u), u) in b.results;
    }
    ClosedHoldsReachable(p, b.visited);
  }

  lemma OutcomeSize(p: Probe)
    requires p.Valid()
    ensures |Outcome(p).results| == Min(p.ef, |Reachable(p)|)
    ensures Outcome(p).results <= Scored(p.dist, Reachable(p))
  {
    var b := Outcome(p);
    ScoredCardinality(p.dist, Reachable(p));
    if |b.results| < p.ef {
      RoomMeansReachable(p);
    } else {
      SubsetCardinality(b.results, Scored(p.dist, Reachable(p)));
    }
  }

  /**
   For every beam width: exactly min(k, reachable) hits, all reachable, all with their own distance,
   in strictly ascending (distance, id) order and hence distinct.
   */
  lemma AnswerShape(adjacency: seq<seq<nat>>, n: nat, entry: nat, k: nat, ef: nat, dist: nat -> real)
    requires entry < n <= |adjacency| && k > 0
    ensures var p := Clamped(adjacency, n, entry, k, ef, dist);
            var out := Answer(adjacency, n, entry, k, ef, dist);
            && |out| == Min(k, |Reachable(p)|)
            && Ascending(out)
            && forall x | x in out :: x.id in Reachable(p) && x.key == dist(x.id)
  {
    var p := Clamped(adjacency, n, entry, k, ef, dist);
    var out := Answer(adjacency, n, entry, k, ef, dist);
    OutcomeSize(p);
    SubsetCardinality(Reachable(p), Ids(n));
    forall x | x in out ensures x in Outcome(p).results {
      BestByRank(Outcome(p).results, Min(k, n), x);
    }
  }

  /** The first hit is at least as near as every node the search ever scored. */
  lemma FirstHitIsNearestScored(adjacency: seq<seq<nat>>, n: nat, entry: nat, k: nat, ef: nat, dist: nat -> real)
    requires entry < n <= |adjacency| && k > 0
    ensures var p := Clamped(adjacency, n, entry, k, ef, dist);
            var out := Answer(adjacency, n, entry, k, ef, dist);
            out != [] && forall v | v in Outcome(p).visited :: out[0].key <= dist(v)
  {
    var p := Clamped(adjacency, n, entry, k, ef, dist);
    var b := Outcome(p);
    var out := Answer(adjacency, n, entry, k, ef, dist);
    var r :| r in b.results && forall v | v in b.visited :: r.key <= p.dist(v);
    assert Ordered(b.results)[0] == Least(b.results);
    assert out[0] == Least(b.results);
    assert r == out[0] || Before(out[0], r);
  }

  /** When the search stops every beam member has been expanded: all its in-range neighbours were scored. */
  lemma BeamIsLocallyClosed(p: Probe, r: Ranked, v: nat)
    requires p.Valid() && r in Outcome(p).results && Edge(p, r.id, v)
    ensures v in Outcome(p).visited
  {
  }

  /** The beam is as wide as asked, but no narrower than the answer and no wider than the graph. */
  lemma ClampedWidth(adjacency: seq<seq<nat>>, n: nat, entry: nat, k: nat, ef: nat, dist: nat -> real)
    ensures var width := Clamped(adjacency, n, entry, k, ef, dist).ef;
            width == if ef >= n || k >= n then n else if ef >= k then ef else k
  {
  }

  /**
   A beam as wide as the graph is exact: the k nearest of everything reachable, for any adjacency with
   cycles, repeated entries and out-of-range ids.
   */
  lemma WideBeamIsExact(adjacency: seq<seq<nat>>, n: nat, entry: nat, k: nat, ef: nat, dist: nat -> real)
    requires entry < n <= |adjacency| && k > 0 && ef >= n
    ensures var p := Clamped(adjacency, n, entry, k, ef, dist);
            Answer(adjacency, n, entry, k, ef, dist) == Best(Scored(dist, Reachable(p)), k)
  {
    var p := Clamped(adjacency, n, entry, k, ef, dist);
    var all := Scored(dist, Reachable(p));
    OutcomeSize(p);
    ScoredCardinality(dist, Reachable(p));
    SubsetCardinality(Reachable(p), Ids(n));
    SubsetCardinality(Outcome(p).results, all);
    assert Outcome(p).results == all;
    assert Min(k, |all|) == Min(Min(k, n), |all|);
  }

  // ---- "the ef closest results seen so far" ----

  /** No scored node outside the beam is nearer than a node inside it. */
  ghost predicate ClosestKept(p: Probe, b: Beam) {
    forall r, v | r in b.results && v in b.visited && Ranked(p.dist(v), v) !in b.results :: r.key <= p.dist(v)
  }

  ghost predicate KeepsClosest(p: Probe)
    requires p.Valid()
  {
    ClosestKept(p, Outcome(p))
  }

  /** During the expansion of a full beam `b`: what it has let go since is no nearer than what it holds. */
  ghost predicate DropsFarther(p: Probe, b: Beam, now: Beam, worst: real) {
    && |now.results| == p.ef && HoldsScored(now.results, p.dist, now.visited) && b.visited <= now.visited
    && (forall r | r in now.results :: r.key <= worst && (r in b.results || r.id !in b.visited))
    && (forall r, v | r in now.results && v in now.visited && Ranked(p.dist(v), v) !in now.results
                      && (v !in b.visited || Ranked(p.dist(v), v) in b.results) :: r.key <= p.dist(v))
  }

  lemma OfferDropsFarther(p: Probe, b: Beam, now: Beam, worst: real, nb: nat)
    requires p.ef >= 1 && DropsFarther(p, b, now, worst)
    ensures DropsFarther(p, b, Offer(p, now, worst, nb), worst)
  {
    if nb < p.n && nb !in now.visited {
      hide Greatest, DropsFarther;
      if p.dist(nb) < worst {
        TakenDropsFarther(p, b, now, worst, nb, Offer(p, now, worst, nb));
      } else {
        TurnedAwayIsFarther(p, b, now, worst, nb, Offer(p, now, worst, nb));
      }
    }
  }

  lemma TurnedAwayIsFarther(p: Probe, b: Beam, now: Beam, worst: real, nb: nat, o: Beam)
    requires DropsFarther(p, b, now, worst) && worst <= p.dist(nb)
    requires nb < p.n && nb !in now.visited && o == Offer(p, now, worst, nb)
    ensures DropsFarther(p, b, o, worst)
  {
    hide Greatest;
    assert o.visited == now.visited + {nb} && o.results == now.results;
  }

  lemma TakenDropsFarther(p: Probe, b: Beam, now: Beam, worst: real, nb: nat, o: Beam)
    requires p.ef >= 1 && DropsFarther(p, b, now, worst) && p.dist(nb) < worst
    requires nb < p.n && nb !in now.visited && o == Offer(p, now, worst, nb)
    ensures DropsFarther(p, b, o, worst)
  {
    hide Greatest;
    var x := Ranked(p.dist(nb), nb);
    var grown := now.results + {x};
    assert x !in now.results && |grown| == p.ef + 1;
    var g := Greatest(grown);
    assert o.visited == now.visited + {nb} && o.results == grown - {g} && |o.results| == p.ef;
    forall r, v | r in o.results && v in o.visited && Ranked(p.dist(v), v) !in o.results
                  && (v !in b.visited || Ranked(p.dist(v), v) in b.results)
      ensures r.key <= p.dist(v)
    {
      assert r.key <= g.key;
      LostIsFarther(p, b, now, worst, x, g, r, v);
    }
  }

  /** The farthest of the results and `x` is given up: whatever is outside afterwards is no nearer than what is inside. */
  lemma LostIsFarther(p: Probe, b: Beam, now: Beam, worst: real, x: Ranked, g: Ranked, r: Ranked, v: nat)
    requires DropsFarther(p, b, now, worst) && x == Ranked(p.dist(x.id), x.id)
    requires g in now.results + {x} && x.key <= g.key
    requires r in now.results + {x} - {g} && r.key <= g.key
    requires v in now.visited + {x.id} && Ranked(p.dist(v), v) !in now.results + {x} - {g}
    requires v !in b.visited || Ranked(p.dist(v), v) in b.results
    ensures r.key <= p.dist(v)
  {
    var y := Ranked(p.dist(v), v);
    if y != g {
      assert y !in now.results && v in now.visited;
      if r == x {
        assert g in now.results;
        assert g.key <= p.dist(v);
      }
    }
  }

  lemma {:induction false} ExpandDropsFarther(p: Probe, b: Beam, now: Beam, worst: real, nbs: seq<nat>)
    requires p.ef >= 1 && DropsFarther(p, b, now, worst)
    ensures DropsFarther(p, b, Expand(p, now, worst, nbs), worst)
    decreases |nbs|
  {
    hide Offer, DropsFarther;
    if nbs != [] {
      OfferDropsFarther(p, b, now, worst, nbs[0]);
      ExpandDropsFarther(p, b, Offer(p, now, worst, nbs[0]), worst, nbs[1..]);
    }
  }

  /**
   What a full beam lets go in one expansion is no nearer than what it then holds: neither the nodes it scores and
   turns away, nor the results it evicts.
   */
  lemma FullBeamDropsFarther(p: Probe, b: Beam)
    requires Invariant(p, b) && |b.results| == p.ef && b.candidates != {}
    ensures var b' := ExpandNearest(p, b);
            && |b'.results| == p.ef
            && (forall r, v | r in b'.results && v in b'.visited - b.visited && Ranked(p.dist(v), v) !in b'.results ::
                  r.key <= p.dist(v))
            && (forall r, x | r in b'.results && x in b.results - b'.results :: r.key <= x.key)
            && (forall r | r in b'.results :: r.key <= Greatest(b.results).key)
  {
    hide Greatest, Least, Expand, Reachable, KeepsNearest, RoomMeansAll;
    var c, far := Least(b.candidates), Greatest(b.results);
    var popped := b.(candidates := b.candidates - {c});
    assert forall r | r in b.results :: r.key <= far.key;
    ExpandDropsFarther(p, b, popped, far.key, p.adjacency[c.id]);
    forall x | x in b.results ensures x.id in b.visited && x == Ranked(p.dist(x.id), x.id) {
    }
  }

  /** So a nearer node can only be lost in the expansion that fills the beam. */
  lemma OnlyFillingLosesTheCloser(p: Probe, b: Beam)
    requires Invariant(p, b) && b.candidates != {} && ClosestKept(p, b) && !ClosestKept(p, ExpandNearest(p, b))
    ensures |b.results| < p.ef && |ExpandNearest(p, b).results| == p.ef
  {
    hide Greatest, Least, Expand, ExpandNearest, Reachable, KeepsNearest;
    StepInvariant(p, b);
    if |b.results| == p.ef {
      FullBeamDropsFarther(p, b);
    }
  }

  /** A star: the entry at distance 0 lists ef - 1 nodes at distance 2 and then one at distance 1. */
  ghost function Star(n: nat, ef: nat): Probe
    requires 2 <= ef < n
  {
    Probe(seq(n, i => if i == 0 then seq(ef, j => j + 1) else []), n, 0, ef,
          i => if i == 0 then 0.0 else if i == ef then 1.0 else 2.0)
  }

  ghost predicate StarBeam(p: Probe, b: Beam, seen: nat, kept: nat) {
    && b.visited == Ids(seen)
    && b.results == Scored(p.dist, Ids(kept))
    && forall c | c in b.candidates :: c.id != 0
  }

  lemma ScoredIds(dist: nat -> real, j: nat)
    ensures |Scored(dist, Ids(j))| == j
    ensures Scored(dist, Ids(j + 1)) == Scored(dist, Ids(j)) + {Ranked(dist(j), j)}
  {
    ScoredCardinality(dist, Ids(j));
  }

  lemma StarOffer(p: Probe, j: nat, b: Beam)
    requires 1 <= j <= p.ef < p.n && StarBeam(p, b, j, j) && p.dist(j) > 0.0
    ensures StarBeam(p, Offer(p, b, 0.0, j), j + 1, if j < p.ef then j + 1 else j)
  {
    hide Scored, Greatest;
    ScoredIds(p.dist, j);
    ScoredIds(p.dist, j + 1);
    assert j !in Ids(j) && Ids(j) + {j} == Ids(j + 1);
  }

  /** The first ef - 1 neighbours fill the beam; the nearer last one meets the distance captured before and is dropped. */
  lemma {:induction false} StarExpansion(p: Probe, j: nat, b: Beam, nbs: seq<nat>)
    requires 1 <= j <= p.ef < p.n && StarBeam(p, b, j, j)
    requires forall i | 1 <= i <= p.ef :: p.dist(i) > 0.0
    requires |nbs| == p.ef + 1 - j && forall i | 0 <= i < |nbs| :: nbs[i] == j + i
    ensures StarBeam(p, Expand(p, b, 0.0, nbs), p.ef + 1, p.ef)
    decreases |nbs|
  {
    hide Offer, StarBeam;
    var o := Offer(p, b, 0.0, j);
    StarOffer(p, j, b);
    assert nbs[0] == j;
    if j < p.ef {
      StarExpansion(p, j + 1, o, nbs[1..]);
    } else {
      assert nbs[1..] == [];
    }
  }

  /** Expanding nodes without neighbours only empties the heap. */
  lemma {:induction false} LeavesOnly(p: Probe, b: Beam)
    requires Bounded(p, b)
    requires forall c | c in b.candidates :: p.adjacency[c.id] == []
    ensures Search(p, b).results == b.results && Search(p, b).visited == b.visited
    decreases Fuel(p, b)
  {
    if b.candidates != {} && !Converged(p, b) {
      ExpandShrinksFuel(p, b);
      LeavesOnly(p, ExpandNearest(p, b));
    }
  }

  lemma StarOutcome(n: nat, ef: nat)
    requires 2 <= ef < n
    ensures Star(n, ef).Valid() && StarBeam(Star(n, ef), ExpandNearest(Star(n, ef), Start(Star(n, ef))), ef + 1, ef)
    ensures !Converged(Star(n, ef), Start(Star(n, ef)))
  {
    var p := Star(n, ef);
    var s := Start(p);
    var first := Ranked(0.0, 0);
    assert s == Beam({0}, {first}, {first});
    assert Greatest(s.results) == first && Least(s.candidates) == first;
    var popped := s.(candidates := s.candidates - {first});
    assert Ids(1) == {0};
    assert Scored(p.dist, Ids(1)) == {first};
    StarExpansion(p, 1, popped, p.adjacency[0]);
  }

  lemma StarDropsTheNearer(n: nat, ef: nat)
    requires 2 <= ef < n
    ensures Star(n, ef).Valid() && !KeepsClosest(Star(n, ef))
  {
    var p := Star(n, ef);
    StarOutcome(n, ef);
    StartBounded(p);
    ExpandShrinksFuel(p, Start(p));
    LeavesOnly(p, ExpandNearest(p, Start(p)));
    assert StarBeam(p, Outcome(p).(candidates := {}), ef + 1, ef);
    var kept, dropped := Ranked(p.dist(1), 1), Ranked(p.dist(ef), ef);
    assert kept in Outcome(p).results && dropped !in Outcome(p).results && ef in Outcome(p).visited;
  }

  /**
   Exactly when the beam keeps "the ef closest results seen so far" on every graph of n nodes, as the search is
   documented to: when it is one wide or as wide as the graph. In between, the distance captured at the start of
   an expansion goes stale as soon as the beam fills in the middle of it.
   */
  lemma ClosestKeptExactlyWhen(n: nat, ef: nat)
    requires 1 <= ef <= n
    ensures (forall p: Probe | p.Valid() && p.n == n && p.ef == ef :: KeepsClosest(p)) <==> ef == 1 || ef == n
  {
    if ef == 1 || ef == n {
      forall p: Probe | p.Valid() && p.n == n && p.ef == ef ensures KeepsClosest(p) {
        NarrowOrWideKeepsClosest(p);
      }
    } else {
      StarDropsTheNearer(n, ef);
    }
  }

  lemma NarrowOrWideKeepsClosest(p: Probe)
    requires p.Valid() && (p.ef == 1 || p.ef == p.n)
    ensures KeepsClosest(p)
  {
    var b := Outcome(p);
    OutcomeSize(p);
    if p.ef == 1 {
      var r :| r in b.results && forall v | v in b.visited :: r.key <= p.dist(v);
      SubsetCardinality({r}, b.results);
      assert b.results == {r};
    } else {
      SubsetCardinality(Reachable(p), Ids(p.n));
      ScoredCardinality(p.dist, Reachable(p));
      SubsetCardinality(b.results, Scored(p.dist, Reachable(p)));
    }
  }

  /**
   Two searches give the same hits whatever visited scratch each uses and whatever was done with it before:
   dense epoch marks, including after a 32-bit wrap-around or a resize, and a sparse set.
   */
  method SameAnswerOnAnyScratch(adjacency: seq<seq<nat>>, n: nat, entry: nat, k: nat, ef: nat, dist: nat -> real,
                                one: BeamScratch, other: BeamScratch)
    returns (a: seq<Ranked>, b: seq<Ranked>)
    requires n <= |adjacency|
    requires one.Valid() && other.Valid()
    modifies one, other
    ensures one.Valid() && other.Valid()
    ensures a == b
  {
    a := BeamSearchWithScratch(adjacency, n, entry, k, ef, dist, one);
    b := BeamSearchWithScratch(adjacency, n, entry, k, ef, dist, other);
  }
}
