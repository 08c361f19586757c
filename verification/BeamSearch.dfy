/**
 Visited marks for beam search: dense epoch marks that are reset by bumping an epoch counter, or a sparse set.
 Both are a set of node ids that `Begin` empties.
 */
module VisitScratch {

  const U32_MAX: nat := 0xFFFF_FFFF

  datatype VisitMarks =
    | Dense(epochs: seq<nat>, currentEpoch: nat)
    | Sparse(visited: set<nat>)

  class BeamScratch {
    var marks: VisitMarks

    /** No mark is ahead of the current epoch, and the epoch fits 32 bits. */
    ghost predicate Valid()
      reads this
    {
      marks.Dense? ==>
        && marks.currentEpoch <= U32_MAX
        && forall i | 0 <= i < |marks.epochs| :: marks.epochs[i] <= marks.currentEpoch
    }

    /** Every id below `n` can be marked. */
    ghost predicate Covers(n: nat)
      reads this
    {
      marks.Dense? ==> n <= |marks.epochs|
    }

    /** The set of ids visited since the last `Begin`. */
    ghost function Visited(): set<nat>
      reads this
    {
      match marks
      case Dense(epochs, currentEpoch) => set i | 0 <= i < |epochs| && epochs[i] == currentEpoch
      case Sparse(visited) => visited
    }

    constructor Dense(n: nat)
      ensures Valid() && Covers(n) && marks.Dense?
    {
      marks := VisitMarks.Dense(seq(n, _ => 0), 0);
    }

    constructor Sparse()
      ensures Valid() && marks.Sparse?
    {
      marks := VisitMarks.Sparse({});
    }

    /** Start a logically empty visited set; the wrap-around to epoch zero clears every mark. */
    method Begin(n: nat)
      requires Valid()
      modifies this
      ensures Valid() && Covers(n)
      ensures Visited() == {}
      ensures marks.Dense? == old(marks.Dense?)
    {
      match marks
      case Dense(epochs, currentEpoch) =>
        var resized := if |epochs| < n then epochs + seq(n - |epochs|, _ => 0) else epochs;
        var next := if currentEpoch == U32_MAX then 0 else currentEpoch + 1;
        if next == 0 {
          resized := seq(|resized|, _ => 0);
          next := 1;
        }
        marks := VisitMarks.Dense(resized, next);
      case Sparse(_) =>
        marks := VisitMarks.Sparse({});
    }

    /** Mark `id`, answering `true` only on its first visit. */
    method MarkIfNew(id: nat) returns (isFirst: bool)
      requires Valid() && Covers(id + 1)
      modifies this
      ensures Valid()
      ensures isFirst <==> id !in old(Visited())
      ensures Visited() == old(Visited()) + {id}
      ensures forall n | old(Covers(n)) :: Covers(n)
    {
      match marks
      case Dense(epochs, currentEpoch) =>
        isFirst := epochs[id] != currentEpoch;
        if isFirst {
          marks := VisitMarks.Dense(epochs[id := currentEpoch], currentEpoch);
        }
      case Sparse(visited) =>
        isFirst := id !in visited;
        marks := VisitMarks.Sparse(visited + {id});
    }
  }
}

/**
 Greedy best-first beam search over an adjacency list (GreedySearch of DiskANN).

 `Answer` is the search as a function of its inputs alone; `BeamSearchWithScratch` is the loop over two heaps and
 a visited scratch, proved to compute it whatever the scratch and however often it was used before.
 */
module BeamSearch {
  import opened Ranking
  import opened VisitScratch

  /** One query: the graph, the number of nodes, the entry, the clamped beam width and the distance to the query. */
  datatype Probe = Probe(adjacency: seq<seq<nat>>, n: nat, entry: nat, ef: nat, dist: nat -> real) {
    ghost predicate Valid() {
      entry < n <= |adjacency| && 1 <= ef <= n
    }
  }

  /** `candidates` is the min-heap of nodes to expand, `results` the max-heap of the best seen. */
  datatype Beam = Beam(visited: set<nat>, candidates: set<Ranked>, results: set<Ranked>)

  ghost function Ids(n: nat): (ids: set<nat>)
    ensures forall i: nat :: i in ids <==> i < n
    ensures |ids| == n
  {
    if n == 0 then {} else Ids(n - 1) + {n - 1}
  }

  /** Every entry of a heap carries the distance of a marked node. */
  ghost predicate HoldsScored(heap: set<Ranked>, dist: nat -> real, ids: set<nat>) {
    forall x | x in heap :: x.id in ids && x.key == dist(x.id)
  }

  ghost function Scored(dist: nat -> real, ids: set<nat>): set<Ranked> {
    set i | i in ids :: Ranked(dist(i), i)
  }

  ghost function Start(p: Probe): Beam {
    var first := Ranked(p.dist(p.entry), p.entry);
    Beam({p.entry}, {first}, {first})
  }

  /** Offer one neighbour; `worst` is the farthest result when the expansion began, not the current one. */
  ghost function Offer(p: Probe, b: Beam, worst: real, nb: nat): Beam {
    if nb >= p.n || nb in b.visited then b else
      var x := Ranked(p.dist(nb), nb);
      var marked := b.(visited := b.visited + {nb});
      if |b.results| < p.ef || x.key < worst then
        var grown := b.results + {x};
        marked.(candidates := b.candidates + {x},
        results := if |grown| > p.ef then grown - {Greatest(grown)} else grown)
      else marked
  }

  ghost function Expand(p: Probe, b: Beam, worst: real, nbs: seq<nat>): Beam
    decreases |nbs|
  {
    if nbs == [] then b else Expand(p, Offer(p, b, worst, nbs[0]), worst, nbs[1..])
  }

  ghost predicate Bounded(p: Probe, b: Beam) {
    p.Valid() && b.visited <= Ids(p.n) && HoldsScored(b.candidates, p.dist, b.visited) && b.results != {}
  }

  ghost function Fuel(p: Probe, b: Beam): int {
    2 * (p.n - |b.visited|) + |b.candidates|
  }

  ghost predicate Converged(p: Probe, b: Beam)
    requires b.candidates != {} && b.results != {}
  {
    |b.results| == p.ef && Least(b.candidates).key > Greatest(b.results).key
  }

  ghost function ExpandNearest(p: Probe, b: Beam): Beam
    requires Bounded(p, b) && b.candidates != {}
  {
    var c := Least(b.candidates);
    Expand(p, b.(candidates := b.candidates - {c}), Greatest(b.results).key, p.adjacency[c.id])
  }

  ghost function Search(p: Probe, b: Beam): Beam
    requires Bounded(p, b)
    decreases Fuel(p, b)
  {
    if b.candidates == {} || Converged(p, b) then b else
      ExpandShrinksFuel(p, b);
      Search(p, ExpandNearest(p, b))
  }

  ghost function Answer(adjacency: seq<seq<nat>>, n: nat, entry: nat, k: nat, ef: nat, dist: nat -> real): seq<Ranked>
    requires n <= |adjacency|
  {
    if n == 0 || k == 0 || entry >= n then [] else
      var p := Clamped(adjacency, n, entry, k, ef, dist);
      StartBounded(p);
      Best(Search(p, Start(p)).results, Min(k, n))
  }

  function Clamped(adjacency: seq<seq<nat>>, n: nat, entry: nat, k: nat, ef: nat, dist: nat -> real): Probe {
    Probe(adjacency, n, entry, Min(Max(ef, Min(k, n)), n), dist)
  }

  // ---- termination ----

  lemma StartBounded(p: Probe)
    requires p.Valid()
    ensures Bounded(p, Start(p))
  {
  }

  lemma EvictionKeepsOne(grown: set<Ranked>)
    requires |grown| >= 2
    ensures grown - {Greatest(grown)} != {}
    ensures |grown - {Greatest(grown)}| == |grown| - 1
  {
  }

  lemma OfferBounded(p: Probe, b: Beam, worst: real, nb: nat)
    requires Bounded(p, b)
    ensures Bounded(p, Offer(p, b, worst, nb))
    ensures Fuel(p, Offer(p, b, worst, nb)) <= Fuel(p, b)
  {
    if nb < p.n && nb !in b.visited {
      var grown := b.results + {Ranked(p.dist(nb), nb)};
      if |grown| > p.ef {
        assert |grown| >= 2 by { SubsetCardinality({}, b.results); }
        EvictionKeepsOne(grown);
      }
      assert |b.visited + {nb}| == |b.visited| + 1;
    }
  }

  lemma {:induction false} ExpandBounded(p: Probe, b: Beam, worst: real, nbs: seq<nat>)
    requires Bounded(p, b)
    ensures Bounded(p, Expand(p, b, worst, nbs))
    ensures Fuel(p, Expand(p, b, worst, nbs)) <= Fuel(p, b)
    decreases |nbs|
  {
    if nbs != [] {
      OfferBounded(p, b, worst, nbs[0]);
      ExpandBounded(p, Offer(p, b, worst, nbs[0]), worst, nbs[1..]);
    }
  }

  lemma ExpandShrinksFuel(p: Probe, b: Beam)
    requires Bounded(p, b) && b.candidates != {}
    ensures Bounded(p, ExpandNearest(p, b))
    ensures 0 <= Fuel(p, ExpandNearest(p, b)) < Fuel(p, b)
  {
    var c := Least(b.candidates);
    ExpandBounded(p, b.(candidates := b.candidates - {c}), Greatest(b.results).key, p.adjacency[c.id]);
    SubsetCardinality(ExpandNearest(p, b).visited, Ids(p.n));
  }

  // ---- the loop ----

  method BeamSearchWithScratch(adjacency: seq<seq<nat>>, n: nat, entry: nat, k: nat, ef: nat, dist: nat -> real,
                               scratch: BeamScratch)
    returns (out: seq<Ranked>)
    requires n <= |adjacency|
    requires scratch.Valid()
    modifies scratch
    ensures scratch.Valid()
    ensures out == Answer(adjacency, n, entry, k, ef, dist)
  {
    if n == 0 || k == 0 || entry >= n {
      return [];
    }
    hide Search, Best, Greatest, Least, Expand, Fuel;
    var kk := Min(k, n);
    var width := Min(Max(ef, kk), n);
    ghost var p := Clamped(adjacency, n, entry, k, ef, dist);
    scratch.Begin(n);
    var isNew := scratch.MarkIfNew(entry);
    var first := Ranked(dist(entry), entry);
    assert Start(p) == Beam(scratch.Visited(), {first}, {first});
    StartBounded(p);
    var results := Traverse(p, adjacency, n, width, dist, scratch, {first}, {first});
    out := TopK(results, kk);
  }

  /** The expansion loop: pop the nearest candidate until the beam has converged. */
  method Traverse(ghost p: Probe, adjacency: seq<seq<nat>>, n: nat, width: nat, dist: nat -> real, scratch: BeamScratch,
                  candidates0: set<Ranked>, results0: set<Ranked>)
    returns (results: set<Ranked>)
    requires scratch.Valid() && scratch.Covers(n)
    requires p.adjacency == adjacency && p.n == n && p.ef == width && p.dist == dist
    requires Bounded(p, Beam(scratch.Visited(), candidates0, results0))
    modifies scratch
    ensures scratch.Valid()
    ensures results == Search(p, Beam(old(scratch.Visited()), candidates0, results0)).results
  {
    hide Search, Greatest, Least, Expand, Fuel, ExpandNearest, Converged;
    var candidates := candidates0;
    results := results0;
    ghost var start := Beam(scratch.Visited(), candidates, results);
    ghost var beam := start;
    while candidates != {}
      invariant scratch.Valid() && scratch.Covers(n)
      invariant beam == Beam(scratch.Visited(), candidates, results)
      invariant Bounded(p, beam) && Search(p, beam) == Search(p, start)
      decreases Fuel(p, beam)
    {
      ExpandShrinksFuel(p, beam);
      SearchStep(p, beam);
      var far := PeekGreatest(results);
      var worst := far.key;
      var c, rest := PopLeast(candidates);
      if |results| == width && c.key > worst {
        break;
      }
      candidates, results := ExpandNode(p, n, width, dist, scratch, rest, results, worst, adjacency[c.id]);
      beam := Beam(scratch.Visited(), candidates, results);
    }
    SearchStep(p, beam);
  }

  /** One step of the search, spelled out. */
  lemma SearchStep(p: Probe, b: Beam)
    requires Bounded(p, b)
    ensures b.candidates == {} ==> Search(p, b) == b
    ensures b.candidates != {} ==>
              var (c, far) := (Least(b.candidates), Greatest(b.results));
              if |b.results| == p.ef && c.key > far.key then Search(p, b) == b
              else
                && ExpandNearest(p, b) == Expand(p, Beam(b.visited, b.candidates - {c}, b.results), far.key, p.adjacency[c.id])
                && Bounded(p, ExpandNearest(p, b)) && Search(p, b) == Search(p, ExpandNearest(p, b))
  {
    hide Greatest, Least, Expand;
    if b.candidates != {} {
      ExpandShrinksFuel(p, b);
    }
  }

  /** The neighbour loop of one expansion. */
  method ExpandNode(ghost p: Probe, n: nat, width: nat, dist: nat -> real, scratch: BeamScratch,
                    candidates: set<Ranked>, results: set<Ranked>, worst: real, nbs: seq<nat>)
    returns (candidates': set<Ranked>, results': set<Ranked>)
    requires scratch.Valid() && scratch.Covers(n)
    requires p.n == n && p.ef == width && p.dist == dist
    requires Bounded(p, Beam(scratch.Visited(), candidates, results))
    modifies scratch
    ensures scratch.Valid() && scratch.Covers(n)
    ensures Beam(scratch.Visited(), candidates', results')
            == Expand(p, Beam(old(scratch.Visited()), candidates, results), worst, nbs)
  {
    candidates', results' := candidates, results;
    ghost var popped := Beam(scratch.Visited(), candidates, results);
    for i := 0 to |nbs|
      invariant scratch.Valid() && scratch.Covers(n)
      invariant Bounded(p, Beam(scratch.Visited(), candidates', results'))
      invariant Expand(p, Beam(scratch.Visited(), candidates', results'), worst, nbs[i..])
                == Expand(p, popped, worst, nbs)
    {
      assert nbs[i..][1..] == nbs[i + 1..];
      OfferBounded(p, Beam(scratch.Visited(), candidates', results'), worst, nbs[i]);
      candidates', results' := OfferNeighbour(p, n, width, dist, scratch, candidates', results', worst, nbs[i]);
    }
  }

  /** One iteration of the neighbour loop. */
  method OfferNeighbour(ghost p: Probe, n: nat, width: nat, dist: nat -> real, scratch: BeamScratch,
                        candidates: set<Ranked>, results: set<Ranked>, worst: real, nb: nat)
    returns (candidates': set<Ranked>, results': set<Ranked>)
    requires scratch.Valid() && scratch.Covers(p.n)
    requires p.n == n && p.ef == width && p.dist == dist && results != {}
    modifies scratch
    ensures scratch.Valid() && scratch.Covers(p.n)
    ensures Beam(scratch.Visited(), candidates', results')
            == Offer(p, Beam(old(scratch.Visited()), candidates, results), worst, nb)
  {
    candidates', results' := candidates, results;
    if nb < n {
      var isNew := scratch.MarkIfNew(nb);
      if isNew {
        var x := Ranked(dist(nb), nb);
        if |results| < width || x.key < worst {
          candidates', results' := candidates + {x}, results + {x};
          if |results'| > width {
            var far := PeekGreatest(results');
            results' := results' - {far};
          }
        }
      } else {
        assert scratch.Visited() == old(scratch.Visited());
      }
    }
  }
}
