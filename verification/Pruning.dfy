/**
 The α-robust prune of DiskANN, as the in-place compaction over a candidate vector.

 A candidate is a `Ranked`: its key is the distance to the anchor.
 */
module Pruning {
  import opened Ranking

  type PairDistance = (nat, nat) -> real

  /** `kept` occludes `x`: it reaches that region more directly, and is not an exact duplicate of it. */
  predicate Occludes(pair: PairDistance, alpha: real, kept: nat, x: Ranked) {
    pair(kept, x.id) > 0.0 && alpha * pair(kept, x.id) <= x.key
  }

  function WithoutAnchor(anchor: nat, s: seq<Ranked>): seq<Ranked> {
    if s == [] then []
    else (if s[0].id != anchor then [s[0]] else []) + WithoutAnchor(anchor, s[1..])
  }

  /** `dedup_by` on ids: drops an element equal in id to the one kept just before it. */
  function DedupAdjacent(s: seq<Ranked>): seq<Ranked>
    decreases |s|
  {
    if |s| <= 1 then s
    else if s[0].id == s[1].id then DedupAdjacent([s[0]] + s[2..])
    else [s[0]] + DedupAdjacent(s[1..])
  }

  function Prepared(anchor: nat, candidates: seq<Ranked>): seq<Ranked> {
    DedupAdjacent(Sort(WithoutAnchor(anchor, candidates)))
  }

  /** The candidates `kept` drops. */
  function Shadow(pair: PairDistance, alpha: real, kept: nat): Ranked -> bool {
    x => Occludes(pair, alpha, kept, x)
  }

  function Survivors(shadow: Ranked -> bool, s: seq<Ranked>): (t: seq<Ranked>)
    ensures |t| <= |s|
  {
    if s == [] then []
    else (if shadow(s[0]) then [] else [s[0]]) + Survivors(shadow, s[1..])
  }

  /** RobustPrune as recursion: keep the nearest, drop what it occludes, go on. */
  function Greedy(pair: PairDistance, alpha: real, s: seq<Ranked>, r: nat): seq<Ranked>
    decreases |s|
  {
    if s == [] || r == 0 then []
    else [s[0]] + Greedy(pair, alpha, Survivors(Shadow(pair, alpha, s[0].id), s[1..]), r - 1)
  }

  function IdsOf(s: seq<Ranked>): (ids: seq<nat>)
    ensures |ids| == |s| && forall i | 0 <= i < |s| :: ids[i] == s[i].id
  {
    seq(|s|, i requires 0 <= i < |s| => s[i].id)
  }

  function Pruned(pair: PairDistance, anchor: nat, candidates: seq<Ranked>, alpha: real, r: nat): seq<nat> {
    IdsOf(Greedy(pair, alpha, Prepared(anchor, candidates), r))
  }

  // ---- the in-place form ----

  /** Compact `a[i..len]` to the survivors of a shadow, in place, with a write index trailing the read index. */
  method Compact(shadow: Ranked -> bool, a: array<Ranked>, i: nat, len: nat) returns (write: nat)
    requires i <= len <= a.Length
    modifies a
    ensures i <= write <= len
    ensures a[i..write] == Survivors(shadow, old(a[i..len]))
  {
    hide Survivors;
    write := i;
    ghost var was := a[i..len];
    assert was[0..] == was;
    ghost var done: seq<Ranked> := [];
    for j := i to len
      invariant i <= write <= j
      invariant forall m | j <= m < len :: a[m] == was[m - i]
      invariant |done| == write - i && forall m | i <= m < write :: a[m] == done[m - i]
      invariant done + Survivors(shadow, was[j - i..]) == Survivors(shadow, was)
    {
      var x := a[j];
      SurvivorsStep(shadow, was[j - i..]);
      assert was[j - i..][1..] == was[j + 1 - i..];
      if !shadow(x) {
        Shift(done, x, Survivors(shadow, was[j + 1 - i..]));
        a[write] := x;
        write := write + 1;
        done := done + [x];
      }
    }
    assert was[len - i..] == [];
    NoSurvivors(shadow);
    assert a[i..write] == done;
  }

  lemma NoSurvivors(shadow: Ranked -> bool)
    ensures Survivors(shadow, []) == []
  {
  }

  lemma SurvivorsStep(shadow: Ranked -> bool, s: seq<Ranked>)
    requires s != []
    ensures Survivors(shadow, s) == if shadow(s[0]) then Survivors(shadow, s[1..]) else [s[0]] + Survivors(shadow, s[1..])
  {
  }

  /** The pick-and-compact loop. */
  method PickInPlace(pair: PairDistance, alpha: real, a: array<Ranked>, r: nat) returns (out: seq<Ranked>)
    modifies a
    ensures out == Greedy(pair, alpha, old(a[..]), r)
  {
    hide Greedy, Survivors, Shadow;
    ghost var goal := Greedy(pair, alpha, a[..], r);
    ghost var rest := a[..];
    out := [];
    var len, i := a.Length, 0;
    while i < len && |out| != r
      invariant 0 <= i <= len <= a.Length
      invariant |out| == i <= r
      invariant rest == a[i..len]
      invariant out + Greedy(pair, alpha, rest, r - i) == goal
      decreases len - i
    {
      var star := a[i];
      assert rest[0] == star && rest[1..] == a[i + 1..len];
      GreedyStep(pair, alpha, rest, r - i);
      rest := Survivors(Shadow(pair, alpha, star.id), rest[1..]);
      len := Compact(Shadow(pair, alpha, star.id), a, i + 1, len);
      Shift(out, star, Greedy(pair, alpha, rest, r - i - 1));
      out := out + [star];
      i := i + 1;
    }
    GreedyNothing(pair, alpha, rest, r - i);
  }

  lemma GreedyNothing(pair: PairDistance, alpha: real, s: seq<Ranked>, r: nat)
    requires s == [] || r == 0
    ensures Greedy(pair, alpha, s, r) == []
  {
  }

  method RobustPrune(pair: PairDistance, anchor: nat, candidates: seq<Ranked>, alpha: real, r: nat)
    returns (out: seq<nat>)
    ensures out == Pruned(pair, anchor, candidates, alpha, r)
  {
    hide Greedy, Prepared;
    if candidates == [] || r == 0 {
      PreparedNothing(anchor);
      GreedyNothing(pair, alpha, Prepared(anchor, candidates), r);
      return [];
    }
    var prepared := Prepared(anchor, candidates);
    var a := new Ranked[|prepared|](i requires 0 <= i < |prepared| => prepared[i]);
    assert a[..] == prepared;
    var picks := PickInPlace(pair, alpha, a, r);
    out := IdsOf(picks);
  }

  lemma PreparedNothing(anchor: nat)
    ensures Prepared(anchor, []) == []
  {
  }

  lemma Shift<T>(a: seq<T>, x: T, b: seq<T>)
    ensures a + ([x] + b) == (a + [x]) + b
  {
  }

  lemma GreedyStep(pair: PairDistance, alpha: real, s: seq<Ranked>, r: nat)
    requires s != [] && r > 0
    ensures Greedy(pair, alpha, s, r)
            == [s[0]] + Greedy(pair, alpha, Survivors(Shadow(pair, alpha, s[0].id), s[1..]), r - 1)
  {
  }

  // ---- what the prune selects ----

  /**
   RobustPrune without an algorithm: the picks are candidates in order of distance, none occluded by a nearer pick,
   and every candidate left out is occluded by a nearer pick, unless the picks are already full and all nearer.
   */
  ghost predicate IsRobustPrune(pair: PairDistance, alpha: real, s: set<Ranked>, r: nat, o: seq<Ranked>) {
    && Ascending(o)
    && |o| <= r
    && Elements(o) <= s
    && (forall i, j | 0 <= i < j < |o| :: !Occludes(pair, alpha, o[i].id, o[j]))
    && (forall x | x in s && x !in o :: LeftOut(pair, alpha, r, o, x))
  }

  ghost predicate LeftOut(pair: PairDistance, alpha: real, r: nat, o: seq<Ranked>, x: Ranked) {
    || (exists i :: 0 <= i < |o| && Before(o[i], x) && Occludes(pair, alpha, o[i].id, x))
    || (|o| == r && forall i | 0 <= i < |o| :: Before(o[i], x))
  }

  lemma {:induction false} SurvivorsFilter(shadow: Ranked -> bool, s: seq<Ranked>)
    requires Ascending(s)
    ensures Ascending(Survivors(shadow, s))
    ensures forall x :: x in Survivors(shadow, s) <==> x in s && !shadow(x)
  {
    if s != [] {
      SurvivorsFilter(shadow, s[1..]);
      var t := Survivors(shadow, s[1..]);
      assert forall i | 0 <= i < |t| :: t[i] in s[1..];
      assert forall x :: x in s <==> x == s[0] || x in s[1..];
    }
  }

  lemma {:induction false} GreedyIsRobustPrune(pair: PairDistance, alpha: real, s: seq<Ranked>, r: nat)
    requires Ascending(s)
    ensures IsRobustPrune(pair, alpha, Elements(s), r, Greedy(pair, alpha, s, r))
    decreases |s|
  {
    if s != [] && r > 0 {
      var shadow := Shadow(pair, alpha, s[0].id);
      var t := Survivors(shadow, s[1..]);
      var rest := Greedy(pair, alpha, t, r - 1);
      SurvivorsFilter(shadow, s[1..]);
      GreedyIsRobustPrune(pair, alpha, t, r - 1);
      PickNearest(pair, alpha, s, t, r, rest);
    }
  }

  lemma PickNearest(pair: PairDistance, alpha: real, s: seq<Ranked>, t: seq<Ranked>, r: nat, rest: seq<Ranked>)
    requires s != [] && r > 0 && Ascending(s)
    requires forall x :: x in t <==> x in s[1..] && !Occludes(pair, alpha, s[0].id, x)
    requires IsRobustPrune(pair, alpha, Elements(t), r - 1, rest)
    ensures IsRobustPrune(pair, alpha, Elements(s), r, [s[0]] + rest)
  {
    var o := [s[0]] + rest;
    forall i | 0 <= i < |rest| ensures rest[i] in s[1..] && Before(s[0], rest[i]) && !Occludes(pair, alpha, s[0].id, rest[i]) {
      assert rest[i] in Elements(rest);
      assert rest[i] in t;
    }
    assert Elements(o) <= Elements(s);
    forall x | x in Elements(s) && x !in o ensures LeftOut(pair, alpha, r, o, x) {
      assert x != s[0] by { assert s[0] == o[0]; }
      assert x in s[1..];
      if Occludes(pair, alpha, s[0].id, x) {
        assert Before(o[0], x) && Occludes(pair, alpha, o[0].id, x);
      } else {
        assert x in Elements(t);
        assert x !in rest;
        assert LeftOut(pair, alpha, r - 1, rest, x);
        if i :| 0 <= i < |rest| && Before(rest[i], x) && Occludes(pair, alpha, rest[i].id, x) {
          assert o[i + 1] == rest[i];
        }
      }
    }
  }

  /** The conditions determine the picks, so the greedy compaction is the only answer. */
  lemma {:induction false} RobustPruneUnique(pair: PairDistance, alpha: real, s: seq<Ranked>, r: nat, o: seq<Ranked>)
    requires Ascending(s)
    requires IsRobustPrune(pair, alpha, Elements(s), r, o)
    ensures o == Greedy(pair, alpha, s, r)
    decreases |s|
  {
    assert |o| > 0 ==> o[0] in Elements(o);
    if s != [] && r > 0 {
      NearestIsPicked(pair, alpha, s, r, o);
      var shadow := Shadow(pair, alpha, s[0].id);
      var t := Survivors(shadow, s[1..]);
      SurvivorsFilter(shadow, s[1..]);
      RestIsRobustPrune(pair, alpha, s, t, r, o);
      RobustPruneUnique(pair, alpha, t, r - 1, o[1..]);
      assert o == [o[0]] + o[1..];
    }
  }

  lemma NearestIsPicked(pair: PairDistance, alpha: real, s: seq<Ranked>, r: nat, o: seq<Ranked>)
    requires s != [] && r > 0 && Ascending(s)
    requires IsRobustPrune(pair, alpha, Elements(s), r, o)
    ensures o != [] && o[0] == s[0]
  {
    assert s[0] in Elements(s);
    assert forall i | 0 <= i < |o| :: o[i] in Elements(o);
    assert forall i | 0 <= i < |o| :: o[i] == s[0] || Before(s[0], o[i]);
    assert s[0] !in o ==> LeftOut(pair, alpha, r, o, s[0]);
    var i :| 0 <= i < |o| && o[i] == s[0];
    assert i > 0 ==> Before(o[0], o[i]);
  }

  lemma RestIsRobustPrune(pair: PairDistance, alpha: real, s: seq<Ranked>, t: seq<Ranked>, r: nat, o: seq<Ranked>)
    requires s != [] && r > 0 && Ascending(s)
    requires forall x :: x in t <==> x in s[1..] && !Occludes(pair, alpha, s[0].id, x)
    requires IsRobustPrune(pair, alpha, Elements(s), r, o) && o != [] && o[0] == s[0]
    ensures IsRobustPrune(pair, alpha, Elements(t), r - 1, o[1..])
  {
    var rest := o[1..];
    forall x | x in Elements(rest) ensures x in Elements(t) {
      var i :| 0 <= i < |rest| && rest[i] == x;
      assert x == o[i + 1] && x in Elements(o);
      assert Before(o[0], o[i + 1]) && !Occludes(pair, alpha, o[0].id, o[i + 1]);
      assert x in s && x != s[0];
    }
    forall x | x in Elements(t) && x !in rest ensures LeftOut(pair, alpha, r - 1, rest, x) {
      assert x in s[1..] && Before(s[0], x);
      assert x !in o by { assert forall y :: y in o <==> y == o[0] || y in rest; }
      assert LeftOut(pair, alpha, r, o, x);
      if i :| 0 <= i < |o| && Before(o[i], x) && Occludes(pair, alpha, o[i].id, x) {
        assert i > 0;
        assert rest[i - 1] == o[i];
      } else {
        assert forall i | 0 <= i < |rest| :: rest[i] == o[i + 1];
      }
    }
  }

  // ---- preparation: drop the anchor, sort, collapse duplicate ids ----

  /** Every candidate carries the distance of its id. */
  ghost predicate Measured(s: seq<Ranked>, dist: nat -> real) {
    forall i | 0 <= i < |s| :: s[i].key == dist(s[i].id)
  }

  lemma {:induction false} WithoutAnchorFilter(anchor: nat, s: seq<Ranked>)
    ensures forall x :: x in WithoutAnchor(anchor, s) <==> x in s && x.id != anchor
  {
    if s != [] {
      WithoutAnchorFilter(anchor, s[1..]);
      assert forall x :: x in s <==> x == s[0] || x in s[1..];
    }
  }

  lemma {:induction false} DedupCollapses(s: seq<Ranked>, dist: nat -> real)
    requires SortedUp(s) && Measured(s, dist)
    ensures Ascending(DedupAdjacent(s))
    ensures forall x :: x in DedupAdjacent(s) <==> x in s
    decreases |s|
  {
    if |s| > 1 {
      assert forall x :: x in s <==> x == s[0] || x in s[1..];
      if s[0].id == s[1].id {
        assert [s[0]] + s[2..] == s[1..];
        assert s[0] == s[1] && s[1] in s[1..];
        DedupCollapses(s[1..], dist);
      } else {
        DedupCollapses(s[1..], dist);
        var d := DedupAdjacent(s[1..]);
        forall i | 0 <= i < |d| ensures Before(s[0], d[i]) {
          assert d[i] in s[1..];
          var m :| 1 <= m < |s| && s[m] == d[i];
          assert AtMost(s[0], s[1]) && (m == 1 || AtMost(s[1], s[m]));
        }
      }
    }
  }

  lemma PreparedCandidates(anchor: nat, candidates: seq<Ranked>, dist: nat -> real)
    requires Measured(candidates, dist)
    ensures Ascending(Prepared(anchor, candidates))
    ensures forall x :: x in Prepared(anchor, candidates) <==> x in candidates && x.id != anchor
  {
    var kept := WithoutAnchor(anchor, candidates);
    WithoutAnchorFilter(anchor, candidates);
    SortSorted(kept);
    SameElements(Sort(kept), kept);
    forall x ensures x in Sort(kept) <==> x in kept {
      assert x in Elements(Sort(kept)) <==> x in Elements(kept);
    }
    forall i | 0 <= i < |Sort(kept)| ensures Sort(kept)[i].key == dist(Sort(kept)[i].id) {
      assert Sort(kept)[i] in candidates;
    }
    DedupCollapses(Sort(kept), dist);
  }

  /**
   The list `robust_prune` returns, over any measured candidates: at most r ids, distinct, none the anchor, all of them
   candidates, nearest first, none occluded by an earlier one; and a candidate that is missing from a list with room
   is occluded by a kept one at nonzero distance.
   */
  lemma PruneContract(pair: PairDistance, anchor: nat, candidates: seq<Ranked>, alpha: real, r: nat, dist: nat -> real)
    requires Measured(candidates, dist)
    ensures var out := Pruned(pair, anchor, candidates, alpha, r);
            && |out| <= r
            && (forall i, j | 0 <= i < j < |out| ::
                  Before(Ranked(dist(out[i]), out[i]), Ranked(dist(out[j]), out[j]))
                  && !Occludes(pair, alpha, out[i], Ranked(dist(out[j]), out[j])))
            && (forall i | 0 <= i < |out| :: out[i] != anchor && Ranked(dist(out[i]), out[i]) in candidates)
            && (|out| < r ==> forall x | x in candidates && x.id != anchor && x.id !in out ::
                  exists i :: 0 <= i < |out| && Occludes(pair, alpha, out[i], x))
  {
    hide Greedy, Prepared, Before, Occludes;
    var s := Prepared(anchor, candidates);
    var picks := Greedy(pair, alpha, s, r);
    var out := Pruned(pair, anchor, candidates, alpha, r);
    PreparedCandidates(anchor, candidates, dist);
    GreedyIsRobustPrune(pair, alpha, s, r);
    forall i | 0 <= i < |out|
      ensures picks[i] == Ranked(dist(out[i]), out[i]) && picks[i] in candidates && picks[i].id != anchor
    {
      assert picks[i] in Elements(picks) && picks[i] in s;
      var m :| 0 <= m < |candidates| && candidates[m] == picks[i];
    }
    if |out| < r {
      forall x | x in candidates && x.id != anchor && x.id !in out
        ensures exists i :: 0 <= i < |out| && Occludes(pair, alpha, out[i], x)
      {
        assert x in Elements(s);
        assert forall i | 0 <= i < |picks| :: picks[i].id == out[i] != x.id;
        assert LeftOut(pair, alpha, r, picks, x);
        var i :| 0 <= i < |picks| && Occludes(pair, alpha, picks[i].id, x);
        assert Occludes(pair, alpha, out[i], x);
      }
    }
  }

  /** Of two picks the nearer one does not occlude the other: it is its twin, or too far from it. */
  lemma PicksAreApart(pair: PairDistance, anchor: nat, candidates: seq<Ranked>, alpha: real, r: nat, dist: nat -> real,
                      i: nat, j: nat)
    requires Measured(candidates, dist) && i < j < |Pruned(pair, anchor, candidates, alpha, r)|
    ensures var out := Pruned(pair, anchor, candidates, alpha, r);
            pair(out[i], out[j]) <= 0.0 || dist(out[j]) < alpha * pair(out[i], out[j])
  {
    hide Pruned;
    PruneContract(pair, anchor, candidates, alpha, r, dist);
    var out := Pruned(pair, anchor, candidates, alpha, r);
    assert !Occludes(pair, alpha, out[i], Ranked(dist(out[j]), out[j]));
  }

  /** What is missing from a list with room has a pick apart from it that reaches it, stretched by alpha, as directly. */
  lemma MissingIsOccluded(pair: PairDistance, anchor: nat, candidates: seq<Ranked>, alpha: real, r: nat, dist: nat -> real,
                          x: Ranked) returns (i: nat)
    requires Measured(candidates, dist) && x in candidates && x.id != anchor
    requires x.id !in Pruned(pair, anchor, candidates, alpha, r) && |Pruned(pair, anchor, candidates, alpha, r)| < r
    ensures var out := Pruned(pair, anchor, candidates, alpha, r);
            i < |out| && 0.0 < pair(out[i], x.id) && alpha * pair(out[i], x.id) <= dist(x.id)
  {
    hide Pruned, Measured;
    i := Occluder(pair, anchor, candidates, alpha, r, dist, x);
  }

  lemma Occluder(pair: PairDistance, anchor: nat, candidates: seq<Ranked>, alpha: real, r: nat, dist: nat -> real,
                 x: Ranked) returns (i: nat)
    requires Measured(candidates, dist) && x in candidates && x.id != anchor
    requires x.id !in Pruned(pair, anchor, candidates, alpha, r) && |Pruned(pair, anchor, candidates, alpha, r)| < r
    ensures i < |Pruned(pair, anchor, candidates, alpha, r)| && x.key == dist(x.id)
    ensures Occludes(pair, alpha, Pruned(pair, anchor, candidates, alpha, r)[i], x)
  {
    hide Pruned, Occludes, Before;
    PruneContract(pair, anchor, candidates, alpha, r, dist);
    var c :| 0 <= c < |candidates| && candidates[c] == x;
    i :| 0 <= i < |Pruned(pair, anchor, candidates, alpha, r)|
         && Occludes(pair, alpha, Pruned(pair, anchor, candidates, alpha, r)[i], x);
  }

  /** An exact duplicate of the picks is never lost to its twins. */
  lemma DuplicateIsKept(pair: PairDistance, anchor: nat, candidates: seq<Ranked>, alpha: real, r: nat, dist: nat -> real,
                        x: Ranked)
    requires Measured(candidates, dist) && x in candidates && x.id != anchor
    requires var out := Pruned(pair, anchor, candidates, alpha, r);
             |out| < r && forall i | 0 <= i < |out| :: pair(out[i], x.id) == 0.0
    ensures x.id in Pruned(pair, anchor, candidates, alpha, r)
  {
    hide Pruned;
    if x.id !in Pruned(pair, anchor, candidates, alpha, r) {
      var i := MissingIsOccluded(pair, anchor, candidates, alpha, r, dist, x);
      assert false;
    }
  }
}
