/** The flat oracles the coordinators must agree with: one pass over the merged corpus, retaining the k best. */
module FlatOracle {
  import opened Wrappers
  import opened Ranking
  import opened Coordinator

  /** One node of the merged corpus; a deleted node has no payload. */
  datatype FlatRow = FlatRow(node: nat, payload: Option<Payload>)

  function HitOf(node: nat, payload: Payload): Ranked {
    Ranked(-payload.score, node)
  }

  ghost predicate DistinctNodes(rows: seq<FlatRow>) {
    forall i, j | 0 <= i < j < |rows| :: rows[i].node != rows[j].node
  }

  ghost function FlatHits(rows: seq<FlatRow>): set<Ranked> {
    set row | row in rows && row.payload.Some? && row.payload.value.eligible :: HitOf(row.node, row.payload.value)
  }

  /** Push, sort, truncate. */
  function Retain(best: seq<Ranked>, candidate: Ranked, k: nat): seq<Ranked> {
    var sorted := Sort(best + [candidate]);
    sorted[..Min(k, |sorted|)]
  }

  /** Retaining one more candidate keeps the k best of everything offered so far. */
  lemma RetainKeepsBest(s: set<Ranked>, k: nat, x: Ranked)
    requires x !in s
    ensures Retain(Best(s, k), x, k) == Best(s + {x}, k)
  {
    hide Best, Rank, Retain;
    var best := Best(s, k);
    forall y | y in best ensures y in s {
      BestByRank(s, k, y);
    }
    var pushed := best + [x];
    assert forall i | 0 <= i < |best| :: best[i] in best;
    RetainIsBest(best, x, k);
    var t := Elements(pushed);
    forall z | z in s + {x} && z !in t ensures Rank(t, z) >= k {
      assert z in s && z !in best by { assert z in best ==> z in pushed; assert x in pushed; }
      NotBestIsBeaten(s, k, t, z);
    }
    assert t <= s + {x};
    BestOfPart(t, s + {x}, k);
  }

  lemma RetainIsBest(best: seq<Ranked>, x: Ranked, k: nat)
    requires forall i, j | 0 <= i < j < |best + [x]| :: (best + [x])[i] != (best + [x])[j]
    ensures Retain(best, x, k) == Best(Elements(best + [x]), k)
  {
    hide Sort, Ordered;
    SortDistinct(best + [x]);
    DistinctCardinality(best + [x]);
  }

  lemma NotBestIsBeaten(s: set<Ranked>, k: nat, t: set<Ranked>, z: Ranked)
    requires z in s && z !in Best(s, k) && Elements(Best(s, k)) <= t
    ensures Rank(t, z) >= k
  {
    var best := Best(s, k);
    forall y | y in best ensures Before(y, z) {
      BestBeatsRest(s, k, y, z);
    }
    DistinctCardinality(best);
    if |s| <= k {
      BestOfAll(s, k);
      assert false;
    }
    SubsetCardinality(Elements(best), set y | y in t && Before(y, z));
  }

  /** One pass over the corpus with a bounded, sorted vector. */
  method ExactFinal(rows: seq<FlatRow>, k: nat) returns (best: seq<Ranked>)
    requires DistinctNodes(rows)
    ensures best == Best(FlatHits(rows), k)
  {
    best := [];
    assert FlatHits(rows[..0]) == {};
    for i := 0 to |rows|
      invariant best == Best(FlatHits(rows[..i]), k)
    {
      var row := rows[i];
      assert rows[..i + 1] == rows[..i] + [row];
      FlatHitsMore(rows, i);
      if row.payload.Some? && row.payload.value.eligible {
        RetainKeepsBest(FlatHits(rows[..i]), k, HitOf(row.node, row.payload.value));
        best := Retain(best, HitOf(row.node, row.payload.value), k);
      }
    }
    assert rows[..|rows|] == rows;
  }

  lemma FlatHitsMore(rows: seq<FlatRow>, i: nat)
    requires i < |rows| && DistinctNodes(rows)
    ensures var row := rows[i];
            if row.payload.Some? && row.payload.value.eligible
            then HitOf(row.node, row.payload.value) !in FlatHits(rows[..i])
                 && FlatHits(rows[..i + 1]) == FlatHits(rows[..i]) + {HitOf(row.node, row.payload.value)}
            else FlatHits(rows[..i + 1]) == FlatHits(rows[..i])
  {
  }

  /** The row shows the payload segment i currently holds for its node. */
  ghost predicate Shows(segs: seq<Segment>, i: nat, row: FlatRow) {
    i < |segs| && Current(segs, i, row.node) && row.payload == Some(segs[i].payloads[row.node])
  }

  /** The rows are the merged view of the segments: for each node the payload of its highest-LSN version. */
  ghost predicate IsMergedView(segs: seq<Segment>, rows: seq<FlatRow>) {
    && DistinctNodes(rows)
    && (forall row | row in rows && row.payload.Some? :: exists i :: Shows(segs, i, row))
    && (forall i: nat, node | i < |segs| && Current(segs, i, node) ::
          FlatRow(node, Some(segs[i].payloads[node])) in rows)
  }

  lemma FlatHitIsMerged(segs: seq<Segment>, rows: seq<FlatRow>, row: FlatRow)
    requires IsMergedView(segs, rows) && row in rows && row.payload.Some? && row.payload.value.eligible
    ensures HitOf(row.node, row.payload.value) in Merged(segs)
  {
    var i :| Shows(segs, i, row);
    assert HitOf(row.node, row.payload.value) in CurrentHits(segs, i);
  }

  lemma MergedIsFlatHit(segs: seq<Segment>, rows: seq<FlatRow>, i: nat, x: Ranked)
    requires IsMergedView(segs, rows) && i < |segs| && x in CurrentHits(segs, i)
    ensures x in FlatHits(rows)
  {
  }

  lemma MergedViewHits(segs: seq<Segment>, rows: seq<FlatRow>)
    requires IsMergedView(segs, rows)
    ensures FlatHits(rows) == Merged(segs)
  {
    forall x | x in FlatHits(rows) ensures x in Merged(segs) {
      var row :| row in rows && row.payload.Some? && row.payload.value.eligible && x == HitOf(row.node, row.payload.value);
      FlatHitIsMerged(segs, rows, row);
    }
    forall x | x in Merged(segs) ensures x in FlatHits(rows) {
      var i: nat :| i < |segs| && x in CurrentHits(segs, i);
      MergedIsFlatHit(segs, rows, i, x);
    }
  }

  /** Full-text: the coordinated answer is the flat oracle's answer. */
  method CoordinatedTextQuery(segs: seq<Segment>, rows: seq<FlatRow>, k: nat)
    returns (coordinated: Result<seq<Ranked>, Error>, oracle: seq<Ranked>)
    requires Consistent(segs) && (forall i | 0 <= i < |segs| :: segs[i].Delta?)
    requires IsMergedView(segs, rows)
    ensures coordinated == Ok(oracle)
    ensures oracle == Best(Merged(segs), k)
  {
    hide Merged, FlatHits;
    MergedViewHits(segs, rows);
    coordinated := CoordinatedQuery(segs, k, Text, ExactShadow);
    oracle := ExactFinal(rows, k);
  }

  /** Vectors in exact-shadow mode, with an unversioned base: the coordinated answer is the flat oracle's answer. */
  method CoordinatedVectorQuery(segs: seq<Segment>, rows: seq<FlatRow>, k: nat)
    returns (coordinated: Result<seq<Ranked>, Error>, oracle: seq<Ranked>)
    requires Consistent(segs) && IsMergedView(segs, rows)
    ensures coordinated == Ok(oracle)
    ensures oracle == Best(Merged(segs), k)
  {
    hide Merged, FlatHits;
    MergedViewHits(segs, rows);
    coordinated := CoordinatedQuery(segs, k, Vector, ExactShadow);
    oracle := ExactFinal(rows, k);
  }
}
