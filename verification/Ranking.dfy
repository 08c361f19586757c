/**
 The order every search in the system ranks by: ascending `key`, ties broken by ascending `id`.
 Distances use the distance itself as key; scores, where higher is better, use the negated score.

 `Best(s, k)` is the reference answer "the k best of s" that the search algorithms are measured against.
 */
module Ranking {

  datatype Ranked = Ranked(key: real, id: nat)

  /** Strictly better than. */
  predicate Before(a: Ranked, b: Ranked) {
    a.key < b.key || (a.key == b.key && a.id < b.id)
  }

  function Min(a: nat, b: nat): nat {
    if a <= b then a else b
  }

  function Max(a: nat, b: nat): nat {
    if a <= b then b else a
  }

  ghost predicate Ascending(s: seq<Ranked>) {
    forall i, j | 0 <= i < j < |s| :: Before(s[i], s[j])
  }

  function Elements<T>(s: seq<T>): set<T> {
    set x | x in s
  }

  predicate IsLeast(m: Ranked, s: set<Ranked>) {
    m in s && forall x | x in s && x != m :: Before(m, x)
  }

  predicate IsGreatest(m: Ranked, s: set<Ranked>) {
    m in s && forall x | x in s && x != m :: Before(x, m)
  }

  lemma LeastExists(s: set<Ranked>)
    requires s != {}
    ensures exists m :: IsLeast(m, s)
  {
    var m :| m in s;
    if s - {m} != {} {
      LeastExists(s - {m});
      var other :| IsLeast(other, s - {m});
      assert forall x | x in s && x != m :: x in s - {m};
      assert if Before(other, m) then IsLeast(other, s) else IsLeast(m, s);
    } else {
      assert s == {m};
      assert IsLeast(m, s);
    }
  }

  lemma GreatestExists(s: set<Ranked>)
    requires s != {}
    ensures exists m :: IsGreatest(m, s)
  {
    var m :| m in s;
    if s - {m} != {} {
      GreatestExists(s - {m});
      var other :| IsGreatest(other, s - {m});
      assert forall x | x in s && x != m :: x in s - {m};
      assert if Before(m, other) then IsGreatest(other, s) else IsGreatest(m, s);
    } else {
      assert s == {m};
      assert IsGreatest(m, s);
    }
  }

  ghost function Least(s: set<Ranked>): (m: Ranked)
    requires s != {}
    ensures IsLeast(m, s)
  {
    LeastExists(s);
    var m :| IsLeast(m, s);
    m
  }

  ghost function Greatest(s: set<Ranked>): (m: Ranked)
    requires s != {}
    ensures IsGreatest(m, s)
  {
    GreatestExists(s);
    var m :| IsGreatest(m, s);
    m
  }

  /** The ascending enumeration of a set. */
  ghost function Ordered(s: set<Ranked>): (r: seq<Ranked>)
    ensures Ascending(r)
    ensures |r| == |s|
    ensures Elements(r) == s
    decreases |s|
  {
    if s == {} then [] else
      var m := Least(s);
      var rest := Ordered(s - {m});
      Prepend(m, rest, s);
      [m] + rest
  }

  lemma Prepend(m: Ranked, rest: seq<Ranked>, s: set<Ranked>)
    requires IsLeast(m, s)
    requires Ascending(rest) && Elements(rest) == s - {m}
    ensures Ascending([m] + rest)
    ensures Elements([m] + rest) == s
  {
    forall i | 0 <= i < |rest| ensures Before(m, rest[i]) {
      assert rest[i] in Elements(rest);
    }
    forall x ensures x in Elements([m] + rest) <==> x in s {
      assert x in [m] + rest <==> x == m || x in rest;
      assert x in rest <==> x in Elements(rest);
    }
  }

  ghost function Best(s: set<Ranked>, k: nat): (r: seq<Ranked>)
    ensures |r| == Min(k, |s|)
    ensures Ascending(r)
  {
    Ordered(s)[..Min(k, |s|)]
  }

  /** How many elements of `s` are strictly better than `x`. */
  ghost function Rank(s: set<Ranked>, x: Ranked): nat {
    |set z | z in s && Before(z, x)|
  }

  lemma SubsetCardinality<T>(a: set<T>, b: set<T>)
    requires a <= b
    ensures |a| <= |b|
    ensures |a| == |b| ==> a == b
  {
    assert b == a + (b - a);
  }

  /** The rank of an element is its position in the ascending enumeration. */
  lemma RankIsPosition(s: set<Ranked>, i: nat)
    requires i < |s|
    ensures Rank(s, Ordered(s)[i]) == i
  {
    hide Ordered;
    var o := Ordered(s);
    var below := set z | z in s && Before(z, o[i]);
    forall z | z in below ensures z in Elements(o[..i]) {
      assert z in Elements(o);
      var j :| 0 <= j < |o| && o[j] == z;
      assert j < i;
      assert z == o[..i][j];
    }
    forall z | z in Elements(o[..i]) ensures z in below {
      var j :| 0 <= j < i && o[..i][j] == z;
      assert o[j] in Elements(o);
    }
    assert below == Elements(o[..i]);
    DistinctCardinality(o[..i]);
  }

  lemma DistinctCardinality<T>(s: seq<T>)
    requires forall i, j | 0 <= i < j < |s| :: s[i] != s[j]
    ensures |Elements(s)| == |s|
  {
    if s != [] {
      var n := |s| - 1;
      DistinctCardinality(s[..n]);
      assert Elements(s) == Elements(s[..n]) + {s[n]};
    }
  }

  /** `Best(s, k)` holds exactly the elements that fewer than `k` others beat. */
  lemma BestByRank(s: set<Ranked>, k: nat, x: Ranked)
    ensures x in Best(s, k) <==> x in s && Rank(s, x) < k
  {
    var o := Ordered(s);
    if x in s {
      assert x in Elements(o);
      var i :| 0 <= i < |o| && o[i] == x;
      RankIsPosition(s, i);
      if i < k {
        assert Best(s, k)[i] == x;
      }
      if x in Best(s, k) {
        var j :| 0 <= j < |Best(s, k)| && Best(s, k)[j] == x;
        assert o[j] == x;
      }
    } else {
      assert forall j | 0 <= j < |Best(s, k)| :: Best(s, k)[j] == o[j] && o[j] in Elements(o);
    }
  }

  /** An ascending sequence is determined by its elements. */
  lemma AscendingUnique(a: seq<Ranked>, b: seq<Ranked>)
    requires Ascending(a) && Ascending(b)
    requires Elements(a) == Elements(b)
    ensures a == b
  {
    assert a != [] ==> a[0] in Elements(a);
    assert b != [] ==> b[0] in Elements(b);
    if a != [] && b != [] {
      assert a[0] in Elements(b) && b[0] in Elements(a);
      assert a[0] == b[0];
      forall x ensures x in Elements(a[1..]) <==> x in Elements(b[1..]) {
        if x in a[1..] { assert x in Elements(a) && x != a[0]; assert x in Elements(b); }
        if x in b[1..] { assert x in Elements(b) && x != b[0]; assert x in Elements(a); }
      }
      AscendingUnique(a[1..], b[1..]);
    }
  }

  /** An ascending sequence with the right membership is the reference answer. */
  lemma BestUnique(s: set<Ranked>, k: nat, r: seq<Ranked>)
    requires Ascending(r)
    requires forall x :: x in r <==> x in s && Rank(s, x) < k
    ensures r == Best(s, k)
  {
    forall x ensures x in Elements(r) <==> x in Elements(Best(s, k)) {
      BestByRank(s, k, x);
    }
    AscendingUnique(r, Best(s, k));
  }

  /**
   The pruning rule behind every early stop: a part `w` of `all` already gives the k best of `all`
   when each element left out is beaten by at least k elements of `w`.
   */
  lemma BestOfPart(w: set<Ranked>, all: set<Ranked>, k: nat)
    requires w <= all
    requires forall x | x in all && x !in w :: Rank(w, x) >= k
    ensures Best(w, k) == Best(all, k)
  {
    forall x ensures x in Best(w, k) <==> x in all && Rank(all, x) < k {
      BestByRank(w, k, x);
      var inW := set z | z in w && Before(z, x);
      var inAll := set z | z in all && Before(z, x);
      SubsetCardinality(inW, inAll);
      if x in w && Rank(w, x) < k && inW != inAll {
        var z :| z in inAll && z !in inW;
        var beatZ := set y | y in w && Before(y, z);
        SubsetCardinality(beatZ, inW);
        assert false;
      }
    }
    BestUnique(all, k, Best(w, k));
  }

  /** Everything among the k best is better than everything that is not. */
  lemma BestBeatsRest(s: set<Ranked>, k: nat, y: Ranked, x: Ranked)
    requires y in Best(s, k) && x in s && x !in Best(s, k)
    ensures Before(y, x)
  {
  }

  /** Asking for at least as many as there are returns everything. */
  lemma BestOfAll(s: set<Ranked>, k: nat)
    requires |s| <= k
    ensures Elements(Best(s, k)) == s
  {
  }

  // ---- sorting a vector of (key, id) pairs, as `sort_by` does ----

  predicate AtMost(a: Ranked, b: Ranked) {
    a == b || Before(a, b)
  }

  ghost predicate SortedUp(s: seq<Ranked>) {
    forall i, j | 0 <= i < j < |s| :: AtMost(s[i], s[j])
  }

  function Insert(x: Ranked, s: seq<Ranked>): (r: seq<Ranked>)
    ensures multiset(r) == multiset(s) + multiset{x}
  {
    if s == [] then [x]
    else if AtMost(x, s[0]) then [x] + s
    else
      assert s == [s[0]] + s[1..];
      [s[0]] + Insert(x, s[1..])
  }

  function Sort(s: seq<Ranked>): (r: seq<Ranked>)
    ensures multiset(r) == multiset(s)
  {
    if s == [] then [] else
      assert s == [s[0]] + s[1..];
      Insert(s[0], Sort(s[1..]))
  }

  lemma {:induction false} InsertSorted(x: Ranked, s: seq<Ranked>)
    requires SortedUp(s)
    ensures SortedUp(Insert(x, s))
  {
    if s != [] && !AtMost(x, s[0]) {
      InsertSorted(x, s[1..]);
      var r := Insert(x, s[1..]);
      forall y | y in r ensures AtMost(s[0], y) {
        assert y in multiset(r);
        assert y == x || y in s[1..];
      }
    }
  }

  lemma {:induction false} SortSorted(s: seq<Ranked>)
    ensures SortedUp(Sort(s))
  {
    if s != [] {
      SortSorted(s[1..]);
      InsertSorted(s[0], Sort(s[1..]));
    }
  }

  lemma SameElements<T>(a: seq<T>, b: seq<T>)
    requires multiset(a) == multiset(b)
    ensures |a| == |b|
    ensures Elements(a) == Elements(b)
  {
    assert |multiset(a)| == |a| && |multiset(b)| == |b|;
    forall x ensures x in a <==> x in b {
      assert x in a <==> x in multiset(a);
      assert x in b <==> x in multiset(b);
    }
  }

  /** Sorting distinct pairs yields the ascending enumeration of their set. */
  lemma SortDistinct(s: seq<Ranked>)
    requires forall i, j | 0 <= i < j < |s| :: s[i] != s[j]
    ensures Sort(s) == Ordered(Elements(s))
  {
    SortSorted(s);
    var r := Sort(s);
    SameElements(r, s);
    DistinctCardinality(s);
    DistinctFromCardinality(r);
    assert Ascending(r);
    AscendingUnique(r, Ordered(Elements(s)));
  }

  lemma DistinctFromCardinality<T>(s: seq<T>)
    requires |Elements(s)| == |s|
    ensures forall i, j | 0 <= i < j < |s| :: s[i] != s[j]
  {
    forall i, j | 0 <= i < j < |s| ensures s[i] != s[j] {
      if s[i] == s[j] {
        var t := s[..j] + s[j+1..];
        assert Elements(t) == Elements(s) by {
          forall x | x in s ensures x in t {
            var m :| 0 <= m < |s| && s[m] == x;
            if m < j { assert t[m] == x; } else if m > j { assert t[m-1] == x; } else { assert t[i] == x; }
          }
        }
        ElementsAtMost(t);
        assert false;
      }
    }
  }

  lemma ElementsAtMost<T>(s: seq<T>)
    ensures |Elements(s)| <= |s|
  {
    if s != [] {
      var n := |s| - 1;
      ElementsAtMost(s[..n]);
      assert Elements(s) == Elements(s[..n]) + {s[n]};
    }
  }

  // ---- heaps: a binary heap is the set of its entries with a least or greatest one at the top ----

  method PopLeast(heap: set<Ranked>) returns (x: Ranked, rest: set<Ranked>)
    requires heap != {}
    ensures x == Least(heap) && rest == heap - {x}
  {
    LeastExists(heap);
    x :| x in heap && IsLeast(x, heap);
    rest := heap - {x};
  }

  method PeekGreatest(heap: set<Ranked>) returns (x: Ranked)
    requires heap != {}
    ensures x == Greatest(heap)
  {
    GreatestExists(heap);
    x :| x in heap && IsGreatest(x, heap);
  }

  /** The heap's contents, sorted. */
  method IntoSorted(heap: set<Ranked>) returns (out: seq<Ranked>)
    ensures out == Ordered(heap)
    decreases |heap|
  {
    if heap == {} {
      return [];
    }
    var x, rest := PopLeast(heap);
    out := IntoSorted(rest);
    out := [x] + out;
  }

  /** Sort and truncate. */
  method TopK(heap: set<Ranked>, k: nat) returns (out: seq<Ranked>)
    ensures out == Best(heap, k)
  {
    out := IntoSorted(heap);
    out := out[..Min(k, |out|)];
  }
}
