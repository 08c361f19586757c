/**
 A byte-bounded cache of ranges of an immutable file.

 The cache is a hash map with a clock; what it should be is a list in order of last use.
 */
module RangeCache {
  import opened Wrappers
  import opened BigEndian

  const U64_MAX: nat := 0xFFFF_FFFF_FFFF_FFFF

  datatype RangeKey = RangeKey(start: nat, end: nat)
  datatype CacheEntry = CacheEntry(bytes: seq<byte>, touched: nat)

  // ---- the list of ranges, least recently used first ----

  datatype Slot = Slot(key: RangeKey, bytes: seq<byte>)

  function Total(l: seq<Slot>): nat {
    if l == [] then 0 else |l[0].bytes| + Total(l[1..])
  }

  function Position(l: seq<Slot>, key: RangeKey): (p: nat)
    ensures p <= |l| && (p < |l| ==> l[p].key == key) && forall j | 0 <= j < p :: l[j].key != key
  {
    if l == [] || l[0].key == key then 0 else 1 + Position(l[1..], key)
  }

  function RemoveAt(l: seq<Slot>, i: nat): seq<Slot>
    requires i < |l|
  {
    l[..i] + l[i + 1..]
  }

  function Removed(l: seq<Slot>, key: RangeKey): seq<Slot> {
    var p := Position(l, key);
    if p < |l| then RemoveAt(l, p) else l
  }

  /** A hit becomes the most recently used. */
  function Touched(l: seq<Slot>, key: RangeKey): seq<Slot> {
    var p := Position(l, key);
    if p < |l| then RemoveAt(l, p) + [l[p]] else l
  }

  /** Give up the least recently used until the rest fits. */
  function Fit(l: seq<Slot>, room: nat): (r: seq<Slot>)
    ensures Total(r) <= room
  {
    if Total(l) <= room then l else Fit(l[1..], room)
  }

  function Put(l: seq<Slot>, key: RangeKey, bytes: seq<byte>, capacity: nat): seq<Slot> {
    if capacity == 0 || |bytes| > capacity then l
    else Fit(Removed(l, key), capacity - |bytes|) + [Slot(key, bytes)]
  }

  lemma {:induction false} TotalAppend(l: seq<Slot>, s: Slot)
    ensures Total(l + [s]) == Total(l) + |s.bytes|
  {
    if l == [] {
      assert l + [s] == [s];
    } else {
      TotalAppend(l[1..], s);
      assert (l + [s])[1..] == l[1..] + [s];
    }
  }

  lemma {:induction false} TotalRemoveAt(l: seq<Slot>, i: nat)
    requires i < |l|
    ensures Total(RemoveAt(l, i)) == Total(l) - |l[i].bytes|
  {
    if i == 0 {
      assert RemoveAt(l, 0) == l[1..];
    } else {
      TotalRemoveAt(l[1..], i - 1);
      assert RemoveAt(l, i)[1..] == RemoveAt(l[1..], i - 1);
    }
  }

  /** No range is given up that could have stayed: the kept part is the longest recent stretch that fits. */
  lemma {:induction false} FitIsLongest(l: seq<Slot>, room: nat, d: nat)
    requires d <= |l|
    ensures |Fit(l, room)| <= |l| && Fit(l, room) == l[|l| - |Fit(l, room)|..]
    ensures Total(l[d..]) <= room <==> |l| - |Fit(l, room)| <= d
    decreases |l|
  {
    if Total(l) <= room {
      TotalOfSuffix(l, d);
    } else if d == 0 {
      FitIsLongest(l[1..], room, 0);
    } else {
      FitIsLongest(l[1..], room, d - 1);
      assert l[d..] == l[1..][d - 1..];
    }
  }

  lemma {:induction false} TotalOfSuffix(l: seq<Slot>, d: nat)
    requires d <= |l|
    ensures Total(l[d..]) <= Total(l)
    decreases d
  {
    if d > 0 {
      TotalOfSuffix(l[1..], d - 1);
      assert l[d..] == l[1..][d - 1..];
    }
  }

  // ---- the map and the list ----

  ghost predicate DistinctKeys(l: seq<Slot>) {
    forall i, j | 0 <= i < j < |l| :: l[i].key != l[j].key
  }

  /** The list holds exactly the entries of the map. */
  ghost predicate Mirrors(l: seq<Slot>, entries: map<RangeKey, CacheEntry>) {
    && DistinctKeys(l)
    && (forall i | 0 <= i < |l| :: l[i].key in entries && entries[l[i].key].bytes == l[i].bytes)
    && (forall k | k in entries :: Position(l, k) < |l|)
  }

  function Stamp(entries: map<RangeKey, CacheEntry>, key: RangeKey): nat {
    if key in entries then entries[key].touched else 0
  }

  /** Later uses have later stamps, up to the saturated stamp. */
  ghost predicate Stamped(l: seq<Slot>, entries: map<RangeKey, CacheEntry>, clock: nat) {
    && (forall i | 0 <= i < |l| :: Stamp(entries, l[i].key) <= clock)
    && (forall i, j | 0 <= i < j < |l| ::
          var (a, b) := (Stamp(entries, l[i].key), Stamp(entries, l[j].key));
          a < b || a == b == U64_MAX)
  }

  function Skip(i: nat, j: nat): nat {
    if j < i then j else j + 1
  }

  lemma RemoveAtIndex(l: seq<Slot>, i: nat)
    requires i < |l|
    ensures |RemoveAt(l, i)| == |l| - 1
    ensures forall j | 0 <= j < |l| - 1 :: RemoveAt(l, i)[j] == l[Skip(i, j)]
  {
  }

  lemma Found(l: seq<Slot>, i: nat, key: RangeKey)
    requires i < |l| && l[i].key == key
    ensures Position(l, key) < |l|
  {
  }

  lemma RemoveMirrors(l: seq<Slot>, entries: map<RangeKey, CacheEntry>, i: nat)
    requires Mirrors(l, entries) && i < |l|
    ensures Mirrors(RemoveAt(l, i), entries - {l[i].key})
  {
    hide Position, RemoveAt;
    var r, entries' := RemoveAt(l, i), entries - {l[i].key};
    RemoveAtIndex(l, i);
    forall k | k in entries' ensures Position(r, k) < |r| {
      var p := Position(l, k);
      assert p < |l| && l[p].key == k;
      assert p != i;
      var q := if p < i then p else p - 1;
      assert r[q] == l[Skip(i, q)];
      Found(r, q, k);
    }
  }

  lemma RemoveStamped(l: seq<Slot>, entries: map<RangeKey, CacheEntry>, clock: nat, i: nat)
    requires Stamped(l, entries, clock) && DistinctKeys(l) && i < |l|
    ensures Stamped(RemoveAt(l, i), entries - {l[i].key}, clock)
  {
    hide RemoveAt, Stamp;
    var r, entries' := RemoveAt(l, i), entries - {l[i].key};
    RemoveAtIndex(l, i);
    forall j | 0 <= j < |r| ensures Stamp(entries', r[j].key) == Stamp(entries, l[Skip(i, j)].key) {
      assert l[Skip(i, j)].key != l[i].key;
      StampKept(entries, l[i].key, r[j].key);
    }
  }

  lemma StampKept(entries: map<RangeKey, CacheEntry>, gone: RangeKey, key: RangeKey)
    requires key != gone
    ensures Stamp(entries - {gone}, key) == Stamp(entries, key)
  {
  }

  lemma RemoveKeeps(l: seq<Slot>, entries: map<RangeKey, CacheEntry>, clock: nat, i: nat)
    requires Mirrors(l, entries) && Stamped(l, entries, clock) && i < |l|
    ensures Mirrors(RemoveAt(l, i), entries - {l[i].key}) && Stamped(RemoveAt(l, i), entries - {l[i].key}, clock)
  {
    hide Stamped, RemoveAt, Position;
    RemoveMirrors(l, entries, i);
    RemoveStamped(l, entries, clock, i);
  }

  lemma AppendMirrors(l: seq<Slot>, entries: map<RangeKey, CacheEntry>, key: RangeKey, e: CacheEntry)
    requires Mirrors(l, entries) && key !in entries
    ensures Mirrors(l + [Slot(key, e.bytes)], entries[key := e])
  {
    hide Position;
    var l', entries' := l + [Slot(key, e.bytes)], entries[key := e];
    forall k | k in entries' ensures Position(l', k) < |l'| {
      var p := if k == key then |l| else Position(l, k);
      assert k != key ==> k in entries && p < |l| && l[p].key == k;
      Found(l', p, k);
    }
  }

  lemma AppendStamped(l: seq<Slot>, entries: map<RangeKey, CacheEntry>, clock: nat, key: RangeKey, bytes: seq<byte>)
    requires Stamped(l, entries, clock) && clock <= U64_MAX && forall i | 0 <= i < |l| :: l[i].key != key
    ensures Stamped(l + [Slot(key, bytes)], entries[key := CacheEntry(bytes, Tick(clock))], Tick(clock))
  {
    hide Stamp;
    var entries' := entries[key := CacheEntry(bytes, Tick(clock))];
    StampSet(entries, key, CacheEntry(bytes, Tick(clock)), key);
    forall i | 0 <= i < |l| ensures Stamp(entries', l[i].key) == Stamp(entries, l[i].key) {
      StampSet(entries, key, CacheEntry(bytes, Tick(clock)), l[i].key);
    }
  }

  lemma StampSet(entries: map<RangeKey, CacheEntry>, key: RangeKey, e: CacheEntry, k: RangeKey)
    ensures Stamp(entries[key := e], k) == if k == key then e.touched else Stamp(entries, k)
  {
  }

  lemma AppendKeeps(l: seq<Slot>, entries: map<RangeKey, CacheEntry>, clock: nat, key: RangeKey, bytes: seq<byte>)
    requires Mirrors(l, entries) && Stamped(l, entries, clock) && key !in entries && clock <= U64_MAX
    ensures var clock' := Tick(clock);
            var (l', entries') := (l + [Slot(key, bytes)], entries[key := CacheEntry(bytes, clock')]);
            Mirrors(l', entries') && Stamped(l', entries', clock')
  {
    hide Stamped, Position;
    AppendMirrors(l, entries, key, CacheEntry(bytes, Tick(clock)));
    AppendStamped(l, entries, clock, key, bytes);
  }

  function Tick(clock: nat): nat {
    if clock >= U64_MAX then U64_MAX else clock + 1
  }

  ghost predicate IsOldest(entries: map<RangeKey, CacheEntry>, key: RangeKey) {
    key in entries && forall k | k in entries :: entries[key].touched <= entries[k].touched
  }

  /** The smallest stamp names the least recently used range, exactly until two ranges carry the saturated stamp. */
  lemma OldestIsLeastRecentExactlyWhen(l: seq<Slot>, entries: map<RangeKey, CacheEntry>, clock: nat)
    requires Mirrors(l, entries) && Stamped(l, entries, clock) && l != [] && clock <= U64_MAX
    ensures IsOldest(entries, l[0].key)
    ensures (forall key | IsOldest(entries, key) :: key == l[0].key)
            <==> |l| == 1 || entries[l[0].key].touched < U64_MAX
  {
    forall k | k in entries ensures entries[l[0].key].touched <= entries[k].touched {
      assert l[Position(l, k)].key == k;
    }
    if |l| > 1 && entries[l[0].key].touched == U64_MAX {
      assert IsOldest(entries, l[1].key);
    } else {
      forall key | IsOldest(entries, key) ensures key == l[0].key {
        assert l[Position(l, key)].key == key;
      }
    }
  }

  /** Two saturated stamps: the more recently used range may be the one evicted. */
  lemma SaturatedStampsTie()
    ensures var (stale, recent) := (RangeKey(0, 1), RangeKey(1, 2));
            var l := [Slot(stale, [7]), Slot(recent, [8])];
            var entries := map[stale := CacheEntry([7], U64_MAX), recent := CacheEntry([8], U64_MAX)];
            Mirrors(l, entries) && Stamped(l, entries, U64_MAX) && IsOldest(entries, recent)
  {
    var l := [Slot(RangeKey(0, 1), [7]), Slot(RangeKey(1, 2), [8])];
    assert Position(l, RangeKey(0, 1)) == 0;
    assert Position(l[1..], RangeKey(1, 2)) == 0;
    assert Position(l, RangeKey(1, 2)) == 1;
  }

  class BoundedCache {
    var entries: map<RangeKey, CacheEntry>
    var usedBytes: nat
    var clock: nat
    ghost var lru: seq<Slot>

    ghost predicate Valid()
      reads this
    {
      && clock <= U64_MAX
      && Mirrors(lru, entries) && Stamped(lru, entries, clock)
      && usedBytes == Total(lru)
    }

    constructor ()
      ensures Valid() && lru == [] && clock == 0
    {
      entries, usedBytes, clock, lru := map[], 0, 0, [];
    }

    method Get(key: RangeKey) returns (r: Option<seq<byte>>)
      requires Valid()
      modifies this
      ensures Valid() && lru == Touched(old(lru), key) && usedBytes == old(usedBytes)
      ensures r == if key in old(entries) then Some(old(entries)[key].bytes) else None
      ensures r.None? ==> unchanged(this)
      ensures r.Some? ==> clock == (if old(clock) < U64_MAX then old(clock) + 1 else U64_MAX)
      ensures r.Some? ==> entries == old(entries)[key := CacheEntry(r.value, clock)]
      ensures r.Some? ==> forall k | k in entries :: entries[k].touched <= clock
      ensures r.Some? ==> exists p | 0 <= p < |old(lru)| ::
                old(lru)[p].key == key && lru == old(lru)[..p] + old(lru)[p + 1..] + [old(lru)[p]]
    {
      hide Total, Position, Mirrors, Stamped;
      Unfold(lru, entries, key);
      if key !in entries {
        return None;
      }
      var bytes := entries[key].bytes;
      ghost var p := Position(lru, key);
      RemoveKeeps(lru, entries, clock, p);
      TotalRemoveAt(lru, p);
      AppendKeeps(RemoveAt(lru, p), entries - {key}, clock, key, bytes);
      TotalAppend(RemoveAt(lru, p), lru[p]);
      clock := Tick(clock);
      assert (entries - {key})[key := CacheEntry(bytes, clock)] == entries[key := CacheEntry(bytes, clock)];
      entries := entries[key := CacheEntry(bytes, clock)];
      lru := RemoveAt(lru, p) + [lru[p]];
      r := Some(bytes);
      StampsBounded(lru, entries, clock);
      assert old(lru)[p].key == key && lru == old(lru)[..p] + old(lru)[p + 1..] + [old(lru)[p]];
    }

    /** Remove one entry and its bytes from the account. */
    method Remove(key: RangeKey)
      requires Valid() && key in entries
      modifies this`entries, this`usedBytes, this`lru
      ensures Valid() && lru == Removed(old(lru), key) && entries == old(entries) - {key}
      ensures usedBytes == old(usedBytes) - |old(entries)[key].bytes|
    {
      hide Total, Position, Mirrors, Stamped;
      Unfold(lru, entries, key);
      ghost var p := Position(lru, key);
      RemoveKeeps(lru, entries, clock, p);
      TotalRemoveAt(lru, p);
      usedBytes := usedBytes - |entries[key].bytes|;
      entries := entries - {key};
      lru := RemoveAt(lru, p);
    }

    /** Evict the entry with the smallest stamp; among equal stamps the hash order decides. */
    method Evict()
      requires Valid() && entries != map[]
      modifies this`entries, this`usedBytes, this`lru
      ensures Valid() && |lru| < |old(lru)|
      ensures exists key | key in old(entries) :: entries == old(entries) - {key}
      ensures clock < U64_MAX ==> lru == old(lru)[1..]
    {
      hide Total, Position, Stamped;
      var oldest := OldestKey();
      Unfold(lru, entries, oldest);
      ForcedOldest(lru, entries, clock);
      assert entries - {oldest} == old(entries) - {oldest};
      Remove(oldest);
    }

    method OldestKey() returns (key: RangeKey)
      requires Valid() && entries != map[]
      ensures IsOldest(entries, key)
    {
      var keys := entries.Keys;
      key :| key in keys;
      keys := keys - {key};
      while keys != {}
        invariant key in entries && keys <= entries.Keys
        invariant forall k | k in entries && k !in keys :: entries[key].touched <= entries[k].touched
        decreases keys
      {
        var k :| k in keys;
        if entries[k].touched < entries[key].touched {
          key := k;
        }
        keys := keys - {k};
      }
    }

    /** Make room and insert; the result is what the list of recent uses says. */
    method Insert(key: RangeKey, bytes: seq<byte>, capacity: nat)
      requires Valid()
      modifies this
      ensures Valid() && (old(usedBytes) <= capacity ==> usedBytes <= capacity)
      ensures old(clock) < U64_MAX ==> lru == Put(old(lru), key, bytes, capacity)
      ensures 0 < capacity && |bytes| <= capacity ==>
                && clock == (if old(clock) < U64_MAX then old(clock) + 1 else U64_MAX)
                && key in entries && entries[key].touched == clock
      ensures !(0 < capacity && |bytes| <= capacity) ==> unchanged(this)
      ensures forall k | k in entries ::
                if k == key && 0 < capacity && |bytes| <= capacity then entries[k].bytes == bytes
                else k in old(entries) && entries[k] == old(entries)[k]
    {
      hide Total, Position, Mirrors, Stamped;
      if capacity == 0 || |bytes| > capacity {
        return;
      }
      Unfold(lru, entries, key);
      if key in entries {
        Remove(key);
      }
      assert lru == Removed(old(lru), key);
      MakeRoom(capacity - |bytes|);
      AppendKeeps(lru, entries, clock, key, bytes);
      TotalAppend(lru, Slot(key, bytes));
      clock := Tick(clock);
      usedBytes := usedBytes + |bytes|;
      entries := entries[key := CacheEntry(bytes, clock)];
      lru := lru + [Slot(key, bytes)];
    }

    method MakeRoom(room: nat)
      requires Valid()
      modifies this`entries, this`usedBytes, this`lru
      ensures Valid() && usedBytes <= room
      ensures clock < U64_MAX ==> lru == Fit(old(lru), room)
      ensures entries.Keys <= old(entries).Keys && forall k | k in entries :: entries[k] == old(entries)[k]
    {
      hide Mirrors, Stamped;
      while usedBytes > room
        invariant Valid()
        invariant clock < U64_MAX ==> Fit(lru, room) == Fit(old(lru), room)
        invariant entries.Keys <= old(entries).Keys && forall k | k in entries :: entries[k] == old(entries)[k]
        decreases |lru|
      {
        Unfold(lru, entries, RangeKey(0, 0));
        Evict();
      }
    }

    method Clear()
      requires Valid()
      modifies this
      ensures Valid() && entries == map[] && lru == [] && usedBytes == 0 && clock == old(clock)
    {
      hide Total, Position, Mirrors, Stamped;
      NothingHeld(clock);
      entries, usedBytes, lru := map[], 0, [];
    }
  }

  lemma NothingHeld(clock: nat)
    ensures Mirrors([], map[]) && Stamped([], map[], clock) && Total([]) == 0
  {
  }

  lemma Unfold(l: seq<Slot>, entries: map<RangeKey, CacheEntry>, key: RangeKey)
    requires Mirrors(l, entries)
    ensures key in entries <==> Position(l, key) < |l|
    ensures key in entries ==> l[Position(l, key)] == Slot(key, entries[key].bytes)
    ensures entries == map[] <==> l == []
    ensures DistinctKeys(l)
  {
  }

  lemma StampsBounded(l: seq<Slot>, entries: map<RangeKey, CacheEntry>, clock: nat)
    requires Mirrors(l, entries) && Stamped(l, entries, clock)
    ensures forall k | k in entries :: entries[k].touched <= clock
  {
    forall k | k in entries ensures entries[k].touched <= clock {
      Unfold(l, entries, k);
      assert Stamp(entries, l[Position(l, k)].key) <= clock;
    }
  }

  lemma ForcedOldest(l: seq<Slot>, entries: map<RangeKey, CacheEntry>, clock: nat)
    requires Mirrors(l, entries) && Stamped(l, entries, clock) && l != []
    ensures clock < U64_MAX ==> forall key | IsOldest(entries, key) :: Removed(l, key) == l[1..]
  {
  }

  // ---- the source of ranges ----

  datatype FetchError = OutOfRange | ReadFailed

  /** The answer a reader of the file itself would get. */
  function FileRange(file: seq<byte>, start: nat, end: nat): Result<seq<byte>, FetchError> {
    if start > end || end > |file| then Err(OutOfRange) else Ok(file[start..end])
  }

  /** Every cached range holds the bytes of the file. */
  ghost predicate Coherent(file: seq<byte>, entries: map<RangeKey, CacheEntry>) {
    forall k | k in entries :: FileRange(file, k.start, k.end) == Ok(entries[k].bytes)
  }

  /** One step of a fetch, or a clear; fetches of several tasks interleave between their two steps. */
  datatype Step = Lookup(start: nat, end: nat) | Fill(start: nat, end: nat) | Clear

  type Answer = Option<Result<seq<byte>, FetchError>>

  /** What one step does to the list of uses. */
  function Advance(l: seq<Slot>, file: seq<byte>, capacity: nat, step: Step, answer: Answer): seq<Slot> {
    match step
    case Lookup(start, end) => if FileRange(file, start, end).Ok? then Touched(l, RangeKey(start, end)) else l
    case Fill(start, end) =>
      if answer.Some? && answer.value.Ok? then Put(l, RangeKey(start, end), answer.value.value, capacity) else l
    case Clear => []
  }

  /** What a run does to it. */
  function Replay(l: seq<Slot>, file: seq<byte>, capacity: nat, steps: seq<Step>, answers: seq<Answer>): seq<Slot>
    requires |answers| == |steps|
  {
    if steps == [] then l else
      var n := |steps| - 1;
      Advance(Replay(l, file, capacity, steps[..n], answers[..n]), file, capacity, steps[n], answers[n])
  }

  // ---- recency over a run ----

  /** The step used the range: a look-up that hit it, or a fill that could be cached. */
  predicate Uses(step: Step, answer: Answer, capacity: nat, key: RangeKey) {
    && !step.Clear? && key == RangeKey(step.start, step.end)
    && answer.Some? && answer.value.Ok?
    && (step.Fill? ==> 0 < capacity && |answer.value.value| <= capacity)
  }

  /** The last step that used the range, or -1. */
  function LastUse(steps: seq<Step>, answers: seq<Answer>, capacity: nat, key: RangeKey): (i: int)
    requires |answers| == |steps|
    ensures -1 <= i < |steps|
    ensures i >= 0 ==> Uses(steps[i], answers[i], capacity, key)
    ensures forall j | i < j < |steps| :: !Uses(steps[j], answers[j], capacity, key)
  {
    if steps == [] then -1 else
      var n := |steps| - 1;
      if Uses(steps[n], answers[n], capacity, key) then n else LastUse(steps[..n], answers[..n], capacity, key)
  }

  /** The last step that cleared the cache, or -1. */
  function LastClear(steps: seq<Step>): (i: int)
    ensures -1 <= i < |steps|
    ensures i >= 0 ==> steps[i].Clear?
    ensures forall j | i < j < |steps| :: !steps[j].Clear?
  {
    if steps == [] then -1 else if steps[|steps| - 1].Clear? then |steps| - 1 else LastClear(steps[..|steps| - 1])
  }

  /**
   For the last use of every range and the last clear: the list is in order of last use, and a range that was used since
   the last clear and is gone was last used before every range that is held.
   */
  ghost predicate InOrder(l: seq<Slot>, lastUse: RangeKey -> int, lastClear: int) {
    && (forall i, j | 0 <= i < j < |l| :: lastUse(l[i].key) < lastUse(l[j].key) || lastUse(l[i].key) == -1)
    && (forall k, i | 0 <= i < |l| && Position(l, k) == |l| && lastClear < lastUse(k) :: lastUse(k) < lastUse(l[i].key))
  }

  function UsesOf(steps: seq<Step>, answers: seq<Answer>, capacity: nat): RangeKey -> int
    requires |answers| == |steps|
  {
    key => LastUse(steps, answers, capacity, key)
  }

  lemma LastUseStep(steps: seq<Step>, answers: seq<Answer>, capacity: nat, step: Step, answer: Answer, key: RangeKey)
    requires |answers| == |steps|
    ensures LastUse(steps + [step], answers + [answer], capacity, key)
            == if Uses(step, answer, capacity, key) then |steps| else LastUse(steps, answers, capacity, key)
  {
    assert (steps + [step])[..|steps|] == steps && (answers + [answer])[..|steps|] == answers;
  }

  lemma LastClearStep(steps: seq<Step>, step: Step)
    ensures LastClear(steps + [step]) == if step.Clear? then |steps| else LastClear(steps)
  {
    assert (steps + [step])[..|steps|] == steps;
  }

  lemma RemovedIndex(l: seq<Slot>, key: RangeKey, i: nat)
    requires DistinctKeys(l) && i < |Removed(l, key)|
    ensures var j := Skip(Position(l, key), i); j < |l| && Removed(l, key)[i] == l[j] && l[j].key != key
  {
    hide Position;
  }

  function MovedToEnd(l: seq<Slot>, key: RangeKey, bytes: seq<byte>, d: nat): seq<Slot>
    requires d <= |Removed(l, key)|
  {
    Removed(l, key)[d..] + [Slot(key, bytes)]
  }

  lemma MovedIndex(l: seq<Slot>, key: RangeKey, bytes: seq<byte>, d: nat, i: nat)
    requires DistinctKeys(l) && d + i <= |Removed(l, key)|
    ensures |MovedToEnd(l, key, bytes, d)| == |Removed(l, key)| - d + 1
    ensures d + i == |Removed(l, key)| ==> MovedToEnd(l, key, bytes, d)[i].key == key
    ensures d + i < |Removed(l, key)| ==>
              var q := Skip(Position(l, key), d + i);
              q < |l| && MovedToEnd(l, key, bytes, d)[i] == l[q] && l[q].key != key
  {
    hide Position, Removed;
    if d + i < |Removed(l, key)| {
      RemovedIndex(l, key, d + i);
    }
  }

  /** A used range goes to the end, whatever is given up at the front to make room. */
  lemma UseKeepsOrder(l: seq<Slot>, key: RangeKey, bytes: seq<byte>, d: nat,
                      lastUse: RangeKey -> int, lastUse': RangeKey -> int, lastClear: int, now: int)
    requires DistinctKeys(l) && d <= |Removed(l, key)| && InOrder(l, lastUse, lastClear) && -1 <= lastClear
    requires forall k :: lastUse(k) < now && lastUse'(k) == if k == key then now else lastUse(k)
    ensures InOrder(MovedToEnd(l, key, bytes, d), lastUse', lastClear)
  {
    hide Position, Removed, MovedToEnd;
    var l' := MovedToEnd(l, key, bytes, d);
    MovedIndex(l, key, bytes, d, |Removed(l, key)| - d);
    forall i, j | 0 <= i < j < |l'| ensures lastUse'(l'[i].key) < lastUse'(l'[j].key) || lastUse'(l'[i].key) == -1 {
      MovedIndex(l, key, bytes, d, i);
      MovedIndex(l, key, bytes, d, j);
    }
    forall k, i | 0 <= i < |l'| && Position(l', k) == |l'| && lastClear < lastUse'(k)
      ensures lastUse'(k) < lastUse'(l'[i].key)
    {
      MovedIndex(l, key, bytes, d, i);
      assert l'[|l'| - 1].key != k;
      if i < |l'| - 1 {
        GoneBefore(l, key, bytes, d, k, Skip(Position(l, key), d + i), lastUse, lastClear);
      }
    }
  }

  /** A range that is not held any more stood before all that are. */
  lemma GoneBefore(l: seq<Slot>, key: RangeKey, bytes: seq<byte>, d: nat, k: RangeKey, q: nat,
                   lastUse: RangeKey -> int, lastClear: int)
    requires DistinctKeys(l) && d <= |Removed(l, key)| && k != key && InOrder(l, lastUse, lastClear) && -1 <= lastClear
    requires Position(MovedToEnd(l, key, bytes, d), k) == |MovedToEnd(l, key, bytes, d)|
    requires Skip(Position(l, key), d) <= q < |l| && lastClear < lastUse(k)
    ensures lastUse(k) < lastUse(l[q].key)
  {
    hide Position, Removed, MovedToEnd;
    var r := Position(l, k);
    if r < |l| {
      assert l[r].key == k;
      if Skip(Position(l, key), d) <= r {
        StaysHeld(l, key, bytes, d, k);
      }
    }
  }

  lemma StaysHeld(l: seq<Slot>, key: RangeKey, bytes: seq<byte>, d: nat, k: RangeKey)
    requires DistinctKeys(l) && d <= |Removed(l, key)| && k != key
    requires Skip(Position(l, key), d) <= Position(l, k) < |l|
    ensures Position(MovedToEnd(l, key, bytes, d), k) < |MovedToEnd(l, key, bytes, d)|
  {
    hide Position, Removed, MovedToEnd;
    var p, r := Position(l, key), Position(l, k);
    var i := (if r < p then r else r - 1) - d;
    RemovedLength(l, key);
    MovedIndex(l, key, bytes, d, i);
    Found(MovedToEnd(l, key, bytes, d), i, k);
  }

  lemma RemovedLength(l: seq<Slot>, key: RangeKey)
    ensures |Removed(l, key)| == if Position(l, key) < |l| then |l| - 1 else |l|
  {
    hide Position;
  }

  lemma SameOrder(l: seq<Slot>, lastUse: RangeKey -> int, lastUse': RangeKey -> int, lastClear: int)
    requires InOrder(l, lastUse, lastClear) && forall k :: lastUse'(k) == lastUse(k)
    ensures InOrder(l, lastUse', lastClear)
  {
    hide Position;
  }

  /** A look-up is answered with bytes exactly when the range is one of the file and is held. */
  ghost predicate FromList(l: seq<Slot>, file: seq<byte>, key: RangeKey, answer: Answer) {
    answer.Some? && answer.value.Ok? <==> FileRange(file, key.start, key.end).Ok? && Position(l, key) < |l|
  }

  /** One step keeps it, if a look-up is answered from the list exactly when it is there. */
  lemma StepKeepsOrder(l: seq<Slot>, file: seq<byte>, capacity: nat, steps: seq<Step>, answers: seq<Answer>,
                       step: Step, answer: Answer)
    requires |answers| == |steps| && DistinctKeys(l)
    requires InOrder(l, UsesOf(steps, answers, capacity), LastClear(steps))
    requires step.Lookup? ==> FromList(l, file, RangeKey(step.start, step.end), answer)
    ensures InOrder(Advance(l, file, capacity, step, answer),
                    UsesOf(steps + [step], answers + [answer], capacity), LastClear(steps + [step]))
  {
    hide LastUse, LastClear, InOrder, Position, Removed, Fit;
    LastClearStep(steps, step);
    forall k ensures UsesOf(steps + [step], answers + [answer], capacity)(k)
                     == if Uses(step, answer, capacity, k) then |steps| else UsesOf(steps, answers, capacity)(k) {
      LastUseStep(steps, answers, capacity, step, answer, k);
    }
    var (before, after) := (UsesOf(steps, answers, capacity), UsesOf(steps + [step], answers + [answer], capacity));
    if step.Clear? {
      EmptyInOrder(after, |steps|);
    } else {
      var key := RangeKey(step.start, step.end);
      if Uses(step, answer, capacity, key) {
        var d, bytes := AdvanceUses(l, file, capacity, step, answer);
        UseKeepsOrder(l, key, bytes, d, before, after, LastClear(steps), |steps|);
      } else {
        SameOrder(l, before, after, LastClear(steps));
      }
    }
  }

  lemma EmptyInOrder(lastUse: RangeKey -> int, lastClear: int)
    ensures InOrder([], lastUse, lastClear)
  {
  }

  /** A step that uses a range moves it to the end and gives up a stretch at the front. */
  lemma AdvanceUses(l: seq<Slot>, file: seq<byte>, capacity: nat, step: Step, answer: Answer)
    returns (d: nat, bytes: seq<byte>)
    requires !step.Clear? && Uses(step, answer, capacity, RangeKey(step.start, step.end))
    requires step.Lookup? ==> FromList(l, file, RangeKey(step.start, step.end), answer)
    ensures var base := Removed(l, RangeKey(step.start, step.end));
            d <= |base| && Advance(l, file, capacity, step, answer) == base[d..] + [Slot(RangeKey(step.start, step.end), bytes)]
  {
    hide Position, Fit;
    var key := RangeKey(step.start, step.end);
    if step.Lookup? {
      d, bytes := 0, l[Position(l, key)].bytes;
    } else {
      var base := Removed(l, key);
      bytes := answer.value.value;
      var kept := Fit(base, capacity - |bytes|);
      FitIsLongest(base, capacity - |bytes|, 0);
      d := |base| - |kept|;
    }
  }

  lemma UnusedInOrder(l: seq<Slot>, capacity: nat)
    ensures InOrder(l, UsesOf([], [], capacity), LastClear([]))
  {
  }

  lemma KeptWereUsedLater(l: seq<Slot>, entries: map<RangeKey, CacheEntry>, lastUse: RangeKey -> int, lastClear: int)
    requires Mirrors(l, entries) && InOrder(l, lastUse, lastClear)
    ensures forall kept, gone | kept in entries && gone !in entries ::
              lastClear < lastUse(gone) ==> lastUse(gone) < lastUse(kept)
  {
    hide Mirrors, Position;
    forall kept, gone | kept in entries && gone !in entries && lastClear < lastUse(gone)
      ensures lastUse(gone) < lastUse(kept)
    {
      Unfold(l, entries, kept);
      Unfold(l, entries, gone);
      assert l[Position(l, kept)].key == kept;
    }
  }

  class RangeSource {
    const file: seq<byte>
    const capacity: nat
    const cache: BoundedCache

    ghost predicate Valid()
      reads this, cache
    {
      cache.Valid() && cache.usedBytes <= capacity && Coherent(file, cache.entries)
    }

    constructor (file: seq<byte>, capacity: nat)
      ensures Valid() && fresh(cache) && this.file == file && this.capacity == capacity && cache.lru == []
    {
      this.file, this.capacity := file, capacity;
      cache := new BoundedCache();
    }

    /** The first half: a cached range answers at once. */
    method LookUp(start: nat, end: nat) returns (r: Answer)
      requires Valid()
      modifies cache
      ensures Valid() && (r.Some? ==> r.value == FileRange(file, start, end))
      ensures r.None? ==> start <= end <= |file|
      ensures FromList(old(cache.lru), file, RangeKey(start, end), r)
      ensures cache.lru == Advance(old(cache.lru), file, capacity, Lookup(start, end), r)
      ensures old(cache.clock) <= cache.clock <= old(cache.clock) + 1
    {
      hide Total, Position, Mirrors, Stamped;
      if start > end || end > |file| {
        return Some(Err(OutOfRange));
      }
      Unfold(cache.lru, cache.entries, RangeKey(start, end));
      var hit := cache.Get(RangeKey(start, end));
      r := if hit.Some? then Some(Ok(hit.value)) else None;
    }

    /** The second half: read the file, then insert; the read itself may fail. */
    method FillIn(start: nat, end: nat) returns (r: Result<seq<byte>, FetchError>)
      requires Valid() && start <= end <= |file|
      modifies cache
      ensures Valid() && (r == FileRange(file, start, end) || r == Err(ReadFailed))
      ensures r.Ok? && old(cache.clock) < U64_MAX ==>
                cache.lru == Put(old(cache.lru), RangeKey(start, end), r.value, capacity)
      ensures r.Err? ==> cache.lru == old(cache.lru)
      ensures old(cache.clock) <= cache.clock <= old(cache.clock) + 1
    {
      hide Total, Position, Mirrors, Stamped, Put;
      var readable: bool := *;
      if !readable {
        return Err(ReadFailed);
      }
      var bytes := file[start..end];
      cache.Insert(RangeKey(start, end), bytes, capacity);
      r := Ok(bytes);
    }

    /** A fetch that nothing interrupts. */
    method Fetch(start: nat, end: nat) returns (r: Result<seq<byte>, FetchError>)
      requires Valid()
      modifies cache
      ensures Valid() && (r == FileRange(file, start, end) || r == Err(ReadFailed))
    {
      hide Total, Position, Mirrors, Stamped, Coherent, Put;
      var hit := LookUp(start, end);
      if hit.Some? {
        return hit.value;
      }
      r := FillIn(start, end);
    }

    /**
     Any interleaving of fetch halves and clears answers every request from the file, within the byte bound, and until
     the clock saturates the cache holds what the list of uses holds after the same steps.
     */
    method Serve(steps: seq<Step>) returns (answers: seq<Answer>)
      requires Valid()
      requires forall i | 0 <= i < |steps| :: steps[i].Fill? ==> steps[i].start <= steps[i].end <= |file|
      modifies cache
      ensures Valid() && |answers| == |steps|
      ensures forall i | 0 <= i < |steps| && answers[i].Some? ::
                !steps[i].Clear? && answers[i].value in {FileRange(file, steps[i].start, steps[i].end), Err(ReadFailed)}
      ensures forall i | 0 <= i < |steps| :: steps[i].Fill? ==> answers[i].Some?
      ensures old(cache.clock) + |steps| <= U64_MAX ==>
                cache.lru == Replay(old(cache.lru), file, capacity, steps, answers)
      ensures old(cache.clock) + |steps| <= U64_MAX ==>
                forall kept, gone | kept in cache.entries && gone !in cache.entries ::
                  LastClear(steps) < LastUse(steps, answers, capacity, gone) ==>
                    LastUse(steps, answers, capacity, gone) < LastUse(steps, answers, capacity, kept)
    {
      hide Total, Position, Mirrors, Stamped, Coherent, Put, Touched, Advance, InOrder, LastUse, LastClear, FromList;
      answers := [];
      UnusedInOrder(cache.lru, capacity);
      assert steps[..0] == [];
      for i := 0 to |steps|
        invariant Valid() && |answers| == i
        invariant forall j | 0 <= j < i && answers[j].Some? ::
                    !steps[j].Clear? && answers[j].value in {FileRange(file, steps[j].start, steps[j].end), Err(ReadFailed)}
        invariant forall j | 0 <= j < i :: steps[j].Fill? ==> answers[j].Some?
        invariant cache.clock <= old(cache.clock) + i
        invariant old(cache.clock) + i <= U64_MAX ==>
                    cache.lru == Replay(old(cache.lru), file, capacity, steps[..i], answers)
        invariant old(cache.clock) + i <= U64_MAX ==>
                    InOrder(cache.lru, UsesOf(steps[..i], answers, capacity), LastClear(steps[..i]))
      {
        ghost var l := cache.lru;
        Unfold(l, cache.entries, RangeKey(0, 0));
        var answer := TakeStep(steps[i]);
        assert steps[..i + 1] == steps[..i] + [steps[i]];
        assert steps[..i + 1][..i] == steps[..i] && (answers + [answer])[..i] == answers;
        if old(cache.clock) + i < U64_MAX {
          StepKeepsOrder(l, file, capacity, steps[..i], answers, steps[i], answer);
        }
        answers := answers + [answer];
      }
      assert steps[..|steps|] == steps;
      if old(cache.clock) + |steps| <= U64_MAX {
        KeptWereUsedLater(cache.lru, cache.entries, UsesOf(steps, answers, capacity), LastClear(steps));
      }
    }

    method TakeStep(step: Step) returns (answer: Answer)
      requires Valid() && (step.Fill? ==> step.start <= step.end <= |file|)
      modifies cache
      ensures Valid()
      ensures answer.Some? ==>
                !step.Clear? && answer.value in {FileRange(file, step.start, step.end), Err(ReadFailed)}
      ensures step.Fill? ==> answer.Some?
      ensures step.Lookup? ==> FromList(old(cache.lru), file, RangeKey(step.start, step.end), answer)
      ensures old(cache.clock) <= cache.clock <= old(cache.clock) + 1
      ensures old(cache.clock) < U64_MAX ==> cache.lru == Advance(old(cache.lru), file, capacity, step, answer)
    {
      hide Total, Position, Mirrors, Stamped, Put, Touched;
      match step
      case Lookup(start, end) => answer := LookUp(start, end);
      case Fill(start, end) =>
        var r := FillIn(start, end);
        answer := Some(r);
      case Clear =>
        cache.Clear();
        answer := None;
    }
  }
}
