/** What a successful decode of arbitrary bytes guarantees. */
module PackStreamSoundness {
  import opened BigEndian
  import opened PackStream
  import opened PackStreamTheorems

  predicate Suffix(rest: seq<byte>, buf: seq<byte>) {
    |rest| <= |buf| && rest == buf[|buf| - |rest|..]
  }

  lemma SuffixTransitive(a: seq<byte>, b: seq<byte>, c: seq<byte>)
    requires Suffix(a, b) && Suffix(b, c)
    ensures Suffix(a, c)
  {
  }

  /** The limits hold, the heap charged covers the value, and the canonical encoding is no longer than what was read. */
  predicate Within(l: Limits, depth: nat, w: Weight, encoded: nat, consumed: int, used: nat, used': nat) {
    && used + w.heap <= used' <= l.maxHeap
    && encoded <= consumed
    && depth + w.height <= MAX_NESTING_DEPTH
    && w.widest <= l.maxLen
    && w.longest <= U32_MAX
  }

  ghost predicate SoundValue(l: Limits, depth: nat, v: Value, buf: seq<byte>, rest: seq<byte>, used: nat, used': nat) {
    && WellFormed(v) && Encodable(v)
    && Suffix(rest, buf)
    && Within(l, depth, Weigh(v), |Encode(v)|, |buf| - |rest|, used, used')
  }

  // ---- heads ----

  /** No shorter header could have announced the length, or a smaller one. */
  lemma HeaderIsMinimal(buf: seq<byte>, m: nat)
    requires DecodeHead(buf).Sized? && m <= DecodeHead(buf).len
    ensures |Header(DecodeHead(buf).kind, m)| <= |buf| - |DecodeHead(buf).rest|
    ensures DecodeHead(buf).len <= U32_MAX
    ensures DecodeHead(buf).kind == StructKind ==> DecodeHead(buf).len <= U16_MAX
  {
    hide ScalarHead, SizedHead;
    SizedWidth(buf[0], buf[1..]);
  }

  lemma ScalarIsSound(l: Limits, depth: nat, buf: seq<byte>, used: nat)
    requires DecodeHead(buf).Scalar? && used <= l.maxHeap && depth <= MAX_NESTING_DEPTH
    ensures SoundValue(l, depth, DecodeHead(buf).value, buf, DecodeHead(buf).rest, used, used)
  {
    hide ScalarValue, ScalarSize, SizedHead, InWidth, Encode, Weigh, WellFormed, Encodable;
    ScalarWidth(buf[0], buf[1..]);
    ScalarFits(ScalarValue(buf[0], buf[1..]), ScalarSize(buf[0]));
  }

  lemma ScalarFits(v: Value, width: nat)
    requires InWidth(v, width)
    ensures WellFormed(v) && Encodable(v) && |Encode(v)| <= 1 + width && Weigh(v) == Weight(0, 0, 0, 0, 1)
  {
  }

  // ---- maps ----

  lemma PutKeys(entries: seq<Entry>, key: seq<byte>, value: Value, bound: seq<byte>)
    requires KeysAscend(entries) && KeyLess(bound, key)
    requires forall i | 0 <= i < |entries| :: KeyLess(bound, entries[i].key)
    ensures forall i | 0 <= i < |Put(entries, key, value)| :: KeyLess(bound, Put(entries, key, value)[i].key)
    decreases |entries|
  {
  }

  lemma {:induction false} PutAscends(entries: seq<Entry>, key: seq<byte>, value: Value)
    requires KeysAscend(entries)
    ensures KeysAscend(Put(entries, key, value))
    ensures |entries| <= |Put(entries, key, value)| <= |entries| + 1
    decreases |entries|
  {
    if entries != [] {
      var first := entries[0].key;
      KeyLessTotal(first, key);
      if KeyLess(first, key) {
        PutAscends(entries[1..], key, value);
        PutKeys(entries[1..], key, value, first);
      } else if first != key {
        forall i | 0 <= i < |entries| ensures KeyLess(key, entries[i].key) {
          if i > 0 {
            KeyLessTransitive(key, first, entries[i].key);
          }
        }
      }
    }
  }

  ghost predicate GoodEntries(entries: seq<Entry>) {
    forall i | 0 <= i < |entries| :: ValidUtf8(entries[i].key) && WellFormed(entries[i].value) && Encodable(entries[i].value)
  }

  /** A weight no larger in any limited measure. */
  predicate Lighter(a: Weight, b: Weight) {
    a.heap <= b.heap && a.height <= b.height && a.widest <= b.widest && a.longest <= b.longest
  }

  /** What an entry at the front costs. */
  lemma ConsCosts(e: Entry, rest: seq<Entry>)
    requires ValidUtf8(e.key) && WellFormed(e.value) && Encodable(e.value) && GoodEntries(rest)
    ensures GoodEntries([e] + rest)
    ensures |EncodeEntries([e] + rest)| == |EncodeString(e.key)| + |Encode(e.value)| + |EncodeEntries(rest)|
    ensures WeighEntries([e] + rest) == Join(Join(Text(|e.key|), Weigh(e.value)), WeighEntries(rest))
  {
  }

  /** Inserting costs at most what the new entry costs, even when it replaces one. */
  lemma {:induction false} PutCosts(entries: seq<Entry>, key: seq<byte>, value: Value)
    requires GoodEntries(entries) && ValidUtf8(key) && WellFormed(value) && Encodable(value)
    ensures GoodEntries(Put(entries, key, value))
    ensures |EncodeEntries(Put(entries, key, value))| <= |EncodeEntries(entries)| + |EncodeString(key)| + |Encode(value)|
    ensures Lighter(WeighEntries(Put(entries, key, value)), Join(WeighEntries(entries), Join(Text(|key|), Weigh(value))))
    decreases |entries|
  {
    hide KeyLess, ValidUtf8, WellFormed, Encodable, Encode, EncodeString, EncodeEntries, Weigh, WeighEntries, Join, Lighter;
    var e := Entry(key, value);
    var w := Join(Text(|key|), Weigh(value));
    if entries == [] {
      ConsCosts(e, []);
      assert [e] + [] == [e];
      InFrontIsLighter(w, WeighEntries([]));
    } else {
      var tail := entries[1..];
      var first := Join(Text(|entries[0].key|), Weigh(entries[0].value));
      assert entries == [entries[0]] + tail;
      assert GoodEntries(tail);
      ConsCosts(entries[0], tail);
      if KeyLess(entries[0].key, key) {
        PutCosts(tail, key, value);
        ConsCosts(entries[0], Put(tail, key, value));
        BehindIsLighter(first, WeighEntries(Put(tail, key, value)), WeighEntries(tail), w);
      } else if entries[0].key == key {
        ConsCosts(e, tail);
        InsteadIsLighter(first, WeighEntries(tail), w);
      } else {
        ConsCosts(e, entries);
        InFrontIsLighter(w, WeighEntries(entries));
      }
    }
  }

  lemma InFrontIsLighter(w: Weight, rest: Weight)
    ensures Lighter(Join(w, rest), Join(rest, w))
  {
  }

  lemma InsteadIsLighter(first: Weight, rest: Weight, w: Weight)
    ensures Lighter(Join(w, rest), Join(Join(first, rest), w))
  {
  }

  lemma BehindIsLighter(first: Weight, a: Weight, b: Weight, w: Weight)
    requires Lighter(a, Join(b, w))
    ensures Lighter(Join(first, a), Join(Join(first, b), w))
  {
  }

  // ---- values, items, entries ----

  ghost predicate SoundItems(l: Limits, depth: nat, count: nat, items: seq<Value>, buf: seq<byte>, rest: seq<byte>, used: nat, used': nat) {
    && |items| == count
    && (forall i | 0 <= i < |items| :: WellFormed(items[i]) && Encodable(items[i]))
    && Suffix(rest, buf)
    && (count > 0 ==> depth <= MAX_NESTING_DEPTH)
    && Within(l, if count > 0 then depth else 0, WeighItems(items), |EncodeItems(items)|, |buf| - |rest|, used, used')
  }

  /** Entries read on top of the entries `done`. */
  ghost predicate SoundEntries(l: Limits, depth: nat, count: nat, done: seq<Entry>, entries: seq<Entry>,
                               buf: seq<byte>, rest: seq<byte>, used: nat, used': nat) {
    && KeysAscend(entries) && GoodEntries(done) && GoodEntries(entries)
    && |entries| <= |done| + count
    && Suffix(rest, buf)
    && used' <= l.maxHeap && WeighEntries(entries).heap + used <= WeighEntries(done).heap + used'
    && |EncodeEntries(entries)| <= |EncodeEntries(done)| + |buf| - |rest|
    && (entries != [] ==> depth + WeighEntries(entries).height <= MAX_NESTING_DEPTH)
    && WeighEntries(entries).widest <= l.maxLen
    && WeighEntries(entries).longest <= U32_MAX
  }

  lemma PayloadIsSound(l: Limits, depth: nat, buf: seq<byte>, used: nat)
    requires used <= l.maxHeap && depth <= MAX_NESTING_DEPTH
    requires DecodeHead(buf).Sized? && DecodeHead(buf).kind in {StringKind, BytesKind}
    ensures var h := DecodeHead(buf);
            var s := if h.kind == StringKind then DecodeStringBody(l, h.len, h.rest, used) else DecodeBytesBody(l, h.len, h.rest, used);
            s.Got? ==> SoundValue(l, depth, s.value, buf, s.rest, used, s.used)
  {
    hide DecodeHead, ValidUtf8, Header;
    var h := DecodeHead(buf);
    HeaderIsMinimal(buf, h.len);
    if h.len <= |h.rest| {
      SuffixTransitive(h.rest[h.len..], h.rest, buf);
    }
  }

  /** From sound contents to a sound list; a struct has one more byte, its tag. */
  lemma ListIsSound(l: Limits, depth: nat, buf: seq<byte>, rest: seq<byte>, used: nat, charged: nat, used': nat, items: seq<Value>)
    requires DecodeHead(buf).Sized? && DecodeHead(buf).kind == ListKind && |items| == DecodeHead(buf).len
    requires |items| <= l.maxLen && charged == used + VALUE_SLOT_BYTES * |items| && depth <= MAX_NESTING_DEPTH
    requires SoundItems(l, depth + 1, |items|, items, DecodeHead(buf).rest, rest, charged, used')
    ensures SoundValue(l, depth, List(items), buf, rest, used, used')
  {
    hide DecodeHead, Header, EncodeItems, WeighItems;
    HeaderIsMinimal(buf, |items|);
    SuffixTransitive(rest, DecodeHead(buf).rest, buf);
    assert items == [] ==> WeighItems(items).height == 0 by { NoItems(l, [], 0, 0); }
  }

  lemma StructIsSound(l: Limits, depth: nat, buf: seq<byte>, rest: seq<byte>, used: nat, charged: nat, used': nat,
                      tag: byte, fields: seq<Value>)
    requires DecodeHead(buf).Sized? && DecodeHead(buf).kind == StructKind && |fields| == DecodeHead(buf).len
    requires DecodeHead(buf).rest != [] && depth <= MAX_NESTING_DEPTH
    requires |fields| <= l.maxLen && charged == used + VALUE_SLOT_BYTES * |fields|
    requires SoundItems(l, depth + 1, |fields|, fields, DecodeHead(buf).rest[1..], rest, charged, used')
    ensures SoundValue(l, depth, Struct(tag, fields), buf, rest, used, used')
  {
    hide DecodeHead, Header, EncodeItems, WeighItems;
    var h := DecodeHead(buf);
    HeaderIsMinimal(buf, |fields|);
    SuffixTransitive(rest, h.rest[1..], h.rest);
    SuffixTransitive(rest, h.rest, buf);
    assert fields == [] ==> WeighItems(fields).height == 0 by { NoItems(l, [], 0, 0); }
  }

  lemma MapIsSound(l: Limits, depth: nat, buf: seq<byte>, rest: seq<byte>, used: nat, charged: nat, used': nat, entries: seq<Entry>)
    requires DecodeHead(buf).Sized? && DecodeHead(buf).kind == MapKind
    requires DecodeHead(buf).len <= l.maxLen && charged == used + MAP_ENTRY_HEAP_BYTES * DecodeHead(buf).len
    requires depth <= MAX_NESTING_DEPTH
    requires SoundEntries(l, depth + 1, DecodeHead(buf).len, [], entries, DecodeHead(buf).rest, rest, charged, used')
    ensures SoundValue(l, depth, Map(entries), buf, rest, used, used')
  {
    hide DecodeHead, Header, EncodeEntries, WeighEntries, KeysAscend, ValidUtf8;
    HeaderIsMinimal(buf, |entries|);
    SuffixTransitive(rest, DecodeHead(buf).rest, buf);
    NoEntries(l, [], [], 0, 0);
  }

  lemma NoEntriesIsGood()
    ensures KeysAscend([]) && GoodEntries([]) && WeighEntries([]) == Weight(0, 0, 0, 0, 0)
  {
  }

  lemma {:induction false} DecodeIsSound(l: Limits, depth: nat, buf: seq<byte>, used: nat)
    requires used <= l.maxHeap
    ensures var s := DecodeInner(l, depth, buf, used);
            s.Got? ==> SoundValue(l, depth, s.value, buf, s.rest, used, s.used)
    decreases |buf|, 0, 0
  {
    hide DecodeHead, DecodeItems, DecodeEntries, SoundValue, SoundItems, SoundEntries, ValidUtf8;
    if depth <= MAX_NESTING_DEPTH && DecodeInner(l, depth, buf, used).Got? {
      match DecodeHead(buf)
      case Scalar(_, _) => ScalarIsSound(l, depth, buf, used);
      case Sized(kind, len, rest) =>
        match kind
        case StringKind => PayloadIsSound(l, depth, buf, used);
        case BytesKind => PayloadIsSound(l, depth, buf, used);
        case ListKind =>
          assert DecodeInner(l, depth, buf, used) == DecodeListBody(l, depth, len, rest, used);
          var charged := used + VALUE_SLOT_BYTES * len;
          ItemsAreSound(l, depth + 1, len, rest, charged);
          var s := DecodeItems(l, depth + 1, len, rest, charged);
          SoundCount(l, depth + 1, len, s.value, rest, s.rest, charged, s.used);
          ListIsSound(l, depth, buf, s.rest, used, charged, s.used, s.value);
        case MapKind =>
          assert DecodeInner(l, depth, buf, used) == DecodeMapBody(l, depth, len, rest, used);
          var charged := used + MAP_ENTRY_HEAP_BYTES * len;
          NoEntriesIsGood();
          EntriesAreSound(l, depth + 1, len, [], rest, charged);
          var s := DecodeEntries(l, depth + 1, len, [], rest, charged);
          MapIsSound(l, depth, buf, s.rest, used, charged, s.used, s.value);
        case StructKind =>
          assert DecodeInner(l, depth, buf, used) == DecodeStructBody(l, depth, len, rest, used);
          var charged := used + VALUE_SLOT_BYTES * len;
          ItemsAreSound(l, depth + 1, len, rest[1..], charged);
          var s := DecodeItems(l, depth + 1, len, rest[1..], charged);
          SoundCount(l, depth + 1, len, s.value, rest[1..], s.rest, charged, s.used);
          StructIsSound(l, depth, buf, s.rest, used, charged, s.used, rest[0], s.value);
    }
  }

  lemma ConsIsSound(l: Limits, depth: nat, v: Value, items: seq<Value>, buf: seq<byte>, mid: seq<byte>, rest: seq<byte>,
                    used: nat, used': nat, used'': nat)
    requires SoundValue(l, depth, v, buf, mid, used, used')
    requires SoundItems(l, depth, |items|, items, mid, rest, used', used'')
    ensures SoundItems(l, depth, |items| + 1, [v] + items, buf, rest, used, used'')
  {
    hide Encode, EncodeItems, Weigh, WeighItems, WellFormed, Encodable;
    var all := [v] + items;
    assert all[0] == v && all[1..] == items;
    SuffixTransitive(rest, mid, buf);
    UnfoldItems(all);
  }

  lemma {:induction false} ItemsAreSound(l: Limits, depth: nat, count: nat, buf: seq<byte>, used: nat)
    requires used <= l.maxHeap
    ensures var s := DecodeItems(l, depth, count, buf, used);
            s.Got? ==> SoundItems(l, depth, count, s.value, buf, s.rest, used, s.used)
    decreases |buf|, 1, count
  {
    hide DecodeInner, SoundValue, SoundItems;
    if count == 0 {
      NothingIsSound(l, depth, buf, used);
    } else if DecodeItems(l, depth, count, buf, used).Got? {
      DecodeIsSound(l, depth, buf, used);
      var first := DecodeInner(l, depth, buf, used);
      SoundSpends(l, depth, first.value, buf, first.rest, used, first.used);
      ItemsAreSound(l, depth, count - 1, first.rest, first.used);
      var s := DecodeItems(l, depth, count - 1, first.rest, first.used);
      SoundCount(l, depth, count - 1, s.value, first.rest, s.rest, first.used, s.used);
      ConsIsSound(l, depth, first.value, s.value, buf, first.rest, s.rest, used, first.used, s.used);
    }
  }

  lemma NothingIsSound(l: Limits, depth: nat, buf: seq<byte>, used: nat)
    requires used <= l.maxHeap
    ensures SoundItems(l, depth, 0, [], buf, buf, used, used)
  {
  }

  lemma SoundSpends(l: Limits, depth: nat, v: Value, buf: seq<byte>, rest: seq<byte>, used: nat, used': nat)
    requires SoundValue(l, depth, v, buf, rest, used, used')
    ensures used' <= l.maxHeap && WellFormed(v) && Encodable(v)
  {
  }

  lemma SoundCount(l: Limits, depth: nat, count: nat, items: seq<Value>, buf: seq<byte>, rest: seq<byte>, used: nat, used': nat)
    requires SoundItems(l, depth, count, items, buf, rest, used, used')
    ensures |items| == count
  {
  }

  /** Reading one more entry into the map. */
  lemma PutIsSound(l: Limits, depth: nat, count: nat, done: seq<Entry>, key: seq<byte>, value: Value, entries: seq<Entry>,
                   buf: seq<byte>, mid: seq<byte>, mid': seq<byte>, rest: seq<byte>, used: nat, used1: nat, used2: nat, used3: nat)
    requires count > 0 && GoodEntries(done) && KeysAscend(done)
    requires SoundValue(l, depth, String(key), buf, mid, used, used1)
    requires SoundValue(l, depth, value, mid, mid', used1, used2)
    requires SoundEntries(l, depth, count - 1, Put(done, key, value), entries, mid', rest, used2, used3)
    ensures SoundEntries(l, depth, count, done, entries, buf, rest, used, used3)
  {
    hide Put, EncodeEntries, WeighEntries, KeysAscend, KeyLess, ValidUtf8;
    PutAscends(done, key, value);
    PutCosts(done, key, value);
    SuffixTransitive(rest, mid', mid);
    SuffixTransitive(rest, mid, buf);
  }

  /** Entries that respect the limits at a depth. */
  ghost predicate Carried(l: Limits, depth: nat, done: seq<Entry>) {
    && KeysAscend(done) && GoodEntries(done)
    && (done != [] ==> depth + WeighEntries(done).height <= MAX_NESTING_DEPTH)
    && WeighEntries(done).widest <= l.maxLen && WeighEntries(done).longest <= U32_MAX
  }

  lemma PutIsCarried(l: Limits, depth: nat, done: seq<Entry>, key: seq<byte>, value: Value,
                     buf: seq<byte>, mid: seq<byte>, mid': seq<byte>, used: nat, used1: nat, used2: nat)
    requires Carried(l, depth, done)
    requires SoundValue(l, depth, String(key), buf, mid, used, used1)
    requires SoundValue(l, depth, value, mid, mid', used1, used2)
    ensures Carried(l, depth, Put(done, key, value))
  {
    hide Put, EncodeEntries, WeighEntries, KeysAscend, KeyLess, ValidUtf8, Encode;
    NoEntriesIsGood();
    PutAscends(done, key, value);
    PutCosts(done, key, value);
  }

  lemma {:induction false} EntriesAreSound(l: Limits, depth: nat, count: nat, done: seq<Entry>, buf: seq<byte>, used: nat)
    requires used <= l.maxHeap && Carried(l, depth, done)
    ensures var s := DecodeEntries(l, depth, count, done, buf, used);
            s.Got? ==> SoundEntries(l, depth, count, done, s.value, buf, s.rest, used, s.used)
    decreases |buf|, 1, count
  {
    hide DecodeInner, Put, SoundValue, SoundEntries, Carried;
    if count == 0 {
      NoMoreIsSound(l, depth, done, buf, used);
    } else if DecodeEntries(l, depth, count, done, buf, used).Got? {
      DecodeIsSound(l, depth, buf, used);
      var k := DecodeInner(l, depth, buf, used);
      SoundSpends(l, depth, k.value, buf, k.rest, used, k.used);
      DecodeIsSound(l, depth, k.rest, k.used);
      var v := DecodeInner(l, depth, k.rest, k.used);
      SoundSpends(l, depth, v.value, k.rest, v.rest, k.used, v.used);
      var key := k.value.utf8;
      assert k.value == String(key);
      var more := Put(done, key, v.value);
      PutIsCarried(l, depth, done, key, v.value, buf, k.rest, v.rest, used, k.used, v.used);
      EntriesAreSound(l, depth, count - 1, more, v.rest, v.used);
      var s := DecodeEntries(l, depth, count - 1, more, v.rest, v.used);
      CarriedIsGood(l, depth, done);
      PutIsSound(l, depth, count, done, key, v.value, s.value, buf, k.rest, v.rest, s.rest, used, k.used, v.used, s.used);
    }
  }

  lemma CarriedIsGood(l: Limits, depth: nat, done: seq<Entry>)
    requires Carried(l, depth, done)
    ensures GoodEntries(done) && KeysAscend(done)
  {
  }

  lemma NoMoreIsSound(l: Limits, depth: nat, done: seq<Entry>, buf: seq<byte>, used: nat)
    requires used <= l.maxHeap && Carried(l, depth, done)
    ensures SoundEntries(l, depth, 0, done, done, buf, buf, used, used)
  {
  }
}
