/** Bytes have at most one reading, and the decoder finds it unless a limit stops it. */
module WireExactness {
  import opened BigEndian
  import opened PackStream
  import opened PackStreamTheorems
  import opened PackStreamSoundness
  import opened WireFormat
  import opened WireTheorems

  // ---- markers ----

  lemma SpellsMarker(s: seq<byte>, v: Value)
    requires Spells(s, v)
    ensures s != [] && IsScalarMarker(s[0]) && |s| == 1 + ScalarSize(s[0])
  {
    hide Positional, IsTwosComplement;
  }

  lemma SpellsOne(s: seq<byte>, v: Value, w: Value)
    requires Spells(s, v) && Spells(s, w)
    ensures v == w
  {
    hide Positional, Span;
  }

  lemma SpelledIsRead(buf: seq<byte>, h: nat, v: Value)
    requires 1 <= h <= |buf| && Spells(buf[..h], v)
    ensures DecodeHead(buf) == Scalar(v, buf[h..])
  {
    hide Spells, DecodeHead, IsScalarMarker;
    SpellsMarker(buf[..h], v);
    ScalarIsHead(buf);
    SpellsOne(buf[..h], v, DecodeHead(buf).value);
  }

  lemma TinyAnnounced(buf: seq<byte>, h: nat, kind: Kind, len: nat)
    requires 1 <= h <= |buf| && Announces(buf[..h], kind, len) && 0x80 <= buf[0] <= 0xBF
    ensures h == 1 && kind != BytesKind && len <= 15 && buf[0] == TinyMarker(kind) + len
  {
    hide Positional;
    assert buf[..h][0] == buf[0];
  }

  lemma WideAnnounced(buf: seq<byte>, h: nat, kind: Kind, len: nat)
    requires 1 <= h <= |buf| && Announces(buf[..h], kind, len) && !(0x80 <= buf[0] <= 0xBF)
    ensures 0xCC <= buf[0] <= 0xDD && !IsReserved(buf[0]) && Wide(buf[0]) == (kind, h - 1)
    ensures Positional(buf[..h][1..]) == len
  {
    hide Positional;
    assert buf[..h][0] == buf[0];
  }

  lemma WideIsRead(m: byte, r: seq<byte>)
    requires 0xCC <= m <= 0xDD && !IsReserved(m) && |r| >= Wide(m).1
    ensures !IsScalarMarker(m) && SizedHead(m, r).Sized? && Wide(m).1 in {1, 2, 4}
  {
    hide Get16, Get32;
  }

  lemma AnnouncedIsRead(buf: seq<byte>, h: nat, kind: Kind, len: nat)
    requires 1 <= h <= |buf| && Announces(buf[..h], kind, len)
    ensures DecodeHead(buf) == Sized(kind, len, buf[h..])
  {
    hide Announces, SizedHead, DecodeHead;
    if 0x80 <= buf[0] <= 0xBF {
      TinyAnnounced(buf, h, kind, len);
      TinyIsRead(buf[0], buf[1..]);
      SizedIsHead(buf);
    } else {
      WideAnnouncedIsRead(buf, h, kind, len);
    }
  }

  lemma WideAnnouncedIsRead(buf: seq<byte>, h: nat, kind: Kind, len: nat)
    requires 1 <= h <= |buf| && Announces(buf[..h], kind, len) && !(0x80 <= buf[0] <= 0xBF)
    ensures DecodeHead(buf) == Sized(kind, len, buf[h..])
  {
    hide Announces, SizedHead, DecodeHead, Positional, Narrow, Wide, IsReserved, IsScalarMarker;
    var m, r := buf[0], buf[1..];
    WideAnnounced(buf, h, kind, len);
    WideIsRead(m, r);
    WideHead(m, r);
    SizedIsHead(buf);
    NarrowSizes(kind, buf, h - 1);
    NarrowRest(kind, r, h - 1);
  }

  lemma TinyIsRead(m: byte, r: seq<byte>)
    requires 0x80 <= m <= 0xBF
    ensures var kind := if m <= 0x8F then StringKind else if m <= 0x9F then ListKind else if m <= 0xAF then MapKind else StructKind;
            SizedHead(m, r) == Sized(kind, m - TinyMarker(kind), r)
  {
  }

  lemma NarrowRest(kind: Kind, r: seq<byte>, width: nat)
    requires width in {1, 2, 4} && Narrow(kind, r, width).Sized?
    ensures Narrow(kind, r, width).kind == kind && Narrow(kind, r, width).rest == r[width..]
  {
  }

  // ---- maps ----

  /** The pairs decide the map. */
  lemma MapIsUnique(a: seq<Entry>, b: seq<Entry>, pairs: seq<Entry>)
    requires IsMapOf(a, pairs) && IsMapOf(b, pairs)
    ensures a == b
  {
    hide IsLast, KeysAscend;
    SortedIsUnique(a, b);
  }

  lemma {:induction false} SortedIsUnique(a: seq<Entry>, b: seq<Entry>)
    requires KeysAscend(a) && KeysAscend(b) && forall e: Entry :: e in a <==> e in b
    ensures a == b
  {
    hide KeyLess;
    if a == [] {
      if b != [] {
        HasFirst(b);
      }
    } else {
      assert a[0] in b;
      assert b[0] in a;
      Ascends(b, a[0]);
      Ascends(a, b[0]);
      KeyLessTotal(a[0].key, b[0].key);
      forall e: Entry ensures e in a[1..] <==> e in b[1..] {
        SortedTail(a, e);
        SortedTail(b, e);
      }
      SortedIsUnique(a[1..], b[1..]);
      assert a == [a[0]] + a[1..] && b == [b[0]] + b[1..];
    }
  }

  lemma HasFirst(entries: seq<Entry>)
    requires entries != []
    ensures exists e: Entry :: e in entries
  {
    assert entries[0] in entries;
  }

  lemma SortedTail(entries: seq<Entry>, e: Entry)
    requires KeysAscend(entries) && entries != []
    ensures e in entries[1..] <==> e in entries && e != entries[0]
  {
    hide KeyLess;
    if e in entries[1..] {
      var i :| 0 <= i < |entries[1..]| && entries[1..][i] == e;
      assert entries[i + 1] == e;
      KeyLessTotal(entries[0].key, e.key);
    }
    if e in entries && e != entries[0] {
      Ascends(entries, e);
    }
  }

  // ---- values ----

  /** The errors that are about limits and not about the bytes. */
  predicate IsLimit(e: DecodeError) {
    e.TooLarge? || e.DecodedTooLarge? || e.NestingTooDeep?
  }

  ghost predicate Agrees<T(!new)>(s: Step<T>, value: T, rest: seq<byte>) {
    match s
    case Got(value', rest', _) => value' == value && rest' == rest
    case Fail(error) => IsLimit(error)
  }

  /** Every item takes a byte, and every pair two. */
  lemma {:induction false} ItemsTakeBytes(buf: seq<byte>, items: seq<Value>, rest: seq<byte>)
    requires ReadsItems(buf, items, rest)
    ensures |items| <= |buf|
    decreases |buf|
  {
    if items != [] {
      hide Reads, ReadsItems;
      var n := FirstItem(buf, items, rest);
      ItemsTakeBytes(buf[n..], items[1..], rest);
    }
  }

  lemma {:induction false} PairsTakeBytes(buf: seq<byte>, pairs: seq<Entry>, rest: seq<byte>)
    requires ReadsPairs(buf, pairs, rest)
    ensures 2 * |pairs| <= |buf|
    decreases |buf|
  {
    if pairs != [] {
      hide Reads, ReadsPairs;
      var n, m := FirstPair(buf, pairs, rest);
      PairsTakeBytes(buf[m..], pairs[1..], rest);
    }
  }

  lemma TextAgrees(l: Limits, s: seq<byte>, rest: seq<byte>, used: nat)
    ensures ValidUtf8(s) ==> Agrees(DecodeStringBody(l, |s|, s + rest, used), String(s), rest)
    ensures Agrees(DecodeBytesBody(l, |s|, s + rest, used), Bytes(s), rest)
  {
    hide ValidUtf8;
    assert (s + rest)[..|s|] == s && (s + rest)[|s|..] == rest;
  }

  lemma ListAgrees(l: Limits, depth: nat, buf: seq<byte>, used: nat, items: seq<Value>, rest: seq<byte>)
    requires |items| <= |buf|
    requires Agrees(DecodeItems(l, depth + 1, |items|, buf, used + VALUE_SLOT_BYTES * |items|), items, rest)
    ensures Agrees(DecodeListBody(l, depth, |items|, buf, used), List(items), rest)
  {
    hide DecodeItems;
  }

  lemma StructAgrees(l: Limits, depth: nat, buf: seq<byte>, used: nat, fields: seq<Value>, rest: seq<byte>)
    requires |fields| < |buf|
    requires Agrees(DecodeItems(l, depth + 1, |fields|, buf[1..], used + VALUE_SLOT_BYTES * |fields|), fields, rest)
    ensures Agrees(DecodeStructBody(l, depth, |fields|, buf, used), Struct(buf[0], fields), rest)
  {
    hide DecodeItems;
  }

  lemma MapAgrees(l: Limits, depth: nat, count: nat, buf: seq<byte>, used: nat, entries: seq<Entry>, rest: seq<byte>)
    requires 2 * count <= |buf|
    requires Agrees(DecodeEntries(l, depth + 1, count, [], buf, used + MAP_ENTRY_HEAP_BYTES * count), entries, rest)
    ensures Agrees(DecodeMapBody(l, depth, count, buf, used), Map(entries), rest)
  {
    hide DecodeEntries;
  }

  lemma LeafIsDecoded(l: Limits, depth: nat, buf: seq<byte>, used: nat, h: nat, v: Value, rest: seq<byte>)
    requires depth <= MAX_NESTING_DEPTH && 1 <= h <= |buf| && ReadsAt(buf, h, v, rest)
    requires !v.List? && !v.Struct? && !v.Map?
    ensures Agrees(DecodeInner(l, depth, buf, used), v, rest)
  {
    hide DecodeHead, DecodeStringBody, DecodeBytesBody, ValidUtf8, Spells, Announces;
    match v
    case String(s) =>
      AnnouncedIsRead(buf, h, StringKind, |s|);
      TextAgrees(l, s, rest, used);
    case Bytes(data) =>
      AnnouncedIsRead(buf, h, BytesKind, |data|);
      TextAgrees(l, data, rest, used);
    case _ => SpelledIsRead(buf, h, v);
  }

  /**
   Every reading is the one the decoder finds, unless nesting, a length or the heap is over its limit. So bytes have at
   most one reading, and any other error is reported only for bytes that have none.
   */
  lemma {:induction false} ReadingIsDecoded(l: Limits, depth: nat, buf: seq<byte>, used: nat, v: Value, rest: seq<byte>)
    requires Reads(buf, v, rest)
    ensures Agrees(DecodeInner(l, depth, buf, used), v, rest)
    decreases |buf|, 0, 0
  {
    hide DecodeHead, DecodeItems, DecodeEntries, DecodeStringBody, DecodeBytesBody, DecodeListBody, DecodeStructBody,
      DecodeMapBody, ValidUtf8, Spells, Announces, ReadsItems, ReadsPairs, IsMapOf;
    if depth <= MAX_NESTING_DEPTH {
      var h :| 1 <= h <= |buf| && ReadsAt(buf, h, v, rest);
      var body := buf[h..];
      match v
      case List(items) =>
        AnnouncedIsRead(buf, h, ListKind, |items|);
        ItemsTakeBytes(body, items, rest);
        ItemsAreDecoded(l, depth + 1, body, used + VALUE_SLOT_BYTES * |items|, items, rest);
        ListAgrees(l, depth, body, used, items, rest);
      case Struct(tag, fields) =>
        AnnouncedIsRead(buf, h, StructKind, |fields|);
        ItemsTakeBytes(body[1..], fields, rest);
        ItemsAreDecoded(l, depth + 1, body[1..], used + VALUE_SLOT_BYTES * |fields|, fields, rest);
        StructAgrees(l, depth, body, used, fields, rest);
      case Map(entries) =>
        var pairs: seq<Entry> :| Announces(buf[..h], MapKind, |pairs|) && ReadsPairs(body, pairs, rest) && IsMapOf(entries, pairs);
        AnnouncedIsRead(buf, h, MapKind, |pairs|);
        PairsTakeBytes(body, pairs, rest);
        NoPairs();
        assert [] + pairs == pairs;
        PairsAreDecoded(l, depth + 1, [], [], body, used + MAP_ENTRY_HEAP_BYTES * |pairs|, pairs, entries, rest);
        MapAgrees(l, depth, |pairs|, body, used, entries, rest);
      case _ => LeafIsDecoded(l, depth, buf, used, h, v, rest);
    }
  }

  lemma {:induction false} ItemsAreDecoded(l: Limits, depth: nat, buf: seq<byte>, used: nat, items: seq<Value>, rest: seq<byte>)
    requires ReadsItems(buf, items, rest)
    ensures Agrees(DecodeItems(l, depth, |items|, buf, used), items, rest)
    decreases |buf|, 1, |items|
  {
    hide DecodeInner, Reads;
    if items != [] {
      var n := FirstItem(buf, items, rest);
      ReadingIsDecoded(l, depth, buf, used, items[0], buf[n..]);
      var first := DecodeInner(l, depth, buf, used);
      if first.Got? {
        ItemsAreDecoded(l, depth, buf[n..], first.used, items[1..], rest);
        assert [items[0]] + items[1..] == items;
      }
    }
  }

  lemma {:induction false} PairsAreDecoded(l: Limits, depth: nat, done: seq<Entry>, before: seq<Entry>, buf: seq<byte>, used: nat,
                                           pairs: seq<Entry>, entries: seq<Entry>, rest: seq<byte>)
    requires IsMapOf(done, before) && ReadsPairs(buf, pairs, rest) && IsMapOf(entries, before + pairs)
    ensures Agrees(DecodeEntries(l, depth, |pairs|, done, buf, used), entries, rest)
    decreases |buf|, 1, |pairs|
  {
    hide DecodeInner, Reads, Put, IsMapOf;
    if pairs == [] {
      assert before + pairs == before;
      MapIsUnique(done, entries, before);
    } else {
      var next := pairs[0];
      var n, m := FirstPair(buf, pairs, rest);
      ReadingIsDecoded(l, depth, buf, used, String(next.key), buf[n..]);
      var k := DecodeInner(l, depth, buf, used);
      if k.Got? {
        ReadingIsDecoded(l, depth, buf[n..], k.used, next.value, buf[m..]);
        var v := DecodeInner(l, depth, buf[n..], k.used);
        if v.Got? {
          PutIsMapOf(done, before, next);
          assert (before + [next]) + pairs[1..] == before + pairs;
          PairsAreDecoded(l, depth, Put(done, next.key, next.value), before + [next], buf[m..], v.used, pairs[1..], entries, rest);
        }
      }
    }
  }

  ghost predicate IsTheReading(buf: seq<byte>, v: Value, rest: seq<byte>) {
    Reads(buf, v, rest) && forall v', rest' | Reads(buf, v', rest') :: v' == v && rest' == rest
  }

  ghost predicate HasReading(buf: seq<byte>) {
    exists v, rest :: Reads(buf, v, rest)
  }

  /** The messages that decode are exactly those with a reading the limits allow. */
  lemma DecodesExactlyWhen(buf: seq<byte>, maxLen: nat)
    ensures var s := DecodeWithLimit(buf, maxLen);
            && (s.Got? ==> IsTheReading(buf, s.value, s.rest))
            && (s.Fail? ==> IsLimit(s.error) || !HasReading(buf))
  {
    hide DecodeInner, Reads;
    var l := ForMessage(|buf|, maxLen);
    DecodeReads(l, 0, buf, 0);
    forall v, rest | Reads(buf, v, rest) ensures Agrees(DecodeInner(l, 0, buf, 0), v, rest) {
      ReadingIsDecoded(l, 0, buf, 0, v, rest);
    }
  }
}
