/** Round trip with exact admission, and what any successful decode guarantees. */
module PackStreamTheorems {
  import opened BigEndian
  import opened PackStream

  /**
   The measures the decoder's limits are about: heap charged for the decoded form, container nesting, the largest
   length announced, the longest string or byte payload, and the number of values (a map key counts as one).
   */
  datatype Weight = Weight(heap: nat, height: nat, widest: nat, longest: nat, nodes: nat)

  function Max(a: nat, b: nat): nat {
    if a <= b then b else a
  }

  function Join(a: Weight, b: Weight): Weight {
    Weight(a.heap + b.heap, Max(a.height, b.height), Max(a.widest, b.widest), Max(a.longest, b.longest), a.nodes + b.nodes)
  }

  function Text(len: nat): Weight {
    Weight(len, 0, len, len, 1)
  }

  function Container(own: nat, len: nat, inner: Weight): Weight {
    Weight(own + inner.heap, if len == 0 then 0 else 1 + inner.height, Max(len, inner.widest), inner.longest, 1 + inner.nodes)
  }

  function Weigh(v: Value): Weight
    decreases v, 1
  {
    match v
    case String(s) => Text(|s|)
    case Bytes(data) => Text(|data|)
    case List(items) => Container(VALUE_SLOT_BYTES * |items|, |items|, WeighItems(items))
    case Map(entries) => Container(MAP_ENTRY_HEAP_BYTES * |entries|, |entries|, WeighEntries(entries))
    case Struct(_, fields) => Container(VALUE_SLOT_BYTES * |fields|, |fields|, WeighItems(fields))
    case _ => Weight(0, 0, 0, 0, 1)
  }

  function WeighItems(items: seq<Value>): Weight
    decreases items, 0
  {
    if items == [] then Weight(0, 0, 0, 0, 0) else Join(Weigh(items[0]), WeighItems(items[1..]))
  }

  function WeighEntries(entries: seq<Entry>): Weight
    decreases entries, 0
  {
    if entries == [] then Weight(0, 0, 0, 0, 0)
    else Join(Join(Text(|entries[0].key|), Weigh(entries[0].value)), WeighEntries(entries[1..]))
  }

  /** A weight the limits admit at a depth, on top of the heap already used. */
  predicate Fits(l: Limits, w: Weight, depth: nat, used: nat) {
    depth + w.height <= MAX_NESTING_DEPTH && used + w.heap <= l.maxHeap && w.widest <= l.maxLen
  }

  // ---- heads ----

  lemma NarrowOf(kind: Kind, width: nat, len: nat, tail: seq<byte>)
    requires width in {1, 2, 4}
    requires len <= if width == 1 then 0xFF else if width == 2 then U16_MAX else U32_MAX
    ensures Narrow(kind, (if width == 1 then [len] else if width == 2 then U16(len) else U32(len)) + tail, width)
            == Sized(kind, len, tail)
  {
  }

  lemma MarkerNarrows(kind: Kind, width: nat, r: seq<byte>)
    requires width in {1, 2, 4} && (kind == StructKind ==> width != 4)
    ensures DecodeHead([Marker(kind, width)] + r) == Narrow(kind, r, width)
  {
    var buf := [Marker(kind, width)] + r;
    assert buf[1..] == r;
    assert DecodeHead(buf) == SizedHead(Marker(kind, width), r);
    match kind
    case StringKind => assert width == 1 || width == 2 || width == 4;
    case BytesKind => assert width == 1 || width == 2 || width == 4;
    case ListKind => assert width == 1 || width == 2 || width == 4;
    case MapKind => assert width == 1 || width == 2 || width == 4;
    case StructKind => assert width == 1 || width == 2;
  }

  lemma HeadOfTiny(kind: Kind, len: nat, tail: seq<byte>)
    requires len <= 15 && kind != BytesKind
    ensures DecodeHead([TinyMarker(kind) + len] + tail) == Sized(kind, len, tail)
  {
    hide ScalarHead, Narrow;
    var buf := [TinyMarker(kind) + len] + tail;
    assert buf[0] == TinyMarker(kind) + len && buf[1..] == tail;
  }

  lemma HeadOfWide(kind: Kind, width: nat, len: nat, bytes: seq<byte>, tail: seq<byte>)
    requires width in {1, 2, 4} && (kind == StructKind ==> width != 4)
    requires len <= if width == 1 then 0xFF else if width == 2 then U16_MAX else U32_MAX
    requires bytes == if width == 1 then [len] else if width == 2 then U16(len) else U32(len)
    ensures DecodeHead([Marker(kind, width)] + bytes + tail) == Sized(kind, len, tail)
  {
    assert [Marker(kind, width)] + bytes + tail == [Marker(kind, width)] + (bytes + tail);
    MarkerNarrows(kind, width, bytes + tail);
    NarrowOf(kind, width, len, tail);
  }

  lemma HeaderShape(kind: Kind, len: nat)
    requires len <= U32_MAX && (kind == StructKind ==> len <= U16_MAX) && !(len <= 15 && kind != BytesKind)
    ensures Header(kind, len) == if len <= 0xFF then [Marker(kind, 1)] + [len]
                                 else if len <= U16_MAX then [Marker(kind, 2)] + U16(len)
                                 else [Marker(kind, 4)] + U32(len)
  {
  }

  lemma HeadOfHeader(kind: Kind, len: nat, tail: seq<byte>)
    requires len <= U32_MAX && (kind == StructKind ==> len <= U16_MAX)
    ensures DecodeHead(Header(kind, len) + tail) == Sized(kind, len, tail)
  {
    if len <= 15 && kind != BytesKind {
      HeadOfTiny(kind, len, tail);
    } else {
      HeaderShape(kind, len);
      var width := if len <= 0xFF then 1 else if len <= U16_MAX then 2 else 4;
      HeadOfWide(kind, width, len, if width == 1 then [len] else if width == 2 then U16(len) else U32(len), tail);
    }
  }

  lemma HeadOfFixed(m: byte, width: nat, u: nat, bytes: seq<byte>, tail: seq<byte>)
    requires (m, width) in {(0xC8, 1), (0xC9, 2), (0xCA, 4), (0xCB, 8)}
    requires u < if width == 1 then 0x100 else if width == 2 then 0x1_0000
                 else if width == 4 then 0x1_0000_0000 else 0x1_0000_0000_0000_0000
    requires bytes == if width == 1 then [u] else if width == 2 then U16(u) else if width == 4 then U32(u) else U64(u)
    ensures DecodeHead([m] + bytes + tail)
            == Scalar(Int(Signed(u, if width == 1 then 0x80 else if width == 2 then 0x8000
                                    else if width == 4 then 0x8000_0000 else 0x8000_0000_0000_0000)), tail)
  {
    hide SizedHead, Signed, Get16, Get32, Get64, U16, U32, U64;
    assert ([m] + bytes + tail)[1..] == bytes + tail;
    assert (bytes + tail)[width..] == tail;
    if width == 2 {
      Get16U16(u, tail);
    } else if width == 4 {
      Get32U32(u, tail);
    } else if width == 8 {
      Get64U64(u, tail);
    }
  }

  lemma HeadOfTinyInt(n: int, tail: seq<byte>)
    requires -16 <= n <= 127
    ensures DecodeHead([Unsigned(n, 0x80)] + tail) == Scalar(Int(n), tail)
  {
    hide SizedHead;
    assert ([Unsigned(n, 0x80)] + tail)[1..] == tail;
  }

  lemma HeadOfInt(n: int, tail: seq<byte>)
    requires -0x8000_0000_0000_0000 <= n < 0x8000_0000_0000_0000
    ensures DecodeHead(EncodeInt(n) + tail) == Scalar(Int(n), tail)
  {
    hide DecodeHead, U16, U32, U64;
    if -16 <= n <= 127 {
      HeadOfTinyInt(n, tail);
    } else if -0x80 <= n < 0x80 {
      assert EncodeInt(n) == [0xC8] + [Unsigned(n, 0x80)];
      HeadOfFixed(0xC8, 1, Unsigned(n, 0x80), [Unsigned(n, 0x80)], tail);
    } else if -0x8000 <= n < 0x8000 {
      HeadOfFixed(0xC9, 2, Unsigned(n, 0x8000), U16(Unsigned(n, 0x8000)), tail);
    } else if -0x8000_0000 <= n < 0x8000_0000 {
      HeadOfFixed(0xCA, 4, Unsigned(n, 0x8000_0000), U32(Unsigned(n, 0x8000_0000)), tail);
    } else {
      HeadOfFixed(0xCB, 8, Unsigned(n, 0x8000_0000_0000_0000), U64(Unsigned(n, 0x8000_0000_0000_0000)), tail);
    }
  }

  lemma HeadOfFloat(bits: nat, tail: seq<byte>)
    requires bits < 0x1_0000_0000_0000_0000
    ensures DecodeHead([0xC1] + U64(bits) + tail) == Scalar(Float(bits), tail)
  {
  }

  // ---- key order ----

  lemma {:induction false} KeyLessTransitive(a: seq<byte>, b: seq<byte>, c: seq<byte>)
    requires KeyLess(a, b) && KeyLess(b, c)
    ensures KeyLess(a, c)
  {
    if a != [] && a[0] == b[0] == c[0] {
      KeyLessTransitive(a[1..], b[1..], c[1..]);
    }
  }

  lemma {:induction false} KeyLessTotal(a: seq<byte>, b: seq<byte>)
    ensures KeyLess(a, b) || KeyLess(b, a) || a == b
    ensures !(KeyLess(a, b) && KeyLess(b, a))
    ensures !KeyLess(a, a)
  {
    if a != [] && b != [] {
      KeyLessTotal(a[1..], b[1..]);
      KeyLessTotal(a[1..], a[1..]);
      if a[0] == b[0] && a[1..] == b[1..] {
        assert a == [a[0]] + a[1..] && b == [b[0]] + b[1..];
      }
    } else if a != [] {
      KeyLessTotal(a[1..], a[1..]);
    }
  }

  /** A key beyond all others is appended. */
  lemma {:induction false} PutLast(entries: seq<Entry>, key: seq<byte>, value: Value)
    requires forall i | 0 <= i < |entries| :: KeyLess(entries[i].key, key)
    ensures Put(entries, key, value) == entries + [Entry(key, value)]
  {
    if entries != [] {
      PutLast(entries[1..], key, value);
    }
  }

  // ---- round trip ----

  /** A value the encoder takes without cutting a length. */
  ghost predicate Faithful(v: Value) {
    WellFormed(v) && Encodable(v) && Weigh(v).longest <= U32_MAX
  }

  /** A decode step that succeeds with exactly this outcome when it fits, and fails otherwise. */
  ghost predicate Decodes<T(!new)>(s: Step<T>, fits: bool, value: T, rest: seq<byte>, used: nat) {
    if fits then s == Got(value, rest, used) else s.Fail?
  }

  /** Items one level down; no item, no level. */
  ghost predicate FitsInner(l: Limits, count: nat, w: Weight, depth: nat, used: nat) {
    (count > 0 ==> depth + w.height <= MAX_NESTING_DEPTH) && used + w.heap <= l.maxHeap && w.widest <= l.maxLen
  }

  lemma FitsSplit(l: Limits, count: nat, first: Weight, rest: Weight, depth: nat, used: nat)
    requires count > 0 && (count == 1 ==> rest == Weight(0, 0, 0, 0, 0))
    ensures FitsInner(l, count, Join(first, rest), depth, used)
            <==> Fits(l, first, depth, used) && FitsInner(l, count - 1, rest, depth, used + first.heap)
  {
  }

  lemma FitsJoin(l: Limits, a: Weight, b: Weight, depth: nat, used: nat)
    ensures Fits(l, Join(a, b), depth, used) <==> Fits(l, a, depth, used) && Fits(l, b, depth, used + a.heap)
  {
  }

  lemma Assoc<T>(a: seq<T>, b: seq<T>, c: seq<T>)
    ensures (a + b) + c == a + (b + c)
  {
  }

  lemma StringBody(l: Limits, s: seq<byte>, tail: seq<byte>, used: nat)
    requires ValidUtf8(s)
    ensures Decodes(DecodeStringBody(l, |s|, s + tail, used), |s| <= l.maxLen && used + |s| <= l.maxHeap,
                    String(s), tail, used + |s|)
  {
  }

  lemma BytesBody(l: Limits, s: seq<byte>, tail: seq<byte>, used: nat)
    ensures Decodes(DecodeBytesBody(l, |s|, s + tail, used), |s| <= l.maxLen && used + |s| <= l.maxHeap,
                    Bytes(s), tail, used + |s|)
  {
  }

  /** After its header a container is decoded by the body of its kind. */
  lemma SizedDecodes(l: Limits, kind: Kind, len: nat, body: seq<byte>, tail: seq<byte>, depth: nat, used: nat)
    requires depth <= MAX_NESTING_DEPTH && len <= U32_MAX && (kind == StructKind ==> len <= U16_MAX)
    ensures DecodeInner(l, depth, (Header(kind, len) + body) + tail, used)
            == match kind
               case StringKind => DecodeStringBody(l, len, body + tail, used)
               case BytesKind => DecodeBytesBody(l, len, body + tail, used)
               case ListKind => DecodeListBody(l, depth, len, body + tail, used)
               case MapKind => DecodeMapBody(l, depth, len, body + tail, used)
               case StructKind => DecodeStructBody(l, depth, len, body + tail, used)
  {
    Assoc(Header(kind, len), body, tail);
    HeadOfHeader(kind, len, body + tail);
  }

  lemma StringRoundTrip(l: Limits, s: seq<byte>, tail: seq<byte>, depth: nat, used: nat)
    requires ValidUtf8(s) && |s| <= U32_MAX
    ensures Decodes(DecodeInner(l, depth, EncodeString(s) + tail, used), Fits(l, Text(|s|), depth, used),
                    String(s), tail, used + |s|)
  {
    if depth <= MAX_NESTING_DEPTH {
      SizedDecodes(l, StringKind, |s|, s, tail, depth, used);
      StringBody(l, s, tail, used);
    }
  }

  lemma ScalarRoundTrip(l: Limits, v: Value, tail: seq<byte>, depth: nat, used: nat)
    requires Faithful(v) && used <= l.maxHeap && depth <= MAX_NESTING_DEPTH
    requires v.Null? || v.Bool? || v.Int? || v.Float?
    ensures DecodeInner(l, depth, Encode(v) + tail, used) == Got(v, tail, used)
  {
    match v
    case Null => assert (Encode(v) + tail)[1..] == tail;
    case Bool(_) => assert (Encode(v) + tail)[1..] == tail;
    case Int(n) => HeadOfInt(n, tail);
    case Float(bits) => HeadOfFloat(bits, tail);
  }

  /**
   Decoding an encoded value inside any larger buffer, at any depth, with any heap already charged: it succeeds exactly
   when the value fits, and then returns the value, consumes its bytes and charges its heap.
   */
  lemma {:induction false} RoundTrip(l: Limits, v: Value, tail: seq<byte>, depth: nat, used: nat)
    requires Faithful(v) && used <= l.maxHeap
    ensures Decodes(DecodeInner(l, depth, Encode(v) + tail, used), Fits(l, Weigh(v), depth, used),
                    v, tail, used + Weigh(v).heap)
    decreases v, 1
  {
    hide DecodeHead, DecodeListBody, DecodeMapBody, DecodeStructBody, EncodeItems, EncodeEntries, Header;
    if depth <= MAX_NESTING_DEPTH {
      match v
      case String(s) => StringRoundTrip(l, s, tail, depth, used);
      case Bytes(data) =>
        SizedDecodes(l, BytesKind, |data|, data, tail, depth, used);
        BytesBody(l, data, tail, used);
      case List(items) =>
        SizedDecodes(l, ListKind, |items|, EncodeItems(items), tail, depth, used);
        ListBody(l, items, tail, depth, used);
      case Map(entries) =>
        SizedDecodes(l, MapKind, |entries|, EncodeEntries(entries), tail, depth, used);
        MapBody(l, entries, tail, depth, used);
      case Struct(tag, fields) =>
        Assoc(Header(StructKind, |fields|), [tag], EncodeItems(fields));
        SizedDecodes(l, StructKind, |fields|, [tag] + EncodeItems(fields), tail, depth, used);
        StructBody(l, tag, fields, tail, depth, used);
      case _ => ScalarRoundTrip(l, v, tail, depth, used);
    }
  }

  lemma UnfoldList(items: seq<Value>)
    requires Faithful(List(items))
    ensures forall i | 0 <= i < |items| :: WellFormed(items[i]) && Encodable(items[i])
    ensures Weigh(List(items)) == Container(VALUE_SLOT_BYTES * |items|, |items|, WeighItems(items))
    ensures items == [] ==> WeighItems(items) == Weight(0, 0, 0, 0, 0)
  {
  }

  lemma UnfoldStruct(tag: byte, fields: seq<Value>)
    requires Faithful(Struct(tag, fields))
    ensures forall i | 0 <= i < |fields| :: WellFormed(fields[i]) && Encodable(fields[i])
    ensures Weigh(Struct(tag, fields)) == Container(VALUE_SLOT_BYTES * |fields|, |fields|, WeighItems(fields))
    ensures fields == [] ==> WeighItems(fields) == Weight(0, 0, 0, 0, 0)
  {
  }

  lemma UnfoldMap(entries: seq<Entry>)
    requires Faithful(Map(entries))
    ensures KeysAscend(entries)
    ensures forall i | 0 <= i < |entries| ::
              ValidUtf8(entries[i].key) && WellFormed(entries[i].value) && Encodable(entries[i].value)
    ensures Weigh(Map(entries)) == Container(MAP_ENTRY_HEAP_BYTES * |entries|, |entries|, WeighEntries(entries))
    ensures entries == [] ==> WeighEntries(entries) == Weight(0, 0, 0, 0, 0)
  {
  }

  lemma {:induction false} ListBody(l: Limits, items: seq<Value>, tail: seq<byte>, depth: nat, used: nat)
    requires Faithful(List(items)) && used <= l.maxHeap && depth <= MAX_NESTING_DEPTH
    ensures Decodes(DecodeListBody(l, depth, |items|, EncodeItems(items) + tail, used), Fits(l, Weigh(List(items)), depth, used),
                    List(items), tail, used + Weigh(List(items)).heap)
    decreases items, 2
  {
    hide DecodeItems, EncodeItems, Weigh, WeighItems, WellFormed, Encodable;
    UnfoldList(items);
    var charged := used + VALUE_SLOT_BYTES * |items|;
    if |items| <= l.maxLen && charged <= l.maxHeap {
      ItemsRoundTrip(l, items, tail, depth + 1, charged);
    }
  }

  lemma {:induction false} StructBody(l: Limits, tag: byte, fields: seq<Value>, tail: seq<byte>, depth: nat, used: nat)
    requires Faithful(Struct(tag, fields)) && used <= l.maxHeap && depth <= MAX_NESTING_DEPTH
    ensures Decodes(DecodeStructBody(l, depth, |fields|, ([tag] + EncodeItems(fields)) + tail, used),
                    Fits(l, Weigh(Struct(tag, fields)), depth, used),
                    Struct(tag, fields), tail, used + Weigh(Struct(tag, fields)).heap)
    decreases fields, 2
  {
    hide DecodeItems, EncodeItems, Weigh, WeighItems, WellFormed, Encodable;
    UnfoldStruct(tag, fields);
    var charged := used + VALUE_SLOT_BYTES * |fields|;
    assert (([tag] + EncodeItems(fields)) + tail)[1..] == EncodeItems(fields) + tail;
    if |fields| <= l.maxLen && charged <= l.maxHeap {
      ItemsRoundTrip(l, fields, tail, depth + 1, charged);
    }
  }

  lemma {:induction false} MapBody(l: Limits, entries: seq<Entry>, tail: seq<byte>, depth: nat, used: nat)
    requires Faithful(Map(entries)) && used <= l.maxHeap && depth <= MAX_NESTING_DEPTH
    ensures Decodes(DecodeMapBody(l, depth, |entries|, EncodeEntries(entries) + tail, used),
                    Fits(l, Weigh(Map(entries)), depth, used),
                    Map(entries), tail, used + Weigh(Map(entries)).heap)
    decreases entries, 2
  {
    hide DecodeEntries, EncodeEntries, Weigh, WeighEntries, WellFormed, Encodable, KeysAscend, ValidUtf8;
    UnfoldMap(entries);
    var charged := used + MAP_ENTRY_HEAP_BYTES * |entries|;
    if |entries| <= l.maxLen && charged <= l.maxHeap {
      assert [] + entries == entries;
      EntriesRoundTrip(l, [], entries, tail, depth + 1, charged);
    }
  }

  lemma NoItems(l: Limits, tail: seq<byte>, depth: nat, used: nat)
    ensures EncodeItems([]) + tail == tail && WeighItems([]) == Weight(0, 0, 0, 0, 0)
    ensures DecodeItems(l, depth, 0, tail, used) == Got([], tail, used)
  {
  }

  lemma UnfoldItems(items: seq<Value>)
    requires items != [] && forall i | 0 <= i < |items| :: WellFormed(items[i])
    ensures EncodeItems(items) == Encode(items[0]) + EncodeItems(items[1..])
    ensures WeighItems(items) == Join(Weigh(items[0]), WeighItems(items[1..]))
    ensures |items| == 1 ==> WeighItems(items[1..]) == Weight(0, 0, 0, 0, 0)
  {
  }

  lemma ItemsStep(l: Limits, depth: nat, count: nat, buf: seq<byte>, used: nat)
    requires count > 0
    ensures var s := DecodeItems(l, depth, count, buf, used);
            match DecodeInner(l, depth, buf, used)
            case Fail(_) => s.Fail?
            case Got(item, rest, used') =>
              match DecodeItems(l, depth, count - 1, rest, used')
              case Fail(_) => s.Fail?
              case Got(items, rest', used'') => s == Got([item] + items, rest', used'')
  {
  }

  /** One item and the rest: `x` and `xs` stand for the encodings. */
  lemma ItemsJoin(l: Limits, item: Value, items: seq<Value>, w: Weight, ws: Weight, x: seq<byte>, xs: seq<byte>, tail: seq<byte>,
                  depth: nat, used: nat)
    requires items == [] ==> ws == Weight(0, 0, 0, 0, 0)
    requires Decodes(DecodeInner(l, depth, x + (xs + tail), used), Fits(l, w, depth, used), item, xs + tail, used + w.heap)
    requires Fits(l, w, depth, used) ==>
               Decodes(DecodeItems(l, depth, |items|, xs + tail, used + w.heap),
                       FitsInner(l, |items|, ws, depth, used + w.heap), items, tail, used + w.heap + ws.heap)
    ensures Decodes(DecodeItems(l, depth, |items| + 1, (x + xs) + tail, used),
                    FitsInner(l, |items| + 1, Join(w, ws), depth, used), [item] + items, tail, used + w.heap + ws.heap)
  {
    hide DecodeInner, DecodeItems, Fits, FitsInner, Join;
    Assoc(x, xs, tail);
    FitsSplit(l, |items| + 1, w, ws, depth, used);
    ItemsStep(l, depth, |items| + 1, x + (xs + tail), used);
  }

  lemma {:induction false} ItemsRoundTrip(l: Limits, items: seq<Value>, tail: seq<byte>, depth: nat, used: nat)
    requires forall i | 0 <= i < |items| :: WellFormed(items[i]) && Encodable(items[i])
    requires WeighItems(items).longest <= U32_MAX && used <= l.maxHeap
    ensures Decodes(DecodeItems(l, depth, |items|, EncodeItems(items) + tail, used),
                    FitsInner(l, |items|, WeighItems(items), depth, used),
                    items, tail, used + WeighItems(items).heap)
    decreases items, 0
  {
    hide DecodeInner, DecodeItems, Encode, EncodeItems, Weigh, WeighItems, WellFormed, Encodable;
    if items == [] {
      NoItems(l, tail, depth, used);
    } else {
      UnfoldItems(items);
      var w, ws := Weigh(items[0]), WeighItems(items[1..]);
      RoundTrip(l, items[0], EncodeItems(items[1..]) + tail, depth, used);
      if Fits(l, w, depth, used) {
        ItemsRoundTrip(l, items[1..], tail, depth, used + w.heap);
      }
      assert items == [items[0]] + items[1..];
      ItemsJoin(l, items[0], items[1..], w, ws, Encode(items[0]), EncodeItems(items[1..]), tail, depth, used);
    }
  }

  lemma AppendEntry(done: seq<Entry>, entries: seq<Entry>)
    requires entries != [] && KeysAscend(done + entries)
    ensures Put(done, entries[0].key, entries[0].value) == done + [entries[0]]
    ensures (done + [entries[0]]) + entries[1..] == done + entries
  {
    assert (done + entries)[|done|] == entries[0];
    assert forall i | 0 <= i < |done| :: (done + entries)[i] == done[i];
    PutLast(done, entries[0].key, entries[0].value);
  }

  lemma EntriesStep(l: Limits, depth: nat, count: nat, done: seq<Entry>, buf: seq<byte>, used: nat)
    requires count > 0
    ensures var s := DecodeEntries(l, depth, count, done, buf, used);
            match DecodeInner(l, depth, buf, used)
            case Fail(error) => s.Fail?
            case Got(key, rest, used') =>
              key.String? ==>
                match DecodeInner(l, depth, rest, used')
                case Fail(error) => s.Fail?
                case Got(value, rest', used'') => s == DecodeEntries(l, depth, count - 1, Put(done, key.utf8, value), rest', used'')
  {
  }

  /** One key and one value: `k` and `x` stand for their encodings. */
  lemma EntryStep(l: Limits, done: seq<Entry>, count: nat, key: seq<byte>, value: Value, w: Weight,
                  k: seq<byte>, x: seq<byte>, rest: seq<byte>, depth: nat, used: nat)
    requires count > 0
    requires Decodes(DecodeInner(l, depth, k + (x + rest), used), Fits(l, Text(|key|), depth, used), String(key), x + rest, used + |key|)
    requires Fits(l, Text(|key|), depth, used) ==>
               Decodes(DecodeInner(l, depth, x + rest, used + |key|), Fits(l, w, depth, used + |key|), value, rest, used + |key| + w.heap)
    ensures var both := Join(Text(|key|), w);
            var s := DecodeEntries(l, depth, count, done, (k + x) + rest, used);
            if Fits(l, both, depth, used)
            then s == DecodeEntries(l, depth, count - 1, Put(done, key, value), rest, used + both.heap)
            else s.Fail?
  {
    hide DecodeInner, DecodeEntries, Put;
    Assoc(k, x, rest);
    FitsJoin(l, Text(|key|), w, depth, used);
    EntriesStep(l, depth, count, done, k + (x + rest), used);
  }

  lemma {:induction false} EntryRoundTrip(l: Limits, done: seq<Entry>, count: nat, e: Entry, rest: seq<byte>, depth: nat, used: nat)
    requires count > 0 && ValidUtf8(e.key) && |e.key| <= U32_MAX && Faithful(e.value) && used <= l.maxHeap
    ensures var w := Join(Text(|e.key|), Weigh(e.value));
            var s := DecodeEntries(l, depth, count, done, (EncodeString(e.key) + Encode(e.value)) + rest, used);
            if Fits(l, w, depth, used)
            then s == DecodeEntries(l, depth, count - 1, Put(done, e.key, e.value), rest, used + w.heap)
            else s.Fail?
    decreases e, 2
  {
    hide DecodeInner, DecodeEntries, Put, Encode, EncodeString;
    StringRoundTrip(l, e.key, Encode(e.value) + rest, depth, used);
    if Fits(l, Text(|e.key|), depth, used) {
      RoundTrip(l, e.value, rest, depth, used + |e.key|);
    }
    EntryStep(l, done, count, e.key, e.value, Weigh(e.value), EncodeString(e.key), Encode(e.value), rest, depth, used);
  }

  /** The rest of the entries after one that fits: `kx` and `xs` stand for the encodings. */
  lemma EntriesJoin(l: Limits, done: seq<Entry>, entries: seq<Entry>, w: Weight, ws: Weight,
                    kx: seq<byte>, xs: seq<byte>, tail: seq<byte>, depth: nat, used: nat)
    requires entries != [] && KeysAscend(done + entries)
    requires |entries| == 1 ==> ws == Weight(0, 0, 0, 0, 0)
    requires var e := entries[0];
             var s := DecodeEntries(l, depth, |entries|, done, kx + (xs + tail), used);
             if Fits(l, w, depth, used)
             then s == DecodeEntries(l, depth, |entries| - 1, Put(done, e.key, e.value), xs + tail, used + w.heap)
             else s.Fail?
    requires Fits(l, w, depth, used) ==>
               Decodes(DecodeEntries(l, depth, |entries| - 1, done + [entries[0]], xs + tail, used + w.heap),
                       FitsInner(l, |entries| - 1, ws, depth, used + w.heap),
                       (done + [entries[0]]) + entries[1..], tail, used + w.heap + ws.heap)
    ensures Decodes(DecodeEntries(l, depth, |entries|, done, (kx + xs) + tail, used),
                    FitsInner(l, |entries|, Join(w, ws), depth, used), done + entries, tail, used + w.heap + ws.heap)
  {
    Assoc(kx, xs, tail);
    AppendEntry(done, entries);
    FitsSplit(l, |entries|, w, ws, depth, used);
  }

  lemma UnfoldEntries(entries: seq<Entry>)
    requires entries != [] && forall i | 0 <= i < |entries| :: WellFormed(entries[i].value)
    ensures EncodeEntries(entries)
            == (EncodeString(entries[0].key) + Encode(entries[0].value)) + EncodeEntries(entries[1..])
    ensures WeighEntries(entries)
            == Join(Join(Text(|entries[0].key|), Weigh(entries[0].value)), WeighEntries(entries[1..]))
    ensures |entries| == 1 ==> WeighEntries(entries[1..]) == Weight(0, 0, 0, 0, 0)
  {
  }

  lemma NoEntries(l: Limits, done: seq<Entry>, tail: seq<byte>, depth: nat, used: nat)
    ensures EncodeEntries([]) + tail == tail && WeighEntries([]) == Weight(0, 0, 0, 0, 0)
    ensures DecodeEntries(l, depth, 0, done, tail, used) == Got(done, tail, used)
    ensures done + [] == done
  {
  }

  lemma {:induction false} EntriesRoundTrip(l: Limits, done: seq<Entry>, entries: seq<Entry>, tail: seq<byte>, depth: nat, used: nat)
    requires KeysAscend(done + entries)
    requires forall i | 0 <= i < |entries| ::
               ValidUtf8(entries[i].key) && WellFormed(entries[i].value) && Encodable(entries[i].value)
    requires WeighEntries(entries).longest <= U32_MAX && used <= l.maxHeap
    ensures Decodes(DecodeEntries(l, depth, |entries|, done, EncodeEntries(entries) + tail, used),
                    FitsInner(l, |entries|, WeighEntries(entries), depth, used),
                    done + entries, tail, used + WeighEntries(entries).heap)
    decreases entries, 0
  {
    hide DecodeInner, DecodeEntries, Put, Encode, EncodeString, EncodeEntries, Weigh, WeighEntries, KeysAscend,
      WellFormed, Encodable, ValidUtf8;
    if entries == [] {
      NoEntries(l, done, tail, depth, used);
    } else {
      var e := entries[0];
      UnfoldEntries(entries);
      var w, ws := Join(Text(|e.key|), Weigh(e.value)), WeighEntries(entries[1..]);
      EntryRoundTrip(l, done, |entries|, e, EncodeEntries(entries[1..]) + tail, depth, used);
      if Fits(l, w, depth, used) {
        AppendEntry(done, entries);
        EntriesRoundTrip(l, done + [e], entries[1..], tail, depth, used + w.heap);
      }
      EntriesJoin(l, done, entries, w, ws, EncodeString(e.key) + Encode(e.value), EncodeEntries(entries[1..]), tail, depth, used);
    }
  }
}
