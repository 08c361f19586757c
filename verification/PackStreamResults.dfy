/** The codec's main results, for every value, every byte string and every limit. */
module PackStreamResults {
  import opened BigEndian
  import opened PackStream
  import opened PackStreamTheorems
  import opened PackStreamSoundness

  // ---- measures against bytes ----

  /** Values, announced lengths and payloads are all paid for in bytes. */
  predicate PaidFor(w: Weight, bytes: nat) {
    w.nodes <= bytes && w.widest <= bytes && w.longest <= bytes
  }

  lemma {:induction false} ValuePaidFor(v: Value)
    requires WellFormed(v)
    ensures PaidFor(Weigh(v), |Encode(v)|)
    decreases v, 1
  {
    hide Header, EncodeInt, U64, EncodeItems, EncodeEntries, WeighItems, WeighEntries;
    match v
    case List(items) => ItemsPaidFor(items);
    case Map(entries) => EntriesPaidFor(entries);
    case Struct(_, fields) => ItemsPaidFor(fields);
    case _ =>
  }

  lemma {:induction false} ItemsPaidFor(items: seq<Value>)
    requires forall i | 0 <= i < |items| :: WellFormed(items[i])
    ensures PaidFor(WeighItems(items), |EncodeItems(items)|)
    decreases items, 0
  {
    hide Encode, Weigh;
    if items != [] {
      ValuePaidFor(items[0]);
      ItemsPaidFor(items[1..]);
    }
  }

  lemma {:induction false} EntriesPaidFor(entries: seq<Entry>)
    requires forall i | 0 <= i < |entries| :: WellFormed(entries[i].value)
    ensures PaidFor(WeighEntries(entries), |EncodeEntries(entries)|)
    decreases entries, 0
  {
    hide Encode, Weigh, Header;
    if entries != [] {
      ValuePaidFor(entries[0].value);
      EntriesPaidFor(entries[1..]);
    }
  }

  // ---- round trip with exact admission ----

  ghost predicate RoundTrips(v: Value, maxLen: nat)
    requires WellFormed(v)
  {
    DecodeWithLimit(Encode(v), maxLen) == Got(v, [], Weigh(v).heap)
  }

  /**
   Decoding what was encoded gives back the value, consumes every byte and charges exactly its heap, if and only if no
   string or byte payload is cut to 32 bits, containers nest at most 128 deep, no length exceeds the bound, and the
   heap fits the base plus eight bytes per wire byte.
   */
  lemma RoundTripExactlyWhen(v: Value, maxLen: nat)
    requires WellFormed(v) && Encodable(v)
    ensures RoundTrips(v, maxLen) <==>
            && Weigh(v).longest <= U32_MAX
            && Fits(ForMessage(|Encode(v)|, maxLen), Weigh(v), 0, 0)
  {
    hide Encode, Weigh, WellFormed, Encodable, DecodeInner;
    var l := ForMessage(|Encode(v)|, maxLen);
    if Weigh(v).longest <= U32_MAX {
      RoundTrip(l, v, [], 0, 0);
      assert Encode(v) + [] == Encode(v);
    } else if RoundTrips(v, maxLen) {
      DecodeIsSound(l, 0, Encode(v), 0);
      assert false;
    }
  }

  /** Null inside so many lists. */
  function Nested(lists: nat): Value {
    if lists == 0 then Null else List([Nested(lists - 1)])
  }

  lemma {:induction false} NestedWeighs(lists: nat)
    ensures WellFormed(Nested(lists)) && Encodable(Nested(lists)) && Weigh(Nested(lists)).height == lists
  {
    hide Weigh, WellFormed, Encodable;
    if lists == 0 {
      NullWeighs();
    } else {
      NestedWeighs(lists - 1);
      WrappedWeighs(Nested(lists - 1));
    }
  }

  lemma NullWeighs()
    ensures WellFormed(Null) && Encodable(Null) && Weigh(Null).height == 0
  {
  }

  lemma WrappedWeighs(v: Value)
    requires WellFormed(v) && Encodable(v)
    ensures WellFormed(List([v])) && Encodable(List([v])) && Weigh(List([v])).height == 1 + Weigh(v).height
  {
    hide WellFormed, Encodable, Encode, EncodeItems, Weigh, WeighItems;
    WrappedIsGood(v);
    ListWeighs([v]);
    UnfoldItems([v]);
  }

  lemma ListWeighs(items: seq<Value>)
    ensures Weigh(List(items)) == Container(VALUE_SLOT_BYTES * |items|, |items|, WeighItems(items))
  {
    hide WeighItems;
  }

  lemma WrappedIsGood(v: Value)
    requires WellFormed(v) && Encodable(v)
    ensures WellFormed(List([v])) && Encodable(List([v]))
  {
    hide Encode, Weigh;
  }

  /** A list 129 deep is encoded, and refused by the decoder whatever the bound. */
  lemma TooDeepDoesNotReturn(maxLen: nat)
    ensures WellFormed(Nested(129)) && Encodable(Nested(129)) && !RoundTrips(Nested(129), maxLen)
  {
    hide Encode, Weigh, WellFormed, Encodable, DecodeInner, Nested;
    NestedWeighs(129);
    RoundTripExactlyWhen(Nested(129), maxLen);
  }

  /** A byte string of 4 GiB or more is encoded under a shorter length, and never comes back. */
  lemma CutLengthDoesNotReturn(data: seq<byte>, maxLen: nat)
    requires |data| > U32_MAX
    ensures WellFormed(Bytes(data)) && Encodable(Bytes(data)) && !RoundTrips(Bytes(data), maxLen)
  {
    hide Encode, DecodeInner;
    RoundTripExactlyWhen(Bytes(data), maxLen);
  }

  /** For a message within the length bound, the container bound never matters. */
  lemma MessageRoundTripExactlyWhen(v: Value, maxLen: nat)
    requires WellFormed(v) && Encodable(v) && |Encode(v)| <= maxLen
    ensures RoundTrips(v, maxLen) <==>
            && Weigh(v).longest <= U32_MAX
            && Weigh(v).height <= 128
            && Weigh(v).heap <= 2 * 1024 * 1024 + 8 * |Encode(v)|
  {
    hide Encode, Weigh, WellFormed, Encodable, DecodeInner;
    RoundTripExactlyWhen(v, maxLen);
    ValuePaidFor(v);
  }

  /** A shape whose heap stays below eight bytes per wire byte decodes at any size. */
  lemma CheapShapeDecodes(v: Value, maxLen: nat)
    requires WellFormed(v) && Encodable(v) && |Encode(v)| <= maxLen
    requires Weigh(v).longest <= U32_MAX && Weigh(v).height <= MAX_NESTING_DEPTH
    requires Weigh(v).heap <= DECODE_HEAP_BASE_BYTES || Weigh(v).heap <= DECODE_HEAP_BYTES_PER_WIRE_BYTE * |Encode(v)|
    ensures RoundTrips(v, maxLen)
  {
    hide Encode, Weigh, WellFormed, Encodable, DecodeInner;
    MessageRoundTripExactlyWhen(v, maxLen);
    ValuePaidFor(v);
  }

  ghost predicate Floats(items: seq<Value>) {
    forall i | 0 <= i < |items| :: items[i].Float? && items[i].bits < 0x1_0000_0000_0000_0000
  }

  lemma FloatWeighs(v: Value)
    requires v.Float? && v.bits < 0x1_0000_0000_0000_0000
    ensures WellFormed(v) && Encodable(v) && |Encode(v)| == 9 && Weigh(v) == Weight(0, 0, 0, 0, 1)
  {
  }

  lemma NothingWeighs()
    ensures EncodeItems([]) == [] && WeighItems([]) == Weight(0, 0, 0, 0, 0)
  {
  }

  lemma {:induction false} FloatsWeigh(items: seq<Value>)
    requires Floats(items)
    ensures forall i | 0 <= i < |items| :: WellFormed(items[i]) && Encodable(items[i])
    ensures |EncodeItems(items)| == 9 * |items|
    ensures WeighItems(items).heap == 0 && WeighItems(items).height == 0 && WeighItems(items).longest == 0
  {
    hide Encode, Weigh, WellFormed, Encodable, EncodeItems, WeighItems;
    forall i | 0 <= i < |items| ensures WellFormed(items[i]) && Encodable(items[i]) {
      FloatWeighs(items[i]);
    }
    if items == [] {
      NothingWeighs();
    } else {
      FloatWeighs(items[0]);
      FloatsWeigh(items[1..]);
      UnfoldItems(items);
    }
  }

  lemma FloatListWeighs(v: Value)
    requires v.List? && Floats(v.items) && |v.items| <= U32_MAX
    ensures WellFormed(v) && Encodable(v)
    ensures |Encode(v)| >= 1 + 9 * |v.items|
    ensures Weigh(v).heap == VALUE_SLOT_BYTES * |v.items| && Weigh(v).height <= 1 && Weigh(v).longest == 0
  {
    hide Header, EncodeItems, WeighItems;
    FloatsWeigh(v.items);
    assert Encode(v) == Header(ListKind, |v.items|) + EncodeItems(v.items);
    assert Weigh(v) == Container(VALUE_SLOT_BYTES * |v.items|, |v.items|, WeighItems(v.items));
  }

  /** Every list of floats decodes, however long, as long as its encoding fits the bound. */
  lemma FloatListDecodes(items: seq<Value>, maxLen: nat)
    requires Floats(items) && |items| <= U32_MAX
    requires WellFormed(List(items)) && |Encode(List(items))| <= maxLen
    ensures RoundTrips(List(items), maxLen)
  {
    hide Encode, Weigh, WellFormed, Encodable, DecodeInner;
    FloatListWeighs(List(items));
    CheapShapeDecodes(List(items), maxLen);
  }

  ghost predicate FloatRows(rows: seq<Value>) {
    forall i | 0 <= i < |rows| :: rows[i].List? && rows[i].items != [] && Floats(rows[i].items) && |rows[i].items| <= U32_MAX
  }

  lemma {:induction false} FloatRowsWeigh(rows: seq<Value>)
    requires FloatRows(rows)
    ensures forall i | 0 <= i < |rows| :: WellFormed(rows[i]) && Encodable(rows[i])
    ensures VALUE_SLOT_BYTES * |rows| + WeighItems(rows).heap <= DECODE_HEAP_BYTES_PER_WIRE_BYTE * |EncodeItems(rows)|
    ensures WeighItems(rows).height <= 1 && WeighItems(rows).longest == 0
  {
    if rows != [] {
      hide Encode, Weigh, WellFormed, Encodable;
      FloatListWeighs(rows[0]);
      FloatRowsWeigh(rows[1..]);
    }
  }

  /** Every batch of non-empty float vectors decodes, however large, as long as its encoding fits the bound. */
  lemma FloatMatrixDecodes(rows: seq<Value>, maxLen: nat)
    requires FloatRows(rows) && |rows| <= U32_MAX
    requires WellFormed(List(rows)) && |Encode(List(rows))| <= maxLen
    ensures RoundTrips(List(rows), maxLen)
  {
    hide Header, EncodeItems, WeighItems, DecodeInner;
    FloatRowsWeigh(rows);
    CheapShapeDecodes(List(rows), maxLen);
  }

  // ---- arbitrary bytes ----

  /**
   Whatever the bytes: a successful decode consumes a prefix, builds a well-formed value of no more values than bytes
   consumed, stays inside the nesting, length and heap limits, and its canonical re-encoding is no longer than what was
   consumed, even against wide length forms and repeated map keys.
   */
  lemma AnyDecode(buf: seq<byte>, maxLen: nat)
    ensures var s := DecodeWithLimit(buf, maxLen);
            s.Got? ==>
              && Suffix(s.rest, buf)
              && WellFormed(s.value) && Encodable(s.value)
              && Weigh(s.value).nodes <= |Encode(s.value)| <= |buf| - |s.rest|
              && Weigh(s.value).heap <= s.used <= 2 * 1024 * 1024 + 8 * (if |buf| <= maxLen then |buf| else maxLen)
              && Weigh(s.value).height <= 128
              && Weigh(s.value).widest <= maxLen
  {
    hide Encode, Weigh, WellFormed, Encodable, DecodeInner;
    DecodeIsSound(ForMessage(|buf|, maxLen), 0, buf, 0);
    var s := DecodeWithLimit(buf, maxLen);
    if s.Got? {
      ValuePaidFor(s.value);
    }
  }

  // ---- request tags ----

  /** The tag of a request frame, read from its first bytes without decoding. */
  function RawRequestTag(body: seq<byte>): int {
    if |body| >= 2 && 0xB0 <= body[0] <= 0xBF then body[1]
    else if |body| >= 3 && body[0] == 0xDC then body[2]
    else if |body| >= 4 && body[0] == 0xDD then body[3]
    else -1
  }

  /** Frames that may bypass the shared memory budget: PULL, DISCARD, COMMIT, ROLLBACK, RESET, GOODBYE, LOGOFF. */
  predicate IsPressureRelief(body: seq<byte>) {
    RawRequestTag(body) in {0x3F, 0x2F, 0x12, 0x13, 0x0F, 0x02, 0x6B}
  }

  /** The peeked tag is the tag the full decode reports, on every body and under every limit. */
  lemma RawTagAgrees(body: seq<byte>, maxLen: nat)
    ensures var s := DecodeWithLimit(body, maxLen);
            s.Got? ==> RawRequestTag(body) == if s.value.Struct? then s.value.tag else -1
  {
    hide DecodeHead, DecodeItems, DecodeEntries, ValidUtf8, RawRequestTag;
    StructHeadBytes(body);
    var l := ForMessage(|body|, maxLen);
    match DecodeHead(body)
    case Scalar(_, _) =>
    case BadHead(_) =>
    case Sized(kind, len, rest) =>
      match kind
      case StringKind => assert DecodeWithLimit(body, maxLen) == DecodeStringBody(l, len, rest, 0);
      case BytesKind => assert DecodeWithLimit(body, maxLen) == DecodeBytesBody(l, len, rest, 0);
      case ListKind => assert DecodeWithLimit(body, maxLen) == DecodeListBody(l, 0, len, rest, 0);
      case MapKind => assert DecodeWithLimit(body, maxLen) == DecodeMapBody(l, 0, len, rest, 0);
      case StructKind => assert DecodeWithLimit(body, maxLen) == DecodeStructBody(l, 0, len, rest, 0);
  }

  lemma StructHeadBytes(body: seq<byte>)
    ensures var h := DecodeHead(body);
            && (h.Sized? && h.kind == StructKind && h.rest != [] ==> RawRequestTag(body) == h.rest[0])
            && (!h.BadHead? && !(h.Sized? && h.kind == StructKind) ==> RawRequestTag(body) == -1)
            && (h.Scalar? ==> !h.value.Struct?)
  {
    hide ScalarHead, SizedHead;
    if body != [] {
      if IsScalarMarker(body[0]) {
        ScalarHeadIsScalar(body[0], body[1..]);
      } else {
        SizedHeadTag(body[0], body[1..]);
      }
    }
  }

  lemma ScalarHeadIsScalar(m: byte, r: seq<byte>)
    requires IsScalarMarker(m)
    ensures var h := ScalarHead(m, r); h.BadHead? || (h.Scalar? && !h.value.Struct?)
  {
  }

  lemma SizedHeadTag(m: byte, r: seq<byte>)
    ensures var h := SizedHead(m, r);
            && (h.Sized? && h.kind == StructKind ==>
                  || (0xB0 <= m <= 0xBF && h.rest == r)
                  || (m == 0xDC && |r| >= 1 && h.rest == r[1..])
                  || (m == 0xDD && |r| >= 2 && h.rest == r[2..]))
            && (h.Sized? && h.kind != StructKind ==> !(0xB0 <= m <= 0xBF) && m != 0xDC && m != 0xDD)
  {
  }
}
