/** Bytes and big-endian integers. */
module BigEndian {

  type byte = x: int | 0 <= x < 0x100

  function U16(n: int): (s: seq<byte>)
    requires 0 <= n < 0x1_0000
    ensures |s| == 2
  {
    [n / 0x100, n % 0x100]
  }

  function U32(n: int): (s: seq<byte>)
    requires 0 <= n < 0x1_0000_0000
    ensures |s| == 4
  {
    U16(n / 0x1_0000) + U16(n % 0x1_0000)
  }

  function U64(n: int): (s: seq<byte>)
    requires 0 <= n < 0x1_0000_0000_0000_0000
    ensures |s| == 8
  {
    U32(n / 0x1_0000_0000) + U32(n % 0x1_0000_0000)
  }

  function Get16(s: seq<byte>): (n: int)
    requires |s| >= 2
    ensures 0 <= n < 0x1_0000
  {
    (s[0] as int) * 0x100 + s[1]
  }

  function Get32(s: seq<byte>): (n: int)
    requires |s| >= 4
    ensures 0 <= n < 0x1_0000_0000
  {
    Get16(s) * 0x1_0000 + Get16(s[2..])
  }

  function Get64(s: seq<byte>): (n: int)
    requires |s| >= 8
    ensures 0 <= n < 0x1_0000_0000_0000_0000
  {
    Get32(s) * 0x1_0000_0000 + Get32(s[4..])
  }

  lemma Get16U16(n: int, tail: seq<byte>)
    requires 0 <= n < 0x1_0000
    ensures Get16(U16(n) + tail) == n
  {
  }

  lemma Get32U32(n: int, tail: seq<byte>)
    requires 0 <= n < 0x1_0000_0000
    ensures Get32(U32(n) + tail) == n
  {
  }

  lemma Get64U64(n: int, tail: seq<byte>)
    requires 0 <= n < 0x1_0000_0000_0000_0000
    ensures Get64(U64(n) + tail) == n
  {
  }

  /** Two's complement of a value of `2 * half` states. */
  function Unsigned(n: int, half: nat): int {
    if n < 0 then n + 2 * half else n
  }

  function Signed(u: int, half: nat): int {
    if u >= half then u - 2 * half else u
  }
}

/**
 The PackStream codec as functions.

 A string is its UTF-8 bytes, a float its 64-bit pattern, and a map the sequence of its entries in key order, as a
 B-tree map iterates them.
 */
module PackStream {
  import opened BigEndian

  const MAX_NESTING_DEPTH: nat := 128
  const DECODE_HEAP_BASE_BYTES: nat := 2 * 1024 * 1024
  const DECODE_HEAP_BYTES_PER_WIRE_BYTE: nat := 8
  const VALUE_SLOT_BYTES: nat := 32
  const MAP_ENTRY_HEAP_BYTES: nat := 128
  const U16_MAX: nat := 0xFFFF
  const U32_MAX: nat := 0xFFFF_FFFF

  datatype Value =
    | Null
    | Bool(b: bool)
    | Int(n: int)
    | Float(bits: nat)
    | String(utf8: seq<byte>)
    | Bytes(data: seq<byte>)
    | List(items: seq<Value>)
    | Map(entries: seq<Entry>)
    | Struct(tag: byte, fields: seq<Value>)

  datatype Entry = Entry(key: seq<byte>, value: Value)

  datatype DecodeError =
    | UnexpectedEof
    | InvalidMarker(marker: byte)
    | InvalidUtf8
    | TooLarge(len: nat, max: nat)
    | DecodedTooLarge(estimated: nat, max: nat, wireBytes: nat)
    | NestingTooDeep
    | KeyNotString

  // ---- strings ----

  predicate Continuation(b: byte) {
    0x80 <= b <= 0xBF
  }

  /** The length of the scalar a well-formed sequence starts with, or 0. */
  function ScalarLen(s: seq<byte>): (n: nat)
    ensures n <= |s|
  {
    if |s| >= 1 && s[0] <= 0x7F then 1
    else if |s| >= 2 && 0xC2 <= s[0] <= 0xDF && Continuation(s[1]) then 2
    else if |s| >= 3 && 0xE0 <= s[0] <= 0xEF && Continuation(s[1]) && Continuation(s[2])
            && (s[0] == 0xE0 ==> s[1] >= 0xA0) && (s[0] == 0xED ==> s[1] <= 0x9F) then 3
    else if |s| >= 4 && 0xF0 <= s[0] <= 0xF4 && Continuation(s[1]) && Continuation(s[2]) && Continuation(s[3])
            && (s[0] == 0xF0 ==> s[1] >= 0x90) && (s[0] == 0xF4 ==> s[1] <= 0x8F) then 4
    else 0
  }

  /** Well-formed UTF-8 (RFC 3629, section 4). */
  predicate ValidUtf8(s: seq<byte>)
    decreases |s|
  {
    s == [] || (ScalarLen(s) > 0 && ValidUtf8(s[ScalarLen(s)..]))
  }

  /** Key order: bytewise lexicographic. */
  predicate KeyLess(a: seq<byte>, b: seq<byte>) {
    b != [] && (a == [] || a[0] < b[0] || (a[0] == b[0] && KeyLess(a[1..], b[1..])))
  }

  ghost predicate KeysAscend(entries: seq<Entry>) {
    forall i, j | 0 <= i < j < |entries| :: KeyLess(entries[i].key, entries[j].key)
  }

  // ---- well-formed values ----

  ghost predicate WellFormed(v: Value)
    decreases v
  {
    match v
    case Null => true
    case Bool(_) => true
    case Int(n) => -0x8000_0000_0000_0000 <= n < 0x8000_0000_0000_0000
    case Float(bits) => bits < 0x1_0000_0000_0000_0000
    case String(s) => ValidUtf8(s)
    case Bytes(_) => true
    case List(items) => forall i | 0 <= i < |items| :: WellFormed(items[i])
    case Map(entries) =>
      && KeysAscend(entries)
      && forall i | 0 <= i < |entries| :: ValidUtf8(entries[i].key) && WellFormed(entries[i].value)
    case Struct(_, fields) => forall i | 0 <= i < |fields| :: WellFormed(fields[i])
  }

  /** The container sizes the encoder accepts; it reports anything larger as too large. */
  ghost predicate Encodable(v: Value)
    decreases v
  {
    match v
    case List(items) => |items| <= U32_MAX && forall i | 0 <= i < |items| :: Encodable(items[i])
    case Map(entries) => |entries| <= U32_MAX && forall i | 0 <= i < |entries| :: Encodable(entries[i].value)
    case Struct(_, fields) => |fields| <= U16_MAX && forall i | 0 <= i < |fields| :: Encodable(fields[i])
    case _ => true
  }

  // ---- encoding ----

  datatype Kind = StringKind | BytesKind | ListKind | MapKind | StructKind

  /** The marker of a kind with a 1-, 2- or 4-byte length. */
  function Marker(kind: Kind, width: nat): byte
    requires width in {1, 2, 4} && (kind == StructKind ==> width != 4)
  {
    var offset := if width == 4 then 2 else width - 1;
    match kind
    case StringKind => 0xD0 + offset
    case BytesKind => 0xCC + offset
    case ListKind => 0xD4 + offset
    case MapKind => 0xD8 + offset
    case StructKind => 0xDC + offset
  }

  /** The marker with a 4-bit length of zero; byte strings have none. */
  function TinyMarker(kind: Kind): byte
    requires kind != BytesKind
  {
    match kind
    case StringKind => 0x80
    case ListKind => 0x90
    case MapKind => 0xA0
    case StructKind => 0xB0
  }

  /** The length header of a kind; a string or byte length is cut to 32 bits without a check. */
  function Header(kind: Kind, len: nat): (h: seq<byte>)
    ensures 1 <= |h| <= 5
  {
    if len <= 15 && kind != BytesKind then [TinyMarker(kind) + len]
    else if len <= 0xFF then [Marker(kind, 1), len]
    else if len <= U16_MAX || kind == StructKind then [Marker(kind, 2)] + U16(len % 0x1_0000)
    else [Marker(kind, 4)] + U32(len % 0x1_0000_0000)
  }

  function EncodeInt(n: int): seq<byte>
    requires -0x8000_0000_0000_0000 <= n < 0x8000_0000_0000_0000
  {
    if -16 <= n <= 127 then [Unsigned(n, 0x80)]
    else if -0x80 <= n < 0x80 then [0xC8, Unsigned(n, 0x80)]
    else if -0x8000 <= n < 0x8000 then [0xC9] + U16(Unsigned(n, 0x8000))
    else if -0x8000_0000 <= n < 0x8000_0000 then [0xCA] + U32(Unsigned(n, 0x8000_0000))
    else [0xCB] + U64(Unsigned(n, 0x8000_0000_0000_0000))
  }

  function EncodeString(s: seq<byte>): seq<byte> {
    Header(StringKind, |s|) + s
  }

  function Encode(v: Value): (s: seq<byte>)
    requires WellFormed(v)
    ensures |s| >= 1
    decreases v, 1
  {
    match v
    case Null => [0xC0]
    case Bool(b) => if b then [0xC3] else [0xC2]
    case Int(n) => EncodeInt(n)
    case Float(bits) => [0xC1] + U64(bits)
    case String(s) => EncodeString(s)
    case Bytes(data) => Header(BytesKind, |data|) + data
    case List(items) => Header(ListKind, |items|) + EncodeItems(items)
    case Map(entries) => Header(MapKind, |entries|) + EncodeEntries(entries)
    case Struct(tag, fields) => Header(StructKind, |fields|) + [tag] + EncodeItems(fields)
  }

  function EncodeItems(items: seq<Value>): (s: seq<byte>)
    requires forall i | 0 <= i < |items| :: WellFormed(items[i])
    ensures |s| >= |items|
    decreases items, 0
  {
    if items == [] then [] else Encode(items[0]) + EncodeItems(items[1..])
  }

  function EncodeEntries(entries: seq<Entry>): (s: seq<byte>)
    requires forall i | 0 <= i < |entries| :: WellFormed(entries[i].value)
    ensures |s| >= 2 * |entries|
    decreases entries, 0
  {
    if entries == [] then [] else
      EncodeString(entries[0].key) + Encode(entries[0].value) + EncodeEntries(entries[1..])
  }

  // ---- decoding ----

  /** What a marker and its length bytes announce. */
  datatype Head =
    | Scalar(value: Value, rest: seq<byte>)
    | Sized(kind: Kind, len: nat, rest: seq<byte>)
    | BadHead(error: DecodeError)

  function Narrow(kind: Kind, buf: seq<byte>, width: nat): (h: Head)
    requires width in {1, 2, 4}
    ensures h.BadHead? <==> |buf| < width
    ensures !h.Scalar?
    ensures h.Sized? ==> h.kind == kind && h.rest == buf[width..]
    ensures h.Sized? ==> h.len <= if width == 1 then 0xFF else if width == 2 then U16_MAX else U32_MAX
  {
    if |buf| < width then BadHead(UnexpectedEof)
    else Sized(kind, if width == 1 then buf[0] else if width == 2 then Get16(buf) else Get32(buf), buf[width..])
  }

  /** A scalar that this many bytes after the marker can carry. */
  ghost predicate InWidth(v: Value, width: nat) {
    match v
    case Null => true
    case Bool(_) => true
    case Float(bits) => width == 8 && bits < 0x1_0000_0000_0000_0000
    case Int(n) =>
      || (width == 0 && -16 <= n <= 127)
      || (width == 1 && -0x80 <= n < 0x80)
      || (width == 2 && -0x8000 <= n < 0x8000)
      || (width == 4 && -0x8000_0000 <= n < 0x8000_0000)
      || (width == 8 && -0x8000_0000_0000_0000 <= n < 0x8000_0000_0000_0000)
    case _ => false
  }

  /** A length that this many bytes after the marker can carry. */
  ghost predicate LenInWidth(kind: Kind, len: nat, width: nat) {
    || (width == 0 && len <= 15 && kind != BytesKind)
    || (width == 1 && len <= 0xFF)
    || (width == 2 && len <= U16_MAX)
    || (width == 4 && len <= U32_MAX && kind != StructKind)
  }

  /** How many bytes follow a scalar's marker. */
  function ScalarSize(m: byte): nat {
    if m == 0xC1 || m == 0xCB then 8 else if m == 0xC8 then 1 else if m == 0xC9 then 2 else if m == 0xCA then 4 else 0
  }

  function ScalarValue(m: byte, r: seq<byte>): Value
    requires |r| >= ScalarSize(m)
  {
    if m == 0xC0 then Null
    else if m == 0xC2 then Bool(false)
    else if m == 0xC3 then Bool(true)
    else if m == 0xC1 then Float(Get64(r))
    else if m == 0xC8 then Int(Signed(r[0], 0x80))
    else if m == 0xC9 then Int(Signed(Get16(r), 0x8000))
    else if m == 0xCA then Int(Signed(Get32(r), 0x8000_0000))
    else if m == 0xCB then Int(Signed(Get64(r), 0x8000_0000_0000_0000))
    else Int(Signed(m, 0x80))
  }

  function ScalarHead(m: byte, r: seq<byte>): (h: Head)
    ensures h.BadHead? || (h.Scalar? && |h.rest| <= |r| && h.rest == r[|r| - |h.rest|..])
  {
    if |r| < ScalarSize(m) then BadHead(UnexpectedEof) else Scalar(ScalarValue(m, r), r[ScalarSize(m)..])
  }

  function SizedHead(m: byte, r: seq<byte>): (h: Head)
    ensures h.BadHead? || (h.Sized? && |h.rest| <= |r| && h.rest == r[|r| - |h.rest|..])
  {
    if 0x80 <= m <= 0x8F then Sized(StringKind, m - 0x80, r)
    else if 0x90 <= m <= 0x9F then Sized(ListKind, m - 0x90, r)
    else if 0xA0 <= m <= 0xAF then Sized(MapKind, m - 0xA0, r)
    else if 0xB0 <= m <= 0xBF then Sized(StructKind, m - 0xB0, r)
    else if m == 0xCC then Narrow(BytesKind, r, 1)
    else if m == 0xCD then Narrow(BytesKind, r, 2)
    else if m == 0xCE then Narrow(BytesKind, r, 4)
    else if m == 0xD0 then Narrow(StringKind, r, 1)
    else if m == 0xD1 then Narrow(StringKind, r, 2)
    else if m == 0xD2 then Narrow(StringKind, r, 4)
    else if m == 0xD4 then Narrow(ListKind, r, 1)
    else if m == 0xD5 then Narrow(ListKind, r, 2)
    else if m == 0xD6 then Narrow(ListKind, r, 4)
    else if m == 0xD8 then Narrow(MapKind, r, 1)
    else if m == 0xD9 then Narrow(MapKind, r, 2)
    else if m == 0xDA then Narrow(MapKind, r, 4)
    else if m == 0xDC then Narrow(StructKind, r, 1)
    else if m == 0xDD then Narrow(StructKind, r, 2)
    else BadHead(InvalidMarker(m))
  }

  lemma ScalarWidth(m: byte, r: seq<byte>)
    requires IsScalarMarker(m) && |r| >= ScalarSize(m)
    ensures InWidth(ScalarValue(m, r), ScalarSize(m))
  {
    hide Get16, Get32, Get64, Signed;
    if m == 0xC8 {
      SignedRange(r[0], 0x80);
    } else if m == 0xC9 {
      SignedRange(Get16(r), 0x8000);
    } else if m == 0xCA {
      SignedRange(Get32(r), 0x8000_0000);
    } else if m == 0xCB {
      SignedRange(Get64(r), 0x8000_0000_0000_0000);
    } else if m <= 0x7F || m >= 0xF0 {
      SignedTiny(m);
    }
  }

  lemma SignedRange(u: int, half: nat)
    requires 0 <= u < 2 * half
    ensures 0 <= Signed(u, half) + half < 2 * half
  {
  }

  lemma SignedTiny(m: byte)
    requires m <= 0x7F || m >= 0xF0
    ensures -16 <= Signed(m, 0x80) <= 127
  {
  }

  lemma SizedWidth(m: byte, r: seq<byte>)
    requires SizedHead(m, r).Sized?
    ensures LenInWidth(SizedHead(m, r).kind, SizedHead(m, r).len, |r| - |SizedHead(m, r).rest|)
  {
    hide Get16, Get32;
  }

  predicate IsScalarMarker(m: byte) {
    m <= 0x7F || m >= 0xF0 || 0xC0 <= m <= 0xC3 || 0xC8 <= m <= 0xCB
  }

  /** Read a marker and what belongs to it; a head that is not an error leaves a shorter suffix of its input. */
  function DecodeHead(buf: seq<byte>): (h: Head)
    ensures !h.BadHead? ==> |h.rest| < |buf| && h.rest == buf[|buf| - |h.rest|..]
  {
    if buf == [] then BadHead(UnexpectedEof)
    else if IsScalarMarker(buf[0]) then ScalarHead(buf[0], buf[1..])
    else SizedHead(buf[0], buf[1..])
  }

  /** The limits of one message: container length bound, heap bound, and the wire size the heap bound came from. */
  datatype Limits = Limits(maxLen: nat, maxHeap: nat, wireBytes: nat)

  function ForMessage(wireBytes: nat, maxLen: nat): Limits {
    var bounded := if wireBytes <= maxLen then wireBytes else maxLen;
    Limits(maxLen, DECODE_HEAP_BASE_BYTES + DECODE_HEAP_BYTES_PER_WIRE_BYTE * bounded, bounded)
  }

  /** A decode step: a value with the remaining bytes and the heap charged so far, or an error. */
  datatype Step<T> = Got(value: T, rest: seq<byte>, used: nat) | Fail(error: DecodeError)

  /** The checks before anything is built: the length bound, the bytes that must be present, the heap charge. */
  function Admit(l: Limits, buf: seq<byte>, len: nat, wire: nat, heap: nat, used: nat): Step<()> {
    if len > l.maxLen then Fail(TooLarge(len, l.maxLen))
    else if wire > |buf| then Fail(UnexpectedEof)
    else if used + heap > l.maxHeap then Fail(DecodedTooLarge(used + heap, l.maxHeap, l.wireBytes))
    else Got((), buf, used + heap)
  }

  /** Insert into a key-ordered map, replacing the value of an equal key. */
  function Put(entries: seq<Entry>, key: seq<byte>, value: Value): seq<Entry> {
    if entries == [] then [Entry(key, value)]
    else if KeyLess(entries[0].key, key) then [entries[0]] + Put(entries[1..], key, value)
    else if entries[0].key == key then [Entry(key, value)] + entries[1..]
    else [Entry(key, value)] + entries
  }

  function DecodeInner(l: Limits, depth: nat, buf: seq<byte>, used: nat): (s: Step<Value>)
    ensures s.Got? ==> |s.rest| < |buf|
    decreases |buf|, 0, 0
  {
    if depth > MAX_NESTING_DEPTH then Fail(NestingTooDeep) else
      match DecodeHead(buf)
      case BadHead(error) => Fail(error)
      case Scalar(value, rest) => Got(value, rest, used)
      case Sized(kind, len, rest) =>
        match kind
        case StringKind => DecodeStringBody(l, len, rest, used)
        case BytesKind => DecodeBytesBody(l, len, rest, used)
        case ListKind => DecodeListBody(l, depth, len, rest, used)
        case MapKind => DecodeMapBody(l, depth, len, rest, used)
        case StructKind => DecodeStructBody(l, depth, len, rest, used)
  }

  function DecodeStringBody(l: Limits, len: nat, buf: seq<byte>, used: nat): (s: Step<Value>)
    ensures s.Got? ==> |s.rest| <= |buf|
  {
    match Admit(l, buf, len, len, len, used)
    case Fail(error) => Fail(error)
    case Got(_, _, used') =>
      if ValidUtf8(buf[..len]) then Got(String(buf[..len]), buf[len..], used') else Fail(InvalidUtf8)
  }

  function DecodeBytesBody(l: Limits, len: nat, buf: seq<byte>, used: nat): (s: Step<Value>)
    ensures s.Got? ==> |s.rest| <= |buf|
  {
    match Admit(l, buf, len, len, len, used)
    case Fail(error) => Fail(error)
    case Got(_, _, used') => Got(Bytes(buf[..len]), buf[len..], used')
  }

  function DecodeListBody(l: Limits, depth: nat, len: nat, buf: seq<byte>, used: nat): (s: Step<Value>)
    ensures s.Got? ==> |s.rest| <= |buf|
    decreases |buf|, 2, 0
  {
    match Admit(l, buf, len, len, VALUE_SLOT_BYTES * len, used)
    case Fail(error) => Fail(error)
    case Got(_, _, used') =>
      match DecodeItems(l, depth + 1, len, buf, used')
      case Fail(error) => Fail(error)
      case Got(items, rest, used'') => Got(List(items), rest, used'')
  }

  function DecodeMapBody(l: Limits, depth: nat, len: nat, buf: seq<byte>, used: nat): (s: Step<Value>)
    ensures s.Got? ==> |s.rest| <= |buf|
    decreases |buf|, 2, 0
  {
    match Admit(l, buf, len, 2 * len, MAP_ENTRY_HEAP_BYTES * len, used)
    case Fail(error) => Fail(error)
    case Got(_, _, used') =>
      match DecodeEntries(l, depth + 1, len, [], buf, used')
      case Fail(error) => Fail(error)
      case Got(entries, rest, used'') => Got(Map(entries), rest, used'')
  }

  function DecodeStructBody(l: Limits, depth: nat, len: nat, buf: seq<byte>, used: nat): (s: Step<Value>)
    ensures s.Got? ==> |s.rest| <= |buf|
    decreases |buf|, 2, 0
  {
    if buf == [] then Fail(UnexpectedEof) else
      match Admit(l, buf[1..], len, len, VALUE_SLOT_BYTES * len, used)
      case Fail(error) => Fail(error)
      case Got(_, _, used') =>
        match DecodeItems(l, depth + 1, len, buf[1..], used')
        case Fail(error) => Fail(error)
        case Got(fields, rest, used'') => Got(Struct(buf[0], fields), rest, used'')
  }

  function DecodeItems(l: Limits, depth: nat, count: nat, buf: seq<byte>, used: nat): (s: Step<seq<Value>>)
    ensures s.Got? ==> |s.rest| <= |buf|
    decreases |buf|, 1, count
  {
    if count == 0 then Got([], buf, used) else
      match DecodeInner(l, depth, buf, used)
      case Fail(error) => Fail(error)
      case Got(item, rest, used') =>
        match DecodeItems(l, depth, count - 1, rest, used')
        case Fail(error) => Fail(error)
        case Got(items, rest', used'') => Got([item] + items, rest', used'')
  }

  function DecodeEntries(l: Limits, depth: nat, count: nat, entries: seq<Entry>, buf: seq<byte>, used: nat): (s: Step<seq<Entry>>)
    ensures s.Got? ==> |s.rest| <= |buf|
    decreases |buf|, 1, count
  {
    if count == 0 then Got(entries, buf, used) else
      match DecodeInner(l, depth, buf, used)
      case Fail(error) => Fail(error)
      case Got(key, rest, used') =>
        if !key.String? then Fail(KeyNotString) else
          match DecodeInner(l, depth, rest, used')
          case Fail(error) => Fail(error)
          case Got(value, rest', used'') => DecodeEntries(l, depth, count - 1, Put(entries, key.utf8, value), rest', used'')
  }

  function DecodeWithLimit(buf: seq<byte>, maxLen: nat): Step<Value> {
    DecodeInner(ForMessage(|buf|, maxLen), 0, buf, 0)
  }
}
