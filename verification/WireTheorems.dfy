/** The encoder and the decoder keep to the wire format. */
module WireTheorems {
  import opened BigEndian
  import opened PackStream
  import opened PackStreamTheorems
  import opened PackStreamSoundness
  import opened WireFormat

  // ---- markers ----

  lemma NarrowSizes(kind: Kind, buf: seq<byte>, width: nat)
    requires buf != [] && width in {1, 2, 4} && Narrow(kind, buf[1..], width).Sized?
    ensures Sizes(buf[..1 + width], buf[0], width, Narrow(kind, buf[1..], width).len)
  {
    hide Get16, Get32, Positional;
    var r := buf[1..];
    assert buf[..1 + width][1..] == r[..width];
    if width == 1 {
      assert r[..1] == [r[0]];
      Positional1(r[0]);
    } else if width == 2 {
      Get16IsPositional(r);
    } else {
      Get32IsPositional(r);
    }
  }

  lemma SizedIsInTable(buf: seq<byte>)
    requires buf != [] && SizedHead(buf[0], buf[1..]).Sized?
    ensures var s := SizedHead(buf[0], buf[1..]);
            Announces(buf[..|buf| - |s.rest|], s.kind, s.len)
  {
    hide Narrow, Positional;
    var m, r := buf[0], buf[1..];
    if 0x80 <= m <= 0xBF {
      TinyIsInTable(buf);
    } else {
      var (kind, width) := Wide(m);
      WideHead(m, r);
      NarrowSizes(kind, buf, width);
      WideAnnounces(buf[..1 + width], Narrow(kind, r, width).len);
    }
  }

  lemma TinyIsInTable(buf: seq<byte>)
    requires buf != [] && 0x80 <= buf[0] <= 0xBF
    ensures var s := SizedHead(buf[0], buf[1..]);
            s.Sized? && s.rest == buf[1..] && Announces(buf[..1], s.kind, s.len)
  {
    hide Narrow, Sizes;
    assert buf[..1] == [buf[0]];
  }

  lemma WideHead(m: byte, r: seq<byte>)
    requires !(0x80 <= m <= 0xBF) && SizedHead(m, r).Sized?
    ensures !IsReserved(m) && 0xCC <= m <= 0xDD && SizedHead(m, r) == Narrow(Wide(m).0, r, Wide(m).1)
  {
    hide Narrow;
  }

  lemma WideAnnounces(head: seq<byte>, len: nat)
    requires head != [] && 0xCC <= head[0] <= 0xDD && !IsReserved(head[0])
    requires Sizes(head, head[0], Wide(head[0]).1, len)
    ensures Announces(head, Wide(head[0]).0, len)
  {
    hide Positional;
  }

  function Wide(m: byte): (Kind, nat) {
    if m <= 0xCE then (BytesKind, if m == 0xCC then 1 else if m == 0xCD then 2 else 4)
    else if m <= 0xD2 then (StringKind, if m == 0xD0 then 1 else if m == 0xD1 then 2 else 4)
    else if m <= 0xD6 then (ListKind, if m == 0xD4 then 1 else if m == 0xD5 then 2 else 4)
    else if m <= 0xDA then (MapKind, if m == 0xD8 then 1 else if m == 0xD9 then 2 else 4)
    else (StructKind, if m == 0xDC then 1 else 2)
  }

  lemma SignedIsTwosComplement(s: seq<byte>, u: int, half: nat)
    requires s != [] && u == Positional(s) && Span(|s|) == 2 * half && (s[0] >= 0x80 <==> u >= half)
    ensures IsTwosComplement(s, Signed(u, half))
  {
  }

  /** The sign is in the first byte. */
  lemma TopByte(s: seq<byte>)
    requires |s| in {1, 2, 4, 8}
    ensures Positional(s) < Span(|s|) && (s[0] >= 0x80 <==> 2 * Positional(s) >= Span(|s|))
  {
    assert s == s[..1] + s[1..];
    PositionalConcat(s[..1], s[1..]);
    assert s[..1] == [s[0]];
    Below(s[1..]);
    assert Span(|s|) == 0x100 * Span(|s| - 1);
    Top(s[0], Positional(s[1..]), Span(|s| - 1));
  }

  lemma Top(b: byte, low: nat, span: nat)
    requires low < span
    ensures b * span + low < 0x100 * span
    ensures b >= 0x80 <==> 2 * (b * span + low) >= 0x100 * span
  {
    Scaled(0, b, span);
    Scaled(b, 0xFF, span);
    if b >= 0x80 {
      Scaled(0x80, b, span);
    } else {
      Scaled(b, 0x7F, span);
    }
  }

  lemma Scaled(a: int, b: int, span: nat)
    requires a <= b
    ensures a * span <= b * span
  {
  }

  lemma {:induction false} Below(s: seq<byte>)
    ensures Positional(s) < Span(|s|)
  {
    if s != [] {
      Below(s[..|s| - 1]);
    }
  }

  lemma ScalarIsInTable(m: byte, r: seq<byte>)
    requires IsScalarMarker(m) && |r| >= ScalarSize(m)
    ensures Spells([m] + r[..ScalarSize(m)], ScalarValue(m, r))
  {
    hide Get16, Get32, Get64, Positional, Span, IsTwosComplement;
    var n := ScalarSize(m);
    var digits := r[..n];
    assert ([m] + digits)[1..] == digits;
    if n > 0 {
      Spans();
      TopByte(digits);
      if n == 1 {
        assert digits == [r[0]];
        Positional1(r[0]);
        SignedIsTwosComplement(digits, r[0], 0x80);
      } else if n == 2 {
        Get16IsPositional(r);
        SignedIsTwosComplement(digits, Get16(r), 0x8000);
      } else if n == 4 {
        Get32IsPositional(r);
        SignedIsTwosComplement(digits, Get32(r), 0x8000_0000);
      } else {
        Get64IsPositional(r);
        SignedIsTwosComplement(digits, Get64(r), 0x8000_0000_0000_0000);
      }
    }
  }

  /** What the decoder makes of the first bytes is what the table says, and it refuses exactly the reserved bytes. */
  lemma HeadIsInTable(buf: seq<byte>)
    ensures match DecodeHead(buf)
            case Scalar(value, rest) => Spells(buf[..|buf| - |rest|], value)
            case Sized(kind, len, rest) => Announces(buf[..|buf| - |rest|], kind, len)
            case BadHead(error) =>
              error == if buf != [] && IsReserved(buf[0]) then InvalidMarker(buf[0]) else UnexpectedEof
  {
    if buf != [] {
      hide Spells, Announces, SizedHead, DecodeHead, IsScalarMarker, IsReserved;
      var m, r := buf[0], buf[1..];
      if IsScalarMarker(m) {
        ScalarIsHead(buf);
      } else {
        SizedIsHead(buf);
        if SizedHead(m, r).Sized? {
          SizedIsInTable(buf);
        } else {
          BadMarker(m, r);
        }
      }
    }
  }

  lemma ScalarIsHead(buf: seq<byte>)
    requires buf != [] && IsScalarMarker(buf[0])
    ensures if |buf| < 1 + ScalarSize(buf[0]) then DecodeHead(buf) == BadHead(UnexpectedEof)
            else DecodeHead(buf).Scalar? && DecodeHead(buf).rest == buf[1 + ScalarSize(buf[0])..]
                 && Spells(buf[..1 + ScalarSize(buf[0])], DecodeHead(buf).value)
    ensures !IsReserved(buf[0])
  {
    hide Spells, ScalarValue;
    var m, r := buf[0], buf[1..];
    if |r| >= ScalarSize(m) {
      ScalarIsInTable(m, r);
      assert buf[..1 + ScalarSize(m)] == [m] + r[..ScalarSize(m)];
    }
  }

  lemma SizedIsHead(buf: seq<byte>)
    requires buf != [] && !IsScalarMarker(buf[0])
    ensures DecodeHead(buf) == SizedHead(buf[0], buf[1..])
  {
    hide SizedHead, IsScalarMarker;
  }

  lemma BadMarker(m: byte, r: seq<byte>)
    requires !IsScalarMarker(m) && !SizedHead(m, r).Sized?
    ensures SizedHead(m, r) == BadHead(if IsReserved(m) then InvalidMarker(m) else UnexpectedEof)
  {
  }

  // ---- maps ----

  /** Inserting sets the key and leaves every other entry as it is. */
  lemma {:induction false} PutMeans(entries: seq<Entry>, key: seq<byte>, value: Value, e: Entry)
    requires KeysAscend(entries)
    ensures e in Put(entries, key, value) <==> if e.key == key then e.value == value else e in entries
    decreases |entries|
  {
    hide KeyLess;
    if entries != [] {
      var first := entries[0].key;
      assert entries == [entries[0]] + entries[1..];
      KeyLessTotal(first, key);
      if KeyLess(first, key) {
        PutMeans(entries[1..], key, value, e);
      } else if e.key == key && e in entries {
        Ascends(entries, e);
        KeyLessTotal(first, e.key);
        KeyLessTotal(key, key);
      }
    }
  }

  lemma Ascends(entries: seq<Entry>, e: Entry)
    requires KeysAscend(entries) && e in entries
    ensures e == entries[0] || (e in entries[1..] && KeyLess(entries[0].key, e.key))
  {
    hide KeyLess;
    var i :| 0 <= i < |entries| && entries[i] == e;
    assert i > 0 ==> entries[1..][i - 1] == e;
  }

  lemma LastStep(e: Entry, pairs: seq<Entry>, next: Entry)
    ensures IsLast(e, pairs + [next]) <==> if e.key == next.key then e == next else IsLast(e, pairs)
  {
    var all := pairs + [next];
    if e == next {
      assert all[|pairs|] == e;
    }
    if e.key != next.key && IsLast(e, pairs) {
      var i :| 0 <= i < |pairs| && pairs[i] == e && forall j | i < j < |pairs| :: pairs[j].key != e.key;
      assert all[i] == e;
      assert forall j | i < j < |all| :: all[j].key != e.key;
    }
    if IsLast(e, all) {
      var i :| 0 <= i < |all| && all[i] == e && forall j | i < j < |all| :: all[j].key != e.key;
      assert all[|pairs|] == next;
      if i < |pairs| {
        assert pairs[i] == e;
        assert forall j | i < j < |pairs| :: pairs[j] == all[j];
      }
    }
  }

  lemma PutIsMapOf(entries: seq<Entry>, pairs: seq<Entry>, next: Entry)
    requires IsMapOf(entries, pairs)
    ensures IsMapOf(Put(entries, next.key, next.value), pairs + [next])
  {
    hide Put, KeysAscend, IsLast;
    var entries' := Put(entries, next.key, next.value);
    PutAscends(entries, next.key, next.value);
    forall e: Entry ensures e in entries' <==> IsLast(e, pairs + [next]) {
      PutMeans(entries, next.key, next.value, e);
      LastStep(e, pairs, next);
    }
  }

  lemma NoPairs()
    ensures IsMapOf([], [])
  {
  }

  // ---- decoding ----

  lemma HeadReads(buf: seq<byte>) returns (h: nat)
    requires !DecodeHead(buf).BadHead?
    ensures 1 <= h <= |buf| && buf[h..] == DecodeHead(buf).rest
    ensures DecodeHead(buf).Scalar? ==> Spells(buf[..h], DecodeHead(buf).value)
    ensures DecodeHead(buf).Sized? ==> Announces(buf[..h], DecodeHead(buf).kind, DecodeHead(buf).len)
  {
    hide DecodeHead, Spells, Announces;
    HeadIsInTable(buf);
    h := |buf| - |DecodeHead(buf).rest|;
  }

  lemma PayloadReads(l: Limits, depth: nat, buf: seq<byte>, used: nat, h: nat)
    requires depth <= MAX_NESTING_DEPTH && DecodeInner(l, depth, buf, used).Got?
    requires DecodeHead(buf).Scalar? || (DecodeHead(buf).Sized? && DecodeHead(buf).kind in {StringKind, BytesKind})
    requires 1 <= h <= |buf| && buf[h..] == DecodeHead(buf).rest
    requires DecodeHead(buf).Scalar? ==> Spells(buf[..h], DecodeHead(buf).value)
    requires DecodeHead(buf).Sized? ==> Announces(buf[..h], DecodeHead(buf).kind, DecodeHead(buf).len)
    ensures var s := DecodeInner(l, depth, buf, used); ReadsAt(buf, h, s.value, s.rest)
  {
    hide DecodeHead, Announces, ValidUtf8, ReadsItems, ReadsPairs;
  }

  /** Whatever the bytes: a value that decodes is the one at the front of them. */
  lemma {:induction false} DecodeReads(l: Limits, depth: nat, buf: seq<byte>, used: nat)
    ensures var s := DecodeInner(l, depth, buf, used); s.Got? ==> Reads(buf, s.value, s.rest)
    decreases |buf|, 0, 0
  {
    hide DecodeHead, DecodeItems, DecodeEntries, ValidUtf8, Spells, Announces, ReadsItems, ReadsPairs, IsMapOf;
    if depth <= MAX_NESTING_DEPTH && DecodeInner(l, depth, buf, used).Got? {
      var h := HeadReads(buf);
      var head := DecodeHead(buf);
      if head.Scalar? || head.kind in {StringKind, BytesKind} {
        PayloadReads(l, depth, buf, used, h);
      } else if head.kind == ListKind {
        assert DecodeInner(l, depth, buf, used) == DecodeListBody(l, depth, head.len, head.rest, used);
        ItemsRead(l, depth + 1, head.len, head.rest, used + VALUE_SLOT_BYTES * head.len);
        ListReads(buf, h, DecodeInner(l, depth, buf, used).value.items, DecodeInner(l, depth, buf, used).rest);
      } else if head.kind == StructKind {
        assert DecodeInner(l, depth, buf, used) == DecodeStructBody(l, depth, head.len, head.rest, used);
        ItemsRead(l, depth + 1, head.len, head.rest[1..], used + VALUE_SLOT_BYTES * head.len);
        StructReads(buf, h, DecodeInner(l, depth, buf, used).value.fields, DecodeInner(l, depth, buf, used).rest);
      } else {
        assert DecodeInner(l, depth, buf, used) == DecodeMapBody(l, depth, head.len, head.rest, used);
        NoPairs();
        var pairs := PairsRead(l, depth + 1, head.len, [], [], head.rest, used + MAP_ENTRY_HEAP_BYTES * head.len);
        assert [] + pairs == pairs;
        MapReads(buf, h, pairs, DecodeInner(l, depth, buf, used).value.entries, DecodeInner(l, depth, buf, used).rest);
      }
    }
  }

  lemma ListReads(buf: seq<byte>, h: nat, items: seq<Value>, rest: seq<byte>)
    requires 1 <= h <= |buf| && Announces(buf[..h], ListKind, |items|) && ReadsItems(buf[h..], items, rest)
    ensures Reads(buf, List(items), rest)
  {
    hide Announces, ReadsItems;
    assert ReadsAt(buf, h, List(items), rest);
  }

  lemma StructReads(buf: seq<byte>, h: nat, fields: seq<Value>, rest: seq<byte>)
    requires 1 <= h < |buf| && Announces(buf[..h], StructKind, |fields|) && ReadsItems(buf[h..][1..], fields, rest)
    ensures Reads(buf, Struct(buf[h], fields), rest)
  {
    hide Announces, ReadsItems;
    assert ReadsAt(buf, h, Struct(buf[h], fields), rest);
  }

  lemma MapReads(buf: seq<byte>, h: nat, pairs: seq<Entry>, entries: seq<Entry>, rest: seq<byte>)
    requires 1 <= h <= |buf| && Announces(buf[..h], MapKind, |pairs|) && ReadsPairs(buf[h..], pairs, rest)
    requires IsMapOf(entries, pairs)
    ensures Reads(buf, Map(entries), rest)
  {
    hide Announces, ReadsPairs, IsMapOf;
    assert ReadsAt(buf, h, Map(entries), rest);
  }

  lemma {:induction false} ItemsRead(l: Limits, depth: nat, count: nat, buf: seq<byte>, used: nat)
    ensures var s := DecodeItems(l, depth, count, buf, used);
            s.Got? ==> |s.value| == count && ReadsItems(buf, s.value, s.rest)
    decreases |buf|, 1, count
  {
    hide DecodeInner, Reads;
    if count > 0 && DecodeItems(l, depth, count, buf, used).Got? {
      DecodeReads(l, depth, buf, used);
      var first := DecodeInner(l, depth, buf, used);
      ItemsRead(l, depth, count - 1, first.rest, first.used);
      var s := DecodeItems(l, depth, count - 1, first.rest, first.used);
      ConsReads(buf, first.value, s.value, first.rest, s.rest);
    }
  }

  lemma ReadsSuffix(buf: seq<byte>, v: Value, rest: seq<byte>)
    requires Reads(buf, v, rest)
    ensures |rest| < |buf| && Suffix(rest, buf)
  {
    hide Announces, Spells, ValidUtf8, IsMapOf, ReadsItems, ReadsPairs;
    var h :| 1 <= h <= |buf| && ReadsAt(buf, h, v, rest);
    BodySuffix(buf, h, v, rest);
    DropIsSuffix(buf, h);
    SuffixTransitive(rest, buf[h..], buf);
  }

  lemma BodySuffix(buf: seq<byte>, h: nat, v: Value, rest: seq<byte>)
    requires 1 <= h <= |buf| && ReadsAt(buf, h, v, rest)
    ensures Suffix(rest, buf[h..])
  {
    hide Announces, Spells, ValidUtf8, IsMapOf, ReadsItems, ReadsPairs;
    var head, body := buf[..h], buf[h..];
    match v
    case List(items) => ItemsSuffix(body, items, rest);
    case Struct(_, fields) =>
      ItemsSuffix(body[1..], fields, rest);
      DropIsSuffix(body, 1);
      SuffixTransitive(rest, body[1..], body);
    case Map(entries) =>
      var pairs: seq<Entry> :| Announces(head, MapKind, |pairs|) && ReadsPairs(body, pairs, rest) && IsMapOf(entries, pairs);
      PairsSuffix(body, pairs, rest);
    case _ =>
  }

  lemma FirstItem(buf: seq<byte>, items: seq<Value>, rest: seq<byte>) returns (n: nat)
    requires items != [] && ReadsItems(buf, items, rest)
    ensures 1 <= n <= |buf| && Reads(buf, items[0], buf[n..]) && ReadsItems(buf[n..], items[1..], rest)
  {
    hide Reads;
    n :| 1 <= n <= |buf| && Reads(buf, items[0], buf[n..]) && ReadsItems(buf[n..], items[1..], rest);
  }

  lemma FirstPair(buf: seq<byte>, pairs: seq<Entry>, rest: seq<byte>) returns (n: nat, m: nat)
    requires pairs != [] && ReadsPairs(buf, pairs, rest)
    ensures 1 <= n < m <= |buf| && Reads(buf, String(pairs[0].key), buf[n..])
    ensures Reads(buf[n..], pairs[0].value, buf[m..]) && ReadsPairs(buf[m..], pairs[1..], rest)
  {
    hide Reads;
    n, m :| 1 <= n < m <= |buf| && Reads(buf, String(pairs[0].key), buf[n..])
            && Reads(buf[n..], pairs[0].value, buf[m..]) && ReadsPairs(buf[m..], pairs[1..], rest);
  }

  lemma DropIsSuffix(buf: seq<byte>, n: nat)
    requires n <= |buf|
    ensures Suffix(buf[n..], buf)
  {
  }

  lemma {:induction false} ItemsSuffix(buf: seq<byte>, items: seq<Value>, rest: seq<byte>)
    requires ReadsItems(buf, items, rest)
    ensures Suffix(rest, buf)
    decreases |buf|
  {
    if items == [] {
      DropIsSuffix(buf, 0);
    } else {
      hide Reads, ReadsItems, Suffix;
      var n := FirstItem(buf, items, rest);
      ItemsSuffix(buf[n..], items[1..], rest);
      DropIsSuffix(buf, n);
      SuffixTransitive(rest, buf[n..], buf);
    }
  }

  lemma {:induction false} PairsSuffix(buf: seq<byte>, pairs: seq<Entry>, rest: seq<byte>)
    requires ReadsPairs(buf, pairs, rest)
    ensures Suffix(rest, buf)
    decreases |buf|
  {
    if pairs == [] {
      DropIsSuffix(buf, 0);
    } else {
      hide Reads, ReadsPairs, Suffix;
      var n, m := FirstPair(buf, pairs, rest);
      PairsSuffix(buf[m..], pairs[1..], rest);
      DropIsSuffix(buf, m);
      SuffixTransitive(rest, buf[m..], buf);
    }
  }

  lemma ConsReads(buf: seq<byte>, v: Value, items: seq<Value>, mid: seq<byte>, rest: seq<byte>)
    requires Reads(buf, v, mid) && ReadsItems(mid, items, rest)
    ensures ReadsItems(buf, [v] + items, rest)
  {
    hide Reads;
    ReadsSuffix(buf, v, mid);
    var all := [v] + items;
    assert all[0] == v && all[1..] == items;
    assert mid == buf[|buf| - |mid|..];
  }

  lemma {:induction false} PairsRead(l: Limits, depth: nat, count: nat, done: seq<Entry>, before: seq<Entry>, buf: seq<byte>, used: nat)
    returns (pairs: seq<Entry>)
    requires IsMapOf(done, before)
    ensures var s := DecodeEntries(l, depth, count, done, buf, used);
            s.Got? ==> |pairs| == count && ReadsPairs(buf, pairs, s.rest) && IsMapOf(s.value, before + pairs)
    decreases |buf|, 1, count
  {
    hide DecodeInner, Put, Reads, IsMapOf;
    pairs := [];
    if count == 0 {
      assert before + [] == before;
    } else if DecodeEntries(l, depth, count, done, buf, used).Got? {
      DecodeReads(l, depth, buf, used);
      var k := DecodeInner(l, depth, buf, used);
      DecodeReads(l, depth, k.rest, k.used);
      var v := DecodeInner(l, depth, k.rest, k.used);
      var next := Entry(k.value.utf8, v.value);
      PutIsMapOf(done, before, next);
      var more := PairsRead(l, depth, count - 1, Put(done, next.key, next.value), before + [next], v.rest, v.used);
      pairs := [next] + more;
      assert before + pairs == (before + [next]) + more;
      var s := DecodeEntries(l, depth, count, done, buf, used);
      assert k.value == String(next.key);
      PairReads(buf, next, more, k.rest, v.rest, s.rest);
    }
  }

  lemma PairReads(buf: seq<byte>, next: Entry, pairs: seq<Entry>, mid: seq<byte>, mid': seq<byte>, rest: seq<byte>)
    requires Reads(buf, String(next.key), mid) && Reads(mid, next.value, mid') && ReadsPairs(mid', pairs, rest)
    ensures ReadsPairs(buf, [next] + pairs, rest)
  {
    hide Reads;
    ReadsSuffix(buf, String(next.key), mid);
    ReadsSuffix(mid, next.value, mid');
    var all := [next] + pairs;
    assert all[0] == next && all[1..] == pairs;
    var n, m := |buf| - |mid|, |buf| - |mid'|;
    assert mid == buf[n..] && mid' == buf[m..];
  }

  // ---- encoding ----

  lemma HeaderAnnounces(kind: Kind, len: nat)
    requires len <= U32_MAX && (kind == StructKind ==> len <= U16_MAX)
    ensures Announces(Header(kind, len), kind, len)
  {
    hide Positional, U16, U32;
    if !(len <= 15 && kind != BytesKind) {
      HeaderShape(kind, len);
      BigEndianIsPositional(len);
      if len <= 0xFF {
        Positional1(len);
        assert Header(kind, len)[1..] == [len];
      } else if len <= U16_MAX {
        assert Header(kind, len)[1..] == U16(len);
      } else {
        assert Header(kind, len)[1..] == U32(len);
      }
    }
  }

  lemma UnsignedIsTwosComplement(s: seq<byte>, n: int, half: nat)
    requires |s| in {1, 2, 4, 8} && Span(|s|) == 2 * half && 0 <= n + half < 2 * half && Positional(s) == Unsigned(n, half)
    ensures IsTwosComplement(s, n)
  {
    hide Positional, Span;
    TopByte(s);
  }

  lemma IntSpells(n: int)
    requires -0x8000_0000_0000_0000 <= n < 0x8000_0000_0000_0000
    ensures Spells(EncodeInt(n), Int(n))
  {
    hide Positional, Span, U16, U32, U64, IsTwosComplement;
    Spans();
    if -16 <= n <= 127 {
    } else if -0x80 <= n < 0x80 {
      Positional1(Unsigned(n, 0x80));
      UnsignedIsTwosComplement([Unsigned(n, 0x80)], n, 0x80);
    } else if -0x8000 <= n < 0x8000 {
      BigEndianIsPositional(Unsigned(n, 0x8000));
      UnsignedIsTwosComplement(U16(Unsigned(n, 0x8000)), n, 0x8000);
    } else if -0x8000_0000 <= n < 0x8000_0000 {
      BigEndianIsPositional(Unsigned(n, 0x8000_0000));
      UnsignedIsTwosComplement(U32(Unsigned(n, 0x8000_0000)), n, 0x8000_0000);
    } else {
      BigEndianIsPositional(Unsigned(n, 0x8000_0000_0000_0000));
      UnsignedIsTwosComplement(U64(Unsigned(n, 0x8000_0000_0000_0000)), n, 0x8000_0000_0000_0000);
    }
  }

  lemma Split(head: seq<byte>, body: seq<byte>, tail: seq<byte>)
    ensures ((head + body) + tail)[..|head|] == head && ((head + body) + tail)[|head|..] == body + tail
  {
  }

  lemma ScalarEncodes(v: Value, tail: seq<byte>)
    requires WellFormed(v) && (v.Null? || v.Bool? || v.Int? || v.Float?)
    ensures Reads(Encode(v) + tail, v, tail)
  {
    hide Positional, U64, Spells, EncodeInt;
    var s := Encode(v);
    assert Spells(s, v) by {
      if v.Int? {
        IntSpells(v.n);
      } else {
        ConstantSpells(v);
      }
    }
    assert (s + tail)[..|s|] == s && (s + tail)[|s|..] == tail;
    assert ReadsAt(s + tail, |s|, v, tail);
  }

  lemma ConstantSpells(v: Value)
    requires WellFormed(v) && (v.Null? || v.Bool? || v.Float?)
    ensures Spells(Encode(v), v)
  {
    hide Positional, U64;
    if v.Float? {
      BigEndianIsPositional(v.bits);
      assert Encode(v)[1..] == U64(v.bits);
    }
  }

  lemma StringEncodes(s: seq<byte>, tail: seq<byte>)
    requires ValidUtf8(s) && |s| <= U32_MAX
    ensures Reads(EncodeString(s) + tail, String(s), tail)
  {
    hide Header, Announces, ValidUtf8;
    var head := Header(StringKind, |s|);
    HeaderAnnounces(StringKind, |s|);
    Split(head, s, tail);
    assert ReadsAt(EncodeString(s) + tail, |head|, String(s), tail);
  }

  lemma BytesEncode(data: seq<byte>, tail: seq<byte>)
    requires |data| <= U32_MAX
    ensures Reads((Header(BytesKind, |data|) + data) + tail, Bytes(data), tail)
  {
    hide Header, Announces;
    var head := Header(BytesKind, |data|);
    HeaderAnnounces(BytesKind, |data|);
    Split(head, data, tail);
    assert ReadsAt((head + data) + tail, |head|, Bytes(data), tail);
  }

  /** What the encoder writes for a value reads as that value. */
  lemma {:induction false} EncodeReads(v: Value, tail: seq<byte>)
    requires Faithful(v)
    ensures Reads(Encode(v) + tail, v, tail)
    decreases v, 1
  {
    hide Reads, ReadsItems, ReadsPairs, Announces, Header, EncodeString, EncodeInt, EncodeItems, EncodeEntries, WeighItems,
      WeighEntries, ValidUtf8, KeysAscend;
    match v
    case String(s) => StringEncodes(s, tail);
    case Bytes(data) => BytesEncode(data, tail);
    case List(items) =>
      ItemsEncode(items, tail);
      ListEncodes(items, EncodeItems(items), tail);
    case Map(entries) =>
      EntriesEncode(entries, tail);
      MapEncodes(entries, EncodeEntries(entries), tail);
    case Struct(tag, fields) =>
      ItemsEncode(fields, tail);
      StructEncodes(tag, fields, EncodeItems(fields), tail);
    case _ => ScalarEncodes(v, tail);
  }

  /** In these three, `body` stands for the encoded contents. */
  lemma ListEncodes(items: seq<Value>, body: seq<byte>, tail: seq<byte>)
    requires |items| <= U32_MAX && ReadsItems(body + tail, items, tail)
    ensures Reads((Header(ListKind, |items|) + body) + tail, List(items), tail)
  {
    hide Reads, Header, Announces, ReadsItems;
    var head := Header(ListKind, |items|);
    HeaderAnnounces(ListKind, |items|);
    Split(head, body, tail);
    ListReads((head + body) + tail, |head|, items, tail);
  }

  lemma StructEncodes(tag: byte, fields: seq<Value>, body: seq<byte>, tail: seq<byte>)
    requires |fields| <= U16_MAX && ReadsItems(body + tail, fields, tail)
    ensures Reads(((Header(StructKind, |fields|) + [tag]) + body) + tail, Struct(tag, fields), tail)
  {
    hide Reads, Header, Announces, ReadsItems;
    var head := Header(StructKind, |fields|);
    HeaderAnnounces(StructKind, |fields|);
    Split(head, [tag] + body, tail);
    assert (head + [tag]) + body == head + ([tag] + body);
    assert (([tag] + body) + tail)[1..] == body + tail;
    StructReads((head + ([tag] + body)) + tail, |head|, fields, tail);
  }

  lemma MapEncodes(entries: seq<Entry>, body: seq<byte>, tail: seq<byte>)
    requires |entries| <= U32_MAX && KeysAscend(entries) && ReadsPairs(body + tail, entries, tail)
    ensures Reads((Header(MapKind, |entries|) + body) + tail, Map(entries), tail)
  {
    hide Reads, Header, Announces, ReadsPairs, KeysAscend, IsMapOf;
    var head := Header(MapKind, |entries|);
    HeaderAnnounces(MapKind, |entries|);
    Split(head, body, tail);
    SortedIsMapOf(entries);
    MapReads((head + body) + tail, |head|, entries, entries, tail);
  }

  lemma SortedIsMapOf(entries: seq<Entry>)
    requires KeysAscend(entries)
    ensures IsMapOf(entries, entries)
  {
    hide KeyLess;
    forall e: Entry | e in entries ensures IsLast(e, entries) {
      var i :| 0 <= i < |entries| && entries[i] == e;
      forall j | i < j < |entries| ensures entries[j].key != e.key {
        KeyLessTotal(e.key, entries[j].key);
      }
    }
  }

  lemma {:induction false} ItemsEncode(items: seq<Value>, tail: seq<byte>)
    requires forall i | 0 <= i < |items| :: WellFormed(items[i]) && Encodable(items[i])
    requires WeighItems(items).longest <= U32_MAX
    ensures ReadsItems(EncodeItems(items) + tail, items, tail)
    decreases items, 0
  {
    hide Reads, ReadsItems, Encode, EncodeItems, Weigh, WeighItems, WellFormed, Encodable;
    if items == [] {
      NothingReads(tail);
    } else {
      UnfoldItems(items);
      var rest := EncodeItems(items[1..]) + tail;
      EncodeReads(items[0], rest);
      ItemsEncode(items[1..], tail);
      Assoc(Encode(items[0]), EncodeItems(items[1..]), tail);
      ConsReads(Encode(items[0]) + rest, items[0], items[1..], rest, tail);
      assert [items[0]] + items[1..] == items;
    }
  }

  lemma NothingReads(tail: seq<byte>)
    ensures EncodeItems([]) + tail == tail && ReadsItems(tail, [], tail)
    ensures EncodeEntries([]) + tail == tail && ReadsPairs(tail, [], tail)
  {
  }

  lemma {:induction false} EntriesEncode(entries: seq<Entry>, tail: seq<byte>)
    requires forall i | 0 <= i < |entries| ::
               ValidUtf8(entries[i].key) && WellFormed(entries[i].value) && Encodable(entries[i].value)
    requires WeighEntries(entries).longest <= U32_MAX
    ensures ReadsPairs(EncodeEntries(entries) + tail, entries, tail)
    decreases entries, 0
  {
    hide Reads, ReadsPairs, Encode, EncodeString, EncodeEntries, Weigh, WeighEntries, WellFormed, Encodable, ValidUtf8;
    if entries == [] {
      NothingReads(tail);
    } else {
      UnfoldEntries(entries);
      var k, x := EncodeString(entries[0].key), Encode(entries[0].value);
      var rest := EncodeEntries(entries[1..]) + tail;
      StringEncodes(entries[0].key, x + rest);
      EncodeReads(entries[0].value, rest);
      EntriesEncode(entries[1..], tail);
      Assoc(k + x, EncodeEntries(entries[1..]), tail);
      Assoc(k, x, rest);
      PairReads(k + (x + rest), entries[0], entries[1..], x + rest, rest, tail);
      assert [entries[0]] + entries[1..] == entries;
    }
  }
}
