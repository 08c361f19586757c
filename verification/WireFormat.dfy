/**
 What bytes mean in PackStream: the marker table, lengths and integers as sums of bytes by place, contents in order.

 The relation knows neither the encoder nor the decoder. Both are shown to keep to it.
 */
module WireFormat {
  import opened BigEndian
  import opened PackStream
  import opened PackStreamTheorems
  import opened PackStreamSoundness

  // ---- numbers ----

  function Span(width: nat): nat {
    if width == 0 then 1 else 0x100 * Span(width - 1)
  }

  /** The number whose digits to base 256 these are, the most significant first. */
  function Positional(s: seq<byte>): nat {
    if s == [] then 0 else Positional(s[..|s| - 1]) * 0x100 + s[|s| - 1]
  }

  ghost predicate IsTwosComplement(s: seq<byte>, n: int) {
    s != [] && n == Positional(s) - (if s[0] >= 0x80 then Span(|s|) else 0)
  }

  lemma {:induction false} PositionalConcat(a: seq<byte>, b: seq<byte>)
    ensures Positional(a + b) == Positional(a) * Span(|b|) + Positional(b)
  {
    if b == [] {
      assert a + b == a;
    } else {
      var front := b[..|b| - 1];
      PositionalConcat(a, front);
      assert (a + b)[..|a + b| - 1] == a + front;
      Shift(Positional(a), Span(|front|), Positional(front));
    }
  }

  lemma Shift(a: nat, b: nat, c: nat)
    ensures (a * b + c) * 0x100 == a * (0x100 * b) + c * 0x100
  {
  }

  lemma Spans()
    ensures Span(1) == 0x100 && Span(2) == 0x1_0000 && Span(4) == 0x1_0000_0000 && Span(8) == 0x1_0000_0000_0000_0000
  {
    assert Span(3) == 0x100_0000 && Span(5) == 0x100_0000_0000 && Span(6) == 0x1_0000_0000_0000 && Span(7) == 0x100_0000_0000_0000;
  }

  lemma Positional1(b: byte)
    ensures Positional([b]) == b
  {
  }

  lemma Get16IsPositional(s: seq<byte>)
    requires |s| >= 2
    ensures Get16(s) == Positional(s[..2])
  {
    Spans();
    assert s[..2] == [s[0]] + [s[1]];
    PositionalConcat([s[0]], [s[1]]);
  }

  lemma Get32IsPositional(s: seq<byte>)
    requires |s| >= 4
    ensures Get32(s) == Positional(s[..4])
  {
    Spans();
    Get16IsPositional(s);
    Get16IsPositional(s[2..]);
    assert s[..4] == s[..2] + s[2..][..2];
    PositionalConcat(s[..2], s[2..][..2]);
  }

  lemma Get64IsPositional(s: seq<byte>)
    requires |s| >= 8
    ensures Get64(s) == Positional(s[..8])
  {
    hide Get32;
    Spans();
    Get32IsPositional(s);
    Get32IsPositional(s[4..]);
    assert s[..8] == s[..4] + s[4..][..4];
    PositionalConcat(s[..4], s[4..][..4]);
  }

  /** The bytes the encoder and the chunk header write for a number are its digits. */
  lemma BigEndianIsPositional(n: nat)
    ensures n < 0x1_0000 ==> Positional(U16(n)) == n
    ensures n < 0x1_0000_0000 ==> Positional(U32(n)) == n
    ensures n < 0x1_0000_0000_0000_0000 ==> Positional(U64(n)) == n
  {
    hide Get16, Get32, Get64, U16, U32, U64;
    if n < 0x1_0000 {
      Get16U16(n, []);
      assert U16(n) + [] == U16(n) == U16(n)[..2];
      Get16IsPositional(U16(n));
    }
    if n < 0x1_0000_0000 {
      Get32U32(n, []);
      assert U32(n) + [] == U32(n) == U32(n)[..4];
      Get32IsPositional(U32(n));
    }
    if n < 0x1_0000_0000_0000_0000 {
      Get64U64(n, []);
      assert U64(n) + [] == U64(n) == U64(n)[..8];
      Get64IsPositional(U64(n));
    }
  }

  // ---- the marker table ----

  /** A marker followed by a length of `width` bytes. */
  ghost predicate Sizes(head: seq<byte>, marker: byte, width: nat, len: nat) {
    |head| == 1 + width && head[0] == marker && Positional(head[1..]) == len
  }

  /** The ways to announce a string, byte string, list, map or structure of this length. */
  ghost predicate Announces(head: seq<byte>, kind: Kind, len: nat) {
    match kind
    case StringKind =>
      || (len <= 15 && head == [0x80 + len])
      || Sizes(head, 0xD0, 1, len) || Sizes(head, 0xD1, 2, len) || Sizes(head, 0xD2, 4, len)
    case BytesKind =>
      Sizes(head, 0xCC, 1, len) || Sizes(head, 0xCD, 2, len) || Sizes(head, 0xCE, 4, len)
    case ListKind =>
      || (len <= 15 && head == [0x90 + len])
      || Sizes(head, 0xD4, 1, len) || Sizes(head, 0xD5, 2, len) || Sizes(head, 0xD6, 4, len)
    case MapKind =>
      || (len <= 15 && head == [0xA0 + len])
      || Sizes(head, 0xD8, 1, len) || Sizes(head, 0xD9, 2, len) || Sizes(head, 0xDA, 4, len)
    case StructKind =>
      || (len <= 15 && head == [0xB0 + len])
      || Sizes(head, 0xDC, 1, len) || Sizes(head, 0xDD, 2, len)
  }

  /** A marker followed by an integer of `width` bytes. */
  ghost predicate Counts(s: seq<byte>, marker: byte, width: nat, n: int) {
    |s| == 1 + width && s[0] == marker && IsTwosComplement(s[1..], n)
  }

  /** The ways to write null, a boolean, a float or an integer. */
  ghost predicate Spells(s: seq<byte>, v: Value) {
    match v
    case Null => s == [0xC0]
    case Bool(b) => s == [if b then 0xC3 else 0xC2]
    case Float(bits) => |s| == 9 && s[0] == 0xC1 && Positional(s[1..]) == bits
    case Int(n) =>
      || (0 <= n <= 0x7F && s == [n])
      || (-16 <= n < 0 && s == [0x100 + n])
      || Counts(s, 0xC8, 1, n) || Counts(s, 0xC9, 2, n) || Counts(s, 0xCA, 4, n) || Counts(s, 0xCB, 8, n)
    case _ => false
  }

  /** The bytes no value starts with. */
  predicate IsReserved(m: byte) {
    0xC4 <= m <= 0xC7 || m in {0xCF, 0xD3, 0xD7, 0xDB} || 0xDE <= m <= 0xEF
  }

  // ---- values ----

  /** The map that inserting these pairs in order leaves: sorted by key, the last value of every key, nothing else. */
  ghost predicate IsMapOf(entries: seq<Entry>, pairs: seq<Entry>) {
    KeysAscend(entries) && forall e: Entry :: e in entries <==> IsLast(e, pairs)
  }

  ghost predicate IsLast(e: Entry, pairs: seq<Entry>) {
    exists i | 0 <= i < |pairs| :: pairs[i] == e && forall j | i < j < |pairs| :: pairs[j].key != e.key
  }

  /** A value at the front of some bytes, and what follows it. */
  ghost predicate Reads(buf: seq<byte>, v: Value, rest: seq<byte>)
    decreases |buf|, 1
  {
    exists h | 1 <= h <= |buf| :: ReadsAt(buf, h, v, rest)
  }

  /** The marker and its length or number take `h` bytes. */
  ghost predicate ReadsAt(buf: seq<byte>, h: nat, v: Value, rest: seq<byte>)
    requires 1 <= h <= |buf|
    decreases |buf|, 0
  {
    var (head, body) := (buf[..h], buf[h..]);
    match v
    case String(s) => Announces(head, StringKind, |s|) && body == s + rest && ValidUtf8(s)
    case Bytes(data) => Announces(head, BytesKind, |data|) && body == data + rest
    case List(items) => Announces(head, ListKind, |items|) && ReadsItems(body, items, rest)
    case Map(entries) =>
      exists pairs: seq<Entry> ::
        Announces(head, MapKind, |pairs|) && ReadsPairs(body, pairs, rest) && IsMapOf(entries, pairs)
    case Struct(tag, fields) =>
      Announces(head, StructKind, |fields|) && body != [] && body[0] == tag && ReadsItems(body[1..], fields, rest)
    case _ => Spells(head, v) && body == rest
  }

  ghost predicate ReadsItems(buf: seq<byte>, items: seq<Value>, rest: seq<byte>)
    decreases |buf|, 2
  {
    if items == [] then buf == rest
    else exists n | 1 <= n <= |buf| :: Reads(buf, items[0], buf[n..]) && ReadsItems(buf[n..], items[1..], rest)
  }

  ghost predicate ReadsPairs(buf: seq<byte>, pairs: seq<Entry>, rest: seq<byte>)
    decreases |buf|, 2
  {
    if pairs == [] then buf == rest
    else exists n, m | 1 <= n < m <= |buf| ::
           && Reads(buf, String(pairs[0].key), buf[n..])
           && Reads(buf[n..], pairs[0].value, buf[m..])
           && ReadsPairs(buf[m..], pairs[1..], rest)
  }
}
