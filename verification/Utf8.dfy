/** Strings: the byte sequences the codec accepts are exactly the encodings of Unicode scalar values. */
module Utf8 {
  import opened BigEndian
  import opened PackStream

  predicate IsScalarValue(c: nat) {
    c < 0xD800 || 0xDFFF < c <= 0x10FFFF
  }

  ghost predicate AreScalarValues(cs: seq<nat>) {
    forall i | 0 <= i < |cs| :: IsScalarValue(cs[i])
  }

  /** UTF-8 of one scalar value, six bits to a continuation byte (RFC 3629, section 3). */
  function EncodedScalar(c: nat): (s: seq<byte>)
    requires IsScalarValue(c)
    ensures 1 <= |s| <= 4
  {
    if c < 0x80 then [c]
    else if c < 0x800 then [0xC0 + c / 0x40, 0x80 + c % 0x40]
    else if c < 0x1_0000 then [0xE0 + c / 0x1000, 0x80 + c / 0x40 % 0x40, 0x80 + c % 0x40]
    else [0xF0 + c / 0x4_0000, 0x80 + c / 0x1000 % 0x40, 0x80 + c / 0x40 % 0x40, 0x80 + c % 0x40]
  }

  ghost function EncodedText(cs: seq<nat>): seq<byte>
    requires AreScalarValues(cs)
  {
    if cs == [] then [] else EncodedScalar(cs[0]) + EncodedText(cs[1..])
  }

  lemma ScalarIsAccepted(c: nat, tail: seq<byte>)
    requires IsScalarValue(c)
    ensures ScalarLen(EncodedScalar(c) + tail) == |EncodedScalar(c)|
  {
    if c < 0x80 {
    } else if c < 0x800 {
      hide ScalarLen;
      Accepted2(0xC0 + c / 0x40, 0x80 + c % 0x40, tail);
    } else if c < 0x1_0000 {
      hide ScalarLen;
      var (hi, mid) := (c / 0x1000, c / 0x40 % 0x40);
      Range3(c);
      Accepted3(0xE0 + hi, 0x80 + mid, 0x80 + c % 0x40, tail);
    } else {
      hide ScalarLen;
      var (hi, mid) := (c / 0x4_0000, c / 0x1000 % 0x40);
      Range4(c);
      Accepted4(0xF0 + hi, 0x80 + mid, 0x80 + c / 0x40 % 0x40, 0x80 + c % 0x40, tail);
    }
  }

  lemma Range3(c: nat)
    requires 0x800 <= c < 0x1_0000 && IsScalarValue(c)
    ensures var (hi, mid) := (c / 0x1000, c / 0x40 % 0x40);
            hi < 0x10 && (hi == 0 ==> mid >= 0x20) && (hi == 0xD ==> mid < 0x20)
  {
    var high := c / 0x40;
    assert high / 0x40 == c / 0x1000;
    assert high == 0x40 * (high / 0x40) + high % 0x40;
  }

  lemma Range4(c: nat)
    requires 0x1_0000 <= c <= 0x10FFFF
    ensures var (hi, mid) := (c / 0x4_0000, c / 0x1000 % 0x40);
            hi <= 4 && (hi == 0 ==> mid >= 0x10) && (hi == 4 ==> mid < 0x10)
  {
    var high := c / 0x1000;
    assert high / 0x40 == c / 0x4_0000;
    assert high == 0x40 * (high / 0x40) + high % 0x40;
  }

  lemma Accepted2(a: byte, b: byte, tail: seq<byte>)
    requires 0xC2 <= a <= 0xDF && Continuation(b)
    ensures ScalarLen([a, b] + tail) == 2
  {
  }

  lemma Accepted3(a: byte, b: byte, c: byte, tail: seq<byte>)
    requires 0xE0 <= a <= 0xEF && Continuation(b) && Continuation(c)
    requires (a == 0xE0 ==> b >= 0xA0) && (a == 0xED ==> b <= 0x9F)
    ensures ScalarLen([a, b, c] + tail) == 3
  {
  }

  lemma Accepted4(a: byte, b: byte, c: byte, d: byte, tail: seq<byte>)
    requires 0xF0 <= a <= 0xF4 && Continuation(b) && Continuation(c) && Continuation(d)
    requires (a == 0xF0 ==> b >= 0x90) && (a == 0xF4 ==> b <= 0x8F)
    ensures ScalarLen([a, b, c, d] + tail) == 4
  {
  }

  lemma Digits(high: nat, low: nat)
    requires low < 0x40
    ensures (0x40 * high + low) / 0x40 == high && (0x40 * high + low) % 0x40 == low
  {
  }

  lemma Encoded2(x: nat, y: nat)
    requires 2 <= x < 0x20 && y < 0x40
    ensures EncodedScalar(0x40 * x + y) == [0xC0 + x, 0x80 + y]
  {
    Digits(x, y);
  }

  lemma Encoded3(x: nat, y: nat, z: nat)
    requires x < 0x10 && y < 0x40 && z < 0x40 && (x == 0 ==> y >= 0x20) && (x == 0xD ==> y < 0x20)
    ensures var c := 0x40 * (0x40 * x + y) + z;
            IsScalarValue(c) && EncodedScalar(c) == [0xE0 + x, 0x80 + y, 0x80 + z]
  {
    Digits(x, y);
    Digits(0x40 * x + y, z);
    assert (0x40 * (0x40 * x + y) + z) / 0x1000 == x;
  }

  lemma Encoded4(w: nat, x: nat, y: nat, z: nat)
    requires w <= 4 && x < 0x40 && y < 0x40 && z < 0x40 && (w == 0 ==> x >= 0x10) && (w == 4 ==> x < 0x10)
    ensures var c := 0x40 * (0x40 * (0x40 * w + x) + y) + z;
            IsScalarValue(c) && EncodedScalar(c) == [0xF0 + w, 0x80 + x, 0x80 + y, 0x80 + z]
  {
    var high := 0x40 * w + x;
    Digits(w, x);
    Digits(high, y);
    Digits(0x40 * high + y, z);
    var c := 0x40 * (0x40 * high + y) + z;
    assert c / 0x1000 == high;
    assert c / 0x4_0000 == w;
  }

  lemma AcceptedIsScalar(s: seq<byte>) returns (c: nat)
    requires ScalarLen(s) > 0
    ensures IsScalarValue(c) && s[..ScalarLen(s)] == EncodedScalar(c)
  {
    hide EncodedScalar;
    var n := ScalarLen(s);
    if n == 1 {
      c := s[0];
      OneByte(c);
      assert s[..1] == [s[0]];
    } else if n == 2 {
      c := 0x40 * (s[0] as int - 0xC0) + (s[1] as int - 0x80);
      Encoded2(s[0] - 0xC0, s[1] - 0x80);
      assert s[..2] == [s[0], s[1]];
    } else if n == 3 {
      c := 0x40 * (0x40 * (s[0] as int - 0xE0) + (s[1] as int - 0x80)) + (s[2] as int - 0x80);
      Encoded3(s[0] - 0xE0, s[1] - 0x80, s[2] - 0x80);
      assert s[..3] == [s[0], s[1], s[2]];
    } else {
      c := 0x40 * (0x40 * (0x40 * (s[0] as int - 0xF0) + (s[1] as int - 0x80)) + (s[2] as int - 0x80)) + (s[3] as int - 0x80);
      Encoded4(s[0] - 0xF0, s[1] - 0x80, s[2] - 0x80, s[3] - 0x80);
      assert s[..4] == [s[0], s[1], s[2], s[3]];
    }
  }

  lemma OneByte(c: nat)
    requires c < 0x80
    ensures EncodedScalar(c) == [c]
  {
  }

  lemma {:induction false} TextIsAccepted(cs: seq<nat>)
    requires AreScalarValues(cs)
    ensures ValidUtf8(EncodedText(cs))
    decreases |cs|
  {
    hide ScalarLen, EncodedScalar;
    if cs != [] {
      var rest := EncodedText(cs[1..]);
      TextIsAccepted(cs[1..]);
      ScalarIsAccepted(cs[0], rest);
      assert (EncodedScalar(cs[0]) + rest)[|EncodedScalar(cs[0])|..] == rest;
    }
  }

  lemma {:induction false} AcceptedIsText(s: seq<byte>) returns (cs: seq<nat>)
    requires ValidUtf8(s)
    ensures AreScalarValues(cs) && s == EncodedText(cs)
    decreases |s|
  {
    hide ScalarLen, EncodedScalar;
    cs := [];
    if s != [] {
      var n := ScalarLen(s);
      var c := AcceptedIsScalar(s);
      var more := AcceptedIsText(s[n..]);
      cs := [c] + more;
      assert cs[1..] == more;
      assert s == s[..n] + s[n..];
    }
  }
}
