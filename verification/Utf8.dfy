/** UTF-8 (RFC 3629), the encoding that canonical JSON text is hashed in. */
module Utf8 {
  import opened Wrappers

  type Byte = b: int | 0 <= b < 256

  function EncodeChar(c: char): seq<Byte> {
    var n := c as int;
    var n1 := n / 0x40;
    var n2 := n1 / 0x40;
    if n < 0x80 then [n]
    else if n < 0x800 then [0xC0 + n1, 0x80 + n % 0x40]
    else if n < 0x10000 then [0xE0 + n2, 0x80 + n1 % 0x40, 0x80 + n % 0x40]
    else [0xF0 + n2 / 0x40, 0x80 + n2 % 0x40, 0x80 + n1 % 0x40, 0x80 + n % 0x40]
  }

  /** `s.encode("utf-8")` for a text of Unicode scalar values. */
  function Encode(s: string): seq<Byte> {
    if s == [] then [] else EncodeChar(s[0]) + Encode(s[1..])
  }

  /** How many bytes the character takes whose first byte this is. */
  function Width(b: Byte): (w: nat)
    ensures 1 <= w <= 4
  {
    if b < 0xC0 then 1 else if b < 0xE0 then 2 else if b < 0xF0 then 3 else 4
  }

  /** Appends the six low bits of a continuation byte. */
  function Shift(high: int, continuation: int): int {
    high * 0x40 + (continuation - 0x80)
  }

  function CodePoint(bs: seq<Byte>): int
    requires bs != [] && |bs| == Width(bs[0])
  {
    var b: int := bs[0];
    if |bs| == 1 then b
    else if |bs| == 2 then Shift(b - 0xC0, bs[1])
    else if |bs| == 3 then Shift(Shift(b - 0xE0, bs[1]), bs[2])
    else Shift(Shift(Shift(b - 0xF0, bs[1]), bs[2]), bs[3])
  }

  predicate IsScalar(n: int) {
    0 <= n < 0xD800 || 0xE000 <= n < 0x110000
  }

  /** The smallest code point that needs so many bytes. */
  function Least(width: nat): int {
    if width == 1 then 0 else if width == 2 then 0x80 else if width == 3 then 0x800 else 0x10000
  }

  /** Continuation bytes behind the first one, a scalar value, and no shorter way to write it. */
  predicate WellFormed(bs: seq<Byte>)
    requires bs != [] && |bs| == Width(bs[0])
  {
    && (|bs| == 1 ==> bs[0] < 0x80) && (forall i | 1 <= i < |bs| :: 0x80 <= bs[i] < 0xC0)
    && IsScalar(CodePoint(bs)) && Least(|bs|) <= CodePoint(bs)
  }

  function Decode(bs: seq<Byte>): Option<string> {
    if bs == [] then Some([])
    else
      var w := Width(bs[0]);
      if |bs| < w || !WellFormed(bs[..w]) then None
      else
        match Decode(bs[w..])
        case None => None
        case Some(tail) => Some([CodePoint(bs[..w]) as char] + tail)
  }

  lemma EncodeCharFits(c: char)
    ensures var bs := EncodeChar(c); bs != [] && |bs| == Width(bs[0]) && CodePoint(bs) == c as int && WellFormed(bs)
  {
  }

  lemma TwoBytes(a: Byte, b: Byte)
    requires 0xC0 <= a < 0xE0 && 0x80 <= b < 0xC0 && Shift(a - 0xC0, b) >= 0x80
    ensures EncodeChar(Shift(a - 0xC0, b) as char) == [a, b]
  {
    var n := Shift(a - 0xC0, b);
    assert n / 0x40 == a - 0xC0 && n % 0x40 == b - 0x80;
  }

  lemma ThreeBytes(a: Byte, b: Byte, c: Byte)
    requires 0xE0 <= a < 0xF0 && 0x80 <= b < 0xC0 && 0x80 <= c < 0xC0
    requires var n := Shift(Shift(a - 0xE0, b), c); n >= 0x800 && IsScalar(n)
    ensures EncodeChar(Shift(Shift(a - 0xE0, b), c) as char) == [a, b, c]
  {
    var high := Shift(a - 0xE0, b);
    var n := Shift(high, c);
    assert n / 0x40 == high && n % 0x40 == c - 0x80;
    assert high / 0x40 == a - 0xE0 && high % 0x40 == b - 0x80;
  }

  lemma FourBytes(a: Byte, b: Byte, c: Byte, d: Byte)
    requires 0xF0 <= a && 0x80 <= b < 0xC0 && 0x80 <= c < 0xC0 && 0x80 <= d < 0xC0
    requires var n := Shift(Shift(Shift(a - 0xF0, b), c), d); n >= 0x10000 && IsScalar(n)
    ensures EncodeChar(Shift(Shift(Shift(a - 0xF0, b), c), d) as char) == [a, b, c, d]
  {
    var top := Shift(a - 0xF0, b);
    var high := Shift(top, c);
    var n := Shift(high, d);
    assert n / 0x40 == high && n % 0x40 == d - 0x80;
    assert high / 0x40 == top && high % 0x40 == c - 0x80;
    assert top / 0x40 == a - 0xF0 && top % 0x40 == b - 0x80;
  }

  /** Well-formed bytes are the encoding of their code point. */
  lemma WellFormedIsEncoded(bs: seq<Byte>)
    requires bs != [] && |bs| == Width(bs[0]) && WellFormed(bs)
    ensures EncodeChar(CodePoint(bs) as char) == bs
  {
    if |bs| == 1 {
      assert bs == [bs[0]];
    } else if |bs| == 2 {
      TwoBytes(bs[0], bs[1]);
    } else if |bs| == 3 {
      ThreeBytes(bs[0], bs[1], bs[2]);
    } else {
      FourBytes(bs[0], bs[1], bs[2], bs[3]);
    }
  }

  /** Every encoded text decodes to itself. */
  lemma {:induction false} DecodeEncode(s: string)
    ensures Decode(Encode(s)) == Some(s)
  {
    if s != [] {
      var bs := EncodeChar(s[0]);
      EncodeCharFits(s[0]);
      DecodeEncode(s[1..]);
      assert Encode(s)[..|bs|] == bs && Encode(s)[|bs|..] == Encode(s[1..]);
      assert [s[0]] + s[1..] == s;
    }
  }

  /** Exactly the encoding decodes to a text, so no other bytes stand for it. */
  lemma {:induction false} EncodeDecode(bs: seq<Byte>)
    requires Decode(bs).Some?
    ensures Encode(Decode(bs).value) == bs
  {
    if bs != [] {
      var w := Width(bs[0]);
      WellFormedIsEncoded(bs[..w]);
      EncodeDecode(bs[w..]);
      var s := Decode(bs).value;
      assert s[1..] == Decode(bs[w..]).value;
      assert bs == bs[..w] + bs[w..];
    }
  }

  /** One character for each width, as RFC 3629 section 7 and the code charts give them. */
  lemma EncodeTable()
    ensures EncodeChar('A') == [0x41]
    ensures EncodeChar(0xE9 as char) == [0xC3, 0xA9]
    ensures EncodeChar(0x20AC as char) == [0xE2, 0x82, 0xAC]
    ensures EncodeChar(0x1F600 as char) == [0xF0, 0x9F, 0x98, 0x80]
  {
  }
}
