/**
 The string operations of Python that the modelled code relies on: the
 code-point order used by `sorted`, `str.strip`, `str.lower` on ASCII letters
 and substring tests.
 */
module PyText {

  // ----- order ---------------------------------------------------------------

  /** Strict lexicographic order by code point, as Python compares two `str`. */
  predicate Before(a: string, b: string) {
    if b == [] then false
    else if a == [] then true
    else a[0] < b[0] || (a[0] == b[0] && Before(a[1..], b[1..]))
  }

  lemma {:induction false} BeforeIsTransitive(a: string, b: string, c: string)
    requires Before(a, b) && Before(b, c)
    ensures Before(a, c)
  {
    if a != [] && a[0] == b[0] == c[0] {
      BeforeIsTransitive(a[1..], b[1..], c[1..]);
    }
  }

  lemma {:induction false} BeforeIsTotal(a: string, b: string)
    ensures a == b || Before(a, b) || Before(b, a)
  {
    if a != [] && b != [] && a[0] == b[0] {
      BeforeIsTotal(a[1..], b[1..]);
      assert a == [a[0]] + a[1..] && b == [b[0]] + b[1..];
    }
  }

  /** At the first place where they differ the smaller text has the smaller code point, or has ended. */
  lemma {:induction false} BeforeExactly(a: string, b: string)
    ensures Before(a, b) <==>
      exists k: nat :: k <= |a| && k < |b| && a[..k] == b[..k] && (k == |a| || a[k] < b[k])
  {
    if a != [] && b != [] {
      BeforeExactly(a[1..], b[1..]);
      if k: nat :| k <= |a| && k < |b| && a[..k] == b[..k] && (k == |a| || a[k] < b[k]) {
        if k > 0 {
          assert a[..k][0] == b[..k][0] && a[1..][..k - 1] == a[..k][1..] && b[1..][..k - 1] == b[..k][1..];
        }
      }
      if a[0] == b[0] && Before(a[1..], b[1..]) {
        var p, q := a[1..], b[1..];
        var k: nat :| k <= |p| && k < |q| && p[..k] == q[..k] && (k == |p| || p[k] < q[k]);
        assert a[..k + 1] == [a[0]] + p[..k] && b[..k + 1] == [b[0]] + q[..k];
      }
      if a[0] < b[0] {
        assert a[..0] == b[..0];
      }
    } else if b != [] {
      assert a[..0] == b[..0];
    }
  }

  lemma {:induction false} BeforeIsAsymmetric(a: string, b: string)
    requires Before(a, b)
    ensures !Before(b, a) && a != b
  {
    if a != [] && a[0] == b[0] {
      BeforeIsAsymmetric(a[1..], b[1..]);
    }
  }

  lemma {:induction false} BeforeIsIrreflexive(s: string)
    ensures !Before(s, s)
  {
    if s != [] {
      BeforeIsIrreflexive(s[1..]);
    }
  }

  // ----- white space -----------------------------------------------------------

  /** The characters `str.isspace` accepts, which are the ones `str.strip` removes. */
  predicate IsSpace(c: char) {
    var n := c as int;
    || 0x09 <= n <= 0x0D
    || 0x1C <= n <= 0x20
    || n == 0x85 || n == 0xA0 || n == 0x1680
    || 0x2000 <= n <= 0x200A
    || n == 0x2028 || n == 0x2029 || n == 0x202F || n == 0x205F || n == 0x3000
  }

  function LStrip(s: string): string {
    if s != [] && IsSpace(s[0]) then LStrip(s[1..]) else s
  }

  function RStrip(s: string): string {
    if s != [] && IsSpace(s[|s| - 1]) then RStrip(s[..|s| - 1]) else s
  }

  function Strip(s: string): string {
    RStrip(LStrip(s))
  }

  /** Neither end of the text is white space. */
  predicate Trimmed(s: string) {
    s != [] ==> !IsSpace(s[0]) && !IsSpace(s[|s| - 1])
  }

  lemma {:induction false} LStripEnds(s: string)
    ensures |LStrip(s)| <= |s| && LStrip(s) == s[|s| - |LStrip(s)|..]
    ensures LStrip(s) != [] ==> !IsSpace(LStrip(s)[0])
    ensures forall k | 0 <= k < |s| - |LStrip(s)| :: IsSpace(s[k])
  {
    if s != [] && IsSpace(s[0]) {
      LStripEnds(s[1..]);
      var n := |s| - |LStrip(s)|;
      assert s[n..] == s[1..][n - 1..];
      assert forall k | 1 <= k < n :: s[k] == s[1..][k - 1];
    }
  }

  lemma {:induction false} RStripEnds(s: string)
    ensures |RStrip(s)| <= |s| && RStrip(s) == s[..|RStrip(s)|]
    ensures RStrip(s) != [] ==> !IsSpace(RStrip(s)[|RStrip(s)| - 1])
    ensures forall k | |RStrip(s)| <= k < |s| :: IsSpace(s[k])
  {
    if s != [] && IsSpace(s[|s| - 1]) {
      RStripEnds(s[..|s| - 1]);
    }
  }

  /** A stripped text is a slice of the original, trimmed, with nothing but white space around it. */
  lemma StripTrims(s: string) returns (i: nat, j: nat)
    ensures Trimmed(Strip(s))
    ensures i <= j <= |s| && Strip(s) == s[i..j]
    ensures forall k | 0 <= k < i || j <= k < |s| :: IsSpace(s[k])
  {
    LStripEnds(s);
    RStripEnds(LStrip(s));
    i := |s| - |LStrip(s)|;
    j := i + |Strip(s)|;
    assert forall k | i <= k < |s| :: s[k] == LStrip(s)[k - i];
  }

  /** Stripping changes nothing exactly when both ends are already trimmed. */
  lemma StripFixes(s: string)
    ensures Strip(s) == s <==> Trimmed(s)
  {
    var _, _ := StripTrims(s);
    if s == [] || !Trimmed(s) {
    } else {
      assert LStrip(s) == s;
    }
  }

  // ----- case and substrings -----------------------------------------------------

  function LowerChar(c: char): char {
    if 'A' <= c <= 'Z' then c - 'A' + 'a' else c
  }

  function Lower(s: string): string {
    seq(|s|, i requires 0 <= i < |s| => LowerChar(s[i]))
  }

  /** `part in whole` */
  predicate Contains(whole: string, part: string) {
    part <= whole || (whole != [] && Contains(whole[1..], part))
  }

  lemma {:induction false} ContainsAt(whole: string, part: string, i: nat)
    requires i + |part| <= |whole| && whole[i..i + |part|] == part
    ensures Contains(whole, part)
  {
    if i > 0 {
      assert whole[1..][i - 1..i - 1 + |part|] == part;
      ContainsAt(whole[1..], part, i - 1);
    }
  }

  lemma {:induction false} ContainsWhere(whole: string, part: string) returns (i: nat)
    requires Contains(whole, part)
    ensures i + |part| <= |whole| && whole[i..i + |part|] == part
  {
    if part <= whole {
      i := 0;
    } else {
      i := ContainsWhere(whole[1..], part);
      assert whole[i + 1..i + 1 + |part|] == whole[1..][i..i + |part|];
      i := i + 1;
    }
  }

  /** The 64 lower-case hexadecimal digits of a SHA-256 digest. */
  predicate IsLowerHexDigit(c: char) {
    '0' <= c <= '9' || 'a' <= c <= 'f'
  }

  predicate IsHex64(s: string) {
    |s| == 64 && forall i | 0 <= i < |s| :: IsLowerHexDigit(s[i])
  }

  // ----- in literals -------------------------------------------------------------

  /** The 29 code points of white space, one by one. */
  lemma SpaceTable(c: char)
    ensures IsSpace(c) <==> c as int in {
      0x09, 0x0A, 0x0B, 0x0C, 0x0D, 0x1C, 0x1D, 0x1E, 0x1F, 0x20, 0x85, 0xA0, 0x1680,
      0x2000, 0x2001, 0x2002, 0x2003, 0x2004, 0x2005, 0x2006, 0x2007, 0x2008, 0x2009, 0x200A,
      0x2028, 0x2029, 0x202F, 0x205F, 0x3000
    }
  {
  }

  lemma LowerTable()
    ensures Lower("AZ@[az09_") == "az@[az09_"
    ensures forall s: string :: |Lower(s)| == |s|
  {
  }

  /** Lower-case hexadecimal digits and their neighbours. */
  lemma HexTable()
    ensures forall c | c in "0123456789abcdef" :: IsLowerHexDigit(c)
    ensures forall c | c in "/:`gAF " :: !IsLowerHexDigit(c)
    ensures forall s: string | IsHex64(s) :: |s| == 64
  {
  }
}
