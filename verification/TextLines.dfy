/** `str.splitlines(True)`: lines that keep their terminators. */
module TextLines {

  /** The characters that end a line for `str.splitlines`. */
  predicate IsLineEnd(c: char) {
    var n := c as int;
    0x0A <= n <= 0x0D || 0x1C <= n <= 0x1E || n == 0x85 || n == 0x2028 || n == 0x2029
  }

  /** The length of the first line, terminator included; "\r\n" is one terminator. */
  function LineLength(s: string): (n: nat)
    requires s != []
    ensures 1 <= n <= |s|
  {
    if IsLineEnd(s[0]) then
      if s[0] == '\r' && |s| > 1 && s[1] == '\n' then 2 else 1
    else if |s| == 1 then 1
    else 1 + LineLength(s[1..])
  }

  function SplitLines(s: string): seq<string> {
    if s == [] then [] else [s[..LineLength(s)]] + SplitLines(s[LineLength(s)..])
  }

  /** `"".join(lines)` */
  function Concat(lines: seq<string>): string {
    if lines == [] then [] else lines[0] + Concat(lines[1..])
  }

  /** Each entry is exactly the first line of what follows from there. */
  predicate AreLines(lines: seq<string>) {
    lines != [] ==> lines[0] != [] && LineLength(Concat(lines)) == |lines[0]| && AreLines(lines[1..])
  }

  lemma {:induction false} ConcatSplit(s: string)
    ensures Concat(SplitLines(s)) == s && AreLines(SplitLines(s))
    decreases |s|
  {
    if s != [] {
      var n := LineLength(s);
      var first, rest := s[..n], SplitLines(s[n..]);
      ConcatSplit(s[n..]);
      assert first + s[n..] == s;
      ConsLine(first, rest);
    }
  }

  lemma ConsLine(first: string, rest: seq<string>)
    ensures Concat([first] + rest) == first + Concat(rest)
    ensures AreLines([first] + rest)
      <==> first != [] && LineLength(first + Concat(rest)) == |first| && AreLines(rest)
  {
    assert ([first] + rest)[1..] == rest;
  }

  lemma {:induction false} SplitConcat(lines: seq<string>)
    requires AreLines(lines)
    ensures SplitLines(Concat(lines)) == lines
  {
    if lines != [] {
      SplitConcat(lines[1..]);
      SplitFirst(lines[0], Concat(lines[1..]));
      assert lines == [lines[0]] + lines[1..];
    }
  }

  lemma SplitFirst(l: string, rest: string)
    requires l != [] && LineLength(l + rest) == |l|
    ensures SplitLines(l + rest) == [l] + SplitLines(rest)
  {
    assert (l + rest)[..|l|] == l && (l + rest)[|l|..] == rest;
  }

  predicate NoLineEnd(s: string) {
    forall i | 0 <= i < |s| :: !IsLineEnd(s[i])
  }

  /** Characters that do not end a line only make the first line longer. */
  lemma {:induction false} LineLengthSkips(p: string, s: string)
    requires NoLineEnd(p) && s != []
    ensures LineLength(p + s) == |p| + LineLength(s)
  {
    if p == [] {
      assert p + s == s;
    } else {
      assert (p + s)[1..] == p[1..] + s;
      LineLengthSkips(p[1..], s);
    }
  }

  /** A first line has its terminator at its end. */
  lemma {:induction false} NoEndInside(p: string, s: string)
    requires s != [] && LineLength(p + s) > |p| && (p != [] ==> p[|p| - 1] != '\r')
    ensures NoLineEnd(p)
  {
    if p != [] {
      assert (p + s)[1..] == p[1..] + s;
      NoEndInside(p[1..], s);
    }
  }

  /** Both texts are empty or start with the same character. */
  predicate SameStart(s: string, t: string) {
    (s == [] <==> t == []) && (s != [] ==> s[0] == t[0])
  }

  /** Where a line ends depends on the next line only through its first character. */
  lemma {:induction false} LineLengthLooksOneAhead(l: string, s: string, t: string)
    requires l != [] && LineLength(l + s) == |l| && SameStart(s, t)
    ensures LineLength(l + t) == |l|
  {
    assert (l + s)[1..] == l[1..] + s && (l + t)[1..] == l[1..] + t;
    if !IsLineEnd(l[0]) && |l| > 1 {
      LineLengthLooksOneAhead(l[1..], s, t);
    } else if |l| > 1 {
      assert (l + s)[1] == l[1] == (l + t)[1];
    }
  }

  lemma {:induction false} SplitStep(l: string, rest: string, t: string)
    requires l != [] && LineLength(l + rest) == |l| && LineLength(l + (rest + t)) == |l|
    requires SplitLines(rest + t) == SplitLines(rest) + SplitLines(t)
    ensures SplitLines(l + (rest + t)) == SplitLines(l + rest) + SplitLines(t)
  {
    SplitFirst(l, rest);
    SplitFirst(l, rest + t);
    assert [l] + (SplitLines(rest) + SplitLines(t)) == ([l] + SplitLines(rest)) + SplitLines(t);
  }

  /** A text that ends in a newline splits on its own. */
  lemma {:induction false} SplitAfterNewline(s: string, t: string)
    requires s == [] || s[|s| - 1] == '\n'
    ensures SplitLines(s + t) == SplitLines(s) + SplitLines(t)
    decreases |s|
  {
    if s == [] {
      assert s + t == t;
    } else {
      FirstLineOfNewline(s, t);
      var l, rest := s[..LineLength(s)], s[LineLength(s)..];
      assert s == l + rest && s + t == l + (rest + t);
      SplitAfterNewline(rest, t);
      SplitStep(l, rest, t);
    }
  }

  lemma {:induction false} FirstLineOfNewline(s: string, t: string)
    requires s != [] && s[|s| - 1] == '\n'
    ensures LineLength(s + t) == LineLength(s)
  {
    assert (s + t)[1..] == s[1..] + t;
    if !IsLineEnd(s[0]) {
      FirstLineOfNewline(s[1..], t);
    } else if |s| > 1 {
      assert (s + t)[1] == s[1];
    }
  }

  /** The characters that end a line, one by one. */
  lemma LineEndTable(c: char)
    ensures IsLineEnd(c) <==>
      c as int in {0x0A, 0x0B, 0x0C, 0x0D, 0x1C, 0x1D, 0x1E, 0x85, 0x2028, 0x2029}
  {
  }

  /** Three kinds of line end and a last line without one. */
  lemma SampleLines()
    ensures SplitLines("a\r\n" + ("b\n" + ("\r" + "c"))) == ["a\r\n", "b\n", "\r", "c"]
  {
    LastLine();
    SplitFirst("\r", "c");
    SplitFirst("b\n", "\r" + "c");
    SplitFirst("a\r\n", "b\n" + ("\r" + "c"));
  }

  lemma LastLine()
    ensures SplitLines("c") == ["c"]
  {
    SplitFirst("c", "");
    assert "c" + "" == "c";
  }
}
