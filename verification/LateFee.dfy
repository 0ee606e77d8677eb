/**
 Renumbering of `major.N` subclause headings and the insertion of a late-fee clause
 (backend/agreements/premium_refine_narrow.py). Digits are ASCII digits.
 */
module LateFee {
  import opened PyText
  import opened Numerals
  import opened TextLines
  import opened ClauseNumbers

  // ----- lines -------------------------------------------------------------------------

  /** A line as the heading pattern sees it: the parts of a heading, or just text. */
  datatype Line =
    | Plain(text: string)
    | Heading(indent: string, mark: string, num: string, tail: string)

  function Text(l: Line): string {
    match l
    case Plain(text) => text
    case Heading(indent, mark, num, tail) => indent + (mark + (num + tail))
  }

  function SpaceSpan(s: string): (n: nat)
    ensures n <= |s|
  {
    if s != [] && IsSpace(s[0]) then 1 + SpaceSpan(s[1..]) else 0
  }

  predicate AllSpaces(s: string) {
    forall i | 0 <= i < |s| :: IsSpace(s[i])
  }

  /** `line.rstrip("\r\n")` */
  function Bare(s: string): string {
    if s != [] && s[|s| - 1] in "\r\n" then Bare(s[..|s| - 1]) else s
  }

  /** What stands before the number in a heading, as in `3.` */
  function Mark(major: nat): string {
    Digits(major) + "."
  }

  predicate IsMark(mark: string) {
    mark != "" && IsDigit(mark[0]) && NoLineEnd(mark)
  }

  /** The last part of a heading: a space, and more than a line terminator. */
  predicate IsTail(tail: string) {
    tail != "" && IsSpace(tail[0]) && Bare(tail) != ""
  }

  predicate IsNumber(num: string) {
    num != "" && AllDigits(num)
  }

  /** The match of `^(\s*)(major)\.(\d+)(\s.*)$` on the line without its terminator. */
  function Cut(line: string, mark: string): Line {
    var n := SpaceSpan(line);
    if mark <= line[n..] then CutNumber(line[..n], mark, line[n..][|mark|..], line) else Plain(line)
  }

  /** Its second half, after the dot. */
  function CutNumber(indent: string, mark: string, after: string, line: string): Line {
    var d := DigitSpan(after);
    if d > 0 && IsTail(after[d..]) then Heading(indent, mark, after[..d], after[d..]) else Plain(line)
  }

  /** The line is what the pattern finds in its text. */
  predicate IsCut(l: Line, mark: string) {
    match l
    case Plain(text) => Cut(text, mark) == l
    case Heading(indent, m, num, tail) => m == mark && AllSpaces(indent) && IsNumber(num) && IsTail(tail)
  }

  lemma CutNumberIsCut(indent: string, mark: string, after: string, line: string)
    requires line == indent + (mark + after) && AllSpaces(indent)
    ensures var l := CutNumber(indent, mark, after, line);
      Text(l) == line && (l.Heading? ==> IsCut(l, mark)) && (l.Plain? ==> l.text == line)
  {
    var d := DigitSpan(after);
    assert after == after[..d] + after[d..];
  }

  lemma CutIsCut(line: string, mark: string)
    ensures Text(Cut(line, mark)) == line && IsCut(Cut(line, mark), mark)
  {
    var n := SpaceSpan(line);
    SpaceSpanIsSpace(line);
    var rest := line[n..];
    assert line == line[..n] + rest;
    if mark <= rest {
      assert rest == mark + rest[|mark|..];
      CutNumberIsCut(line[..n], mark, rest[|mark|..], line);
    }
  }

  lemma TwoParts(p: string, q: string)
    ensures (p + q)[..|p|] == p && (p + q)[|p|..] == q && p <= p + q
  {
  }

  lemma CutNumberParts(indent: string, mark: string, num: string, tail: string, line: string)
    requires IsNumber(num) && IsTail(tail)
    ensures CutNumber(indent, mark, num + tail, line) == Heading(indent, mark, num, tail)
  {
    SpanOfDigits(num, tail);
    TwoParts(num, tail);
  }

  /** A text put together from the parts of a heading is cut into those parts. */
  lemma CutText(l: Line, mark: string)
    requires IsMark(mark) && IsCut(l, mark)
    ensures Cut(Text(l), mark) == l
  {
    if l.Heading? {
      var after := l.num + l.tail;
      var rest := mark + after;
      assert rest[0] == mark[0];
      SpaceSpanStops(l.indent, rest);
      TwoParts(l.indent, rest);
      TwoParts(mark, after);
      CutNumberParts(l.indent, mark, l.num, l.tail, l.indent + rest);
    }
  }

  lemma {:induction false} SpaceSpanStops(p: string, s: string)
    requires AllSpaces(p) && (s != [] ==> !IsSpace(s[0]))
    ensures SpaceSpan(p + s) == |p|
  {
    if p == [] {
      assert p + s == s;
    } else {
      assert (p + s)[1..] == p[1..] + s;
      SpaceSpanStops(p[1..], s);
    }
  }

  lemma {:induction false} SpaceSpanIsSpace(s: string)
    ensures AllSpaces(s[..SpaceSpan(s)])
  {
    if s != [] && IsSpace(s[0]) {
      SpaceSpanIsSpace(s[1..]);
      assert forall i | 1 <= i < SpaceSpan(s) :: s[i] == s[1..][..SpaceSpan(s[1..])][i - 1];
    }
  }

  lemma MarkIsMark(major: nat)
    ensures IsMark(Mark(major))
  {
    DigitsRoundTrip(major);
    assert Mark(major)[0] == Digits(major)[0];
  }

  // ----- documents -----------------------------------------------------------------------

  function Texts(ls: seq<Line>): seq<string> {
    if ls == [] then [] else [Text(ls[0])] + Texts(ls[1..])
  }

  function CutAll(lines: seq<string>, mark: string): seq<Line> {
    if lines == [] then [] else [Cut(lines[0], mark)] + CutAll(lines[1..], mark)
  }

  function Parse(doc: string, mark: string): seq<Line> {
    CutAll(SplitLines(doc), mark)
  }

  function Render(ls: seq<Line>): string {
    Concat(Texts(ls))
  }

  /** The lines of some document. */
  predicate AreCutLines(ls: seq<Line>, mark: string) {
    AreLines(Texts(ls)) && AllCut(ls, mark)
  }

  predicate AllCut(ls: seq<Line>, mark: string) {
    ls != [] ==> IsCut(ls[0], mark) && AllCut(ls[1..], mark)
  }

  lemma {:induction false} CutAllTexts(lines: seq<string>, mark: string)
    ensures Texts(CutAll(lines, mark)) == lines && |CutAll(lines, mark)| == |lines|
    ensures AllCut(CutAll(lines, mark), mark)
  {
    if lines != [] {
      var first, rest := Cut(lines[0], mark), CutAll(lines[1..], mark);
      CutAllTexts(lines[1..], mark);
      CutIsCut(lines[0], mark);
      ConsTexts(first, rest);
      assert [lines[0]] + lines[1..] == lines;
    }
  }

  lemma ConsTexts(first: Line, rest: seq<Line>)
    ensures Texts([first] + rest) == [Text(first)] + Texts(rest)
    ensures ([first] + rest)[0] == first && ([first] + rest)[1..] == rest
  {
    assert ([first] + rest)[1..] == rest;
  }

  lemma {:induction false} TextsCutAll(ls: seq<Line>, mark: string)
    requires IsMark(mark) && AllCut(ls, mark)
    ensures CutAll(Texts(ls), mark) == ls
  {
    if ls != [] {
      TextsCutAll(ls[1..], mark);
      CutText(ls[0], mark);
      assert Texts(ls)[1..] == Texts(ls[1..]);
    }
  }

  lemma ParseDocument(doc: string, mark: string)
    ensures Render(Parse(doc, mark)) == doc && AreCutLines(Parse(doc, mark), mark)
    ensures |Parse(doc, mark)| == |SplitLines(doc)|
  {
    ConcatSplit(doc);
    CutAllTexts(SplitLines(doc), mark);
  }

  lemma ParseRendered(ls: seq<Line>, mark: string)
    requires IsMark(mark) && AreCutLines(ls, mark)
    ensures Parse(Render(ls), mark) == ls
  {
    SplitConcat(Texts(ls));
    TextsCutAll(ls, mark);
  }

  // ----- the two passes ------------------------------------------------------------------

  function NumberOf(l: Line): nat {
    if l.Heading? && AllDigits(l.num) then ValueOf(l.num) else 0
  }

  /** What the headings say, in order. */
  function Numbers(ls: seq<Line>): seq<nat> {
    if ls == [] then []
    else if ls[0].Heading? then [NumberOf(ls[0])] + Numbers(ls[1..])
    else Numbers(ls[1..])
  }

  /** Everything but those numbers. */
  function Erase(ls: seq<Line>): seq<Line> {
    if ls == [] then []
    else [if ls[0].Heading? then ls[0].(num := "") else ls[0]] + Erase(ls[1..])
  }

  function MonotonicLines(ls: seq<Line>, last: nat): seq<Line> {
    if ls == [] then []
    else if !ls[0].Heading? then [ls[0]] + MonotonicLines(ls[1..], last)
    else
      var k := if NumberOf(ls[0]) <= last then last + 1 else NumberOf(ls[0]);
      [ls[0].(num := Digits(k))] + MonotonicLines(ls[1..], k)
  }

  function BumpLines(ls: seq<Line>, from: nat, next: nat): seq<Line> {
    if ls == [] then []
    else if !ls[0].Heading? || NumberOf(ls[0]) < from then [ls[0]] + BumpLines(ls[1..], from, next)
    else [ls[0].(num := Digits(next))] + BumpLines(ls[1..], from, next + 1)
  }

  function Monotonic(doc: string, mark: string): string {
    Render(MonotonicLines(Parse(doc, mark), 0))
  }

  function Bumped(suffix: string, mark: string, from: nat): string {
    Render(BumpLines(Parse(suffix, mark), from, from + 1))
  }

  /** `_ensure_monotonic_major_subclauses` */
  method EnsureMonotonic(doc: string, major: nat) returns (r: string)
    ensures r == Monotonic(doc, Mark(major))
  {
    r := MonotonicLoop(Parse(doc, Mark(major)));
  }

  method MonotonicLoop(ls: seq<Line>) returns (r: string)
    ensures r == Render(MonotonicLines(ls, 0))
  {
    var last, out := 0, [];
    assert ls[0..] == ls;
    for i := 0 to |ls|
      invariant last >= 0
      invariant Texts(MonotonicLines(ls, 0)) == out + Texts(MonotonicLines(ls[i..], last))
    {
      ghost var rest := MonotonicLines(ls[i..], last);
      assert ls[i..][0] == ls[i] && ls[i..][1..] == ls[i + 1..];
      var line := ls[i];
      if line.Heading? {
        var k := NumberOf(line);
        if k <= last { k := last + 1; }
        last := k;
        line := line.(num := Digits(k));
      }
      assert rest[0] == line && rest[1..] == MonotonicLines(ls[i + 1..], last);
      out := out + [Text(line)];
    }
    assert ls[|ls|..] == [] && out + [] == out;
    r := Concat(out);
  }

  /** `_bump_numbered_subclause_lines` */
  method BumpNumbered(suffix: string, major: nat, from: nat) returns (r: string)
    ensures r == Bumped(suffix, Mark(major), from)
  {
    r := BumpLoop(Parse(suffix, Mark(major)), from);
  }

  method BumpLoop(ls: seq<Line>, from: nat) returns (r: string)
    ensures r == Render(BumpLines(ls, from, from + 1))
  {
    var next, out := from + 1, [];
    assert ls[0..] == ls;
    for i := 0 to |ls|
      invariant next >= 0
      invariant Texts(BumpLines(ls, from, from + 1)) == out + Texts(BumpLines(ls[i..], from, next))
    {
      ghost var rest := BumpLines(ls[i..], from, next);
      assert ls[i..][0] == ls[i] && ls[i..][1..] == ls[i + 1..];
      var line := ls[i];
      if line.Heading? && NumberOf(line) >= from {
        line := line.(num := Digits(next));
        next := next + 1;
      }
      assert rest[0] == line && rest[1..] == BumpLines(ls[i + 1..], from, next);
      out := out + [Text(line)];
    }
    assert ls[|ls|..] == [] && out + [] == out;
    r := Concat(out);
  }

  // ----- lines stay lines --------------------------------------------------------------------

  /** A heading with another number is still one line, whatever follows in its place. */
  lemma NumberKeepsLine(l: Line, k: nat, mark: string, rest: string, rest': string)
    requires IsMark(mark) && l.Heading? && IsCut(l, mark)
    requires LineLength(Text(l) + rest) == |Text(l)| && SameStart(rest, rest')
    ensures var t := Text(l.(num := Digits(k)));
      t != [] && LineLength(t + rest') == |t| && t[0] == Text(l)[0]
  {
    var before, after := l.indent + mark + l.num, l.indent + mark + Digits(k);
    UpToNumber(l, rest);
    UpToNumber(l.(num := Digits(k)), rest');
    DigitsRoundTrip(k);
    assert IsDigit(before[|before| - 1]);
    NoEndInside(before, l.tail + rest);
    LineLengthSkips(before, l.tail + rest);
    LineLengthLooksOneAhead(l.tail, rest, rest');
    assert NoLineEnd(after) by {
      assert forall i | 0 <= i < |l.indent| :: l.indent[i] == before[i];
    }
    LineLengthSkips(after, l.tail + rest');
    assert after[0] == before[0];
  }

  /** Where the number of a heading ends. */
  lemma UpToNumber(l: Line, rest: string)
    requires l.Heading?
    ensures Text(l) + rest == (l.indent + l.mark + l.num) + (l.tail + rest)
    ensures |Text(l)| == |l.indent + l.mark + l.num| + |l.tail|
  {
  }

  /** One pass leaves a line alone or gives it another number, and what follows starts the same. */
  lemma LineKept(l: Line, l': Line, k: nat, mark: string, rest: string, rest': string)
    requires IsMark(mark) && IsCut(l, mark)
    requires l' == l || (l.Heading? && l' == l.(num := Digits(k)))
    requires Text(l) != [] && LineLength(Text(l) + rest) == |Text(l)| && SameStart(rest, rest')
    ensures IsCut(l', mark) && Text(l') != [] && LineLength(Text(l') + rest') == |Text(l')|
    ensures SameStart(Text(l) + rest, Text(l') + rest')
  {
    if l' == l {
      LineLengthLooksOneAhead(Text(l), rest, rest');
    } else {
      NumberKeepsLine(l, k, mark, rest, rest');
      DigitsRoundTrip(k);
    }
  }

  lemma {:induction false} MonotonicKeepsLines(ls: seq<Line>, mark: string, last: nat)
    requires IsMark(mark) && AreCutLines(ls, mark)
    ensures AreCutLines(MonotonicLines(ls, last), mark)
    ensures SameStart(Render(ls), Render(MonotonicLines(ls, last)))
  {
    if ls != [] {
      var k := if !ls[0].Heading? then last else if NumberOf(ls[0]) <= last then last + 1 else NumberOf(ls[0]);
      assert Texts(ls)[1..] == Texts(ls[1..]);
      MonotonicKeepsLines(ls[1..], mark, k);
      ConsKeepsLines(ls, MonotonicLines(ls, last), k, mark);
    }
  }

  lemma {:induction false} BumpKeepsLines(ls: seq<Line>, mark: string, from: nat, next: nat)
    requires IsMark(mark) && AreCutLines(ls, mark)
    ensures AreCutLines(BumpLines(ls, from, next), mark)
    ensures SameStart(Render(ls), Render(BumpLines(ls, from, next)))
  {
    if ls != [] {
      var bump := ls[0].Heading? && NumberOf(ls[0]) >= from;
      assert Texts(ls)[1..] == Texts(ls[1..]);
      BumpKeepsLines(ls[1..], mark, from, if bump then next + 1 else next);
      ConsKeepsLines(ls, BumpLines(ls, from, next), next, mark);
    }
  }

  /** The induction step of both. */
  lemma ConsKeepsLines(ls: seq<Line>, ls': seq<Line>, k: nat, mark: string)
    requires IsMark(mark) && ls != [] && ls' != [] && AreCutLines(ls, mark)
    requires ls'[0] == ls[0] || (ls[0].Heading? && ls'[0] == ls[0].(num := Digits(k)))
    requires AreCutLines(ls'[1..], mark) && SameStart(Render(ls[1..]), Render(ls'[1..]))
    ensures AreCutLines(ls', mark) && SameStart(Render(ls), Render(ls'))
  {
    assert Texts(ls)[1..] == Texts(ls[1..]) && Texts(ls')[1..] == Texts(ls'[1..]);
    LineKept(ls[0], ls'[0], k, mark, Render(ls[1..]), Render(ls'[1..]));
  }

  // ----- what the passes do to numbers and to everything else --------------------------------

  lemma {:induction false} MonotonicNumbers(ls: seq<Line>, last: nat)
    ensures Numbers(MonotonicLines(ls, last)) == Raise(Numbers(ls), last)
    ensures Erase(MonotonicLines(ls, last)) == Erase(ls)
  {
    if ls != [] {
      var k := if !ls[0].Heading? then last else if NumberOf(ls[0]) <= last then last + 1 else NumberOf(ls[0]);
      MonotonicNumbers(ls[1..], k);
      DigitsRoundTrip(k);
      assert MonotonicLines(ls, last)[1..] == MonotonicLines(ls[1..], k);
    }
  }

  lemma {:induction false} BumpNumbers(ls: seq<Line>, from: nat, next: nat)
    ensures Numbers(BumpLines(ls, from, next)) == Bump(Numbers(ls), from, next)
    ensures Erase(BumpLines(ls, from, next)) == Erase(ls)
  {
    if ls != [] {
      var bump := ls[0].Heading? && NumberOf(ls[0]) >= from;
      var next' := if bump then next + 1 else next;
      BumpNumbers(ls[1..], from, next');
      DigitsRoundTrip(next);
      assert BumpLines(ls, from, next)[1..] == BumpLines(ls[1..], from, next');
    }
  }

  /** Reading the result of the pass gives the renumbered lines. */
  lemma MonotonicParses(doc: string, mark: string)
    requires IsMark(mark)
    ensures Parse(Monotonic(doc, mark), mark) == MonotonicLines(Parse(doc, mark), 0)
  {
    var ls := Parse(doc, mark);
    ParseDocument(doc, mark);
    MonotonicKeepsLines(ls, mark, 0);
    ParseRendered(MonotonicLines(ls, 0), mark);
  }

  /**
   The monotonic pass on a document: its subclause numbers become the least strictly
   increasing ones from 1 that are nowhere smaller, and nothing else changes.
   */
  lemma MonotonicMeans(doc: string, mark: string)
    requires IsMark(mark)
    ensures var ls, ls' := Parse(doc, mark), Parse(Monotonic(doc, mark), mark);
      && Erase(ls') == Erase(ls)
      && AscendsFrom(Numbers(ls'), 0) && AtLeast(Numbers(ls'), Numbers(ls))
      && forall ms | AscendsFrom(ms, 0) && AtLeast(ms, Numbers(ls)) :: AtLeast(ms, Numbers(ls'))
  {
    MonotonicParses(doc, mark);
    MonotonicNumbers(Parse(doc, mark), 0);
    RaiseIsLeast(Numbers(Parse(doc, mark)), 0);
  }

  // ----- when the pass changes nothing ---------------------------------------------------------

  /** Every heading is written without superfluous zeros. */
  predicate PlainNumerals(ls: seq<Line>) {
    forall i | 0 <= i < |ls| :: ls[i].Heading? ==> CanonicalNumeral(ls[i].num)
  }

  lemma {:induction false} MonotonicLinesFix(ls: seq<Line>, mark: string, last: nat)
    requires AllCut(ls, mark)
    ensures MonotonicLines(ls, last) == ls <==> AscendsFrom(Numbers(ls), last) && PlainNumerals(ls)
  {
    RaiseFixes(Numbers(ls), last);
    if ls != [] {
      var k := if !ls[0].Heading? then last else if NumberOf(ls[0]) <= last then last + 1 else NumberOf(ls[0]);
      MonotonicLinesFix(ls[1..], mark, k);
      RaiseFixes(Numbers(ls[1..]), k);
      assert ls == [ls[0]] + ls[1..];
      assert MonotonicLines(ls, last)[1..] == MonotonicLines(ls[1..], k);
      assert PlainNumerals(ls) <==> (ls[0].Heading? ==> CanonicalNumeral(ls[0].num)) && PlainNumerals(ls[1..]);
      DigitsRoundTrip(k);
      if ls[0].Heading? && CanonicalNumeral(ls[0].num) { CanonicalIsPrinted(ls[0].num); }
    }
  }

  /** The pass leaves a document alone exactly when its numbers ascend from 1 and are plainly written. */
  lemma MonotonicFixes(doc: string, mark: string)
    requires IsMark(mark)
    ensures Monotonic(doc, mark) == doc
      <==> AscendsFrom(Numbers(Parse(doc, mark)), 0) && PlainNumerals(Parse(doc, mark))
  {
    var ls := Parse(doc, mark);
    MonotonicParses(doc, mark);
    ParseDocument(doc, mark);
    MonotonicLinesFix(ls, mark, 0);
  }

  lemma {:induction false} MonotonicIsPlain(ls: seq<Line>, last: nat)
    ensures PlainNumerals(MonotonicLines(ls, last))
  {
    if ls != [] {
      var k := if !ls[0].Heading? then last else if NumberOf(ls[0]) <= last then last + 1 else NumberOf(ls[0]);
      MonotonicIsPlain(ls[1..], k);
      DigitsRoundTrip(k);
    }
  }

  /** A second pass changes nothing. */
  lemma MonotonicIsIdempotent(doc: string, mark: string)
    requires IsMark(mark)
    ensures Monotonic(Monotonic(doc, mark), mark) == Monotonic(doc, mark)
  {
    MonotonicMeans(doc, mark);
    MonotonicParses(doc, mark);
    MonotonicIsPlain(Parse(doc, mark), 0);
    MonotonicFixes(Monotonic(doc, mark), mark);
  }

  // ----- the insertion ------------------------------------------------------------------------

  /** The inserted heading line; the clause text has no line break of its own. */
  function ClauseLine(mark: string, number: nat, clause: string): Line {
    Heading("", mark, Digits(number), " " + clause + "\n")
  }

  /** The text before the final pass. */
  function Merged(before: string, after: string, mark: string, number: nat, clause: string): string {
    before + (Text(ClauseLine(mark, number, clause)) + ("\n" + Bumped(after, mark, number)))
  }

  /** The insertion point follows a line break, or is the start of the document. */
  predicate AtLineStart(before: string) {
    before == "" || before[|before| - 1] == '\n'
  }

  /** A one-line paragraph, as the late-fee text is after `strip`. */
  predicate IsClause(clause: string) {
    clause != "" && Trimmed(clause) && NoLineEnd(clause)
  }

  lemma {:induction false} BareKeepsInk(s: string, i: nat)
    requires i < |s| && !(s[i] in "\r\n")
    ensures Bare(s) != ""
  {
    if s[|s| - 1] in "\r\n" {
      BareKeepsInk(s[..|s| - 1], i);
    }
  }

  lemma ClauseIsCut(mark: string, number: nat, clause: string)
    requires IsMark(mark) && IsClause(clause)
    ensures IsCut(ClauseLine(mark, number, clause), mark)
  {
    DigitsRoundTrip(number);
    BareKeepsInk(" " + clause + "\n", 0);
  }

  lemma ClauseIsOneLine(mark: string, number: nat, clause: string)
    requires IsMark(mark) && IsClause(clause)
    ensures var t := Text(ClauseLine(mark, number, clause));
      SplitLines(t) == [t] && t != "" && t[|t| - 1] == '\n'
  {
    DigitsRoundTrip(number);
    var p := mark + (Digits(number) + (" " + clause));
    ClauseText(mark, number, clause);
    LineLengthSkips(p, "\n");
    SplitOneLine(p + "\n");
  }

  lemma ClauseText(mark: string, number: nat, clause: string)
    ensures Text(ClauseLine(mark, number, clause)) == mark + (Digits(number) + (" " + clause)) + "\n"
  {
    var d, c := Digits(number), " " + clause;
    assert d + (c + "\n") == (d + c) + "\n";
    assert mark + ((d + c) + "\n") == (mark + (d + c)) + "\n";
  }

  lemma BlankParses(mark: string)
    requires IsMark(mark)
    ensures Parse("\n", mark) == [Plain("\n")]
  {
    SplitOneLine("\n");
    CutOne("\n", mark);
  }

  lemma SplitOneLine(s: string)
    requires s != [] && LineLength(s) == |s|
    ensures SplitLines(s) == [s]
  {
    assert s[..|s|] == s && s[|s|..] == [];
  }

  lemma {:induction false} CutAllAppend(a: seq<string>, b: seq<string>, mark: string)
    ensures CutAll(a + b, mark) == CutAll(a, mark) + CutAll(b, mark)
  {
    if a == [] {
      assert a + b == b;
    } else {
      assert (a + b)[1..] == a[1..] + b;
      CutAllAppend(a[1..], b, mark);
    }
  }

  lemma ParseAppend(s: string, t: string, mark: string)
    requires AtLineStart(s)
    ensures Parse(s + t, mark) == Parse(s, mark) + Parse(t, mark)
  {
    SplitAfterNewline(s, t);
    CutAllAppend(SplitLines(s), SplitLines(t), mark);
  }

  lemma {:induction false} NumbersAppend(a: seq<Line>, b: seq<Line>)
    ensures Numbers(a + b) == Numbers(a) + Numbers(b)
  {
    if a == [] {
      assert a + b == b;
    } else {
      assert (a + b)[1..] == a[1..] + b;
      NumbersAppend(a[1..], b);
    }
  }

  lemma {:induction false} EraseAppend(a: seq<Line>, b: seq<Line>)
    ensures Erase(a + b) == Erase(a) + Erase(b) && |Erase(a)| == |a|
  {
    if a == [] {
      assert a + b == b;
    } else {
      assert (a + b)[1..] == a[1..] + b;
      EraseAppend(a[1..], b);
    }
  }

  lemma CutOne(line: string, mark: string)
    ensures CutAll([line], mark) == [Cut(line, mark)]
  {
    assert [line][1..] == [];
  }

  lemma ClauseParses(mark: string, number: nat, clause: string)
    requires IsMark(mark) && IsClause(clause)
    ensures Parse(Text(ClauseLine(mark, number, clause)), mark) == [ClauseLine(mark, number, clause)]
  {
    var line := ClauseLine(mark, number, clause);
    ClauseIsOneLine(mark, number, clause);
    ClauseIsCut(mark, number, clause);
    CutText(line, mark);
    CutOne(Text(line), mark);
  }

  /** Some lines, a blank one, and the rest. */
  lemma BlankBetween(lines: string, tail: string, mark: string)
    requires IsMark(mark) && AtLineStart(lines)
    ensures Parse(lines + ("\n" + tail), mark) == Parse(lines, mark) + ([Plain("\n")] + Parse(tail, mark))
  {
    ParseAppend(lines, "\n" + tail, mark);
    ParseAppend("\n", tail, mark);
    BlankParses(mark);
  }

  lemma Flatten<T>(a: seq<T>, x: T, y: T, b: seq<T>)
    ensures a + ([x] + ([y] + b)) == a + [x, y] + b
  {
  }

  /** A line, a blank one and the rest, behind some lines. */
  lemma SplicedParses(before: string, text: string, line: Line, tail: string, mark: string)
    requires IsMark(mark) && AtLineStart(before) && AtLineStart(text) && Parse(text, mark) == [line]
    ensures Parse(before + (text + ("\n" + tail)), mark)
      == Parse(before, mark) + [line, Plain("\n")] + Parse(tail, mark)
  {
    ParseAppend(before, text + ("\n" + tail), mark);
    BlankBetween(text, tail, mark);
    Flatten(Parse(before, mark), line, Plain("\n"), Parse(tail, mark));
  }

  lemma BumpedParses(suffix: string, mark: string, from: nat)
    requires IsMark(mark)
    ensures Parse(Bumped(suffix, mark, from), mark) == BumpLines(Parse(suffix, mark), from, from + 1)
  {
    ParseDocument(suffix, mark);
    BumpKeepsLines(Parse(suffix, mark), mark, from, from + 1);
    ParseRendered(BumpLines(Parse(suffix, mark), from, from + 1), mark);
  }

  /** The lines of the merged text. */
  lemma MergedParses(before: string, after: string, mark: string, number: nat, clause: string)
    requires IsMark(mark) && AtLineStart(before) && IsClause(clause)
    ensures Parse(Merged(before, after, mark, number, clause), mark)
        == Parse(before, mark) + [ClauseLine(mark, number, clause), Plain("\n")]
           + BumpLines(Parse(after, mark), number, number + 1)
  {
    var line := ClauseLine(mark, number, clause);
    ClauseIsOneLine(mark, number, clause);
    ClauseParses(mark, number, clause);
    BumpedParses(after, mark, number);
    SplicedParses(before, Text(line), line, Bumped(after, mark, number), mark);
  }

  /** Their numbers, and their text without numbers. */
  lemma MergedNumbers(before: string, after: string, mark: string, number: nat, clause: string)
    requires IsMark(mark) && AtLineStart(before) && IsClause(clause)
    ensures var ls := Parse(Merged(before, after, mark, number, clause), mark);
      && Numbers(ls)
           == Numbers(Parse(before, mark)) + [number] + Bump(Numbers(Parse(after, mark)), number, number + 1)
      && Erase(ls)
           == Erase(Parse(before, mark)) + [Heading("", mark, "", " " + clause + "\n"), Plain("\n")]
              + Erase(Parse(after, mark))
  {
    MergedParses(before, after, mark, number, clause);
    AroundInserted(Parse(before, mark), Parse(after, mark), mark, number, clause);
  }

  lemma AroundInserted(a: seq<Line>, b: seq<Line>, mark: string, number: nat, clause: string)
    ensures var ls := a + [ClauseLine(mark, number, clause), Plain("\n")] + BumpLines(b, number, number + 1);
      && Numbers(ls) == Numbers(a) + [number] + Bump(Numbers(b), number, number + 1)
      && Erase(ls) == Erase(a) + [Heading("", mark, "", " " + clause + "\n"), Plain("\n")] + Erase(b)
  {
    var inserted := [ClauseLine(mark, number, clause), Plain("\n")];
    var bumped := BumpLines(b, number, number + 1);
    BumpNumbers(b, number, number + 1);
    NumbersAppend(a + inserted, bumped);
    NumbersAppend(a, inserted);
    EraseAppend(a + inserted, bumped);
    EraseAppend(a, inserted);
    DigitsRoundTrip(number);
    assert inserted[1..] == [Plain("\n")] && [Plain("\n")][1..] == [];
    assert Numbers(inserted) == [number];
  }

  lemma Splice<T>(a: seq<T>, x: seq<T>, b: seq<T>)
    ensures var s, n := a + x + b, |a| + |x|;
      s[|a|..n] == x && s[..|a|] + s[n..] == a + b
  {
  }

  /**
   The insertion gave r. The subclause numbers of r ascend from 1, and erasing them
   together with the two inserted lines gives the original document with its numbers
   erased.
   */
  predicate IsConservative(before: string, after: string, mark: string, clause: string, r: string) {
    var ls, at := Parse(r, mark), |Parse(before, mark)|;
    && AscendsFrom(Numbers(ls), 0)
    && at + 2 <= |Erase(ls)|
    && Erase(ls)[at..at + 2] == [Heading("", mark, "", " " + clause + "\n"), Plain("\n")]
    && Erase(ls)[..at] + Erase(ls)[at + 2..] == Erase(Parse(before + after, mark))
  }

  /** The insertion is conservative, whatever the original numbers were. */
  lemma InsertionIsConservative(before: string, after: string, mark: string, number: nat, clause: string)
    requires IsMark(mark) && AtLineStart(before) && IsClause(clause)
    ensures IsConservative(before, after, mark, clause, Monotonic(Merged(before, after, mark, number, clause), mark))
  {
    MonotonicMeans(Merged(before, after, mark, number, clause), mark);
    MergedNumbers(before, after, mark, number, clause);
    ParseAppend(before, after, mark);
    EraseAppend(Parse(before, mark), Parse(after, mark));
    var inserted := [Heading("", mark, "", " " + clause + "\n"), Plain("\n")];
    Splice(Erase(Parse(before, mark)), inserted, Erase(Parse(after, mark)));
  }

  /** The original numbers ascend from 1, and the first one after the insertion point is reused. */
  predicate ReusesFirst(before: string, after: string, mark: string, number: nat) {
    && AscendsFrom(Numbers(Parse(before, mark)) + Numbers(Parse(after, mark)), 0)
    && Numbers(Parse(after, mark)) != [] && Numbers(Parse(after, mark))[0] == number
  }

  /** The numbers of the merged text then ascend as they are. */
  lemma MergedAscends(before: string, after: string, mark: string, number: nat, clause: string)
    requires IsMark(mark) && AtLineStart(before) && IsClause(clause) && ReusesFirst(before, after, mark, number)
    ensures AscendsFrom(Numbers(Parse(Merged(before, after, mark, number, clause), mark)), 0)
  {
    MergedNumbers(before, after, mark, number, clause);
    ReusedAscends(Numbers(Parse(before, mark)), Numbers(Parse(after, mark)), number);
  }

  lemma ReusedAscends(a: seq<nat>, b: seq<nat>, number: nat)
    requires AscendsFrom(a + b, 0) && b != [] && b[0] == number
    ensures AscendsFrom(a + [number] + Bump(b, number, number + 1), 0)
  {
    InsertKeepsAscending(a, b, 0);
  }

  lemma {:induction false} BumpedIsPlain(ls: seq<Line>, from: nat, next: nat)
    requires forall i | 0 <= i < |Numbers(ls)| :: Numbers(ls)[i] >= from
    ensures PlainNumerals(BumpLines(ls, from, next))
  {
    if ls != [] {
      var ns := Numbers(ls);
      if ls[0].Heading? {
        assert ns[1..] == Numbers(ls[1..]) && ns[0] == NumberOf(ls[0]);
        assert forall i | 0 <= i < |ns[1..]| :: ns[1..][i] == ns[i + 1];
        DigitsRoundTrip(next);
        BumpedIsPlain(ls[1..], from, next + 1);
      } else {
        BumpedIsPlain(ls[1..], from, next);
      }
    }
  }

  lemma PlainAround(a: seq<Line>, x: Line, y: Line, b: seq<Line>)
    requires PlainNumerals([x, y]) && PlainNumerals(b)
    ensures PlainNumerals(a + [x, y] + b) <==> PlainNumerals(a)
  {
    var all := a + [x, y] + b;
    assert forall i | 0 <= i < |a| :: all[i] == a[i];
  }

  /** Everything from the insertion on is printed anew, so only the text before it can hold superfluous zeros. */
  lemma MergedIsPlain(before: string, after: string, mark: string, number: nat, clause: string)
    requires IsMark(mark) && AtLineStart(before) && IsClause(clause) && ReusesFirst(before, after, mark, number)
    ensures PlainNumerals(Parse(Merged(before, after, mark, number, clause), mark))
      <==> PlainNumerals(Parse(before, mark))
  {
    var line, rest := ClauseLine(mark, number, clause), Parse(after, mark);
    MergedParses(before, after, mark, number, clause);
    AscendsInParts(Numbers(Parse(before, mark)), Numbers(rest), 0);
    BumpedIsPlain(rest, number, number + 1);
    DigitsRoundTrip(number);
    PlainAround(Parse(before, mark), line, Plain("\n"), BumpLines(rest, number, number + 1));
  }

  /**
   If the numbers of the original already ascended from 1, and `number` is the first
   of them after the insertion point, the final pass changes no number; and it changes
   nothing at all exactly when the text before the insertion writes its numbers plainly.
   */
  lemma FinalPassIsIdle(before: string, after: string, mark: string, number: nat, clause: string)
    requires IsMark(mark) && AtLineStart(before) && IsClause(clause) && ReusesFirst(before, after, mark, number)
    ensures var merged := Merged(before, after, mark, number, clause);
      && Numbers(Parse(Monotonic(merged, mark), mark))
           == Numbers(Parse(before, mark)) + [number] + Bump(Numbers(Parse(after, mark)), number, number + 1)
      && (Monotonic(merged, mark) == merged <==> PlainNumerals(Parse(before, mark)))
  {
    var merged := Merged(before, after, mark, number, clause);
    MergedNumbers(before, after, mark, number, clause);
    MergedAscends(before, after, mark, number, clause);
    MergedIsPlain(before, after, mark, number, clause);
    MonotonicParses(merged, mark);
    MonotonicNumbers(Parse(merged, mark), 0);
    RaiseFixes(Numbers(Parse(merged, mark)), 0);
    MonotonicFixes(merged, mark);
  }

  /**
   The numbered case of `_insert_late_fee_paragraph`: the document is cut at the
   insertion point, and `major.number` is the first subclause heading after it.
   */
  method InsertClause(before: string, after: string, major: nat, number: nat, clause: string) returns (r: string)
    ensures r == Monotonic(Merged(before, after, Mark(major), number, clause), Mark(major))
    ensures AtLineStart(before) && IsClause(clause) ==> IsConservative(before, after, Mark(major), clause, r)
    ensures AtLineStart(before) && IsClause(clause) && ReusesFirst(before, after, Mark(major), number) ==>
      Numbers(Parse(r, Mark(major)))
        == Numbers(Parse(before, Mark(major))) + [number]
           + Bump(Numbers(Parse(after, Mark(major))), number, number + 1)
  {
    var line := Text(ClauseLine(Mark(major), number, clause));
    var block := line + "\n";
    var tail := BumpNumbered(after, major, number);
    assert before + block + tail == before + (line + ("\n" + tail));
    r := EnsureMonotonic(before + block + tail, major);
    MarkIsMark(major);
    if AtLineStart(before) && IsClause(clause) {
      InsertionIsConservative(before, after, Mark(major), number, clause);
      if ReusesFirst(before, after, Mark(major), number) {
        FinalPassIsIdle(before, after, Mark(major), number, clause);
      }
    }
  }

  // ----- a number with a leading zero -----------------------------------------------------------

  /** A document of one heading is given back with its number printed anew. */
  lemma OneHeading(line: Line, mark: string)
    requires IsMark(mark) && line.Heading? && IsCut(line, mark) && ValueOf(line.num) > 0
    requires Text(line) != "" && LineLength(Text(line)) == |Text(line)|
    ensures Numbers(Parse(Text(line), mark)) == [ValueOf(line.num)]
    ensures Monotonic(Text(line), mark) == Text(line.(num := Digits(ValueOf(line.num))))
  {
    CutText(line, mark);
    SplitOneLine(Text(line));
    CutOne(Text(line), mark);
    OneRenumbered(line);
  }

  lemma OneRenumbered(line: Line)
    requires line.Heading? && AllDigits(line.num) && ValueOf(line.num) > 0
    ensures Numbers([line]) == [ValueOf(line.num)]
    ensures Render(MonotonicLines([line], 0)) == Text(line.(num := Digits(ValueOf(line.num))))
  {
    var next := line.(num := Digits(ValueOf(line.num)));
    assert [line][1..] == [] && MonotonicLines([], NumberOf(line)) == [];
    assert MonotonicLines([line], 0) == [next];
    ConsTexts(next, []);
    assert [next] + [] == [next] && Texts([next]) == [Text(next)];
    ConsLine(Text(next), []);
    assert [Text(next)] + [] == [Text(next)] && Text(next) + "" == Text(next);
  }

  /** So a document whose numbers ascend is rewritten when one of them has a leading zero. */
  lemma LeadingZeroIsRewritten()
    ensures AscendsFrom(Numbers(Parse("1.01 A", Mark(1))), 0) && Monotonic("1.01 A", Mark(1)) == "1.1 A"
  {
    var line := Heading("", Mark(1), "01", " A");
    MarkIsMark(1);
    LeadingZeroText();
    BareKeepsInk(" A", 0);
    OneHeading(line, Mark(1));
  }

  lemma LeadingZeroText()
    ensures Digits(1) == "1" && ValueOf("01") == 1
    ensures Text(Heading("", Mark(1), "01", " A")) == "1.01 A" && Text(Heading("", Mark(1), "1", " A")) == "1.1 A"
    ensures LineLength("1.01 A") == 6
  {
    assert "01"[..1] == "0" && "0"[..0] == "";
    assert Mark(1) == "1.";
    LeadingZeroIsOneLine();
  }

  lemma LeadingZeroIsOneLine()
    ensures LineLength("1.01 A") == 6
  {
    LineLengthSkips("1.01 ", "A");
    assert "1.01 " + "A" == "1.01 A";
  }

  // ----- in literals ------------------------------------------------------------------------------

  /** White space and then more than a line end makes a tail. */
  lemma TailTable()
    ensures IsTail(" b\n") && IsTail(" \n") && IsTail("\tb")
    ensures !IsTail("\n") && !IsTail("\r\n") && !IsTail("b ") && !IsTail("")
  {
    assert " b\n"[..2] == " b" && " \n"[..1] == " " && "\n"[..0] == "" && "\r\n"[..1] == "\r" && "\r"[..0] == "";
  }

  /** White space, the mark, a number and a tail make a heading. */
  lemma HeadingIsCut(indent: string, num: string, tail: string)
    requires AllSpaces(indent) && IsNumber(num) && IsTail(tail)
    ensures Cut(indent + ("3." + (num + tail)), "3.") == Heading(indent, "3.", num, tail)
  {
    CutText(Heading(indent, "3.", num, tail), "3.");
  }

  /** A number without a tail does not, nor a tail without a number, nor another mark. */
  lemma NotAHeading(num: string, tail: string)
    requires AllDigits(num) && (tail != "" ==> !IsDigit(tail[0])) && (num == "" || !IsTail(tail))
    ensures Cut("3." + (num + tail), "3.") == Plain("3." + (num + tail))
    ensures Cut("4." + (num + tail), "3.") == Plain("4." + (num + tail))
  {
    var after := num + tail;
    SpanOfDigits(num, tail);
    TwoParts(num, tail);
    TwoParts("3.", after);
    assert SpaceSpan("3." + after) == 0 && ("3." + after)[0..] == "3." + after;
    assert SpaceSpan("4." + after) == 0 && ("4." + after)[0] == '4';
  }

  lemma MarkInLetters()
    ensures Mark(3) == "3." && Mark(12) == "12."
  {
    assert Digits(12) == "12";
  }
}
