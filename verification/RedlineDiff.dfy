/**
 Paragraph-level diff of two plain-text documents
 (backend/agreements/pro_redline_diff.py).
 */
module RedlineDiff {
  import opened PyText

  const BREAK := "\n\n"

  // ----- splitting into blocks ---------------------------------------------------------

  /** `text.replace("\r\n", "\n")` */
  function Unix(s: string): string {
    if "\r\n" <= s then "\n" + Unix(s[2..])
    else if s == [] then []
    else [s[0]] + Unix(s[1..])
  }

  /** The characters before the first blank line, or all of them. */
  function Head(s: string): string {
    if s == [] || BREAK <= s then [] else [s[0]] + Head(s[1..])
  }

  function SkipNewlines(s: string): string {
    if s != [] && s[0] == '\n' then SkipNewlines(s[1..]) else s
  }

  /** `re.split(r"\n{2,}", s)` */
  function SplitBreaks(s: string): seq<string>
    decreases |s|
  {
    HeadIsPrefix(s);
    var h := Head(s);
    if h == s then [s]
    else
      SkipShortens(s[|h|..]);
      [h] + SplitBreaks(SkipNewlines(s[|h|..]))
  }

  /** `[p.strip() for p in parts if p.strip()]` */
  function StripAll(parts: seq<string>): seq<string> {
    if parts == [] then []
    else (if Strip(parts[0]) == "" then [] else [Strip(parts[0])]) + StripAll(parts[1..])
  }

  /** `_split_blocks` */
  function SplitBlocks(text: string): seq<string> {
    var t := Strip(Unix(text));
    if t == "" then []
    else
      var out := StripAll(SplitBreaks(t));
      if out == [] then [t] else out
  }

  /** `"\n\n".join(blocks)` */
  function Join(blocks: seq<string>): string {
    if blocks == [] then ""
    else if |blocks| == 1 then blocks[0]
    else blocks[0] + BREAK + Join(blocks[1..])
  }

  lemma {:induction false} HeadIsPrefix(s: string)
    ensures Head(s) <= s && !Contains(Head(s), BREAK)
    ensures Head(s) != s ==> BREAK <= s[|Head(s)|..]
  {
    if s != [] && !(BREAK <= s) {
      HeadIsPrefix(s[1..]);
      var h := Head(s[1..]);
      assert Head(s)[1..] == h;
      if h != [] {
        assert Head(s)[1] == h[0] == s[1];
      }
      if Head(s) != s {
        assert s[|Head(s)|..] == s[1..][|h|..];
      }
    }
  }

  lemma {:induction false} SkipShortens(s: string)
    ensures |SkipNewlines(s)| <= |s| && (BREAK <= s ==> |SkipNewlines(s)| <= |s| - 2)
  {
    if s != [] && s[0] == '\n' {
      SkipShortens(s[1..]);
      if BREAK <= s {
        assert s[1..][1..] == s[2..];
        SkipShortens(s[2..]);
      }
    }
  }

  // ----- the blocks of a document --------------------------------------------------------

  /** A block as the splitter makes them: trimmed, not empty, no blank line inside. */
  predicate IsBlock(b: string) {
    b != "" && Trimmed(b) && !Contains(b, BREAK)
  }

  predicate AreBlocks(bs: seq<string>) {
    forall i | 0 <= i < |bs| :: IsBlock(bs[i])
  }

  /** No block holds a carriage return that a second replacement would eat. */
  predicate NoCrLf(bs: seq<string>) {
    forall i | 0 <= i < |bs| :: !Contains(bs[i], "\r\n")
  }

  lemma SliceOfSlice(s: string, i: nat, j: nat, m: nat, n: nat)
    requires i <= j <= |s| && m <= n <= j - i
    ensures s[i..j][m..n] == s[i + m..i + n]
  {
    var a, b := s[i..j][m..n], s[i + m..i + n];
    assert |a| == |b| && forall x | 0 <= x < |a| :: a[x] == b[x];
  }

  /** What stands inside a slice is contained in it. */
  lemma SliceContains(s: string, i: nat, j: nat, w: string, k: nat)
    requires i <= k && k + |w| <= j <= |s| && s[k..k + |w|] == w
    ensures Contains(s[i..j], w)
  {
    SliceOfSlice(s, i, j, k - i, k - i + |w|);
    ContainsAt(s[i..j], w, k - i);
  }

  lemma {:induction false} SliceLacks(s: string, part: string, i: nat, j: nat)
    requires i <= j <= |s| && !Contains(s, part)
    ensures !Contains(s[i..j], part)
  {
    if Contains(s[i..j], part) {
      var k := ContainsWhere(s[i..j], part);
      var m := |part|;
      assert |s[i..j]| == j - i && forall n | 0 <= n < m :: s[i..j][k + n] == part[n];
      assert s[i + k..i + k + m] == part;
      ContainsAt(s, part, i + k);
    }
  }

  lemma {:induction false} SplitBreaksParts(s: string)
    ensures SplitBreaks(s) != []
    ensures forall i | 0 <= i < |SplitBreaks(s)| :: !Contains(SplitBreaks(s)[i], BREAK)
    decreases |s|
  {
    HeadIsPrefix(s);
    var h := Head(s);
    if h != s {
      SkipShortens(s[|h|..]);
      SplitBreaksParts(SkipNewlines(s[|h|..]));
    }
  }

  lemma {:induction false} StripAllBlocks(parts: seq<string>)
    requires forall i | 0 <= i < |parts| :: !Contains(parts[i], BREAK)
    ensures AreBlocks(StripAll(parts))
  {
    if parts != [] {
      StripAllBlocks(parts[1..]);
      var i, j := StripTrims(parts[0]);
      SliceLacks(parts[0], BREAK, i, j);
    }
  }

  /** A non-empty trimmed text leaves at least one block, so the fall-back is never used. */
  lemma FirstPartRemains(t: string)
    requires t != "" && Trimmed(t)
    ensures StripAll(SplitBreaks(t)) != []
  {
    HeadIsPrefix(t);
    var h := Head(t);
    assert h != [] && h[0] == t[0];
    StripKeepsInk(h);
  }

  /** A text with a first character that is not white space does not strip to nothing. */
  lemma StripKeepsInk(s: string)
    requires s != [] && !IsSpace(s[0])
    ensures Strip(s) != ""
  {
    RStripKeepsFirst(s);
  }

  lemma {:induction false} RStripKeepsFirst(s: string)
    requires s != [] && !IsSpace(s[0])
    ensures RStrip(s) != ""
  {
    if IsSpace(s[|s| - 1]) {
      RStripKeepsFirst(s[..|s| - 1]);
    }
  }

  lemma SplitMakesBlocks(text: string)
    ensures AreBlocks(SplitBlocks(text))
    ensures SplitBlocks(text) == [] <==> Strip(Unix(text)) == ""
  {
    var t := Strip(Unix(text));
    var _, _ := StripTrims(Unix(text));
    if t != "" {
      SplitBreaksParts(t);
      StripAllBlocks(SplitBreaks(t));
      FirstPartRemains(t);
    }
  }

  // ----- splitting undoes joining ----------------------------------------------------------

  lemma {:induction false} UnixFixes(s: string)
    ensures !Contains(s, "\r\n") ==> Unix(s) == s
    ensures Contains(s, "\r\n") ==> |Unix(s)| < |s|
    ensures |Unix(s)| <= |s|
    decreases |s|
  {
    if "\r\n" <= s {
      UnixFixes(s[2..]);
    } else if s != [] {
      UnixFixes(s[1..]);
    }
  }

  lemma {:induction false} JoinEnds(bs: seq<string>)
    requires AreBlocks(bs) && bs != []
    ensures Join(bs) != "" && Trimmed(Join(bs)) && Join(bs)[0] == bs[0][0]
  {
    if |bs| > 1 {
      JoinEnds(bs[1..]);
      var j := Join(bs[1..]);
      assert Join(bs)[|Join(bs)| - 1] == j[|j| - 1];
    }
  }

  /** A join contains "\r\n" only inside a block. */
  lemma {:induction false} JoinHasNoCrLf(bs: seq<string>)
    requires AreBlocks(bs) && NoCrLf(bs)
    ensures !Contains(Join(bs), "\r\n")
  {
    if |bs| > 1 {
      JoinHasNoCrLf(bs[1..]);
      if Contains(Join(bs), "\r\n") {
        CrLfInJoin(bs[0], Join(bs[1..]));
      }
    }
  }

  lemma CrLfInJoin(b: string, rest: string)
    requires IsBlock(b) && Contains(b + BREAK + rest, "\r\n")
    ensures Contains(b, "\r\n") || Contains(rest, "\r\n")
  {
    var s := b + BREAK + rest;
    var i := ContainsWhere(s, "\r\n");
    assert s[i..i + 2][0] == s[i] == '\r' && s[i..i + 2][1] == s[i + 1] == '\n';
    if i < |b| {
      assert i + 1 < |b| by {
        assert s[i] == b[i] && IsSpace('\r');
      }
      assert b[i..i + 2] == "\r\n";
      ContainsAt(b, "\r\n", i);
    } else {
      var k := i - |b| - 2;
      assert k >= 0 by {
        assert s[|b|] == '\n' && s[|b| + 1] == '\n';
      }
      assert rest[k] == s[i] && rest[k + 1] == s[i + 1] && rest[k..k + 2] == "\r\n";
      ContainsAt(rest, "\r\n", k);
    }
  }

  lemma {:induction false} HeadOfJoin(b: string, rest: string)
    requires !Contains(b, BREAK) && (b != "" ==> b[|b| - 1] != '\n')
    ensures Head(b + BREAK + rest) == b
  {
    if b == [] {
      assert b + BREAK + rest == BREAK + rest;
    } else {
      var s := b + BREAK + rest;
      assert s[1..] == b[1..] + BREAK + rest;
      assert s[0] == b[0] && s[1] == (if |b| > 1 then b[1] else '\n');
      assert !(BREAK <= b);
      HeadOfJoin(b[1..], rest);
    }
  }

  lemma {:induction false} HeadOfAll(s: string)
    requires !Contains(s, BREAK)
    ensures Head(s) == s
  {
    if s != [] {
      HeadOfAll(s[1..]);
    }
  }

  lemma {:induction false} SplitBreaksJoin(bs: seq<string>)
    requires AreBlocks(bs) && bs != []
    ensures SplitBreaks(Join(bs)) == bs
  {
    var b := bs[0];
    assert IsBlock(b);
    if |bs| == 1 {
      HeadOfAll(b);
    } else {
      var rest := Join(bs[1..]);
      var s := b + BREAK + rest;
      HeadOfJoin(b, rest);
      JoinEnds(bs[1..]);
      assert s[|b|..] == BREAK + rest;
      assert SkipNewlines(rest) == rest;
      assert (BREAK + rest)[1..][1..] == rest;
      assert SkipNewlines(BREAK + rest) == SkipNewlines((BREAK + rest)[1..]) == SkipNewlines((BREAK + rest)[1..][1..]);
      SplitBreaksJoin(bs[1..]);
      assert |s| > |b|;
    }
  }

  lemma {:induction false} StripAllFixes(bs: seq<string>)
    requires AreBlocks(bs)
    ensures StripAll(bs) == bs
  {
    if bs != [] {
      assert IsBlock(bs[0]);
      StripFixes(bs[0]);
      StripAllFixes(bs[1..]);
    }
  }

  /** Splitting a joined list of blocks gives the list back. */
  lemma SplitJoin(bs: seq<string>)
    requires AreBlocks(bs) && NoCrLf(bs)
    ensures SplitBlocks(Join(bs)) == bs
  {
    if bs != [] {
      JoinHasNoCrLf(bs);
      UnixFixes(Join(bs));
      JoinEnds(bs);
      StripFixes(Join(bs));
      SplitBreaksJoin(bs);
      StripAllFixes(bs);
    }
  }

  // ----- when splitting is stable -------------------------------------------------------------

  lemma {:induction false} JoinLength(b: string, bs: seq<string>)
    ensures |Join([b] + bs)| <= |b| + 2 + |Join(bs)|
  {
    assert ([b] + bs)[1..] == bs;
  }

  /** The blocks of a text, joined, are no longer than the text. */
  lemma {:induction false} JoinFits(t: string)
    ensures |Join(StripAll(SplitBreaks(t)))| <= |t|
    decreases |t|
  {
    HeadIsPrefix(t);
    var h := Head(t);
    var _, _ := StripTrims(h);
    if h == t {
      assert SplitBreaks(t)[1..] == [];
    } else {
      SkipShortens(t[|h|..]);
      var rest := SkipNewlines(t[|h|..]);
      JoinFits(rest);
      var tail := StripAll(SplitBreaks(rest));
      assert SplitBreaks(t)[1..] == SplitBreaks(rest);
      assert StripAll(SplitBreaks(t)) == if Strip(h) == "" then tail else [Strip(h)] + tail;
      JoinLength(Strip(h), tail);
    }
  }

  lemma {:induction false} JoinHasCrLf(bs: seq<string>, i: nat)
    requires i < |bs| && Contains(bs[i], "\r\n")
    ensures Contains(Join(bs), "\r\n")
  {
    if |bs| > 1 {
      var part := "\r\n";
      if i == 0 {
        var k := ContainsWhere(bs[0], part);
        assert Join(bs)[k..k + 2] == bs[0][k..k + 2];
        ContainsAt(Join(bs), part, k);
      } else {
        JoinHasCrLf(bs[1..], i - 1);
        var k := ContainsWhere(Join(bs[1..]), part);
        var n := |bs[0]| + 2;
        assert Join(bs)[n + k..n + k + 2] == Join(bs[1..])[k..k + 2];
        ContainsAt(Join(bs), part, n + k);
      }
    }
  }

  /**
   Splitting again gives the blocks of a document back exactly when no block holds
   "\r\n".
   */
  lemma ResplitIff(text: string)
    ensures SplitBlocks(Join(SplitBlocks(text))) == SplitBlocks(text) <==> NoCrLf(SplitBlocks(text))
  {
    var bs := SplitBlocks(text);
    SplitMakesBlocks(text);
    if NoCrLf(bs) {
      SplitJoin(bs);
    } else {
      var i :| 0 <= i < |bs| && Contains(bs[i], "\r\n");
      JoinHasCrLf(bs, i);
      UnixFixes(Join(bs));
      var _, _ := StripTrims(Unix(Join(bs)));
      JoinFits(Strip(Unix(Join(bs))));
      SplitMakesBlocks(Join(bs));
    }
  }

  lemma {:induction false} UnixCrLf(s: string)
    requires Contains(Unix(s), "\r\n")
    ensures Contains(s, "\r\r\n")
    decreases |s|
  {
    if "\r\n" <= s {
      assert Unix(s)[1..] == Unix(s[2..]);
      UnixCrLf(s[2..]);
      assert s[1..][1..] == s[2..];
    } else if s != [] {
      assert Unix(s)[1..] == Unix(s[1..]);
      if "\r\n" <= Unix(s) {
        assert Unix(s)[0] == "\r\n"[0] && Unix(s[1..])[0] == Unix(s)[1] == "\r\n"[1];
        assert s[..3] == "\r\r\n";
      } else {
        UnixCrLf(s[1..]);
      }
    }
  }

  lemma {:induction false} PartsLack(s: string, part: string)
    requires !Contains(s, part)
    ensures forall i | 0 <= i < |SplitBreaks(s)| :: !Contains(SplitBreaks(s)[i], part)
    decreases |s|
  {
    HeadIsPrefix(s);
    var h := Head(s);
    if h != s {
      assert h == s[0..|h|];
      SliceLacks(s, part, 0, |h|);
      SkipShortens(s[|h|..]);
      var rest := SkipNewlines(s[|h|..]);
      SkipIsSuffix(s[|h|..]);
      assert rest == s[|s| - |rest|..|s|];
      SliceLacks(s, part, |s| - |rest|, |s|);
      PartsLack(rest, part);
    }
  }

  lemma {:induction false} SkipIsSuffix(s: string)
    ensures |SkipNewlines(s)| <= |s| && SkipNewlines(s) == s[|s| - |SkipNewlines(s)|..]
  {
    if s != [] && s[0] == '\n' {
      SkipIsSuffix(s[1..]);
    }
  }

  lemma {:induction false} StripAllLacks(parts: seq<string>, part: string)
    requires forall i | 0 <= i < |parts| :: !Contains(parts[i], part)
    ensures forall i | 0 <= i < |StripAll(parts)| :: !Contains(StripAll(parts)[i], part)
  {
    if parts != [] {
      StripAllLacks(parts[1..], part);
      var i, j := StripTrims(parts[0]);
      SliceLacks(parts[0], part, i, j);
    }
  }

  /** What a document lacks, its blocks lack. */
  lemma BlocksLack(text: string, part: string)
    requires !Contains(Unix(text), part)
    ensures forall i | 0 <= i < |SplitBlocks(text)| :: !Contains(SplitBlocks(text)[i], part)
  {
    var u := Unix(text);
    var i, j := StripTrims(u);
    SliceLacks(u, part, i, j);
    PartsLack(Strip(u), part);
    StripAllLacks(SplitBreaks(Strip(u)), part);
    if Strip(u) != "" { FirstPartRemains(Strip(u)); }
  }

  lemma {:induction false} LStripHolds(s: string, w: string)
    requires IsBlock(w) && Contains(s, w)
    ensures Contains(LStrip(s), w)
  {
    if s != [] && IsSpace(s[0]) {
      assert w[0] != s[0];
      LStripHolds(s[1..], w);
    }
  }

  lemma {:induction false} RStripHolds(s: string, w: string)
    requires IsBlock(w) && Contains(s, w)
    ensures Contains(RStrip(s), w)
  {
    if s != [] && IsSpace(s[|s| - 1]) {
      var n := |s| - 1;
      var k := ContainsWhere(s, w);
      assert s[k + |w| - 1] == s[k..k + |w|][|w| - 1] == w[|w| - 1];
      SliceContains(s, 0, n, w, k);
      assert s[..n] == s[0..n];
      RStripHolds(s[..n], w);
    }
  }

  lemma {:induction false} SkipDropsNewlines(s: string)
    ensures |SkipNewlines(s)| <= |s|
    ensures forall i | 0 <= i < |s| - |SkipNewlines(s)| :: s[i] == '\n'
  {
    if s != [] && s[0] == '\n' {
      SkipDropsNewlines(s[1..]);
    }
  }

  /** A run of newlines is no part of a block, so the block stands before or behind it. */
  lemma BesideNewlines(s: string, w: string, k: nat, n: nat, r: nat)
    requires IsBlock(w) && k + |w| <= |s| && forall m | 0 <= m < |w| :: w[m] == s[k + m]
    requires n + 2 <= r <= |s| && forall i | n <= i < r :: s[i] == '\n'
    ensures k + |w| <= n || r <= k
  {
    assert !(n <= k < r) && !(n < k + |w| <= r) by {
      assert w[0] == s[k] && w[|w| - 1] == s[k + |w| - 1];
    }
    if k < n && r < k + |w| {
      var m := n - k;
      assert w[m] == s[n] && w[m + 1] == s[n + 1];
      assert w[m..m + 2] == BREAK;
      ContainsAt(w, BREAK, m);
    }
  }

  lemma BesideTheBreak(s: string, w: string, k: nat)
    requires IsBlock(w) && k + |w| <= |s| && s[k..k + |w|] == w && Head(s) != s
    ensures var n := |Head(s)|; n <= |s| && (k + |w| <= n || |s| - |SkipNewlines(s[n..])| <= k)
  {
    HeadIsPrefix(s);
    var n := |Head(s)|;
    var r := |s| - |SkipNewlines(s[n..])|;
    SkipShortens(s[n..]);
    SkipDropsNewlines(s[n..]);
    assert forall i | n <= i < r :: s[i] == s[n..][i - n];
    assert forall m | 0 <= m < |w| :: w[m] == s[k..k + |w|][m];
    BesideNewlines(s, w, k, n, r);
  }

  lemma {:induction false} PartHolds(s: string, w: string) returns (i: nat)
    requires IsBlock(w) && Contains(s, w)
    ensures i < |SplitBreaks(s)| && Contains(SplitBreaks(s)[i], w)
    decreases |s|
  {
    HeadIsPrefix(s);
    var n := |Head(s)|;
    var k := ContainsWhere(s, w);
    i := 0;
    if Head(s) != s {
      BesideTheBreak(s, w, k);
      var rest := SkipNewlines(s[n..]);
      var r := |s| - |rest|;
      SkipShortens(s[n..]);
      SkipIsSuffix(s[n..]);
      if k + |w| <= n {
        SliceContains(s, 0, n, w, k);
        assert Head(s) == s[0..n];
      } else {
        SliceContains(s, r, |s|, w, k);
        assert rest == s[r..|s|];
        i := PartHolds(rest, w);
        i := i + 1;
      }
    }
  }

  lemma {:induction false} StripAllHolds(parts: seq<string>, w: string, i: nat) returns (j: nat)
    requires IsBlock(w) && i < |parts| && Contains(parts[i], w)
    ensures j < |StripAll(parts)| && Contains(StripAll(parts)[j], w)
  {
    if i == 0 {
      LStripHolds(parts[0], w);
      RStripHolds(LStrip(parts[0]), w);
      j := 0;
    } else {
      j := StripAllHolds(parts[1..], w, i - 1);
      j := j + |StripAll(parts)| - |StripAll(parts[1..])|;
    }
  }

  /** A trimmed text without a blank line stands in a document exactly when it stands in one of its blocks. */
  lemma BlocksHold(text: string, w: string)
    requires IsBlock(w)
    ensures Contains(Unix(text), w) <==> exists i | 0 <= i < |SplitBlocks(text)| :: Contains(SplitBlocks(text)[i], w)
  {
    if Contains(Unix(text), w) {
      var t := Strip(Unix(text));
      LStripHolds(Unix(text), w);
      RStripHolds(LStrip(Unix(text)), w);
      var k := PartHolds(t, w);
      var i := StripAllHolds(SplitBreaks(t), w, k);
      assert Contains(SplitBlocks(text)[i], w);
    } else {
      BlocksLack(text, w);
    }
  }

  /** "\r\n" stands at place i, between ink at p and at q, and no blank line is in that stretch. */
  predicate InkAround(s: string, p: nat, i: nat, q: nat) {
    && p < i && i + 1 < q < |s| && s[i..i + 2] == "\r\n"
    && !IsSpace(s[p]) && !IsSpace(s[q]) && !Contains(s[p..q + 1], BREAK)
  }

  lemma StandsAt(s: string, i: nat, w: string)
    requires i + |w| <= |s| && s[i..i + |w|] == w
    ensures forall m | 0 <= m < |w| :: s[i + m] == w[m]
  {
  }

  /** A block neither begins nor ends with a line end. */
  lemma CrLfIsInside(b: string, k: nat)
    requires b != "" && Trimmed(b) && k + 2 <= |b| && b[k..k + 2] == "\r\n"
    ensures 0 < k && k + 2 < |b|
  {
    StandsAt(b, k, "\r\n");
    assert b[k] == "\r\n"[0] && b[k + 1] == "\r\n"[1];
  }

  lemma InkAtBothEnds(u: string, p: nat, b: string)
    requires b != "" && Trimmed(b) && p + |b| <= |u| && u[p..p + |b|] == b
    ensures !IsSpace(u[p]) && !IsSpace(u[p + |b| - 1])
  {
    StandsAt(u, p, b);
    assert u[p + 0] == b[0];
  }

  lemma BlockIsInked(u: string, b: string) returns (p: nat, i: nat, q: nat)
    requires IsBlock(b) && Contains(u, b) && Contains(b, "\r\n")
    ensures InkAround(u, p, i, q)
  {
    p := ContainsWhere(u, b);
    var k := ContainsWhere(b, "\r\n");
    CrLfIsInside(b, k);
    InkAtBothEnds(u, p, b);
    SliceOfSlice(u, p, p + |b|, k, k + 2);
    i, q := p + k, p + |b| - 1;
  }

  lemma ContainsInner(s: string, w: string, part: string)
    requires Contains(s, w) && Contains(w, part)
    ensures Contains(s, part)
  {
    var m := ContainsWhere(s, w);
    if !Contains(s, part) { SliceLacks(s, part, m, m + |w|); }
  }

  lemma InkedIsBlock(u: string, p: nat, i: nat, q: nat)
    requires InkAround(u, p, i, q)
    ensures var w := u[p..q + 1]; IsBlock(w) && Contains(u, w) && Contains(w, "\r\n")
  {
    var w := u[p..q + 1];
    ContainsAt(u, w, p);
    SliceOfSlice(u, p, q + 1, i - p, i - p + 2);
    ContainsAt(w, "\r\n", i - p);
  }

  lemma InkedIsHeld(text: string, p: nat, i: nat, q: nat)
    requires InkAround(Unix(text), p, i, q)
    ensures !NoCrLf(SplitBlocks(text))
  {
    var bs, w := SplitBlocks(text), Unix(text)[p..q + 1];
    InkedIsBlock(Unix(text), p, i, q);
    BlocksHold(text, w);
    var k :| 0 <= k < |bs| && Contains(bs[k], w);
    ContainsInner(bs[k], w, "\r\n");
  }

  /** Which documents have a block that holds "\r\n". */
  lemma NoCrLfExactly(text: string)
    ensures NoCrLf(SplitBlocks(text)) <==> forall p: nat, i: nat, q: nat :: !InkAround(Unix(text), p, i, q)
  {
    var u, bs := Unix(text), SplitBlocks(text);
    if !NoCrLf(bs) {
      var k :| 0 <= k < |bs| && Contains(bs[k], "\r\n");
      SplitMakesBlocks(text);
      BlocksHold(text, bs[k]);
      var p, i, q := BlockIsInked(u, bs[k]);
    }
    if p: nat, i: nat, q: nat :| InkAround(u, p, i, q) {
      InkedIsHeld(text, p, i, q);
    }
  }

  /** In particular a text without "\r\r\n" is stable. */
  lemma StableWithoutCrCrLf(text: string)
    requires !Contains(text, "\r\r\n")
    ensures NoCrLf(SplitBlocks(text))
  {
    if Contains(Unix(text), "\r\n") { UnixCrLf(text); }
    BlocksLack(text, "\r\n");
  }

  /** One with it need not be. */
  lemma CrCrLfIsUnstable()
    ensures SplitBlocks("a\r\r\nb") == ["a\r\nb"] && !NoCrLf(["a\r\nb"])
  {
    var text := "a\r\r\nb";
    assert text[1..] == "\r\r\nb" && text[1..][1..] == "\r\nb" && text[1..][1..][2..] == "b";
    assert Unix("b") == "b";
    assert Unix("\r\nb") == "\nb";
    assert Unix("\r\r\nb") == "\r\nb";
    var u := "a\r\nb";
    assert Unix(text) == u;
    StripFixes(u);
    assert u[1..3] == "\r\n";
    ContainsAt(u, "\r\n", 1);
    assert Head("b") == "b" && Head("\nb") == "\nb" && Head("\r\nb") == "\r\nb" && Head(u) == u;
    assert SplitBreaks(u) == [u];
    assert [u][1..] == [];
  }

  // ----- the diff ------------------------------------------------------------------------------

  datatype Tag = TagEqual | TagReplace | TagDelete | TagInsert

  datatype Opcode = Opcode(tag: Tag, i1: nat, i2: nat, j1: nat, j2: nat)

  datatype Block =
    | Equal(text: string)
    | Changed(removedText: string, addedText: string)
    | Removed(text: string)
    | Added(text: string)

  /** The opcodes cover both lists from (i, j) on, in order, and mean what their tags say. */
  predicate Tiles(ops: seq<Opcode>, a: seq<string>, b: seq<string>, i: nat, j: nat) {
    if ops == [] then i == |a| && j == |b|
    else
      var op := ops[0];
      && op.i1 == i <= op.i2 <= |a| && op.j1 == j <= op.j2 <= |b|
      && (op.tag == TagEqual ==> a[op.i1..op.i2] == b[op.j1..op.j2])
      && (op.tag == TagDelete ==> op.j1 == op.j2)
      && (op.tag == TagInsert ==> op.i1 == op.i2)
      && Tiles(ops[1..], a, b, op.i2, op.j2)
  }

  /** The base-side text of an output block, split into blocks again. */
  function BaseSide(block: Block): seq<string> {
    match block
    case Equal(t) => SplitBlocks(t)
    case Changed(r, _) => SplitBlocks(r)
    case Removed(t) => SplitBlocks(t)
    case Added(_) => []
  }

  function ImportedSide(block: Block): seq<string> {
    match block
    case Equal(t) => SplitBlocks(t)
    case Changed(_, a) => SplitBlocks(a)
    case Removed(_) => []
    case Added(t) => SplitBlocks(t)
  }

  function BaseOf(blocks: seq<Block>): seq<string> {
    if blocks == [] then [] else BaseOf(blocks[..|blocks| - 1]) + BaseSide(blocks[|blocks| - 1])
  }

  function ImportedOf(blocks: seq<Block>): seq<string> {
    if blocks == [] then [] else ImportedOf(blocks[..|blocks| - 1]) + ImportedSide(blocks[|blocks| - 1])
  }

  function CountChanged(blocks: seq<Block>): nat {
    if blocks == [] then 0
    else CountChanged(blocks[..|blocks| - 1]) + (if blocks[|blocks| - 1].Equal? then 0 else 1)
  }

  /** The length of the blocks with a break after each. */
  function Weight(bs: seq<string>): nat {
    if bs == [] then 0 else |bs[0]| + 2 + Weight(bs[1..])
  }

  lemma {:induction false} WeightAppend(a: seq<string>, b: seq<string>)
    ensures Weight(a + b) == Weight(a) + Weight(b)
  {
    if a == [] {
      assert a + b == b;
    } else {
      assert (a + b)[1..] == a[1..] + b;
      WeightAppend(a[1..], b);
    }
  }

  lemma {:induction false} WeightIsJoin(bs: seq<string>)
    requires bs != []
    ensures Weight(bs) == |Join(bs)| + 2
  {
    if |bs| > 1 {
      WeightIsJoin(bs[1..]);
    } else {
      assert bs[1..] == [];
    }
  }

  /** The blocks of a text, joined, are no longer than the text. */
  lemma SplitFits(t: string)
    ensures SplitBlocks(t) == [] || Weight(SplitBlocks(t)) <= |Unix(t)| + 2
  {
    var u := Strip(Unix(t));
    var _, _ := StripTrims(Unix(t));
    if u != "" {
      FirstPartRemains(u);
      JoinFits(u);
      WeightIsJoin(SplitBlocks(t));
    }
  }

  /** The blocks come back as they are, or, when one holds "\r\n", some of them shorter. */
  predicate IsRebuilt(out: seq<string>, bs: seq<string>) {
    if NoCrLf(bs) then out == bs else Weight(out) < Weight(bs)
  }

  lemma RebuiltExactly(out: seq<string>, bs: seq<string>)
    requires IsRebuilt(out, bs)
    ensures out == bs <==> NoCrLf(bs)
  {
  }

  lemma RebuiltAppend(out: seq<string>, bs: seq<string>, out': seq<string>, bs': seq<string>)
    requires IsRebuilt(out, bs) && IsRebuilt(out', bs')
    ensures IsRebuilt(out + out', bs + bs')
  {
    WeightAppend(out, out');
    WeightAppend(bs, bs');
    var all := bs + bs';
    assert forall i | 0 <= i < |bs| :: all[i] == bs[i];
    assert forall i | 0 <= i < |bs'| :: all[|bs| + i] == bs'[i];
  }

  /** The text of a run of blocks: stripping it changes nothing, and what it splits into. */
  lemma ChunkText(bs: seq<string>)
    requires AreBlocks(bs)
    ensures Strip(Join(bs)) == Join(bs) && (Join(bs) == "" <==> bs == [])
    ensures IsRebuilt(SplitBlocks(Join(bs)), bs)
  {
    if bs == [] {
      StripFixes("");
    } else {
      JoinEnds(bs);
      StripFixes(Join(bs));
    }
    if NoCrLf(bs) {
      SplitJoin(bs);
    } else {
      var i :| 0 <= i < |bs| && Contains(bs[i], "\r\n");
      JoinHasCrLf(bs, i);
      UnixFixes(Join(bs));
      SplitFits(Join(bs));
      WeightIsJoin(bs);
    }
  }

  lemma OneBlock(block: Block)
    ensures BaseOf([block]) == BaseSide(block) && ImportedOf([block]) == ImportedSide(block)
  {
    assert [block][..0] == [];
    assert [] + BaseSide(block) == BaseSide(block) && [] + ImportedSide(block) == ImportedSide(block);
  }

  /** What one more block, or none, adds to the output. */
  lemma MoreBlocks(blocks: seq<Block>, out: seq<Block>)
    requires |out| <= 1
    ensures BaseOf(blocks + out) == BaseOf(blocks) + BaseOf(out)
    ensures ImportedOf(blocks + out) == ImportedOf(blocks) + ImportedOf(out)
    ensures CountChanged(blocks + out) == CountChanged(blocks) + (if out == [] || out[0].Equal? then 0 else 1)
  {
    if out == [] {
      assert blocks + out == blocks;
    } else {
      assert out == [out[0]] && (blocks + out)[..|blocks|] == blocks;
      OneBlock(out[0]);
    }
  }

  /** One opcode further on one side. */
  lemma SideNext(a: seq<string>, i: nat, k: nat, out: seq<string>, more: seq<string>)
    requires i <= k <= |a| && IsRebuilt(out, a[..i]) && IsRebuilt(more, a[i..k])
    ensures IsRebuilt(out + more, a[..k]) && a[..k] == a[..i] + a[i..k]
  {
    TwoSlices(a, i, k);
    RebuiltAppend(out, a[..i], more, a[i..k]);
  }

  lemma TwoSlices<T>(a: seq<T>, i: nat, k: nat)
    requires i <= k <= |a|
    ensures a[..k] == a[..i] + a[i..k]
  {
  }

  lemma OutRebuilds(out: seq<Block>, base: seq<string>, imported: seq<string>)
    requires out == [] ==> base == [] && imported == []
    requires out != [] ==> |out| == 1 && IsRebuilt(BaseSide(out[0]), base) && IsRebuilt(ImportedSide(out[0]), imported)
    ensures IsRebuilt(BaseOf(out), base) && IsRebuilt(ImportedOf(out), imported)
  {
    if out != [] {
      OneBlock(out[0]);
      assert out == [out[0]];
    }
  }

  lemma NothingRebuilt()
    ensures IsRebuilt([], [])
  {
  }

  /** The branch for one opcode and its two slices: at most one block, which holds both sides. */
  method DiffOne(tag: Tag, removed: seq<string>, added: seq<string>) returns (out: seq<Block>)
    requires AreBlocks(removed) && AreBlocks(added)
    requires tag == TagEqual ==> removed == added
    requires tag == TagDelete ==> added == []
    requires tag == TagInsert ==> removed == []
    ensures |out| <= 1
    ensures |out| == 0 <==> removed == [] && added == []
    ensures |out| == 1 ==> (out[0].Equal? <==> tag == TagEqual)
    ensures IsRebuilt(BaseOf(out), removed) && IsRebuilt(ImportedOf(out), added)
    // the block says what happened: kept, gone, new, or one text for the other
    ensures out ==
      if removed == [] && added == [] then []
      else if tag == TagEqual then [Equal(Join(removed))]
      else if added == [] then [Removed(Join(removed))]
      else if removed == [] then [Added(Join(added))]
      else [Changed(Join(removed), Join(added))]
  {
    ChunkText(removed);
    ChunkText(added);
    var left, right := Join(removed), Join(added);
    out := [];
    match tag {
      case TagEqual =>
        if Strip(left) != "" { out := [Equal(left)]; }
      case TagReplace =>
        left, right := Strip(left), Strip(right);
        if left != "" && right != "" {
          out := [Changed(left, right)];
        } else if left != "" {
          out := [Removed(left)];
        } else if right != "" {
          out := [Added(right)];
        }
      case TagDelete =>
        left := Strip(left);
        if left != "" { out := [Removed(left)]; }
      case TagInsert =>
        right := Strip(right);
        if right != "" { out := [Added(right)]; }
    }
    NothingRebuilt();
    OutRebuilds(out, removed, added);
  }

  /** What the first opcode says of the slices it takes, and that the rest goes on behind them. */
  lemma NextOpcode(ops: seq<Opcode>, k: nat, a: seq<string>, b: seq<string>, i: nat, j: nat)
    requires k < |ops| && Tiles(ops[k..], a, b, i, j) && AreBlocks(a) && AreBlocks(b)
    ensures var op := ops[k];
      && op.i1 == i <= op.i2 <= |a| && op.j1 == j <= op.j2 <= |b|
      && AreBlocks(a[i..op.i2]) && AreBlocks(b[j..op.j2])
      && (op.tag == TagEqual ==> a[i..op.i2] == b[j..op.j2])
      && (op.tag == TagDelete ==> b[j..op.j2] == [])
      && (op.tag == TagInsert ==> a[i..op.i2] == [])
      && Tiles(ops[k + 1..], a, b, op.i2, op.j2)
  {
    assert ops[k..][1..] == ops[k + 1..];
  }

  /** `compute_pro_redline_block_diff`, for whatever opcodes the matcher returns. */
  method Diff(base: string, imported: string, ops: seq<Opcode>) returns (blocks: seq<Block>, changed: nat)
    requires Tiles(ops, SplitBlocks(base), SplitBlocks(imported), 0, 0)
    ensures BaseOf(blocks) == SplitBlocks(base) <==> NoCrLf(SplitBlocks(base))
    ensures ImportedOf(blocks) == SplitBlocks(imported) <==> NoCrLf(SplitBlocks(imported))
    ensures changed == CountChanged(blocks)
    ensures changed == 0 ==> SplitBlocks(base) == SplitBlocks(imported)
  {
    SplitMakesBlocks(base);
    SplitMakesBlocks(imported);
    blocks, changed := DiffBlocks(SplitBlocks(base), SplitBlocks(imported), ops);
    RebuiltExactly(BaseOf(blocks), SplitBlocks(base));
    RebuiltExactly(ImportedOf(blocks), SplitBlocks(imported));
  }

  /** Its loop over the opcodes. */
  method DiffBlocks(a: seq<string>, b: seq<string>, ops: seq<Opcode>) returns (blocks: seq<Block>, changed: nat)
    requires AreBlocks(a) && AreBlocks(b) && Tiles(ops, a, b, 0, 0)
    ensures IsRebuilt(BaseOf(blocks), a) && IsRebuilt(ImportedOf(blocks), b)
    ensures changed == CountChanged(blocks) && (changed == 0 ==> a == b)
  {
    blocks, changed := [], 0;
    ghost var i: nat, j: nat := 0, 0;
    assert ops[0..] == ops;
    NothingRebuilt();
    for k := 0 to |ops|
      invariant i <= |a| && j <= |b| && Tiles(ops[k..], a, b, i, j)
      invariant IsRebuilt(BaseOf(blocks), a[..i]) && IsRebuilt(ImportedOf(blocks), b[..j])
      invariant changed == CountChanged(blocks)
      invariant changed == 0 ==> a[..i] == b[..j]
    {
      var op := ops[k];
      NextOpcode(ops, k, a, b, i, j);
      var out := DiffOne(op.tag, a[op.i1..op.i2], b[op.j1..op.j2]);
      SideNext(a, i, op.i2, BaseOf(blocks), BaseOf(out));
      SideNext(b, j, op.j2, ImportedOf(blocks), ImportedOf(out));
      MoreBlocks(blocks, out);
      if out != [] && !out[0].Equal? {
        changed := changed + 1;
      }
      blocks := blocks + out;
      i, j := op.i2, op.j2;
    }
    assert a[..|a|] == a && b[..|b|] == b;
  }

  // ----- in literals -----------------------------------------------------------------------------

  /** A blank line separates, whatever its line ends. */
  lemma SampleBlocks()
    ensures SplitBlocks("a\r\n\r\nb") == ["a", "b"]
  {
    var bs := ["a", "b"];
    assert bs[1..] == ["b"] && ["b"][1..] == [];
    assert Join(bs) == "a" + BREAK + "b" == "a\n\nb";
    LettersAreBlocks();
    SplitJoin(bs);
    SampleUnix();
    assert SplitBlocks("a\r\n\r\nb") == SplitBlocks("a\n\nb");
  }

  lemma LettersAreBlocks()
    ensures AreBlocks(["a", "b"]) && NoCrLf(["a", "b"])
  {
    assert "a"[1..] == "" && "b"[1..] == "";
  }

  lemma SampleUnix()
    ensures Unix("a\r\n\r\nb") == "a\n\nb" && Unix("a\n\nb") == "a\n\nb"
  {
    assert "a\r\n\r\nb"[1..] == "\r\n\r\nb" && "\r\n\r\nb"[2..] == "\r\nb" && "\r\nb"[2..] == "b";
    assert "a\n\nb"[1..] == "\n\nb" && "\n\nb"[1..] == "\nb" && "\nb"[1..] == "b" && "b"[1..] == "";
    assert Unix("b") == "b" && Unix("\r\nb") == "\nb" && Unix("\nb") == "\nb";
  }

  /** A single newline does not. */
  lemma SampleLine()
    ensures SplitBlocks("a\nb") == ["a\nb"]
  {
    var bs := ["a\nb"];
    assert "a\nb"[1..] == "\nb" && "\nb"[1..] == "b" && "b"[1..] == "";
    assert IsBlock("a\nb") && !Contains("a\nb", "\r\n");
    assert Join(bs) == "a\nb";
    SplitJoin(bs);
  }
}
