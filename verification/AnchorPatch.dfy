/**
 Splicing a paragraph in after an anchor text that must occur once
 (`_try_llm_narrow_anchor_patch` in backend/agreements/premium_refine_narrow.py).
 */
module AnchorPatch {
  import opened Wrappers
  import opened PyText

  const MIN_ANCHOR := 24
  const MAX_ANCHOR := 420

  predicate OccursAt(doc: string, part: string, i: int) {
    0 <= i <= i + |part| <= |doc| && doc[i..i + |part|] == part
  }

  /** `doc.find(part, from)` */
  function Find(doc: string, part: string, from: nat): Option<nat>
    decreases |doc| - from
  {
    if from > |doc| then None
    else if OccursAt(doc, part, from) then Some(from)
    else Find(doc, part, from + 1)
  }

  /** `doc[from:].count(part)`: occurrences are counted from the left and do not overlap. */
  function Count(doc: string, part: string, from: nat): nat
    requires part != ""
    decreases |doc| - from
  {
    var i := Find(doc, part, from);
    if i.Some? && from <= i.value < |doc| then 1 + Count(doc, part, i.value + |part|) else 0
  }

  lemma {:induction false} FindIsLeftmost(doc: string, part: string, from: nat)
    ensures match Find(doc, part, from)
            case Some(i) => from <= i && OccursAt(doc, part, i) && forall j | from <= j < i :: !OccursAt(doc, part, j)
            case None => forall j | from <= j :: !OccursAt(doc, part, j)
    decreases |doc| - from
  {
    if from <= |doc| && !OccursAt(doc, part, from) {
      FindIsLeftmost(doc, part, from + 1);
    }
  }

  function Patch(doc: string, rawAnchor: string, rawParagraph: string): Option<string> {
    var anchor, paragraph := Strip(rawAnchor), Strip(rawParagraph);
    if anchor == "" || paragraph == "" || |anchor| < MIN_ANCHOR || |anchor| > MAX_ANCHOR then None
    else if Count(doc, anchor, 0) != 1 then None
    else ReplaceFirst(doc, anchor, anchor + Insertion(paragraph))
  }

  function Insertion(paragraph: string): string {
    "\n\n" + paragraph + "\n\n"
  }

  /** `doc.replace(part, by, 1)`, when there is something to replace */
  function ReplaceFirst(doc: string, part: string, with: string): Option<string> {
    match Find(doc, part, 0)
    case Some(i) => if i + |part| <= |doc| then Some(doc[..i] + with + doc[i + |part|..]) else None
    case None => None
  }

  /** i is the first place where the anchor occurs, and it occurs nowhere after its end there. */
  predicate OnlyAround(doc: string, anchor: string, i: nat) {
    && OccursAt(doc, anchor, i)
    && (forall j | 0 <= j < i :: !OccursAt(doc, anchor, j))
    && forall j | i + |anchor| <= j < |doc| :: !OccursAt(doc, anchor, j)
  }

  lemma CountIsOne(doc: string, anchor: string)
    requires anchor != ""
    ensures Count(doc, anchor, 0) == 1 <==> exists i: nat :: OnlyAround(doc, anchor, i)
  {
    FindIsLeftmost(doc, anchor, 0);
    if Find(doc, anchor, 0).Some? {
      var i := Find(doc, anchor, 0).value;
      FindIsLeftmost(doc, anchor, i + |anchor|);
      if Count(doc, anchor, 0) == 1 {
        assert OnlyAround(doc, anchor, i);
      }
    }
  }

  /**
   A patch is made exactly when both texts are there, the anchor has 24 to 420 characters
   and occurs with no second occurrence clear of the first. It then only inserts: cutting
   the insertion out behind the anchor gives the document back.
   */
  lemma PatchOnlyInserts(doc: string, rawAnchor: string, rawParagraph: string)
    ensures var anchor, paragraph := Strip(rawAnchor), Strip(rawParagraph);
      Patch(doc, rawAnchor, rawParagraph).Some? <==>
        && paragraph != "" && 24 <= |anchor| <= 420
        && exists i: nat :: OnlyAround(doc, anchor, i)
    ensures var anchor, insertion := Strip(rawAnchor), "\n\n" + Strip(rawParagraph) + "\n\n";
      match Patch(doc, rawAnchor, rawParagraph)
      case None => true
      case Some(r) =>
        exists i: nat | OnlyAround(doc, anchor, i) ::
          var cut := i + |anchor|;
          && r[..cut] == doc[..cut] && |r| == |doc| + |insertion|
          && r[cut..cut + |insertion|] == insertion && r[..cut] + r[cut + |insertion|..] == doc
  {
    var anchor, insertion := Strip(rawAnchor), Insertion(Strip(rawParagraph));
    FindIsLeftmost(doc, anchor, 0);
    if anchor != "" {
      CountIsOne(doc, anchor);
    }
    if Patch(doc, rawAnchor, rawParagraph).Some? {
      var i := Find(doc, anchor, 0).value;
      SplicedAt(doc, anchor, insertion, i);
      var k: nat :| OnlyAround(doc, anchor, k);
      assert k == i by {
        assert !(k < i) && !(i < k);
      }
    }
  }

  lemma SplicedAt(doc: string, anchor: string, insertion: string, i: nat)
    requires OccursAt(doc, anchor, i)
    ensures var r, cut := doc[..i] + (anchor + insertion) + doc[i + |anchor|..], i + |anchor|;
      && r[..cut] == doc[..cut] && |r| == |doc| + |insertion|
      && r[cut..cut + |insertion|] == insertion && r[..cut] + r[cut + |insertion|..] == doc
  {
    var cut := i + |anchor|;
    assert doc == doc[..cut] + doc[cut..] && doc[..cut] == doc[..i] + anchor;
    assert doc[..i] + (anchor + insertion) + doc[cut..] == doc[..cut] + insertion + doc[cut..];
  }

  // ----- when a count of one means one place ------------------------------------------------

  /** The last b characters of the anchor are its first ones. */
  predicate IsBorder(anchor: string, b: int) {
    0 < b < |anchor| && anchor[..b] == anchor[|anchor| - b..]
  }

  predicate IsBordered(anchor: string) {
    exists b | 0 < b < |anchor| :: IsBorder(anchor, b)
  }

  /** The anchor occurs at one place, and overlapping occurrences are told apart. */
  ghost predicate OccursOnce(doc: string, anchor: string) {
    exists i :: OccursAt(doc, anchor, i) && forall j | OccursAt(doc, anchor, j) :: j == i
  }

  /** Two occurrences that overlap share a border of the anchor. */
  lemma OverlapIsBorder(doc: string, anchor: string, i: int, j: int)
    requires OccursAt(doc, anchor, i) && OccursAt(doc, anchor, j) && i < j < i + |anchor|
    ensures IsBorder(anchor, i + |anchor| - j)
  {
    var b := i + |anchor| - j;
    assert doc[j..j + |anchor|][..b] == doc[j..j + b];
    assert doc[i..i + |anchor|][|anchor| - b..] == doc[j..j + b];
  }

  /** A single occurrence counts as one. */
  lemma OnceCountsOne(doc: string, anchor: string)
    requires anchor != "" && OccursOnce(doc, anchor)
    ensures Count(doc, anchor, 0) == 1
  {
    var i: nat :| OccursAt(doc, anchor, i) && forall j | OccursAt(doc, anchor, j) :: j == i;
    assert OnlyAround(doc, anchor, i);
    CountIsOne(doc, anchor);
  }

  lemma UnborderedIsUnique(doc: string, anchor: string)
    requires anchor != "" && !IsBordered(anchor) && Count(doc, anchor, 0) == 1
    ensures OccursOnce(doc, anchor)
  {
    CountIsOne(doc, anchor);
    var i: nat :| OnlyAround(doc, anchor, i);
    forall j | OccursAt(doc, anchor, j) ensures j == i {
      if i < j < i + |anchor| {
        OverlapIsBorder(doc, anchor, i, j);
      }
    }
  }

  /** The anchor run into itself over a border of length b. */
  function Overlapped(anchor: string, b: int): string
    requires IsBorder(anchor, b)
  {
    anchor + anchor[b..]
  }

  lemma OverlappedOccurs(anchor: string, b: int)
    requires IsBorder(anchor, b)
    ensures OccursAt(Overlapped(anchor, b), anchor, 0) && OccursAt(Overlapped(anchor, b), anchor, |anchor| - b)
  {
    var doc, n := Overlapped(anchor, b), |anchor|;
    assert doc[n - b..][..b] == anchor[n - b..] && doc[n - b..][b..] == anchor[b..];
    assert doc[n - b..] == anchor[..b] + anchor[b..];
    assert anchor[..b] + anchor[b..] == anchor;
  }

  /** That document has the anchor twice and a count of one. */
  lemma BorderedOccursTwice(anchor: string, b: int)
    requires IsBorder(anchor, b)
    ensures Count(Overlapped(anchor, b), anchor, 0) == 1 && !OccursOnce(Overlapped(anchor, b), anchor)
  {
    var doc := Overlapped(anchor, b);
    OverlappedOccurs(anchor, b);
    OnlyAroundStart(doc, anchor);
    CountIsOne(doc, anchor);
  }

  lemma OnlyAroundStart(doc: string, anchor: string)
    requires anchor != "" && OccursAt(doc, anchor, 0) && |doc| < 2 * |anchor|
    ensures OnlyAround(doc, anchor, 0)
  {
  }

  /** In this document a count of one means one place. */
  ghost predicate CountDecides(doc: string, anchor: string)
    requires anchor != ""
  {
    Count(doc, anchor, 0) == 1 <==> OccursOnce(doc, anchor)
  }

  /**
   A count of one means one place, in every document, exactly for the anchors without a
   border: those of which no beginning is also an ending.
   */
  lemma CountDecidesExactly(anchor: string)
    requires anchor != ""
    ensures (forall doc: string :: CountDecides(doc, anchor)) <==> !IsBordered(anchor)
  {
    if IsBordered(anchor) {
      var b :| 0 < b < |anchor| && IsBorder(anchor, b);
      BorderedOccursTwice(anchor, b);
      assert !CountDecides(Overlapped(anchor, b), anchor);
    } else {
      forall doc: string ensures CountDecides(doc, anchor) { UnborderedDecides(doc, anchor); }
    }
  }

  lemma UnborderedDecides(doc: string, anchor: string)
    requires anchor != "" && !IsBordered(anchor)
    ensures CountDecides(doc, anchor)
  {
    if Count(doc, anchor, 0) == 1 { UnborderedIsUnique(doc, anchor); }
    if OccursOnce(doc, anchor) { OnceCountsOne(doc, anchor); }
  }

  /** A case: in 25 equal characters the first 24 count once and occur twice. */
  lemma OverlapsCountOnce()
    ensures var a := seq(25, _ => 'x');
      && Count(a, a[..24], 0) == 1 && OccursAt(a, a[..24], 0) && OccursAt(a, a[..24], 1)
  {
    var a := seq(25, _ => 'x');
    assert OnlyAround(a, a[..24], 0);
    CountIsOne(a, a[..24]);
  }
}
