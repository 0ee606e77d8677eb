/** Renumbering as arithmetic: what the passes do to the sequence of subclause numbers. */
module ClauseNumbers {

  /** The monotonic pass: a number that does not exceed the previous one becomes its successor. */
  function Raise(ks: seq<nat>, last: nat): seq<nat> {
    if ks == [] then []
    else
      var k := if ks[0] <= last then last + 1 else ks[0];
      [k] + Raise(ks[1..], k)
  }

  /** The bump pass: numbers from `from` on are replaced by next, next + 1, ... */
  function Bump(ks: seq<nat>, from: nat, next: nat): seq<nat> {
    if ks == [] then []
    else if ks[0] < from then [ks[0]] + Bump(ks[1..], from, next)
    else [next] + Bump(ks[1..], from, next + 1)
  }

  /** Strictly increasing, starting above last. */
  predicate AscendsFrom(ks: seq<nat>, last: nat) {
    && (forall i | 0 <= i < |ks| :: ks[i] > last)
    && forall i, j | 0 <= i < j < |ks| :: ks[i] < ks[j]
  }

  /** At least as large as ks everywhere. */
  predicate AtLeast(ms: seq<nat>, ks: seq<nat>) {
    |ms| == |ks| && forall i | 0 <= i < |ks| :: ms[i] >= ks[i]
  }

  /**
   The pass gives the pointwise least strictly increasing sequence above `last` that
   is nowhere below the original.
   */
  lemma {:induction false} RaiseIsLeast(ks: seq<nat>, last: nat)
    ensures AscendsFrom(Raise(ks, last), last) && AtLeast(Raise(ks, last), ks)
    ensures forall ms | AscendsFrom(ms, last) && AtLeast(ms, ks) :: AtLeast(ms, Raise(ks, last))
  {
    if ks != [] {
      var k := if ks[0] <= last then last + 1 else ks[0];
      RaiseIsLeast(ks[1..], k);
      forall ms | AscendsFrom(ms, last) && AtLeast(ms, ks) ensures AtLeast(ms, Raise(ks, last)) {
        RaiseTail(ms, ks, k);
        assert AtLeast(ms[1..], Raise(ks[1..], k));
        forall i | 0 < i < |ks| ensures ms[i] >= Raise(ks, last)[i] {
          assert ms[i] == ms[1..][i - 1];
        }
      }
    }
  }

  /**
   What is left to show about the tail: a candidate m may start above k, so it is
   compared after dropping to the numbers above k.
   */
  lemma RaiseTail(ms: seq<nat>, ks: seq<nat>, k: nat)
    requires ks != [] && AtLeast(ms, ks) && ms[0] >= k
    requires forall i, j | 0 <= i < j < |ms| :: ms[i] < ms[j]
    ensures AscendsFrom(ms[1..], k) && AtLeast(ms[1..], ks[1..])
  {
  }

  lemma {:induction false} RaiseFixes(ks: seq<nat>, last: nat)
    ensures Raise(ks, last) == ks <==> AscendsFrom(ks, last)
  {
    RaiseIsLeast(ks, last);
    if AscendsFrom(ks, last) {
      assert AtLeast(ks, ks) && AtLeast(ks, Raise(ks, last));
      assert forall i | 0 <= i < |ks| :: ks[i] == Raise(ks, last)[i];
    }
  }

  /** A second pass changes nothing. */
  lemma RaiseIsIdempotent(ks: seq<nat>, last: nat)
    ensures Raise(Raise(ks, last), last) == Raise(ks, last)
  {
    RaiseIsLeast(ks, last);
    RaiseFixes(Raise(ks, last), last);
  }

  /** Numbers that are all at or above `from` become consecutive. */
  lemma {:induction false} BumpCounts(ks: seq<nat>, from: nat, next: nat)
    requires forall i | 0 <= i < |ks| :: ks[i] >= from
    ensures |Bump(ks, from, next)| == |ks| && forall i | 0 <= i < |ks| :: Bump(ks, from, next)[i] == next + i
  {
    if ks != [] {
      BumpCounts(ks[1..], from, next + 1);
    }
  }

  /** Two ascending parts with one number between them. */
  lemma AscendsAcross(before: seq<nat>, k: nat, after: seq<nat>, last: nat)
    requires k > last && AscendsFrom(before, last) && AscendsFrom(after, k)
    requires forall i | 0 <= i < |before| :: before[i] < k
    ensures AscendsFrom(before + [k] + after, last)
  {
  }

  /** The parts of an ascending list. */
  lemma AscendsInParts(before: seq<nat>, after: seq<nat>, last: nat)
    requires after != [] && AscendsFrom(before + after, last)
    ensures AscendsFrom(before, last) && after[0] > last
    ensures forall i | 0 <= i < |before| :: before[i] < after[0]
    ensures forall i | 0 <= i < |after| :: after[i] >= after[0]
  {
    var all := before + after;
    assert forall i | 0 <= i < |before| :: before[i] == all[i];
    assert forall i | 0 <= i < |after| :: after[i] == all[|before| + i];
  }

  /**
   Inserting a subclause with the first number of an ascending tail and bumping the
   tail keeps the whole ascending.
   */
  lemma InsertKeepsAscending(before: seq<nat>, after: seq<nat>, last: nat)
    requires after != [] && AscendsFrom(before + after, last)
    ensures AscendsFrom(before + [after[0]] + Bump(after, after[0], after[0] + 1), last)
  {
    AscendsInParts(before, after, last);
    BumpCounts(after, after[0], after[0] + 1);
    AscendsAcross(before, after[0], Bump(after, after[0], after[0] + 1), last);
  }

  /** How many of the numbers are at or above `from`. */
  function AtOrAbove(ks: seq<nat>, from: nat): nat {
    if ks == [] then 0 else AtOrAbove(ks[..|ks| - 1], from) + (if ks[|ks| - 1] >= from then 1 else 0)
  }

  lemma {:induction false} AtOrAboveFirst(ks: seq<nat>, from: nat)
    requires ks != []
    ensures AtOrAbove(ks, from) == (if ks[0] >= from then 1 else 0) + AtOrAbove(ks[1..], from)
  {
    if |ks| > 1 {
      AtOrAboveFirst(ks[..|ks| - 1], from);
      assert ks[..|ks| - 1][1..] == ks[1..][..|ks| - 2];
    }
  }

  /** Numbers below `from` stay, and the others are counted up from `next` in their order. */
  lemma {:induction false} BumpExactly(ks: seq<nat>, from: nat, next: nat, i: nat)
    requires i < |ks|
    ensures |Bump(ks, from, next)| == |ks|
    ensures Bump(ks, from, next)[i] == if ks[i] < from then ks[i] else next + AtOrAbove(ks[..i], from)
  {
    var next' := if ks[0] < from then next else next + 1;
    if i > 0 {
      BumpExactly(ks[1..], from, next', i - 1);
      AtOrAboveFirst(ks[..i], from);
      assert ks[..i][1..] == ks[1..][..i - 1];
    } else if |ks| > 1 {
      BumpExactly(ks[1..], from, next', 0);
    }
  }
}
