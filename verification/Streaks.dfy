/** Streaks of meaningful days (backend/affiliates/streaks.py). A calendar day is its number. */
module Streaks {
  import opened Wrappers
  import opened Collections

  // ----- meaningful days ------------------------------------------------------------------

  datatype Row = Row(day: int, qualifiedSignup: int, activation: int, conversion: int, agreementSend: int)

  predicate Meaningful(r: Row) {
    r.qualifiedSignup > 0 || r.activation > 0 || r.conversion > 0 || r.agreementSend > 0
  }

  /** The days with at least one row that counts something. */
  function DaysOf(rows: seq<Row>): set<int> {
    set i | 0 <= i < |rows| && Meaningful(rows[i]) :: rows[i].day
  }

  /** `_meaningful_days` */
  method MeaningfulDays(rows: seq<Row>) returns (days: set<int>)
    ensures days == DaysOf(rows)
  {
    days := {};
    assert rows[..|rows|] == rows;
    for i := 0 to |rows|
      invariant days == DaysOf(rows[..i])
    {
      var r := rows[i];
      if Max(Max(Max(r.qualifiedSignup, r.activation), r.conversion), r.agreementSend) > 0 {
        days := days + {r.day};
      }
      NextRow(rows, i);
    }
  }

  lemma NextRow(rows: seq<Row>, i: nat)
    requires i < |rows|
    ensures DaysOf(rows[..i + 1]) == DaysOf(rows[..i]) + (if Meaningful(rows[i]) then {rows[i].day} else {})
  {
    var next := rows[..i + 1];
    assert next[i] == rows[i];
    assert forall k | 0 <= k < i :: rows[..i][k] == next[k];
    forall d | d in DaysOf(rows[..i]) ensures d in DaysOf(next) {
      var k :| 0 <= k < i && Meaningful(rows[..i][k]) && rows[..i][k].day == d;
      assert next[k] == rows[..i][k];
    }
  }

  // ----- runs -------------------------------------------------------------------------------

  /** n consecutive days, the last of them `end`. */
  predicate IsRun(days: set<int>, end: int, n: nat) {
    forall d | end - n < d <= end :: d in days
  }

  /** n is the length of the longest run of consecutive days. */
  ghost predicate IsLongest(days: set<int>, n: nat) {
    && (exists end :: IsRun(days, end, n))
    && forall end, m: nat | IsRun(days, end, m) :: m <= n
  }

  /** n is the length of the longest run that ends at `end`. */
  predicate IsLongestTo(days: set<int>, end: int, n: nat) {
    IsRun(days, end, n) && end - n !in days
  }

  lemma LongestToIsLongest(days: set<int>, end: int, n: nat)
    requires IsLongestTo(days, end, n)
    ensures forall m: nat | IsRun(days, end, m) :: m <= n
  {
    forall m: nat | IsRun(days, end, m) ensures m <= n {
      assert end - m < end - n <= end ==> end - n in days;
    }
  }

  predicate Ascends(s: seq<int>) {
    forall i, j | 0 <= i < j < |s| :: s[i] < s[j]
  }

  function Days(s: seq<int>): set<int> {
    set d | d in s
  }

  lemma Member<T>(s: set<T>) returns (x: T)
    requires s != {}
    ensures x in s
  {
    x :| x in s;
  }

  lemma HasFirst(days: set<int>) returns (first: int)
    requires days != {}
    ensures first in days && forall d | d in days :: first <= d
    decreases days
  {
    first := Member(days);
    var rest := days - {first};
    if rest != {} {
      var next := HasFirst(rest);
      first := if next < first then next else first;
    }
    assert forall d | d in days :: d in rest || days == rest + {d};
  }

  function First(days: set<int>): (first: int)
    requires days != {}
    ensures first in days && forall d | d in days :: first <= d
  {
    assert exists first :: first in days && forall d | d in days :: first <= d by {
      var _ := HasFirst(days);
    }
    var first :| first in days && forall d | d in days :: first <= d;
    first
  }

  /** `sorted(days)` */
  function Sorted(days: set<int>): seq<int>
    decreases days
  {
    if days == {} then [] else [First(days)] + Sorted(days - {First(days)})
  }

  lemma {:induction false} SortedDays(days: set<int>)
    ensures Ascends(Sorted(days)) && Days(Sorted(days)) == days
    decreases days
  {
    if days != {} {
      var first := First(days);
      var rest := Sorted(days - {first});
      SortedDays(days - {first});
      assert forall i | 0 <= i < |rest| :: rest[i] in Days(rest);
      assert forall d :: d in [first] + rest <==> d == first || d in Days(rest);
    }
  }

  /** `_best_consecutive_run` returns the length of the longest run among the days. */
  method BestConsecutiveRun(sorted: seq<int>) returns (best: nat)
    requires Ascends(sorted)
    ensures IsLongest(Days(sorted), best)
  {
    if sorted == [] {
      assert IsRun(Days(sorted), 0, 0);
      forall end, m: nat | IsRun(Days(sorted), end, m) ensures m <= 0 {
        assert m > 0 ==> end in Days(sorted);
      }
      return 0;
    }
    var run := 1;
    best := 1;
    FirstDay(sorted);
    for i := 1 to |sorted|
      invariant best >= run >= 1
      invariant IsLongestTo(Days(sorted[..i]), sorted[i - 1], run)
      invariant IsLongest(Days(sorted[..i]), best)
    {
      ghost var before, longest: nat := run, best;
      if sorted[i] - sorted[i - 1] == 1 {
        run := run + 1;
        best := if run > best then run else best;
      } else {
        run := 1;
      }
      NextDay(sorted, i, before, longest);
    }
    assert sorted[..|sorted|] == sorted;
  }

  lemma FirstDay(sorted: seq<int>)
    requires sorted != []
    ensures IsLongestTo(Days(sorted[..1]), sorted[0], 1) && IsLongest(Days(sorted[..1]), 1)
  {
    var days := Days(sorted[..1]);
    assert days == {sorted[0]};
    assert IsRun(days, sorted[0], 1);
    forall end, m: nat | IsRun(days, end, m) ensures m <= 1 {
      assert m > 1 ==> end in days && end - 1 in days;
    }
  }

  /** One more day lengthens the run that ends there, or starts a new one. */
  lemma NextDay(sorted: seq<int>, i: nat, run: nat, best: nat)
    requires Ascends(sorted) && 0 < i < |sorted| && best >= run >= 1
    requires IsLongestTo(Days(sorted[..i]), sorted[i - 1], run) && IsLongest(Days(sorted[..i]), best)
    ensures var run' := if sorted[i] - sorted[i - 1] == 1 then run + 1 else 1;
      && IsLongestTo(Days(sorted[..i + 1]), sorted[i], run')
      && IsLongest(Days(sorted[..i + 1]), if run' > best then run' else best)
  {
    var earlier, days, last := Days(sorted[..i]), Days(sorted[..i + 1]), sorted[i];
    var run' := if last - sorted[i - 1] == 1 then run + 1 else 1;
    assert sorted[..i + 1] == sorted[..i] + [last];
    assert days == earlier + {last};
    assert forall d | d in earlier :: d <= sorted[i - 1];
    assert IsLongestTo(days, last, run') by {
      if last - sorted[i - 1] == 1 {
        assert last - run' == sorted[i - 1] - run;
      }
    }
    LongestToIsLongest(days, last, run');
    RunsBefore(earlier, days, last);
    var end :| IsRun(earlier, end, best);
    assert IsRun(days, end, best);
  }

  /** A run that does not end at the new last day was there before. */
  lemma RunsBefore(earlier: set<int>, days: set<int>, last: int)
    requires days == earlier + {last} && forall d | d in earlier :: d < last
    ensures forall end, m: nat | end != last && IsRun(days, end, m) :: IsRun(earlier, end, m)
  {
    forall end, m: nat | end != last && IsRun(days, end, m) ensures IsRun(earlier, end, m) {
      if m > 0 {
        assert end in days;
      }
    }
  }

  /** The backward walk from the anchor day stops, with the longest run that ends there. */
  method WalkBack(meaningful: set<int>, anchor: int) returns (current: nat)
    ensures IsLongestTo(meaningful, anchor, current)
  {
    var d := anchor;
    current := 0;
    while d in meaningful
      invariant current == anchor - d && IsRun(meaningful, anchor, current)
      decreases set x | x in meaningful && x <= d
    {
      current := current + 1;
      ghost var left := set x | x in meaningful && x <= d;
      d := d - 1;
      assert d + 1 in left && d + 1 !in set x | x in meaningful && x <= d;
    }
  }

  // ----- the bundle ---------------------------------------------------------------------------

  datatype Bundle = Bundle(current: nat, best: nat, lastDay: Option<int>, atRisk: bool)

  /** The day a current streak may end on: today, or else yesterday. */
  function Anchor(days: set<int>, today: int): Option<int> {
    if today in days then Some(today)
    else if today - 1 in days then Some(today - 1)
    else None
  }

  /** What the bundle promises about the meaningful days. */
  ghost predicate IsBundle(days: set<int>, today: int, hour: int, b: Bundle) {
    && b.lastDay == Anchor(days, today)
    && (if b.lastDay.Some? then IsLongestTo(days, b.lastDay.value, b.current) else b.current == 0)
    && IsLongest(days, b.best)
    && b.atRisk == (today - 1 in days && today !in days && hour < 23)
  }

  /** `compute_streak_bundle` */
  method ComputeStreakBundle(rows: seq<Row>, today: int, hour: int) returns (b: Bundle)
    ensures IsBundle(DaysOf(rows), today, hour, b)
  {
    var meaningful := MeaningfulDays(rows);
    var anchorEnd := Anchor(meaningful, today);
    var current := 0;
    if anchorEnd.Some? {
      current := WalkBack(meaningful, anchorEnd.value);
    }
    SortedDays(meaningful);
    var best := BestConsecutiveRun(Sorted(meaningful));
    var atRisk := today - 1 in meaningful && today !in meaningful && hour < 23;
    b := Bundle(current, best, anchorEnd, atRisk);
  }

  /**
   The current streak never exceeds the best one; there is one exactly when today or
   yesterday counts; it is at risk only if it hangs on yesterday; and days and clock
   leave no choice in any of it.
   */
  lemma BundleIsExact(days: set<int>, today: int, hour: int, b: Bundle, b': Bundle)
    requires IsBundle(days, today, hour, b) && IsBundle(days, today, hour, b')
    ensures b.current <= b.best && (b.current > 0 <==> today in days || today - 1 in days)
    ensures b.atRisk ==> b.current > 0 && b.lastDay == Some(today - 1)
    ensures b == b'
  {
    if b.lastDay.Some? {
      var end := b.lastDay.value;
      assert IsRun(days, end, b.current) && IsRun(days, end, b'.current);
      LongestToIsLongest(days, end, b.current);
      LongestToIsLongest(days, end, b'.current);
    }
    var e :| IsRun(days, e, b.best);
    var e' :| IsRun(days, e', b'.best);
  }

  /** A day of activity today extends yesterday's streak by one. */
  lemma TodayExtends(days: set<int>, today: int, hour: int, b: Bundle, b': Bundle)
    requires today !in days
    requires IsBundle(days, today, hour, b) && IsBundle(days + {today}, today, hour, b')
    ensures b'.current == (if today - 1 in days then b.current + 1 else 1) && b'.best >= b.best && !b'.atRisk
  {
    var days' := days + {today};
    var n := if today - 1 in days then b.current + 1 else 1;
    assert IsRun(days', today, n) && today - n !in days';
    LongestToIsLongest(days', today, n);
    LongestToIsLongest(days', today, b'.current);
    assert IsRun(days', today, b'.current);
    var e :| IsRun(days, e, b.best);
    assert IsRun(days', e, b.best);
  }

  // ----- in numbers ---------------------------------------------------------------------------

  /** Any one of the four counts makes the day count, and nothing else does. */
  lemma MeaningfulTable(day: int, n: int)
    requires n > 0
    ensures Meaningful(Row(day, n, 0, 0, 0)) && Meaningful(Row(day, 0, n, 0, 0))
    ensures Meaningful(Row(day, 0, 0, n, 0)) && Meaningful(Row(day, 0, 0, 0, n))
    ensures !Meaningful(Row(day, 0, 0, 0, 0)) && !Meaningful(Row(day, -n, -n, -n, -n))
  {
  }

  /** Days 1 to 4, 7 and 8, seen on the next two days and the one after. */
  lemma SampleBundle(hour: int)
    ensures var days := {1, 2, 3, 4, 7, 8};
      && IsBundle(days, 8, hour, Bundle(2, 4, Some(8), false))
      && IsBundle(days, 9, hour, Bundle(2, 4, Some(8), hour < 23))
      && IsBundle(days, 10, hour, Bundle(0, 4, None, false))
  {
    var days := {1, 2, 3, 4, 7, 8};
    assert IsLongestTo(days, 8, 2);
    assert IsRun(days, 4, 4);
    forall end, m: nat | IsRun(days, end, m) ensures m <= 4 {
      assert m > 4 ==> end in days && end - 1 in days && end - 2 in days && end - 3 in days && end - 4 in days;
    }
  }

  /** A shorter streak does not lower the best one, and a longer one raises it. */
  lemma SyncedInNumbers()
    ensures Synced(Fields(5, 9, Some(3)), Bundle(2, 4, Some(8), false)) == Fields(2, 9, Some(8))
    ensures Synced(Fields(5, 9, Some(3)), Bundle(0, 11, None, false)) == Fields(0, 11, None)
  {
  }

  // ----- the profile --------------------------------------------------------------------------

  /** The streak fields of a profile; a missing profile or a null field reads as zero. */
  datatype Fields = Fields(current: int, best: int, lastDay: Option<int>)

  function Synced(p: Fields, b: Bundle): Fields {
    Fields(b.current, Max(p.best, Max(b.best, b.current)), b.lastDay)
  }

  function AfterSyncs(p: Fields, bs: seq<Bundle>): Fields {
    if bs == [] then p else Synced(AfterSyncs(p, bs[..|bs| - 1]), bs[|bs| - 1])
  }

  class Profile {
    var streakDays: int
    var bestStreakDays: int
    var lastMeaningfulDay: Option<int>

    function Value(): Fields
      reads this
    {
      Fields(streakDays, bestStreakDays, lastMeaningfulDay)
    }

    constructor ()
      ensures Value() == Fields(0, 0, None)
    {
      streakDays, bestStreakDays, lastMeaningfulDay := 0, 0, None;
    }

    /** `sync_streak_to_profile`: an event is emitted exactly when a streak field changes. */
    method Sync(rows: seq<Row>, today: int, hour: int) returns (b: Bundle, emitted: bool)
      modifies this
      ensures IsBundle(DaysOf(rows), today, hour, b) && Value() == Synced(old(Value()), b)
      ensures streakDays == b.current && lastMeaningfulDay == b.lastDay
      ensures bestStreakDays >= old(bestStreakDays) && bestStreakDays >= b.best && bestStreakDays >= b.current
      ensures bestStreakDays in [old(bestStreakDays), b.best, b.current]
      ensures emitted <==> streakDays != old(streakDays) || bestStreakDays != old(bestStreakDays)
    {
      b := ComputeStreakBundle(rows, today, hour);
      var prevCurrent, prevBest := streakDays, bestStreakDays;
      var cur: int := b.current;
      var best := Max(b.best, cur);
      streakDays := cur;
      bestStreakDays := Max(prevBest, best);
      lastMeaningfulDay := b.lastDay;
      emitted := cur != prevCurrent || Max(prevBest, best) != prevBest;
    }
  }

  /**
   Over any sequence of syncs, whatever days appear or vanish in between, the stored
   best never decreases, and it is the largest of the original one and all the streaks
   that were ever computed.
   */
  lemma {:induction false} BestIsMaximum(p: Fields, bs: seq<Bundle>, k: nat)
    requires k <= |bs|
    ensures var best := AfterSyncs(p, bs).best;
      && AfterSyncs(p, bs[..k]).best <= best
      && (forall i | 0 <= i < |bs| :: bs[i].best <= best && bs[i].current <= best)
      && (best == p.best || exists i | 0 <= i < |bs| :: best == bs[i].best || best == bs[i].current)
    decreases |bs|
  {
    var n := |bs| - 1;
    assert bs[..|bs|] == bs;
    if bs != [] {
      BestIsMaximum(p, bs[..n], if k <= n then k else n);
      assert k <= n ==> bs[..n][..k] == bs[..k];
      assert forall i | 0 <= i < n :: bs[..n][i] == bs[i];
      var before := AfterSyncs(p, bs[..n]).best;
      if before != p.best {
        var i :| 0 <= i < n && (before == bs[..n][i].best || before == bs[..n][i].current);
        assert before == bs[i].best || before == bs[i].current;
      }
    }
  }
}
