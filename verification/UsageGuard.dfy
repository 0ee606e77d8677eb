/**
 The recipient limiter (backend/llm_usage_guard.py): at most fifteen calls a session, at
 most five in twelve seconds, and a pause of thirty-five seconds after a burst.
 */
module UsageGuard {
  import opened Clock

  const RECIPIENT_SESSION_MAX: nat := 15
  const BURST_MAX: nat := 5
  const BURST_WINDOW_SEC := 12.0
  const COOLDOWN_SEC := 35.0

  // ----- one bucket ----------------------------------------------------------------------

  /** What a bucket object holds. */
  datatype Bucket = Bucket(totalCalls: nat, burstTs: seq<real>, cooldownUntil: real)

  const FRESH := Bucket(0, [], 0.0)

  /** How a call ends; only Granted takes a slot. */
  datatype Verdict = Cooling | Throttled | Exhausted | Granted

  /** The times no further back than the window. */
  function Recent(ts: seq<real>, now: real): seq<real> {
    if ts == [] then []
    else if now - ts[0] <= BURST_WINDOW_SEC then [ts[0]] + Recent(ts[1..], now)
    else Recent(ts[1..], now)
  }

  function Turn(b: Bucket, now: real): (Bucket, Verdict) {
    if now < b.cooldownUntil then (b, Cooling)
    else
      var kept := b.(burstTs := Recent(b.burstTs, now));
      if |kept.burstTs| >= BURST_MAX then (kept.(cooldownUntil := now + COOLDOWN_SEC), Throttled)
      else if b.totalCalls >= RECIPIENT_SESSION_MAX then (kept, Exhausted)
      else (kept.(totalCalls := b.totalCalls + 1, burstTs := kept.burstTs + [now]), Granted)
  }

  // ----- histories -----------------------------------------------------------------------

  /** Clock readings at the calls to one bucket: seconds since 1970, never going back. */
  predicate IsHistory(calls: seq<real>) {
    (forall i | 0 <= i < |calls| :: calls[i] >= 0.0) && NeverBack(calls)
  }

  function After(calls: seq<real>): Bucket {
    if calls == [] then FRESH else Turn(After(calls[..|calls| - 1]), calls[|calls| - 1]).0
  }

  function VerdictAt(calls: seq<real>, i: nat): Verdict
    requires i < |calls|
  {
    Turn(After(calls[..i]), calls[i]).1
  }

  /** The times of the calls that got a slot. */
  function Grants(calls: seq<real>): seq<real> {
    if calls == [] then []
    else
      var n := |calls| - 1;
      Grants(calls[..n]) + (if VerdictAt(calls, n) == Granted then [calls[n]] else [])
  }

  /** How many times fall in the closed window from t on. */
  function CountWithin(ts: seq<real>, t: real): nat {
    if ts == [] then 0
    else (if t <= ts[0] <= t + BURST_WINDOW_SEC then 1 else 0) + CountWithin(ts[1..], t)
  }

  // ----- what the bucket remembers --------------------------------------------------------

  /**
   The bucket forgets only grants that have left the window, so at the next call it
   sees exactly the recent ones.
   */
  lemma {:induction false} BucketRemembers(calls: seq<real>, now: real)
    requires IsHistory(calls + [now])
    ensures Recent(After(calls).burstTs, now) == Recent(Grants(calls), now)
  {
    if calls != [] {
      var n := |calls| - 1;
      var before, last := calls[..n], calls[n];
      assert calls == before + [last] && last == (calls + [now])[n] && now == (calls + [now])[n + 1];
      assert IsHistory(before + [last]) by {
        assert forall i | 0 <= i < |calls| :: calls[i] == (calls + [now])[i];
      }
      BucketRemembers(before, last);
      TurnRemembers(After(before), Grants(before), last, now);
    }
  }

  /** One turn keeps the recent grants in the bucket. */
  lemma TurnRemembers(b: Bucket, grants: seq<real>, last: real, now: real)
    requires last <= now && Recent(b.burstTs, last) == Recent(grants, last)
    ensures var (b', v) := Turn(b, last);
      Recent(b'.burstTs, now) == Recent(grants + (if v == Granted then [last] else []), now)
  {
    RecentTwice(b.burstTs, last, now);
    RecentTwice(grants, last, now);
    assert grants + [] == grants;
    RecentAppend(grants, [last], now);
    RecentAppend(Recent(b.burstTs, last), [last], now);
  }

  /** Every grant is counted, and there are never more than fifteen, whatever the clock does. */
  lemma {:induction false} EveryGrantCounts(calls: seq<real>)
    ensures After(calls).totalCalls == |Grants(calls)| <= 15
  {
    if calls != [] {
      EveryGrantCounts(calls[..|calls| - 1]);
    }
  }

  lemma {:induction false} RecentAppend(a: seq<real>, b: seq<real>, now: real)
    ensures Recent(a + b, now) == Recent(a, now) + Recent(b, now)
  {
    if a == [] {
      assert a + b == b;
    } else {
      assert (a + b)[1..] == a[1..] + b;
      RecentAppend(a[1..], b, now);
    }
  }

  lemma {:induction false} RecentTwice(ts: seq<real>, last: real, now: real)
    requires last <= now
    ensures Recent(Recent(ts, last), now) == Recent(ts, now)
  {
    if ts != [] {
      RecentTwice(ts[1..], last, now);
    }
  }

  lemma PrefixIsHistory(calls: seq<real>, i: nat)
    requires IsHistory(calls) && i < |calls|
    ensures IsHistory(calls[..i]) && IsHistory(calls[..i] + [calls[i]]) && calls[..i + 1] == calls[..i] + [calls[i]]
  {
  }

  // ----- the bounds -----------------------------------------------------------------------

  /** No closed window of twelve seconds holds more than five grants, on a clock that never goes back. */
  lemma {:induction false} AtMostFiveInAnyWindow(calls: seq<real>, t: real)
    requires IsHistory(calls)
    ensures CountWithin(Grants(calls), t) <= BURST_MAX
  {
    if calls != [] {
      var n := |calls| - 1;
      var now := calls[n];
      PrefixIsHistory(calls, n);
      AtMostFiveInAnyWindow(calls[..n], t);
      BucketRemembers(calls[..n], now);
      CountAppend(Grants(calls[..n]), now, t);
      if t <= now <= t + BURST_WINDOW_SEC {
        RecentCoversWindow(Grants(calls[..n]), t, now);
      }
    }
  }

  lemma {:induction false} CountAppend(ts: seq<real>, x: real, t: real)
    ensures CountWithin(ts + [x], t) == CountWithin(ts, t) + (if t <= x <= t + BURST_WINDOW_SEC then 1 else 0)
    ensures CountWithin(ts + [], t) == CountWithin(ts, t)
  {
    assert ts + [] == ts;
    if ts == [] {
      assert ts + [x] == [x];
    } else {
      assert (ts + [x])[1..] == ts[1..] + [x];
      CountAppend(ts[1..], x, t);
    }
  }

  lemma {:induction false} RecentCoversWindow(ts: seq<real>, t: real, now: real)
    requires now <= t + BURST_WINDOW_SEC
    ensures CountWithin(ts, t) <= |Recent(ts, now)|
  {
    if ts != [] {
      RecentCoversWindow(ts[1..], t, now);
    }
  }

  // ----- any clock ------------------------------------------------------------------------

  /** How many of the calls i, ..., j - 1 get a slot. */
  function GrantCount(calls: seq<real>, i: nat, j: nat): nat
    requires i <= j <= |calls|
  {
    if i == j then 0
    else GrantCount(calls, i, j - 1) + (if VerdictAt(calls, j - 1) == Granted then 1 else 0)
  }

  /** Over a whole history these are its grants. */
  lemma {:induction false} GrantCountIsGrants(calls: seq<real>, j: nat)
    requires j <= |calls|
    ensures GrantCount(calls, 0, j) == |Grants(calls[..j])|
  {
    if j > 0 {
      GrantCountIsGrants(calls, j - 1);
      assert calls[..j][..j - 1] == calls[..j - 1];
    }
  }

  function CountFrom(ts: seq<real>, least: real): nat {
    if ts == [] then 0 else (if ts[0] >= least then 1 else 0) + CountFrom(ts[1..], least)
  }

  lemma {:induction false} CountFromFacts(ts: seq<real>, least: real, lower: real)
    requires lower <= least
    ensures CountFrom(ts, least) <= CountFrom(ts, lower) && CountFrom(ts, least) <= |ts|
  {
    if ts != [] {
      CountFromFacts(ts[1..], least, lower);
    }
  }

  lemma {:induction false} CountFromAppend(ts: seq<real>, x: real, least: real)
    ensures CountFrom(ts + [x], least) == CountFrom(ts, least) + (if x >= least then 1 else 0)
  {
    if ts == [] {
      assert ts + [x] == [x];
    } else {
      assert (ts + [x])[1..] == ts[1..] + [x];
      CountFromAppend(ts[1..], x, least);
    }
  }

  /** Forgetting old times drops none that is at most a window old. */
  lemma {:induction false} RecentKeepsFrom(ts: seq<real>, now: real, least: real)
    requires now - least <= BURST_WINDOW_SEC
    ensures CountFrom(Recent(ts, now), least) == CountFrom(ts, least)
  {
    if ts != [] {
      RecentKeepsFrom(ts[1..], now, least);
    }
  }

  /** One turn: what the bucket holds from that time on, and that a grant finds fewer than five. */
  lemma TurnKeepsFrom(b: Bucket, now: real, least: real)
    requires least <= now <= least + BURST_WINDOW_SEC
    ensures var (b', v) := Turn(b, now);
      && CountFrom(b'.burstTs, least) == CountFrom(b.burstTs, least) + (if v.Granted? then 1 else 0)
      && (v.Granted? ==> CountFrom(b.burstTs, least) < BURST_MAX)
  {
    RecentKeepsFrom(b.burstTs, now, least);
    CountFromFacts(Recent(b.burstTs, now), least, least);
    CountFromAppend(Recent(b.burstTs, now), now, least);
  }

  /** While the clock goes forward by twelve seconds, the bucket remembers every grant. */
  lemma {:induction false} BucketHoldsGrants(calls: seq<real>, i: nat, j: nat)
    requires i <= j < |calls| && Forward(calls, i, j) <= BURST_WINDOW_SEC
    ensures Forward(calls, i, j) >= 0.0
    ensures CountFrom(After(calls[..j]).burstTs, calls[j] - Forward(calls, i, j)) >= GrantCount(calls, i, j)
    decreases j
  {
    if i < j {
      assert Forward(calls, i, j - 1) <= Forward(calls, i, j);
      BucketHoldsGrants(calls, i, j - 1);
      var least := calls[j - 1] - Forward(calls, i, j - 1);
      var b := After(calls[..j - 1]);
      assert calls[..j][..j - 1] == calls[..j - 1];
      TurnKeepsFrom(b, calls[j - 1], least);
      CountFromFacts(After(calls[..j]).burstTs, least, calls[j] - Forward(calls, i, j));
    }
  }

  /** However the clock jumps, at most five calls get a slot while it goes forward by twelve seconds. */
  lemma {:induction false} AtMostFiveForward(calls: seq<real>, i: nat, j: nat)
    requires i <= j < |calls| && Forward(calls, i, j) <= BURST_WINDOW_SEC
    ensures GrantCount(calls, i, j + 1) <= BURST_MAX
    decreases j
  {
    BucketHoldsGrants(calls, i, j);
    TurnKeepsFrom(After(calls[..j]), calls[j], calls[j] - Forward(calls, i, j));
    if i < j {
      AtMostFiveForward(calls, i, j - 1);
    }
  }

  const FIVE := [0.0, 1.0, 2.0, 3.0, 4.0]
  const SET_BACK := FIVE + [20.0] + [2.0]

  /** By the clock's own readings it can be six: the clock is set back after the bucket has forgotten. */
  lemma SixInAWindow()
    ensures !NeverBack(SET_BACK) && CountWithin(Grants(SET_BACK), 0.0) == 6
  {
    assert SET_BACK[5] > SET_BACK[6];
    FiveTimes();
    FirstGrants(FIVE, 0.0);
    NoneRecent(FIVE, 4.0, 20.0);
    OneMoreCall(FIVE, 20.0);
    assert [] + [20.0] == [20.0];
    AllRecent([20.0], 2.0);
    OneMoreCall(FIVE + [20.0], 2.0);
    AllWithin(FIVE, 0.0);
    CountAppend(FIVE, 20.0, 0.0);
    CountAppend(FIVE + [20.0], 2.0, 0.0);
  }

  lemma FiveTimes()
    ensures |FIVE| == 5 && forall k | 0 <= k < |FIVE| :: 0.0 <= FIVE[k] <= 4.0
  {
    forall k | 0 <= k < |FIVE| ensures 0.0 <= FIVE[k] <= 4.0 {
      assert FIVE[k] == k as real;
    }
  }

  lemma OneMoreCall(calls: seq<real>, now: real)
    ensures var (b, v) := Turn(After(calls), now);
      && After(calls + [now]) == b
      && Grants(calls + [now]) == Grants(calls) + (if v == Granted then [now] else [])
  {
    assert (calls + [now])[..|calls|] == calls;
  }

  lemma {:induction false} AllWithin(ts: seq<real>, t: real)
    requires forall k | 0 <= k < |ts| :: t <= ts[k] <= t + BURST_WINDOW_SEC
    ensures CountWithin(ts, t) == |ts|
  {
    if ts != [] {
      AllWithin(ts[1..], t);
    }
  }

  lemma {:induction false} NoneRecent(ts: seq<real>, t: real, now: real)
    requires forall k | 0 <= k < |ts| :: ts[k] <= t
    requires now - t > BURST_WINDOW_SEC
    ensures Recent(ts, now) == []
  {
    if ts != [] {
      NoneRecent(ts[1..], t, now);
    }
  }

  lemma {:induction false} AllRecent(ts: seq<real>, now: real)
    requires forall k | 0 <= k < |ts| :: now - ts[k] <= BURST_WINDOW_SEC
    ensures Recent(ts, now) == ts
  {
    if ts != [] {
      AllRecent(ts[1..], now);
    }
  }

  lemma GrantNext(b: Bucket, now: real)
    requires b.cooldownUntil <= now && |b.burstTs| < BURST_MAX && b.totalCalls < RECIPIENT_SESSION_MAX
    requires forall k | 0 <= k < |b.burstTs| :: now - b.burstTs[k] <= BURST_WINDOW_SEC
    ensures Turn(b, now) == (Bucket(b.totalCalls + 1, b.burstTs + [now], b.cooldownUntil), Granted)
  {
    AllRecent(b.burstTs, now);
  }

  lemma GrantStep(calls: seq<real>, now: real)
    requires After(calls) == Bucket(|calls|, calls, 0.0) && Grants(calls) == calls
    requires now >= 0.0 && |calls| < BURST_MAX && forall k | 0 <= k < |calls| :: now - calls[k] <= BURST_WINDOW_SEC
    ensures After(calls + [now]) == Bucket(|calls| + 1, calls + [now], 0.0) && Grants(calls + [now]) == calls + [now]
  {
    GrantNext(After(calls), now);
    OneMoreCall(calls, now);
  }

  /** Up to five calls close to each other are all granted. */
  lemma {:induction false} FirstGrants(calls: seq<real>, t: real)
    requires |calls| <= BURST_MAX && t >= 0.0
    requires forall i | 0 <= i < |calls| :: t <= calls[i] <= t + BURST_WINDOW_SEC
    ensures After(calls) == Bucket(|calls|, calls, 0.0) && Grants(calls) == calls
  {
    if calls != [] {
      var n := |calls| - 1;
      FirstGrants(calls[..n], t);
      GrantStep(calls[..n], calls[n]);
      assert calls == calls[..n] + [calls[n]];
    }
  }

  // ----- cooldowns -------------------------------------------------------------------------

  /** A burst denial at i still blocks a call at j. */
  predicate Blocks(calls: seq<real>, i: nat, j: nat) {
    i < j < |calls| && VerdictAt(calls, i) == Throttled && calls[j] < calls[i] + COOLDOWN_SEC
  }

  /** A call is refused as cooling exactly when a burst denial is less than 35 seconds back, on any clock. */
  lemma CoolingExactly(calls: seq<real>, j: nat)
    requires j < |calls| && calls[j] >= 0.0
    ensures VerdictAt(calls, j) == Cooling <==> exists i :: Blocks(calls, i, j)
  {
    var until := After(calls[..j]).cooldownUntil;
    if calls[j] < until {
      CooldownFrom(calls, j);
      var i :| 0 <= i < j && VerdictAt(calls, i) == Throttled && until == calls[i] + COOLDOWN_SEC;
      assert Blocks(calls, i, j);
    }
    forall i | Blocks(calls, i, j) ensures calls[j] < until {
      CooldownCovers(calls, i, j);
    }
  }

  lemma CooldownNext(calls: seq<real>, i: nat)
    requires i < |calls|
    ensures var before, after := After(calls[..i]).cooldownUntil, After(calls[..i + 1]).cooldownUntil;
      if VerdictAt(calls, i) == Throttled then before <= calls[i] && after == calls[i] + COOLDOWN_SEC
      else after == before
  {
    assert calls[..i + 1][..i] == calls[..i];
  }

  /** The cooldown in force is the one of some burst denial. */
  lemma {:induction false} CooldownFrom(calls: seq<real>, j: nat)
    requires j <= |calls|
    ensures var until := After(calls[..j]).cooldownUntil;
      || until == 0.0
      || exists i :: 0 <= i < j && VerdictAt(calls, i) == Throttled && until == calls[i] + COOLDOWN_SEC
  {
    if j > 0 {
      CooldownFrom(calls, j - 1);
      CooldownNext(calls, j - 1);
    }
  }

  /** It is the latest one. */
  lemma {:induction false} CooldownCovers(calls: seq<real>, i: nat, j: nat)
    requires i < j <= |calls| && VerdictAt(calls, i) == Throttled
    ensures calls[i] + COOLDOWN_SEC <= After(calls[..j]).cooldownUntil
    decreases j
  {
    CooldownNext(calls, j - 1);
    if i < j - 1 {
      CooldownCovers(calls, i, j - 1);
    }
  }

  /**
   The limiter, told from the history alone. A call is refused while a burst denial is
   less than 35 seconds back; otherwise it is itself a burst denial when five grants lie
   in the last twelve seconds; otherwise it is refused when fifteen slots are used; and
   otherwise it is granted.
   */
  lemma VerdictExactly(calls: seq<real>, j: nat)
    requires IsHistory(calls) && j < |calls|
    ensures var grants := Grants(calls[..j]);
      VerdictAt(calls, j) ==
        if exists i :: Blocks(calls, i, j) then Cooling
        else if |Recent(grants, calls[j])| >= BURST_MAX then Throttled
        else if |grants| >= RECIPIENT_SESSION_MAX then Exhausted
        else Granted
  {
    CoolingExactly(calls, j);
    PrefixIsHistory(calls, j);
    BucketRemembers(calls[..j], calls[j]);
    EveryGrantCounts(calls[..j]);
  }

  /** Before call j the bucket still holds the grant at m: no call in between that was not cooling found it too old. */
  predicate Holds(calls: seq<real>, m: nat, j: nat) {
    && m < j <= |calls| && VerdictAt(calls, m) == Granted
    && forall k | m < k < j && VerdictAt(calls, k) != Cooling :: calls[k] - calls[m] <= BURST_WINDOW_SEC
  }

  /** The times of the grants below n that it holds then. */
  function HeldTimes(calls: seq<real>, j: nat, n: nat): seq<real>
    requires n <= j <= |calls|
  {
    if n == 0 then [] else HeldTimes(calls, j, n - 1) + (if Holds(calls, n - 1, j) then [calls[n - 1]] else [])
  }

  lemma HoldsNext(calls: seq<real>, m: nat, j: nat)
    requires m < j < |calls|
    ensures Holds(calls, m, j + 1) <==>
      Holds(calls, m, j) && (VerdictAt(calls, j) == Cooling || calls[j] - calls[m] <= BURST_WINDOW_SEC)
  {
  }

  lemma RecentMore(ts: seq<real>, more: bool, t: real, now: real)
    ensures Recent(ts + (if more then [t] else []), now)
      == Recent(ts, now) + (if more && now - t <= BURST_WINDOW_SEC then [t] else [])
  {
    RecentAppend(ts, if more then [t] else [], now);
  }

  lemma {:induction false} HeldNext(calls: seq<real>, j: nat, n: nat)
    requires n <= j < |calls|
    ensures var held := HeldTimes(calls, j, n);
      HeldTimes(calls, j + 1, n) == if VerdictAt(calls, j) == Cooling then held else Recent(held, calls[j])
  {
    if n > 0 {
      HeldNext(calls, j, n - 1);
      HoldsNext(calls, n - 1, j);
      if VerdictAt(calls, j) != Cooling {
        RecentMore(HeldTimes(calls, j, n - 1), Holds(calls, n - 1, j), calls[n - 1], calls[j]);
      }
    }
  }

  /** What the bucket holds, told from the history alone, on any clock; never more than five. */
  lemma {:induction false} BucketHolds(calls: seq<real>, j: nat)
    requires j <= |calls|
    ensures After(calls[..j]).burstTs == HeldTimes(calls, j, j) && |HeldTimes(calls, j, j)| <= BURST_MAX
  {
    if j > 0 {
      BucketHolds(calls, j - 1);
      HeldNext(calls, j - 1, j - 1);
      assert calls[..j][..j - 1] == calls[..j - 1];
      RecentIsShorter(HeldTimes(calls, j - 1, j - 1), calls[j - 1]);
      assert Holds(calls, j - 1, j) <==> VerdictAt(calls, j - 1) == Granted;
    }
  }

  lemma {:induction false} RecentIsShorter(ts: seq<real>, now: real)
    ensures |Recent(ts, now)| <= |ts|
    ensures forall t :: t in Recent(ts, now) <==> t in ts && now - t <= BURST_WINDOW_SEC
  {
    if ts != [] {
      RecentIsShorter(ts[1..], now);
      assert forall t :: t in ts <==> t == ts[0] || t in ts[1..];
    }
  }

  lemma {:induction false} NoneForgotten(ts: seq<real>, now: real)
    ensures |Recent(ts, now)| == |ts| <==> forall t | t in ts :: now - t <= BURST_WINDOW_SEC
  {
    if ts != [] {
      NoneForgotten(ts[1..], now);
      RecentIsShorter(ts[1..], now);
      assert ts[0] in ts;
      assert forall t :: t in ts <==> t == ts[0] || t in ts[1..];
    }
  }

  /** The same as `VerdictExactly` on any clock, with the grants that the bucket still holds. */
  lemma VerdictOnAnyClock(calls: seq<real>, j: nat)
    requires j < |calls| && calls[j] >= 0.0
    ensures VerdictAt(calls, j) ==
      if exists i :: Blocks(calls, i, j) then Cooling
      else if |Recent(HeldTimes(calls, j, j), calls[j])| >= BURST_MAX then Throttled
      else if |Grants(calls[..j])| >= RECIPIENT_SESSION_MAX then Exhausted
      else Granted
  {
    CoolingExactly(calls, j);
    BucketHolds(calls, j);
    EveryGrantCounts(calls[..j]);
  }

  lemma {:induction false} HeldTimesAre(calls: seq<real>, j: nat, n: nat, t: real)
    requires n <= j <= |calls|
    ensures t in HeldTimes(calls, j, n) <==> exists m :: 0 <= m < n && Holds(calls, m, j) && calls[m] == t
  {
    if n > 0 {
      HeldTimesAre(calls, j, n - 1, t);
    }
  }

  /** Calls that are cooling leave the bucket alone. */
  lemma {:induction false} CoolingChangesNothing(calls: seq<real>, i: nat, j: nat)
    requires i < j <= |calls| && forall k | i < k < j :: VerdictAt(calls, k) == Cooling
    ensures After(calls[..j]) == After(calls[..i + 1])
    decreases j
  {
    if i + 1 < j {
      assert calls[..j][..j - 1] == calls[..j - 1];
      assert VerdictAt(calls, j - 1) == Cooling;
      CoolingChangesNothing(calls, i, j - 1);
    }
  }

  lemma CoolingBetween(calls: seq<real>, i: nat, j: nat)
    requires i < j < |calls| && VerdictAt(calls, i) == Throttled
    requires forall k | i < k < j :: calls[k] < calls[i] + COOLDOWN_SEC
    ensures forall k | i < k < j :: VerdictAt(calls, k) == Cooling
  {
    forall k | i < k < j ensures VerdictAt(calls, k) == Cooling {
      CooldownCovers(calls, i, k);
    }
  }

  /** What the bucket looks like after the denial and the pause. */
  lemma AfterPause(calls: seq<real>, i: nat, j: nat)
    requires i < j < |calls| && VerdictAt(calls, i) == Throttled
    requires forall k | i < k < j :: calls[k] < calls[i] + COOLDOWN_SEC
    ensures var b := After(calls[..j]);
      && b.cooldownUntil == calls[i] + COOLDOWN_SEC && b.totalCalls == |Grants(calls[..j])|
      && b.burstTs == Recent(HeldTimes(calls, i, i), calls[i]) && |b.burstTs| == BURST_MAX
  {
    CoolingBetween(calls, i, j);
    CoolingChangesNothing(calls, i, j);
    BucketHolds(calls, i);
    RecentIsShorter(HeldTimes(calls, i, i), calls[i]);
    EveryGrantCounts(calls[..j]);
    assert calls[..i + 1][..i] == calls[..i];
  }

  /** The grant at m is one of those for which call i was denied. */
  predicate Behind(calls: seq<real>, m: nat, i: nat) {
    i < |calls| && Holds(calls, m, i) && calls[i] - calls[m] <= BURST_WINDOW_SEC
  }

  lemma KeptAre(calls: seq<real>, i: nat, t: real)
    requires i < |calls|
    ensures t in Recent(HeldTimes(calls, i, i), calls[i]) <==> exists m: nat :: Behind(calls, m, i) && calls[m] == t
  {
    RecentIsShorter(HeldTimes(calls, i, i), calls[i]);
    HeldTimesAre(calls, i, i, t);
    if m: nat :| Behind(calls, m, i) && calls[m] == t {
      assert Holds(calls, m, i);
    }
    if m :| 0 <= m < i && Holds(calls, m, i) && calls[m] == t && calls[i] - t <= BURST_WINDOW_SEC {
      assert Behind(calls, m, i);
    }
  }

  /**
   On any clock, the first call after a cooldown is a burst denial again exactly when none
   of the grants behind the first denial is more than twelve seconds back by then.
   */
  lemma AfterCooldownExactly(calls: seq<real>, i: nat, j: nat)
    requires i < j < |calls| && VerdictAt(calls, i) == Throttled
    requires calls[j] >= calls[i] + COOLDOWN_SEC
    requires forall k | i < k < j :: calls[k] < calls[i] + COOLDOWN_SEC
    ensures VerdictAt(calls, j) ==
      if forall m: nat | Behind(calls, m, i) :: calls[j] - calls[m] <= BURST_WINDOW_SEC then Throttled
      else if |Grants(calls[..j])| < RECIPIENT_SESSION_MAX then Granted else Exhausted
  {
    AfterPause(calls, i, j);
    var kept := Recent(HeldTimes(calls, i, i), calls[i]);
    NoneForgotten(kept, calls[j]);
    RecentIsShorter(kept, calls[j]);
    forall m: nat | Behind(calls, m, i) ensures calls[m] in kept {
      KeptAre(calls, i, calls[m]);
    }
    forall t | t in kept ensures exists m: nat :: Behind(calls, m, i) && calls[m] == t {
      KeptAre(calls, i, t);
    }
  }

  /** So on a clock that never goes back it is granted whenever a slot is left. */
  lemma GrantedAfterCooldown(calls: seq<real>, i: nat, j: nat)
    requires IsHistory(calls) && i < j < |calls| && VerdictAt(calls, i) == Throttled
    requires calls[j] >= calls[i] + COOLDOWN_SEC
    requires forall k | i < k < j :: calls[k] < calls[i] + COOLDOWN_SEC
    ensures VerdictAt(calls, j) == if |Grants(calls[..j])| < RECIPIENT_SESSION_MAX then Granted else Exhausted
  {
    AfterPause(calls, i, j);
    AfterCooldownExactly(calls, i, j);
    var kept := Recent(HeldTimes(calls, i, i), calls[i]);
    KeptAre(calls, i, kept[0]);
    var m: nat :| Behind(calls, m, i);
    assert calls[m] <= calls[i];
  }

  const LATE_FIVE := [100.0, 100.0, 100.0, 100.0, 100.0]
  const DENIED_AGAIN := LATE_FIVE + [0.0] + [40.0]

  /**
   Otherwise it need not be: after a step back the old grants lie in the future and stay
   recent, and the first call after the cooldown is a burst denial again.
   */
  lemma DeniedAfterCooldown()
    ensures var calls := DENIED_AGAIN;
      && !NeverBack(calls)
      && VerdictAt(calls, 5) == Throttled && calls[6] >= calls[5] + COOLDOWN_SEC
      && |Grants(calls[..6])| == BURST_MAX && VerdictAt(calls, 6) == Throttled
  {
    var calls := DENIED_AGAIN;
    assert calls[4] > calls[5];
    FirstGrants(LATE_FIVE, 100.0);
    AllRecent(LATE_FIVE, 0.0);
    AllRecent(LATE_FIVE, 40.0);
    assert calls[..5] == LATE_FIVE && calls[..6] == LATE_FIVE + [0.0];
    OneMoreCall(LATE_FIVE, 0.0);
  }

  // ----- in numbers ------------------------------------------------------------------------

  /** After calls at 0, 1, 2, 3 and 4 a sixth one is a burst denial up to second 12, and is granted later. */
  lemma SixthCall(t: real)
    requires t >= 4.0
    ensures VerdictAt(FIVE + [t], 5) == if t <= 12.0 then Throttled else Granted
  {
    FiveTimes();
    FirstGrants(FIVE, 0.0);
    assert (FIVE + [t])[..5] == FIVE;
    if t <= 12.0 {
      AllRecent(FIVE, t);
    } else {
      RecentIsShorter(FIVE, t);
      NoneForgotten(FIVE, t);
      assert FIVE[0] in FIVE && t - FIVE[0] > 12.0;
    }
  }

  /** After a burst denial at second 10 every call is refused up to second 45. */
  lemma CallAfterDenial(t: real)
    requires t >= 10.0
    ensures VerdictAt(FIVE + [10.0] + [t], 6) == Cooling <==> t < 45.0
  {
    FiveTimes();
    FirstGrants(FIVE, 0.0);
    AllRecent(FIVE, 10.0);
    OneMoreCall(FIVE, 10.0);
    assert (FIVE + [10.0] + [t])[..6] == FIVE + [10.0];
  }

  /** The call before the last one is always forgotten, so only the number of calls counts. */
  lemma SpacedTurn(n: nat, last: real)
    requires last >= 0.0
    ensures Turn(Bucket(n, [last], 0.0), last + 13.0)
      == if n < 15 then (Bucket(n + 1, [last + 13.0], 0.0), Granted) else (Bucket(n, [], 0.0), Exhausted)
  {
    assert Recent([last], last + 13.0) == [] by {
      assert [last][1..] == [];
    }
    assert [] + [last + 13.0] == [last + 13.0];
  }

  lemma SpacedStep(calls: seq<real>, n: nat, last: real)
    requires After(calls) == Bucket(n, [last], 0.0) && Grants(calls) == calls && n < 15 && last >= 0.0
    ensures After(calls + [last + 13.0]) == Bucket(n + 1, [last + 13.0], 0.0)
    ensures Grants(calls + [last + 13.0]) == calls + [last + 13.0]
  {
    SpacedTurn(n, last);
    OneMoreCall(calls, last + 13.0);
  }

  lemma FirstOfSpaced()
    ensures After([0.0]) == Bucket(1, [0.0], 0.0) && Grants([0.0]) == [0.0]
  {
    OneMoreCall([], 0.0);
    assert [] + [0.0] == [0.0];
  }

  /** Calls thirteen seconds apart: fifteen of them are granted. */
  lemma {:induction false} SpacedCalls(n: nat) returns (calls: seq<real>, last: real)
    requires 1 <= n <= 15
    ensures |calls| == n && last >= 0.0 && Grants(calls) == calls && After(calls) == Bucket(n, [last], 0.0)
  {
    if n == 1 {
      calls, last := [0.0], 0.0;
      FirstOfSpaced();
    } else {
      var before, t := SpacedCalls(n - 1);
      SpacedStep(before, n - 1, t);
      calls, last := before + [t + 13.0], t + 13.0;
    }
  }

  /** And the sixteenth is not, however much later it comes. */
  lemma SixteenthCall() returns (calls: seq<real>)
    ensures |calls| == 16 && |Grants(calls[..15])| == 15 && VerdictAt(calls, 15) == Exhausted
  {
    var before, last := SpacedCalls(15);
    SpacedTurn(15, last);
    calls := before + [last + 13.0];
    assert calls[..15] == before;
  }

  /** Each slot taken leaves one less of fifteen. */
  lemma RemainingInNumbers()
    ensures Answer([]) == (false, 0) && Answer([0.0]) == (true, 14)
  {
    OneMoreCall([], 0.0);
    assert [] + [0.0] == [0.0] && [0.0][..0] == [];
  }

  lemma KeyInLetters()
    ensures Key("a1", "0f") == "r:a1:0f"
  {
  }

  // ----- the store -------------------------------------------------------------------------

  function Key(agreement: string, fingerprint: string): string {
    "r:" + agreement + ":" + fingerprint
  }

  /** Fingerprints are hexadecimal, so two recipients never share a bucket. */
  lemma KeySeparates(a: string, f: string, a': string, f': string)
    requires ':' !in f && ':' !in f'
    ensures Key(a, f) == Key(a', f') <==> a == a' && f == f'
  {
    LastColon(a, f);
    LastColon(a', f');
    if Key(a, f) == Key(a', f') {
      assert |a| == |a'|;
      assert a == Key(a, f)[2..2 + |a|] && f == Key(a, f)[3 + |a|..];
      assert a' == Key(a', f')[2..2 + |a|] && f' == Key(a', f')[3 + |a|..];
    }
  }

  lemma LastColon(a: string, f: string)
    requires ':' !in f
    ensures |Key(a, f)| == 3 + |a| + |f| && Key(a, f)[2 + |a|] == ':'
    ensures forall i | 2 + |a| < i < |Key(a, f)| :: Key(a, f)[i] != ':'
  {
    assert forall i | 2 + |a| < i < |Key(a, f)| :: Key(a, f)[i] == f[i - 3 - |a|];
  }

  /** One fingerprint ends in a colon and the other. */
  predicate EndsInOther(f: string, g: string) {
    |g| < |f| && f[|f| - |g| - 1] == ':' && f[|f| - |g|..] == g
  }

  /** No two agreements give these fingerprints one key, unless both are the same. */
  ghost predicate KeysApart(f: string, g: string) {
    forall a, b :: Key(a, f) == Key(b, g) ==> a == b && f == g
  }

  /** Two fingerprints can share a key exactly when one of them ends in a colon and the other. */
  lemma KeysApartExactly(f: string, g: string)
    ensures KeysApart(f, g) <==> !EndsInOther(f, g) && !EndsInOther(g, f)
  {
    if EndsInOther(f, g) { EndingCollides(f, g); }
    if EndsInOther(g, f) { EndingCollides(g, f); }
    forall a, b | Key(a, f) == Key(b, g) ensures (a == b && f == g) || EndsInOther(f, g) || EndsInOther(g, f) {
      SharedKey(a, f, b, g);
    }
  }

  lemma EndingCollides(f: string, g: string)
    requires EndsInOther(f, g)
    ensures Key("", f) == Key(":" + f[..|f| - |g| - 1], g)
  {
    var n := |f| - |g|;
    assert f == f[..n - 1] + ":" + g by {
      assert f == f[..n] + f[n..] && f[..n] == f[..n - 1] + [f[n - 1]];
    }
    assert Key("", f) == "r:" + (":" + f);
    assert Key(":" + f[..n - 1], g) == "r:" + (":" + f[..n - 1]) + ":" + g;
  }

  lemma SharedKey(a: string, f: string, b: string, g: string)
    requires Key(a, f) == Key(b, g)
    ensures (a == b && f == g) || EndsInOther(f, g) || EndsInOther(g, f)
  {
    var k := Key(a, f);
    KeyParts(a, f);
    KeyParts(b, g);
    if |g| < |f| {
      assert f == k[|k| - |f|..] && g == k[|k| - |g|..];
      assert f[|f| - |g|..] == g;
      assert f[|f| - |g| - 1] == k[|k| - |g| - 1];
    } else if |f| < |g| {
      assert f == k[|k| - |f|..] && g == k[|k| - |g|..];
      assert g[|g| - |f|..] == f;
      assert g[|g| - |f| - 1] == k[|k| - |f| - 1];
    }
  }

  lemma KeyParts(a: string, f: string)
    ensures var k := Key(a, f);
      && |k| == 3 + |a| + |f| && k[2..2 + |a|] == a && k[|k| - |f|..] == f && k[|k| - |f| - 1] == ':'
  {
  }

  /** A case. */
  lemma ColonsCollide()
    ensures Key("a:b", "c") == Key("a", "b:c")
  {
  }

  /** What the last call is told: whether it got a slot, and then how many are left. */
  function Answer(calls: seq<real>): (bool, nat) {
    if calls != [] && VerdictAt(calls, |calls| - 1) == Granted
    then (true, NotBelowZero(RECIPIENT_SESSION_MAX - |Grants(calls)|))
    else (false, 0)
  }

  /** `max(0, n)` */
  function NotBelowZero(n: int): nat {
    if n < 0 then 0 else n
  }

  class RecipientBucket {
    var totalCalls: nat
    var burstTs: seq<real>
    var cooldownUntil: real
    /** The calls this bucket has answered. */
    ghost var calls: seq<real>

    function Value(): Bucket
      reads this
    {
      Bucket(totalCalls, burstTs, cooldownUntil)
    }

    ghost predicate Valid()
      reads this
    {
      Value() == After(calls)
    }

    constructor ()
      ensures Valid() && calls == []
    {
      totalCalls, burstTs, cooldownUntil, calls := 0, [], 0.0, [];
    }

    /** `recipient_try_acquire_llm_slot` once the bucket is found: the verdict is the history's. */
    method Acquire(now: real) returns (ok: bool, remaining: nat)
      requires Valid()
      modifies this
      ensures Valid() && calls == old(calls) + [now]
      ensures (ok, remaining) == Answer(calls)
    {
      VerdictNext(calls, now);
      ok, remaining := TakeTurn(now);
      calls := calls + [now];
    }

    method TakeTurn(now: real) returns (ok: bool, remaining: nat)
      modifies this`totalCalls, this`burstTs, this`cooldownUntil
      ensures Value() == Turn(old(Value()), now).0
      ensures ok <==> Turn(old(Value()), now).1 == Granted
      ensures remaining == if ok then NotBelowZero(RECIPIENT_SESSION_MAX - totalCalls) else 0
    {
      if now < cooldownUntil {
        return false, 0;
      }
      burstTs := Recent(burstTs, now);
      if |burstTs| >= BURST_MAX {
        cooldownUntil := now + COOLDOWN_SEC;
        return false, 0;
      }
      if totalCalls >= RECIPIENT_SESSION_MAX {
        return false, 0;
      }
      totalCalls := totalCalls + 1;
      burstTs := burstTs + [now];
      return true, NotBelowZero(RECIPIENT_SESSION_MAX - totalCalls);
    }
  }

  /** What one more call does to the bucket, the verdict and the number of grants. */
  lemma VerdictNext(calls: seq<real>, now: real)
    ensures After(calls + [now]) == Turn(After(calls), now).0
    ensures VerdictAt(calls + [now], |calls|) == Turn(After(calls), now).1
    ensures |Grants(calls + [now])| == Turn(After(calls), now).0.totalCalls <= RECIPIENT_SESSION_MAX
  {
    assert (calls + [now])[..|calls|] == calls;
    EveryGrantCounts(calls + [now]);
  }

  class RecipientStore {
    var store: map<string, RecipientBucket>

    /** Every key has a bucket of its own. */
    ghost predicate Valid()
      reads this, store.Values
    {
      && (forall k | k in store :: store[k].Valid())
      && forall k, k' | k in store && k' in store && k != k' :: store[k] != store[k']
    }

    /** The calls made under a key so far. */
    ghost function CallsTo(key: string): seq<real>
      reads this, store.Values
    {
      if key in store then store[key].calls else []
    }

    constructor ()
      ensures Valid() && store == map[]
    {
      store := map[];
    }

    /** `recipient_try_acquire_llm_slot`: the answer follows from the calls under this key alone. */
    method TryAcquire(agreement: string, fingerprint: string, now: real) returns (ok: bool, remaining: nat)
      requires Valid()
      modifies this, store.Values
      ensures Valid() && fresh(store.Values - old(store.Values))
      ensures var key := Key(agreement, fingerprint);
        && CallsTo(key) == old(CallsTo(key)) + [now]
        && (ok, remaining) == Answer(CallsTo(key))
        && forall k | k != key :: CallsTo(k) == old(CallsTo(k))
    {
      ok, remaining := AcquireUnder(Key(agreement, fingerprint), now);
    }

    method AcquireUnder(key: string, now: real) returns (ok: bool, remaining: nat)
      requires Valid()
      modifies this, store.Values
      ensures Valid() && fresh(store.Values - old(store.Values))
      ensures CallsTo(key) == old(CallsTo(key)) + [now] && (ok, remaining) == Answer(CallsTo(key))
      ensures forall k | k != key :: CallsTo(k) == old(CallsTo(k))
    {
      var b := SetDefault(key);
      label found:
      ok, remaining := b.Acquire(now);
      forall k | k != key ensures CallsTo(k) == old(CallsTo(k)) {
        assert CallsTo(k) == old@found(CallsTo(k));
      }
    }

    /** `setdefault` on the store: only a new key changes it. */
    method SetDefault(key: string) returns (b: RecipientBucket)
      requires Valid()
      modifies this`store
      ensures Valid() && fresh(store.Values - old(store.Values))
      ensures key in store && b == store[key] && store.Keys == old(store.Keys) + {key}
      ensures forall k :: CallsTo(k) == old(CallsTo(k))
    {
      if key !in store {
        var bucket := new RecipientBucket();
        store := store[key := bucket];
      }
      b := store[key];
    }

    /** `peek_recipient_remaining`: what the key has left, changing nothing. */
    method Peek(agreement: string, fingerprint: string) returns (remaining: nat)
      requires Valid()
      ensures remaining == RECIPIENT_SESSION_MAX - |Grants(CallsTo(Key(agreement, fingerprint)))|
    {
      var key := Key(agreement, fingerprint);
      EveryGrantCounts(CallsTo(key));
      if key !in store {
        return RECIPIENT_SESSION_MAX;
      }
      remaining := NotBelowZero(RECIPIENT_SESSION_MAX - store[key].totalCalls);
    }
  }
}
