/** The per-client request limiter (`_rate_limit_allow` in backend/main.py). */
module TokenBucket {
  import opened Clock

  /** Requests per second and burst size, both positive when the limiter is on. */
  datatype Limits = Limits(rps: real, burst: real) {
    predicate On() {
      rps > 0.0 && burst > 0.0
    }
  }

  /** The stored state of one key. */
  datatype Level = Level(tokens: real, ts: real)

  function Min(x: real, y: real): real {
    if y < x then y else x
  }

  function Max(x: real, y: real): real {
    if y > x then y else x
  }

  /** The state brought up to now; a backwards clock adds nothing. */
  function Refill(l: Limits, s: Level, now: real): Level {
    Level(Min(l.burst, s.tokens + Max(0.0, now - s.ts) * l.rps), now)
  }

  function Turn(l: Limits, s: Level, now: real): (Level, bool) {
    var s' := Refill(l, s, now);
    if s'.tokens < 1.0 then (s', false) else (Level(s'.tokens - 1.0, now), true)
  }

  // ----- histories -----------------------------------------------------------------------

  /** The state the next request finds: a key not seen before starts full. */
  function Before(l: Limits, times: seq<real>, now: real): Level
    decreases |times|, 1
  {
    if times == [] then Level(l.burst, now) else After(l, times)
  }

  function After(l: Limits, times: seq<real>): Level
    requires times != []
    decreases |times|, 0
  {
    var n := |times| - 1;
    Turn(l, Before(l, times[..n], times[n]), times[n]).0
  }

  predicate GrantedAt(l: Limits, times: seq<real>, i: nat)
    requires i < |times|
  {
    Turn(l, Before(l, times[..i], times[i]), times[i]).1
  }

  /** How many of the requests i, ..., j - 1 are granted. */
  function Granted(l: Limits, times: seq<real>, i: nat, j: nat): nat
    requires i <= j <= |times|
  {
    if i == j then 0
    else Granted(l, times, i, j - 1) + (if GrantedAt(l, times, j - 1) then 1 else 0)
  }

  /** What the window from request i to request j admits. */
  function Allowance(l: Limits, times: seq<real>, i: nat, j: nat): real
    requires i <= j < |times|
  {
    l.burst + Forward(times, i, j) * l.rps
  }

  /** The tokens request j finds. */
  function Tokens(l: Limits, times: seq<real>, j: nat): real
    requires j < |times|
  {
    Refill(l, Before(l, times[..j], times[j]), times[j]).tokens
  }

  /** What is left of the allowance of the window that starts at request i. */
  function Slack(l: Limits, times: seq<real>, i: nat, j: nat): real
    requires i <= j < |times|
  {
    Allowance(l, times, i, j) - Granted(l, times, i, j) as real
  }

  lemma TokensNext(l: Limits, times: seq<real>, j: nat)
    requires 0 < j < |times|
    ensures Tokens(l, times, j)
      == Min(l.burst, Tokens(l, times, j - 1) - (if GrantedAt(l, times, j - 1) then 1.0 else 0.0)
                      + Max(0.0, times[j] - times[j - 1]) * l.rps)
  {
    assert times[..j][..j - 1] == times[..j - 1] && times[..j][j - 1] == times[j - 1];
    var before := Before(l, times[..j - 1], times[j - 1]);
    assert Before(l, times[..j], times[j]) == Turn(l, before, times[j - 1]).0;
  }

  /** The stored number of tokens stays between none and a full bucket, whatever the clock does. */
  lemma {:induction false} TokensInRange(l: Limits, times: seq<real>)
    requires l.On() && times != []
    ensures 0.0 <= After(l, times).tokens <= l.burst
  {
    var n := |times| - 1;
    if n > 0 {
      TokensInRange(l, times[..n]);
      RefillNotLess(l, After(l, times[..n]), times[n]);
    }
  }

  lemma RefillNotLess(l: Limits, s: Level, now: real)
    requires l.On() && 0.0 <= s.tokens <= l.burst
    ensures s.tokens <= Refill(l, s, now).tokens <= l.burst
  {
    assert Max(0.0, now - s.ts) * l.rps >= 0.0;
  }

  /** No window has less slack than the tokens found, and some window has exactly that. */
  lemma {:induction false} TokensAreLeastSlack(l: Limits, times: seq<real>, j: nat)
    requires l.On() && j < |times|
    ensures forall i | 0 <= i <= j :: Tokens(l, times, j) <= Slack(l, times, i, j)
    ensures exists i :: 0 <= i <= j && Tokens(l, times, j) == Slack(l, times, i, j)
  {
    assert Slack(l, times, j, j) == l.burst;
    if j == 0 {
      assert Tokens(l, times, 0) == l.burst;
    } else {
      TokensAreLeastSlack(l, times, j - 1);
      TokensNext(l, times, j);
      forall i | 0 <= i <= j - 1 ensures Tokens(l, times, j) <= Slack(l, times, i, j) {
        SlackNext(l, times, i, j);
      }
      var i :| 0 <= i <= j - 1 && Tokens(l, times, j - 1) == Slack(l, times, i, j - 1);
      SlackNext(l, times, i, j);
      assert Tokens(l, times, j) == Slack(l, times, i, j) || Tokens(l, times, j) == Slack(l, times, j, j);
    }
  }

  lemma SlackNext(l: Limits, times: seq<real>, i: nat, j: nat)
    requires i < j < |times|
    ensures Slack(l, times, i, j)
      == Slack(l, times, i, j - 1) - (if GrantedAt(l, times, j - 1) then 1.0 else 0.0)
         + Max(0.0, times[j] - times[j - 1]) * l.rps
  {
    var step := Max(0.0, times[j] - times[j - 1]);
    Distributes(Forward(times, i, j - 1), step, l.rps);
  }

  lemma Distributes(x: real, y: real, k: real)
    ensures (x + y) * k == x * k + y * k
  {
  }

  /**
   The limiter, told from the history alone, for any clock: a request is granted exactly
   when no window ending at it would then hold more grants than burst + rps * forward time.
   */
  lemma GrantedExactly(l: Limits, times: seq<real>, j: nat)
    requires l.On() && j < |times|
    ensures GrantedAt(l, times, j)
      <==> forall i | 0 <= i <= j :: (Granted(l, times, i, j) + 1) as real <= Allowance(l, times, i, j)
  {
    TokensAreLeastSlack(l, times, j);
    var i :| 0 <= i <= j && Tokens(l, times, j) == Slack(l, times, i, j);
    assert GrantedAt(l, times, j) <==> Tokens(l, times, j) >= 1.0;
    if GrantedAt(l, times, j) {
      forall i | 0 <= i <= j ensures (Granted(l, times, i, j) + 1) as real <= Allowance(l, times, i, j) {
        assert Tokens(l, times, j) <= Slack(l, times, i, j);
      }
    } else {
      assert (Granted(l, times, i, j) + 1) as real > Allowance(l, times, i, j);
    }
  }

  /** Between two requests, both included, there are at most burst + rps * forward time grants. */
  lemma {:induction false} ForwardRateBound(l: Limits, times: seq<real>, i: nat, j: nat)
    requires l.On() && i <= j < |times|
    ensures Granted(l, times, i, j + 1) as real <= Allowance(l, times, i, j)
    decreases j
  {
    if GrantedAt(l, times, j) {
      GrantedExactly(l, times, j);
    } else if i < j {
      ForwardRateBound(l, times, i, j - 1);
      SlackNext(l, times, i, j);
      assert Max(0.0, times[j] - times[j - 1]) * l.rps >= 0.0;
    }
  }

  // ----- the bound by the clock ------------------------------------------------------------

  /** The number of grants the clock readings of the two requests suggest. */
  function ClockAllowance(l: Limits, times: seq<real>, i: nat, j: nat): real
    requires i <= j < |times|
  {
    l.burst + (times[j] - times[i]) * l.rps
  }

  predicate WithinClock(l: Limits, times: seq<real>, i: nat, j: nat)
    requires i <= j < |times|
  {
    Granted(l, times, i, j + 1) as real <= ClockAllowance(l, times, i, j)
  }

  /** With a clock that never goes back that is at most burst + rps * elapsed time. */
  lemma RateBound(l: Limits, times: seq<real>, i: nat, j: nat)
    requires l.On() && NeverBack(times) && i <= j < |times|
    ensures WithinClock(l, times, i, j)
  {
    ForwardRateBound(l, times, i, j);
    ForwardIsElapsed(times, i, j);
  }

  /** A history keeps to that bound, under all limits and in all windows, exactly when its clock never goes back. */
  lemma RateBoundExactly(times: seq<real>)
    ensures
      (forall l: Limits, i, j | l.On() && 0 <= i <= j < |times| :: WithinClock(l, times, i, j)) <==> NeverBack(times)
  {
    if NeverBack(times) {
      forall l: Limits, i, j | l.On() && 0 <= i <= j < |times| ensures WithinClock(l, times, i, j) {
        RateBound(l, times, i, j);
      }
    } else {
      var i, j :| 0 <= i <= j < |times| && times[i] > times[j];
      var back := times[i] - times[j];
      var l := Limits(2.0 / back, 1.0);
      Negated(back);
      assert ClockAllowance(l, times, i, j) == -1.0;
      assert l.On() && !WithinClock(l, times, i, j);
    }
  }

  lemma Negated(back: real)
    requires back > 0.0
    ensures 2.0 / back > 0.0 && (-back) * (2.0 / back) == -2.0
  {
    assert back * (2.0 / back) == 2.0;
  }

  /** With room for one token, a client that waits 1/rps after its previous request is served. */
  lemma ServedAfterPause(l: Limits, times: seq<real>, j: nat)
    requires l.On() && j < |times|
    requires l.burst >= 1.0
    requires j > 0 ==> times[j] - times[j - 1] >= 1.0 / l.rps
    ensures GrantedAt(l, times, j)
  {
    if j > 0 {
      TokensInRange(l, times[..j]);
      Product(times[j] - times[j - 1], l.rps);
    }
  }

  lemma Product(d: real, rps: real)
    requires rps > 0.0 && d >= 1.0 / rps
    ensures d * rps >= 1.0
  {
    assert 1.0 / rps * rps == 1.0;
    assert (d - 1.0 / rps) * rps >= 0.0;
  }

  /** With a burst below one token the limiter is on, and refuses every request for ever. */
  lemma EveryRequestRefused(l: Limits, times: seq<real>)
    requires l.On() && times != []
    ensures (forall j | 0 <= j < |times| :: !GrantedAt(l, times, j)) <==> l.burst < 1.0
  {
    assert times[..0] == [];
    assert Tokens(l, times, 0) == l.burst && (GrantedAt(l, times, 0) <==> l.burst >= 1.0);
    forall j | 0 <= j < |times| ensures l.burst < 1.0 ==> !GrantedAt(l, times, j) {
      assert Tokens(l, times, j) <= l.burst;
    }
  }

  /** A case: at 10, 0 and 10 seconds, one token a second, two of three requests get through. */
  lemma BackwardsClockBreaksBound()
    ensures var l, times := Limits(1.0, 1.0), [10.0, 0.0, 10.0];
      l.On() && !NeverBack(times) && Granted(l, times, 0, 3) == 2 && ClockAllowance(l, times, 0, 2) == 1.0
  {
    var l, times := Limits(1.0, 1.0), [10.0, 0.0, 10.0];
    assert times[..0] == [] && times[..1] == [10.0] && times[..2] == [10.0, 0.0];
    assert [10.0, 0.0][..1] == [10.0] && [10.0][..0] == [];
    assert After(l, times[..1]) == Level(0.0, 10.0);
    assert After(l, times[..2]) == Level(0.0, 0.0);
    assert GrantedAt(l, times, 0) && !GrantedAt(l, times, 1) && GrantedAt(l, times, 2);
    assert Granted(l, times, 0, 1) == 1 && Granted(l, times, 0, 2) == 1;
    assert times[0] > times[1];
  }

  // ----- the table ----------------------------------------------------------------------------

  class RateState {
    const limits: Limits
    var rateState: map<string, Level>
    /** The requests each key has made while the limiter was on. */
    ghost var history: map<string, seq<real>>

    /** Every key is in the state its own requests have left. */
    ghost predicate Valid()
      reads this
    {
      && rateState.Keys == history.Keys
      && forall k | k in rateState :: history[k] != [] && rateState[k] == After(limits, history[k])
    }

    ghost function RequestsOf(key: string): seq<real>
      reads this
    {
      if key in history then history[key] else []
    }

    constructor (l: Limits)
      ensures Valid() && limits == l && rateState == map[] && history == map[]
    {
      limits, rateState, history := l, map[], map[];
    }

    /** `_rate_limit_allow`: the answer follows from the requests of this key alone. */
    method Allow(key: string, now: real) returns (ok: bool)
      requires Valid()
      modifies this
      ensures Valid()
      ensures !limits.On() ==> ok && rateState == old(rateState) && history == old(history)
      ensures limits.On() ==> history == old(history)[key := old(RequestsOf(key)) + [now]]
      ensures limits.On() ==> ok == GrantedAt(limits, RequestsOf(key), |RequestsOf(key)| - 1)
    {
      var rps, burst := limits.rps, limits.burst;
      if rps <= 0.0 || burst <= 0.0 {
        return true;
      }
      ghost var times := RequestsOf(key);
      var state := if key in rateState then rateState[key] else Level(burst, now);
      TurnIsNext(limits, times, now);
      state, ok := Spend(state, now);
      rateState := rateState[key := state];
      history := history[key := times + [now]];
    }

    /** Bring a state up to now and take a token if there is one. */
    method Spend(state: Level, now: real) returns (state': Level, ok: bool)
      ensures (state', ok) == Turn(limits, state, now)
    {
      var elapsed := Max(0.0, now - state.ts);
      state' := state.(tokens := Min(limits.burst, state.tokens + elapsed * limits.rps));
      state' := state'.(ts := now);
      if state'.tokens < 1.0 {
        return state', false;
      }
      state' := state'.(tokens := state'.tokens - 1.0);
      return state', true;
    }
  }

  lemma TurnIsNext(l: Limits, times: seq<real>, now: real)
    ensures var turn := Turn(l, Before(l, times, now), now);
      After(l, times + [now]) == turn.0 && GrantedAt(l, times + [now], |times|) == turn.1
  {
    assert (times + [now])[..|times|] == times;
  }
}
