/** Clock readings, one after the other, of a clock that may be set back. */
module Clock {

  predicate NeverBack(times: seq<real>) {
    forall i, j | 0 <= i <= j < |times| :: times[i] <= times[j]
  }

  /** How far the clock has gone forward from reading i to reading j; steps back do not count. */
  function Forward(times: seq<real>, i: nat, j: nat): real
    requires i <= j < |times|
  {
    if i == j then 0.0
    else Forward(times, i, j - 1) + (if times[j - 1] < times[j] then times[j] - times[j - 1] else 0.0)
  }

  lemma {:induction false} ForwardIsElapsed(times: seq<real>, i: nat, j: nat)
    requires NeverBack(times) && i <= j < |times|
    ensures Forward(times, i, j) == times[j] - times[i]
    decreases j
  {
    if i < j {
      ForwardIsElapsed(times, i, j - 1);
      assert times[j - 1] <= times[j];
    }
  }
}
