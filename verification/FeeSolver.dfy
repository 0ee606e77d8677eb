/** The fee and change loop (build_opreturn_psbt.py, `build_psbt`). */
module FeeSolver {
  import opened Wrappers
  import opened CoinSelection

  const DUST := 330
  const MAX_PAYLOAD := 80
  const MAX_ROUNDS := 10

  /** `estimate_vbytes` */
  function EstimateVbytes(inputs: nat, outputs: nat, payload: nat): nat {
    10 + 68 * inputs + 31 * outputs + (12 + payload)
  }

  datatype Action = NoChange | Recalc | Ok

  datatype Plan = Plan(picked: seq<Utxo>, fee: int, change: int, includeChange: bool, action: Action)

  datatype SolveError = PayloadTooLong | NoUtxos | NotConverged

  /** The request: the amount paid (0 when nothing is paid), the fee rate and the payload size. */
  datatype Request = Request(payment: nat, rate: int, payload: nat)

  /** Outputs besides change: the payment, if any, and the OP_RETURN output. */
  function FixedOutputs(q: Request): nat {
    (if q.payment > 0 then 1 else 0) + 1
  }

  function FeeWithChange(q: Request, inputs: nat): int {
    q.rate * EstimateVbytes(inputs, FixedOutputs(q) + 1, q.payload)
  }

  function FeeWithoutChange(q: Request, inputs: nat): int {
    q.rate * EstimateVbytes(inputs, FixedOutputs(q), q.payload)
  }

  /** These inputs pay for the payment and for a transaction with a change output. */
  predicate Covers(q: Request, inputs: seq<Utxo>) {
    Sum(inputs) >= q.payment + FeeWithChange(q, |inputs|)
  }

  lemma FeesByRate(q: Request, inputs: nat)
    ensures FeeWithChange(q, inputs) == FeeWithoutChange(q, inputs) + 31 * q.rate
    ensures FeeWithChange(q, inputs + 1) == FeeWithChange(q, inputs) + 68 * q.rate
  {
    var o, p := FixedOutputs(q), q.payload;
    assert EstimateVbytes(inputs, o + 1, p) == EstimateVbytes(inputs, o, p) + 31;
    assert EstimateVbytes(inputs + 1, o + 1, p) == EstimateVbytes(inputs, o + 1, p) + 68;
  }

  /** One more byte of payload costs exactly the rate, and so does each byte of everything else. */
  lemma FeesByPayload(q: Request, inputs: nat)
    ensures var longer := q.(payload := q.payload + 1);
      && FeeWithoutChange(longer, inputs) == FeeWithoutChange(q, inputs) + q.rate
      && FeeWithChange(longer, inputs) == FeeWithChange(q, inputs) + q.rate
    ensures FeeWithoutChange(q, inputs) == q.rate * (53 + 68 * inputs + q.payload + if q.payment > 0 then 31 else 0)
  {
    var o, p := FixedOutputs(q), q.payload;
    assert EstimateVbytes(inputs, o, p + 1) == EstimateVbytes(inputs, o, p) + 1;
    assert EstimateVbytes(inputs, o + 1, p + 1) == EstimateVbytes(inputs, o + 1, p) + 1;
  }

  lemma {:induction false} FeeMonotone(q: Request, i: nat, j: nat)
    requires q.rate >= 0 && i <= j
    ensures FeeWithChange(q, i) <= FeeWithChange(q, j)
    ensures q.rate > 0 && i < j ==> FeeWithChange(q, i) < FeeWithChange(q, j)
    decreases j
  {
    if i < j {
      FeeMonotone(q, i, j - 1);
      FeesByRate(q, j - 1);
    }
  }

  /** No largest-first prefix of 1 .. k outputs covers the request. */
  predicate NoneCovers(q: Request, us: seq<Utxo>, k: nat)
    requires k <= |us|
  {
    forall j | 1 <= j <= k :: !Covers(q, us[..j])
  }

  /** The first pick aims at a one-input fee, so nothing shorter covers, and a single output covers or is everything. */
  lemma FirstPick(q: Request, us: seq<Utxo>, k: nat)
    requires q.rate >= 0 && us != [] && IsPick(us, q.payment + FeeWithChange(q, 1), k)
    ensures NoneCovers(q, us, k - 1)
    ensures q.rate == 0 && !Covers(q, us[..k]) ==> k == |us|
    ensures k == 1 && !Covers(q, us[..k]) ==> k == |us|
  {
    forall j | 1 <= j < k ensures !Covers(q, us[..j]) {
      FeeMonotone(q, 1, j);
    }
  }

  /** A further round picks strictly more, unless everything is picked, and skips nothing that covers. */
  lemma NextPick(q: Request, us: seq<Utxo>, k: nat, k': nat)
    requires q.rate >= 0 && 1 <= k <= |us| && NoneCovers(q, us, k)
    requires q.rate == 0 ==> k == |us|
    requires IsPick(us, q.payment + FeeWithChange(q, k) + 1, k')
    ensures k < k' || k == k' == |us|
    ensures NoneCovers(q, us, if k' == k then k else k' - 1)
  {
    assert !Covers(q, us[..k]);
    if k' <= k {
      SumMonotone(us, k', k);
    }
    forall j | k < j < k' ensures !Covers(q, us[..j]) {
      FeeMonotone(q, k, j);
    }
  }

  /** What the fee rate asks of the transaction that the plan builds. */
  function BuiltFee(q: Request, p: Plan): int {
    if p.includeChange then FeeWithChange(q, |p.picked|) else FeeWithoutChange(q, |p.picked|)
  }

  /** What the solver promises about a plan, for a fee rate that is not negative. */
  predicate IsGoodPlan(q: Request, utxos: seq<Utxo>, p: Plan) {
    var us, k := LargestFirst(utxos), |p.picked|;
    // the shortest largest-first prefix that covers the request
    && 1 <= k <= |us| && p.picked == us[..k] && Covers(q, p.picked) && NoneCovers(q, us, k - 1)
    // every satoshi is accounted for
    && Sum(p.picked) == q.payment + p.fee + p.change
    // change is nothing or above dust, and is an output exactly when there is some
    && (p.change == 0 || p.change >= DUST) && (p.includeChange <==> p.change > 0)
    && (p.action == NoChange <==> p.change == 0)
    // with change, the fee is the rate's for the layout with it, or without it on the "recalc" exit
    && (p.action == Ok ==> p.fee == FeeWithChange(q, k)) && (p.action == Recalc ==> p.fee == FeeWithoutChange(q, k))
    // the fee pays for the layout without change, and for little more than that
    && FeeWithoutChange(q, k) <= p.fee
    && (p.fee <= FeeWithoutChange(q, k) + DUST - 1 || p.fee == FeeWithoutChange(q, k) + 31 * q.rate)
    // it falls short of the layout that is really built exactly on the "recalc" exit
    && (p.action == Recalc <==> p.fee < BuiltFee(q, p))
    // which is taken exactly when dropping the change output would free a non-dust amount
    && var left := Sum(p.picked) - q.payment - FeeWithChange(q, k);
    (p.action == Recalc <==> left < DUST <= left + 31 * q.rate)
  }

  /** The three exits for picked inputs that cover the request. */
  function Settled(q: Request, picked: seq<Utxo>): Plan {
    var left := Sum(picked) - q.payment - FeeWithChange(q, |picked|);
    var fee2 := FeeWithoutChange(q, |picked|);
    var left2 := Sum(picked) - q.payment - fee2;
    if left >= DUST then Plan(picked, FeeWithChange(q, |picked|), left, true, Ok)
    else if left2 >= DUST then Plan(picked, fee2, left2, true, Recalc)
    else Plan(picked, fee2 + (if left2 > 0 then left2 else 0), 0, false, NoChange)
  }

  /** The branches of one round that does not ask for more inputs. */
  method Settle(q: Request, picked: seq<Utxo>) returns (p: Plan)
    ensures p == Settled(q, picked)
  {
    var fee := FeeWithChange(q, |picked|);
    var change := Sum(picked) - q.payment - fee;
    var includeChange, action := true, Ok;
    if change < DUST {
      var fee2 := FeeWithoutChange(q, |picked|);
      var change2 := Sum(picked) - q.payment - fee2;
      if change2 < DUST {
        includeChange := false;
        fee := fee2 + (if change2 > 0 then change2 else 0);
        change := 0;
        action := NoChange;
      } else {
        fee, change, action := fee2, change2, Recalc;
      }
    }
    p := Plan(picked, fee, change, includeChange, action);
  }

  lemma SettledIsGood(q: Request, utxos: seq<Utxo>, k: nat)
    requires q.rate >= 0 && 1 <= k <= |LargestFirst(utxos)|
    requires Covers(q, LargestFirst(utxos)[..k]) && NoneCovers(q, LargestFirst(utxos), k - 1)
    ensures IsGoodPlan(q, utxos, Settled(q, LargestFirst(utxos)[..k]))
  {
    FeesByRate(q, k);
  }

  /** How many outputs are picked when a round begins. */
  function Probe(q: Request, us: seq<Utxo>, round: nat): nat
    requires us != []
  {
    if round == 0 then PickFrom(us, q.payment + FeeWithChange(q, 1), 1)
    else PickFrom(us, q.payment + FeeWithChange(q, Probe(q, us, round - 1)) + 1, 1)
  }

  lemma ProbeFits(q: Request, us: seq<Utxo>, round: nat)
    requires us != []
    ensures 1 <= Probe(q, us, round) <= |us|
  {
    if round == 0 {
      PickFromIsPick(us, q.payment + FeeWithChange(q, 1), 1);
    } else {
      PickFromIsPick(us, q.payment + FeeWithChange(q, Probe(q, us, round - 1)) + 1, 1);
    }
  }

  /** The pick of this round covers the request. */
  predicate ProbeCovers(q: Request, us: seq<Utxo>, round: nat)
    requires us != []
  {
    ProbeFits(q, us, round);
    Covers(q, us[..Probe(q, us, round)])
  }

  lemma FirstProbe(q: Request, us: seq<Utxo>, k: nat)
    requires q.rate >= 0 && us != [] && IsPick(us, q.payment + FeeWithChange(q, 1), k)
    ensures k == Probe(q, us, 0) && Progress(q, us, k, 0, 0)
  {
    PickIsUnique(us, q.payment + FeeWithChange(q, 1), k);
    FirstPick(q, us, k);
  }

  lemma NextProbe(q: Request, us: seq<Utxo>, k: nat, k': nat, tried: nat, round: nat)
    requires us != [] && k == Probe(q, us, round) && 1 <= k <= |us| && tried <= |us| && !Covers(q, us[..k])
    requires q.rate >= 0 && Progress(q, us, k, tried, round)
    requires IsPick(us, q.payment + FeeWithChange(q, k) + 1, k')
    ensures k' == Probe(q, us, round + 1) && Progress(q, us, k', k, round + 1)
  {
    PickIsUnique(us, q.payment + FeeWithChange(q, k) + 1, k');
    assert NoneCovers(q, us, k);
    NextPick(q, us, k, k');
  }

  /**
   Everything shorter than the pick fails, and each round has tried one more prefix. The
   first round has ruled out two of them, since a pick of one output covers or is everything.
   */
  predicate Progress(q: Request, us: seq<Utxo>, picked: nat, tried: nat, round: nat)
    requires 1 <= picked <= |us| && tried <= |us|
  {
    && NoneCovers(q, us, picked - 1) && NoneCovers(q, us, tried)
    && (q.rate == 0 && !Covers(q, us[..picked]) ==> picked == |us|)
    && (tried < picked || tried == picked == |us|)
    && (picked == 1 && !Covers(q, us[..1]) ==> |us| == 1)
    && (round > 0 ==> tried >= round + 1 || tried == |us|)
  }

  /** What the rounds have ruled out when none of them has covered the request. */
  lemma {:induction false} ProgressAt(q: Request, us: seq<Utxo>, round: nat) returns (tried: nat)
    requires us != [] && q.rate >= 0 && forall i | 0 <= i < round :: !ProbeCovers(q, us, i)
    ensures tried <= |us| && 1 <= Probe(q, us, round) <= |us|
    ensures Progress(q, us, Probe(q, us, round), tried, round)
  {
    ProbeFits(q, us, round);
    if round == 0 {
      PickFromIsPick(us, q.payment + FeeWithChange(q, 1), 1);
      FirstProbe(q, us, Probe(q, us, 0));
      tried := 0;
    } else {
      var before := ProgressAt(q, us, round - 1);
      var k := Probe(q, us, round - 1);
      assert !ProbeCovers(q, us, round - 1);
      PickFromIsPick(us, q.payment + FeeWithChange(q, k) + 1, 1);
      NextProbe(q, us, k, Probe(q, us, round), before, round - 1);
      tried := k;
    }
  }

  /** The request is well formed and none of the ten picks covers it. */
  predicate GivesUp(q: Request, utxos: seq<Utxo>) {
    && q.payload <= MAX_PAYLOAD && utxos != []
    && (LargestFirstSorts(utxos);
        forall round | 0 <= round < MAX_ROUNDS :: !ProbeCovers(q, LargestFirst(utxos), round))
  }

  /** How many prefixes are ruled out when the solver gives up. */
  function RuledOut(utxos: seq<Utxo>): nat {
    if |utxos| <= MAX_ROUNDS then |utxos| else MAX_ROUNDS + 1
  }

  /** The rounds of `build_psbt` that settle inputs, fee and change. */
  method Solve(utxos: seq<Utxo>, q: Request) returns (r: Result<Plan, SolveError>)
    ensures r == Failure(PayloadTooLong) <==> q.payload > 80
    ensures r == Failure(NoUtxos) <==> q.payload <= 80 && utxos == []
    ensures r.Success? && q.rate >= 0 ==> IsGoodPlan(q, utxos, r.value)
    ensures r == Failure(NotConverged) <==> GivesUp(q, utxos)
    // when it gives up, it has ruled out every prefix of up to eleven outputs
    ensures q.rate >= 0 && r == Failure(NotConverged) ==>
      |LargestFirst(utxos)| == |utxos| && NoneCovers(q, LargestFirst(utxos), RuledOut(utxos))
  {
    if q.payload > MAX_PAYLOAD { return Failure(PayloadTooLong); }
    if utxos == [] { return Failure(NoUtxos); }
    ghost var us := LargestFirst(utxos);
    LargestFirstSorts(utxos);
    var picked := SelectInputs(utxos, q.payment + FeeWithChange(q, 1));
    PickIsUnique(us, q.payment + FeeWithChange(q, 1), |picked|);
    for round := 0 to MAX_ROUNDS
      invariant 1 <= |picked| <= |us| && picked == us[..|picked|]
      invariant |picked| == Probe(q, us, round)
      invariant forall i | 0 <= i < round :: !ProbeCovers(q, us, i)
    {
      if Covers(q, picked) {
        var p := Settle(q, picked);
        if q.rate >= 0 { SuccessIsGood(q, utxos, round, picked); }
        NotGivenUp(q, utxos, round, picked);
        return Success(p);
      }
      var target := q.payment + FeeWithChange(q, |picked|) + 1;
      picked := SelectInputs(utxos, target);
      PickIsUnique(us, target, |picked|);
    }
    r := Failure(NotConverged);
    if q.rate >= 0 { GivenUpRulesOut(q, utxos); }
  }

  lemma SuccessIsGood(q: Request, utxos: seq<Utxo>, round: nat, picked: seq<Utxo>)
    requires utxos != [] && q.rate >= 0 && |LargestFirst(utxos)| == |utxos|
    requires forall i | 0 <= i < round :: !ProbeCovers(q, LargestFirst(utxos), i)
    requires |picked| == Probe(q, LargestFirst(utxos), round) && |picked| <= |utxos|
    requires picked == LargestFirst(utxos)[..|picked|] && Covers(q, picked)
    ensures IsGoodPlan(q, utxos, Settled(q, picked))
  {
    var tried := ProgressAt(q, LargestFirst(utxos), round);
    SettledIsGood(q, utxos, |picked|);
  }

  lemma NotGivenUp(q: Request, utxos: seq<Utxo>, round: nat, picked: seq<Utxo>)
    requires utxos != [] && |LargestFirst(utxos)| == |utxos| && round < MAX_ROUNDS
    requires |picked| == Probe(q, LargestFirst(utxos), round) && |picked| <= |utxos|
    requires picked == LargestFirst(utxos)[..|picked|] && Covers(q, picked)
    ensures !GivesUp(q, utxos)
  {
    assert ProbeCovers(q, LargestFirst(utxos), round);
  }

  lemma GivenUpRulesOut(q: Request, utxos: seq<Utxo>)
    requires q.rate >= 0 && GivesUp(q, utxos)
    ensures |LargestFirst(utxos)| == |utxos| && NoneCovers(q, LargestFirst(utxos), RuledOut(utxos))
  {
    LargestFirstSorts(utxos);
    var tried := ProgressAt(q, LargestFirst(utxos), MAX_ROUNDS);
  }

  /**
   The plan has as few inputs as any choice of outputs that pays for a transaction with
   change, and when no prefix does so no choice does.
   */
  lemma FewestInputs(q: Request, utxos: seq<Utxo>, c: seq<Utxo>)
    requires q.rate >= 0 && IsChoice(c, utxos) && c != [] && Covers(q, c)
    ensures |c| <= |LargestFirst(utxos)| && Covers(q, LargestFirst(utxos)[..|c|])
    ensures forall p | IsGoodPlan(q, utxos, p) :: |p.picked| <= |c|
  {
    var us := LargestFirst(utxos);
    LargestFirstSorts(utxos);
    LargestIsBest(us, c);
    assert Covers(q, us[..|c|]);
  }

  // ----- the exit that underpays --------------------------------------------------------

  /**
   A single output of 1672 satoshis at 11 satoshis per byte, with nothing to pay: it just
   covers a transaction with change, so every good plan recalculates, keeps the change
   output and pays 341 satoshis less than the rate asks for.
   */
  lemma RecalcOccurs(u: Utxo)
    requires u.value == 1672
    ensures var q := Request(0, 11, 0);
      && IsGoodPlan(q, [u], Settled(q, [u]))
      && forall p | IsGoodPlan(q, [u], p) ::
           p.action == Recalc && p.change == 341 && p.fee == 1331 && BuiltFee(q, p) == 1672
  {
    var q, us := Request(0, 11, 0), LargestFirst([u]);
    assert us == [u] by {
      assert [u][1..] == [] && LargestFirst([]) == [];
    }
    assert Sum([u]) == 1672 by {
      SumStep([u], 0);
      assert [u][..1] == [u] && [u][..0] == [];
    }
    assert [u][..1] == [u];
    assert FeeWithChange(q, 1) == 1672 && FeeWithoutChange(q, 1) == 1331;
    SettledIsGood(q, [u], 1);
    forall p | IsGoodPlan(q, [u], p) ensures p.action == Recalc && p.change == 341 && p.fee == 1331 {
      assert |p.picked| == 1 && p.picked == [u];
    }
  }

  // ----- whole plans in numbers -----------------------------------------------------------

  /** These outputs make these values when sorted, and their sums are what they are. */
  lemma OneOutput(u: Utxo)
    ensures LargestFirst([u]) == [u] && [u][..1] == [u] && Sum([u]) == u.value
  {
    SortedStays([u]);
    assert [u][1..] == [];
  }

  /** 2000 satoshis at one per byte with a full payload: 232 for 232 bytes, the rest is change. */
  lemma PlanWithPayload(u: Utxo)
    requires u.value == 2000
    ensures var q := Request(0, 1, 80);
      forall p | IsGoodPlan(q, [u], p) :: p == Plan([u], 232, 1768, true, Ok)
  {
    var q := Request(0, 1, 80);
    OneOutput(u);
    assert FeeWithChange(q, 1) == 232 && FeeWithoutChange(q, 1) == 201;
    forall p | IsGoodPlan(q, [u], p) ensures p == Plan([u], 232, 1768, true, Ok) {
      assert |p.picked| == 1 && p.picked == [u][..1];
    }
  }

  /** 1500 satoshis that pay 1000 at two per byte with 40 bytes of payload: 116 are too few for change, and are fee. */
  lemma PlanWithoutChange(u: Utxo)
    requires u.value == 1500
    ensures var q := Request(1000, 2, 40);
      forall p | IsGoodPlan(q, [u], p) :: p == Plan([u], 500, 0, false, NoChange)
  {
    var q := Request(1000, 2, 40);
    OneOutput(u);
    assert FeeWithChange(q, 1) == 446 && FeeWithoutChange(q, 1) == 384;
    forall p | IsGoodPlan(q, [u], p) ensures p == Plan([u], 500, 0, false, NoChange) {
      assert |p.picked| == 1 && p.picked == [u][..1];
    }
  }

  /** Change of exactly 330 satoshis is kept, and of 329 it is not. */
  lemma DustIsExact(u: Utxo, v: Utxo)
    requires u.value == 482 && v.value == 450
    ensures Settled(Request(0, 1, 0), [u]) == Plan([u], 152, 330, true, Ok)
    ensures Settled(Request(0, 1, 0), [v]) == Plan([v], 450, 0, false, NoChange)
  {
    OneOutput(u);
    OneOutput(v);
    assert FeeWithChange(Request(0, 1, 0), 1) == 152 && FeeWithoutChange(Request(0, 1, 0), 1) == 121;
  }

  // ----- ten rounds are enough for up to eleven outputs ------------------------------------

  /** No choice of outputs pays for a transaction with a change output. */
  ghost predicate Uncovered(q: Request, utxos: seq<Utxo>) {
    forall c | IsChoice(c, utxos) && c != [] :: !Covers(q, c)
  }

  /** The solver gives up on every request that no choice covers. */
  lemma UncoveredIsGivenUp(q: Request, utxos: seq<Utxo>)
    requires q.payload <= MAX_PAYLOAD && utxos != [] && Uncovered(q, utxos)
    ensures GivesUp(q, utxos)
  {
    var us := LargestFirst(utxos);
    LargestFirstSorts(utxos);
    forall round | 0 <= round < MAX_ROUNDS ensures !ProbeCovers(q, us, round) {
      ProbeFits(q, us, round);
      PrefixIsChoice(utxos, Probe(q, us, round));
    }
  }

  /** With up to eleven outputs it gives up on no other. */
  lemma GivenUpIsUncovered(q: Request, utxos: seq<Utxo>)
    requires q.rate >= 0 && GivesUp(q, utxos) && |utxos| <= MAX_ROUNDS + 1
    ensures Uncovered(q, utxos)
  {
    GivenUpRulesOut(q, utxos);
    forall c | IsChoice(c, utxos) && c != [] ensures !Covers(q, c) {
      if Covers(q, c) { FewestInputs(q, utxos, c); }
    }
  }

  lemma PrefixIsChoice(utxos: seq<Utxo>, k: nat)
    requires k <= |LargestFirst(utxos)|
    ensures IsChoice(LargestFirst(utxos)[..k], utxos)
  {
    var us := LargestFirst(utxos);
    LargestFirstSorts(utxos);
    assert us == us[..k] + us[k..];
  }

  // ----- and for no larger number -----------------------------------------------------------

  const EMPTY_AT_ONE_SAT := Request(0, 1, 0)

  /** The largest outputs are six of 76 satoshis and six of 75; what follows is of no matter. */
  predicate TwelveSmall(us: seq<Utxo>) {
    && |us| >= 12
    && (forall i | 0 <= i < 6 :: us[i].value == 76) && forall i | 6 <= i < 12 :: us[i].value == 75
  }

  lemma {:induction false} SumOfSmall(us: seq<Utxo>, k: nat)
    requires TwelveSmall(us) && k <= 12
    ensures Sum(us[..k]) == if k <= 6 then 76 * k else 75 * k + 6
  {
    if k > 0 {
      SumOfSmall(us, k - 1);
      SumStep(us, k - 1);
    }
  }

  /** Every round picks one output more, and twelve would be needed. */
  lemma {:induction false} ProbesAreShort(us: seq<Utxo>, round: nat)
    requires TwelveSmall(us) && round < MAX_ROUNDS
    ensures Probe(EMPTY_AT_ONE_SAT, us, round) == round + 2
  {
    var q := EMPTY_AT_ONE_SAT;
    SumOfSmall(us, round + 1);
    SumOfSmall(us, round + 2);
    if round == 0 {
      PickIsLeast(us, FeeWithChange(q, 1), 2);
    } else {
      ProbesAreShort(us, round - 1);
      PickIsLeast(us, FeeWithChange(q, round + 1) + 1, round + 2);
    }
  }

  lemma PickIsLeast(us: seq<Utxo>, target: int, k: nat)
    requires 1 < k <= |us| && Sum(us[..k - 1]) < target <= Sum(us[..k])
    ensures PickFrom(us, target, 1) == k
  {
    forall j | 1 <= j < k ensures Sum(us[..j]) < target {
      SumMonotone(us, j, k - 1);
    }
    PickIsUnique(us, target, k);
  }

  /**
   With these outputs, in any order and with any smaller ones beside them, the solver
   gives up at one satoshi per byte, although the twelve together cover the request.
   */
  lemma GivesUpTooEarly(utxos: seq<Utxo>)
    requires TwelveSmall(LargestFirst(utxos))
    ensures GivesUp(EMPTY_AT_ONE_SAT, utxos) && !Uncovered(EMPTY_AT_ONE_SAT, utxos)
  {
    var q, us := EMPTY_AT_ONE_SAT, LargestFirst(utxos);
    LargestFirstSorts(utxos);
    forall round | 0 <= round < MAX_ROUNDS ensures !ProbeCovers(q, us, round) {
      ProbesAreShort(us, round);
      SumOfSmall(us, round + 2);
    }
    SumOfSmall(us, 12);
    PrefixIsChoice(utxos, 12);
    assert Covers(q, us[..12]);
  }

  lemma {:induction false} SortedStays(us: seq<Utxo>)
    requires Descending(us)
    ensures LargestFirst(us) == us
  {
    if us != [] {
      SortedStays(us[1..]);
    }
  }

  /** For this number of outputs the solver gives up exactly on the requests that no choice covers. */
  ghost predicate RoundsSuffice(n: nat) {
    forall q: Request, utxos: seq<Utxo> | q.rate >= 0 && q.payload <= MAX_PAYLOAD && |utxos| == n ::
      GivesUp(q, utxos) <==> Uncovered(q, utxos)
  }

  /** Ten rounds are enough to find out what is covered exactly with up to eleven outputs. */
  lemma TenRoundsExactly(n: nat)
    requires n > 0
    ensures RoundsSuffice(n) <==> n <= MAX_ROUNDS + 1
  {
    if n <= MAX_ROUNDS + 1 {
      forall q: Request, utxos: seq<Utxo> | q.rate >= 0 && q.payload <= MAX_PAYLOAD && |utxos| == n
        ensures GivesUp(q, utxos) <==> Uncovered(q, utxos)
      {
        if GivesUp(q, utxos) { GivenUpIsUncovered(q, utxos); }
        if Uncovered(q, utxos) { UncoveredIsGivenUp(q, utxos); }
      }
    } else {
      var utxos := seq(n, i => Utxo("", 0, if i < 6 then 76 else if i < 12 then 75 else 0));
      SortedStays(utxos);
      GivesUpTooEarly(utxos);
    }
  }

  // ----- the layout without change ------------------------------------------------------------

  /** These inputs pay for the payment and for a transaction without a change output. */
  predicate PaysPlain(q: Request, inputs: seq<Utxo>) {
    Sum(inputs) >= q.payment + FeeWithoutChange(q, |inputs|)
  }

  /** Some choice of outputs can pay the request in one of the two layouts that the solver builds. */
  ghost predicate Payable(q: Request, utxos: seq<Utxo>) {
    exists c :: IsChoice(c, utxos) && c != [] && PaysPlain(q, c)
  }

  /** What covers the layout with change pays for the one without. */
  lemma CoversPaysPlain(q: Request, inputs: seq<Utxo>)
    requires q.rate >= 0 && Covers(q, inputs)
    ensures PaysPlain(q, inputs)
  {
    FeesByRate(q, |inputs|);
  }

  /** Whether a request can be paid shows in the largest outputs alone. */
  lemma PayableByLargest(q: Request, utxos: seq<Utxo>)
    ensures Payable(q, utxos) <==>
      exists k :: 1 <= k <= |LargestFirst(utxos)| && PaysPlain(q, LargestFirst(utxos)[..k])
  {
    var us := LargestFirst(utxos);
    LargestFirstSorts(utxos);
    if Payable(q, utxos) {
      var c :| IsChoice(c, utxos) && c != [] && PaysPlain(q, c);
      LargestIsBest(us, c);
      assert PaysPlain(q, us[..|c|]);
    }
    if k :| 1 <= k <= |us| && PaysPlain(q, us[..k]) {
      PrefixIsChoice(utxos, k);
      assert us[..k] != [];
    }
  }

  /** With up to eleven outputs the solver gives up exactly when no largest-first prefix pays for change. */
  lemma GivesUpByLargest(q: Request, utxos: seq<Utxo>)
    requires q.rate >= 0 && q.payload <= MAX_PAYLOAD && utxos != [] && |utxos| <= MAX_ROUNDS + 1
    ensures GivesUp(q, utxos) <==> NoneCovers(q, LargestFirst(utxos), |LargestFirst(utxos)|)
  {
    LargestFirstSorts(utxos);
    if GivesUp(q, utxos) {
      GivenUpRulesOut(q, utxos);
    } else if NoneCovers(q, LargestFirst(utxos), |LargestFirst(utxos)|) {
      forall c | IsChoice(c, utxos) && c != [] ensures !Covers(q, c) {
        if Covers(q, c) { FewestInputs(q, utxos, c); }
      }
      UncoveredIsGivenUp(q, utxos);
    }
  }

  /** So it refuses a payable request exactly when some prefix pays without change and none pays with it. */
  lemma RefusesPayableExactly(q: Request, utxos: seq<Utxo>)
    requires q.rate >= 0 && q.payload <= MAX_PAYLOAD && utxos != [] && |utxos| <= MAX_ROUNDS + 1
    ensures var us := LargestFirst(utxos);
      GivesUp(q, utxos) && Payable(q, utxos) <==>
        NoneCovers(q, us, |us|) && exists k :: 1 <= k <= |us| && PaysPlain(q, us[..k])
  {
    GivesUpByLargest(q, utxos);
    PayableByLargest(q, utxos);
  }

  /** On this request the solver gives up exactly when it cannot be paid, whatever the outputs. */
  ghost predicate GivesUpRightly(q: Request) {
    forall utxos | utxos != [] :: GivesUp(q, utxos) <==> !Payable(q, utxos)
  }

  /** A single output that pays for the layout without change and no more is refused. */
  lemma ExactOutputIsRefused(q: Request, u: Utxo)
    requires q.rate > 0 && q.payload <= MAX_PAYLOAD && u.value == q.payment + FeeWithoutChange(q, 1)
    ensures GivesUp(q, [u]) && Payable(q, [u])
  {
    FeesByRate(q, 1);
    SortedStays([u]);
    assert Sum([u]) == u.value by { assert [u][1..] == []; }
    assert [u][..1] == [u];
    forall round | 0 <= round < MAX_ROUNDS ensures !ProbeCovers(q, [u], round) {
      ProbeFits(q, [u], round);
    }
    assert PaysPlain(q, [u]);
    assert IsChoice([u], [u]);
  }

  /** Without a fee the layouts cost the same, and the first picks decide. */
  lemma FreeIsDecided(q: Request, utxos: seq<Utxo>)
    requires q.rate == 0 && q.payload <= MAX_PAYLOAD && utxos != []
    ensures GivesUp(q, utxos) <==> !Payable(q, utxos)
  {
    var us := LargestFirst(utxos);
    LargestFirstSorts(utxos);
    if GivesUp(q, utxos) {
      assert !ProbeCovers(q, us, 0);
      var _ := ProgressAt(q, us, 0);
      forall c | IsChoice(c, utxos) && c != [] ensures !PaysPlain(q, c) {
        FeesByRate(q, |c|);
        if Covers(q, c) { FewestInputs(q, utxos, c); }
      }
    }
    if !Payable(q, utxos) {
      forall c | IsChoice(c, utxos) && c != [] ensures !Covers(q, c) {
        if Covers(q, c) { CoversPaysPlain(q, c); }
      }
      UncoveredIsGivenUp(q, utxos);
    }
  }

  /**
   The solver gives up exactly on what cannot be paid only where transactions are free:
   at every positive fee rate there is an output that pays the request and is refused.
   */
  lemma GivesUpExactly(q: Request)
    requires q.rate >= 0 && q.payload <= MAX_PAYLOAD
    ensures GivesUpRightly(q) <==> q.rate == 0
  {
    if q.rate == 0 {
      forall utxos: seq<Utxo> | utxos != [] ensures GivesUp(q, utxos) <==> !Payable(q, utxos) {
        FreeIsDecided(q, utxos);
      }
    } else {
      assert FeeWithoutChange(q, 1) >= 0;
      var u := Utxo("", 0, q.payment + FeeWithoutChange(q, 1));
      ExactOutputIsRefused(q, u);
      assert [u] != [];
    }
  }

  // ----- fewest inputs in either layout ---------------------------------------------------------

  /** Up to an output that is worth its own fee, a longer prefix pays if a shorter one does. */
  lemma {:induction false} LongerPaysToo(q: Request, us: seq<Utxo>, i: nat, j: nat)
    requires Descending(us) && i <= j < |us| && us[j].value >= 68 * q.rate && PaysPlain(q, us[..i])
    ensures PaysPlain(q, us[..j])
    decreases j
  {
    if i < j {
      assert us[j - 1].value >= us[j].value;
      LongerPaysToo(q, us, i, j - 1);
      SumStep(us, j - 1);
      FeesByRate(q, j - 1);
      FeesByRate(q, j);
    }
  }

  /** The last output that a good plan takes is worth more than its own fee. */
  lemma LastIsWorthIt(q: Request, utxos: seq<Utxo>, p: Plan)
    requires q.rate >= 0 && IsGoodPlan(q, utxos, p) && |p.picked| > 1
    ensures LargestFirst(utxos)[|p.picked| - 1].value >= 68 * q.rate
  {
    var us, k := LargestFirst(utxos), |p.picked| - 1;
    assert !Covers(q, us[..k]) && Covers(q, us[..k + 1]);
    SumStep(us, k);
    FeesByRate(q, k);
  }

  lemma OneLessPays(q: Request, utxos: seq<Utxo>, p: Plan, c: seq<Utxo>)
    requires q.rate >= 0 && IsGoodPlan(q, utxos, p)
    requires IsChoice(c, utxos) && c != [] && PaysPlain(q, c) && |c| < |p.picked|
    ensures PaysPlain(q, LargestFirst(utxos)[..|p.picked| - 1])
  {
    LargestFirstSorts(utxos);
    LargestIsBest(LargestFirst(utxos), c);
    LastIsWorthIt(q, utxos, p);
    LongerPaysToo(q, LargestFirst(utxos), |c|, |p.picked| - 1);
  }

  /**
   The plan has as few inputs as any choice that can pay the request in either layout
   exactly when its inputs without the last cannot pay even without change.
   */
  lemma FewestInEitherLayout(q: Request, utxos: seq<Utxo>, p: Plan)
    requires q.rate >= 0 && IsGoodPlan(q, utxos, p)
    ensures (forall c | IsChoice(c, utxos) && c != [] && PaysPlain(q, c) :: |p.picked| <= |c|)
      <==> |p.picked| == 1 || !PaysPlain(q, p.picked[..|p.picked| - 1])
  {
    var us, k := LargestFirst(utxos), |p.picked| - 1;
    LargestFirstSorts(utxos);
    assert p.picked[..k] == us[..k];
    forall c | IsChoice(c, utxos) && c != [] && PaysPlain(q, c) && |c| <= k ensures PaysPlain(q, us[..k]) {
      OneLessPays(q, utxos, p, c);
    }
    if k > 0 && PaysPlain(q, us[..k]) {
      PrefixIsChoice(utxos, k);
      assert us[..k] != [] && |us[..k]| == k;
    }
  }

  lemma TwoOutputs(u: Utxo)
    ensures LargestFirst([u, u]) == [u, u] && [u, u][..1] == [u] && [u, u][..2] == [u, u]
    ensures Sum([u]) == u.value && Sum([u, u]) == 2 * u.value
  {
    OneOutput(u);
    SortedStays([u, u]);
    assert [u, u][1..] == [u];
  }

  /** Two outputs of 130 satoshis at one satoshi per byte: every good plan takes both, and one could pay. */
  lemma OneWouldDo(u: Utxo)
    requires u.value == 130
    ensures IsChoice([u], [u, u]) && PaysPlain(EMPTY_AT_ONE_SAT, [u])
    ensures IsGoodPlan(EMPTY_AT_ONE_SAT, [u, u], Settled(EMPTY_AT_ONE_SAT, [u, u]))
    ensures forall p | IsGoodPlan(EMPTY_AT_ONE_SAT, [u, u], p) :: |p.picked| == 2
  {
    TwoOutputs(u);
    assert multiset([u, u]) == multiset{u, u} && multiset([u]) == multiset{u};
    BothAreTaken(u);
    forall p | IsGoodPlan(EMPTY_AT_ONE_SAT, [u, u], p) ensures |p.picked| == 2 {
      TakesBoth(u, p);
    }
  }

  lemma TakesBoth(u: Utxo, p: Plan)
    requires u.value == 130 && IsGoodPlan(EMPTY_AT_ONE_SAT, [u, u], p)
    ensures |p.picked| == 2
  {
    TwoOutputs(u);
    assert !Covers(EMPTY_AT_ONE_SAT, [u, u][..1]);
    assert p.picked == [u, u][..|p.picked|];
  }

  lemma BothAreTaken(u: Utxo)
    requires u.value == 130
    ensures IsGoodPlan(EMPTY_AT_ONE_SAT, [u, u], Settled(EMPTY_AT_ONE_SAT, [u, u]))
  {
    TwoOutputs(u);
    assert Covers(EMPTY_AT_ONE_SAT, [u, u]) && !Covers(EMPTY_AT_ONE_SAT, [u]);
    SettledIsGood(EMPTY_AT_ONE_SAT, [u, u], 2);
  }
}
