/** Largest-first coin selection (build_opreturn_psbt.py, `select_inputs`). */
module CoinSelection {

  /** An unspent output as the block explorer reports it; values are satoshis. */
  datatype Utxo = Utxo(txid: string, vout: nat, value: nat)

  function Sum(us: seq<Utxo>): nat {
    if us == [] then 0 else us[0].value + Sum(us[1..])
  }

  predicate Descending(us: seq<Utxo>) {
    forall i, j | 0 <= i < j < |us| :: us[i].value >= us[j].value
  }

  function Place(u: Utxo, us: seq<Utxo>): seq<Utxo> {
    if us == [] || us[0].value <= u.value then [u] + us else [us[0]] + Place(u, us[1..])
  }

  /** `sorted(utxos, key=value, reverse=True)`, which keeps the order of equal values. */
  function LargestFirst(us: seq<Utxo>): seq<Utxo> {
    if us == [] then [] else Place(us[0], LargestFirst(us[1..]))
  }

  lemma {:induction false} PlaceMembers(u: Utxo, us: seq<Utxo>)
    ensures multiset(Place(u, us)) == multiset{u} + multiset(us) && |Place(u, us)| == |us| + 1
  {
    if us != [] && us[0].value > u.value {
      PlaceMembers(u, us[1..]);
      assert us == [us[0]] + us[1..];
    }
  }

  lemma {:induction false} PlaceAtMost(u: Utxo, us: seq<Utxo>, bound: nat)
    requires u.value <= bound && forall i | 0 <= i < |us| :: us[i].value <= bound
    ensures forall i | 0 <= i < |Place(u, us)| :: Place(u, us)[i].value <= bound
  {
    if us != [] && us[0].value > u.value {
      PlaceAtMost(u, us[1..], bound);
    }
  }

  lemma {:induction false} PlaceSorts(u: Utxo, us: seq<Utxo>)
    requires Descending(us)
    ensures Descending(Place(u, us))
  {
    if us != [] && us[0].value > u.value {
      PlaceSorts(u, us[1..]);
      PlaceAtMost(u, us[1..], us[0].value);
    }
  }

  lemma {:induction false} LargestFirstSorts(us: seq<Utxo>)
    ensures Descending(LargestFirst(us)) && multiset(LargestFirst(us)) == multiset(us)
    ensures |LargestFirst(us)| == |us|
  {
    if us != [] {
      LargestFirstSorts(us[1..]);
      PlaceSorts(us[0], LargestFirst(us[1..]));
      PlaceMembers(us[0], LargestFirst(us[1..]));
      assert us == [us[0]] + us[1..];
    }
  }

  lemma {:induction false} SumConcat(a: seq<Utxo>, b: seq<Utxo>)
    ensures Sum(a + b) == Sum(a) + Sum(b)
  {
    if a == [] {
      assert a + b == b;
    } else {
      assert (a + b)[1..] == a[1..] + b;
      SumConcat(a[1..], b);
    }
  }

  /** Prefix sums never fall. */
  lemma SumMonotone(us: seq<Utxo>, i: nat, j: nat)
    requires i <= j <= |us|
    ensures Sum(us[..i]) <= Sum(us[..j])
  {
    assert us[..j] == us[..i] + us[i..j];
    SumConcat(us[..i], us[i..j]);
  }

  lemma SumStep(us: seq<Utxo>, i: nat)
    requires i < |us|
    ensures Sum(us[..i + 1]) == Sum(us[..i]) + us[i].value
  {
    assert us[..i + 1] == us[..i] + [us[i]];
    SumConcat(us[..i], [us[i]]);
    assert [us[i]][1..] == [];
  }

  // ----- the greedy choice -------------------------------------------------------------

  /** k is the length of the shortest non-empty prefix that reaches the target, or everything. */
  predicate IsPick(us: seq<Utxo>, target: int, k: nat) {
    && k <= |us|
    && (us != [] ==> k >= 1)
    && (Sum(us[..k]) >= target || k == |us|)
    && forall j | 1 <= j < k :: Sum(us[..j]) < target
  }

  /** That length, searched from k on. */
  function PickFrom(us: seq<Utxo>, target: int, k: nat): nat
    requires 1 <= k <= |us|
    decreases |us| - k
  {
    if Sum(us[..k]) >= target || k == |us| then k else PickFrom(us, target, k + 1)
  }

  lemma {:induction false} PickFromIsPick(us: seq<Utxo>, target: int, k: nat)
    requires 1 <= k <= |us| && forall j | 1 <= j < k :: Sum(us[..j]) < target
    ensures IsPick(us, target, PickFrom(us, target, k))
    decreases |us| - k
  {
    if Sum(us[..k]) < target && k < |us| {
      PickFromIsPick(us, target, k + 1);
    }
  }

  lemma PickIsUnique(us: seq<Utxo>, target: int, k: nat)
    requires us != [] && IsPick(us, target, k)
    ensures k == PickFrom(us, target, 1)
  {
    PickFromIsPick(us, target, 1);
  }

  method SelectInputs(utxos: seq<Utxo>, target: int) returns (picked: seq<Utxo>)
    ensures IsPick(LargestFirst(utxos), target, |picked|)
    ensures picked == LargestFirst(utxos)[..|picked|]
  {
    var us := LargestFirst(utxos);
    picked := [];
    var total := 0;
    for i := 0 to |us|
      invariant picked == us[..i] && total == Sum(us[..i])
      invariant forall j | 1 <= j <= i :: Sum(us[..j]) < target
    {
      picked := picked + [us[i]];
      SumStep(us, i);
      total := total + us[i].value;
      if total >= target {
        return;
      }
    }
  }

  // ----- optimality --------------------------------------------------------------------

  /** A choice of unspent outputs, in any order. */
  predicate IsChoice(c: seq<Utxo>, utxos: seq<Utxo>) {
    multiset(c) <= multiset(utxos)
  }

  function Without(us: seq<Utxo>, i: nat): seq<Utxo>
    requires i < |us|
  {
    us[..i] + us[i + 1..]
  }

  lemma WithoutSum(us: seq<Utxo>, i: nat)
    requires i < |us|
    ensures Sum(us) == us[i].value + Sum(Without(us, i))
    ensures multiset(us) == multiset(Without(us, i)) + multiset{us[i]}
  {
    CutAt(us, i);
    SumAround(us[..i], us[i], us[i + 1..]);
    MembersAround(us[..i], us[i], us[i + 1..]);
  }

  lemma CutAt(us: seq<Utxo>, i: nat)
    requires i < |us|
    ensures us == us[..i] + ([us[i]] + us[i + 1..])
  {
  }

  lemma MembersAround(before: seq<Utxo>, u: Utxo, after: seq<Utxo>)
    ensures multiset(before + ([u] + after)) == multiset(before + after) + multiset{u}
  {
  }

  lemma SumAround(before: seq<Utxo>, u: Utxo, after: seq<Utxo>)
    ensures Sum(before + ([u] + after)) == u.value + Sum(before + after)
  {
    SumConcat(before, [u] + after);
    SumFirst(u, after);
    SumConcat(before, after);
  }

  lemma SumFirst(u: Utxo, us: seq<Utxo>)
    ensures Sum([u] + us) == u.value + Sum(us)
  {
    assert ([u] + us)[1..] == us;
  }

  /**
   A choice that loses the largest output if it has it, and any output if not, is a
   choice of the rest.
   */
  lemma RestIsChoice(us: seq<Utxo>, c: seq<Utxo>, i: nat)
    requires us != [] && IsChoice(c, us) && i < |c| && (us[0] in c ==> c[i] == us[0])
    ensures IsChoice(Without(c, i), us[1..])
  {
    var rest := Without(c, i);
    WithoutSum(c, i);
    assert us == [us[0]] + us[1..];
    assert multiset(us) == multiset{us[0]} + multiset(us[1..]);
    forall x ensures multiset(rest)[x] <= multiset(us[1..])[x] {
      assert multiset(c)[x] <= multiset(us)[x];
      if x == us[0] && us[0] !in c {
        assert x !in multiset(c);
      }
    }
  }

  /** No choice of n outputs is worth more than the n largest. */
  lemma {:induction false} LargestIsBest(us: seq<Utxo>, c: seq<Utxo>)
    requires Descending(us) && IsChoice(c, us)
    ensures |c| <= |us| && Sum(c) <= Sum(us[..|c|])
    decreases |us|
  {
    if c == [] {
      assert us[..0] == [];
    } else {
      assert c[0] in multiset(c) && c[0] in multiset(us);
      var i := if us[0] in c then var k :| 0 <= k < |c| && c[k] == us[0]; k else 0;
      assert c[i] in multiset(c) && c[i] in multiset(us) && c[i] in us;
      var rest := Without(c, i);
      WithoutSum(c, i);
      RestIsChoice(us, c, i);
      LargestIsBest(us[1..], rest);
      assert us[..|c|][1..] == us[1..][..|rest|];
    }
  }

  /**
   The greedy choice is optimal. If it reaches the target, no choice of fewer
   outputs does; if it does not, it took everything and no choice reaches it.
   */
  lemma GreedyIsOptimal(utxos: seq<Utxo>, target: int, k: nat, c: seq<Utxo>)
    requires target > 0 && IsPick(LargestFirst(utxos), target, k)
    requires IsChoice(c, utxos) && Sum(c) >= target
    ensures Sum(LargestFirst(utxos)[..k]) >= target && k <= |c|
  {
    var us := LargestFirst(utxos);
    LargestFirstSorts(utxos);
    LargestIsBest(us, c);
    SumMonotone(us, |c|, |us|);
    assert us[..0] == [];
  }

  /** For a target of zero or less the empty choice is enough, and the greedy one is never empty. */
  lemma OptimalIffPositive(utxos: seq<Utxo>, target: int, k: nat)
    requires utxos != [] && IsPick(LargestFirst(utxos), target, k)
    ensures target > 0 <==>
      forall c | IsChoice(c, utxos) && Sum(c) >= target :: k <= |c|
  {
    LargestFirstSorts(utxos);
    if target > 0 {
      forall c | IsChoice(c, utxos) && Sum(c) >= target ensures k <= |c| {
        GreedyIsOptimal(utxos, target, k, c);
      }
    } else {
      assert IsChoice([], utxos) && Sum([]) >= target;
    }
  }

  /** A target of zero: one output is picked where none is needed. */
  lemma ZeroTargetTakesOne(u: Utxo, k: nat)
    requires IsPick(LargestFirst([u]), 0, k)
    ensures k == 1 && IsChoice([], [u]) && Sum([]) >= 0
  {
    LargestFirstSorts([u]);
  }
}
