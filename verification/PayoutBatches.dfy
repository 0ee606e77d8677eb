/**
 From matured earnings to draft payout batches (`prepare_draft_earning_batches` in
 backend/affiliates/payout_batches.py), and from there to the exported transfers.
 */
module PayoutBatches {
  import opened Wrappers
  import opened PyText
  import opened Numerals
  import opened UsdcText
  import opened SafeBatch

  datatype Earning = Earning(affiliate: string, amountUsd: real)

  /** A draft as `create_draft_payout_batch_atomic` is told to store it. */
  datatype Draft = Draft(affiliate: string, totalUsd: real, totalUsdc: string, items: seq<Item>)

  /** What the store and the configuration say about affiliates at the time of the run. */
  datatype Policy = Policy(
    pastMoratorium: string -> bool,
    walletOf: string -> string,
    cooling: (string, string) -> bool,
    threshold: real,
    checksum: string -> string)

  /** What becomes of one affiliate's earnings. */
  datatype Decision = BelowThreshold | NoWallet | Cooling | Drafted(draft: Draft)

  // ----- totals ------------------------------------------------------------------------------

  function Sum(rows: seq<Earning>): real {
    if rows == [] then 0.0 else rows[0].amountUsd + Sum(rows[1..])
  }

  function SumMicros(rows: seq<Earning>): nat {
    if rows == [] then 0 else Micros(rows[0].amountUsd) + SumMicros(rows[1..])
  }

  /** Rounding to a whole number, halves to the even one. */
  function RoundHalfEven(x: real): int {
    var low := x.Floor;
    var rest := x - low as real;
    if rest < 0.5 || (rest == 0.5 && low % 2 == 0) then low else low + 1
  }

  /** `quantize(Decimal("0.01"))` */
  function Cents(x: real): real {
    RoundHalfEven(x * 100.0) as real / 100.0
  }

  /** Each earning with the frozen wallet and its amount as six-digit text. */
  function ItemsOf(rows: seq<Earning>, wallet: string): seq<Item> {
    if rows == [] then []
    else [Item(wallet, rows[0].amountUsd, Fixed(Micros(rows[0].amountUsd), 0))] + ItemsOf(rows[1..], wallet)
  }

  function Decide(aid: string, rows: seq<Earning>, policy: Policy): Decision {
    var total := Cents(Sum(rows));
    if total < policy.threshold then BelowThreshold
    else
      match NormAddr(policy.walletOf(aid), policy.checksum)
      case None => NoWallet
      case Some(wallet) =>
        if policy.cooling(aid, wallet) then Cooling
        else Drafted(Draft(aid, total, Fixed(SumMicros(rows), 12), ItemsOf(rows, wallet)))
  }

  // ----- grouping --------------------------------------------------------------------------------

  datatype Group = Group(affiliate: string, rows: seq<Earning>)

  function RowsOf(rows: seq<Earning>, aid: string): seq<Earning> {
    if rows == [] then []
    else
      var last := rows[|rows| - 1];
      RowsOf(rows[..|rows| - 1], aid) + (if last.affiliate == aid then [last] else [])
  }

  /** `by_aff.setdefault(aid, []).append(row)` on a dictionary in insertion order. */
  function AddRow(gs: seq<Group>, row: Earning): seq<Group> {
    if gs == [] then [Group(row.affiliate, [row])]
    else if gs[0].affiliate == row.affiliate then [gs[0].(rows := gs[0].rows + [row])] + gs[1..]
    else [gs[0]] + AddRow(gs[1..], row)
  }

  predicate OneEach(gs: seq<Group>) {
    forall i, j | 0 <= i < j < |gs| :: gs[i].affiliate != gs[j].affiliate
  }

  predicate Has(gs: seq<Group>, aid: string) {
    exists i | 0 <= i < |gs| :: gs[i].affiliate == aid
  }

  /** The rows a group list holds for an affiliate. */
  function Held(gs: seq<Group>, aid: string): seq<Earning> {
    if gs == [] then [] else if gs[0].affiliate == aid then gs[0].rows else Held(gs[1..], aid)
  }

  lemma {:induction false} AddRowHolds(gs: seq<Group>, row: Earning, aid: string)
    ensures Held(AddRow(gs, row), aid) == Held(gs, aid) + (if row.affiliate == aid then [row] else [])
    ensures Has(AddRow(gs, row), aid) <==> Has(gs, aid) || aid == row.affiliate
  {
    var after := AddRow(gs, row);
    if gs != [] && gs[0].affiliate != row.affiliate {
      AddRowHolds(gs[1..], row, aid);
      assert after[1..] == AddRow(gs[1..], row);
      HasCons(gs, aid);
    }
    HasCons(after, aid);
    if gs != [] {
      HasCons(gs, aid);
      assert gs[0].affiliate == row.affiliate ==> after[1..] == gs[1..];
    }
  }

  lemma HasCons(gs: seq<Group>, aid: string)
    requires gs != []
    ensures Has(gs, aid) <==> gs[0].affiliate == aid || Has(gs[1..], aid)
  {
    if Has(gs, aid) && gs[0].affiliate != aid {
      var i :| 0 <= i < |gs| && gs[i].affiliate == aid;
      assert gs[1..][i - 1].affiliate == aid;
    }
    if Has(gs[1..], aid) {
      var i :| 0 <= i < |gs[1..]| && gs[1..][i].affiliate == aid;
      assert gs[i + 1].affiliate == aid;
    }
  }

  lemma {:induction false} AddRowOneEach(gs: seq<Group>, row: Earning)
    requires OneEach(gs)
    ensures OneEach(AddRow(gs, row))
  {
    if gs != [] && gs[0].affiliate != row.affiliate {
      AddRowOneEach(gs[1..], row);
      AddRowHolds(gs[1..], row, gs[0].affiliate);
      var rest := AddRow(gs[1..], row);
      assert !Has(rest, gs[0].affiliate);
      assert AddRow(gs, row) == [gs[0]] + rest;
    }
  }

  lemma {:induction false} HeldAt(gs: seq<Group>, i: nat)
    requires OneEach(gs) && i < |gs|
    ensures Held(gs, gs[i].affiliate) == gs[i].rows
  {
    if i > 0 {
      HeldAt(gs[1..], i - 1);
    }
  }

  // ----- the run -----------------------------------------------------------------------------------

  function GroupsOf(rows: seq<Earning>, policy: Policy): seq<Group> {
    if rows == [] then []
    else
      var gs, last := GroupsOf(rows[..|rows| - 1], policy), rows[|rows| - 1];
      if policy.pastMoratorium(last.affiliate) then AddRow(gs, last) else gs
  }

  function Drafts(gs: seq<Group>, policy: Policy): seq<Draft> {
    if gs == [] then []
    else
      var last := gs[|gs| - 1];
      Drafts(gs[..|gs| - 1], policy) +
      match Decide(last.affiliate, last.rows, policy)
      case Drafted(d) => [d]
      case _ => []
  }

  /** The affiliates passed over for want of a usable wallet; only the ones that are cooling, if asked. */
  function Skipped(gs: seq<Group>, policy: Policy, onlyCooling: bool): seq<string> {
    if gs == [] then []
    else
      var last := gs[|gs| - 1];
      var decision := Decide(last.affiliate, last.rows, policy);
      Skipped(gs[..|gs| - 1], policy, onlyCooling) +
      if decision == Cooling || (decision == NoWallet && !onlyCooling) then [last.affiliate] else []
  }

  /** `prepare_draft_earning_batches`, given the matured payable rows. */
  method PrepareDrafts(rows: seq<Earning>, policy: Policy)
    returns (drafts: seq<Draft>, skippedNoWallet: nat, skippedWallets: seq<string>, coolingIds: seq<string>)
    ensures var gs := GroupsOf(rows, policy);
      && drafts == Drafts(gs, policy)
      && skippedWallets == Skipped(gs, policy, false) && skippedNoWallet == |skippedWallets|
      && coolingIds == Skipped(gs, policy, true)
  {
    var byAff: seq<Group> := [];
    for i := 0 to |rows|
      invariant byAff == GroupsOf(rows[..i], policy)
    {
      assert rows[..i + 1][..i] == rows[..i];
      if !policy.pastMoratorium(rows[i].affiliate) {
        continue;
      }
      byAff := AddRow(byAff, rows[i]);
    }
    assert rows[..|rows|] == rows;
    drafts, skippedNoWallet, skippedWallets, coolingIds := [], 0, [], [];
    for i := 0 to |byAff|
      invariant drafts == Drafts(byAff[..i], policy)
      invariant skippedWallets == Skipped(byAff[..i], policy, false) && skippedNoWallet == |skippedWallets|
      invariant coolingIds == Skipped(byAff[..i], policy, true)
    {
      assert byAff[..i + 1][..i] == byAff[..i];
      var decision := DecideOne(byAff[i].affiliate, byAff[i].rows, policy);
      match decision {
        case BelowThreshold =>
        case NoWallet =>
          skippedNoWallet := skippedNoWallet + 1;
          skippedWallets := skippedWallets + [byAff[i].affiliate];
        case Cooling =>
          skippedNoWallet := skippedNoWallet + 1;
          skippedWallets := skippedWallets + [byAff[i].affiliate];
          coolingIds := coolingIds + [byAff[i].affiliate];
        case Drafted(d) =>
          drafts := drafts + [d];
      }
    }
    assert byAff[..|byAff|] == byAff;
  }

  /** The body of the loop over affiliates. */
  method DecideOne(aid: string, rows: seq<Earning>, policy: Policy) returns (decision: Decision)
    ensures decision == Decide(aid, rows, policy)
  {
    var total := Cents(Sum(rows));
    if total < policy.threshold {
      return BelowThreshold;
    }
    var wallet := NormAddr(policy.walletOf(aid), policy.checksum);
    if wallet.None? {
      return NoWallet;
    }
    if policy.cooling(aid, wallet.value) {
      return Cooling;
    }
    var totalMicros, items := FillItems(rows, wallet.value);
    return Drafted(Draft(aid, total, Fixed(totalMicros, 12), items));
  }

  /** The loop over its earnings. */
  method FillItems(rows: seq<Earning>, wallet: string) returns (totalMicros: nat, items: seq<Item>)
    ensures totalMicros == SumMicros(rows) && items == ItemsOf(rows, wallet)
  {
    totalMicros, items := 0, [];
    assert rows[0..] == rows;
    for i := 0 to |rows|
      invariant SumMicros(rows) == totalMicros + SumMicros(rows[i..])
      invariant ItemsOf(rows, wallet) == items + ItemsOf(rows[i..], wallet)
    {
      assert rows[i..][0] == rows[i] && rows[i..][1..] == rows[i + 1..];
      var (_, s6, micros) := ConvertUsdToUsdc(rows[i].amountUsd);
      totalMicros := totalMicros + micros;
      items := items + [Item(wallet, rows[i].amountUsd, s6)];
    }
    assert items + [] == items;
  }

  // ----- who gets a draft --------------------------------------------------------------------------

  lemma {:induction false} GroupsExactly(rows: seq<Earning>, policy: Policy, aid: string)
    ensures var gs := GroupsOf(rows, policy);
      && OneEach(gs)
      && Held(gs, aid) == (if policy.pastMoratorium(aid) then RowsOf(rows, aid) else [])
      && (Has(gs, aid) <==> policy.pastMoratorium(aid) && RowsOf(rows, aid) != [])
  {
    if rows != [] {
      var n := |rows| - 1;
      GroupsExactly(rows[..n], policy, aid);
      AddRowHolds(GroupsOf(rows[..n], policy), rows[n], aid);
      AddRowOneEach(GroupsOf(rows[..n], policy), rows[n]);
    }
  }

  /** Some group ends in the given decision. */
  predicate SomeGroup(gs: seq<Group>, policy: Policy, aid: string, decision: Decision) {
    exists i | 0 <= i < |gs| :: Ends(gs[i], policy, aid, decision)
  }

  predicate Ends(g: Group, policy: Policy, aid: string, decision: Decision) {
    g.affiliate == aid && Decide(g.affiliate, g.rows, policy) == decision
  }

  lemma SomeGroupLast(gs: seq<Group>, policy: Policy, aid: string, decision: Decision)
    requires gs != []
    ensures var n := |gs| - 1;
      SomeGroup(gs, policy, aid, decision) <==>
        SomeGroup(gs[..n], policy, aid, decision) || Ends(gs[n], policy, aid, decision)
  {
    var n := |gs| - 1;
    if SomeGroup(gs, policy, aid, decision) {
      var i :| 0 <= i < |gs| && Ends(gs[i], policy, aid, decision);
      assert i < n ==> gs[..n][i] == gs[i];
    }
    if SomeGroup(gs[..n], policy, aid, decision) {
      var i :| 0 <= i < n && Ends(gs[..n][i], policy, aid, decision);
      assert Ends(gs[i], policy, aid, decision);
    }
  }

  lemma DecideNames(aid: string, rows: seq<Earning>, policy: Policy)
    ensures var decision := Decide(aid, rows, policy);
      decision.Drafted? ==> decision.draft.affiliate == aid
  {
  }

  lemma {:induction false} DraftsOfGroups(gs: seq<Group>, policy: Policy, d: Draft)
    ensures d in Drafts(gs, policy) <==> SomeGroup(gs, policy, d.affiliate, Drafted(d))
  {
    if gs != [] {
      var last := gs[|gs| - 1];
      DraftsOfGroups(gs[..|gs| - 1], policy, d);
      SomeGroupLast(gs, policy, d.affiliate, Drafted(d));
      DecideNames(last.affiliate, last.rows, policy);
    }
  }

  lemma {:induction false} SkippedOfGroups(gs: seq<Group>, policy: Policy, onlyCooling: bool, aid: string)
    ensures aid in Skipped(gs, policy, onlyCooling)
      <==> SomeGroup(gs, policy, aid, Cooling) || (!onlyCooling && SomeGroup(gs, policy, aid, NoWallet))
  {
    if gs != [] {
      SkippedOfGroups(gs[..|gs| - 1], policy, onlyCooling, aid);
      SomeGroupLast(gs, policy, aid, Cooling);
      SomeGroupLast(gs, policy, aid, NoWallet);
    }
  }

  predicate OneDraftEach(drafts: seq<Draft>) {
    forall i, j | 0 <= i < j < |drafts| :: drafts[i].affiliate != drafts[j].affiliate
  }

  lemma {:induction false} DraftsOneEach(gs: seq<Group>, policy: Policy)
    requires OneEach(gs)
    ensures OneDraftEach(Drafts(gs, policy))
  {
    if gs != [] {
      var n := |gs| - 1;
      DraftsOneEach(gs[..n], policy);
      forall d | d in Drafts(gs[..n], policy) ensures d.affiliate != gs[n].affiliate {
        DraftsOfGroups(gs[..n], policy, d);
      }
    }
  }

  /** The group of an affiliate, if it has one, holds all its rows. */
  lemma DecisionOf(rows: seq<Earning>, policy: Policy, aid: string, decision: Decision)
    ensures SomeGroup(GroupsOf(rows, policy), policy, aid, decision)
      <==> policy.pastMoratorium(aid) && RowsOf(rows, aid) != [] && Decide(aid, RowsOf(rows, aid), policy) == decision
  {
    var gs := GroupsOf(rows, policy);
    GroupsExactly(rows, policy, aid);
    forall i | 0 <= i < |gs| ensures gs[i].rows == Held(gs, gs[i].affiliate) {
      HeldAt(gs, i);
    }
    if policy.pastMoratorium(aid) && RowsOf(rows, aid) != [] && Decide(aid, RowsOf(rows, aid), policy) == decision {
      var i :| 0 <= i < |gs| && gs[i].affiliate == aid;
      assert Ends(gs[i], policy, aid, decision);
    }
  }

  /**
   A draft is made exactly for the affiliates past their moratorium that have rows and
   pass every check; it is made of all their rows, and there is one per affiliate.
   */
  lemma DraftsExactly(rows: seq<Earning>, policy: Policy, d: Draft)
    ensures var drafts := Drafts(GroupsOf(rows, policy), policy);
      && (d in drafts <==>
            && policy.pastMoratorium(d.affiliate) && RowsOf(rows, d.affiliate) != []
            && Decide(d.affiliate, RowsOf(rows, d.affiliate), policy) == Drafted(d))
      && OneDraftEach(drafts)
  {
    DecisionOf(rows, policy, d.affiliate, Drafted(d));
    DraftsOfGroups(GroupsOf(rows, policy), policy, d);
    GroupsExactly(rows, policy, d.affiliate);
    DraftsOneEach(GroupsOf(rows, policy), policy);
  }

  /** An affiliate is passed over exactly when its total is enough but its wallet is not usable, or is cooling. */
  lemma SkippedExactly(rows: seq<Earning>, policy: Policy, onlyCooling: bool, aid: string)
    ensures aid in Skipped(GroupsOf(rows, policy), policy, onlyCooling) <==>
      && policy.pastMoratorium(aid) && RowsOf(rows, aid) != []
      && Cents(Sum(RowsOf(rows, aid))) >= policy.threshold
      && var wallet := NormAddr(policy.walletOf(aid), policy.checksum);
         if wallet.Some? then policy.cooling(aid, wallet.value) else !onlyCooling
  {
    DecisionOf(rows, policy, aid, Cooling);
    DecisionOf(rows, policy, aid, NoWallet);
    SkippedOfGroups(GroupsOf(rows, policy), policy, onlyCooling, aid);
  }

  // ----- from the draft to the chain -------------------------------------------------------------------

  predicate AllTo(ts: seq<Transfer>, w: string) {
    forall i | 0 <= i < |ts| :: ts[i].recipient == w
  }

  lemma {:induction false} GatherSame(ts: seq<Transfer>, w: string)
    requires ts != [] && AllTo(ts, w)
    ensures Gather(ts) == [Transfer(w, Total(ts))]
  {
    var n := |ts| - 1;
    GatherLast(ts);
    if n > 0 {
      GatherSame(ts[..n], w);
    }
  }

  lemma GatherLast(ts: seq<Transfer>)
    requires ts != []
    ensures var n := |ts| - 1;
      Gather(ts) == AddTo(Gather(ts[..n]), ts[n]) && Total(ts) == Total(ts[..n]) + ts[n].amount
  {
    var n := |ts| - 1;
    assert ts == ts[..n] + [ts[n]] && [ts[n]][1..] == [];
    AppendSums(ts[..n], [ts[n]], "");
  }

  /** Every stored item resolves to the frozen wallet and the units of its earning. */
  lemma {:induction false} ItemsResolve(rows: seq<Earning>, w: string, fallback: string, tools: Tools)
    requires NormAddr(w, tools.checksum) == Some(w) && Strip(w) == w != ""
    ensures var ts := ResolveAll(ItemsOf(rows, w), fallback, tools);
      ts.Some? && |ts.value| == |rows| && AllTo(ts.value, w) && Total(ts.value) == SumMicros(rows)
  {
    if rows != [] {
      var items := ItemsOf(rows, w);
      ItemResolves(rows[0], w, fallback, tools);
      ItemsResolve(rows[1..], w, fallback, tools);
      assert items[1..] == ItemsOf(rows[1..], w);
      var first, rest := Resolve(items[0], fallback, tools).value, ResolveAll(items[1..], fallback, tools).value;
      assert ([first] + rest)[1..] == rest;
    }
  }

  lemma ItemResolves(row: Earning, w: string, fallback: string, tools: Tools)
    requires NormAddr(w, tools.checksum) == Some(w) && Strip(w) == w != ""
    ensures var it := Item(w, row.amountUsd, Fixed(Micros(row.amountUsd), 0));
      Resolve(it, fallback, tools) == Some(Transfer(w, Micros(row.amountUsd)))
  {
    var units := Micros(row.amountUsd);
    FixedIsTrimmed(units, 0);
    ReadFixed(units, 0, tools.other);
    MicrosOfUsdc(units);
  }

  lemma FixedIsTrimmed(units: nat, more: nat)
    ensures Strip(Fixed(units, more)) == Fixed(units, more) != ""
  {
    DigitsRoundTrip(units / UNIT);
    FractionValue(units, more);
    var text := Fixed(units, more);
    var frac := Padded(units % UNIT, USDC_DECIMALS) + Padded(0, more);
    assert text[0] == Digits(units / UNIT)[0] && text[|text| - 1] == frac[|frac| - 1];
    StripFixes(text);
  }

  /**
   What is drafted is what is paid. Exporting a draft gives exactly one transfer, to the
   wallet frozen in it, of exactly its total in base units, which is also what the
   stored total reads as; only a draft of nothing at all cannot be exported.
   */
  lemma ExportPaysTheDraft(aid: string, rows: seq<Earning>, policy: Policy, other: string -> Option<real>)
    requires IsChecksum(policy.checksum) && rows != [] && Decide(aid, rows, policy).Drafted?
    ensures var d, units := Decide(aid, rows, policy).draft, SumMicros(rows);
      var wallet := NormAddr(policy.walletOf(aid), policy.checksum).value;
      && ReadDecimal(d.totalUsdc, other) == Some(Usdc(units))
      && Export(d.items, Tools(policy.checksum, other))
           == if units > 0 then Success([Transfer(wallet, units)]) else Failure(ZeroPayout)
  {
    var wallet, tools := NormAddr(policy.walletOf(aid), policy.checksum).value, Tools(policy.checksum, other);
    var items, units := ItemsOf(rows, wallet), SumMicros(rows);
    ReadFixed(units, 12, other);
    NormAddrTwice(policy.walletOf(aid), policy.checksum);
    assert Fallback(items, tools) == Some(wallet);
    ItemsResolve(rows, wallet, wallet, tools);
    GatherSame(ResolveAll(items, wallet, tools).value, wallet);
    SortOne(Transfer(wallet, units));
  }

  lemma SortOne(t: Transfer)
    ensures Positive(Sort([t])) == if t.amount > 0 then [t] else []
  {
    assert [t][1..] == [];
  }

  // ----- what a draft holds -----------------------------------------------------------------------------

  /** Rounding goes to the nearest whole number, and from half way to the even one. */
  lemma RoundHalfEvenMeans(x: real)
    ensures var r := RoundHalfEven(x);
      -0.5 <= r as real - x <= 0.5 && (r as real - x == 0.5 || x - r as real == 0.5 ==> r % 2 == 0)
  {
  }

  /**
   A draft names its affiliate and holds one item for each of its earnings, in order, with
   the earning's dollars, the affiliate's normalised wallet and the base units as text. Its
   dollar total is a whole number of cents, within half a cent of the sum, and enough.
   */
  lemma DraftHolds(aid: string, rows: seq<Earning>, policy: Policy, other: string -> Option<real>)
    requires Decide(aid, rows, policy).Drafted?
    ensures var d := Decide(aid, rows, policy).draft;
      && d.affiliate == aid && |d.items| == |rows|
      && (forall i | 0 <= i < |rows| ::
            && d.items[i].amountUsd == rows[i].amountUsd
            && Some(d.items[i].wallet) == NormAddr(policy.walletOf(aid), policy.checksum)
            && ReadDecimal(d.items[i].amountUsdc, other) == Some(Usdc(Micros(rows[i].amountUsd))))
      && ReadDecimal(d.totalUsdc, other) == Some(Usdc(SumMicros(rows)))
      && d.totalUsd >= policy.threshold && WholeCents(d.totalUsd)
      && -0.005 <= d.totalUsd - Sum(rows) <= 0.005
  {
    var d := Decide(aid, rows, policy).draft;
    var wallet := NormAddr(policy.walletOf(aid), policy.checksum).value;
    forall i | 0 <= i < |rows| ensures i < |d.items| && d.items[i]
      == Item(wallet, rows[i].amountUsd, Fixed(Micros(rows[i].amountUsd), 0))
    {
      ItemsAt(rows, wallet, i);
    }
    ItemsCount(rows, wallet);
    forall i | 0 <= i < |rows|
      ensures ReadDecimal(d.items[i].amountUsdc, other) == Some(Usdc(Micros(rows[i].amountUsd)))
    {
      ReadFixed(Micros(rows[i].amountUsd), 0, other);
    }
    ReadFixed(SumMicros(rows), 12, other);
    CentsMeans(Sum(rows));
  }

  lemma CentsMeans(x: real)
    ensures WholeCents(Cents(x)) && -0.005 <= Cents(x) - x <= 0.005
  {
    RoundHalfEvenMeans(x * 100.0);
    Hundredths(RoundHalfEven(x * 100.0), x);
  }

  lemma Hundredths(n: int, x: real)
    requires -0.5 <= n as real - x * 100.0 <= 0.5
    ensures WholeCents(n as real / 100.0) && -0.005 <= n as real / 100.0 - x <= 0.005
  {
    assert n as real / 100.0 * 100.0 == n as real;
  }

  lemma {:induction false} ItemsCount(rows: seq<Earning>, wallet: string)
    ensures |ItemsOf(rows, wallet)| == |rows|
  {
    if rows != [] {
      ItemsCount(rows[1..], wallet);
    }
  }

  lemma {:induction false} ItemsAt(rows: seq<Earning>, wallet: string, i: nat)
    requires i < |rows|
    ensures i < |ItemsOf(rows, wallet)|
    ensures ItemsOf(rows, wallet)[i] == Item(wallet, rows[i].amountUsd, Fixed(Micros(rows[i].amountUsd), 0))
  {
    if i > 0 {
      ItemsAt(rows[1..], wallet, i - 1);
    }
  }

  // ----- dollars against base units ------------------------------------------------------------------------

  predicate WholeCents(x: real) {
    x * 100.0 == (x * 100.0).Floor as real
  }

  lemma WholeCentsAdd(x: real, y: real)
    requires WholeCents(x) && WholeCents(y)
    ensures WholeCents(x + y)
  {
    var m, n := (x * 100.0).Floor, (y * 100.0).Floor;
    assert (x + y) * 100.0 == (m + n) as real;
  }

  lemma WholeCentsAreUnits(x: real)
    requires WholeCents(x)
    ensures Usdc(Micros(x)) == if x < 0.0 then 0.0 else x
  {
    var n := (x * 100.0).Floor;
    assert x * UNIT as real == (n * 10000) as real;
  }

  lemma {:induction false} WholeCentTotals(rows: seq<Earning>)
    requires forall i | 0 <= i < |rows| :: WholeCents(rows[i].amountUsd)
    ensures WholeCents(Sum(rows)) && Sum(rows) <= Usdc(SumMicros(rows))
    ensures Sum(rows) == Usdc(SumMicros(rows)) <==> forall i | 0 <= i < |rows| :: rows[i].amountUsd >= 0.0
  {
    if rows != [] {
      WholeCentTotals(rows[1..]);
      WholeCentsAdd(rows[0].amountUsd, Sum(rows[1..]));
      WholeCentsAreUnits(rows[0].amountUsd);
      assert forall i | 1 <= i < |rows| :: rows[i] == rows[1..][i - 1];
      assert forall i | 0 <= i < |rows[1..]| :: rows[1..][i] == rows[i + 1];
    }
  }

  /**
   With whole-cent earnings the dollar total of the batch and its USDC total are the same
   amount exactly when no earning is negative: a negative one lowers the dollars but
   counts as zero in base units.
   */
  lemma TotalsAgreeExactly(rows: seq<Earning>)
    requires forall i | 0 <= i < |rows| :: WholeCents(rows[i].amountUsd)
    ensures Usdc(SumMicros(rows)) == Cents(Sum(rows)) <==> forall i | 0 <= i < |rows| :: rows[i].amountUsd >= 0.0
  {
    WholeCentTotals(rows);
    assert Cents(Sum(rows)) == Sum(rows);
  }

  /** So the two totals stored with a draft agree exactly in that case. */
  lemma DraftTotalsAgreeExactly(aid: string, rows: seq<Earning>, policy: Policy, other: string -> Option<real>)
    requires Decide(aid, rows, policy).Drafted? && forall i | 0 <= i < |rows| :: WholeCents(rows[i].amountUsd)
    ensures var d := Decide(aid, rows, policy).draft;
      && d.totalUsd == Sum(rows)
      && (ReadDecimal(d.totalUsdc, other) == Some(d.totalUsd) <==>
            forall i | 0 <= i < |rows| :: rows[i].amountUsd >= 0.0)
  {
    DraftHolds(aid, rows, policy, other);
    TotalsAgreeExactly(rows);
    WholeCentTotals(rows);
    assert Cents(Sum(rows)) == Sum(rows);
  }

  lemma UsdcAdds(m: nat, n: nat)
    ensures Usdc(m + n) == Usdc(m) + Usdc(n)
  {
  }

  /** And with any non-negative earnings they differ by the rounding. */
  lemma DraftTotalsNeverFarApart(aid: string, rows: seq<Earning>, policy: Policy, other: string -> Option<real>)
    requires Decide(aid, rows, policy).Drafted? && rows != []
    requires forall i | 0 <= i < |rows| :: rows[i].amountUsd >= 0.0
    ensures var d := Decide(aid, rows, policy).draft;
      var usdc := ReadDecimal(d.totalUsdc, other);
      usdc.Some? && Near(d.totalUsd, usdc.value, |rows|)
  {
    TotalIsCents(aid, rows, policy, other);
    TotalsAreNear(rows);
  }

  /** The amounts differ by half a cent and n base units at most. */
  predicate Near(usd: real, usdc: real, n: nat) {
    usdc <= usd + 0.005 && usd - 0.005 < usdc + Usdc(n)
  }

  lemma TotalsAreNear(rows: seq<Earning>)
    requires rows != [] && forall i | 0 <= i < |rows| :: rows[i].amountUsd >= 0.0
    ensures Near(Cents(Sum(rows)), Usdc(SumMicros(rows)), |rows|)
  {
    TotalsNeverFarApart(rows);
    Apart(Cents(Sum(rows)), SumMicros(rows), |rows|);
  }

  lemma TotalIsCents(aid: string, rows: seq<Earning>, policy: Policy, other: string -> Option<real>)
    requires Decide(aid, rows, policy).Drafted?
    ensures var d := Decide(aid, rows, policy).draft;
      d.totalUsd == Cents(Sum(rows)) && ReadDecimal(d.totalUsdc, other) == Some(Usdc(SumMicros(rows)))
  {
    ReadFixed(SumMicros(rows), 12, other);
  }

  lemma Apart(total: real, units: nat, n: nat)
    requires total - 0.005 < Usdc(units + n)
    ensures total - 0.005 < Usdc(units) + Usdc(n)
  {
    UsdcAdds(units, n);
  }

  /** A correction of minus one dollar beside an earning of fifty: 49 dollars on the books, 50 USDC sent. */
  lemma NegativeEarningIsNotDeducted()
    ensures var rows := [Earning("a", 50.0), Earning("a", -1.0)];
      Cents(Sum(rows)) == 49.0 && Usdc(SumMicros(rows)) == 50.0
  {
    var rows := [Earning("a", 50.0), Earning("a", -1.0)];
    assert rows[1..] == [Earning("a", -1.0)] && rows[1..][1..] == [];
    assert Sum(rows) == 49.0 && SumMicros(rows) == 50000000;
  }

  lemma {:induction false} UnitsLost(rows: seq<Earning>)
    requires rows != [] && forall i | 0 <= i < |rows| :: rows[i].amountUsd >= 0.0
    ensures Usdc(SumMicros(rows)) <= Sum(rows) < Usdc(SumMicros(rows) + |rows|)
  {
    MicrosRoundsDown(rows[0].amountUsd);
    if |rows| > 1 {
      UnitsLost(rows[1..]);
    } else {
      assert rows[1..] == [];
    }
  }

  /** With any non-negative earnings the two totals differ by the rounding: half a cent, and one unit a row. */
  lemma TotalsNeverFarApart(rows: seq<Earning>)
    requires rows != [] && forall i | 0 <= i < |rows| :: rows[i].amountUsd >= 0.0
    ensures Cents(Sum(rows)) - 0.005 < Usdc(SumMicros(rows) + |rows|)
    ensures Usdc(SumMicros(rows)) <= Cents(Sum(rows)) + 0.005
  {
    UnitsLost(rows);
    var x := Sum(rows) * 100.0;
    assert -0.5 <= RoundHalfEven(x) as real - x <= 0.5;
  }

  // ----- a whole case -------------------------------------------------------------------------------------

  /** 120.00 and 0.015 dollars, with a threshold of fifty: the half cent goes to the even cent. */
  lemma SampleDraft(policy: Policy, wallet: string)
    requires policy.threshold == 50.0 && !policy.cooling("a", wallet)
    requires NormAddr(policy.walletOf("a"), policy.checksum) == Some(wallet)
    ensures Decide("a", [Earning("a", 120.0), Earning("a", 0.015)], policy)
      == Drafted(Draft("a", 120.02, Fixed(120_015_000, 12),
           [Item(wallet, 120.0, Fixed(120_000_000, 0)), Item(wallet, 0.015, Fixed(15_000, 0))]))
  {
    var rows := [Earning("a", 120.0), Earning("a", 0.015)];
    assert rows[1..] == [Earning("a", 0.015)] && rows[1..][1..] == [];
    assert Sum(rows) == 120.015 && SumMicros(rows) == 120_015_000;
    assert RoundHalfEven(12001.5) == 12002;
    assert ItemsOf(rows[1..], wallet) == [Item(wallet, 0.015, Fixed(15_000, 0))];
  }

  /** A total exactly at the threshold is enough, and a cent less is not. */
  lemma ThresholdIsEnough(policy: Policy, wallet: string)
    requires policy.threshold == 50.0 && !policy.cooling("a", wallet)
    requires NormAddr(policy.walletOf("a"), policy.checksum) == Some(wallet)
    ensures Decide("a", [Earning("a", 50.0)], policy).Drafted?
    ensures Decide("a", [Earning("a", 49.99)], policy) == BelowThreshold
  {
    assert [Earning("a", 50.0)][1..] == [] && [Earning("a", 49.99)][1..] == [];
    assert Sum([Earning("a", 50.0)]) == 50.0 && Sum([Earning("a", 49.99)]) == 49.99;
  }
}
