/**
 The job table and the three programs that work on it: the drain loop
 (backend/anchoring/anchor_drainer.py), the confirmation poll
 (backend/anchoring/confirmation_poll.py) and the operator's retry
 (backend/anchoring/store.py). Each method returns, as a ghost, the events of the
 protocol that it performed. Job ids are generated and carry no white space; rows
 are stored normalised, so the queries compare stored text directly.
 */
module AnchorStore {
  import opened Wrappers
  import opened PyText
  import opened Collections
  import opened AnchorProtocol

  // ----- ordered listings ------------------------------------------------------------

  ghost predicate IsTotalPreorder(leq: (Job, Job) -> bool) {
    && (forall a, b :: leq(a, b) || leq(b, a))
    && forall a, b, c :: leq(a, b) && leq(b, c) ==> leq(a, c)
  }

  /** `ORDER BY target_root_sha256 ASC, chain ASC, queued_at ASC` */
  predicate QueueOrder(a: Job, b: Job) {
    || Before(a.root, b.root)
    || (a.root == b.root
        && (Before(a.chain, b.chain) || (a.chain == b.chain && a.queuedAt <= b.queuedAt)))
  }

  /** `ORDER BY updated_at ASC` */
  predicate OldestUpdateFirst(a: Job, b: Job) {
    a.updatedAt <= b.updatedAt
  }

  lemma QueueOrderIsTotal()
    ensures IsTotalPreorder(QueueOrder)
  {
    forall a: Job, b: Job ensures QueueOrder(a, b) || QueueOrder(b, a) {
      BeforeIsTotal(a.root, b.root);
      BeforeIsTotal(a.chain, b.chain);
    }
    forall a: Job, b: Job, c: Job | QueueOrder(a, b) && QueueOrder(b, c) ensures QueueOrder(a, c) {
      if Before(a.root, b.root) && Before(b.root, c.root) {
        BeforeIsTransitive(a.root, b.root, c.root);
      } else if a.root == b.root == c.root && Before(a.chain, b.chain) && Before(b.chain, c.chain) {
        BeforeIsTransitive(a.chain, b.chain, c.chain);
      }
    }
  }

  /** The first rows of a sorted selection: nothing outside comes before anything inside. */
  ghost predicate IsWindow(jobs: Table, selected: set<string>, ids: seq<string>, limit: nat, leq: (Job, Job) -> bool)
    requires selected <= jobs.Keys
  {
    && (forall i | 0 <= i < |ids| :: ids[i] in selected)
    && (forall i, k | 0 <= i < k < |ids| :: ids[i] != ids[k])
    && |ids| == Min(limit, |selected|)
    && (forall i, k | 0 <= i < k < |ids| :: leq(jobs[ids[i]], jobs[ids[k]]))
    && forall i, id | 0 <= i < |ids| && id in selected && id !in ids :: leq(jobs[ids[i]], jobs[id])
  }

  function QueuedBatch(jobs: Table): set<string> {
    set id | id in jobs && IsQueuedBatch(jobs, id)
  }

  function PendingBatch(jobs: Table): set<string> {
    set id | id in jobs && jobs[id].anchorType == "batch" && IsPending(jobs[id].status)
  }

  /** Some row that comes before all others of a selection, ties broken by chance. */
  method FirstRow(jobs: Table, selected: set<string>, leq: (Job, Job) -> bool) returns (first: string)
    requires selected <= jobs.Keys && selected != {} && IsTotalPreorder(leq)
    ensures first in selected
    ensures forall id | id in selected :: leq(jobs[first], jobs[id])
  {
    first :| first in selected;
    var rest := selected - {first};
    while rest != {}
      invariant rest <= selected && first in selected
      invariant forall id | id in selected - rest :: leq(jobs[first], jobs[id])
      decreases rest
    {
      var id :| id in rest;
      if !leq(jobs[first], jobs[id]) { first := id; }
      rest := rest - {id};
    }
  }

  method SelectWindow(jobs: Table, selected: set<string>, limit: nat, leq: (Job, Job) -> bool)
    returns (ids: seq<string>)
    requires selected <= jobs.Keys && IsTotalPreorder(leq)
    ensures IsWindow(jobs, selected, ids, limit, leq)
  {
    ids := [];
    var rest := selected;
    while |ids| < limit && rest != {}
      invariant |ids| <= limit && |ids| + |rest| == |selected|
      invariant rest <= selected && forall id :: id in selected <==> id in rest || id in ids
      invariant forall i | 0 <= i < |ids| :: ids[i] !in rest
      invariant forall i, k | 0 <= i < k < |ids| :: ids[i] != ids[k]
      invariant forall i, k | 0 <= i < k < |ids| :: leq(jobs[ids[i]], jobs[ids[k]])
      invariant forall i, id | 0 <= i < |ids| && id in rest :: leq(jobs[ids[i]], jobs[id])
      decreases rest
    {
      var id := FirstRow(jobs, rest, leq);
      ids := ids + [id];
      rest := rest - {id};
    }
  }

  // ----- the chains -------------------------------------------------------------------

  predicate EndsWith(s: string, suffix: string) {
    |suffix| <= |s| && s[|s| - |suffix|..] == suffix
  }

  /** The rows that no submission is tried for. */
  predicate IsMalformed(j: Job) {
    j.network == "" || |j.root| != 64
  }

  predicate OnMainnet(j: Job) {
    EndsWith(j.network, "-mainnet")
  }

  function FailureKind(j: Job): string {
    if IsMalformed(j) then "failed_terminal"
    else if j.chain == "btc" then "canonical_failed_retryable"
    else "mirror_failed_retryable"
  }

  /** A malformed row fails for good; every other failure of the drain may be retried. */
  lemma FailureKindMeans(j: Job)
    ensures FailureStatus(FailureKind(j)) == if IsMalformed(j) then FailedTerminal else FailedRetryable
  {
    if IsMalformed(j) {
      TerminalKind();
    } else if j.chain == "btc" {
      assert "canonical_failed_" + "retryable" == "canonical_failed_retryable";
      RetryableKind("canonical_failed_");
    } else {
      assert "mirror_failed_" + "retryable" == "mirror_failed_retryable";
      RetryableKind("mirror_failed_");
    }
  }

  lemma TerminalKind()
    ensures FailureStatus("failed_terminal") == FailedTerminal
  {
    var prefix, kind := "failed_", "failed_" + "terminal";
    assert kind == "failed_terminal";
    IsLower(kind);
    assert kind[|prefix|..|prefix| + |"terminal"|] == "terminal";
    ContainsAt(kind, "terminal", |prefix|);
    NotRetryable(kind);
  }

  lemma NotRetryable(kind: string)
    requires 'y' !in kind
    ensures !Contains(kind, "retryable")
  {
    if Contains(kind, "retryable") {
      HasChar(kind, "retryable", 4);
    }
  }

  lemma RetryableKind(prefix: string)
    requires forall i | 0 <= i < |prefix| :: LowerChar(prefix[i]) == prefix[i]
    ensures FailureStatus(prefix + "retryable") == FailedRetryable
  {
    var kind := prefix + "retryable";
    IsLower("retryable");
    assert Lower(kind) == kind;
    assert kind[|prefix|..|prefix| + |"retryable"|] == "retryable";
    ContainsAt(kind, "retryable", |prefix|);
  }

  lemma IsLower(s: string)
    requires forall i | 0 <= i < |s| :: !('A' <= s[i] <= 'Z')
    ensures Lower(s) == s
  {
  }

  lemma HasChar(whole: string, part: string, k: nat)
    requires k < |part| && Contains(whole, part)
    ensures part[k] in whole
  {
    var i := ContainsWhere(whole, part);
    assert whole[i..i + |part|][k] == whole[i + k];
  }

  lemma StripTwice(s: string)
    ensures Strip(Strip(s)) == Strip(s)
  {
    var _, _ := StripTrims(s);
    StripFixes(Strip(s));
  }

  /** The job stands at place k of this listing, and everything before it must wait. */
  ghost predicate LeadsWindow(jobs: Table, id: string, window: seq<string>, k: nat, leq: (Job, Job) -> bool) {
    && IsWindow(jobs, QueuedBatch(jobs), window, 80, leq)
    && k < |window| && window[k] == id && forall m | 0 <= m < k :: HeldBack(jobs, window[m])
  }

  /** It is the first job that may go ahead in some listing by this order. */
  ghost predicate IsFirstEligible(jobs: Table, id: string, leq: (Job, Job) -> bool) {
    Eligible(jobs, id) && exists window, k: nat :: LeadsWindow(jobs, id, window, k, leq)
  }

  /** Nothing in some listing by this order may go ahead. */
  ghost predicate IsStuck(jobs: Table, leq: (Job, Job) -> bool) {
    exists window :: IsWindow(jobs, QueuedBatch(jobs), window, 80, leq) && forall k | k in window :: HeldBack(jobs, k)
  }

  /** A queued job that comes strictly before the one that leads must wait. */
  lemma AheadMustWait(jobs: Table, id: string, window: seq<string>, k: nat, leq: (Job, Job) -> bool, other: string)
    requires LeadsWindow(jobs, id, window, k, leq)
    requires other in QueuedBatch(jobs) && other != id && !leq(jobs[id], jobs[other])
    ensures HeldBack(jobs, other)
  {
    assert other in window;
    var m :| 0 <= m < |window| && window[m] == other;
    assert m < k;
  }

  /** Bitcoin first: when a mirror is taken, no Bitcoin job for its root is left in the queue. */
  lemma BitcoinFirst(jobs: Table, d: string, b: string)
    requires IsFirstEligible(jobs, d, QueueOrder) && IsMirror(jobs[d])
    requires b in jobs && IsBatch(jobs[b], "btc", jobs[d].root)
    ensures jobs[b].status != Queued
  {
    var window, k: nat :| LeadsWindow(jobs, d, window, k, QueueOrder);
    assert Before("btc", "doge") && !Before("doge", "btc");
    BeforeIsIrreflexive(jobs[d].root);
    if jobs[b].status == Queued {
      AheadMustWait(jobs, d, window, k, QueueOrder, b);
    }
  }

  /** Rows stay what they are for. */
  predicate SameTargets(jobs: Table, jobs': Table) {
    && jobs'.Keys == jobs.Keys
    && forall k | k in jobs ::
         jobs'[k].chain == jobs[k].chain && jobs'[k].root == jobs[k].root && jobs'[k].anchorType == jobs[k].anchorType
  }

  /** No root has two Bitcoin jobs. */
  predicate OneBitcoinEach(jobs: Table) {
    forall a, b | a in jobs && b in jobs ::
      IsBatch(jobs[a], "btc", jobs[b].root) && IsBatch(jobs[b], "btc", jobs[b].root) ==> a == b
  }

  /** With one Bitcoin job a root, what must wait may not go ahead, and the other way round. */
  lemma EligibleOrHeldBack(jobs: Table, id: string)
    requires OneBitcoinEach(jobs) && IsQueuedBatch(jobs, id)
    ensures Eligible(jobs, id) <==> !HeldBack(jobs, id)
  {
    if jobs[id].chain == "doge" && exists b :: b in jobs && IsBatch(jobs[b], "btc", jobs[id].root) {
      var b :| b in jobs && IsBatch(jobs[b], "btc", jobs[id].root);
      assert IsLatest(jobs, b, "btc", jobs[id].root);
    }
  }

  lemma SameTargetsTwice(a: Table, b: Table, c: Table)
    requires SameTargets(a, b) && SameTargets(b, c)
    ensures SameTargets(a, c)
  {
  }

  /** When the drain is stuck and the listing holds the whole queue, everything queued must wait. */
  lemma StuckMeansNoneLeft(before: Table, jobs: Table)
    requires IsStuck(jobs, QueueOrder) && |QueuedBatch(jobs)| <= 80 && SameTargets(before, jobs)
    ensures forall k | k in QueuedBatch(jobs) :: HeldBack(jobs, k)
    ensures OneBitcoinEach(before) ==> forall k | k in QueuedBatch(jobs) :: !Eligible(jobs, k)
  {
    var window :|
      IsWindow(jobs, QueuedBatch(jobs), window, 80, QueueOrder) && forall k | k in window :: HeldBack(jobs, k);
    WindowIsAll(jobs, QueuedBatch(jobs), window, 80, QueueOrder);
    if OneBitcoinEach(before) {
      assert OneBitcoinEach(jobs);
      forall k | k in QueuedBatch(jobs) ensures !Eligible(jobs, k) { EligibleOrHeldBack(jobs, k); }
    }
  }

  const HTTP_PROVIDERS: seq<string> := ["third_party_anchor", "public_broadcast_bitcoin", "blockchair_dogecoin"]

  const CONFIRMED_SENTINEL := 1_000_000

  /** What a chain or a provider says about one job's transaction, if it answers at all. */
  datatype Report = Report(confirmedByProvider: Option<bool>, walletDepth: Option<int>)

  /** `effective_confirmations_for_batch_anchor_job` */
  function EffectiveConfirmations(job: Job, report: Report): (depth: Option<int>)
    ensures depth.Some? ==> HasChainTxid(job)
  {
    if !HasChainTxid(job) then None
    else if Lower(Strip(job.provider)) in HTTP_PROVIDERS then
      match report.confirmedByProvider
      case None => None
      case Some(confirmed) => Some(if confirmed then CONFIRMED_SENTINEL else 0)
    else report.walletDepth
  }

  /** `confirmations_required_for_batch_anchor_job` */
  function Required(job: Job, btcConfig: int, dogeConfig: int): int {
    Max(1, if job.chain == "btc" then btcConfig else dogeConfig)
  }

  /** The reported depth is enough. */
  predicate IsDeep(job: Job, report: Report, btcConfig: int, dogeConfig: int) {
    var depth := EffectiveConfirmations(job, report);
    depth.Some? && depth.value >= Required(job, btcConfig, dogeConfig)
  }

  /** The depth asked of a job is the one configured for its chain, and never less than one. */
  lemma RequiredMeans(job: Job, btcConfig: int, dogeConfig: int)
    ensures var need := Required(job, btcConfig, dogeConfig);
      var config := if job.chain == "btc" then btcConfig else dogeConfig;
      need >= 1 && need >= config && (need == 1 || need == config)
  {
  }

  /**
   When a job is promoted: a provider's word counts as a million confirmations, its
   silence or denial as none, so it satisfies every threshold up to a million; a wallet's
   depth is compared as it is.
   */
  lemma DeepExactly(job: Job, report: Report, btcConfig: int, dogeConfig: int)
    ensures var need := Required(job, btcConfig, dogeConfig);
      IsDeep(job, report, btcConfig, dogeConfig) <==>
        && HasChainTxid(job)
        && if Lower(Strip(job.provider)) in ["third_party_anchor", "public_broadcast_bitcoin", "blockchair_dogecoin"]
           then report.confirmedByProvider == Some(true) && need <= 1_000_000
           else report.walletDepth.Some? && report.walletDepth.value >= need
  {
  }

  /** A configured depth of a million and one is never reached through a provider, whatever it says. */
  lemma OneMoreIsNeverDeep(job: Job, report: Report)
    requires Lower(Strip(job.provider)) in HTTP_PROVIDERS
    ensures !IsDeep(job, report, 1_000_001, 1_000_001)
  {
    DeepExactly(job, report, 1_000_001, 1_000_001);
  }

  /** What the poll knows besides the table: the reports by job id, and the configured depths. */
  datatype Outlook = Outlook(reports: map<string, Report>, btcConfig: int, dogeConfig: int) {
    function ReportFor(id: string): Report {
      if id in reports then reports[id] else Report(None, None)
    }

    predicate Deep(id: string, job: Job) {
      IsDeep(job, ReportFor(id), btcConfig, dogeConfig)
    }
  }

  /** The table after a poll has looked at these jobs, one after the other. */
  function Polled(jobs: Table, seen: seq<string>, outlook: Outlook, now: int): Table {
    if seen == [] then jobs
    else
      var id, before := seen[|seen| - 1], Polled(jobs, seen[..|seen| - 1], outlook, now);
      if id in before && outlook.Deep(id, before[id]) then before[id := ConfirmedRow(before[id], now)] else before
  }

  lemma PolledNext(jobs: Table, listed: seq<string>, i: nat, outlook: Outlook, now: int)
    requires i < |listed| && listed[i] in Polled(jobs, listed[..i], outlook, now)
    ensures var id, before := listed[i], Polled(jobs, listed[..i], outlook, now);
      Polled(jobs, listed[..i + 1], outlook, now)
        == if outlook.Deep(id, before[id]) then before[id := ConfirmedRow(before[id], now)] else before
  {
    assert listed[..i + 1][..i] == listed[..i];
  }

  /** The events of such a poll. */
  ghost function PollRun(jobs: Table, seen: seq<string>, outlook: Outlook, now: int): seq<Event> {
    if seen == [] then []
    else
      var id, before := seen[|seen| - 1], seen[..|seen| - 1];
      PollRun(jobs, before, outlook, now) +
      if id in jobs && outlook.Deep(id, jobs[id]) then [Observe(id), Confirm(id, now)] else []
  }

  lemma LastIsNew(ids: seq<string>)
    requires ids != [] && forall i, k | 0 <= i < k < |ids| :: ids[i] != ids[k]
    ensures var n := |ids| - 1;
      ids[n] !in ids[..n] && forall id :: id in ids <==> id in ids[..n] || id == ids[n]
  {
    assert ids == ids[..|ids| - 1] + [ids[|ids| - 1]];
  }

  /** Exactly the deep ones among them are confirmed, and no other row changes. */
  lemma {:induction false} PolledRows(jobs: Table, seen: seq<string>, outlook: Outlook, now: int)
    requires forall i, k | 0 <= i < k < |seen| :: seen[i] != seen[k]
    ensures var after := Polled(jobs, seen, outlook, now);
      && after.Keys == jobs.Keys
      && forall id | id in jobs ::
           after[id] == if id in seen && outlook.Deep(id, jobs[id]) then ConfirmedRow(jobs[id], now) else jobs[id]
  {
    if seen != [] {
      var n := |seen| - 1;
      PolledRows(jobs, seen[..n], outlook, now);
      LastIsNew(seen);
    }
  }

  // ----- what a drain reports ------------------------------------------------------------

  /** The jobs that left the queue and were rejected, on Bitcoin or on any other chain. */
  function RejectedJobs(before: Table, after: Table, bitcoin: bool): set<string> {
    set k | k in QueuedBatch(before) && k in after && IsFailed(after[k].status) && (after[k].chain == "btc") == bitcoin
  }

  /** The jobs that left the queue and were submitted. */
  function SubmittedJobs(before: Table, after: Table): set<string> {
    set k | k in QueuedBatch(before) && k in after && after[k].status == Submitted
  }

  /** Of the rejected ones those that only the switch for mainnets stopped. */
  function SkippedJobs(before: Table, after: Table, mainnetDisabled: bool): set<string> {
    set k | k in QueuedBatch(before) && k in after && IsFailed(after[k].status)
      && mainnetDisabled && !IsMalformed(before[k]) && OnMainnet(before[k])
  }

  /** The queued jobs that are still queued are as they were. */
  predicate QueueUntouched(before: Table, after: Table) {
    forall k | k in QueuedBatch(before) && k in QueuedBatch(after) :: after[k] == before[k]
  }

  /** One job has left the queue, submitted or rejected. */
  ghost predicate TurnTaken(before: Table, after: Table, id: string, turn: Turn, mainnetDisabled: bool, now: int) {
    && id in QueuedBatch(before)
    && match turn
       case Idle => false
       case Accepted => exists txid :: after == before[id := SubmittedRow(before[id], txid, now)]
       case Rejected(canonical, mainnet) =>
         && after == before[id := FailedRow(before[id], FailureKind(before[id]), now)]
         && canonical == (before[id].chain == "btc")
         && mainnet == (!IsMalformed(before[id]) && OnMainnet(before[id]) && mainnetDisabled)
  }

  lemma TurnMeans(before: Table, after: Table, id: string, turn: Turn, mainnetDisabled: bool, now: int)
    requires TurnTaken(before, after, id, turn, mainnetDisabled, now)
    ensures after.Keys == before.Keys && forall k | k in before && k != id :: after[k] == before[k]
    ensures after[id].chain == before[id].chain
    ensures if turn.Accepted? then after[id].status == Submitted else IsFailed(after[id].status)
  {
    FailureKindMeans(before[id]);
  }

  /** A drain has taken jobs out of the queue and left the rest of it, and what rows are for, as they were. */
  ghost predicate DrainsFrom(start: Table, jobs: Table) {
    QueuedBatch(jobs) <= QueuedBatch(start) && QueueUntouched(start, jobs) && SameTargets(start, jobs)
  }

  lemma TurnDrains(
    start: Table, before: Table, after: Table, id: string, turn: Turn, mainnetDisabled: bool, now: int)
    requires DrainsFrom(start, before) && TurnTaken(before, after, id, turn, mainnetDisabled, now)
    requires QueuedBatch(after) == QueuedBatch(before) - {id} && SameTargets(before, after)
    ensures DrainsFrom(start, after)
  {
    SameTargetsTwice(start, before, after);
    TurnRows(start, before, after, id, turn, mainnetDisabled, now);
  }

  /** The numbers count the jobs that they are named for. */
  ghost predicate Reports(
    start: Table, jobs: Table, mainnetDisabled: bool,
    submitted: nat, canonicalFailed: nat, mirrorFailed: nat, skippedMainnet: nat)
  {
    && submitted == |SubmittedJobs(start, jobs)|
    && canonicalFailed == |RejectedJobs(start, jobs, true)|
    && mirrorFailed == |RejectedJobs(start, jobs, false)|
    && skippedMainnet == |SkippedJobs(start, jobs, mainnetDisabled)|
  }

  lemma StartReports(start: Table, mainnetDisabled: bool)
    ensures Reports(start, start, mainnetDisabled, 0, 0, 0, 0) && QueueUntouched(start, start)
  {
    assert SubmittedJobs(start, start) == {} && SkippedJobs(start, start, mainnetDisabled) == {};
    assert RejectedJobs(start, start, true) == {} && RejectedJobs(start, start, false) == {};
  }

  function One(b: bool): nat {
    if b then 1 else 0
  }

  /** A set with one element more, or with the same ones. */
  lemma GrowsBy<T>(a: set<T>, b: set<T>, x: T, more: bool)
    requires x !in a && forall y :: y in b <==> y in a || (more && y == x)
    ensures |b| == |a| + One(more)
  {
    assert b == if more then a + {x} else a;
  }

  /** What a turn does to the rows of the queue that a drain started with. */
  lemma TurnRows(start: Table, before: Table, after: Table, id: string, turn: Turn, mainnetDisabled: bool, now: int)
    requires TurnTaken(before, after, id, turn, mainnetDisabled, now)
    requires QueuedBatch(before) <= QueuedBatch(start) && QueueUntouched(start, before)
    ensures QueueUntouched(start, after) && id in QueuedBatch(start) && before[id] == start[id]
    ensures after.Keys == before.Keys && forall k | k in before && k != id :: after[k] == before[k]
    ensures before[id].status == Queued && after[id].chain == before[id].chain
    ensures if turn.Accepted? then after[id].status == Submitted else IsFailed(after[id].status)
  {
    TurnMeans(before, after, id, turn, mainnetDisabled, now);
    assert id in QueuedBatch(start);
  }

  lemma SubmittedGrow(
    start: Table, before: Table, after: Table, id: string, turn: Turn, mainnetDisabled: bool, now: int)
    requires TurnTaken(before, after, id, turn, mainnetDisabled, now)
    requires QueuedBatch(before) <= QueuedBatch(start) && QueueUntouched(start, before)
    ensures |SubmittedJobs(start, after)| == |SubmittedJobs(start, before)| + One(turn.Accepted?)
  {
    TurnRows(start, before, after, id, turn, mainnetDisabled, now);
    GrowsBy(SubmittedJobs(start, before), SubmittedJobs(start, after), id, turn.Accepted?);
  }

  lemma RejectedGrow(
    start: Table, before: Table, after: Table, id: string, turn: Turn, mainnetDisabled: bool, now: int,
    bitcoin: bool)
    requires TurnTaken(before, after, id, turn, mainnetDisabled, now)
    requires QueuedBatch(before) <= QueuedBatch(start) && QueueUntouched(start, before)
    ensures |RejectedJobs(start, after, bitcoin)|
      == |RejectedJobs(start, before, bitcoin)| + One(turn.Rejected? && turn.canonical == bitcoin)
  {
    TurnRows(start, before, after, id, turn, mainnetDisabled, now);
    GrowsBy(RejectedJobs(start, before, bitcoin), RejectedJobs(start, after, bitcoin), id,
      turn.Rejected? && turn.canonical == bitcoin);
  }

  lemma SkippedGrow(
    start: Table, before: Table, after: Table, id: string, turn: Turn, mainnetDisabled: bool, now: int)
    requires TurnTaken(before, after, id, turn, mainnetDisabled, now)
    requires QueuedBatch(before) <= QueuedBatch(start) && QueueUntouched(start, before)
    ensures |SkippedJobs(start, after, mainnetDisabled)|
      == |SkippedJobs(start, before, mainnetDisabled)| + One(turn.Rejected? && turn.mainnet)
  {
    TurnRows(start, before, after, id, turn, mainnetDisabled, now);
    GrowsBy(SkippedJobs(start, before, mainnetDisabled), SkippedJobs(start, after, mainnetDisabled), id,
      turn.Rejected? && turn.mainnet);
  }

  /** So each number goes up exactly when the turn was of its kind. */
  lemma TurnReports(
    start: Table, before: Table, after: Table, id: string, turn: Turn, mainnetDisabled: bool, now: int,
    submitted: nat, canonicalFailed: nat, mirrorFailed: nat, skippedMainnet: nat)
    requires TurnTaken(before, after, id, turn, mainnetDisabled, now)
    requires QueuedBatch(before) <= QueuedBatch(start) && QueueUntouched(start, before)
    requires Reports(start, before, mainnetDisabled, submitted, canonicalFailed, mirrorFailed, skippedMainnet)
    ensures QueueUntouched(start, after)
    ensures Reports(start, after, mainnetDisabled,
              submitted + One(turn.Accepted?), canonicalFailed + One(turn.Rejected? && turn.canonical),
              mirrorFailed + One(turn.Rejected? && !turn.canonical),
              skippedMainnet + One(turn.Rejected? && turn.mainnet))
  {
    TurnRows(start, before, after, id, turn, mainnetDisabled, now);
    SubmittedGrow(start, before, after, id, turn, mainnetDisabled, now);
    RejectedGrow(start, before, after, id, turn, mainnetDisabled, now, true);
    RejectedGrow(start, before, after, id, turn, mainnetDisabled, now, false);
    SkippedGrow(start, before, after, id, turn, mainnetDisabled, now);
  }

  /** What one turn of the drain loop came to. */
  datatype Turn = Idle | Accepted | Rejected(canonical: bool, mainnet: bool)

  datatype RetryReason = Requeued | AlreadyConfirmed | JobNotFound

  const ALONE := Users(1, 1)

  /** What a chain has been asked to take, whether it did or not. */
  datatype Commitment = Commitment(network: string, root: string)

  class AnchoringStore {
    var jobs: Table
    ghost var submissions: seq<Submission>
    ghost var asked: seq<Commitment>

    /** The protocol state when no program is in the middle of its work. */
    ghost function State(): State
      reads this
    {
      AnchorProtocol.State(jobs, submissions, map[], map[], {})
    }

    /** Only the protocol has written to the table. */
    ghost predicate Valid()
      reads this
    {
      Reachable(ALONE, State())
    }

    constructor ()
      ensures Valid() && jobs == map[] && submissions == []
    {
      jobs := map[];
      submissions, asked := [], [];
      new;
      assert Exec(ALONE, EMPTY, []) == Some(EMPTY);
    }

    // ----- single statements -----------------------------------------------------------

    /** `insert_anchor_job`; a taken id violates the primary key and changes nothing. */
    method InsertAnchorJob(
      id: string, chain: string, anchorType: string, root: string, network: string, provider: string, now: int)
      returns (ok: bool)
      modifies this`jobs
      ensures ok <==> id !in old(jobs)
      ensures jobs == if ok then old(jobs)[id := NewRow(chain, anchorType, root, network, provider, now)] else old(jobs)
      ensures old(Valid()) ==> Valid()
    {
      ok := id !in jobs;
      if ok {
        var row := NewRow(chain, anchorType, root, network, provider, now);
        if Valid() { ReachMore(ALONE, State(), Insert(id, row)); }
        jobs := jobs[id := row];
      }
    }

    method UpdateSubmitted(id: string, txid: string, now: int)
      modifies this`jobs
      ensures jobs == if id in old(jobs) then old(jobs)[id := SubmittedRow(old(jobs)[id], txid, now)] else old(jobs)
    {
      if id in jobs { jobs := jobs[id := SubmittedRow(jobs[id], txid, now)]; }
    }

    method UpdateFailed(id: string, kind: string, now: int)
      modifies this`jobs
      ensures jobs == if id in old(jobs) then old(jobs)[id := FailedRow(old(jobs)[id], kind, now)] else old(jobs)
    {
      if id in jobs { jobs := jobs[id := FailedRow(jobs[id], kind, now)]; }
    }

    method MarkConfirmed(id: string, now: int)
      modifies this`jobs
      ensures jobs == if id in old(jobs) then old(jobs)[id := ConfirmedRow(old(jobs)[id], now)] else old(jobs)
    {
      if id in jobs { jobs := jobs[id := ConfirmedRow(jobs[id], now)]; }
    }

    /** `get_anchor_job_by_root_and_chain`: a row with the latest creation time. */
    method LatestJob(root: string, chain: string) returns (r: Option<string>)
      ensures r.Some? ==> IsLatest(jobs, r.value, chain, root)
      ensures r.None? ==> forall k | k in jobs :: !IsBatch(jobs[k], chain, root)
    {
      var matching := set k | k in jobs && IsBatch(jobs[k], chain, root);
      if matching == {} {
        assert forall k | k in jobs :: IsBatch(jobs[k], chain, root) ==> k in matching;
        return None;
      }
      var id := FirstRow(jobs, matching, (a: Job, b: Job) => a.createdAt >= b.createdAt);
      r := Some(id);
    }

    /** `_filter_eligible_batch_anchor_jobs`: what passes, in the order of the listing, and where it stood there. */
    method FilterEligible(ids: seq<string>) returns (eligible: seq<string>, ghost at: seq<nat>)
      requires forall id | id in ids :: IsQueuedBatch(jobs, id)
      ensures forall id | id in eligible :: id in ids && Eligible(jobs, id)
      ensures forall id | id in ids && id !in eligible :: HeldBack(jobs, id)
      ensures |at| == |eligible| && forall i, k | 0 <= i < k < |at| :: at[i] < at[k]
      ensures forall i | 0 <= i < |at| :: at[i] < |ids| && eligible[i] == ids[at[i]] && Eligible(jobs, eligible[i])
      ensures forall m: nat | m < |ids| && m !in at :: HeldBack(jobs, ids[m])
    {
      eligible, at := [], [];
      for i := 0 to |ids|
        invariant |at| == |eligible| && forall k, m | 0 <= k < m < |at| :: at[k] < at[m]
        invariant forall k | 0 <= k < |at| :: at[k] < i && eligible[k] == ids[at[k]] && Eligible(jobs, eligible[k])
        invariant forall m: nat | m < i && m !in at :: HeldBack(jobs, ids[m])
      {
        assert ids[i] in ids;
        var passes := MayGo(ids[i]);
        if passes {
          eligible, at := eligible + [ids[i]], at + [i];
        }
      }
    }

    /** The body of that loop. */
    method MayGo(id: string) returns (passes: bool)
      requires IsQueuedBatch(jobs, id)
      ensures if passes then Eligible(jobs, id) else HeldBack(jobs, id)
    {
      var j := jobs[id];
      if j.root == "" {
        return false;
      }
      if j.chain != "doge" {
        return true;
      }
      var b := LatestJob(j.root, "btc");
      passes := b.Some? && Unblocks(jobs[b.value].status);
    }

    // ----- the drain loop --------------------------------------------------------------

    /** `submit_commitment_for_network`: the chain takes the commitment, or the call fails. */
    method SubmitCommitment(id: string, network: string, root: string) returns (txid: Option<string>)
      modifies this`submissions, this`asked
      ensures asked == old(asked) + [Commitment(network, root)]
      ensures txid.Some? ==> submissions == old(submissions) + [Submission(id, Strip(txid.value))]
      ensures txid.None? ==> submissions == old(submissions)
    {
      asked := asked + [Commitment(network, root)];
      txid := *;
      if txid.Some? {
        submissions := submissions + [Submission(id, Strip(txid.value))];
      }
    }

    /**
     What the loop does with a job: a malformed row fails for good, a blocked mainnet or
     a refused submission fails retryably under the name of its chain, and an accepted
     one is stored with its transaction.
     */
    method Attempt(id: string, mainnetDisabled: bool, now: int) returns (turn: Turn, ghost run: seq<Event>)
      requires Eligible(jobs, id)
      modifies this
      ensures Exec(ALONE, old(State()), run) == Some(State())
      // the chain is asked for the job's own root on its own network, or not at all
      ensures var j := old(jobs)[id];
        asked == old(asked) +
          if IsMalformed(j) || (OnMainnet(j) && mainnetDisabled) then [] else [Commitment(j.network, j.root)]
      ensures var j := old(jobs)[id];
        match turn
        case Idle => false
        case Accepted =>
          && !IsMalformed(j) && !(OnMainnet(j) && mainnetDisabled)
          && |submissions| == |old(submissions)| + 1 && submissions[..|old(submissions)|] == old(submissions)
          && var last := submissions[|old(submissions)|];
             last.id == id && jobs == old(jobs)[id := SubmittedRow(j, last.txid, now)]
        case Rejected(canonical, mainnet) =>
          && canonical == (j.chain == "btc")
          && mainnet == (!IsMalformed(j) && OnMainnet(j) && mainnetDisabled)
          && submissions == old(submissions)
          && jobs == old(jobs)[id := FailedRow(j, FailureKind(j), now)]
    {
      var job := jobs[id];
      var canonical := job.chain == "btc";
      if job.network == "" || |job.root| != 64 {
        UpdateFailed(id, "failed_terminal", now);
        run := [Pick(0, id), Fail(0, "failed_terminal", now)];
        FailRuns(old(State()), id, "failed_terminal", now);
        return Rejected(canonical, false), run;
      }
      var kind := if canonical then "canonical_failed_retryable" else "mirror_failed_retryable";
      if EndsWith(job.network, "-mainnet") && mainnetDisabled {
        UpdateFailed(id, kind, now);
        run := [Pick(0, id), Fail(0, kind, now)];
        FailRuns(old(State()), id, kind, now);
        return Rejected(canonical, true), run;
      }
      var txid := SubmitCommitment(id, job.network, job.root);
      if txid.None? {
        UpdateFailed(id, kind, now);
        run := [Pick(0, id), Fail(0, kind, now)];
        FailRuns(old(State()), id, kind, now);
        return Rejected(canonical, false), run;
      }
      UpdateSubmitted(id, txid.value, now);
      StripTwice(txid.value);
      run := [Pick(0, id), Submit(0, txid.value, now)];
      SubmitRuns(old(State()), id, txid.value, now);
      return Accepted, run;
    }

    /** List, filter, and take the first. */
    method FirstEligible() returns (id: Option<string>)
      ensures if id.Some? then IsFirstEligible(jobs, id.value, QueueOrder) else IsStuck(jobs, QueueOrder)
    {
      QueueOrderIsTotal();
      var window := SelectWindow(jobs, QueuedBatch(jobs), 80, QueueOrder);
      var eligible, at := FilterEligible(window);
      if eligible == [] {
        assert forall m: nat | m < |window| :: HeldBack(jobs, window[m]);
        return None;
      }
      assert LeadsWindow(jobs, eligible[0], window, at[0], QueueOrder);
      return Some(eligible[0]);
    }

    /** One turn of the drain loop. */
    method DrainOne(mainnetDisabled: bool, now: int) returns (turn: Turn, ghost id: string, ghost run: seq<Event>)
      modifies this
      ensures Exec(ALONE, old(State()), run) == Some(State())
      ensures turn == Idle ==> jobs == old(jobs) && submissions == old(submissions) && IsStuck(jobs, QueueOrder)
      ensures turn != Idle ==>
        IsFirstEligible(old(jobs), id, QueueOrder) && QueuedBatch(jobs) == QueuedBatch(old(jobs)) - {id}
      ensures turn != Idle ==> TurnTaken(old(jobs), jobs, id, turn, mainnetDisabled, now)
      ensures SameTargets(old(jobs), jobs)
      ensures |submissions| == |old(submissions)| + (if turn == Accepted then 1 else 0)
    {
      run, id := [], "";
      var first := FirstEligible();
      if first.None? {
        return Idle, id, run;
      }
      id := first.value;
      turn, run := Attempt(first.value, mainnetDisabled, now);
    }

    /** `drain_receipt_batch_anchor_jobs` */
    method Drain(maxSubmissions: int, mainnetDisabled: bool, now: int)
      returns (
        submitted: nat, failed: nat, canonicalFailed: nat, mirrorFailed: nat, skippedMainnet: nat,
        ghost run: seq<Event>)
      modifies this
      ensures Exec(ALONE, old(State()), run) == Some(State())
      ensures old(Valid()) ==> Valid()
      ensures QueuedBatch(jobs) <= QueuedBatch(old(jobs)) && SameTargets(old(jobs), jobs)
      ensures submitted + failed == |QueuedBatch(old(jobs))| - |QueuedBatch(jobs)| <= Max(1, maxSubmissions)
      ensures submitted == |submissions| - |old(submissions)|
      ensures failed == canonicalFailed + mirrorFailed && skippedMainnet <= failed
      // Each number counts the jobs that it is named for.
      ensures Reports(old(jobs), jobs, mainnetDisabled, submitted, canonicalFailed, mirrorFailed, skippedMainnet)
      // Stopping early means that the listing holds nothing that may be submitted.
      ensures submitted + failed < Max(1, maxSubmissions) ==> IsStuck(jobs, QueueOrder)
      // With room for all, everything that is left must wait.
      ensures |QueuedBatch(old(jobs))| <= 80 && |QueuedBatch(old(jobs))| <= Max(1, maxSubmissions) ==>
        forall k | k in QueuedBatch(jobs) :: HeldBack(jobs, k) && (OneBitcoinEach(old(jobs)) ==> !Eligible(jobs, k))
    {
      var idle: bool;
      submitted, failed, canonicalFailed, mirrorFailed, skippedMainnet, idle, run :=
        DrainLoop(Max(1, maxSubmissions), mainnetDisabled, now);
      if old(Valid()) { ExecReaches(ALONE, old(State()), run); }
      SubsetSize(QueuedBatch(jobs), QueuedBatch(old(jobs)));
      if idle && |QueuedBatch(old(jobs))| <= 80 {
        StuckMeansNoneLeft(old(jobs), jobs);
      }
    }

    /** Its loop, which ends when the budget is used or a turn is idle. */
    method DrainLoop(budget: nat, mainnetDisabled: bool, now: int)
      returns (
        submitted: nat, failed: nat, canonicalFailed: nat, mirrorFailed: nat, skippedMainnet: nat,
        idle: bool, ghost run: seq<Event>)
      modifies this
      ensures Exec(ALONE, old(State()), run) == Some(State())
      ensures QueuedBatch(jobs) <= QueuedBatch(old(jobs)) && SameTargets(old(jobs), jobs)
      ensures submitted + failed == |QueuedBatch(old(jobs))| - |QueuedBatch(jobs)| <= budget
      ensures submitted == |submissions| - |old(submissions)|
      ensures failed == canonicalFailed + mirrorFailed && skippedMainnet <= failed
      ensures Reports(old(jobs), jobs, mainnetDisabled, submitted, canonicalFailed, mirrorFailed, skippedMainnet)
      ensures if idle then IsStuck(jobs, QueueOrder) else submitted + failed == budget
    {
      submitted, failed, canonicalFailed, mirrorFailed, skippedMainnet := 0, 0, 0, 0, 0;
      idle, run := false, [];
      StartReports(jobs, mainnetDisabled);
      while submitted + failed < budget && !idle
        invariant submitted + failed <= budget
        invariant Exec(ALONE, old(State()), run) == Some(State())
        invariant DrainsFrom(old(jobs), jobs)
        invariant submitted + failed == |QueuedBatch(old(jobs))| - |QueuedBatch(jobs)|
        invariant submitted == |submissions| - |old(submissions)|
        invariant failed == canonicalFailed + mirrorFailed && skippedMainnet <= failed
        invariant Reports(old(jobs), jobs, mainnetDisabled, submitted, canonicalFailed, mirrorFailed, skippedMainnet)
        invariant idle ==> IsStuck(jobs, QueueOrder)
        decreases budget - submitted - failed, !idle
      {
        ghost var before := jobs;
        var turn, id, more := DrainOne(mainnetDisabled, now);
        if turn != Idle {
          TurnDrains(old(jobs), before, jobs, id, turn, mainnetDisabled, now);
          TurnReports(old(jobs), before, jobs, id, turn, mainnetDisabled, now,
            submitted, canonicalFailed, mirrorFailed, skippedMainnet);
        }
        ExecConcat(ALONE, old(State()), run, more);
        run := run + more;
        match turn
        case Idle => idle := true;
        case Accepted => submitted := submitted + 1;
        case Rejected(canonical, mainnet) =>
          failed := failed + 1;
          if canonical { canonicalFailed := canonicalFailed + 1; } else { mirrorFailed := mirrorFailed + 1; }
          if mainnet { skippedMainnet := skippedMainnet + 1; }
      }
    }

    // ----- the confirmation poll ---------------------------------------------------------

    /** One job of the poll: confirm it when its report is deep enough. */
    method CheckJob(id: string, outlook: Outlook, now: int) returns (deep: bool)
      requires id in PendingBatch(jobs)
      modifies this`jobs
      ensures deep == outlook.Deep(id, old(jobs)[id])
      ensures jobs == if deep then old(jobs)[id := ConfirmedRow(old(jobs)[id], now)] else old(jobs)
      ensures |PendingBatch(jobs)| == |PendingBatch(old(jobs))| - if deep then 1 else 0
      ensures forall k | k in PendingBatch(old(jobs)) && k != id :: k in PendingBatch(jobs)
    {
      deep := false;
      var depth := EffectiveConfirmations(jobs[id], outlook.ReportFor(id));
      if depth.None? {
        return;
      }
      if depth.value >= Required(jobs[id], outlook.btcConfig, outlook.dogeConfig) {
        MarkConfirmed(id, now);
        assert PendingBatch(jobs) == PendingBatch(old(jobs)) - {id};
        deep := true;
      }
    }

    /** The next job of the list. */
    method CheckNext(ghost before: Table, listed: seq<string>, i: nat, outlook: Outlook, now: int)
      returns (deep: bool)
      requires i < |listed| && listed[i] in PendingBatch(jobs) && jobs == Polled(before, listed[..i], outlook, now)
      modifies this`jobs
      ensures jobs == Polled(before, listed[..i + 1], outlook, now)
      ensures |PendingBatch(jobs)| == |PendingBatch(old(jobs))| - if deep then 1 else 0
      ensures forall k | k in PendingBatch(old(jobs)) && k != listed[i] :: k in PendingBatch(jobs)
    {
      PolledNext(before, listed, i, outlook, now);
      deep := CheckJob(listed[i], outlook, now);
    }

    /** The loop over the listed jobs. */
    method CheckListed(listed: seq<string>, cap: nat, outlook: Outlook, now: int)
      returns (checked: nat, promoted: nat)
      requires forall i | 0 <= i < |listed| :: listed[i] in PendingBatch(jobs)
      requires forall i, k | 0 <= i < k < |listed| :: listed[i] != listed[k]
      modifies this`jobs
      ensures promoted <= cap && promoted <= checked <= |listed| && (promoted < cap ==> checked == |listed|)
      ensures promoted == |PendingBatch(old(jobs))| - |PendingBatch(jobs)|
      ensures jobs == Polled(old(jobs), listed[..checked], outlook, now)
    {
      checked, promoted := 0, 0;
      while checked < |listed| && promoted < cap
        invariant promoted <= checked <= |listed| && promoted <= cap
        invariant promoted == |PendingBatch(old(jobs))| - |PendingBatch(jobs)|
        invariant jobs == Polled(old(jobs), listed[..checked], outlook, now)
        invariant forall i | checked <= i < |listed| :: listed[i] in PendingBatch(jobs)
      {
        var deep := CheckNext(old(jobs), listed, checked, outlook, now);
        if deep { promoted := promoted + 1; }
        checked := checked + 1;
      }
    }

    /**
     `poll_receipt_batch_anchor_confirmations`, with the reports of the chains as an
     argument. The window is what the listing returned: the oldest updates first. The
     poll looks at all of it unless it reaches the cap, and `PolledRows` says what it
     does to the table.
     */
    method Poll(maxPromotions: int, outlook: Outlook, now: int)
      returns (checked: nat, promoted: nat, ghost window: seq<string>, ghost run: seq<Event>)
      modifies this`jobs
      ensures Exec(ALONE, old(State()), run) == Some(State())
      ensures old(Valid()) ==> Valid()
      ensures promoted <= Max(0, maxPromotions) && promoted <= checked <= |window|
      ensures promoted == |PendingBatch(old(jobs))| - |PendingBatch(jobs)|
      ensures maxPromotions > 0 ==>
        IsWindow(old(jobs), PendingBatch(old(jobs)), window, Min(500, maxPromotions * 50), OldestUpdateFirst)
      ensures promoted < Max(0, maxPromotions) ==> checked == |window|
      ensures jobs == Polled(old(jobs), window[..checked], outlook, now)
    {
      checked, promoted, window, run := 0, 0, [], [];
      var cap := Max(0, maxPromotions);
      if cap > 0 {
        var listed := SelectWindow(jobs, PendingBatch(jobs), Min(500, Max(cap * 50, cap)), OldestUpdateFirst);
        window := listed;
        checked, promoted := CheckListed(listed, cap, outlook, now);
        run := PollRun(old(jobs), listed[..checked], outlook, now);
        PollRuns(old(State()), listed[..checked], outlook, now);
      }
      if old(Valid()) { ExecReaches(ALONE, old(State()), run); }
    }

    // ----- the operator's retry ------------------------------------------------------------

    /**
     `retry_failed_retryable_batch_anchor_job`. The job is named by its id, or by a
     receipt batch and a chain; `batchRoot` is the Merkle root stored for the batch.
     */
    method Retry(jobId: string, batchId: string, batchRoot: string, chain: string, now: int)
      returns (reason: RetryReason, id: Option<string>, ghost run: seq<Event>)
      modifies this`jobs
      ensures Exec(ALONE, old(State()), run) == Some(State())
      ensures old(Valid()) ==> Valid()
      ensures reason == Requeued ==>
        && id.Some? && id.value in old(jobs) && old(jobs)[id.value].status == FailedRetryable
        && jobs == old(jobs)[id.value := RequeuedRow(old(jobs)[id.value], now)]
      ensures reason != Requeued ==> jobs == old(jobs)
      ensures reason == AlreadyConfirmed ==> id.Some? && id.value in jobs && jobs[id.value].status == Confirmed
      ensures reason == JobNotFound && id.Some? ==>
        id.value in jobs && !(jobs[id.value].status in {Confirmed, FailedRetryable})
      ensures Strip(jobId) != "" ==> id == if Strip(jobId) in old(jobs) then Some(Strip(jobId)) else None
      ensures Strip(jobId) == "" && id.None? ==>
        || Strip(batchId) == "" || Strip(chain) == "" || |Strip(batchRoot)| != 64
        || forall k | k in jobs :: !IsBatch(jobs[k], NormalizeChain(chain), Lower(Strip(batchRoot)))
      ensures Strip(jobId) == "" && id.Some? ==>
        && Strip(batchId) != "" && Strip(chain) != "" && |Strip(batchRoot)| == 64
        && IsLatest(old(jobs), id.value, NormalizeChain(chain), Lower(Strip(batchRoot)))
    {
      run := [];
      id := None;
      if Strip(jobId) != "" {
        id := if Strip(jobId) in jobs then Some(Strip(jobId)) else None;
      } else if Strip(batchId) != "" && Strip(chain) != "" && |Strip(batchRoot)| == 64 {
        id := LatestJob(Lower(Strip(batchRoot)), NormalizeChain(chain));
      }
      if id.None? {
        reason := JobNotFound;
      } else if jobs[id.value].status == Confirmed {
        reason := AlreadyConfirmed;
      } else if jobs[id.value].status != FailedRetryable {
        reason := JobNotFound;
      } else {
        RetryRuns(State(), id.value, now);
        run := [ReadRetry(0, id.value), WriteRetry(0, now)];
        jobs := jobs[id.value := RequeuedRow(jobs[id.value], now)];
        reason := Requeued;
      }
      if old(Valid()) { ExecReaches(ALONE, old(State()), run); }
    }
  }

  // ----- the runs that the methods perform ------------------------------------------------

  ghost predicate IsIdle(s: State) {
    s.picked == map[] && s.retrying == map[] && s.seen == {}
  }

  lemma ExecReaches(u: Users, s: State, es: seq<Event>)
    requires Reachable(u, s) && Exec(u, s, es).Some?
    ensures Reachable(u, Exec(u, s, es).value)
  {
    var before :| Exec(u, EMPTY, before) == Some(s);
    ExecConcat(u, EMPTY, before, es);
  }

  lemma TwoEvents(u: Users, s: State, e: Event, f: Event)
    requires Enabled(u, s, e) && Enabled(u, Apply(s, e), f)
    ensures Exec(u, s, [e, f]) == Some(Apply(Apply(s, e), f))
  {
    assert [e, f][1..] == [f] && [f][1..] == [];
    assert Exec(u, Apply(s, e), [f]) == Some(Apply(Apply(s, e), f));
  }

  lemma SubmitRuns(s: State, id: string, txid: string, now: int)
    requires IsIdle(s) && Eligible(s.jobs, id)
    ensures Exec(ALONE, s, [Pick(0, id), Submit(0, txid, now)]) ==
      Some(s.(jobs := s.jobs[id := SubmittedRow(s.jobs[id], txid, now)],
              submissions := s.submissions + [Submission(id, Strip(txid))]))
  {
    TwoEvents(ALONE, s, Pick(0, id), Submit(0, txid, now));
    assert map[0 := id] - {0} == map[];
  }

  lemma FailRuns(s: State, id: string, kind: string, now: int)
    requires IsIdle(s) && Eligible(s.jobs, id)
    ensures Exec(ALONE, s, [Pick(0, id), Fail(0, kind, now)]) ==
      Some(s.(jobs := s.jobs[id := FailedRow(s.jobs[id], kind, now)]))
  {
    TwoEvents(ALONE, s, Pick(0, id), Fail(0, kind, now));
    assert map[0 := id] - {0} == map[];
  }

  lemma ConfirmRuns(s: State, id: string, now: int)
    requires IsIdle(s) && id in s.jobs && IsPending(s.jobs[id].status) && HasChainTxid(s.jobs[id])
    ensures Exec(ALONE, s, [Observe(id), Confirm(id, now)]) ==
      Some(s.(jobs := s.jobs[id := ConfirmedRow(s.jobs[id], now)]))
  {
    TwoEvents(ALONE, s, Observe(id), Confirm(id, now));
  }

  lemma {:induction false} PollRuns(s: State, seen: seq<string>, outlook: Outlook, now: int)
    requires IsIdle(s) && forall i | 0 <= i < |seen| :: seen[i] in PendingBatch(s.jobs)
    requires forall i, k | 0 <= i < k < |seen| :: seen[i] != seen[k]
    ensures Exec(ALONE, s, PollRun(s.jobs, seen, outlook, now)) == Some(s.(jobs := Polled(s.jobs, seen, outlook, now)))
  {
    if seen != [] {
      var n := |seen| - 1;
      var id, init := seen[n], seen[..n];
      PollRuns(s, init, outlook, now);
      PolledRows(s.jobs, init, outlook, now);
      var t, es := s.(jobs := Polled(s.jobs, init, outlook, now)), PollRun(s.jobs, init, outlook, now);
      if outlook.Deep(id, s.jobs[id]) {
        ConfirmRuns(t, id, now);
        ExecConcat(ALONE, s, es, [Observe(id), Confirm(id, now)]);
      } else {
        assert es + [] == es;
      }
    }
  }

  lemma RetryRuns(s: State, id: string, now: int)
    requires IsIdle(s) && id in s.jobs && s.jobs[id].status == FailedRetryable
    ensures Exec(ALONE, s, [ReadRetry(0, id), WriteRetry(0, now)]) ==
      Some(s.(jobs := s.jobs[id := RequeuedRow(s.jobs[id], now)]))
  {
    TwoEvents(ALONE, s, ReadRetry(0, id), WriteRetry(0, now));
    assert map[0 := id] - {0} == map[];
  }

  lemma WindowIsAll(jobs: Table, selected: set<string>, ids: seq<string>, limit: nat, leq: (Job, Job) -> bool)
    requires selected <= jobs.Keys && IsWindow(jobs, selected, ids, limit, leq) && |selected| <= limit
    ensures forall id | id in selected :: id in ids
  {
    var listed := set id | id in ids;
    DistinctSize(ids, listed);
    assert |selected - listed| == |selected| - |listed|;
  }

  /** With all pending jobs listed, a poll that stays below its cap leaves no deep job unconfirmed. */
  lemma NoDeepJobLeft(jobs: Table, window: seq<string>, limit: nat, outlook: Outlook, now: int)
    requires IsWindow(jobs, PendingBatch(jobs), window, limit, OldestUpdateFirst) && |PendingBatch(jobs)| <= limit
    ensures forall id | id in PendingBatch(Polled(jobs, window, outlook, now)) ::
      id in PendingBatch(jobs) && !outlook.Deep(id, jobs[id])
  {
    WindowIsAll(jobs, PendingBatch(jobs), window, limit, OldestUpdateFirst);
    PolledRows(jobs, window, outlook, now);
  }

  // ----- what the window of 80 leaves out ------------------------------------------------------

  /** The queued jobs that come strictly before this one. */
  function Ahead(jobs: Table, id: string): set<string>
    requires id in jobs
  {
    set k | k in QueuedBatch(jobs) && !QueueOrder(jobs[id], jobs[k])
  }

  /** Those and the ones that tie with it. */
  function AheadOrTied(jobs: Table, id: string): set<string>
    requires id in jobs
  {
    set k | k in QueuedBatch(jobs) && k != id && QueueOrder(jobs[k], jobs[id])
  }

  /**
   A queued job is listed when fewer than 80 others come before it or tie with it,
   and is not listed while 80 or more come before it. So 80 mirrors that wait for
   their Bitcoin jobs keep every later job, eligible or not, out of the drain.
   */
  lemma ListedUnlessEightyAhead(jobs: Table, window: seq<string>, id: string)
    requires id in QueuedBatch(jobs) && IsWindow(jobs, QueuedBatch(jobs), window, 80, QueueOrder)
    ensures |Ahead(jobs, id)| >= 80 ==> id !in window
    ensures |AheadOrTied(jobs, id)| < 80 ==> id in window
  {
    var listed := set k | k in window;
    DistinctSize(window, listed);
    QueueOrderIsTotal();
    if id in window {
      var i :| 0 <= i < |window| && window[i] == id;
      assert forall k | k in QueuedBatch(jobs) && k !in window :: QueueOrder(jobs[window[i]], jobs[k]);
      assert QueueOrder(jobs[id], jobs[id]);
      SubsetSize(Ahead(jobs, id), listed - {id});
    }
    if id !in window && |AheadOrTied(jobs, id)| < 80 {
      forall k | k in listed ensures k in AheadOrTied(jobs, id) {
        var i :| 0 <= i < |window| && window[i] == k;
        assert QueueOrder(jobs[window[i]], jobs[id]);
      }
      SubsetSize(listed, AheadOrTied(jobs, id));
      SubsetSize(listed + {id}, QueuedBatch(jobs));
    }
  }

  // ----- exactly who is listed ---------------------------------------------------------------------

  lemma LeastRow(jobs: Table, selected: set<string>, leq: (Job, Job) -> bool) returns (first: string)
    requires selected <= jobs.Keys && selected != {} && IsTotalPreorder(leq)
    ensures first in selected && forall id | id in selected :: leq(jobs[first], jobs[id])
  {
    first :| first in selected;
    assert leq(jobs[first], jobs[first]);
    if selected != {first} {
      var other := LeastRow(jobs, selected - {first}, leq);
      assert forall id | id in selected :: id == first || leq(jobs[other], jobs[id]);
      if !leq(jobs[first], jobs[other]) { first := other; }
    }
  }

  /** Two windows, the second of rows that come no earlier and as long as room is left. */
  ghost predicate Follow(
    jobs: Table, a: set<string>, b: set<string>, ids: seq<string>, more: seq<string>, limit: nat,
    leq: (Job, Job) -> bool)
  {
    && a <= jobs.Keys && b <= jobs.Keys && a !! b
    && (forall x, y | x in a && y in b :: leq(jobs[x], jobs[y]))
    && IsWindow(jobs, a, ids, limit, leq) && |ids| <= limit && IsWindow(jobs, b, more, limit - |ids|, leq)
  }

  lemma ConcatAt(ids: seq<string>, more: seq<string>)
    ensures forall i | 0 <= i < |ids + more| :: (ids + more)[i] == if i < |ids| then ids[i] else more[i - |ids|]
  {
  }

  lemma OutsideComesLater(
    jobs: Table, a: set<string>, b: set<string>, ids: seq<string>, more: seq<string>, limit: nat,
    leq: (Job, Job) -> bool, i: nat, id: string)
    requires Follow(jobs, a, b, ids, more, limit, leq)
    requires i < |ids + more| && id in a + b && id !in ids && id !in more
    ensures (ids + more)[i] in a + b && leq(jobs[(ids + more)[i]], jobs[id])
  {
    if |a| <= limit { WindowIsAll(jobs, a, ids, limit, leq); }
    if i < |ids| {
      assert ids[i] in a;
    } else {
      assert more[i - |ids|] in b && id in b;
    }
  }

  /** A window of rows, followed by a window of rows that come no earlier. */
  lemma WindowConcat(
    jobs: Table, a: set<string>, b: set<string>, ids: seq<string>, more: seq<string>, limit: nat,
    leq: (Job, Job) -> bool)
    requires Follow(jobs, a, b, ids, more, limit, leq)
    ensures IsWindow(jobs, a + b, ids + more, limit, leq)
  {
    var all := ids + more;
    ConcatAt(ids, more);
    assert |a + b| == |a| + |b|;
    forall i, id | 0 <= i < |all| && id in a + b && id !in all ensures leq(jobs[all[i]], jobs[id]) {
      OutsideComesLater(jobs, a, b, ids, more, limit, leq, i, id);
    }
  }

  /** Every selection has a window. */
  lemma WindowExists(jobs: Table, selected: set<string>, limit: nat, leq: (Job, Job) -> bool)
    returns (ids: seq<string>)
    requires selected <= jobs.Keys && IsTotalPreorder(leq)
    ensures IsWindow(jobs, selected, ids, limit, leq)
    decreases limit, 1
  {
    if limit == 0 || selected == {} {
      ids := [];
    } else {
      var first := LeastRow(jobs, selected, leq);
      ids := WindowFrom(jobs, selected, first, limit, leq);
    }
  }

  /** And one that begins with any row that none comes before. */
  lemma WindowFrom(jobs: Table, selected: set<string>, first: string, limit: nat, leq: (Job, Job) -> bool)
    returns (ids: seq<string>)
    requires selected <= jobs.Keys && IsTotalPreorder(leq) && limit > 0
    requires first in selected && forall id | id in selected :: leq(jobs[first], jobs[id])
    ensures IsWindow(jobs, selected, ids, limit, leq) && first in ids
    decreases limit, 0
  {
    var rest := WindowExists(jobs, selected - {first}, limit - 1, leq);
    WindowConcat(jobs, {first}, selected - {first}, [first], rest, limit, leq);
    assert {first} + (selected - {first}) == selected;
    ids := [first] + rest;
  }

  /** And one through a row that only few rows come before. */
  lemma WindowThrough(
    jobs: Table, before: set<string>, rest: set<string>, first: string, limit: nat, leq: (Job, Job) -> bool)
    returns (ids: seq<string>)
    requires before <= jobs.Keys && rest <= jobs.Keys && before !! rest && IsTotalPreorder(leq) && |before| < limit
    requires forall x, y | x in before && y in rest :: leq(jobs[x], jobs[y])
    requires first in rest && forall y | y in rest :: leq(jobs[first], jobs[y])
    ensures IsWindow(jobs, before + rest, ids, limit, leq) && first in ids
  {
    ids := WindowExists(jobs, before, limit, leq);
    var more := WindowFrom(jobs, rest, first, limit - |ids|, leq);
    WindowConcat(jobs, before, rest, ids, more, limit, leq);
    ids := ids + more;
  }

  /** With 80 others that come before it or tie with it, some listing leaves the job out. */
  lemma LeftOut(jobs: Table, id: string) returns (window: seq<string>)
    requires id in QueuedBatch(jobs) && |AheadOrTied(jobs, id)| >= 80
    ensures IsWindow(jobs, QueuedBatch(jobs), window, 80, QueueOrder) && id !in window
  {
    QueueOrderIsTotal();
    var before := AheadOrTied(jobs, id);
    window := WindowExists(jobs, before, 80, QueueOrder);
    assert QueueOrder(jobs[id], jobs[id]);
    WindowConcat(jobs, before, QueuedBatch(jobs) - before, window, [], 80, QueueOrder);
    assert before + (QueuedBatch(jobs) - before) == QueuedBatch(jobs) && window + [] == window;
  }

  lemma AheadComesFirst(jobs: Table, id: string)
    requires id in QueuedBatch(jobs)
    ensures var rest := QueuedBatch(jobs) - Ahead(jobs, id);
      && id in rest && (forall k | k in rest :: QueueOrder(jobs[id], jobs[k]))
      && forall a, k | a in Ahead(jobs, id) && k in rest :: QueueOrder(jobs[a], jobs[k])
  {
    QueueOrderIsTotal();
    assert QueueOrder(jobs[id], jobs[id]);
    forall a, k | a in Ahead(jobs, id) && k in QueuedBatch(jobs) - Ahead(jobs, id)
      ensures QueueOrder(jobs[a], jobs[k])
    {
      assert QueueOrder(jobs[a], jobs[id]) && QueueOrder(jobs[id], jobs[k]);
    }
  }

  /** With fewer than 80 strictly before it, some listing has the job. */
  lemma PutIn(jobs: Table, id: string) returns (window: seq<string>)
    requires id in QueuedBatch(jobs) && |Ahead(jobs, id)| < 80
    ensures IsWindow(jobs, QueuedBatch(jobs), window, 80, QueueOrder) && id in window
  {
    QueueOrderIsTotal();
    AheadComesFirst(jobs, id);
    var before, rest := Ahead(jobs, id), QueuedBatch(jobs) - Ahead(jobs, id);
    window := WindowThrough(jobs, before, rest, id, 80, QueueOrder);
    assert before + rest == QueuedBatch(jobs);
  }

  ghost predicate IsListing(jobs: Table, window: seq<string>) {
    IsWindow(jobs, QueuedBatch(jobs), window, 80, QueueOrder)
  }

  /**
   A queued job is in every listing exactly when fewer than 80 others come before it or
   tie with it, and in some listing exactly when fewer than 80 come strictly before it.
   */
  lemma ListedExactly(jobs: Table, id: string)
    requires id in QueuedBatch(jobs)
    ensures (forall window | IsListing(jobs, window) :: id in window) <==> |AheadOrTied(jobs, id)| < 80
    ensures (exists window :: IsListing(jobs, window) && id in window) <==> |Ahead(jobs, id)| < 80
  {
    forall window | IsListing(jobs, window)
      ensures |Ahead(jobs, id)| >= 80 ==> id !in window
      ensures |AheadOrTied(jobs, id)| < 80 ==> id in window
    {
      ListedUnlessEightyAhead(jobs, window, id);
    }
    if |AheadOrTied(jobs, id)| >= 80 {
      var window := LeftOut(jobs, id);
      assert IsListing(jobs, window);
    }
    if |Ahead(jobs, id)| < 80 {
      var window := PutIn(jobs, id);
      assert IsListing(jobs, window);
    }
  }

  // ----- a case of it ----------------------------------------------------------------------------

  function Repeat(c: char, n: nat): (s: string)
    ensures |s| == n && forall i | 0 <= i < n :: s[i] == c
  {
    if n == 0 then "" else Repeat(c, n - 1) + [c]
  }

  function Name(i: nat): string {
    Repeat('x', i)
  }

  /** A Dogecoin job without a Bitcoin job, and a Bitcoin job for a root that comes later in the order. */
  function Waiting(): Job {
    Job("doge", "batch", Repeat('a', 64), "n", "p", Queued, None, 0, 0, 0, 0, 0)
  }

  function Ready(): Job {
    Job("btc", "batch", Repeat('b', 64), "n", "p", Queued, None, 0, 0, 0, 0, 0)
  }

  function Crowd(n: nat): Table {
    if n == 0 then map[] else Crowd(n - 1)[Name(n - 1) := Waiting()]
  }

  lemma {:induction false} CrowdRows(n: nat)
    ensures |Crowd(n).Keys| == n
    ensures forall k | k in Crowd(n) :: |k| < n && k == Name(|k|) && Crowd(n)[k] == Waiting()
  {
    if n > 0 {
      CrowdRows(n - 1);
      assert Name(n - 1) !in Crowd(n - 1);
      assert Crowd(n).Keys == Crowd(n - 1).Keys + {Name(n - 1)};
    }
  }

  lemma {:induction false} CrowdOccurs(n: nat)
    ensures Reachable(ALONE, AnchorProtocol.State(Crowd(n), [], map[], map[], {}))
  {
    if n == 0 {
      assert Exec(ALONE, EMPTY, []) == Some(EMPTY);
    } else {
      CrowdOccurs(n - 1);
      CrowdRows(n - 1);
      ReachMore(ALONE, AnchorProtocol.State(Crowd(n - 1), [], map[], map[], {}), Insert(Name(n - 1), Waiting()));
    }
  }

  /** Eighty or more equal rows that must wait, and one that comes after them. */
  lemma CrowdComesFirst(jobs: Table, z: string, w: Job, window: seq<string>)
    requires z in QueuedBatch(jobs) && !QueueOrder(jobs[z], w) && |jobs.Keys - {z}| >= 80
    requires w.status == Queued && IsMirror(w) && !IsBatch(jobs[z], "btc", w.root)
    requires forall k | k in jobs && k != z :: jobs[k] == w
    requires IsWindow(jobs, QueuedBatch(jobs), window, 80, QueueOrder)
    ensures forall k | k in window :: HeldBack(jobs, k)
  {
    assert Ahead(jobs, z) >= jobs.Keys - {z};
    SubsetSize(jobs.Keys - {z}, Ahead(jobs, z));
    ListedUnlessEightyAhead(jobs, window, z);
    forall k | k in window ensures HeldBack(jobs, k) {
      assert k in QueuedBatch(jobs) && jobs[k] == w;
    }
  }

  /** The crowd and the job behind it occur. */
  lemma CrowdAndReady(n: nat) returns (s: State)
    ensures Reachable(ALONE, s) && IsIdle(s) && "z" !in Crowd(n) && s.jobs == Crowd(n)["z" := Ready()]
  {
    var before := AnchorProtocol.State(Crowd(n), [], map[], map[], {});
    CrowdOccurs(n);
    CrowdRows(n);
    assert "z" !in Crowd(n) by {
      assert |"z"| == 1 && "z"[0] != Name(1)[0];
    }
    ReachMore(ALONE, before, Insert("z", Ready()));
    s := Apply(before, Insert("z", Ready()));
  }

  /** Every listing of it holds only jobs that must wait. */
  lemma CrowdWaits(jobs: Table, n: nat, window: seq<string>)
    requires n >= 80 && "z" !in Crowd(n) && jobs == Crowd(n)["z" := Ready()] && IsListing(jobs, window)
    ensures forall k | k in window :: HeldBack(jobs, k)
  {
    CrowdRows(n);
    RootsInOrder();
    assert jobs.Keys - {"z"} == Crowd(n).Keys;
    CrowdComesFirst(jobs, "z", Waiting(), window);
  }

  /**
   Eighty or more mirrors that wait for Bitcoin jobs nobody has inserted, and one Bitcoin
   job that may be submitted: the store is reachable, and every listing of it holds only
   jobs that must wait. So the drain stops at once, and will every time.
   */
  lemma CrowdBlocksTheRest(n: nat) returns (s: State)
    requires n >= 80
    ensures Reachable(ALONE, s) && IsIdle(s) && "z" in s.jobs && Eligible(s.jobs, "z")
    ensures forall window | IsListing(s.jobs, window) :: forall k | k in window :: HeldBack(s.jobs, k)
  {
    s := CrowdAndReady(n);
    RootsInOrder();
    forall window | IsListing(s.jobs, window) ensures forall k | k in window :: HeldBack(s.jobs, k) {
      CrowdWaits(s.jobs, n, window);
    }
  }

  lemma RootsInOrder()
    ensures !QueueOrder(Ready(), Waiting()) && Ready().root != Waiting().root && Ready().root != ""
  {
    assert Waiting().root[0] == 'a' && Ready().root[0] == 'b';
  }

  // ----- in literals -----------------------------------------------------------------------------

  /** A root of 64 characters on a named network is well formed, and networks are told by how their names end. */
  lemma WellFormedTable(row: Job)
    ensures !IsMalformed(row.(network := "n", root := Repeat('a', 64)))
    ensures IsMalformed(row.(network := "n", root := Repeat('a', 63)))
    ensures IsMalformed(row.(network := "n", root := Repeat('a', 65)))
    ensures IsMalformed(row.(network := "", root := Repeat('a', 64)))
    ensures OnMainnet(row.(network := "bitcoin-mainnet")) && !OnMainnet(row.(network := "bitcoin-testnet"))
    ensures OnMainnet(row.(network := "-mainnet")) && !OnMainnet(row.(network := "mainnet"))
  {
    assert "bitcoin-mainnet"[7..] == "-mainnet" && "-mainnet"[0..] == "-mainnet";
    assert "bitcoin-testnet"[7..][1] == 't' && "-mainnet"[1] == 'm';
  }

  /** The batch jobs that are queued, and those that a poll looks at. */
  lemma BatchTable(jobs: Table, id: string)
    ensures id in QueuedBatch(jobs) <==> id in jobs && jobs[id].anchorType == "batch" && jobs[id].status == Queued
    ensures id in PendingBatch(jobs) <==>
      id in jobs && jobs[id].anchorType == "batch" && jobs[id].status in [Building, Broadcast, Submitted]
  {
  }

  /** A job is judged by its own report and the configured depths, and not at all without a report. */
  lemma OutlookMeans(o: Outlook, id: string, job: Job)
    ensures id in o.reports ==> (o.Deep(id, job) <==> IsDeep(job, o.reports[id], o.btcConfig, o.dogeConfig))
    ensures id !in o.reports ==> !o.Deep(id, job)
  {
  }

  /** Roots first, then chains, then the time of queueing; and oldest updates first. */
  lemma OrderTable(row: Job)
    ensures var a := row.(root := "a", chain := "btc", queuedAt := 1, updatedAt := 2);
      && QueueOrder(a, a.(root := "b", queuedAt := 0)) && !QueueOrder(a.(root := "b", queuedAt := 0), a)
      && QueueOrder(a, a.(chain := "doge", queuedAt := 0)) && !QueueOrder(a.(chain := "doge", queuedAt := 0), a)
      && QueueOrder(a, a.(queuedAt := 2)) && !QueueOrder(a.(queuedAt := 2), a) && QueueOrder(a, a)
      && OldestUpdateFirst(a, a.(updatedAt := 3)) && !OldestUpdateFirst(a.(updatedAt := 3), a)
  {
    assert Before("a", "b") && !Before("b", "a") && Before("btc", "doge") && !Before("doge", "btc");
    BeforeIsIrreflexive("a");
    BeforeIsIrreflexive("btc");
  }
}
