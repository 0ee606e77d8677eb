/**
 The aggregate phase of a root's two jobs (backend/anchoring/dual_chain_status.py)
 and which phases the anchor protocol can show.
 */
module DualChainStatus {
  import opened Wrappers
  import opened PyText
  import opened Collections
  import opened AnchorProtocol

  datatype Phase =
    | FullyAnchored
    | BitcoinConfirmedMirrorNotEnqueued
    | PhaseQueued
    | BitcoinSubmittedMirrorNotEnqueued
    | CanonicalFailedRetryable
    | PartialOrMixed
    | BitcoinConfirmedDogecoinQueued
    | BitcoinConfirmedMirrorFailedRetryable
    | BitcoinConfirmedDogecoinPending
    | DogecoinConfirmedBitcoinPending
    | BitcoinSubmittedDogecoinQueued
    | BitcoinSubmittedDogecoinBlocked
    | DogecoinSubmittedBitcoinNotSubmitted
    | BothSubmittedUnconfirmed
    | MirrorFailedRetryable
    | MirrorFailedCanonicalPending

  /** `_submitted`; None is the status "missing" */
  predicate IsSubmitted(st: Option<Status>) {
    st in {Some(Submitted), Some(Broadcast), Some(Building), Some(Confirmed)}
  }

  predicate HasFailed(st: Option<Status>) {
    st.Some? && IsFailed(st.value)
  }

  /** `dual_chain_aggregate_phase`, branch by branch */
  function AggregatePhase(bs: Option<Status>, ds: Option<Status>): Phase {
    if bs == Some(Confirmed) && ds == Some(Confirmed) then FullyAnchored
    else if ds == None then
      if bs == Some(Confirmed) then BitcoinConfirmedMirrorNotEnqueued
      else if bs == Some(Queued) then PhaseQueued
      else if IsSubmitted(bs) then BitcoinSubmittedMirrorNotEnqueued
      else if HasFailed(bs) then CanonicalFailedRetryable
      else PartialOrMixed
    else if bs == Some(Confirmed) && ds == Some(Queued) then BitcoinConfirmedDogecoinQueued
    else if bs == Some(Confirmed) && HasFailed(ds) then BitcoinConfirmedMirrorFailedRetryable
    else if bs == Some(Confirmed) && IsSubmitted(ds) && ds != Some(Confirmed) then BitcoinConfirmedDogecoinPending
    else if ds == Some(Confirmed) && IsSubmitted(bs) && bs != Some(Confirmed) then DogecoinConfirmedBitcoinPending
    else if IsSubmitted(bs) && ds == Some(Queued) then BitcoinSubmittedDogecoinQueued
    else if IsSubmitted(bs) && !IsSubmitted(ds) && ds != Some(Queued) then BitcoinSubmittedDogecoinBlocked
    else if IsSubmitted(ds) && !IsSubmitted(bs) then DogecoinSubmittedBitcoinNotSubmitted
    else if IsSubmitted(bs) && IsSubmitted(ds) then BothSubmittedUnconfirmed
    else if HasFailed(bs) && ds == Some(Queued) then CanonicalFailedRetryable
    else if HasFailed(ds) && IsSubmitted(bs) then MirrorFailedRetryable
    else if bs == Some(Queued) && ds == Some(Queued) then PhaseQueued
    else if bs == Some(Queued) && HasFailed(ds) then MirrorFailedCanonicalPending
    else PartialOrMixed
  }

  /** The statuses as far as the phase tells them apart. */
  datatype Kind = Missing | Waiting | Failing | Pending | Done

  function KindOf(st: Option<Status>): Kind {
    match st
    case None => Missing
    case Some(Queued) => Waiting
    case Some(Confirmed) => Done
    case Some(s) => if s in {FailedRetryable, FailedTerminal, Failed} then Failing else Pending
  }

  /** The phase for each of the 25 pairs of kinds. */
  lemma PhaseTable(bs: Option<Status>, ds: Option<Status>)
    ensures AggregatePhase(bs, ds) ==
      match (KindOf(bs), KindOf(ds))
      case (Missing, Missing) => PartialOrMixed
      case (Waiting, Missing) => PhaseQueued
      case (Failing, Missing) => CanonicalFailedRetryable
      case (Pending, Missing) => BitcoinSubmittedMirrorNotEnqueued
      case (Done, Missing) => BitcoinConfirmedMirrorNotEnqueued
      case (Missing, Waiting) => PartialOrMixed
      case (Waiting, Waiting) => PhaseQueued
      case (Failing, Waiting) => CanonicalFailedRetryable
      case (Pending, Waiting) => BitcoinSubmittedDogecoinQueued
      case (Done, Waiting) => BitcoinConfirmedDogecoinQueued
      case (Missing, Failing) => PartialOrMixed
      case (Waiting, Failing) => MirrorFailedCanonicalPending
      case (Failing, Failing) => PartialOrMixed
      case (Pending, Failing) => BitcoinSubmittedDogecoinBlocked
      case (Done, Failing) => BitcoinConfirmedMirrorFailedRetryable
      case (Missing, Pending) => DogecoinSubmittedBitcoinNotSubmitted
      case (Waiting, Pending) => DogecoinSubmittedBitcoinNotSubmitted
      case (Failing, Pending) => DogecoinSubmittedBitcoinNotSubmitted
      case (Pending, Pending) => BothSubmittedUnconfirmed
      case (Done, Pending) => BitcoinConfirmedDogecoinPending
      case (Missing, Done) => DogecoinSubmittedBitcoinNotSubmitted
      case (Waiting, Done) => DogecoinSubmittedBitcoinNotSubmitted
      case (Failing, Done) => DogecoinSubmittedBitcoinNotSubmitted
      case (Pending, Done) => DogecoinConfirmedBitcoinPending
      case (Done, Done) => FullyAnchored
  {
  }

  /** `next((j for j in jobs if j.chain == chain), None)`, as a status */
  function FirstStatus(rows: seq<Job>, chain: string): Option<Status> {
    if rows == [] then None
    else if rows[0].chain == chain then Some(rows[0].status)
    else FirstStatus(rows[1..], chain)
  }

  /** `dual_chain_aggregate_from_jobs` */
  function AggregateFromJobs(rows: seq<Job>): Phase {
    AggregatePhase(FirstStatus(rows, "btc"), FirstStatus(rows, "doge"))
  }

  /** The rows of a root's batch jobs, in some order. */
  ghost predicate IsListing(jobs: Table, root: string, ids: seq<string>) {
    && (forall i, k | 0 <= i < k < |ids| :: ids[i] != ids[k])
    && forall id :: id in ids <==> id in jobs && jobs[id].anchorType == "batch" && jobs[id].root == root
  }

  /** `ORDER BY chain ASC, created_at ASC` */
  predicate InQueryOrder(jobs: Table, ids: seq<string>)
    requires forall id | id in ids :: id in jobs
  {
    forall i, k | 0 <= i < k < |ids| ::
      var a, b := jobs[ids[i]], jobs[ids[k]];
      Before(a.chain, b.chain) || (a.chain == b.chain && a.createdAt <= b.createdAt)
  }

  function Rows(jobs: Table, ids: seq<string>): seq<Job>
    requires forall id | id in ids :: id in jobs
  {
    seq(|ids|, i requires 0 <= i < |ids| => jobs[ids[i]])
  }

  /** The only batch job for this root and chain. */
  ghost predicate IsOnly(jobs: Table, id: string, chain: string, root: string) {
    forall k :: k in jobs && IsBatch(jobs[k], chain, root) <==> k == id
  }

  /** The first listed job of a chain. */
  function FirstJob(jobs: Table, ids: seq<string>, chain: string): Option<string>
    requires forall id | id in ids :: id in jobs
  {
    if ids == [] then None
    else if jobs[ids[0]].chain == chain then Some(ids[0])
    else FirstJob(jobs, ids[1..], chain)
  }

  /** The aggregate reads the statuses of those. */
  lemma {:induction false} FirstJobStatus(jobs: Table, ids: seq<string>, chain: string)
    requires forall id | id in ids :: id in jobs
    ensures var first := FirstJob(jobs, ids, chain);
      && (first.Some? ==> first.value in ids && jobs[first.value].chain == chain)
      && (first.None? <==> forall id | id in ids :: jobs[id].chain != chain)
      && FirstStatus(Rows(jobs, ids), chain) == (if first.Some? then Some(jobs[first.value].status) else None)
  {
    var rows := Rows(jobs, ids);
    if ids != [] {
      assert rows[0].chain == jobs[ids[0]].chain && rows[1..] == Rows(jobs, ids[1..]);
      FirstJobStatus(jobs, ids[1..], chain);
      assert forall id :: id in ids <==> id == ids[0] || id in ids[1..];
    }
  }

  /** The phases that a root with both jobs can show. */
  const POSSIBLE: set<Phase> := {
    PhaseQueued, CanonicalFailedRetryable, BitcoinSubmittedDogecoinQueued, BitcoinConfirmedDogecoinQueued,
    BitcoinSubmittedDogecoinBlocked, BitcoinConfirmedMirrorFailedRetryable, BothSubmittedUnconfirmed,
    BitcoinConfirmedDogecoinPending, DogecoinConfirmedBitcoinPending, FullyAnchored
  }

  /** Both jobs of a root, one row each, and the listing that the aggregate reads. */
  ghost predicate IsPair(s: State, root: string, b: string, d: string, ids: seq<string>) {
    && IsOnly(s.jobs, b, "btc", root) && IsOnly(s.jobs, d, "doge", root)
    && IsListing(s.jobs, root, ids)
  }

  lemma PairPhase(s: State, root: string, b: string, d: string, ids: seq<string>)
    requires IsPair(s, root, b, d, ids)
    ensures b in s.jobs && d in s.jobs
    ensures AggregateFromJobs(Rows(s.jobs, ids)) == AggregatePhase(Some(s.jobs[b].status), Some(s.jobs[d].status))
  {
    assert b in ids && d in ids;
    FirstJobStatus(s.jobs, ids, "btc");
    FirstJobStatus(s.jobs, ids, "doge");
  }

  /** On every reachable state the phase is one of ten, and `fully_anchored` means both are confirmed. */
  lemma ReachablePhase(u: Users, s: State, root: string, b: string, d: string, ids: seq<string>)
    requires Exclusive(u) && Reachable(u, s) && IsPair(s, root, b, d, ids)
    ensures b in s.jobs && d in s.jobs
    ensures AggregateFromJobs(Rows(s.jobs, ids)) in POSSIBLE
    ensures AggregateFromJobs(Rows(s.jobs, ids)) == FullyAnchored
      <==> s.jobs[b].status == Confirmed && s.jobs[d].status == Confirmed
  {
    PairPhase(s, root, b, d, ids);
    BroadcastAtMostOnce(u, s);
    assert RowOk(s.jobs[b]) && RowOk(s.jobs[d]);
    if s.jobs[d].status != Queued {
      assert Exec(u, s, []).Some?;
      MirrorNeverAhead(u, s, d, []);
      var k :| OnChain(s.jobs, k) && IsBatch(s.jobs[k], "btc", root);
      assert k == b;
    }
  }

  /** No later event leaves `fully_anchored`, as long as the first listed job of each chain stays first. */
  lemma FullyAnchoredIsFinal(u: Users, s: State, es: seq<Event>, ids: seq<string>, ids': seq<string>)
    requires Exclusive(u) && Reachable(u, s) && Exec(u, s, es).Some?
    requires (forall id | id in ids :: id in s.jobs) && forall id | id in ids' :: id in Exec(u, s, es).value.jobs
    requires FirstJob(Exec(u, s, es).value.jobs, ids', "btc") == FirstJob(s.jobs, ids, "btc")
    requires FirstJob(Exec(u, s, es).value.jobs, ids', "doge") == FirstJob(s.jobs, ids, "doge")
    requires AggregateFromJobs(Rows(s.jobs, ids)) == FullyAnchored
    ensures AggregateFromJobs(Rows(Exec(u, s, es).value.jobs, ids')) == FullyAnchored
  {
    var t := Exec(u, s, es).value;
    NothingIsUndone(u, s, es);
    FirstStaysConfirmed(s.jobs, t.jobs, ids, ids', "btc");
    FirstStaysConfirmed(s.jobs, t.jobs, ids, ids', "doge");
  }

  lemma FirstStaysConfirmed(jobs: Table, jobs': Table, ids: seq<string>, ids': seq<string>, chain: string)
    requires (forall id | id in ids :: id in jobs) && forall id | id in ids' :: id in jobs'
    requires forall id | id in jobs :: id in jobs' && RowExtends(jobs[id], jobs'[id])
    requires FirstJob(jobs', ids', chain) == FirstJob(jobs, ids, chain)
    requires FirstStatus(Rows(jobs, ids), chain) == Some(Confirmed)
    ensures FirstStatus(Rows(jobs', ids'), chain) == Some(Confirmed)
  {
    FirstJobStatus(jobs, ids, chain);
    FirstJobStatus(jobs', ids', chain);
    assert RowExtends(jobs[FirstJob(jobs, ids, chain).value], jobs'[FirstJob(jobs, ids, chain).value]);
  }

  /** The job of a root and chain that was created before all others. */
  predicate IsEarliest(jobs: Table, id: string, chain: string, root: string) {
    && id in jobs && IsBatch(jobs[id], chain, root)
    && forall k | k in jobs && k != id && IsBatch(jobs[k], chain, root) :: jobs[id].createdAt < jobs[k].createdAt
  }

  lemma EarliestIsFirst(jobs: Table, root: string, ids: seq<string>, chain: string, id: string)
    requires IsListing(jobs, root, ids) && InQueryOrder(jobs, ids) && IsEarliest(jobs, id, chain, root)
    ensures FirstJob(jobs, ids, chain) == Some(id)
  {
    BeforeIsIrreflexive(chain);
    var i :| 0 <= i < |ids| && ids[i] == id;
    FirstOfChain(jobs, ids, chain, i);
  }

  lemma {:induction false} FirstOfChain(jobs: Table, ids: seq<string>, chain: string, i: nat)
    requires (forall id | id in ids :: id in jobs) && i < |ids| && jobs[ids[i]].chain == chain
    requires forall k | 0 <= k < i :: jobs[ids[k]].chain != chain
    ensures FirstJob(jobs, ids, chain) == Some(ids[i])
  {
    if i > 0 {
      FirstOfChain(jobs, ids[1..], chain, i - 1);
    }
  }

  /**
   So it is final on every run whose new jobs for the root are created later, since those
   do not move the first rows of the query.
   */
  lemma LaterJobsChangeNothing(
    u: Users, s: State, es: seq<Event>, root: string, b: string, d: string, ids: seq<string>, ids': seq<string>)
    requires Exclusive(u) && Reachable(u, s) && Exec(u, s, es).Some?
    requires IsListing(s.jobs, root, ids) && InQueryOrder(s.jobs, ids)
    requires var t := Exec(u, s, es).value; IsListing(t.jobs, root, ids') && InQueryOrder(t.jobs, ids')
    requires IsEarliest(s.jobs, b, "btc", root) && IsEarliest(s.jobs, d, "doge", root)
    requires var t := Exec(u, s, es).value;
      forall k | k in t.jobs && k !in s.jobs && t.jobs[k].root == root ::
        t.jobs[k].createdAt > Max(s.jobs[b].createdAt, s.jobs[d].createdAt)
    requires AggregateFromJobs(Rows(s.jobs, ids)) == FullyAnchored
    ensures AggregateFromJobs(Rows(Exec(u, s, es).value.jobs, ids')) == FullyAnchored
  {
    var t := Exec(u, s, es).value;
    NothingIsUndone(u, s, es);
    EarliestStays(s.jobs, t.jobs, b, "btc", root);
    EarliestStays(s.jobs, t.jobs, d, "doge", root);
    EarliestIsFirst(s.jobs, root, ids, "btc", b);
    EarliestIsFirst(s.jobs, root, ids, "doge", d);
    EarliestIsFirst(t.jobs, root, ids', "btc", b);
    EarliestIsFirst(t.jobs, root, ids', "doge", d);
    FullyAnchoredIsFinal(u, s, es, ids, ids');
  }

  lemma EarliestStays(jobs: Table, jobs': Table, id: string, chain: string, root: string)
    requires IsEarliest(jobs, id, chain, root)
    requires forall k | k in jobs :: k in jobs' && RowExtends(jobs[k], jobs'[k])
    requires forall k | k in jobs' && k !in jobs && jobs'[k].root == root :: jobs'[k].createdAt > jobs[id].createdAt
    ensures IsEarliest(jobs', id, chain, root)
  {
    assert RowExtends(jobs[id], jobs'[id]);
  }

  /** The label `mirror_failed_retryable` is dead: an earlier branch takes all its cases. */
  lemma MirrorFailedLabelIsDead(bs: Option<Status>, ds: Option<Status>)
    ensures AggregatePhase(bs, ds) != MirrorFailedRetryable
  {
    assert HasFailed(ds) ==> !IsSubmitted(ds);
  }

  // ----- every possible phase occurs -----------------------------------------------------

  /** The drainer takes the job and the chain accepts it. */
  lemma SubmitJob(u: Users, s: State, id: string) returns (t: State)
    requires u.drainers >= 1 && Reachable(u, s) && s.picked == map[] && Eligible(s.jobs, id)
    ensures Reachable(u, t) && t.picked == map[]
    ensures t.jobs == s.jobs[id := SubmittedRow(s.jobs[id], Txid(), 0)]
  {
    ReachMore(u, s, Pick(0, id));
    t := Apply(s, Pick(0, id));
    ReachMore(u, t, Submit(0, Txid(), 0));
    t := Apply(t, Submit(0, Txid(), 0));
  }

  /** The drainer takes the job and the submission fails. */
  lemma FailJob(u: Users, s: State, id: string) returns (t: State)
    requires u.drainers >= 1 && Reachable(u, s) && s.picked == map[] && Eligible(s.jobs, id)
    ensures Reachable(u, t) && t.picked == map[]
    ensures t.jobs == s.jobs[id := s.jobs[id].(status := FailedRetryable, updatedAt := 0)]
  {
    var kind := "retryable";
    assert Lower(kind) == kind;
    ReachMore(u, s, Pick(0, id));
    t := Apply(s, Pick(0, id));
    ReachMore(u, t, Fail(0, kind, 0));
    t := Apply(t, Fail(0, kind, 0));
  }

  /** The poll sees the transaction buried deep enough. */
  lemma ConfirmJob(u: Users, s: State, id: string) returns (t: State)
    requires Reachable(u, s) && s.picked == map[]
    requires id in s.jobs && s.jobs[id].status == Submitted && s.jobs[id].txid == Some(Strip(Txid()))
    ensures Reachable(u, t) && t.picked == map[]
    ensures t.jobs == s.jobs[id := ConfirmedRow(s.jobs[id], 0)]
  {
    TxidIsHex();
    ReachMore(u, s, Observe(id));
    t := Apply(s, Observe(id));
    ReachMore(u, t, Confirm(id, 0));
    t := Apply(t, Confirm(id, 0));
  }

  function Txid(): string {
    seq(64, i => 'a')
  }

  lemma TxidIsHex()
    ensures IsHex64(Lower(Strip(Txid())))
  {
    StripFixes(Txid());
  }

  const BITCOIN_ROW := Job("btc", "batch", "r", "n", "p", Queued, None, 0, 0, 0, 0, 0)
  const DOGECOIN_ROW := Job("doge", "batch", "r", "n", "p", Queued, None, 0, 0, 0, 0, 0)

  lemma BothQueued(u: Users) returns (s: State)
    ensures Reachable(u, s) && s.picked == map[] && s.jobs == map["b" := BITCOIN_ROW, "d" := DOGECOIN_ROW]
  {
    assert Exec(u, EMPTY, []) == Some(EMPTY);
    s := EMPTY;
    ReachMore(u, s, Insert("b", BITCOIN_ROW));
    s := Apply(s, Insert("b", BITCOIN_ROW));
    ReachMore(u, s, Insert("d", DOGECOIN_ROW));
    s := Apply(s, Insert("d", DOGECOIN_ROW));
  }

  ghost predicate Shows(u: Users, p: Phase) {
    exists s, root, b, d, ids ::
      Reachable(u, s) && IsPair(s, root, b, d, ids) && AggregateFromJobs(Rows(s.jobs, ids)) == p
  }

  /** The two sample jobs with these rows. */
  ghost predicate AreSample(s: State) {
    && s.jobs.Keys == {"b", "d"}
    && IsBatch(s.jobs["b"], "btc", "r") && IsBatch(s.jobs["d"], "doge", "r")
  }

  lemma SampleShows(u: Users, s: State)
    requires Reachable(u, s) && AreSample(s)
    ensures Shows(u, AggregatePhase(Some(s.jobs["b"].status), Some(s.jobs["d"].status)))
  {
    assert IsPair(s, "r", "b", "d", ["b", "d"]);
    PairPhase(s, "r", "b", "d", ["b", "d"]);
  }

  /** A reachable state of the two sample jobs with these statuses and nobody at work. */
  ghost predicate At(u: Users, s: State, bs: Status, ds: Status) {
    && Reachable(u, s) && s.picked == map[] && AreSample(s)
    && s.jobs["b"].status == bs && s.jobs["d"].status == ds
    && (bs == Submitted ==> s.jobs["b"].txid == Some(Strip(Txid())))
    && (ds == Submitted ==> s.jobs["d"].txid == Some(Strip(Txid())))
  }

  function Rank(st: Status): nat {
    if st == Queued then 0 else if st == Confirmed then 2 else 1
  }

  /** The drain and the poll can bring the two jobs to every pair of statuses with the mirror behind. */
  lemma {:induction false} PairOccurs(u: Users, bs: Status, ds: Status) returns (s: State)
    requires u.drainers >= 1
    requires bs in {Queued, FailedRetryable, Submitted, Confirmed}
    requires ds in {Queued, FailedRetryable, Submitted, Confirmed}
    requires ds != Queued ==> bs in {Submitted, Confirmed}
    ensures At(u, s, bs, ds)
    decreases Rank(ds), Rank(bs)
  {
    if ds == Confirmed {
      s := PairOccurs(u, bs, Submitted);
      s := ConfirmJob(u, s, "d");
    } else if ds != Queued {
      s := PairOccurs(u, bs, Queued);
      assert IsLatest(s.jobs, "b", "btc", "r") && Unblocks(s.jobs["b"].status);
      if ds == Submitted { s := SubmitJob(u, s, "d"); } else { s := FailJob(u, s, "d"); }
    } else if bs == Confirmed {
      s := PairOccurs(u, Submitted, Queued);
      s := ConfirmJob(u, s, "b");
    } else if bs != Queued {
      s := PairOccurs(u, Queued, Queued);
      if bs == Submitted { s := SubmitJob(u, s, "b"); } else { s := FailJob(u, s, "b"); }
    } else {
      s := BothQueued(u);
    }
  }

  /** Two statuses that show a phase. */
  function SamplePair(p: Phase): (r: (Status, Status))
    requires p in POSSIBLE
    ensures AggregatePhase(Some(r.0), Some(r.1)) == p
    ensures r.1 in {Queued, FailedRetryable, Submitted, Confirmed}
    ensures r.0 in {Submitted, Confirmed} || (r.1 == Queued && r.0 in {Queued, FailedRetryable})
  {
    match p
    case PhaseQueued => (Queued, Queued)
    case CanonicalFailedRetryable => (FailedRetryable, Queued)
    case BitcoinSubmittedDogecoinQueued => (Submitted, Queued)
    case BitcoinConfirmedDogecoinQueued => (Confirmed, Queued)
    case BitcoinSubmittedDogecoinBlocked => (Submitted, FailedRetryable)
    case BitcoinConfirmedMirrorFailedRetryable => (Confirmed, FailedRetryable)
    case BothSubmittedUnconfirmed => (Submitted, Submitted)
    case BitcoinConfirmedDogecoinPending => (Confirmed, Submitted)
    case DogecoinConfirmedBitcoinPending => (Submitted, Confirmed)
    case _ => (Confirmed, Confirmed)
  }

  /** Each of the ten phases is shown by some run. */
  lemma EveryPhaseOccurs(u: Users, p: Phase)
    requires u.drainers >= 1 && p in POSSIBLE
    ensures Shows(u, p)
  {
    var (bs, ds) := SamplePair(p);
    var s := PairOccurs(u, bs, ds);
    SampleShows(u, s);
  }

  /** So the phases that occur are exactly these ten. */
  lemma PhasesExactly(u: Users, p: Phase)
    requires Exclusive(u) && u.drainers == 1
    ensures Shows(u, p) <==> p in POSSIBLE
  {
    if Shows(u, p) {
      var s, root, b, d, ids :|
        Reachable(u, s) && IsPair(s, root, b, d, ids) && AggregateFromJobs(Rows(s.jobs, ids)) == p;
      ReachablePhase(u, s, root, b, d, ids);
    } else {
      if p in POSSIBLE { EveryPhaseOccurs(u, p); }
    }
  }

  // ----- more than one job for a root and chain ----------------------------------------------

  lemma PossiblePair(bs: Status, ds: Status)
    requires bs in {Queued, Submitted, Confirmed, FailedRetryable, FailedTerminal, Failed}
    requires ds in {Queued, Submitted, Confirmed, FailedRetryable, FailedTerminal, Failed}
    ensures AggregatePhase(Some(bs), Some(ds)) in POSSIBLE <==> bs in {Submitted, Confirmed} || ds == Queued
  {
  }

  /**
   With any number of jobs for a root, the phase is one of the ten exactly when the
   Bitcoin job that the listing has first is on chain, or the Dogecoin job that it has
   first is still queued.
   */
  lemma PossibleExactly(u: Users, s: State, root: string, ids: seq<string>)
    requires Exclusive(u) && Reachable(u, s) && IsListing(s.jobs, root, ids)
    requires FirstStatus(Rows(s.jobs, ids), "btc").Some? && FirstStatus(Rows(s.jobs, ids), "doge").Some?
    ensures var rows := Rows(s.jobs, ids);
      AggregateFromJobs(rows) in POSSIBLE <==>
        FirstStatus(rows, "btc") in {Some(Submitted), Some(Confirmed)} || FirstStatus(rows, "doge") == Some(Queued)
  {
    BroadcastAtMostOnce(u, s);
    FirstJobStatus(s.jobs, ids, "btc");
    FirstJobStatus(s.jobs, ids, "doge");
    var b, d := FirstJob(s.jobs, ids, "btc").value, FirstJob(s.jobs, ids, "doge").value;
    assert RowOk(s.jobs[b]) && RowOk(s.jobs[d]);
    PossiblePair(s.jobs[b].status, s.jobs[d].status);
  }

  /** A failed Bitcoin job, a newer one for the same root that was submitted, and the mirror. */
  lemma NewerJobSubmitted(u: Users) returns (s: State)
    requires u.drainers >= 1
    ensures Eligible(s.jobs, "d")
    ensures Reachable(u, s) && s.picked == map[] && s.jobs.Keys == {"b", "c", "d"}
    ensures IsBatch(s.jobs["b"], "btc", "r") && s.jobs["b"].status == FailedRetryable && s.jobs["b"].createdAt == 0
    ensures IsBatch(s.jobs["c"], "btc", "r") && s.jobs["c"].status == Submitted && s.jobs["c"].createdAt == 1
    ensures IsBatch(s.jobs["d"], "doge", "r") && s.jobs["d"].status == Queued
  {
    s := BothQueued(u);
    s := FailJob(u, s, "b");
    var newer := BITCOIN_ROW.(createdAt := 1, queuedAt := 1, updatedAt := 1);
    ReachMore(u, s, Insert("c", newer));
    s := Apply(s, Insert("c", newer));
    s := SubmitJob(u, s, "c");
    NewerUnblocks(s.jobs);
  }

  lemma NewerUnblocks(jobs: Table)
    requires jobs.Keys == {"b", "c", "d"} && jobs["d"].status == Queued && jobs["c"].status == Submitted
    requires IsBatch(jobs["b"], "btc", "r") && IsBatch(jobs["c"], "btc", "r") && IsBatch(jobs["d"], "doge", "r")
    requires jobs["b"].createdAt <= jobs["c"].createdAt
    ensures Eligible(jobs, "d")
  {
    assert IsLatest(jobs, "c", "btc", "r") && Unblocks(jobs["c"].status);
  }

  /** Then the mirror is submitted as well. */
  lemma MirrorSubmitted(u: Users) returns (t: State)
    requires u.drainers >= 1
    ensures Reachable(u, t) && t.jobs.Keys == {"b", "c", "d"}
    ensures IsBatch(t.jobs["b"], "btc", "r") && t.jobs["b"].status == FailedRetryable
    ensures IsBatch(t.jobs["c"], "btc", "r") && t.jobs["b"].createdAt <= t.jobs["c"].createdAt
    ensures IsBatch(t.jobs["d"], "doge", "r") && t.jobs["d"].status == Submitted
  {
    var s := NewerJobSubmitted(u);
    t := SubmitJob(u, s, "d");
  }

  /**
   One job per root and chain is needed: when a failed Bitcoin job is followed by a
   second one for the same root, the drain looks at the newer and the aggregate at
   the older, and the phase says that Dogecoin went first.
   */
  lemma DuplicateJobsMislead(u: Users) returns (t: State, ids: seq<string>)
    requires u.drainers >= 1
    ensures Reachable(u, t) && IsListing(t.jobs, "r", ids) && InQueryOrder(t.jobs, ids)
    ensures AggregateFromJobs(Rows(t.jobs, ids)) == DogecoinSubmittedBitcoinNotSubmitted
  {
    t := MirrorSubmitted(u);
    ids := ["b", "c", "d"];
    ThreeRows(t.jobs);
  }

  lemma ThreeRows(jobs: Table)
    requires jobs.Keys == {"b", "c", "d"}
    requires IsBatch(jobs["b"], "btc", "r") && IsBatch(jobs["c"], "btc", "r") && IsBatch(jobs["d"], "doge", "r")
    requires jobs["b"].createdAt <= jobs["c"].createdAt
    ensures IsListing(jobs, "r", ["b", "c", "d"]) && InQueryOrder(jobs, ["b", "c", "d"])
    ensures AggregateFromJobs(Rows(jobs, ["b", "c", "d"]))
      == AggregatePhase(Some(jobs["b"].status), Some(jobs["d"].status))
  {
    var rows := Rows(jobs, ["b", "c", "d"]);
    assert Before("btc", "doge");
    assert FirstStatus(rows, "doge") == FirstStatus(rows[1..], "doge") == FirstStatus(rows[1..][1..], "doge");
    assert rows[1..][1..][0] == rows[2];
    assert forall id :: id in ["b", "c", "d"] <==> id in {"b", "c", "d"};
  }
}
