/**
 The dual-chain anchor jobs as a state machine (backend/anchoring). A state is
 the job table together with what its users are in the middle of: drainers that
 have picked a job, operators that have read a job to retry, and jobs that a
 poll has seen confirmed on chain. Every event is one atomic table access.
 */
module AnchorProtocol {
  import opened Wrappers
  import opened PyText

  datatype Status =
    | Queued | Building | Broadcast | Submitted | Confirmed
    | FailedRetryable | FailedTerminal | Failed

  datatype Job = Job(
    chain: string, anchorType: string, root: string, network: string, provider: string,
    status: Status, txid: Option<string>, attempts: nat, confirmations: nat,
    createdAt: int, queuedAt: int, updatedAt: int)

  type Table = map<string, Job>

  // ----- rows --------------------------------------------------------------------------

  /** `_normalize_chain` */
  function NormalizeChain(chain: string): string {
    var c := Lower(Strip(chain));
    if c in ["bitcoin", "btc"] then "btc"
    else if c in ["dogecoin", "doge"] then "doge"
    else c
  }

  /** `_failure_status` */
  function FailureStatus(kind: string): Status {
    if Contains(Lower(kind), "retryable") then FailedRetryable
    else if Contains(Lower(kind), "terminal") then FailedTerminal
    else Failed
  }

  function NewRow(chain: string, anchorType: string, root: string, network: string, provider: string, now: int): Job {
    Job(
      NormalizeChain(chain), Lower(Strip(if anchorType == "" then "batch" else anchorType)), Lower(Strip(root)),
      Strip(network), Strip(provider), Queued, None, 0, 0, now, now, now)
  }

  function SubmittedRow(j: Job, txid: string, now: int): Job {
    j.(status := Submitted, txid := Some(Strip(txid)), updatedAt := now)
  }

  function FailedRow(j: Job, kind: string, now: int): Job {
    j.(status := FailureStatus(kind), updatedAt := now)
  }

  function ConfirmedRow(j: Job, now: int): Job {
    j.(status := Confirmed, confirmations := 100, updatedAt := now)
  }

  function RequeuedRow(j: Job, now: int): Job {
    j.(status := Queued, attempts := j.attempts + 1, txid := None, updatedAt := now)
  }

  // ----- queries -----------------------------------------------------------------------

  predicate IsBatch(j: Job, chain: string, root: string) {
    j.anchorType == "batch" && j.chain == chain && j.root == root
  }

  predicate IsFailed(st: Status) {
    st in {FailedRetryable, FailedTerminal, Failed}
  }

  predicate IsPending(st: Status) {
    st in {Submitted, Broadcast, Building}
  }

  /** A row the query by root and chain may return: one with the latest creation time. */
  predicate IsLatest(jobs: Table, id: string, chain: string, root: string) {
    && id in jobs && IsBatch(jobs[id], chain, root)
    && forall k | k in jobs :: IsBatch(jobs[k], chain, root) ==> jobs[k].createdAt <= jobs[id].createdAt
  }

  /** The Bitcoin job lets its mirror go ahead. */
  predicate Unblocks(st: Status) {
    !(st in {Queued, Building}) && !IsFailed(st)
  }

  predicate IsQueuedBatch(jobs: Table, id: string) {
    id in jobs && jobs[id].status == Queued && jobs[id].anchorType == "batch"
  }

  /** A queued job that the eligibility filter may let through. */
  ghost predicate Eligible(jobs: Table, id: string) {
    && IsQueuedBatch(jobs, id) && jobs[id].root != ""
    && (jobs[id].chain == "doge" ==>
          exists b :: IsLatest(jobs, b, "btc", jobs[id].root) && Unblocks(jobs[b].status))
  }

  /** A queued job that it may hold back. */
  ghost predicate HeldBack(jobs: Table, id: string) {
    && IsQueuedBatch(jobs, id)
    && (|| jobs[id].root == ""
        || (&& jobs[id].chain == "doge"
            && (|| (forall k | k in jobs :: !IsBatch(jobs[k], "btc", jobs[id].root))
                || exists b :: IsLatest(jobs, b, "btc", jobs[id].root) && !Unblocks(jobs[b].status))))
  }

  // ----- states and events ---------------------------------------------------------------

  /** One commitment accepted by a chain. */
  datatype Submission = Submission(id: string, txid: string)

  datatype State = State(
    jobs: Table,
    submissions: seq<Submission>,
    picked: map<nat, string>,
    retrying: map<nat, string>,
    seen: set<string>)

  const EMPTY := State(map[], [], map[], map[], {})

  /** How many drainers and how many retrying operators there are. */
  datatype Users = Users(drainers: nat, operators: nat)

  datatype Event =
    | Insert(id: string, row: Job)
    | Pick(drainer: nat, id: string)
    | Submit(drainer: nat, txid: string, now: int)
    | Fail(drainer: nat, kind: string, now: int)
    | Observe(id: string)
    | Confirm(id: string, now: int)
    | ReadRetry(operator: nat, id: string)
    | WriteRetry(operator: nat, now: int)

  /** A row as `insert_anchor_job` writes it. */
  predicate IsFresh(row: Job) {
    row.status == Queued && row.txid == None
  }

  ghost predicate Enabled(u: Users, s: State, e: Event) {
    match e
    case Insert(id, row) => id !in s.jobs && IsFresh(row)
    case Pick(d, id) => d < u.drainers && d !in s.picked && Eligible(s.jobs, id)
    case Submit(d, _, _) => d in s.picked && s.picked[d] in s.jobs
    case Fail(d, _, _) => d in s.picked && s.picked[d] in s.jobs
    case Observe(id) => id in s.jobs && IsPending(s.jobs[id].status) && HasChainTxid(s.jobs[id])
    case Confirm(id, _) => id in s.seen && id in s.jobs
    case ReadRetry(o, id) => o < u.operators && o !in s.retrying && id in s.jobs && s.jobs[id].status == FailedRetryable
    case WriteRetry(o, _) => o in s.retrying && s.retrying[o] in s.jobs
  }

  function Apply(s: State, e: Event): State {
    match e
    case Insert(id, row) => s.(jobs := s.jobs[id := row])
    case Pick(d, id) => s.(picked := s.picked[d := id])
    case Submit(d, txid, now) =>
      if d in s.picked && s.picked[d] in s.jobs then
        var id := s.picked[d];
        s.(jobs := s.jobs[id := SubmittedRow(s.jobs[id], txid, now)],
           submissions := s.submissions + [Submission(id, Strip(txid))],
           picked := s.picked - {d})
      else s
    case Fail(d, kind, now) =>
      if d in s.picked && s.picked[d] in s.jobs then
        var id := s.picked[d];
        s.(jobs := s.jobs[id := FailedRow(s.jobs[id], kind, now)], picked := s.picked - {d})
      else s
    case Observe(id) => s.(seen := s.seen + {id})
    case Confirm(id, now) =>
      if id in s.jobs then s.(jobs := s.jobs[id := ConfirmedRow(s.jobs[id], now)], seen := s.seen - {id}) else s
    case ReadRetry(o, id) => s.(retrying := s.retrying[o := id])
    case WriteRetry(o, now) =>
      if o in s.retrying && s.retrying[o] in s.jobs then
        var id := s.retrying[o];
        s.(jobs := s.jobs[id := RequeuedRow(s.jobs[id], now)], retrying := s.retrying - {o})
      else s
  }

  /** The table holds a 64-digit transaction id for the job. */
  predicate HasChainTxid(j: Job) {
    j.txid.Some? && IsHex64(Lower(j.txid.value))
  }

  /** The state after a run, if every event of it was enabled. */
  ghost function Exec(u: Users, s: State, es: seq<Event>): Option<State>
    decreases |es|
  {
    if es == [] then Some(s)
    else if Enabled(u, s, es[0]) then Exec(u, Apply(s, es[0]), es[1..])
    else None
  }

  ghost predicate Reachable(u: Users, s: State) {
    exists es :: Exec(u, EMPTY, es) == Some(s)
  }

  lemma {:induction false} ExecConcat(u: Users, s: State, es: seq<Event>, fs: seq<Event>)
    requires Exec(u, s, es).Some?
    ensures Exec(u, s, es + fs) == Exec(u, Exec(u, s, es).value, fs)
    decreases |es|
  {
    if es == [] {
      assert es + fs == fs;
    } else {
      assert (es + fs)[1..] == es[1..] + fs;
      ExecConcat(u, Apply(s, es[0]), es[1..], fs);
    }
  }

  // ----- the invariant -------------------------------------------------------------------

  /** The row carries a transaction id exactly when it is on a chain. */
  predicate RowOk(j: Job) {
    && j.status in {Queued, Submitted, Confirmed, FailedRetryable, FailedTerminal, Failed}
    && (j.txid.Some? <==> j.status in {Submitted, Confirmed})
    && (j.status == Confirmed ==> HasChainTxid(j))
  }

  predicate OnChain(jobs: Table, id: string) {
    id in jobs && jobs[id].status in {Submitted, Confirmed}
  }

  /** Some Bitcoin job for this root has been accepted by the chain. */
  ghost predicate CanonicalOnChain(jobs: Table, root: string) {
    exists b :: OnChain(jobs, b) && IsBatch(jobs[b], "btc", root)
  }

  predicate IsMirror(j: Job) {
    j.anchorType == "batch" && j.chain == "doge"
  }

  /** A Dogecoin job that has left the queue has its Bitcoin job on chain. */
  ghost predicate MirrorFollows(jobs: Table) {
    forall d | d in jobs :: IsMirror(jobs[d]) && jobs[d].status != Queued ==> CanonicalOnChain(jobs, jobs[d].root)
  }

  /** At most one submission per job, and it is the transaction the row carries. */
  predicate SubmissionsOk(jobs: Table, subs: seq<Submission>) {
    && (forall k | 0 <= k < |subs| :: subs[k].id in jobs && jobs[subs[k].id].txid == Some(subs[k].txid))
    && AtMostOnce(subs)
    && forall id | id in jobs && jobs[id].txid.Some? :: Submission(id, jobs[id].txid.value) in subs
  }

  predicate AtMostOnce(subs: seq<Submission>) {
    forall i, k | 0 <= i < k < |subs| :: subs[i].id != subs[k].id
  }

  /** What a drainer has picked is still queued and still allowed to go ahead. */
  ghost predicate PickedOk(u: Users, s: State) {
    && (forall d | d in s.picked :: d < u.drainers)
    && forall d | d in s.picked ::
         && s.picked[d] in s.jobs && s.jobs[s.picked[d]].status == Queued
         && (IsMirror(s.jobs[s.picked[d]]) ==> CanonicalOnChain(s.jobs, s.jobs[s.picked[d]].root))
  }

  predicate RetryingOk(u: Users, s: State) {
    && (forall o | o in s.retrying :: o < u.operators)
    && forall o | o in s.retrying :: s.retrying[o] in s.jobs && s.jobs[s.retrying[o]].status == FailedRetryable
  }

  predicate SeenOk(s: State) {
    forall id | id in s.seen :: OnChain(s.jobs, id) && HasChainTxid(s.jobs[id])
  }

  ghost predicate Inv(u: Users, s: State) {
    && (forall id | id in s.jobs :: RowOk(s.jobs[id]))
    && SubmissionsOk(s.jobs, s.submissions)
    && MirrorFollows(s.jobs)
    && PickedOk(u, s) && RetryingOk(u, s) && SeenOk(s)
  }

  /** No two users of the same kind at once. */
  predicate Exclusive(u: Users) {
    u.drainers <= 1 && u.operators <= 1
  }

  /** A row keeps what it is for, its creation time, its transaction id and its confirmation. */
  predicate RowExtends(j: Job, j': Job) {
    && j'.chain == j.chain && j'.root == j.root && j'.anchorType == j.anchorType && j'.createdAt == j.createdAt
    && (j.txid.Some? ==> j'.txid == j.txid)
    && (j.status == Confirmed ==> j'.status == Confirmed)
  }

  /** What no run undoes: rows stay, transaction ids stay, confirmation is final. */
  predicate Extends(s: State, t: State) {
    s.submissions <= t.submissions && forall id | id in s.jobs :: id in t.jobs && RowExtends(s.jobs[id], t.jobs[id])
  }

  /** A row on chain stays on chain, so a mirror that may go ahead may keep going. */
  lemma CanonicalPersists(u: Users, s: State, t: State, root: string)
    requires Inv(u, s) && Extends(s, t) && (forall id | id in t.jobs :: RowOk(t.jobs[id]))
    requires CanonicalOnChain(s.jobs, root)
    ensures CanonicalOnChain(t.jobs, root)
  {
    var b :| OnChain(s.jobs, b) && IsBatch(s.jobs[b], "btc", root);
    assert RowOk(s.jobs[b]) && RowOk(t.jobs[b]);
    assert OnChain(t.jobs, b) && IsBatch(t.jobs[b], "btc", root);
  }

  /** Rows and what each step keeps of them. */
  lemma StepRows(u: Users, s: State, e: Event)
    requires Exclusive(u) && Inv(u, s) && Enabled(u, s, e)
    ensures forall id | id in Apply(s, e).jobs :: RowOk(Apply(s, e).jobs[id])
    ensures Extends(s, Apply(s, e))
  {
    var t := Apply(s, e);
    forall id | id in t.jobs ensures RowOk(t.jobs[id]) && (id in s.jobs ==> RowExtends(s.jobs[id], t.jobs[id])) {
      StepRow(u, s, e, id);
    }
  }

  lemma StepRow(u: Users, s: State, e: Event, id: string)
    requires Exclusive(u) && Inv(u, s) && Enabled(u, s, e) && id in Apply(s, e).jobs
    ensures RowOk(Apply(s, e).jobs[id])
    ensures id in s.jobs ==> RowExtends(s.jobs[id], Apply(s, e).jobs[id])
  {
    assert id in s.jobs ==> RowOk(s.jobs[id]);
  }

  lemma StepSubmissions(u: Users, s: State, e: Event)
    requires Exclusive(u) && Inv(u, s) && Enabled(u, s, e)
    ensures SubmissionsOk(Apply(s, e).jobs, Apply(s, e).submissions)
  {
    var t := Apply(s, e);
    if e.Submit? {
      SubmitSubmissions(u, s, e);
    } else {
      StepRows(u, s, e);
      forall id | id in t.jobs && t.jobs[id].txid.Some? ensures Submission(id, t.jobs[id].txid.value) in t.submissions {
        assert id in s.jobs && s.jobs[id].txid == t.jobs[id].txid;
      }
    }
  }

  lemma SubmitSubmissions(u: Users, s: State, e: Event)
    requires Exclusive(u) && Inv(u, s) && Enabled(u, s, e) && e.Submit?
    ensures SubmissionsOk(Apply(s, e).jobs, Apply(s, e).submissions)
  {
    var t, id := Apply(s, e), s.picked[e.drainer];
    assert RowOk(s.jobs[id]);
    forall i | 0 <= i < |s.submissions| ensures s.submissions[i].id != id {
      assert s.jobs[s.submissions[i].id].txid.Some?;
    }
    assert t.submissions[|s.submissions|] == Submission(id, Strip(e.txid));
    forall k | k in t.jobs && t.jobs[k].txid.Some? ensures Submission(k, t.jobs[k].txid.value) in t.submissions {
      assert k != id ==> Submission(k, s.jobs[k].txid.value) in s.submissions;
    }
  }

  lemma StepMirror(u: Users, s: State, e: Event)
    requires Exclusive(u) && Inv(u, s) && Enabled(u, s, e)
    ensures MirrorFollows(Apply(s, e).jobs)
  {
    var t := Apply(s, e);
    StepRows(u, s, e);
    forall d | d in t.jobs && IsMirror(t.jobs[d]) && t.jobs[d].status != Queued
      ensures CanonicalOnChain(t.jobs, t.jobs[d].root)
    {
      assert d in s.jobs;
      assert CanonicalOnChain(s.jobs, s.jobs[d].root);
      CanonicalPersists(u, s, t, s.jobs[d].root);
    }
  }

  /** The event writes to this row. */
  predicate Writes(s: State, e: Event, id: string) {
    match e
    case Insert(k, _) => k == id
    case Submit(d, _, _) => d in s.picked && s.picked[d] == id
    case Fail(d, _, _) => d in s.picked && s.picked[d] == id
    case Confirm(k, _) => k == id
    case WriteRetry(o, _) => o in s.retrying && s.retrying[o] == id
    case _ => false
  }

  lemma UnwrittenStays(s: State, e: Event, id: string)
    requires id in s.jobs && !Writes(s, e, id)
    ensures id in Apply(s, e).jobs && Apply(s, e).jobs[id] == s.jobs[id]
  {
  }

  /** A pick that survives a step still names a queued job. */
  lemma PickedStaysQueued(u: Users, s: State, e: Event, d: nat)
    requires Exclusive(u) && PickedOk(u, s) && RetryingOk(u, s) && SeenOk(s) && Enabled(u, s, e)
    requires d in s.picked && d in Apply(s, e).picked
    ensures var t := Apply(s, e);
      t.picked[d] == s.picked[d] && s.picked[d] in t.jobs && t.jobs[s.picked[d]].status == Queued
  {
    var id := s.picked[d];
    assert id in s.jobs && s.jobs[id].status == Queued && d < u.drainers;
    assert e.Confirm? ==> OnChain(s.jobs, e.id);
    assert !Writes(s, e, id);
    UnwrittenStays(s, e, id);
  }

  lemma StepPicked(u: Users, s: State, e: Event)
    requires Exclusive(u) && Inv(u, s) && Enabled(u, s, e)
    ensures PickedOk(u, Apply(s, e))
  {
    var t := Apply(s, e);
    StepRows(u, s, e);
    forall d | d in t.picked
      ensures d < u.drainers && t.picked[d] in t.jobs && t.jobs[t.picked[d]].status == Queued
      ensures IsMirror(t.jobs[t.picked[d]]) ==> CanonicalOnChain(t.jobs, t.jobs[t.picked[d]].root)
    {
      var id := t.picked[d];
      if d in s.picked {
        PickedStaysQueued(u, s, e, d);
      } else {
        assert e == Pick(d, id);
      }
      if IsMirror(t.jobs[id]) {
        if d !in s.picked { PickedMayGo(u, s, id); }
        CanonicalPersists(u, s, t, s.jobs[id].root);
      }
    }
  }

  lemma PickedMayGo(u: Users, s: State, id: string)
    requires Inv(u, s) && Eligible(s.jobs, id) && IsMirror(s.jobs[id])
    ensures CanonicalOnChain(s.jobs, s.jobs[id].root)
  {
    var b :| IsLatest(s.jobs, b, "btc", s.jobs[id].root) && Unblocks(s.jobs[b].status);
    assert RowOk(s.jobs[b]);
    assert OnChain(s.jobs, b);
  }

  /** A row that an operator has read is still retryable after a step of another user. */
  lemma ReadStaysRetryable(u: Users, s: State, e: Event, o: nat)
    requires Exclusive(u) && PickedOk(u, s) && RetryingOk(u, s) && SeenOk(s) && Enabled(u, s, e)
    requires o in s.retrying && o in Apply(s, e).retrying
    ensures var t := Apply(s, e);
      t.retrying[o] == s.retrying[o] && s.retrying[o] in t.jobs && t.jobs[s.retrying[o]].status == FailedRetryable
  {
    var id := s.retrying[o];
    assert id in s.jobs && s.jobs[id].status == FailedRetryable && o < u.operators;
    assert e.Submit? || e.Fail? ==> s.jobs[s.picked[e.drainer]].status == Queued;
    assert e.Confirm? ==> OnChain(s.jobs, e.id);
    assert !Writes(s, e, id);
    UnwrittenStays(s, e, id);
  }

  lemma StepRetrying(u: Users, s: State, e: Event)
    requires Exclusive(u) && Inv(u, s) && Enabled(u, s, e)
    ensures RetryingOk(u, Apply(s, e))
  {
    var t := Apply(s, e);
    forall o | o in t.retrying
      ensures o < u.operators && t.retrying[o] in t.jobs && t.jobs[t.retrying[o]].status == FailedRetryable
    {
      if o in s.retrying {
        ReadStaysRetryable(u, s, e, o);
      } else {
        assert e == ReadRetry(o, t.retrying[o]);
      }
    }
  }

  lemma StepSeen(u: Users, s: State, e: Event)
    requires Exclusive(u) && Inv(u, s) && Enabled(u, s, e)
    ensures SeenOk(Apply(s, e))
  {
    var t := Apply(s, e);
    StepRows(u, s, e);
    forall id | id in t.seen ensures OnChain(t.jobs, id) && HasChainTxid(t.jobs[id]) {
      assert RowOk(s.jobs[id]) && RowOk(t.jobs[id]);
    }
  }

  lemma StepKeepsInv(u: Users, s: State, e: Event)
    requires Exclusive(u) && Inv(u, s) && Enabled(u, s, e)
    ensures Inv(u, Apply(s, e)) && Extends(s, Apply(s, e))
  {
    StepRows(u, s, e);
    StepSubmissions(u, s, e);
    StepMirror(u, s, e);
    StepPicked(u, s, e);
    StepRetrying(u, s, e);
    StepSeen(u, s, e);
  }

  /** Every run keeps the invariant and undoes nothing. */
  lemma {:induction false} RunKeepsInv(u: Users, s: State, es: seq<Event>)
    requires Exclusive(u) && Inv(u, s) && Exec(u, s, es).Some?
    ensures Inv(u, Exec(u, s, es).value) && Extends(s, Exec(u, s, es).value)
    decreases |es|
  {
    if es != [] {
      StepKeepsInv(u, s, es[0]);
      RunKeepsInv(u, Apply(s, es[0]), es[1..]);
    }
  }

  lemma ReachableKeepsInv(u: Users, s: State)
    requires Exclusive(u) && Reachable(u, s)
    ensures Inv(u, s)
  {
    var es :| Exec(u, EMPTY, es) == Some(s);
    RunKeepsInv(u, EMPTY, es);
  }

  // ----- main results ----------------------------------------------------------------------

  /**
   At most one broadcast per job and faithful rows: with one drainer and one
   operator at a time, in every reachable state the submissions name each job at
   most once and agree with the transaction ids in the table; queued and failed
   jobs carry none; confirmed jobs carry a real one.
   */
  lemma BroadcastAtMostOnce(u: Users, s: State)
    requires Exclusive(u) && Reachable(u, s)
    ensures AtMostOnce(s.submissions)
    ensures forall id | id in s.jobs :: RowOk(s.jobs[id])
    ensures forall id, txid ::
      Submission(id, txid) in s.submissions <==> id in s.jobs && s.jobs[id].txid == Some(txid)
  {
    ReachableKeepsInv(u, s);
  }

  /** No later event clears or changes a transaction id, or leaves `confirmed`. */
  lemma NothingIsUndone(u: Users, s: State, es: seq<Event>)
    requires Exclusive(u) && Reachable(u, s) && Exec(u, s, es).Some?
    ensures Extends(s, Exec(u, s, es).value)
  {
    ReachableKeepsInv(u, s);
    RunKeepsInv(u, s, es);
  }

  /**
   The mirror is never ahead, however many jobs share a root: a Dogecoin job that
   has left the queue has a Bitcoin job for its root on chain, now and after any
   further run.
   */
  lemma MirrorNeverAhead(u: Users, s: State, d: string, es: seq<Event>)
    requires Exclusive(u) && Reachable(u, s) && Exec(u, s, es).Some?
    requires d in s.jobs && IsMirror(s.jobs[d]) && s.jobs[d].status != Queued
    ensures CanonicalOnChain(s.jobs, s.jobs[d].root)
    ensures CanonicalOnChain(Exec(u, s, es).value.jobs, s.jobs[d].root)
  {
    ReachableKeepsInv(u, s);
    RunKeepsInv(u, s, es);
    CanonicalPersists(u, s, Exec(u, s, es).value, s.jobs[d].root);
  }

  // ----- exactly how many users the guarantee allows -----------------------------------------

  lemma ReachMore(u: Users, s: State, e: Event)
    requires Reachable(u, s) && Enabled(u, s, e)
    ensures Reachable(u, Apply(s, e))
  {
    var es :| Exec(u, EMPTY, es) == Some(s);
    ExecConcat(u, EMPTY, es, [e]);
    assert [e][1..] == [];
    assert Exec(u, s, [e]) == Some(Apply(s, e));
  }

  const SAMPLE_ROW := Job("btc", "batch", "r", "n", "p", Queued, None, 0, 0, 0, 0, 0)

  lemma OneJobQueued(u: Users) returns (s: State)
    ensures Reachable(u, s) && s == State(map["a" := SAMPLE_ROW], [], map[], map[], {})
  {
    assert Exec(u, EMPTY, []) == Some(EMPTY);
    s := Apply(EMPTY, Insert("a", SAMPLE_ROW));
    ReachMore(u, EMPTY, Insert("a", SAMPLE_ROW));
  }

  /** One of two drainers that listed the queue at the same moment has broadcast the job. */
  lemma TwoDrainersPicked(u: Users) returns (s: State)
    requires u.drainers >= 2
    ensures Reachable(u, s) && s.picked == map[1 := "a"] && s.submissions == [Submission("a", Strip("x"))]
    ensures s.jobs == map["a" := SubmittedRow(SAMPLE_ROW, "x", 0)]
  {
    s := OneJobQueued(u);
    ReachMore(u, s, Pick(0, "a")); s := Apply(s, Pick(0, "a"));
    ReachMore(u, s, Pick(1, "a")); s := Apply(s, Pick(1, "a"));
    ReachMore(u, s, Submit(0, "x", 0)); s := Apply(s, Submit(0, "x", 0));
  }

  /** Then the other one does so too. */
  lemma TwoDrainersBroadcastTwice(u: Users)
    requires u.drainers >= 2
    ensures exists s :: Reachable(u, s) && !AtMostOnce(s.submissions)
  {
    var s := TwoDrainersPicked(u);
    ReachMore(u, s, Submit(1, "x", 0));
    s := Apply(s, Submit(1, "x", 0));
    assert s.submissions[0].id == s.submissions[1].id;
  }

  /** The first part of the run below: the job has failed. */
  lemma OneJobFailed(u: Users) returns (s: State)
    requires u.drainers >= 1
    ensures Reachable(u, s) && s == State(map["a" := SAMPLE_ROW.(status := FailedRetryable)], [], map[], map[], {})
  {
    s := OneJobQueued(u);
    var kind := "retryable";
    assert Lower(kind) == kind;
    ReachMore(u, s, Pick(0, "a")); s := Apply(s, Pick(0, "a"));
    ReachMore(u, s, Fail(0, kind, 0)); s := Apply(s, Fail(0, kind, 0));
  }

  /** The second part: both operators have read the failed job, one has requeued it. */
  lemma TwoOperatorsRead(u: Users) returns (s: State)
    requires u.drainers >= 1 && u.operators >= 2
    ensures Reachable(u, s) && s.submissions == [] && s.picked == map[] && s.retrying == map[1 := "a"]
    ensures s.jobs.Keys == {"a"} && s.jobs["a"].status == Queued
    ensures s.jobs["a"].anchorType == "batch" && s.jobs["a"].root == "r" && s.jobs["a"].chain == "btc"
  {
    s := OneJobFailed(u);
    ReachMore(u, s, ReadRetry(0, "a")); s := Apply(s, ReadRetry(0, "a"));
    ReachMore(u, s, ReadRetry(1, "a")); s := Apply(s, ReadRetry(1, "a"));
    ReachMore(u, s, WriteRetry(0, 0)); s := Apply(s, WriteRetry(0, 0));
  }

  /** The third part: the job has been broadcast, and the slower operator has yet to requeue it. */
  lemma TwoOperatorsSubmitted(u: Users) returns (s: State)
    requires u.drainers >= 1 && u.operators >= 2
    ensures Reachable(u, s) && s.picked == map[] && s.retrying == map[1 := "a"]
    ensures s.submissions == [Submission("a", Strip("x"))]
    ensures s.jobs.Keys == {"a"} && IsBatch(s.jobs["a"], "btc", "r")
    ensures s.jobs["a"].status == Submitted && s.jobs["a"].txid.Some?
  {
    s := TwoOperatorsRead(u);
    ReachMore(u, s, Pick(0, "a")); s := Apply(s, Pick(0, "a"));
    ReachMore(u, s, Submit(0, "x", 0)); s := Apply(s, Submit(0, "x", 0));
  }

  /**
   Two operators that retry one failed job: the slower one requeues it again after
   it was broadcast, and the row forgets its transaction.
   */
  lemma TwoOperatorsBroadcastTwice(u: Users)
    requires u.drainers >= 1 && u.operators >= 2
    ensures exists s :: Reachable(u, s) && !AtMostOnce(s.submissions)
  {
    var s := TwoOperatorsSubmitted(u);
    ReachMore(u, s, WriteRetry(1, 0)); s := Apply(s, WriteRetry(1, 0));
    ReachMore(u, s, Pick(0, "a")); s := Apply(s, Pick(0, "a"));
    ReachMore(u, s, Submit(0, "x", 0)); s := Apply(s, Submit(0, "x", 0));
    assert s.submissions[0].id == s.submissions[1].id;
  }

  /** Rows have been inserted, and nothing else has happened. */
  predicate Untouched(s: State) {
    && s.picked == map[] && s.retrying == map[] && s.seen == {} && s.submissions == []
    && forall id | id in s.jobs :: IsFresh(s.jobs[id])
  }

  lemma UntouchedNext(u: Users, s: State, e: Event)
    requires u.drainers == 0 && Untouched(s) && Enabled(u, s, e)
    ensures Untouched(Apply(s, e)) && Extends(s, Apply(s, e))
  {
    assert e.Insert?;
  }

  lemma {:induction false} NoDrainerNothingMoves(u: Users, s: State, es: seq<Event>)
    requires u.drainers == 0 && Untouched(s) && Exec(u, s, es).Some?
    ensures Untouched(Exec(u, s, es).value) && Extends(s, Exec(u, s, es).value)
    decreases |es|
  {
    if es != [] {
      var t := Apply(s, es[0]);
      UntouchedNext(u, s, es[0]);
      NoDrainerNothingMoves(u, t, es[1..]);
      forall id | id in s.jobs ensures RowExtends(s.jobs[id], Exec(u, s, es).value.jobs[id]) {
        assert RowExtends(s.jobs[id], t.jobs[id]);
      }
    }
  }

  lemma NoDrainerNothingHappened(u: Users, s: State)
    requires u.drainers == 0 && Reachable(u, s)
    ensures Untouched(s)
  {
    var es :| Exec(u, EMPTY, es) == Some(s);
    NoDrainerNothingMoves(u, EMPTY, es);
  }

  /** The guarantee holds exactly for one drainer and at most one operator (or no drainer at all). */
  lemma AtMostOnceIffExclusive(u: Users)
    ensures (forall s :: Reachable(u, s) ==> AtMostOnce(s.submissions)) <==> u.drainers == 0 || Exclusive(u)
  {
    if u.drainers == 0 {
      forall s | Reachable(u, s) ensures AtMostOnce(s.submissions) {
        NoDrainerNothingHappened(u, s);
      }
    } else if Exclusive(u) {
      forall s | Reachable(u, s) ensures AtMostOnce(s.submissions) {
        BroadcastAtMostOnce(u, s);
      }
    } else if u.drainers >= 2 {
      TwoDrainersBroadcastTwice(u);
    } else {
      TwoOperatorsBroadcastTwice(u);
    }
  }

  /** No run of these users undoes anything. */
  ghost predicate NeverUndoes(u: Users) {
    forall s, es | Reachable(u, s) && Exec(u, s, es).Some? :: Extends(s, Exec(u, s, es).value)
  }

  /** The second of two drainers replaces the transaction of the first. */
  lemma TwoDrainersReplace(u: Users)
    requires u.drainers >= 2
    ensures !NeverUndoes(u)
  {
    var s := TwoDrainersPicked(u);
    var e := Submit(1, "y", 0);
    StripFixes("x");
    StripFixes("y");
    OneStep(u, s, e);
    assert !RowExtends(s.jobs["a"], Apply(s, e).jobs["a"]);
    assert !Extends(s, Exec(u, s, [e]).value);
  }

  /** The slower of two operators clears the transaction. */
  lemma TwoOperatorsClear(u: Users)
    requires u.drainers >= 1 && u.operators >= 2
    ensures !NeverUndoes(u)
  {
    var s := TwoOperatorsSubmitted(u);
    var e := WriteRetry(1, 0);
    OneStep(u, s, e);
    assert !RowExtends(s.jobs["a"], Apply(s, e).jobs["a"]);
    assert !Extends(s, Exec(u, s, [e]).value);
  }

  lemma OneStep(u: Users, s: State, e: Event)
    requires Enabled(u, s, e)
    ensures Exec(u, s, [e]) == Some(Apply(s, e))
  {
    assert [e][1..] == [];
  }

  /** Nothing is undone for exactly the same numbers of users. */
  lemma NothingIsUndoneIffExclusive(u: Users)
    ensures NeverUndoes(u) <==> u.drainers == 0 || Exclusive(u)
  {
    if u.drainers == 0 || Exclusive(u) {
      forall s, es | Reachable(u, s) && Exec(u, s, es).Some? ensures Extends(s, Exec(u, s, es).value) {
        if u.drainers == 0 {
          NoDrainerNothingHappened(u, s);
          NoDrainerNothingMoves(u, s, es);
        } else {
          NothingIsUndone(u, s, es);
        }
      }
    } else if u.drainers >= 2 {
      TwoDrainersReplace(u);
    } else {
      TwoOperatorsClear(u);
    }
  }

  const SAMPLE_MIRROR := SAMPLE_ROW.(chain := "doge")

  /** With the Bitcoin job on chain, its mirror is inserted and submitted. */
  lemma MirrorGoes(u: Users, s: State) returns (t: State)
    requires u.drainers >= 1 && Reachable(u, s) && 0 !in s.picked
    requires s.jobs.Keys == {"a"} && IsBatch(s.jobs["a"], "btc", "r") && s.jobs["a"].status == Submitted
    ensures Reachable(u, t) && t.picked == s.picked && t.retrying == s.retrying
    ensures t.jobs == s.jobs["d" := SubmittedRow(SAMPLE_MIRROR, "x", 0)]
  {
    ReachMore(u, s, Insert("d", SAMPLE_MIRROR)); t := Apply(s, Insert("d", SAMPLE_MIRROR));
    assert IsLatest(t.jobs, "a", "btc", "r") && Unblocks(t.jobs["a"].status);
    t := PickAndSubmit(u, t, "d");
  }

  lemma PickAndSubmit(u: Users, s: State, id: string) returns (t: State)
    requires u.drainers >= 1 && Reachable(u, s) && 0 !in s.picked && Eligible(s.jobs, id)
    ensures Reachable(u, t) && t.picked == s.picked && t.retrying == s.retrying
    ensures t.jobs == s.jobs[id := SubmittedRow(s.jobs[id], "x", 0)]
  {
    ReachMore(u, s, Pick(0, id)); t := Apply(s, Pick(0, id));
    ReachMore(u, t, Submit(0, "x", 0)); t := Apply(t, Submit(0, "x", 0));
    assert s.picked[0 := id] - {0} == s.picked;
  }

  /** No run of these users gets a mirror ahead of its root's Bitcoin jobs. */
  ghost predicate NeverAhead(u: Users) {
    forall s, d, es |
      Reachable(u, s) && Exec(u, s, es).Some? && d in s.jobs && IsMirror(s.jobs[d]) && s.jobs[d].status != Queued ::
      CanonicalOnChain(s.jobs, s.jobs[d].root) && CanonicalOnChain(Exec(u, s, es).value.jobs, s.jobs[d].root)
  }

  lemma AheadNow(u: Users, s: State)
    requires Reachable(u, s) && s.jobs.Keys == {"a", "d"} && !OnChain(s.jobs, "a")
    requires IsMirror(s.jobs["d"]) && s.jobs["d"].status != Queued
    ensures !NeverAhead(u)
  {
    assert !IsBatch(s.jobs["d"], "btc", s.jobs["d"].root);
    assert !CanonicalOnChain(s.jobs, s.jobs["d"].root);
    assert Exec(u, s, []).Some?;
  }

  /** The second drainer fails where the first has submitted, after the mirror has gone. */
  lemma TwoDrainersAhead(u: Users)
    requires u.drainers >= 2
    ensures !NeverAhead(u)
  {
    var s := TwoDrainersPicked(u);
    s := MirrorGoes(u, s);
    ReachMore(u, s, Fail(1, "", 0)); s := Apply(s, Fail(1, "", 0));
    AheadNow(u, s);
  }

  /** The slower operator requeues the Bitcoin job after the mirror has gone. */
  lemma TwoOperatorsAhead(u: Users)
    requires u.drainers >= 1 && u.operators >= 2
    ensures !NeverAhead(u)
  {
    var s := TwoOperatorsSubmitted(u);
    s := MirrorGoes(u, s);
    ReachMore(u, s, WriteRetry(1, 0)); s := Apply(s, WriteRetry(1, 0));
    AheadNow(u, s);
  }

  /** And so is the order of the two chains. */
  lemma MirrorNeverAheadIffExclusive(u: Users)
    ensures NeverAhead(u) <==> u.drainers == 0 || Exclusive(u)
  {
    if u.drainers == 0 || Exclusive(u) {
      forall s, d, es |
        Reachable(u, s) && Exec(u, s, es).Some? && d in s.jobs && IsMirror(s.jobs[d]) && s.jobs[d].status != Queued
        ensures CanonicalOnChain(s.jobs, s.jobs[d].root)
        ensures CanonicalOnChain(Exec(u, s, es).value.jobs, s.jobs[d].root)
      {
        if u.drainers == 0 {
          NoDrainerNothingHappened(u, s);
          assert false;
        }
        MirrorNeverAhead(u, s, d, es);
      }
    } else if u.drainers >= 2 {
      TwoDrainersAhead(u);
    } else {
      TwoOperatorsAhead(u);
    }
  }

  // ----- in literals -------------------------------------------------------------------------

  /** The names a chain may be given by, in any case and with white space around. */
  lemma ChainTable(chain: string)
    ensures Lower(Strip(chain)) in ["btc", "bitcoin"] ==> NormalizeChain(chain) == "btc"
    ensures Lower(Strip(chain)) in ["doge", "dogecoin"] ==> NormalizeChain(chain) == "doge"
    ensures Lower(Strip(chain)) !in ["btc", "bitcoin", "doge", "dogecoin"] ==>
      NormalizeChain(chain) == Lower(Strip(chain))
  {
    assert |"btc"| == 3 && |"bitcoin"| == 7 && |"doge"| == 4 && |"dogecoin"| == 8;
  }

  /** Which statuses count as what. */
  lemma StatusTable(st: Status)
    ensures IsFailed(st) <==> st in [FailedRetryable, FailedTerminal, Failed]
    ensures IsPending(st) <==> st in [Building, Broadcast, Submitted]
    ensures Unblocks(st) <==> st in [Broadcast, Submitted, Confirmed]
  {
  }

  /** What each write makes of a row. */
  lemma RowTable(
    chain: string, anchorType: string, root: string, network: string, provider: string, txid: string)
    ensures anchorType != "" ==>
      NewRow(chain, anchorType, root, network, provider, 5).anchorType == Lower(Strip(anchorType))
    ensures var row := Job("btc", "batch", "r", "n", "p", Queued, None, 0, 0, 5, 5, 5);
      && NewRow(chain, "", root, network, provider, 5)
           == Job(NormalizeChain(chain), "batch", Lower(Strip(root)), Strip(network), Strip(provider),
                  Queued, None, 0, 0, 5, 5, 5)
      && NewRow(chain, "batch", root, network, provider, 5) == NewRow(chain, "", root, network, provider, 5)
      && SubmittedRow(row, txid, 7) == Job("btc", "batch", "r", "n", "p", Submitted, Some(Strip(txid)), 0, 0, 5, 5, 7)
      && FailedRow(row, "retryable", 7) == Job("btc", "batch", "r", "n", "p", FailedRetryable, None, 0, 0, 5, 5, 7)
      && ConfirmedRow(SubmittedRow(row, txid, 7), 9)
           == Job("btc", "batch", "r", "n", "p", Confirmed, Some(Strip(txid)), 0, 100, 5, 5, 9)
      && RequeuedRow(SubmittedRow(row, txid, 7), 9) == Job("btc", "batch", "r", "n", "p", Queued, None, 1, 0, 5, 5, 9)
  {
    StripFixes("batch");
    assert Lower("batch") == "batch" && Lower("retryable") == "retryable";
  }

  /** A failure is named by a word somewhere in its kind. */
  lemma FailureTable(before: string, after: string)
    requires Lower(before) == before && Lower(after) == after
    ensures FailureStatus(before + "retryable" + after) == FailedRetryable
    ensures FailureStatus("other") == Failed
  {
    var kind := before + "retryable" + after;
    assert Lower(kind) == kind by {
      assert forall i | 0 <= i < |before| :: LowerChar(before[i]) == Lower(before)[i];
      assert forall i | 0 <= i < |after| :: LowerChar(after[i]) == Lower(after)[i];
    }
    assert kind[|before|..|before| + 9] == "retryable";
    ContainsAt(kind, "retryable", |before|);
    assert Lower("other") == "other";
    if Contains("other", "retryable") { var _ := ContainsWhere("other", "retryable"); }
    if Contains("other", "terminal") { var _ := ContainsWhere("other", "terminal"); }
  }

  /** An older job of a root does not count. */
  lemma NewestDecides(jobs: Table, a: string, b: string)
    requires a in jobs && b in jobs && jobs[a].createdAt < jobs[b].createdAt
    requires IsBatch(jobs[a], "btc", "r") && IsBatch(jobs[b], "btc", "r")
    ensures !IsLatest(jobs, a, "btc", "r")
  {
  }

  /** A transaction id is one of a chain when it has 64 hexadecimal digits of either case. */
  lemma TxidExactly(row: Job)
    ensures HasChainTxid(row) <==>
      && row.txid.Some? && |row.txid.value| == 64
      && forall i | 0 <= i < 64 :: row.txid.value[i] in "0123456789abcdefABCDEF"
  {
    if row.txid.Some? {
      var txid := row.txid.value;
      forall i | 0 <= i < |txid| ensures IsLowerHexDigit(Lower(txid)[i]) <==> txid[i] in "0123456789abcdefABCDEF" {
        HexLetter(txid[i]);
      }
    }
  }

  lemma HexLetter(c: char)
    ensures IsLowerHexDigit(LowerChar(c)) <==> c in "0123456789abcdefABCDEF"
  {
  }
}
