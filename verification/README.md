# Proofs about receipts, anchoring, fees, document edits, limits, payouts and streaks

This project models the parts of the repository where a small mistake would be expensive, and
proves what they promise for all inputs, all runs or all histories. `dafny verify dfyconfig.toml`
checks it. Code that works step by step is a method or a class, proved against a specification;
the properties of the specification are lemmas beside it. Constants, tables and formats that a
specification is built from are fixed by lemmas in literals: whole cases worked out in full, and
tables told character by character or status by status.

| file | part of the repository |
|---|---|
| `CanonJson.dfy`, `Utf8.dfy`, `Numerals.dfy` | canonical JSON as it is hashed, with a parser that undoes the printer |
| `ReproVerify.dfy` | the acceptance checks of the standalone verifier and what a commitment binds |
| `BundleVerify.dfy` | the local bundle verifier and what an embedded receipt hash binds |
| `AnchorProtocol.dfy`, `AnchorStore.dfy` | the anchor jobs as a state machine, and the store, drain loop, poll and retry that perform its events |
| `DualChainStatus.dfy` | the phase shown for a root's two jobs, over the runs of that machine |
| `ReceiptBatches.dfy` | collecting receipts into batches, with rollback |
| `CoinSelection.dfy`, `FeeSolver.dfy` | choosing unspent outputs and settling fee and change |
| `RedlineDiff.dfy` | splitting a document into blocks, joining it, and rebuilding both sides of a diff |
| `TextLines.dfy`, `ClauseNumbers.dfy`, `LateFee.dfy` | renumbering subclauses and inserting the late-fee clause |
| `AnchorPatch.dfy` | splicing a paragraph in behind an anchor text |
| `UsageGuard.dfy`, `TokenBucket.dfy` | the two rate limiters over whole request histories |
| `UsdcText.dfy`, `PayoutBatches.dfy`, `SafeBatch.dfy` | money from ledger rows through decimal text to on-chain transfers |
| `Streaks.dfy` | the longest and the current run of active days, and the stored best |
| `PyText.dfy`, `Wrappers.dfy`, `Collections.dfy`, `Clock.dfy` | Python string operations, Option and Result, sizes of sets, clocks that may be set back |

SHA-256 is an arbitrary function of bytes, so binding reads "equal, or these two byte strings,
which were really hashed, collide". Times and Decimal amounts are real numbers, clocks are
arguments, calls to a chain return an arbitrary result.

## Where the code and its promise part

Each item names a concrete case and, where there is one, the lemma that says exactly when the
promise holds.

- A hash that a receipt carries is enforced only when the receipt has an explicit hash, wherever
  the hash that is read stands (`BundleVerify.EnforcedExactly`; alone under `checks` it is not:
  `BundleVerify.ChecksHashIsNotEnforced`).
- An explicit hash is compared through a fixed list of read places, which ends with the commitment
  and leaves out some places that count as explicit (`BundleVerify.ExplicitPassesExactly`). So the
  right hash under `integrity.hash` does not make a receipt pass (`BundleVerify.RightHashRejected`,
  `BundleVerify.CommitmentIsComparedInstead`).
- A job can be broadcast twice as soon as two drainers or two retrying operators work at once
  (`AnchorProtocol.TwoDrainersBroadcastTwice`, `AnchorProtocol.TwoOperatorsBroadcastTwice`); with one
  of each it cannot (`AnchorProtocol.AtMostOnceIffExclusive`). The same numbers of users decide
  whether a transaction id can be replaced or cleared (`AnchorProtocol.NothingIsUndoneIffExclusive`)
  and whether Dogecoin can get ahead of Bitcoin (`AnchorProtocol.MirrorNeverAheadIffExclusive`).
- With two jobs for one root and chain the shown phase can be one that the protocol rules out
  (`DualChainStatus.PossibleExactly`, `DualChainStatus.DuplicateJobsMislead`), and one phase label
  can never appear (`DualChainStatus.MirrorFailedLabelIsDead`).
- Eighty blocked jobs ahead of it keep an eligible job out of the drain
  (`AnchorStore.ListedExactly`, `AnchorStore.CrowdBlocksTheRest`).
- A provider's "confirmed" does not satisfy every threshold, but exactly those up to a million
  (`AnchorStore.DeepExactly`), and a configured depth of 1,000,001 it never reaches
  (`AnchorStore.OneMoreIsNeverDeep`).
- On its "recalc" exit the solver charges for a smaller transaction than it builds
  (`FeeSolver.SettledIsGood`, `FeeSolver.RecalcOccurs`). It gives up on
  requests that a transaction without change could pay, at every positive fee rate and with a single
  output already (`FeeSolver.GivesUpExactly`, `FeeSolver.ExactOutputIsRefused`,
  `FeeSolver.RefusesPayableExactly`), and for the same reason it can take more inputs than needed
  (`FeeSolver.FewestInEitherLayout`, `FeeSolver.OneWouldDo`).
- Ten rounds do not always find outputs that pay for a transaction with change: not for some request
  of twelve outputs, and of any larger number, but always with eleven or fewer
  (`FeeSolver.TenRoundsExactly`, `FeeSolver.GivesUpTooEarly`).
- For a target of zero or less the selection still takes an output (`CoinSelection.OptimalIffPositive`,
  `CoinSelection.ZeroTargetTakesOne`).
- Blocks survive splitting again exactly when no block holds "\r\n" (`RedlineDiff.ResplitIff`,
  `RedlineDiff.CrCrLfIsUnstable`), and so does a diff (`RedlineDiff.Diff`). That is so unless the
  text, after its line ends are replaced, still has a "\r\n" with ink on both sides and no blank line
  between (`RedlineDiff.NoCrLfExactly`).
- The renumbering pass also rewrites numbers with leading zeros (`LateFee.MonotonicFixes`,
  `LateFee.LeadingZeroIsRewritten`).
- Counting an anchor once makes its place unique exactly when no beginning of the anchor is also an
  ending of it (`AnchorPatch.CountDecidesExactly`, `AnchorPatch.OverlapsCountOnce`).
- Two fingerprints can share a limiter key exactly when one ends in a colon and the other
  (`UsageGuard.KeysApartExactly`, `UsageGuard.ColonsCollide`). No caller supplies one: both pass
  sixteen hexadecimal digits (backend/llm_usage_guard.py:51-54,
  backend/routers/agreements_v2_api.py:11620 and 11691), for which keys are apart
  (`UsageGuard.KeySeparates`).
- By the clock's own readings the recipient limiter can grant six calls in twelve seconds when the
  clock is set back (`UsageGuard.SixInAWindow`); while the clock goes forward by twelve seconds it
  grants at most five, whatever else the clock does (`UsageGuard.AtMostFiveForward`). After a step
  back the first call after a cooldown can be denied again (`UsageGuard.AfterCooldownExactly`,
  `UsageGuard.DeniedAfterCooldown`).
- A burst below one token turns the token bucket into a refusal of everything
  (`TokenBucket.EveryRequestRefused`). Its bound counts the time the clock has gone forward
  (`TokenBucket.ForwardRateBound`), which is the elapsed time exactly on a clock that never goes back
  (`TokenBucket.RateBoundExactly`, `TokenBucket.BackwardsClockBreaksBound`).
- A negative earning lowers a batch's dollars but not the USDC that is sent
  (`PayoutBatches.TotalsAgreeExactly`, `PayoutBatches.NegativeEarningIsNotDeducted`). The code that
  records Stripe earnings refuses amounts of zero or less
  (backend/affiliates/stripe_earnings_handlers.py:192), so such a row would have to come from elsewhere.

## Model

| member | source | states |
|---|---|---|
| CanonJson.ParseEmit | utils/canon_json.py:8-23 | Every printed value is read back by the parser, and the text behind it is left unread and intact |
| CanonJson.CanonTextDecides | utils/canon_json.py:8-23 | Two values have the same canonical text if and only if they are equal up to the order of object keys |
| CanonJson.CanonBytesDecide | utils/canon_json.py:26-31 | The same for the UTF-8 bytes that are hashed |
| CanonJson.DecodeCanonText | utils/canon_json.py:8-23 | Canonical text is uniquely decodable up to key order |
| CanonJson.CanonIsSorted | utils/canon_json.py:8-23 | In the canonical form the keys of every object, at any depth, ascend by code point |
| CanonJson.CanonTwice | utils/canon_json.py:8-23 | The canonical form of a canonical form is itself |
| CanonJson.CanonForgetsOrder | repro/verify.py:9-16 | Sorting identifies exactly the values that differ in key order only |
| CanonJson.VectorA | utils/canon_json.py:8-23 | A two-member object prints in key order without white space |
| CanonJson.VectorC | utils/canon_json.py:8-23 | Newline, quote and backslash are escaped as RFC 8259 section 7 gives them |
| CanonJson.VectorB | utils/canon_json.py:8-23 | A nested value with lists, objects and truth values prints sorted at every level |
| CanonJson.EscapeIsShortest | utils/canon_json.py:16-23 | Of all texts that read as a character the printed one is the only shortest |
| CanonJson.ReaderTable | utils/canon_json.py:16-23 | What each of the seven short escapes, a numbered one and a bare character read as, and which may not stand bare |
| CanonJson.EscapeTable | utils/canon_json.py:16-23 | Every character as it is printed |
| CanonJson.TextTable | utils/canon_json.py:16-23 | Null, truth values, numbers and empty collections as they are printed |
| CanonJson.BoolIsInt | clawctl/main.py:383-385 | Python takes true for one and false for zero, and mixes up no other numbers with truth values |
| PyText.BeforeExactly | utils/canon_json.py:16-23 | One text comes before another exactly when it has the smaller code point where they first differ, or ends there |
| PyText.SpaceTable | backend/anchoring/store.py:59-66 | The 29 code points that stripping removes |
| PyText.LowerTable | backend/anchoring/store.py:59-66 | Lowering changes ASCII capitals and nothing else of ASCII |
| PyText.HexTable | clawctl/main.py:203 | A digest has 64 lower-case hexadecimal digits |
| Utf8.DecodeEncode | utils/canon_json.py:8-23 | UTF-8 encoding loses nothing |
| Utf8.EncodeDecode | utils/canon_json.py:26-31 | No bytes but its encoding decode to a text, as RFC 3629 section 3 demands |
| Utf8.EncodeTable | utils/canon_json.py:26-31 | A character of each width in bytes |
| ReproVerify.Verify | repro/verify.py:123-212 | The verifier passes exactly when every check holds; a failure names the first check, event or list entry that does not pass |
| ReproVerify.CheckEvent | repro/verify.py:158-177 | An event passes exactly when every hash it carries about itself is the recomputed one |
| ReproVerify.RecomputeHashes | repro/verify.py:158-177 | The loop returns the digest of every event in order, or the first event at fault |
| ReproVerify.FirstUnlisted | repro/verify.py:179-184 | The manifest's list agrees with the recomputed hashes, or differs first at the index returned |
| ReproVerify.CommitmentBinds | repro/verify.py:158-204 | Two accepted timelines under one commitment have the same events in the same order on every hashed field, or two named byte strings collide |
| ReproVerify.CommitmentBindsFields | repro/verify.py:158-204 | Field by field: under one commitment the timelines agree on every field whose name, lower-cased, contains none of "hash", "sha256" and "manifest", or two named byte strings collide |
| ReproVerify.OnlyHashNamesAreDropped | repro/verify.py:165-169 | A field with one of these words in its name does not change the hashed bytes wherever it stands, and any other is hashed |
| ReproVerify.OwnHashIsAccepted | repro/verify.py:172-176 | An accepted event may be given its own hash, or something falsy, in any of the four fields for it, and nothing else |
| ReproVerify.SampleAcceptedExactly | repro/verify.py:135-204 | A whole timeline and receipt: acceptance asks exactly this of the event, the list, the digest, the frozen fields, the commitment and the path |
| ReproVerify.FalsyTable | repro/verify.py:135-199 | Exactly six values count as absent |
| ReproVerify.EvidenceDeterminesCommitment | repro/verify.py:187-204 | The same evidence leaves only one commitment that is accepted |
| ReproVerify.DroppedFieldsAreFree | repro/verify.py:158-201 | Nothing more is bound: with the same evidence, hash list, manifest digest and frozen fields, any change of the fields that are not hashed keeps the timeline accepted exactly when the hashes that events carry about themselves still agree |
| ReproVerify.SameReportedHashesPass | repro/verify.py:158-177 | An event with the same hashed bytes and the same self-reported hashes as an accepted one is accepted |
| BundleVerify.VerifyBundle | clawctl/main.py:348-407 | The bundle is accepted exactly when its commitment and its explicit hash hold; an unreadable bundle or missing receipt is the only error reported, and every other error is reported exactly when it applies |
| BundleVerify.WalkPath | clawctl/main.py:255-304 | The moving cursor ends where the path leads, or nowhere |
| BundleVerify.ReadEmbeddedHash | clawctl/main.py:255-304 | The hash found is the first one along the fixed list of places |
| BundleVerify.PayloadDecides | clawctl/main.py:185-200 | The hashed payloads of two receipts are equal if and only if the seven stable fields are, a missing one counting as null |
| BundleVerify.EmbeddedHashBinds | clawctl/main.py:387-407 | Two accepted receipts with explicit hashes have the same hash exactly when their stable fields agree, or the payloads collide |
| BundleVerify.EnforcedExactly | clawctl/main.py:387-407 | The hash that is read must be the computed one, for every hash function, exactly when the receipt has an explicit hash |
| BundleVerify.ExplicitPassesExactly | clawctl/main.py:206-304 | A receipt with an explicit hash is accepted exactly when the first digest along the read places, the commitment included, is the computed one |
| BundleVerify.ExplicitMustBeReadable | clawctl/main.py:206-304 | A receipt with an explicit hash and no digest in any read place is rejected |
| BundleVerify.RightHashRejected | clawctl/main.py:206-304 | A receipt that holds nothing but its right hash under `integrity.hash` is rejected |
| BundleVerify.CommitmentIsComparedInstead | clawctl/main.py:255-304 | With a commitment beside it, that receipt passes only if the commitment happens to be the computed hash |
| BundleVerify.ChecksHashIsNotEnforced | clawctl/main.py:206-304 | A receipt whose only hash stands under `checks` is accepted with any digest there, whatever the hash function |
| BundleVerify.ExplicitExactly | clawctl/main.py:206-252 | A hash is explicit exactly in seventeen places, of which the second under `meta` counts only if the first is empty |
| BundleVerify.ReadOrder | clawctl/main.py:263-304 | The seventeen places in the order in which they are read |
| BundleVerify.WalkTwo | clawctl/main.py:282-292 | A path of two keys leads into an object under the first |
| BundleVerify.HexIsNormalised | clawctl/main.py:282-304 | A digest is read stripped and in lower case |
| BundleVerify.NormalizeExactly | clawctl/main.py:307-345 | Where timeline and receipt are found under both calling conventions |
| BundleVerify.CommitmentExactly | clawctl/main.py:377-385 | Commitment and frozen digest must be equal when neither is empty |
| BundleVerify.OddCommitments | clawctl/main.py:383-385 | A true in place of the frozen digest agrees with a commitment of one |
| AnchorProtocol.StepKeepsInv | backend/anchoring/store.py:319-464 | Every event keeps the invariant of table, submissions, picks, reads and sightings, and undoes nothing |
| AnchorProtocol.RowTable | backend/anchoring/store.py:319-464 | Every field of the row that each write leaves behind |
| AnchorProtocol.ChainTable | backend/anchoring/store.py:59-66 | The names of the two chains, in any case and with white space around |
| AnchorProtocol.FailureTable | backend/anchoring/store.py:50-56 | A failure is retryable when its kind contains the word, and plain when it names nothing |
| AnchorProtocol.NewestDecides | backend/anchoring/store.py:362-379 | An older job of a root and chain is not the one looked at |
| AnchorProtocol.StatusTable | backend/anchoring/anchor_drainer.py:21-42 | Which statuses count as failed, pending and good enough for the mirror |
| AnchorProtocol.TxidExactly | backend/anchoring/confirmation_poll.py:57-62 | A transaction id is one of a chain exactly when it has 64 hexadecimal digits of either case |
| AnchorProtocol.RunKeepsInv | backend/anchoring/store.py:319-464 | So does every run |
| AnchorProtocol.BroadcastAtMostOnce | backend/anchoring/store.py:319-354 | In every reachable state each job was submitted at most once, the rows carry exactly the submitted transactions, and queued and failed jobs carry none |
| AnchorProtocol.NothingIsUndone | backend/anchoring/store.py:426-464 | No later run changes or clears a transaction id or leaves the confirmed status |
| AnchorProtocol.MirrorNeverAhead | backend/anchoring/anchor_drainer.py:21-42 | A Dogecoin job that has left the queue has a Bitcoin job for its root on chain, now and after any further run |
| AnchorProtocol.TwoDrainersBroadcastTwice | backend/anchoring/anchor_drainer.py:45-191 | Two drain loops at once can broadcast a job twice |
| AnchorProtocol.TwoOperatorsBroadcastTwice | backend/anchoring/store.py:536-583 | Two retries at once can make a job be broadcast again after success |
| AnchorProtocol.AtMostOnceIffExclusive | backend/anchoring/store.py:536-583 | Broadcast at most once holds in every run if and only if there is no drainer, or one drainer and at most one operator |
| AnchorProtocol.NothingIsUndoneIffExclusive | backend/anchoring/store.py:426-464 | No run undoes anything exactly for one drainer and at most one operator, or no drainer |
| AnchorProtocol.MirrorNeverAheadIffExclusive | backend/anchoring/anchor_drainer.py:21-42 | No mirror gets ahead of its Bitcoin job for exactly the same numbers |
| AnchorStore.AnchoringStore.InsertAnchorJob | backend/anchoring/store.py:319-354 | A new id adds one queued row, a taken one changes nothing; the table stays reachable by the protocol |
| AnchorStore.AnchoringStore.UpdateSubmitted | backend/anchoring/store.py:426-437 | One row becomes submitted with the stripped transaction id, all others stay |
| AnchorStore.AnchoringStore.UpdateFailed | backend/anchoring/store.py:439-451 | One row takes the failure status of the given kind, all others stay |
| AnchorStore.AnchoringStore.MarkConfirmed | backend/anchoring/store.py:453-464 | One row becomes confirmed, all others stay |
| AnchorStore.AnchoringStore.LatestJob | backend/anchoring/store.py:362-379 | A latest batch job for root and chain, or none exists |
| AnchorStore.FailureKindMeans | backend/anchoring/store.py:50-56 | A malformed row fails for good, every other failure of the drain may be retried |
| AnchorStore.QueueOrderIsTotal | backend/anchoring/store.py:395-408 | The queue order by root, chain and time is a total preorder, so the listing is well defined up to ties |
| AnchorStore.OrderTable | backend/anchoring/store.py:395-424 | Root before chain before time in the queue, oldest updates first for the poll |
| AnchorStore.BatchTable | backend/anchoring/store.py:395-424 | Which jobs the two listings select |
| AnchorStore.SelectWindow | backend/anchoring/store.py:395-424 | The listing holds the first rows of the order, without repetition, as many as fit, and nothing outside comes before anything inside |
| AnchorStore.AnchoringStore.FilterEligible | backend/anchoring/anchor_drainer.py:21-42 | What passes may go ahead and keeps the order of the listing, and everything else in it must wait |
| AnchorStore.EligibleOrHeldBack | backend/anchoring/anchor_drainer.py:21-42 | With one Bitcoin job a root, a queued job may go ahead exactly when it need not wait |
| AnchorStore.BitcoinFirst | backend/anchoring/anchor_drainer.py:70-75 | When a mirror is taken, no Bitcoin job for its root is left in the queue |
| AnchorStore.AnchoringStore.Attempt | backend/anchoring/anchor_drainer.py:76-166 | Which branch is taken, what the chain is asked, what becomes of the row and of the submissions, and that it is two steps of the protocol |
| AnchorStore.WellFormedTable | backend/anchoring/anchor_drainer.py:76-100 | A root of 64 characters and a named network make a job well formed, and a network is a mainnet by the end of its name |
| AnchorStore.AnchoringStore.DrainOne | backend/anchoring/anchor_drainer.py:70-166 | One turn takes the first job of the listing that may go ahead out of the queue, or finds that everything listed must wait and changes nothing |
| AnchorStore.AnchoringStore.Drain | backend/anchoring/anchor_drainer.py:45-191 | Submitted plus failed is the drop of the queue and within the budget, the jobs submitted, rejected on Bitcoin, rejected on the other chain and stopped by the mainnet switch are counted exactly, and with at most 80 jobs and budget for all every job left must wait; with one Bitcoin job a root none left is eligible |
| AnchorStore.ListedUnlessEightyAhead | backend/anchoring/store.py:395-408 | A job is listed when fewer than 80 come before or tie with it, and is not while 80 come before it |
| AnchorStore.ListedExactly | backend/anchoring/store.py:395-424 | A queued job is in every listing exactly when fewer than 80 others come before it or tie with it, and in some listing exactly when fewer than 80 come strictly before it |
| AnchorStore.CrowdBlocksTheRest | backend/anchoring/store.py:395-408 | For any number of waiting mirrors from 80 on, a reachable store in which they keep an eligible job out of every listing |
| AnchorStore.DeepExactly | backend/anchoring/confirmation_poll.py:35-75 | When a job is promoted: a provider's word suffices up to a threshold of a million, its denial never, and a wallet's depth is compared as it is |
| AnchorStore.RequiredMeans | backend/anchoring/confirmation_poll.py:44-50 | The depth asked is the one configured for the job's chain and at least one |
| AnchorStore.OutlookMeans | backend/anchoring/confirmation_poll.py:113-128 | A job is judged by its own report and the configured depths, and not without a report |
| AnchorStore.OneMoreIsNeverDeep | backend/anchoring/config.py:140-147 | A configured depth of a million and one is never reached through a provider |
| AnchorStore.AnchoringStore.Poll | backend/anchoring/confirmation_poll.py:78-134 | It looks at the oldest updates first, at all of them unless it reaches its cap; promotions are the drop of pending jobs and steps of the protocol |
| AnchorStore.PolledRows | backend/anchoring/confirmation_poll.py:113-128 | Of the jobs looked at exactly the ones reported deep enough are confirmed, and no other row changes |
| AnchorStore.PollRuns | backend/anchoring/confirmation_poll.py:113-128 | What a poll does to the table is a run of the protocol |
| AnchorStore.NoDeepJobLeft | backend/anchoring/confirmation_poll.py:113-128 | With room for all, no pending job that is deep enough is left |
| AnchorStore.AnchoringStore.Retry | backend/anchoring/store.py:536-583 | Exactly one retryable failed job goes back to the queue, or nothing changes and the reason is the true one; no job is found exactly for the stated reasons |
| DualChainStatus.ReachablePhase | backend/anchoring/dual_chain_status.py:27-79 | On a reachable store with both jobs the phase is one of ten, and `fully_anchored` means both confirmed |
| DualChainStatus.PhaseTable | backend/anchoring/dual_chain_status.py:27-73 | The phase for each of the 25 pairs of missing, queued, failed, pending and confirmed |
| DualChainStatus.PhasesExactly | backend/anchoring/dual_chain_status.py:27-79 | With one drainer exactly those ten phases occur |
| DualChainStatus.FullyAnchoredIsFinal | backend/anchoring/dual_chain_status.py:27-79 | No later run leaves `fully_anchored` as long as the first listed job of each chain stays the first, whatever jobs are added |
| DualChainStatus.LaterJobsChangeNothing | backend/anchoring/dual_chain_status.py:27-79 | So it is final when the first jobs were created before all others of the root and jobs added later are created later |
| DualChainStatus.MirrorFailedLabelIsDead | backend/anchoring/dual_chain_status.py:27-73 | No pair of statuses yields the label `mirror_failed_retryable` |
| DualChainStatus.PossibleExactly | backend/anchoring/dual_chain_status.py:27-79 | With any number of jobs the phase is one of the ten exactly when the Bitcoin job listed first is on chain or the Dogecoin job listed first is queued |
| DualChainStatus.DuplicateJobsMislead | backend/anchoring/dual_chain_status.py:76-79 | With a second Bitcoin job a reachable store, listed by chain and creation time, can be shown as "Dogecoin before Bitcoin" |
| ReceiptBatches.StepKeepsInv | backend/anchoring/store.py:217-282 | Appends and closes keep one open batch, receipts unique and leaf indices exactly 0 to count - 1, and move no receipt |
| ReceiptBatches.RunKeepsInv | backend/anchoring/store.py:217-282 | So does every run of them |
| ReceiptBatches.CountIsSize | backend/anchoring/store.py:217-282 | A batch's counter is the number of its receipts |
| ReceiptBatches.FromEmpty | backend/anchoring/store.py:217-282 | All this holds of every table that a run from empty tables reaches |
| ReceiptBatches.TwoAppends | backend/anchoring/store.py:217-282 | The tables after two appends and a close, in full |
| ReceiptBatches.NextLeafIsCount | backend/anchoring/store.py:217-282 | The next free leaf index is the counter |
| ReceiptBatches.ReceiptBatchStore.OldestOpen | backend/anchoring/store.py:217-282 | The open batch with the earliest opening time, or none is open |
| ReceiptBatches.ReceiptBatchStore.NextLeaf | backend/anchoring/store.py:217-282 | One more than the largest leaf index of the batch |
| ReceiptBatches.ReceiptBatchStore.AppendReceipt | backend/anchoring/store.py:217-282 | The receipt is appended to the one open batch or a new one; on a duplicate both tables are as before, with the exact reasons for failing |
| CoinSelection.SelectInputs | build_opreturn_psbt.py:140-153 | The shortest largest-first prefix that reaches the target, or all outputs when none does |
| CoinSelection.LargestIsBest | build_opreturn_psbt.py:140-153 | No choice of n outputs is worth more than the n largest |
| CoinSelection.GreedyIsOptimal | build_opreturn_psbt.py:140-153 | For a positive target no choice of fewer outputs reaches it, and if the selection does not reach it no choice does |
| CoinSelection.OptimalIffPositive | build_opreturn_psbt.py:140-153 | The selection is a smallest choice exactly when the target is positive |
| CoinSelection.ZeroTargetTakesOne | build_opreturn_psbt.py:140-153 | With a target of zero one output is picked where none is needed |
| FeeSolver.SettledIsGood | build_opreturn_psbt.py:204-255 | Inputs are payment plus fee plus change exactly, change is nothing or above dust, and the fee lies between its two bounds, with the exit that underpays told exactly |
| FeeSolver.FeesByPayload | build_opreturn_psbt.py:120-129 | One more byte of payload costs exactly the rate, and the size is told in bytes |
| FeeSolver.PlanWithPayload | build_opreturn_psbt.py:168-255 | A request with a full payload whose only good plan charges 232 and gives 1768 back |
| FeeSolver.PlanWithoutChange | build_opreturn_psbt.py:226-238 | A payment whose only good plan has no change and a fee of 500 |
| FeeSolver.DustIsExact | build_opreturn_psbt.py:226-255 | Change of 330 satoshis is kept and of 329 is not |
| FeeSolver.RecalcOccurs | build_opreturn_psbt.py:238-247 | A request whose every good plan keeps the change and pays 341 satoshis less than the rate asks for |
| FeeSolver.Solve | build_opreturn_psbt.py:168-255 | Every plan returned is good and uses the shortest prefix that covers the request; the errors are told exactly |
| FeeSolver.NextPick | build_opreturn_psbt.py:204-255 | Every further round picks strictly more unless all is picked, and skips no prefix that covers |
| FeeSolver.FewestInputs | build_opreturn_psbt.py:168-255 | No choice of outputs that pays for a transaction with change is smaller than the plan; a smaller one may pay for the layout without change |
| FeeSolver.FewestInEitherLayout | build_opreturn_psbt.py:168-255 | No choice that pays in either layout is smaller exactly when the plan's inputs without the last do not pay even without change |
| FeeSolver.OneWouldDo | build_opreturn_psbt.py:168-255 | Two outputs of 130 satoshis that every good plan takes, where one pays without change |
| FeeSolver.GivesUpTooEarly | build_opreturn_psbt.py:168-255 | With six outputs of 76 and six of 75 satoshis as the largest, in any order and with any smaller ones, the solver gives up on a request that the twelve pay with change |
| FeeSolver.TenRoundsExactly | build_opreturn_psbt.py:194-255 | For a number of outputs, it gives up exactly on the requests for which no choice of outputs pays for a transaction with change, if and only if that number is at most eleven |
| FeeSolver.GivesUpExactly | build_opreturn_psbt.py:168-255 | On a request it gives up exactly when no choice of outputs can pay it in either layout, whatever the outputs are, if and only if the fee rate is zero |
| FeeSolver.ExactOutputIsRefused | build_opreturn_psbt.py:212-238 | At any positive rate a single output that pays for the layout without change and no more is refused |
| FeeSolver.RefusesPayableExactly | build_opreturn_psbt.py:168-255 | With up to eleven outputs a payable request is refused exactly when some largest-first prefix pays without change and none pays with it |
| FeeSolver.GivesUpByLargest | build_opreturn_psbt.py:168-255 | With up to eleven outputs it gives up exactly when no largest-first prefix pays for a transaction with change |
| RedlineDiff.SplitMakesBlocks | backend/agreements/pro_redline_diff.py:12-20 | Blocks are non-empty and trimmed; there are none exactly for a blank text |
| RedlineDiff.SampleBlocks | backend/agreements/pro_redline_diff.py:12-20 | A blank line separates blocks, whatever its line ends |
| RedlineDiff.SampleLine | backend/agreements/pro_redline_diff.py:12-20 | A single newline does not |
| RedlineDiff.SplitJoin | backend/agreements/pro_redline_diff.py:12-20 | Splitting undoes joining on blocks without "\r\n" |
| RedlineDiff.ResplitIff | backend/agreements/pro_redline_diff.py:12-20 | Splitting the joined blocks of a document gives them back exactly when no block holds "\r\n" |
| RedlineDiff.BlocksHold | backend/agreements/pro_redline_diff.py:12-20 | A trimmed text without a blank line stands in the document exactly when it stands in one of its blocks |
| RedlineDiff.NoCrLfExactly | backend/agreements/pro_redline_diff.py:12-20 | Some block holds "\r\n" exactly when the document, its line ends replaced, has one with ink on both sides and no blank line between |
| RedlineDiff.StableWithoutCrCrLf | backend/agreements/pro_redline_diff.py:12-20 | In particular no block holds "\r\n" when the text has no "\r\r\n" |
| RedlineDiff.CrCrLfIsUnstable | backend/agreements/pro_redline_diff.py:12-20 | And not for some text with it |
| RedlineDiff.DiffOne | backend/agreements/pro_redline_diff.py:23-60 | One opcode becomes at most one block, of the kind that says what happened to the slices, whose sides split back into the slices, or into shorter ones when a slice holds "\r\n" |
| RedlineDiff.Diff | backend/agreements/pro_redline_diff.py:23-60 | For every tiling list of opcodes the output rebuilds the blocks of a document exactly when none of them holds "\r\n", the count is the number of changed blocks, and no change means equal documents |
| TextLines.ConcatSplit | backend/agreements/premium_refine_narrow.py:312-335 | Splitting into lines with their ends and joining gives the text back |
| TextLines.SplitConcat | backend/agreements/premium_refine_narrow.py:312-335 | And the other way round on lists of lines |
| TextLines.LineEndTable | backend/agreements/premium_refine_narrow.py:312-364 | The characters that end a line |
| TextLines.SampleLines | backend/agreements/premium_refine_narrow.py:312-364 | A text with three kinds of line end |
| ClauseNumbers.RaiseIsLeast | backend/agreements/premium_refine_narrow.py:312-335 | The monotonic pass gives the least strictly increasing numbers from 1 that are nowhere below the original |
| ClauseNumbers.RaiseFixes | backend/agreements/premium_refine_narrow.py:312-335 | It changes no number exactly when they already ascend |
| ClauseNumbers.RaiseIsIdempotent | backend/agreements/premium_refine_narrow.py:312-335 | A second pass changes no number |
| ClauseNumbers.BumpCounts | backend/agreements/premium_refine_narrow.py:338-364 | Bumped numbers count up from the one after the inserted number |
| ClauseNumbers.BumpExactly | backend/agreements/premium_refine_narrow.py:312-364 | Every number below the inserted one stays, and the others are counted up in their order |
| ClauseNumbers.InsertKeepsAscending | backend/agreements/premium_refine_narrow.py:397-412 | Ascending numbers still ascend after inserting and bumping |
| LateFee.EnsureMonotonic | backend/agreements/premium_refine_narrow.py:312-335 | The loop over the lines computes the specified pass |
| LateFee.BumpNumbered | backend/agreements/premium_refine_narrow.py:338-364 | The loop over the lines computes the specified bump |
| LateFee.BumpNumbers | backend/agreements/premium_refine_narrow.py:338-364 | The bump changes the numbers as specified and nothing but the numbers |
| LateFee.HeadingIsCut | backend/agreements/premium_refine_narrow.py:312-364 | White space, the mark, a number and a tail make a heading |
| LateFee.NotAHeading | backend/agreements/premium_refine_narrow.py:312-364 | A number without a tail, a tail without a number or another mark does not |
| LateFee.TailTable | backend/agreements/premium_refine_narrow.py:312-364 | What counts as a tail |
| LateFee.MarkInLetters | backend/agreements/premium_refine_narrow.py:312-364 | The mark of a section number |
| LateFee.MonotonicMeans | backend/agreements/premium_refine_narrow.py:312-335 | On texts: the numbers become the least ascending ones and every other character of every line stays |
| LateFee.MonotonicFixes | backend/agreements/premium_refine_narrow.py:312-335 | The text is unchanged exactly when its numbers ascend from 1 and are written without leading zeros |
| LateFee.MonotonicIsIdempotent | backend/agreements/premium_refine_narrow.py:312-335 | The pass applied to its own result changes nothing |
| LateFee.InsertClause | backend/agreements/premium_refine_narrow.py:397-412 | The result of the numbered insertion ascends and is the original when numbers and insertion are erased; if the original ascended and the first number is reused, the numbers are the old ones, the reused one and the ones after it counted up |
| LateFee.InsertionIsConservative | backend/agreements/premium_refine_narrow.py:397-412 | The numbers of the result ascend, and without them and the inserted paragraph the text is the original without its numbers |
| LateFee.FinalPassIsIdle | backend/agreements/premium_refine_narrow.py:397-412 | If the original numbers ascended and the first one after the insertion is reused, the final pass changes no number, and no character exactly when the text before the insertion has no leading zeros |
| LateFee.LeadingZeroIsRewritten | backend/agreements/premium_refine_narrow.py:312-335 | A heading with a leading zero is rewritten although its number already ascends |
| AnchorPatch.PatchOnlyInserts | backend/agreements/premium_refine_narrow.py:422-467 | When a patch is made, exactly, and that it only inserts behind the anchor |
| AnchorPatch.CountDecidesExactly | backend/agreements/premium_refine_narrow.py:462-467 | A count of one means one place in every document exactly for the anchors of which no beginning is also an ending |
| AnchorPatch.BorderedOccursTwice | backend/agreements/premium_refine_narrow.py:462-467 | For every other anchor, a document in which it counts once and occurs twice |
| AnchorPatch.OverlapsCountOnce | backend/agreements/premium_refine_narrow.py:462-467 | A concrete one |
| UsageGuard.RecipientBucket.Acquire | backend/llm_usage_guard.py:104-127 | Each call is answered as its history demands |
| UsageGuard.RecipientStore.TryAcquire | backend/llm_usage_guard.py:104-127 | The answer depends on the calls under this key alone, and no other key is touched |
| UsageGuard.RecipientStore.Peek | backend/llm_usage_guard.py:130-135 | Fifteen less the grants so far |
| UsageGuard.VerdictExactly | backend/llm_usage_guard.py:104-127 | Over every history on a clock that never goes back the verdict of each call is the one told by denials and grants before it, without any bucket state |
| UsageGuard.AtMostFiveInAnyWindow | backend/llm_usage_guard.py:104-127 | On a clock that never goes back no closed twelve-second window holds more than five grants |
| UsageGuard.AtMostFiveForward | backend/llm_usage_guard.py:104-127 | On any clock at most five calls are granted while it goes forward by twelve seconds |
| UsageGuard.GrantCountIsGrants | backend/llm_usage_guard.py:104-127 | The calls counted there are, over a whole history, all its grants |
| UsageGuard.SixInAWindow | backend/llm_usage_guard.py:104-127 | A clock that is set back, with six grants in a twelve-second window by its readings |
| UsageGuard.EveryGrantCounts | backend/llm_usage_guard.py:104-127 | The counter is the number of grants and never exceeds fifteen |
| UsageGuard.SixthCall | backend/llm_usage_guard.py:104-127 | After calls at seconds 0 to 4 a sixth one is a burst denial up to second 12 and granted later |
| UsageGuard.CallAfterDenial | backend/llm_usage_guard.py:104-127 | After a burst denial at second 10 calls are refused up to second 45 |
| UsageGuard.SixteenthCall | backend/llm_usage_guard.py:104-127 | Of sixteen calls thirteen seconds apart exactly the last is refused, for want of slots |
| UsageGuard.RemainingInNumbers | backend/llm_usage_guard.py:104-127 | The first grant leaves fourteen |
| UsageGuard.KeyInLetters | backend/llm_usage_guard.py:72-73 | The key of an agreement and a fingerprint |
| UsageGuard.CoolingExactly | backend/llm_usage_guard.py:104-127 | A call is refused as cooling exactly when a burst denial is less than 35 seconds back, on any clock |
| UsageGuard.VerdictOnAnyClock | backend/llm_usage_guard.py:104-127 | The same on any clock, with the grants that no call in between has found too old |
| UsageGuard.AfterCooldownExactly | backend/llm_usage_guard.py:104-127 | On any clock the first call after a cooldown is a burst denial again exactly when every grant behind the first denial is still at most twelve seconds back; otherwise it is granted while a slot is left |
| UsageGuard.GrantedAfterCooldown | backend/llm_usage_guard.py:104-127 | On a clock that never goes back the first call after a cooldown is granted whenever a slot is left |
| UsageGuard.DeniedAfterCooldown | backend/llm_usage_guard.py:104-127 | A clock that is set back, with two burst denials in a row |
| UsageGuard.KeySeparates | backend/llm_usage_guard.py:72-73 | Fingerprints without a colon never share a key |
| UsageGuard.KeysApartExactly | backend/llm_usage_guard.py:72-73 | Two fingerprints can share a key exactly when one ends in a colon and the other |
| UsageGuard.ColonsCollide | backend/llm_usage_guard.py:72-73 | A concrete pair of keys |
| TokenBucket.RateState.Allow | backend/main.py:260-274 | The answer depends on the requests of this key alone; with limits off everything passes and nothing is stored |
| TokenBucket.GrantedExactly | backend/main.py:260-274 | For any clock, a request is granted if and only if no window ending at it would exceed burst plus rate times the time the clock went forward |
| TokenBucket.ForwardRateBound | backend/main.py:260-274 | For any clock, between any two requests at most burst plus rate times forward time are granted |
| TokenBucket.RateBound | backend/main.py:260-274 | With a clock that never goes back that is at most burst plus rate times elapsed time |
| TokenBucket.RateBoundExactly | backend/main.py:260-274 | A history keeps to the elapsed-time bound under all limits exactly when its clock never goes back |
| TokenBucket.TokensInRange | backend/main.py:260-274 | Stored tokens stay between zero and the burst, whatever the clock does |
| TokenBucket.ServedAfterPause | backend/main.py:260-274 | With burst at least one, a request 1/rate after the previous one is granted, whatever the clock did before |
| TokenBucket.EveryRequestRefused | backend/main.py:260-274 | All requests of a history are refused exactly when the burst is below one |
| TokenBucket.BackwardsClockBreaksBound | backend/main.py:260-274 | Two grants in a window whose readings allow one |
| UsdcText.MicrosRoundsDown | backend/affiliates/usdc_conversion.py:11-28 | The base units of an amount are as many as fit in it |
| UsdcText.ReadFixed | backend/affiliates/usdc_conversion.py:11-28 | The text with six or eighteen digits reads back as exactly the units printed |
| UsdcText.MicrosOfText | backend/affiliates/safe_batch_export.py:41-55 | Converting what was read back gives the same units again |
| UsdcText.ConvertMeans | backend/affiliates/usdc_conversion.py:11-28 | The two texts have eighteen and six digits behind the point and read as exactly the base units |
| UsdcText.WholeReads | backend/affiliates/safe_batch_export.py:40-52 | Digits read as their value |
| UsdcText.PointReads | backend/affiliates/safe_batch_export.py:40-52 | So do digits with a point, but for the point alone |
| UsdcText.NothingElseReads | backend/affiliates/safe_batch_export.py:40-52 | Nothing else reads without a sign |
| UsdcText.SignReads | backend/affiliates/safe_batch_export.py:40-52 | A sign turns the value round or leaves it |
| UsdcText.PlainComesFirst | backend/affiliates/safe_batch_export.py:40-52 | Only what does not read as a plain decimal is left to the rest of `Decimal` |
| SafeBatch.NormAddrTwice | backend/affiliates/evm_wallet.py:13-33 | A normalised wallet normalises to itself |
| SafeBatch.AddressExactly | backend/affiliates/evm_wallet.py:13-33 | An address is "0x" and forty hexadecimal digits of either case |
| SafeBatch.StoredTextWins | backend/affiliates/safe_batch_export.py:36-52 | An item is worth its stored text, whatever its dollars |
| SafeBatch.DollarsOtherwise | backend/affiliates/safe_batch_export.py:36-52 | Without a text that reads it is worth its dollars |
| SafeBatch.ResolveExactly | backend/affiliates/safe_batch_export.py:36-52 | An item pays its own wallet, or the fallback when it names none |
| SafeBatch.OwedExactly | backend/affiliates/safe_batch_export.py:93-116 | What is owed, item by item |
| SafeBatch.FallbackExactly | backend/affiliates/safe_batch_export.py:76-92 | The fallback is the first wallet that is not blank |
| SafeBatch.BuildTransactions | backend/affiliates/safe_batch_export.py:58-133 | The aggregation and the transaction loop compute the specified export, errors included |
| SafeBatch.ExportConserves | backend/affiliates/safe_batch_export.py:93-116 | Each wallet gets exactly the sum of its items, in one positive transfer, in ascending order, and the totals agree |
| SafeBatch.ExportSucceedsExactly | backend/affiliates/safe_batch_export.py:76-116 | When there is an export: a usable first wallet, only usable wallets, and something to pay |
| SafeBatch.ExportFailsExactly | backend/affiliates/safe_batch_export.py:76-116 | Every way to fail, told exactly |
| PayoutBatches.PrepareDrafts | backend/affiliates/payout_batches.py:23-171 | Grouping and the loop over affiliates compute the specified drafts and skip lists |
| PayoutBatches.DecideOne | backend/affiliates/payout_batches.py:51-94 | The checks and totals for one affiliate |
| PayoutBatches.DraftsExactly | backend/affiliates/payout_batches.py:36-94 | A draft exists exactly for the affiliates that pass every check, is made of all their rows, and there is one each |
| PayoutBatches.DraftHolds | backend/affiliates/payout_batches.py:51-94 | The draft names its affiliate, has one item per earning with its dollars, wallet and units, and a total in whole cents that is within half a cent of the sum and at least the threshold |
| PayoutBatches.SampleDraft | backend/affiliates/payout_batches.py:51-94 | A draft of two earnings in full, with a half cent to round |
| PayoutBatches.ThresholdIsEnough | backend/affiliates/payout_batches.py:53-55 | A total at the threshold is enough and a cent less is not |
| PayoutBatches.RoundHalfEvenMeans | backend/affiliates/payout_batches.py:53 | Rounding goes to the nearest whole number, and from half way to the even one |
| PayoutBatches.SkippedExactly | backend/affiliates/payout_batches.py:51-75 | An affiliate is skipped exactly when its total suffices but its wallet is unusable or cooling |
| PayoutBatches.ExportPaysTheDraft | backend/affiliates/payout_batches.py:51-94 | Exporting a draft gives one transfer to the frozen wallet of exactly the draft's total, which is also what the stored total reads as |
| PayoutBatches.TotalsAgreeExactly | backend/affiliates/payout_batches.py:51-94 | With whole-cent earnings the dollar and the USDC total agree exactly when no earning is negative |
| PayoutBatches.TotalsNeverFarApart | backend/affiliates/payout_batches.py:51-94 | With any non-negative earnings they differ by half a cent and one base unit a row at most |
| PayoutBatches.DraftTotalsAgreeExactly | backend/affiliates/payout_batches.py:51-94 | So the two totals stored with a draft agree exactly in that case, and its dollars are the sum |
| PayoutBatches.DraftTotalsNeverFarApart | backend/affiliates/payout_batches.py:51-94 | And are otherwise as close |
| PayoutBatches.NegativeEarningIsNotDeducted | backend/affiliates/usdc_conversion.py:20-22 | A concrete batch of 49 dollars that sends 50 USDC |
| Streaks.MeaningfulDays | backend/affiliates/streaks.py:19-29 | Exactly the days with a row that counts something |
| Streaks.MeaningfulTable | backend/affiliates/streaks.py:19-29 | Any one of four counts makes a day count |
| Streaks.BestConsecutiveRun | backend/affiliates/streaks.py:32-44 | The length of the longest run of consecutive days |
| Streaks.WalkBack | backend/affiliates/streaks.py:61-67 | The walk stops, with the longest run that ends at the anchor day |
| Streaks.ComputeStreakBundle | backend/affiliates/streaks.py:47-85 | The bundle is the one the days and the clock determine |
| Streaks.BundleIsExact | backend/affiliates/streaks.py:47-85 | Current never exceeds best, is positive exactly when today or yesterday counts, is at risk only on yesterday, and nothing else fits the days |
| Streaks.SampleBundle | backend/affiliates/streaks.py:47-85 | The bundle of six days, seen on three days and at any hour |
| Streaks.SyncedInNumbers | backend/affiliates/streaks.py:88-110 | A shorter streak does not lower the best one, and a longer one raises it |
| Streaks.TodayExtends | backend/affiliates/streaks.py:47-85 | Activity today lengthens yesterday's streak by one |
| Streaks.Profile.Sync | backend/affiliates/streaks.py:88-110 | The stored fields after a sync, and an event exactly when a streak field changed |
| Streaks.BestIsMaximum | backend/affiliates/streaks.py:88-110 | Over any sequence of syncs the stored best never decreases and is the largest streak ever computed, or the original one |

## Left out

- AnchorStore.AnchoringStore.Attempt: does not model a crash or a store error between an accepted submission and the write of its status; at most one broadcast is claimed when status writes succeed. Logging, alerts and the columns for the last error, the failure kind and the broadcast time are left out.
- AnchorStore.AnchoringStore.Drain: does not model the switch that turns anchoring off as a whole.
- ReceiptBatches.ReceiptBatchStore.AppendReceipt: batches close by a bare status change; the Merkle root of a batch is not part of this model.
- ReproVerify.Verify: does not model the artifact files that `pack.json` lists, nor the reading of the files.
- BundleVerify.VerifyBundle: does not model the per-check report that goes with the errors.
- CanonJson.CanonBytesDecide: does not cover numbers that are not integers, lone surrogates and object keys that are not strings.
- FeeSolver.Solve: does not model the PSBT encoding, address handling and block explorer calls around the solver; fee rates are integers.
- RedlineDiff.Diff: `difflib` is not modelled; its opcodes are only required to tile both sides in order with equal slices equal.
- LateFee.InsertClause: the searches for the payment heading and for the first subclause number are not modelled; the insertion point and the number are given. Digits are ASCII digits, where the pattern also accepts other decimal digits.
- AnchorPatch.PatchOnlyInserts: the call to the language model and the parsing of its answer are not modelled.
- UsageGuard.RecipientStore.TryAcquire: concurrent requests in several threads are not modelled; the clock is an argument.
- TokenBucket.RateState.Allow: the limits are fixed for a history, where the code reads them from the environment at every request; threads are not modelled.
- UsdcText.ReadFixed: Decimal context precision is not modelled; exponents, infinities and other unusual texts are read by an arbitrary function.
- SafeBatch.BuildTransactions: batch lookup, status and integrity checks, the token contract, the chain id and the ABI encoding are not modelled; the EIP-55 checksum is an arbitrary function, and where it matters one that changes only the case of letters.
- PayoutBatches.PrepareDrafts: the store is taken to keep the wallet and the six-digit text it is given; promotion of pending earnings, legacy wallet imports, alerts, the storage of dollar totals as floats and marking batches exported or paid are not modelled.
- Streaks.ComputeStreakBundle: a day is a number instead of a text, the earliest date of the calendar is not special, and today and yesterday come from one reading of the clock.
- SQL, connections, JSON-RPC, HTTP: a table is a map, a remote call an arbitrary result, one table access is atomic.
- SHA-256 internals: the digest is an arbitrary function of bytes.
- Premium gates, momentum, badges, trust scores, wallet runway, templates and command-line code: heuristics or I/O with only easy claims.
