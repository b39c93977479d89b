# GroktoCrawl, modelled and proved in Dafny

GroktoCrawl is a self-hosted crawling and research service. This project models the parts of it whose
guarantees range over whole runs, and proves those guarantees for every input, every interleaving, every
server behaviour or every interruption point. `dafny verify dfyconfig.toml` checks all of it.

| files | what they model |
|---|---|
| `AdmissionLane`, `AdmissionRuns`, `AdmissionTheorems`, `Admission` | the weighted admission controller: the state of one resource class, every interleaving of its callers, the theorems, and the object itself |
| `Utf8`, `Json`, `CanonicalJson` | UTF-8 (section 3 of RFC 3629) and canonical JSON (RFC 8259) with their inverses |
| `EvidenceChecks`, `EvidencePlans`, `EvidenceRuns` | the staged evidence-request builder: validation, the request chain, every run of builder calls |
| `EvidenceAcceptance`, `EvidenceRefusals`, `EvidenceExamples`, `EvidenceRequests` | exactly which states and hypotheses are accepted, what each refusal says, accepted examples, and exactly when each stage plans which request |
| `RankAcceptance`, `RankSample` | acceptance of a rank migration and the bounded-heap sample of its queries |
| `Rulesets`, `Reconciler`, `ReconcilerGate`, `ReconcilerStore`, `ReconcilerVerify` | the branch-ruleset comparator, the reconciler against any server, its safety gate and how far a run gets, convergence on a storing server, read-only verification |
| `DiffParser` | the changed-line parser against a printer of unified diffs, with or without context |
| `SessionStore`, `CircuitBreaker`, `BreakerProbes`, `CheckpointedGrading` | the TTL session store, the circuit breaker, its callers and the probes they have out, the resumable adjudication run |
| `WorkOrder`, `SourceAggregate`, `HybridMerge` | the counterbalanced work order and its freeze checks, per-arm aggregates, the hybrid result merge |
| `Options` | the optional value |

How the parts outside the code appear: clocks are parameters that never go back; random shuffles are arbitrary
arrangements; a server is any function of the whole request history; Hermes is any function of all calls made so
far; SHA-256 is a parameter, taken as injective in `EvidenceRuns` and as distinct on the scanned ids in `RankSample`,
and nowhere else; scores are reals; a square root is a number whose square is the radicand; `heapq` lists are
represented by their entries in order.
`asyncio` appears as atomic steps: resolving a waiter's future and resuming its task are different steps, and a
cancellation or timeout may be delivered between them.

Findings. Each names the runs or inputs that show it, and the lemma that says exactly when the code does keep the
promise:

- A cancelled grant is refunded without draining, so on every class that can queue at all a request can be left waiting
  on an idle class until it is cancelled or times out (`RefundWedgesExactly`, `WedgeLasts`), although common/admission.py:188-191 is there to prevent lost budget. The head
  of the queue stays blocked throughout a run, so that nobody who fits is left waiting, if and only if every handler is
  safe when it runs (`BlockedThroughoutExactly`, `HandlerBlocksExactly`).
- A grant that is reported as a timeout is never refunded, and a class can lose its whole budget that way and then
  never admits anybody again (`LeakReachedExactly`, `LeakLocksOut`). A run leaks exactly the weight of the granted requests it
  reports as timed out (`LeaksExactly`). Runs with safe handlers and without such timeouts serve everybody
  (`SafeRunsServeAll`).
- The reconciler plans against the first ruleset of a name and verifies the last one. With a duplicate name, apply
  can succeed and verification fail (`DuplicateNameEscapes`); exactly when is `VerifyAfterApply`.
- HALF_OPEN promises exactly one probe (common/circuit_breaker.py:19-23). Stale failures can put any number of probes in
  flight and a stale success can close the circuit under a running probe (`ProbesPileUp`, `StaleSuccessCloses`). The
  promise holds if and only if every report received in HALF_OPEN is the probe's own and no probe leaves without a
  report (`OneProbeExactly`). What holds in every run is the probe rate (`ProbeRate`).
- A probe that is answered with a client error reports nothing (portal-svc/portal/app.py:104-112), and with nobody else
  outstanding the breaker then refuses every request for good (`SilentProbeSticks`, `StuckIsForever`). It can recover
  if and only if it is not in that state (`RecoversExactly`).
- The hybrid merge repeats an entry when both cursors meet on it in one round (`BlendCanRepeat`). It holds exactly one
  surplus entry per meeting, and none if and only if the cursors never meet (`BlendRepeatsExactly`).
- A sweep given a time ahead of the clock removes sessions that a `get` would still return (`FutureSweepIsObserved`); it
  goes unnoticed if and only if no session expires between the clock and that time (`SweepUnnoticedExactly`).
- The work-order builder accepts any number of cases and repeated case ids. What it builds can be frozen if and only if
  there are twelve cases with distinct ids and the manifest's result limit (`FreezesExactly`).
- The check that two contradicting passages share their scope never fails: each has already been compared with the
  hypothesis (`AlignedAlways`).
- An accepted rank migration moves scores by at most three tolerances per rank, and three is attained
  (`RankByRank`, `BoundAttained`).

## Model

| member | source | states |
|---|---|---|
| `AdmissionTheorems.Conservation` | common/admission.py:122-247 | In every run from the idle class, active units equal held + granted-but-not-resumed + leaked units; they are never negative, never above a nonzero limit, and the queue is within its capacity |
| `AdmissionTheorems.NoOvertaking` | common/admission.py:157-173 | In every run, grants by either path are strictly increasing in arrival order, the grant log lists exactly the granted requests, and nobody older than a granted request is still pending |
| `AdmissionTheorems.ArrivalExactly` | common/admission.py:135-173 | After any run, an arrival holds its weight at once if and only if the class is unlimited or nobody queues and it fits; it is refused if and only if its weight is not positive, above the budget, or the queue is full; otherwise it waits last in the queue; nobody else is touched |
| `AdmissionTheorems.BrowserOperationsBounded` | deploy/scaleout.py:31-34 | With the scale-out budget, at most 16 weight-8 operations per replica are in flight at any moment of any run |
| `AdmissionTheorems.BlockedKept` | common/admission.py:148-173 | A release from any reachable state, and every step that is not a cancel or timeout handler, leaves the queue empty or its head too heavy |
| `AdmissionTheorems.HandlerBlocksExactly` | common/admission.py:181-197 | A handler leaves the head blocked if and only if a condition readable before it runs holds: neither handler drains |
| `AdmissionTheorems.BlockedThroughoutExactly` | common/admission.py:148-197 | Over a whole run the head stays blocked if and only if every cancel and timeout handler was safe at the moment it ran |
| `AdmissionTheorems.QueueImpliesActive` | common/admission.py:224-240 | In every run without delivered cancellations or timeouts, a waiting request implies active units |
| `AdmissionTheorems.WindDownTerminates` | common/admission.py:203-240 | However admitted callers resume and release, the number of steps is bounded by a decreasing measure; the invariant and the blocked head survive |
| `AdmissionTheorems.WindDownReachesQuiet` | common/admission.py:203-240 | From any reachable blocked class, resuming and releasing leads to a state in which nobody can do either |
| `AdmissionTheorems.QuietMeansServed` | common/admission.py:224-240 | When no caller can resume or release, active is exactly the leaked weight; with nothing leaked the queue is empty and every waiter was granted or cancelled |
| `AdmissionTheorems.SafeRunsServeAll` | common/admission.py:122-240 | Every run whose handlers are safe when they run and that times out no granted request, followed by any wind-down until it is quiet, leaves nothing active, nobody queued and nobody pending |
| `AdmissionTheorems.HandlerFreeServesAll` | common/admission.py:122-240 | The same of every run without delivered cancellations or timeouts |
| `AdmissionTheorems.RefundWedgesExactly` | common/admission.py:157-197 | Some run from the idle class ends with a waiter queued on an idle class, after the refund of a cancelled grant, if and only if the class has a budget and room to queue |
| `AdmissionTheorems.WedgeLasts` | common/admission.py:157-197 | Such a class admits nobody in any continuation, cancellations and timeouts included, until its queue has been emptied |
| `AdmissionTheorems.WedgeNeedsHandler` | common/admission.py:157-173 | Without a delivered cancellation or timeout that queue is never emptied, whatever arrives |
| `AdmissionTheorems.LeaksExactly` | common/admission.py:181-187 | A run adds to the leaked weight exactly the weight of the granted requests it reports as timed out; it leaks if and only if there is one |
| `AdmissionTheorems.LeakReachedExactly` | common/admission.py:157-187 | Some run from the idle class leaks if and only if the class has a budget and room to queue, and then some run leaks the whole budget |
| `AdmissionTheorems.LeakLocksOut` | common/admission.py:157-187 | Once the whole budget has leaked, no continuation ever grants anything |
| `AdmissionTheorems.LeakIsForever` | common/admission.py:181-187 | Weight granted and then lost in the timeout branch never returns: once it leaves no room for a weight, no continuation ever grants a request that heavy |
| `AdmissionRuns.RunKeeps` | common/admission.py:122-247 | Every interleaving of arrivals, releases, grants, cancellations and timeouts keeps the queue, log and budget invariants |
| `AdmissionRuns.ArriveKeeps` | common/admission.py:135-173 | Admitting, queueing or refusing an arrival keeps the invariants |
| `AdmissionRuns.DrainKeeps` | common/admission.py:224-240 | Draining keeps the invariants, grant by grant |
| `AdmissionRuns.HandlerKeeps` | common/admission.py:181-197 | Both handlers keep the invariants and take exactly their own request out of the queue; only the cancel handler returns the weight of its grant |
| `AdmissionRuns.ReturnKeeps` | common/admission.py:203-208 | A matched release never hits the floor at zero and lowers active by exactly the weight |
| `AdmissionLane.DrainBlocks` | common/admission.py:224-240 | From any state, draining stops only at an empty queue or at a live head that does not fit, and leaves a suffix of the queue |
| `AdmissionLane.DrainExactly` | common/admission.py:224-240 | From any lane with distinct tickets, draining charges exactly the pending waiters it takes off the queue and resolves exactly their futures |
| `AdmissionLane.ReleaseExactly` | common/admission.py:203-208 | A release frees its weight, down to zero and no further, and then charges exactly whom it grants |
| `Admission.AdmissionController.constructor` | common/admission.py:70-82 | Every class starts idle with its limit, missing or negative limits counting as zero |
| `Admission.AdmissionController.Acquire` | common/admission.py:122-173 | The synchronous part of acquire: over budget, admitted, queue full and queued told apart exactly, with the new counter and queue; errors for unknown class and nonpositive weight; no other class touched |
| `Admission.AdmissionController.DrainQueue` | common/admission.py:224-240 | The in-place drain loop computes the drained lane of its class and touches no other |
| `Admission.AdmissionController.Release` | common/admission.py:203-208 | Release returns units and drains; unknown classes and nonpositive weights change nothing |
| `Admission.AdmissionController.DropWaiter` | common/admission.py:242-247 | Removes exactly the waiter's entry, if present |
| `Admission.Removed` | common/admission.py:242-247 | The search loop removes the first entry with the waiter's ticket and nothing else |
| `Admission.AdmissionController.HandleCancel` | common/admission.py:188-197 | Refunds a resolved, unused grant and drops the waiter |
| `Admission.AdmissionController.HandleTimeout` | common/admission.py:181-187 | Drops the waiter and refunds nothing |
| `Admission.AdmissionController.Step` | common/admission.py:122-247 | The object simulates the run model: each event moves the class's state as the run model does, so the theorems above hold of it |
| `CanonicalJson.LoadsCanonical` | scripts/jev_continuation_request_builder.py:520-540 | Decoding inverts canonical encoding for every value the encoder accepts |
| `CanonicalJson.CanonicalInjective` | scripts/jev_continuation_request_builder.py:520-530 | Equal canonical bytes imply equal values |
| `CanonicalJson.ParseRender` | scripts/jev_continuation_request_builder.py:261-268 | Reading the compact text of any value returns the value and leaves whatever delimited text follows |
| `CanonicalJson.ParseRenderItems` | scripts/jev_continuation_request_builder.py:261-268 | Reading back the elements of a list, from any index |
| `CanonicalJson.ParseRenderFields` | scripts/jev_continuation_request_builder.py:261-268 | Reading back the members of a dictionary, for any of its keys in any order |
| `Json.ParseQuoted` | scripts/jev_continuation_request_builder.py:261-268 | Reading inverts string escaping with ensure_ascii off, character by character |
| `Json.SortedKeysAscend` | scripts/jev_continuation_request_builder.py:262-268 | Keys are written in strictly ascending code-point order |
| `Utf8.DecodeEncode` | scripts/jev_continuation_request_builder.py:366-378 | Decoding inverts UTF-8 encoding |
| `Utf8.EncodeDecode` | scripts/jev_continuation_request_builder.py:377-380 | Whatever decodes is the one encoding of its text: overlong forms, surrogates and stray octets are refused |
| `Utf8.Boundary` | scripts/jev_continuation_request_builder.py:377-380 | Self-synchronisation: an octet that is not a continuation starts a character |
| `Utf8.PrefixFree` | scripts/jev_continuation_request_builder.py:377-380 | No text's encoding is a prefix of another's unless the texts are |
| `Utf8.SliceIsSubstring` | scripts/jev_continuation_request_builder.py:377-391 | A nonempty byte slice that decodes is a character-level substring starting at exactly that byte offset |
| `EvidenceChecks.ForbiddenExactly` | scripts/jev_continuation_request_builder.py:116-129 | The recursive search reports a value if and only if some path of keys and indices ends at an evaluator-only key |
| `EvidenceChecks.AcceptedState` | scripts/jev_continuation_request_builder.py:136-247 | An accepted state has no evaluator-only key on any path, distinct sources with exact excerpt bounds, a usable source, and a coverage declaration that splits the acquired sources exactly |
| `EvidenceChecks.ValidateBaseState` | scripts/jev_continuation_request_builder.py:136-247 | The source loop, with the identifiers and the flag it accumulates, computes the state checks |
| `EvidenceAcceptance.StateExactly` | scripts/jev_continuation_request_builder.py:136-247 | The state checks pass a state if and only if it is acceptable, said of its fields alone: header, every source with its excerpt or full text, distinct ids, a usable source, the coverage split, its flag and scope, the search scope |
| `EvidenceRefusals.StateRefused` | scripts/jev_continuation_request_builder.py:136-247 | Every refusal of a state names a requirement that it breaks while meeting all those tested before, in the first faulty source where it is about sources; it raises only on an unhashable value |
| `EvidenceExamples.BothScopesAccepted` | scripts/jev_continuation_request_builder.py:216-237 | Under any ordinary library, one state that shows excerpts and one that shows the full corpus are accepted |
| `EvidenceChecks.ValidateHypothesis` | scripts/jev_continuation_request_builder.py:296-402 | The span loop computes the hypothesis checks |
| `EvidenceAcceptance.HypothesisExactly` | scripts/jev_continuation_request_builder.py:296-402 | For an acceptable state, the checks pass a hypothesis if and only if it is acceptable, said of its fields alone: each span quotes, byte for byte, the excerpt shown of a presented, fetched source whose acquired document has the cited digest |
| `EvidenceAcceptance.AlignedAlways` | scripts/jev_continuation_request_builder.py:400-401 | Spans that share the hypothesis's scope share each other's |
| `EvidenceRefusals.HypothesisRefused` | scripts/jev_continuation_request_builder.py:296-402 | Every refusal of a hypothesis names a requirement that its own fields break, or else one that its first faulty span breaks |
| `EvidenceChecks.RangeQuotesExcerpt` | scripts/jev_continuation_request_builder.py:365-391 | A byte range that passes quotes the supplied text, character for character, at start_byte - excerpt_start_byte |
| `EvidenceChecks.SpanQuotesExcerpt` | scripts/jev_continuation_request_builder.py:336-399 | Every span of an accepted hypothesis cites a presented, successfully fetched source with its digest and quotes a substring of the text shown for it |
| `EvidencePlans.SnapshotOfPlan` | scripts/jev_continuation_request_builder.py:533-547 | The decoded snapshot of a built plan is exactly the payload it was built from, and its questions are the questions asked |
| `EvidencePlans.QuestionIdInjective` | scripts/jev_continuation_request_builder.py:447-452 | Slots get distinct question ids, also beyond four digits |
| `EvidencePlans.ReviewQuestionsExact` | scripts/jev_continuation_request_builder.py:443-452 | Stage 3 asks exactly one question per hypothesis, under its slot's id |
| `EvidencePlans.ValidateAll` | scripts/jev_continuation_request_builder.py:432-442 | The proposal loop returns the first finding, including a repeated hypothesis id |
| `EvidencePlans.MakeQuestions` | scripts/jev_continuation_request_builder.py:445-452 | The question loop builds the questions and the id mapping of every slot |
| `EvidencePlans.BuildHypothesisReviewRequest` | scripts/jev_continuation_request_builder.py:419-454 | Stage 3 builds the plan of its validated inputs, or abstains at the first finding |
| `EvidencePlans.ValidateNoulResponse` | scripts/jev_continuation_request_builder.py:550-581 | The answer loop answers if and only if the pinned model gives each question asked, and no other, a Noul number in [0, 1]; the probability of a question is the number written in its answer; or it refuses for a reason that applies |
| `EvidencePlans.ResponseExactly` | scripts/jev_continuation_request_builder.py:550-581 | The same of the specification that the runs use |
| `EvidencePlans.AddressabilityBinds` | scripts/jev_continuation_request_builder.py:457-517 | A stage-4 plan built against a stage-3 plan is for that plan's very state and one of its very hypotheses, whose question the response answers |
| `EvidenceRequests.PlanExactly` | scripts/jev_continuation_request_builder.py:250-281 | A plan is made if and only if its request serialises within 128000 bytes; it carries the pinned model, the mapping and exactly the given state and questions |
| `EvidenceRequests.QuestionIdIs` | scripts/jev_continuation_request_builder.py:448-448 | A question id is q and the slot in decimal, padded to four digits and no further |
| `EvidenceRequests.SufficiencyExactly` | scripts/jev_continuation_request_builder.py:284-294 | Stage 1 plans its one question if and only if the state is acceptable and the request fits |
| `EvidenceRequests.ReviewExactly` | scripts/jev_continuation_request_builder.py:419-454 | Stage 3 plans if and only if state and hypotheses are acceptable, there is a hypothesis, their ids are distinct and the request fits; each question is the one for its hypothesis's kind, about exactly that hypothesis, and is mapped back to its id |
| `EvidenceRequests.ReviewNeedsInputs` | scripts/jev_continuation_request_builder.py:427-431 | Without a list of hypotheses or without documents stage 3 plans nothing |
| `EvidenceRequests.AddressExactly` | scripts/jev_continuation_request_builder.py:457-517 | Against a stage-3 plan, stage 4 plans its one question if and only if the state is that plan's, the hypothesis is one of that plan's that the policy qualified and the response answers, both are still acceptable, and the request fits |
| `EvidenceRuns.RunKeeps` | scripts/jev_continuation_request_builder.py:419-581 | Every run of builder calls keeps the ledger invariant: reviews are genuine, responses answer known plans, stage-4 plans are justified |
| `EvidenceRuns.StageFourIsReviewed` | scripts/jev_continuation_request_builder.py:457-547 | In every run, a stage-4 plan decodes to the exact state and hypothesis of a stage-3 review of the run, and a response was validated against a request with that review's bytes |
| `EvidenceRuns.StageFourQuotesWhatItShows` | scripts/jev_continuation_request_builder.py:336-399 | In every run, whatever a stage-4 request quotes is a run of characters of the text the same request shows, at the declared byte offset |
| `RankAcceptance.RankByRank` | scripts/accept_exact_rank_migration.py:23-47 | If the comparison accepts, then at every rank recomputed scores differ by at most 2 tolerances up and 3 down, reported scores by 4 and 5, for lists of any length |
| `RankAcceptance.TopTenStable` | scripts/accept_exact_rank_migration.py:18-47 | The same for the ten-entry lists of the script: reported scores differ by at most 5 tolerances |
| `RankAcceptance.AcceptedExactly` | scripts/accept_exact_rank_migration.py:23-47 | The comparison accepts if and only if both lists have the right length and distinct keys, the scores are finite and cover exactly the union, every report is within one tolerance, no later entry is more than one tolerance above an earlier one, and every key of one list only is within one tolerance of the least projected score; as identical if and only if the lists are equal |
| `RankAcceptance.RefusedExactly` | scripts/accept_exact_rank_migration.py:23-46 | Each refusal says what is wrong, in the order of the checks |
| `RankAcceptance.BoundAttained` | scripts/accept_exact_rank_migration.py:34-46 | Three tolerances is the best bound: an accepted pair of lists attains it |
| `RankAcceptance.AcceptedIsScored` | scripts/accept_exact_rank_migration.py:29-33 | Accepted lists have a finite recomputed score for every entry |
| `RankAcceptance.AboveBound` | scripts/accept_exact_rank_migration.py:38-46 | The pigeonhole step: an entry is at most one tolerance above a score that is further down the other list or near the cutoff |
| `RankSample.SampleIds` | scripts/accept_exact_rank_migration.py:107-133 | Whatever the paging, the bounded-heap scan returns exactly the lowest-ranked ids in ascending rank, as sorting everything and taking a prefix would |
| `RankSample.SortSorted` | scripts/accept_exact_rank_migration.py:133-133 | The reference sort returns the same ids in strictly ascending rank |
| `RankSample.PushLowest` | scripts/accept_exact_rank_migration.py:127-128 | Pushing below capacity keeps the heap holding the lowest ids seen |
| `RankSample.ReplaceLowest` | scripts/accept_exact_rank_migration.py:129-130 | Replacing the highest-ranked entry keeps the heap holding the lowest ids seen |
| `RankSample.SkipLowest` | scripts/accept_exact_rank_migration.py:129-130 | Skipping an id that ranks above the heap keeps the heap holding the lowest ids seen |
| `RankSample.LowestIsPrefix` | scripts/accept_exact_rank_migration.py:107-133 | A rank-ascending list of the lowest entries is a prefix of the sorted whole |
| `Rulesets.DiffExactly` | scripts/enforce-branch-protection.py:412-546 | The comparator reports nothing if and only if the policies agree field by field, said without the functions it compares with: both names of the default branch count as one, absent and false agree, first rules decide |
| `Rulesets.DiffReports` | scripts/enforce-branch-protection.py:505-546 | Each difference of enforcement, target, references, bypass and rule types is reported if and only if there is one |
| `Rulesets.DiffEmptyIffSamePolicy` | scripts/enforce-branch-protection.py:412-546 | The comparator reports nothing if and only if the order-free projections agree |
| `Rulesets.RulesDiffEmpty` | scripts/enforce-branch-protection.py:478-504 | The rule part of the comparator, likewise |
| `Rulesets.SortedEqual` | scripts/enforce-branch-protection.py:412-424 | Comparing sorted lists is comparing collections |
| `Reconciler.PlanReads` | scripts/enforce-branch-protection.py:549-606 | Planning issues reads only, plans every wanted ruleset in order, and keeps only what it has read and found clean |
| `Reconciler.ApplyFromClean` | scripts/enforce-branch-protection.py:609-635 | Applying issues creates and updates only; every write but possibly the last was accepted, and completing it makes every changed ruleset clean |
| `Reconciler.DeleteIsLastAndEarned` | scripts/enforce-branch-protection.py:609-704 | For every server, the legacy-protection delete is issued at most once, last, in apply mode only, and only after every wanted ruleset was clean as read or as returned by its own write |
| `Reconciler.NoMutationAfterFailure` | scripts/enforce-branch-protection.py:609-635 | For every server, no mutation follows one that was not accepted |
| `Reconciler.DryRunReadsOnly` | scripts/enforce-branch-protection.py:649-704 | For every server, a dry run issues no mutating request |
| `ReconcilerGate.MutationNeedsChecks` | scripts/enforce-branch-protection.py:342-370 | For every server, a run that mutates anything has read every page of check runs with status 200, to the last, and each of the two required contexts was named on one of them |
| `ReconcilerGate.GateOpensExactly` | scripts/enforce-branch-protection.py:355-697 | When the pages can be read to the end and the rulesets planned, an apply run mutates something if and only if the pages together name both contexts |
| `ReconcilerGate.PlannedExactly` | scripts/enforce-branch-protection.py:549-576 | A wanted ruleset is created if and only if none has its name; otherwise the first of its name is kept if and only if it has the wanted policy, and is updated under its own id if not |
| `ReconcilerGate.WritesExactly` | scripts/enforce-branch-protection.py:586-646 | In every run, a write is followed by another request if and only if the server answered it with an accepted status and an active ruleset of the policy sent |
| `ReconcilerGate.AppliedExactly` | scripts/enforce-branch-protection.py:636-704 | A run reports success if and only if its last request deleted the legacy protection or found none |
| `Reconciler.Client.Send` | scripts/enforce-branch-protection.py:388-406 | A request is appended to the history and answered from it |
| `Reconciler.Client.ApplyChanges` | scripts/enforce-branch-protection.py:609-646 | The apply loop, one request at a time, issues the modelled requests and reports the modelled outcome |
| `ReconcilerStore.ApplyIsIdempotent` | scripts/enforce-branch-protection.py:549-646 | Against a server that stores what it is sent, planning after a successful apply keeps everything |
| `ReconcilerStore.EnforcementConverges` | scripts/enforce-branch-protection.py:62-128 | For the two enforced rulesets and any stored repository whose server reports both required check runs, apply succeeds and leaves nothing to plan |
| `ReconcilerStore.ReviewPolicySelfClean` | scripts/enforce-branch-protection.py:62-96 | The review ruleset is clean against itself whatever id it is given |
| `ReconcilerStore.RequiredChecksSelfClean` | scripts/enforce-branch-protection.py:98-126 | The required-checks ruleset is clean against itself whatever id it is given |
| `ReconcilerVerify.VerifyReadsOnly` | scripts/enforce-branch-protection.py:796-875 | For every server, verification issues no mutating request |
| `ReconcilerVerify.VerifyExactly` | scripts/enforce-branch-protection.py:811-875 | For every server that lists, the verdict on a wanted ruleset is true if and only if the last entry listed under its name was fetched active and with the wanted policy |
| `ReconcilerVerify.VerifyIsOfStore` | scripts/enforce-branch-protection.py:811-875 | Against a storing server, a ruleset verifies if and only if the last ruleset of its name is clean and active |
| `ReconcilerVerify.VerifyAfterApply` | scripts/enforce-branch-protection.py:796-875 | After a successful apply, a ruleset verifies if and only if its name occurred at most once before or its last duplicate already agreed: planning takes the first match, verification the last |
| `ReconcilerVerify.DuplicateNameEscapes` | scripts/enforce-branch-protection.py:814-842 | A repository on which apply succeeds and verification then fails |
| `DiffParser.ParseInvertsPrint` | scripts/coverage_gate.py:245-281 | Parsing any printed diff, with or without context lines, gives, for every path, exactly the added destination lines, whatever the content looks like |
| `DiffParser.ParseInvertsText` | scripts/coverage_gate.py:245-252 | The same from the text of the diff when no printed line contains a line separator |
| `DiffParser.ParseChangedLines` | scripts/coverage_gate.py:245-281 | The parsing loop computes the fold of the line step and drops paths without lines |
| `DiffParser.HunksRun` | scripts/coverage_gate.py:264-280 | Hunks add their lines to the current path and to nothing else |
| `DiffParser.HeaderMatches` | scripts/coverage_gate.py:28-28 | The hunk pattern finds the destination line in every printed header |
| `DiffParser.FileRun` | scripts/coverage_gate.py:253-281 | A file section adds exactly its hunks' lines to its destination path |
| `SessionStore.SweepingIsUnobservable` | mcp-svc/session_store.py:81-163 | In every timely interleaving, every get returns what a store that never sweeps would return |
| `SessionStore.SessionLifetime` | mcp-svc/session_store.py:81-163 | A created session is returned, with later updates merged in, exactly until its lifetime has passed, whatever else runs, sweeps included |
| `SessionStore.DestroyedStaysGone` | mcp-svc/session_store.py:139-143 | A destroyed session is gone until it is created again |
| `SessionStore.SweepUnnoticedExactly` | mcp-svc/session_store.py:145-163 | From any store, a sweep goes unnoticed by every later timely run if and only if no session's lifetime ends between the clock and the time the sweep was given |
| `SessionStore.FutureSweepIsObserved` | mcp-svc/session_store.py:145-163 | A run, timely but for one sweep that was given a time ahead of the clock, in which the sweep is observed |
| `SessionStore.Store.constructor` | mcp-svc/session_store.py:38-57 | A store starts empty |
| `SessionStore.Store.CreateSession` | mcp-svc/session_store.py:81-111 | Stores the session with its own or the store's lifetime under the given identifier, or the generated one if none or an empty one is given, and returns it |
| `SessionStore.Store.GetSession` | mcp-svc/session_store.py:113-126 | Returns the data of an unexpired session, else nothing |
| `SessionStore.Store.UpdateSession` | mcp-svc/session_store.py:128-137 | Merges data into an existing session |
| `SessionStore.Store.DestroySession` | mcp-svc/session_store.py:139-143 | Removes a session |
| `SessionStore.Store.SweepSessions` | mcp-svc/session_store.py:145-163 | Removes exactly the expired sessions and returns their number |
| `CircuitBreaker.InvariantExactly` | common/circuit_breaker.py:107-181 | After every run a probe is out exactly in HALF_OPEN and the circuit is closed exactly below the threshold, if and only if the threshold is at least one |
| `CircuitBreaker.OpensExactlyAtThreshold` | common/circuit_breaker.py:156-181 | A run stays closed if and only if it stays below the threshold of failures since the last success |
| `CircuitBreaker.AdmissionExactly` | common/circuit_breaker.py:107-138 | In every run, an open circuit admits a check if and only if a cooldown has passed since the last reported failure; a half-open one admits none |
| `CircuitBreaker.TransitionsExactly` | common/circuit_breaker.py:107-181 | How each call moves the circuit after any run, told from the calls alone: when a closed one opens, when an open one half-opens and that nothing else moves it, how a half-open one closes or opens |
| `CircuitBreaker.ProbeRate` | common/circuit_breaker.py:107-181 | If n probes are admitted after the circuit opens and before it closes, at least n cooldowns have passed since the opening failure, despite stale reports |
| `BreakerProbes.FinalState` | common/circuit_breaker.py:107-181 | With callers attached, the breaker's state depends on the calls alone: it cannot tell a stale report from the probe's |
| `BreakerProbes.OneProbeExactly` | common/circuit_breaker.py:19-23 | In every run, exactly one probe is out in HALF_OPEN and none otherwise, at every moment, if and only if every report received in HALF_OPEN comes from the probe and no probe leaves without one |
| `BreakerProbes.ProbesPileUp` | common/circuit_breaker.py:164-173 | For every threshold, cooldown and n, a run in which stale failures put n + 1 probes in flight at once |
| `BreakerProbes.StaleSuccessCloses` | common/circuit_breaker.py:146-151 | For every threshold and cooldown, a run in which a stale success closes the circuit while the probe is out |
| `BreakerProbes.RecoversExactly` | common/circuit_breaker.py:107-138 | After every run, some continuation gets a request admitted if and only if the breaker is not half-open with nobody left to report |
| `BreakerProbes.StuckIsForever` | common/circuit_breaker.py:133-138 | In that state no continuation admits anybody, however much time passes |
| `BreakerProbes.SilentProbeSticks` | portal-svc/portal/app.py:104-112 | For every threshold and cooldown, a run in which a probe without a report leads there |
| `CircuitBreaker.Breaker.constructor` | common/circuit_breaker.py:83-95 | A breaker starts closed |
| `CircuitBreaker.Breaker.CheckCircuit` | common/circuit_breaker.py:107-138 | Admission decision and new state of check |
| `CircuitBreaker.Breaker.RecordSuccess` | common/circuit_breaker.py:140-154 | New state of record_success |
| `CircuitBreaker.Breaker.RecordFailure` | common/circuit_breaker.py:156-181 | New state of record_failure |
| `CheckpointedGrading.RerunsKeepCheckpoints` | scripts/grade_w10_adjudication_with_hermes.py:153-255 | For every interruption point, a run and any rerun keep every checkpoint and never invoke Hermes for a checkpointed item |
| `CheckpointedGrading.CheckpointIsReturned` | scripts/grade_w10_adjudication_with_hermes.py:186-188 | A completed run returns exactly the checkpointed grade for every item that had one |
| `CheckpointedGrading.CompletedReturnsCheckpoints` | scripts/grade_w10_adjudication_with_hermes.py:236-255 | A completed run splits the packet, in order, exactly into responses that are on disk and unresolved items |
| `CheckpointedGrading.RerunIsFree` | scripts/grade_w10_adjudication_with_hermes.py:153-255 | After a run with nothing unresolved, a rerun makes no invocation and returns the same result |
| `CheckpointedGrading.AttemptCalls` | scripts/grade_w10_adjudication_with_hermes.py:192-233 | Attempts are numbered consecutively and bounded, all but the last were rejected, and giving up means every allowed attempt was made and rejected |
| `CheckpointedGrading.RunExtends` | scripts/grade_w10_adjudication_with_hermes.py:177-245 | No run invokes Hermes for a checkpointed item, overwrites a checkpoint or checkpoints a foreign item |
| `CheckpointedGrading.CompletesExactly` | scripts/grade_w10_adjudication_with_hermes.py:153-255 | An uninterrupted run that keeps going completes if and only if an attempt is allowed and, judged before it starts, every item has an id of its own and a valid checkpoint or else a supported type |
| `CheckpointedGrading.StrictExactly` | scripts/grade_w10_adjudication_with_hermes.py:222-240 | A run that stops at the first unresolved item completes if and only if the one that keeps going leaves nothing unresolved, and then they are the same run |
| `CheckpointedGrading.ValidGradeExactly` | scripts/grade_w10_adjudication_with_hermes.py:70-101 | A grade is valid if and only if it has exactly the fields of its item type's rubric, each with a value that the rubric allows |
| `CheckpointedGrading.Checkpoints.TryItem` | scripts/grade_w10_adjudication_with_hermes.py:190-233 | The attempt loop for one item over the checkpoint files |
| `CheckpointedGrading.Checkpoints.Grade` | scripts/grade_w10_adjudication_with_hermes.py:153-255 | The item loop over the checkpoint files, with its errors |
| `WorkOrder.FreezesExactly` | scripts/freeze_w11_general_comparison.py:128-172 | Whatever the shuffles, what the builder returns passes the design, position, unit and policy checks if and only if there are twelve cases with distinct ids and the manifest's result limit |
| `WorkOrder.FreezeAcceptsExactly` | scripts/freeze_w11_general_comparison.py:128-172 | For any order, the freeze checks accept it if and only if the design is the frozen one, the policies are full exactly for the selected types, and every case, repetition and arm has exactly one entry, numbered in order, with its policy |
| `WorkOrder.BuiltOrderCovers` | scripts/build_w11_general_work_order.py:83-105 | Whatever the shuffles of distinct cases, the entries cover each case, repetition and arm exactly once at positions 1..N with the selected policies |
| `WorkOrder.RepeatedIdRejected` | scripts/freeze_w11_general_comparison.py:145-166 | An order built from cases that repeat an id, with the same type or another, fails the unit checks |
| `WorkOrder.UnitsDistinct` | scripts/build_w11_general_work_order.py:89-105 | No unit occurs twice in the built order |
| `WorkOrder.UnitIsCovered` | scripts/build_w11_general_work_order.py:89-105 | Every case, repetition and arm has an entry |
| `WorkOrder.ArmsAdjacent` | scripts/build_w11_general_work_order.py:92-105 | The two arms of a case are adjacent, ordered by the parity of position and repetition |
| `WorkOrder.Balanced` | scripts/build_w11_general_work_order.py:92-95 | Within each repetition, which arm goes first is balanced within one |
| `WorkOrder.ShuffleIsArrangement` | scripts/build_w11_general_work_order.py:88-91 | A shuffle of cases with distinct ids is an arrangement of them |
| `WorkOrder.AppendArms` | scripts/build_w11_general_work_order.py:93-105 | The innermost loop appends both arms of a case |
| `WorkOrder.Build` | scripts/build_w11_general_work_order.py:87-105 | The loops build the modelled entries |
| `SourceAggregate.WilsonContainsRate` | scripts/aggregate_w8_source_equivalence.py:20-27 | Before rounding, for every rate, sample size and quantile, the interval lies in [0, 1] and contains the rate |
| `SourceAggregate.WilsonExactly` | scripts/aggregate_w8_source_equivalence.py:20-27 | The defining property: before rounding, the interval holds exactly the proportions x with n (p - x)^2 <= z^2 x (1 - x) |
| `SourceAggregate.ArmInterval` | scripts/aggregate_w8_source_equivalence.py:57-73 | The interval reported for an arm contains its useful-sighting rate |
| `SourceAggregate.RankBelowCoverage` | scripts/aggregate_w8_source_equivalence.py:60-78 | Wherever it is defined, mean reciprocal rank is at most case coverage, with equality if and only if every covered case has a useful sighting in first position; positions from 1 on make it defined and nonnegative |
| `SourceAggregate.ReciprocalsDefined` | scripts/aggregate_w8_source_equivalence.py:65-68 | The sum of reciprocal ranks is defined if and only if no case has its first useful sighting at position 0 |
| `SourceAggregate.GroupRows` | scripts/aggregate_w8_source_equivalence.py:58-63 | The grouping loop finds the cases, the useful count and each case's first useful position |
| `SourceAggregate.ArmCounts` | scripts/aggregate_w8_source_equivalence.py:58-64 | The counts of useful sightings, cases and covered cases are the sizes of those sets |
| `SourceAggregate.SummariseArm` | scripts/aggregate_w8_source_equivalence.py:57-78 | The counts and the sum of reciprocal ranks of an arm for any positions; it fails exactly when a reciprocal divides by zero |
| `HybridMerge.BlendGuarantees` | scripts/benchmark_hybrid_retrieval.py:82-138 | At most the limit; exactly the limit or every distinct normal form; nothing invented; a repeat is one adjacent web/vector pair; no common entry, no repeat |
| `HybridMerge.BlendFloors` | scripts/benchmark_hybrid_retrieval.py:99-117 | The blend starts with the web entries the vector list cannot displace, then the vector entries the web list cannot displace |
| `HybridMerge.BlendDisjoint` | scripts/benchmark_hybrid_retrieval.py:99-138 | The blend of any two lists without repeats or common entries, for any lengths and limit: the two floors, then the rest in turn, web first, then what is left of the longer list, up to the limit |
| `HybridMerge.BlendKeepsOrder` | scripts/benchmark_hybrid_retrieval.py:99-138 | For all lists and limits, an entry of one list only comes after everything that its list has before it |
| `HybridMerge.BlendCanRepeat` | scripts/benchmark_hybrid_retrieval.py:119-138 | A repeat does occur |
| `HybridMerge.BlendRepeatsExactly` | scripts/benchmark_hybrid_retrieval.py:99-138 | For all lists and limits, the blend holds exactly one surplus entry per round in which both cursors meet; it is free of repeats if and only if they never meet |
| `HybridMerge.MergeRepeatsExactly` | scripts/benchmark_hybrid_retrieval.py:82-138 | The same of the URLs that the merge returns |
| `HybridMerge.BlendOpensWithHeads` | scripts/benchmark_hybrid_retrieval.py:119-138 | Lists that earn each other no floor open the blend with both heads, web first, whether they differ or not |
| `HybridMerge.MergeFloors` | scripts/benchmark_hybrid_retrieval.py:85-117 | The floor guarantee holds of the lists that the merge builds: the web list has no repeats |
| `HybridMerge.TakeLoop` | scripts/benchmark_hybrid_retrieval.py:105-114 | The floor loop takes unseen entries while there is room |
| `HybridMerge.BlendLoop` | scripts/benchmark_hybrid_retrieval.py:99-138 | Floors and round-robin loop compute the blend |
| `HybridMerge.IndexWeb` | scripts/benchmark_hybrid_retrieval.py:87-92 | The web loop indexes URLs by normal form and keeps first occurrences in order |
| `HybridMerge.IndexVector` | scripts/benchmark_hybrid_retrieval.py:93-97 | The vector loop indexes new normal forms and keeps the order of all |
| `HybridMerge.NewMerge` | scripts/benchmark_hybrid_retrieval.py:82-138 | The merge shows, for each blended normal form, its first URL; its URLs are distinct if and only if the cursors never meet |

## Left out

- Metrics, logging and report texts: no guarantee depends on them; abstention reasons are names here, without the paths, counts and question ids that some of their texts embed.
- `asyncio`, lock and task internals, and the sweep task's lifecycle (mcp-svc/session_store.py:64-79 and 167-204): scheduling only.
- The `resource()` context manager (common/admission.py:210-222): the run model assumes its discipline, that every admitted caller releases its own weight once; releases that match no admission are covered only by the contracts of the object's methods.
- Strings are sequences of Unicode scalar values: Python strings with lone surrogates, on which `encode` raises, are not represented.
- Floats inside JSON are given by their text; whitespace between tokens, NaN and Infinity, which `json.loads` accepts and the canonical writer never emits, are not part of the reader.
- Dictionary keys that are not strings, which `json.dumps` coerces, and tuples, which it writes like lists, are not represented; on Python values that hold them the canonical text is not injective.
- Integer probabilities beyond the range of a float, on which `math.isfinite` raises, are refused here.
- The texts of the four fixed questions are parameters.
- Reconciler.DeleteIsLastAndEarned: the safety gate reads at most a given number of pages of check runs; a server that pages forever never gets past the gate, which the model reports as still paging.
- Ruleset payloads are typed records: a reply that is not a ruleset is one failure case, float parameters are not represented, and a missing id in a listing is not represented.
- GitHub authentication, HTTP transport and the identifier warnings of verification are not part of this model.
- `HUNK_RE` and `\d` are read over ASCII digits; quoted paths and paths with spaces, which the printer of the model does not produce, are not represented; what the parser makes of text that is no diff is not stated.
- `parse_renamed_paths` and `parse_deleted_paths` in scripts/coverage_gate.py, which read path headers line by line without tracking hunks, and `load_coverage` and `evaluate`, which collect covered lines per file and compare them with the changed ones.
- Prompt files, failure records and file modes of the adjudication run: bookkeeping beside the checkpoints; checkpoint writes are atomic and do not fail.
- The schema, completeness and digest comparisons around the work order (scripts/build_w11_general_work_order.py:63-79, scripts/freeze_w11_general_comparison.py:84-127).
- SourceAggregate.WilsonContainsRate: rounding to six digits is not modelled; after it an end of the interval can cross the rate.
- URL normalisation in the hybrid merge is a parameter.
- The other services, benchmarks, experiment scripts and deployment files are not part of this model.
