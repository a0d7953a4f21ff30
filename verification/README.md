# Verification of the Bitcoin work gate

A Dafny model of the parts of the repository that carry its promises, with proofs over all inputs and
all runs.  `dafny verify dfyconfig.toml` checks the whole project.

| component | modules |
|---|---|
| exact 256-bit work arithmetic (`src/work.rs`) | `Uint256Arithmetic`, `Work`, with `Nonlinear` and `Digits` |
| accepted-work projection (`src/progress.rs`, `src/progress/service.rs`) | `Progress`, `DeliveryOrder`, `ChallengeProgressModel`, `ProgressServiceModel` |
| Stratum V1 session (`src/stratum_v1.rs`) | `Stratum`, `StratumSteps`, `StratumFrames`, `StratumRuns`, `StratumReuse`, `StratumProxy` |
| crash-recoverable authority store (`scripts/worker-development-authority.ts`) | `AuthorityStore`, `AuthorityRuns`, `AuthorityResults`, `AuthorityProcess` |
| canonical JSON (`web/headless-values.ts`) | `JsonText`, `StableSort`, `CanonicalJson`, `CanonicalOrder`, `JsonReader`, `JsonRoundTrip` |
| address decoders (`web/headless-pool-offer.ts`) | `Bech32`, `Bech32Polynomial`, `ConvertBits`, `Alphabets`, `Segwit`, `SegwitEncoder`, `Base58`, `Base58Encoder` |
| lease admission (`web/worker-lease-admission.ts`) | `LeaseAdmission`, `LeaseAdmissionRuns` |
| lease clock and controller (`web/simulated-worker-controller.ts`) | `LeaseClock`, `SharedClock`, `SimulatedController` |
| Ed25519 field code (`web/ed25519-public-key.ts`) | `PrimeField`, `Ed25519` |

Code that changes state is a class or a method with loops, and its contract ties each call to a
function on values; what the repository promises is proved about those functions, over every run.

## What does not hold as it stands

Six properties one would expect are false of the code in a corner.  Each has a concrete reachable
input on which it fails and a lemma that says exactly when it holds.

- Delivery order: above a requirement of 2^255 a share can be refused for overflow while progress is
  short of the requirement, so enough delivered work need not satisfy the challenge.  The law holds for
  all deliveries exactly for requirements up to 2^255 (`DeliveryOrder.OverflowRefusesSatisfaction`,
  `DeliveryOrder.OrderLawExactly`).
- Key order in canonical JSON: equal texts always mean equal values up to key order and undefined
  fields, whatever the comparison sorts by (`CanonicalOrder.EqualTextsAreSame`).  The converse can fail:
  `localeCompare` ties canonically equivalent keys, and a stable sort then shows their insertion order.
  A value's text hides all key order exactly when no object, at any depth, ties two defined keys
  (`CanonicalOrder.EquivalentKeysShow`, `CanonicalOrder.OrderInvisibleExactly`).  Separately, an array of just
  `undefined` prints like an empty array, which the notion of equal values takes into account.
- Lease admission: the comparison of a commit looks at one key while the swap replaces the whole record.
  A plan committed after another key was admitted lowers that key's mark, and its sequence can be
  admitted again.  A commit keeps every mark exactly when nothing was admitted since its plan was made
  (`LeaseAdmissionRuns.PairAdmittedTwiceHappens`, `LeaseAdmissionRuns.CommitKeepsMarksExactly`).
- Lease renewal near the largest safe integer: the renewal point is moved before the expiry is found to
  overflow, so a status can carry a renewal point at or after its expiry, which the status parser
  refuses (`LeaseClock.HalfRenewalHappens`, `LeaseClock.RenewalPointStaysExactly`).
- Several controllers on one clock: the first that holds a lease acknowledges a discontinuity before the
  others look, so a later lease can outlive a reset.  It does so exactly when an earlier controller held
  a lease and its own continuity and deadline still fit (`SharedClock.SurvivalHappens`,
  `SharedClock.SurvivesDiscontinuityExactly`, `SharedClock.AllEndExactly`).
- Stratum responses: if a worker reuses a request identity while the response to its earlier submit is
  held, and upstream accepts the new submit before the release, the earlier response is replaced and never
  let go.  While no held identity is reused, releases match requests to record one to one
  (`StratumRuns.OneToOneWithoutReuse`); in general they match exactly when upstream never accepts a
  submit over a held response of its identity (`StratumReuse.ReuseHappens`,
  `StratumRuns.ReleasesMatchExactly`).

## Model

| member | source | states |
|---|---|---|
| Uint256Arithmetic.CheckedAdd | src/work.rs:45-56 | the limb loop gives the exact sum, and nothing exactly when it does not fit 256 bits |
| Uint256Arithmetic.CheckedMulSmallAdd | src/work.rs:58-68 | the exact value times a small number plus a small number, and nothing exactly on overflow |
| Uint256Arithmetic.BitwiseNotValue | src/work.rs:70-72 | the complement is 2^256 - 1 minus the value |
| Uint256Arithmetic.BitIsValueBit | src/work.rs:74-76 | the bit read from a limb is that binary digit of the number |
| Uint256Arithmetic.SetBit | src/work.rs:78-80 | setting a clear bit adds its power of two |
| Uint256Arithmetic.ShiftLeftOne | src/work.rs:82-91 | doubling modulo 2^256, so exact whenever the top bit is clear |
| Uint256Arithmetic.Subtract | src/work.rs:93-105 | the exact difference of a larger and a smaller number, with no final borrow |
| Uint256Arithmetic.Compare | src/work.rs:171-182 | the limb order is the order of the numbers |
| Uint256Arithmetic.NextRemainderFits | src/work.rs:115-119 | the shifted remainder of long division stays within the dividend's prefix, so no set top bit is dropped, even for divisors above 2^255 |
| Uint256Arithmetic.DivideStep | src/work.rs:115-126 | one round of long division extends quotient and remainder of the prefix by one bit |
| Uint256Arithmetic.Divide | src/work.rs:107-129 | exactly the floor quotient, for every dividend and non-zero divisor |
| Uint256Arithmetic.DivideSmall | src/work.rs:131-141 | exact quotient and remainder by a small number |
| Work.FromBeBytes | src/work.rs:17-26 | the limbs denote the big-endian number of the bytes |
| Work.ParseTarget | src/work.rs:190-232 | accepts exactly 32 bytes that are not all zero |
| Work.CreditedWorkOf | src/work.rs:204-219 | floor(2^256 / (target + 1)) without holding 2^256, with both impossible branches proved impossible |
| Work.LargerTargetNeverMoreWork | src/work.rs:203-219 | a larger target never gives more work |
| Work.CreditIsNonZero | src/work.rs:204-219 | every target credits at least one hash and at most 2^255 |
| Work.ToDecimalString | src/work.rs:143-156 | the printing loop gives the canonical decimal text |
| Work.ParseCreditedWork | src/work.rs:334-356 | succeeds exactly on canonical texts below 2^256, with the text's value, and tells the two failures apart |
| Work.ParseVerifiedProgress | src/work.rs:313-323 | the same with zero allowed |
| Work.PrintThenParse | src/work.rs:143-156 | printed non-zero numbers are canonical and read back as themselves |
| Work.ParseThenPrint | src/work.rs:334-356 | canonical texts print back as themselves |
| ChallengeProgressModel.AcceptedWorkTransition | src/progress.rs:265-294 | the transition on limbs is the transition on numbers, overflow included |
| ChallengeProgressModel.ChallengeProgress.RegisterSession | src/progress.rs:463-468 | registers a session once |
| ChallengeProgressModel.ChallengeProgress.AcceptWithGlobalDuplicate | src/progress.rs:478-521 | one delivery does to the projection exactly what the specification says, with its answer |
| ChallengeProgressModel.ChallengeProgress.IsSatisfied | src/progress.rs:529-531 | satisfied exactly when progress reaches the requirement |
| Progress.AcceptKeepsConsistent | src/progress.rs:478-521 | a delivery keeps the whole invariant of EveryRunConsistent |
| Progress.EveryRunConsistent | src/progress.rs:450-521 | in every run progress is the sum of the credits on record, no share is credited twice, exactly one record made the issuance intent if satisfied and none otherwise |
| Progress.ErrorChangesNothing | src/progress.rs:463-521 | a refusal leaves the projection as it was |
| Progress.RedeliveryReturnsFirstAcknowledgement | src/progress.rs:439-447 | a matching redelivery after any further operations returns the first acknowledgement and changes nothing |
| Progress.ConflictIsRefused | src/progress.rs:439-447 | a conflicting redelivery of a recorded id is always refused |
| Progress.WorkerReportsChangeNoAnswer | src/progress.rs:212-219 | changing worker reports anywhere in a run changes no answer |
| Progress.DispositionExactly | src/progress.rs:265-294 | what becomes of a new event, from the state before it: unknown session, requirement met, share seen here or elsewhere, overflow, or its expected hashes credited; with progress, intent and record |
| Progress.RegisterExactly | src/progress.rs:463-468 | a session is registered once and then known |
| Progress.ReplayMatchesExactly | src/progress.rs:212-219 | a redelivery matches exactly when it differs in its worker report at most |
| ProgressServiceModel.ProgressService.RegisterChallenge | src/progress/service.rs:54-72 | the call does exactly its step |
| ProgressServiceModel.ProgressService.RegisterSession | src/progress/service.rs:75-91 | the call does exactly its step |
| ProgressServiceModel.ProgressService.Report | src/progress/service.rs:94-145 | the call does exactly its step, on the projection of the session's challenge and the shared registries |
| ProgressServiceModel.RegisterChallengeExactly | src/progress/service.rs:54-72 | a challenge is registered once, with its own requirement and nothing credited |
| ProgressServiceModel.RegisterSessionExactly | src/progress/service.rs:75-91 | a session is bound to one registered challenge, once |
| ProgressServiceModel.ReportCreditsExactly | src/progress/service.rs:108-122 | a new event is credited exactly when its challenge is short of its requirement and no challenge at all has seen its share |
| ProgressServiceModel.NoShareCreditedTwice | src/progress/service.rs:94-145 | in every run over any challenges, sessions and deliveries no share is credited twice anywhere, and every projection keeps its invariant |
| ProgressServiceModel.ReportErrorChangesNothing | src/progress/service.rs:94-145 | a refused report leaves the service as it was |
| ProgressServiceModel.RedeliveryToService | src/progress/service.rs:101-106 | a matching redelivery after any further calls returns the first acknowledgement and changes nothing |
| DeliveryOrder.SatisfiedExactlyByTotal | src/progress.rs:268-286 | after any order and duplication of coherent events the challenge is satisfied exactly when the distinct shares reach the requirement |
| DeliveryOrder.OrderDoesNotMatter | src/progress.rs:478-521 | two deliveries of the same events agree on satisfaction |
| DeliveryOrder.OverflowRefusesSatisfaction | src/progress.rs:274-277 | above 2^255 two half shares are enough work but the second is refused |
| DeliveryOrder.OrderLawExactly | src/progress.rs:268-286 | the law holds for all deliveries exactly when the requirement is at most 2^255 |
| StratumProxy.StratumSession.constructor | src/stratum_v1.rs:147-165 | an opened session is empty |
| StratumProxy.StratumSession.WorkerFrame | src/stratum_v1.rs:167-176 | seconds become milliseconds, with overflow refused |
| StratumProxy.StratumSession.WorkerFrameAt | src/stratum_v1.rs:179-292 | a worker frame does exactly its step: refusals, duplicates, capacity, rewriting and registration |
| StratumProxy.StratumSession.UpstreamFrame | src/stratum_v1.rs:294-458 | an upstream frame does exactly its step |
| StratumProxy.StratumSession.Notified | src/stratum_v1.rs:303-370 | difficulty and notify handling, expiry first |
| StratumProxy.StratumSession.TookNotify | src/stratum_v1.rs:314-366 | jobs are cleared before the rest of the notification is checked, so they stay cleared when it fails |
| StratumProxy.StratumSession.Answered | src/stratum_v1.rs:371-421 | the request is removed first, then handled by kind |
| StratumProxy.StratumSession.Subscribed | src/stratum_v1.rs:376-407 | an offered extranonce waits for its reservation |
| StratumProxy.StratumSession.Submitted | src/stratum_v1.rs:419-457 | an accepted submit becomes an event to record and its response is held |
| StratumProxy.StratumSession.AcceptedPersisted | src/stratum_v1.rs:460-469 | a confirmation lets the held response go |
| StratumProxy.StratumSession.ExtranonceReserved | src/stratum_v1.rs:471-482 | a confirmed reservation puts the extranonce in force |
| StratumProxy.StratumSession.Renew | src/stratum_v1/sessions.rs:327-344 | a later registration of the same lease replaces lease and expiry, any other is refused |
| StratumProxy.ExtranonceSpace.Reserve | src/stratum_v1.rs:55-77 | one reservation step |
| StratumProxy.GrantedExactly | src/stratum_v1.rs:55-77 | over any sequence of reservations, a well-formed extranonce is granted exactly when no other session was granted it before, whatever the letter case |
| StratumProxy.SamePlaceExactly | src/stratum_v1.rs:67-68 | two well-formed extranonces share a place exactly when they are the same hexadecimal digits |
| StratumProxy.MalformedIsRefused | src/stratum_v1.rs:60-66 | anything but an even number of hexadecimal digits, up to 64, is refused |
| StratumFrames.OpensExactly | src/stratum_v1.rs:147-165 | a session opens exactly with a name, a secret and an expiry |
| StratumFrames.ReadExactly | src/stratum_v1.rs:185-188 | a frame is read exactly when it has at most 16384 bytes and parses to an object |
| StratumFrames.PartsExactly | src/stratum_v1.rs:504-510 | method, parameters, result and identity, read off the message |
| StratumFrames.ExpiredTakesNothing | src/stratum_v1.rs:489-494 | after its expiry a session takes no worker frame and no notification |
| StratumFrames.UnreadableIsRefused | src/stratum_v1.rs:185-188 | a frame too long or not an object is refused from either side |
| StratumFrames.WrongCredentialsStopHere | src/stratum_v1.rs:192-204 | an authorize with the wrong name or secret is answered false, goes nowhere and is not remembered |
| StratumFrames.RightCredentialsGoUpstream | src/stratum_v1.rs:205-215 | an authorize with the configured name and secret goes upstream under the upstream ones, nothing else changed, and is remembered unless its identity is missing, outstanding or one too many |
| StratumFrames.AuthorizeRegistered | src/stratum_v1.rs:192-215 | only an authorize with the configured name and secret is ever outstanding as one |
| StratumFrames.OthersGoUpstream | src/stratum_v1.rs:278-291 | any other worker frame goes upstream unchanged and is remembered exactly when it names a method |
| StratumFrames.SubmitsExactly | src/stratum_v1.rs:216-290 | a submit is remembered exactly when authorized, under a target and extranonce, well formed, for a held job, within its lease, with a new identity and room |
| StratumFrames.DifficultyExactly | src/stratum_v1.rs:306-313 | a difficulty is taken over exactly when it scales to a target, and only the target changes |
| StratumFrames.HeadExactly | src/stratum_v1.rs:319-326 | the first parameter of a notify names the job, the ninth says whether to clear |
| StratumFrames.JobExactly | src/stratum_v1.rs:333-364 | a job is read exactly as the parameters spell it |
| StratumFrames.NotifiesExactly | src/stratum_v1.rs:314-366 | a notify is taken over exactly when it spells a job under a target and the job is known or finds room |
| StratumFrames.OffersExactly | src/stratum_v1.rs:376-407 | an extranonce is offered exactly with a size from 1 to 32, and both are kept |
| StratumFrames.EventExactly | src/stratum_v1.rs:422-448 | the event is exactly that of a share meeting its non-zero target, with digests of its own request and header |
| StratumFrames.RenewsExactly | src/stratum_v1/sessions.rs:327-344 | renewed exactly by a registration of the same session, lease and continuity, issued and expiring no earlier, changing only lease reading and times |
| StratumSteps.JobsAfter | src/stratum_v1.rs:314-366 | which jobs a call adds, keeps and drops, read off the frame |
| StratumSteps.OutstandingAfter | src/stratum_v1.rs:281-290 | which requests a call registers and settles |
| StratumSteps.SubmitRegistered | src/stratum_v1.rs:216-277 | a submit is registered only when authorized, with the named job, its target, the extranonce in force, the worker's own second extranonce, time and nonce, and the advanced lease |
| StratumSteps.ForwardedSubmit | src/stratum_v1.rs:260-263 | a submit goes upstream with the worker's name replaced and nothing else changed, if printing and parsing messages are inverse |
| StratumSteps.PersistsExactly | src/stratum_v1.rs:419-457 | a call asks to record exactly when it accepts an outstanding submit whose event can be built, and carries that event |
| StratumSteps.ForwardedAtOnceExactly | src/stratum_v1.rs:369-421 | an upstream frame reaches the worker in the same call, alone and unchanged, unless it accepts an outstanding submit or offers an extranonce; then nothing does |
| StratumRuns.TargetIsInForce | src/stratum_v1.rs:306-313 | in every run the current target is that of the latest accepted difficulty |
| StratumRuns.JobIsLatestNotify | src/stratum_v1.rs:314-366 | in every run a job is held exactly when its latest notify was not cleared since, with the target in force at that notify |
| StratumRuns.RequestIsLatest | src/stratum_v1.rs:281-290 | in every run a request is held exactly while unanswered, as it was when made |
| StratumRuns.AuthorizedExactly | src/stratum_v1.rs:192-413 | authorized exactly after upstream confirmed an authorize in which the worker gave the session's own name and secret |
| StratumRuns.ConfigAlong | src/stratum_v1.rs:485-487 | along a run the session, its lease, names and secrets stay, and it never expires earlier |
| StratumRuns.ExtranonceIsLatestReservation | src/stratum_v1.rs:471-482 | the extranonce in force is that of the latest confirmed reservation, offered by upstream before |
| StratumRuns.BoundsHold | src/stratum_v1.rs:283-330 | at most 64 requests and 64 jobs are ever held |
| StratumRuns.EventProvenance | src/stratum_v1.rs:216-457 | every event to record is that of the token's latest submit, with the job spelled by and the target in force at the latest uncleared notify before it, the extranonce of the latest confirmed reservation, its own second extranonce, time, nonce and lease reading, a share meeting that target, and an authorize with the session's name and secret confirmed before it |
| StratumRuns.AcceptanceIsHeld | src/stratum_v1.rs:419-457 | the call in which upstream accepts an outstanding submit sends the worker nothing and holds the response |
| StratumRuns.ReleaseIsLatestPersist | src/stratum_v1.rs:460-469 | a confirmation lets go exactly the response of the latest accepting frame under its token, and is refused when there is none |
| StratumRuns.ResponsesConserved | src/stratum_v1.rs:449-469 | per token, every response to record is let go, replaced under the same token, or still held |
| StratumRuns.ReleasesMatchExactly | src/stratum_v1.rs:449-469 | releases never outnumber requests to record, and match them one to one exactly when upstream never accepts an outstanding submit, with an event that can be built, while an earlier response under its identity is held |
| StratumRuns.ReplacementMeansReuse | src/stratum_v1.rs:281-290 | a held response is replaced only after the worker made a request under its identity while it was held |
| StratumRuns.OneToOneWithoutReuse | src/stratum_v1.rs:449-469 | while the worker reuses no held identity, every response to record is let go exactly once or still held |
| StratumRuns.ReuseLosesResponse | src/stratum_v1.rs:449-451 | a submit accepted over a held response of its identity replaces that response, and some recorded response is then never let go |
| StratumReuse.ReuseHappens | src/stratum_v1.rs:281-451 | a run from a new session in which this happens |
| StratumRuns.ReservationIsLatestOffer | src/stratum_v1.rs:471-482 | a confirmed reservation lets go exactly the frame of the latest unconfirmed offer under its token, and is refused when there is none |
| StratumRuns.LatestNotifyNotifies | src/stratum_v1.rs:314-366 | the latest notify of a job is one the session took over, with no later notify of that job and no clearing notify since |
| AuthorityProcess.AuthorityDirectory.TryWrite | scripts/worker-development-authority.ts:511-535 | one atomic file write, or death before it |
| AuthorityProcess.AuthorityDirectory.ApplyAuthorityStateAndUnlink | scripts/worker-development-authority.ts:511-535 | the four files in order, then the journal's removal, cut anywhere |
| AuthorityProcess.AuthorityDirectory.CommitAuthorityState | scripts/worker-development-authority.ts:411-429 | validation, then the journal, then the files, cut anywhere |
| AuthorityProcess.AuthorityDirectory.RecoverAuthorityJournal | scripts/worker-development-authority.ts:431-459 | a journal is checked and completed, cut anywhere |
| AuthorityProcess.AuthorityDirectory.RotateAuthority | scripts/worker-development-authority.ts:282-311 | rotation performs exactly its write list |
| AuthorityProcess.AuthorityDirectory.RetireAuthority | scripts/worker-development-authority.ts:313-348 | retirement performs exactly its write list, and refuses the active and unknown keys |
| AuthorityProcess.AuthorityDirectory.SignLeaseAuthorization | scripts/worker-development-authority.ts:187-195 | signing allocates the next sequence of the active key in one write |
| AuthorityProcess.AuthorityDirectory.WithAuthorityLock | scripts/worker-development-authority.ts:391-398 | recovery, then the command, for one lock holder that may die after any write |
| AuthorityStore.RecoveryCut | scripts/worker-development-authority.ts:431-459 | recovery cut after any number of writes is still in flight toward the same state, and completed recovery has settled it |
| AuthorityStore.CommitCut | scripts/worker-development-authority.ts:411-429 | a commit cut anywhere has done nothing, is in flight, or is complete |
| AuthorityStore.RecoverySettles | scripts/worker-development-authority.ts:431-459 | recovery never fails on a reachable store and keeps the state it stands for |
| AuthorityStore.HealthyIsUsable | scripts/worker-development-authority.ts:511-535 | in every intermediate file state both active keys are trusted and the active lease key has a sequence |
| AuthorityStore.SessionIsAtomic | scripts/worker-development-authority.ts:374-429 | a lock holder dying anywhere has had the effect of its whole command or none |
| AuthorityRuns.RunsAreAtomic | scripts/worker-development-authority.ts:374-471 | over any commands, crashes and recoveries the store stands for exactly the commands whose first write completed, in order |
| AuthorityRuns.EveryFileStateIsUsable | scripts/worker-development-authority.ts:282-348 | no run leaves an untrusted active key or an active lease key without a sequence |
| AuthorityRuns.NextRecoverySettles | scripts/worker-development-authority.ts:431-459 | after any run one completed recovery leaves all four files from one state |
| AuthorityRuns.OldOrNew | scripts/worker-development-authority.ts:411-459 | a command cut anywhere and any number of cut recoveries end, after a completed one, in all-old or all-new files |
| AuthorityRuns.JournalKeepsSequences | scripts/worker-development-authority.ts:350-368 | a surviving journal never disagrees with the sequence file about a key both know |
| AuthorityRuns.SequencesIncrease | scripts/worker-development-authority.ts:350-368 | over every run the sequences allocated for one key strictly increase and stay within 2^64 - 1 |
| AuthorityRuns.RotationRefusedExactly | scripts/worker-development-authority.ts:461-471 | a rotation is accepted exactly with a well-formed id, a key new to both roles, and fewer than eight keys in its own |
| AuthorityRuns.RetirementRefusedExactly | scripts/worker-development-authority.ts:313-348 | a retirement is refused exactly for the active key and for keys the role does not have |
| AuthorityResults.CompletedSession | scripts/worker-development-authority.ts:391-429 | a lock holder that is done leaves no journal and exactly the state of its command |
| AuthorityResults.UpdateRotationResult | scripts/worker-development-authority.ts:282-311 | after an update rotation the new key is active, last and trusted; nothing else changed |
| AuthorityResults.LeaseRotationResult | scripts/worker-development-authority.ts:282-311 | after a lease rotation the new key is active, last, trusted and at sequence zero; other sequences and the update authority are as they were |
| AuthorityResults.RetirementResult | scripts/worker-development-authority.ts:313-348 | after a retirement exactly that key is gone, with its sequence if it was a lease key; everything else is as it was |
| AuthorityResults.SigningResult | scripts/worker-development-authority.ts:350-368 | signing raises the active lease key's sequence by one, within 64 bits, and changes nothing else |
| AuthorityResults.SigningRefusedExactly | scripts/worker-development-authority.ts:187-364 | signing is refused exactly for another operation and for an exhausted sequence |
| AuthorityResults.RotatedKeySigns | scripts/worker-development-authority.ts:282-368 | the first signature after a lease rotation is sequence one of the new key |
| JsonText.IntTextInjective | web/headless-values.ts:65-65 | an integer's text, followed by anything that is not a digit, determines the integer |
| JsonText.QuoteInjective | web/headless-values.ts:63-65 | a quoted string determines the string and where it ends, whatever follows |
| StableSort.SortMembers | web/headless-values.ts:60-62 | sorting keeps exactly the same entries |
| StableSort.SortSorted | web/headless-values.ts:60-62 | the result is in order |
| StableSort.SortStable | web/headless-values.ts:60-62 | tied keys keep their order |
| StableSort.SortedUnique | web/headless-values.ts:60-62 | without ties there is one sorted arrangement |
| CanonicalJson.TextIsPrintOfNormal | web/headless-values.ts:57-66 | the text is the plain print of the value's normal form |
| CanonicalJson.PrintInjective | web/headless-values.ts:57-66 | on normal values, equal texts in any context come from equal values |
| CanonicalJson.EqualTextsExactly | web/headless-values.ts:57-66 | equal texts exactly for equal normal forms, whatever the key comparison |
| CanonicalOrder.EqualTextsAreSame | web/headless-values.ts:57-66 | equal texts come from values equal up to key order and undefined fields, for every comparison and every value |
| CanonicalOrder.UntiedTextExactly | web/headless-values.ts:57-66 | where no object inside a value ties two keys, its text is that of exactly the values equal to it |
| CanonicalOrder.OrderInvisibleExactly | web/headless-values.ts:57-66 | the text is the same for every value equal up to key order and undefined fields exactly when no object at any depth ties two defined keys |
| CanonicalOrder.SameTextExactly | web/headless-values.ts:57-66 | in particular, with a total order on keys, equal texts exactly for equal values |
| CanonicalOrder.TieShows | web/headless-values.ts:60-62 | a tie anywhere inside a value gives an equal value with another text |
| CanonicalOrder.EquivalentKeysShow | web/headless-values.ts:60-62 | an object with two canonically equivalent keys has two texts, one per order of its entries |
| CanonicalOrder.TiedKeysShowTheirOrder | web/headless-values.ts:60-62 | tied keys print in the order the object lists them |
| JsonRoundTrip.CanonicalTextReadsBack | web/headless-values.ts:57-66 | the text is JSON: a reader written from the grammar of RFC 8259 gives the value back, sorted and without undefined fields, for values without undefined array items |
| JsonRoundTrip.ReadsPrint | web/headless-values.ts:57-66 | the reader undoes the plain printer in any context that does not go on with a digit |
| JsonRoundTrip.ReadsEscape | web/headless-values.ts:63-65 | the reader undoes string escaping, surrogates and control characters included |
| JsonRoundTrip.ReadsInt | web/headless-values.ts:65-65 | the reader undoes integer printing |
| Bech32Polynomial.StepIsReduction | web/headless-pool-offer.ts:296-303 | a step multiplies by x, adds the symbol and reduces modulo the generator polynomial of BIP 173 over GF(32) |
| Bech32Polynomial.ChecksumSettles | web/headless-pool-offer.ts:295-306 | the six checksum symbols of BIP 173 bring any list to the wanted checksum |
| Bech32.Polymod | web/headless-pool-offer.ts:295-306 | the loop computes the checksum state of the list |
| Bech32.PolymodStep | web/headless-pool-offer.ts:299-303 | the inner loop adds exactly the generators the top bits select |
| Bech32.StepInjective | web/headless-pool-offer.ts:298-304 | no step merges two states |
| Bech32.DifferenceSurvives | web/headless-pool-offer.ts:298-304 | different states stay different under any common continuation |
| Bech32.WindowSeparates | web/headless-pool-offer.ts:298-304 | different windows of up to six symbols lead to different states |
| Bech32.BurstDetected | web/headless-pool-offer.ts:295-306 | lists of any length that differ only within six consecutive places have different checksums |
| Bech32.SubstitutionDetected | web/headless-pool-offer.ts:295-306 | one substituted symbol, anywhere, changes the checksum |
| Bech32.DifferenceDetected | web/headless-pool-offer.ts:295-306 | the same by position |
| ConvertBits.Convert | web/headless-pool-offer.ts:308-330 | the input bit string minus a zero tail shorter than a source group, and undefined exactly when there is none or a value is out of range |
| ConvertBits.WrapInvisible | web/headless-pool-offer.ts:319-326 | wrapping at 32 bits does not change any bit the loop reads back, for any input length |
| ConvertBits.RegroupingUnique | web/headless-pool-offer.ts:308-330 | at most one result fits |
| ConvertBits.DecodeEncode | web/headless-pool-offer.ts:308-330 | regrouping undoes the padded encoder |
| ConvertBits.EncodeDecode | web/headless-pool-offer.ts:308-330 | the padded encoder undoes regrouping |
| ConvertBits.DecodeInjective | web/headless-pool-offer.ts:308-330 | accepted lists with equal results are equal |
| Segwit.ValidSegwitMainnet | web/headless-pool-offer.ts:270-285 | accepts exactly addresses with prefix, alphabet, version, checksum and program as BIP 173 and BIP 350 ask |
| Segwit.NearMissRejected | web/headless-pool-offer.ts:270-306 | two texts that differ only within six consecutive characters, under the same checksum constant, are never both accepted |
| SegwitEncoder.AcceptsExactlyAddresses | web/headless-pool-offer.ts:270-285 | the check accepts exactly the encoder's addresses of witness versions 0 to 16 and their programs (BIP 173 and BIP 350) |
| SegwitEncoder.HrpIs | web/headless-pool-offer.ts:287-293 | the expanded human-readable part |
| Base58.Decode | web/headless-pool-offer.ts:246-262 | the three loops decode exactly the texts over the alphabet |
| Base58.DecodedDenotes | web/headless-pool-offer.ts:248-262 | the bytes are big-endian for the base-58 value, with exactly one zero byte per leading '1' |
| Base58.DecodedInjective | web/headless-pool-offer.ts:246-262 | distinct texts decode to distinct bytes |
| Base58.ValidBase58CheckMainnet | web/headless-pool-offer.ts:246-268 | accepts exactly 25 bytes with a known version and the checksum of the digest |
| Base58.OneSpellingPerPayload | web/headless-pool-offer.ts:246-268 | a version and payload have at most one accepted spelling |
| Base58Encoder.DecodedEncoded | web/headless-pool-offer.ts:246-262 | every byte list is decoded back from its encoding |
| Base58Encoder.EncodedDecoded | web/headless-pool-offer.ts:246-262 | every text over the alphabet is the encoding of what it decodes to |
| Base58Encoder.AcceptsExactlyAddresses | web/headless-pool-offer.ts:263-267 | the check accepts exactly the encoded versions 0 and 5 with a 20-byte hash and its checksum |
| LeaseAdmission.CopyHighWater | web/worker-lease-admission.ts:283-293 | the copying loop gives the same record, with the extra entry set |
| LeaseAdmission.ParseAdmissionState | web/worker-lease-admission.ts:142-193 | accepts exactly valid states and returns them unchanged |
| LeaseAdmission.PlanWorkerLeaseAdmission | web/worker-lease-admission.ts:63-140 | planning on texts is the planning function, with every refusal in the source's order |
| LeaseAdmission.InvalidateWorkerLeaseAdmissionContext | web/worker-lease-admission.ts:276-281 | drops the context and keeps every mark |
| LeaseAdmission.AdmissionDevice.CommitWorkerLeaseAdmission | web/worker-lease-admission.ts:261-273 | the effect runs exactly when the compare-and-swap committed, and after it; otherwise nothing changes |
| LeaseAdmission.AdmissionDevice.Persist | web/worker-lease-admission.test.ts:292-311 | the compare-and-swap on the plan's expected fields |
| LeaseAdmission.PersistedRoundTrip | web/worker-lease-admission.ts:107-116 | a valid persisted sequence text is the text of its number |
| LeaseAdmissionRuns.PlannedExactly | web/worker-lease-admission.ts:63-140 | a request is planned exactly when it names the established context, a start comes within a minute and finds no lease, a renewal names the active lease, and the sequence is new; the plan admits exactly that |
| LeaseAdmissionRuns.RefusedExactly | web/worker-lease-admission.ts:77-112 | which refusal a request in the established context gets |
| LeaseAdmissionRuns.EveryAdmissionIsJustified | web/worker-lease-admission.ts:63-273 | in every run each admitted start was asked within a minute of its own context, which had no lease, and made its lease active; each renewal named the active lease; context and mark were still those at the commit |
| LeaseAdmissionRuns.InvalidatedAdmitsNothing | web/worker-lease-admission.ts:276-281 | after invalidation every mark is kept and nothing is planned or committed |
| LeaseAdmissionRuns.PersistedSequenceExactly | web/worker-lease-admission.ts:234-242 | a persisted sequence is valid exactly when it is the decimal text of a 64-bit number |
| LeaseAdmissionRuns.RepeatIsAlreadyCommitted | web/worker-lease-admission.test.ts:295-296 | a plan committed already is known as such |
| LeaseAdmissionRuns.PlannedIsMadeFrom | web/worker-lease-admission.ts:98-139 | a plan raises its own key's mark and changes no other entry |
| LeaseAdmissionRuns.MarksOnlyRise | web/worker-lease-admission.ts:98-139 | along every run of up-to-date commits no key's mark falls, across lost answers, cleared and new contexts |
| LeaseAdmissionRuns.NoPairTwice | web/worker-lease-admission.ts:108-112 | along such runs no key and sequence pair is admitted twice |
| LeaseAdmissionRuns.AdmissionsIncrease | web/worker-lease-admission.ts:108-112 | admissions of one key carry strictly increasing sequences |
| LeaseAdmissionRuns.AdmittedPairIsRefused | web/worker-lease-admission.ts:108-112 | an admitted pair is refused from then on, whatever the request around it |
| LeaseAdmissionRuns.SupersededIsRefused | web/worker-lease-admission.ts:260-273 | once its key was admitted since it was made, a plan no longer passes |
| LeaseAdmissionRuns.AtMostOneOfTwo | web/worker-lease-admission.ts:260-273 | of two plans for one key from one state at most one passes, in every run and however late the commit |
| LeaseAdmissionRuns.EffectsFollowCommits | web/worker-lease-admission.ts:268-272 | in every run each effect belongs to its own earlier commit |
| LeaseAdmissionRuns.CommitKeepsMarksExactly | web/worker-lease-admission.ts:113-139 | a passing commit keeps every mark exactly when nothing was admitted since its plan was made |
| LeaseAdmissionRuns.PairAdmittedTwice | web/worker-lease-admission.ts:113-139 | two renewals for different keys planned from one state let a pair be admitted twice |
| LeaseAdmissionRuns.PairAdmittedTwiceHappens | web/worker-lease-admission.ts:113-139 | a concrete device and two renewals on which this happens |
| SimulatedController.SimulatedWorkerControllerClock.Emit | web/simulated-worker-controller.ts:101-103 | every subscribed controller, none or many, reacts in subscription order |
| SimulatedController.SimulatedWorkerControllerClock.AdvanceMonotonic | web/simulated-worker-controller.ts:35-43 | the advance and the reactions of all listeners are one step |
| SimulatedController.SimulatedWorkerControllerClock.JumpWallTime | web/simulated-worker-controller.ts:46-49 | only wall time changes |
| SimulatedController.SimulatedWorkerControllerClock.ResetMonotonic | web/simulated-worker-controller.ts:52-59 | a reset is a discontinuity the listeners are told of at once |
| SimulatedController.SimulatedWorkerControllerClock.LoseContinuity | web/simulated-worker-controller.ts:62-67 | likewise for lost continuity |
| SimulatedController.SimulatedWorkerControllerClock.Reboot | web/simulated-worker-controller.ts:70-76 | likewise for a reboot, from time zero |
| SimulatedController.SimulatedWorkerController.constructor | web/simulated-worker-controller.ts:131-142 | a new controller is subscribed after those already there |
| SimulatedController.SimulatedWorkerController.EnforceSafety | web/simulated-worker-controller.ts:216-238 | the listener's tests in their order |
| SimulatedController.SimulatedWorkerController.StartLease | web/simulated-worker-controller.ts:148-172 | start does exactly its step, acknowledging a discontinuity even when a deadline then overflows |
| SimulatedController.SimulatedWorkerController.RenewLease | web/simulated-worker-controller.ts:174-196 | renewal does exactly its step, half done when the expiry overflows |
| SimulatedController.SimulatedWorkerController.Status | web/simulated-worker-controller.ts:198-201 | enforcement, then the status |
| SimulatedController.SimulatedWorkerController.Restore | web/simulated-worker-controller.ts:203-214 | restoration for any reason |
| LeaseClock.NextIsSound | web/simulated-worker-controller.ts:148-244 | every event keeps a held lease sound and never meets the inconsistency error |
| LeaseClock.EveryRunIsSound | web/simulated-worker-controller.ts:35-272 | the same for every interleaving of clock events and requests |
| LeaseClock.EveryRunFromStart | web/simulated-worker-controller.ts:131-142 | from a fresh controller: a held lease means now < expiry <= now + 60000, the same continuity and no pending discontinuity; restoration is pending exactly when a lease is held |
| LeaseClock.RestoreEnds | web/simulated-worker-controller.ts:211-244 | restoring ends a held lease at once and answers baseline, confirmed for that reason |
| LeaseClock.LeaseEndsExactly | web/simulated-worker-controller.ts:216-244 | a held lease ends in one step exactly by a restoration, a break of continuity or an advance to its expiry, for that reason, observed once |
| LeaseClock.StartsExactly | web/simulated-worker-controller.ts:148-172 | a lease starts exactly on a valid authentic grant while none is held and its deadline fits, running from now; with each refusal |
| LeaseClock.RenewsExactly | web/simulated-worker-controller.ts:174-196 | a lease is renewed exactly on a valid authentic renewal of its own id whose deadline fits, counting from now; with each refusal |
| LeaseClock.StatusExactly | web/simulated-worker-controller.ts:198-272 | a status changes nothing and reports the lease with its deadlines or the baseline with the last restoration |
| LeaseClock.ClockMovesExactly | web/simulated-worker-controller.ts:35-76 | time and continuity move by accepted events only, and a break of continuity no lease consumed stays pending |
| LeaseClock.WindowExactly | web/worker-controller-semantics.ts:329-355 | a lease window of at most a minute, renewed within twenty seconds and before its end |
| LeaseClock.TestsThatNeverDecide | web/simulated-worker-controller.ts:225-232 | the listener's continuity and regression tests never decide |
| LeaseClock.WallTimeChangesNothing | web/simulated-worker-controller.ts:45-49 | wall-time jumps, anywhere in a run, change no answer and no lease |
| LeaseClock.UnrenewedLeaseEnds | web/simulated-worker-controller.ts:216-238 | without a start or renewal a lease is gone once the clock has advanced to its expiry, so within 60000 milliseconds, whatever else happens |
| LeaseClock.RenewalPointStaysExactly | web/simulated-worker-controller.ts:185-195 | the renewal point stays before the expiry exactly unless a renewal overflows between the two |
| LeaseClock.EveryStatusParses | web/worker-controller-semantics.ts:281-287 | in a run without such a renewal every status is one the parser accepts |
| LeaseClock.HalfRenewalSpoilsStatus | web/simulated-worker-controller.ts:186-194 | after such a renewal the next status is one the parser refuses |
| LeaseClock.HalfRenewalHappens | web/simulated-worker-controller.ts:148-196 | a start and such a renewal on a new controller near the largest safe integer |
| SharedClock.OneListener | web/simulated-worker-controller.ts:35-76 | with one controller a clock event is the step of the single-controller model |
| SharedClock.EverySharedRunIsSound | web/simulated-worker-controller.ts:35-272 | however many controllers share a clock, every held lease is unexpired, within 60000 milliseconds, on the clock's continuity and with no discontinuity pending, in every interleaving |
| SharedClock.EachAsAlone | web/simulated-worker-controller.ts:101-238 | without a discontinuity every controller reacts as if it were alone |
| SharedClock.SurvivesDiscontinuityExactly | web/simulated-worker-controller.ts:216-238 | a lease outlives a discontinuity exactly when an earlier controller held one too and its own continuity and deadline still fit |
| SharedClock.AllEndExactly | web/simulated-worker-controller.ts:216-238 | every lease ends at a discontinuity exactly when none still fits behind another |
| SharedClock.SurvivalHappens | web/simulated-worker-controller.ts:52-104 | two controllers and a reset that only the first notices |
| Ed25519.Field | web/ed25519-public-key.ts:99-102 | the reduction, with JavaScript's signed remainder, is the residue in [0, p) |
| Ed25519.FieldPower | web/ed25519-public-key.ts:104-114 | square-and-multiply is base^exponent mod p for every base and exponent |
| Ed25519.MaybeDecompress | web/ed25519-public-key.ts:41-57 | the code computes the decompression function |
| Ed25519.DecompressedShape | web/ed25519-public-key.ts:41-57 | with no hypothesis: x in [0, p), x^2 the computed value, low bit the sign |
| PrimeField.Fermat | web/ed25519-public-key.ts:48-50 | Fermat's little theorem, by which the power p - 2 inverts |
| PrimeField.TwoIsNotASquare | web/ed25519-public-key.ts:9-9 | for a prime 8k + 5, two to the power 4k + 2 is minus one, so the constant is a root of minus one |
| Ed25519.CurveConstantIs | web/ed25519-public-key.ts:6-8 | the constant d is -121665 / 121666 |
| Ed25519.DenominatorNeverVanishes | web/ed25519-public-key.ts:47-47 | 1 + d y^2 is never zero, since otherwise twice a square would be a square |
| Ed25519.CandidateIsRoot | web/ed25519-public-key.ts:51-53 | every square gets a candidate that squares to it |
| Ed25519.OnCurveExactly | web/ed25519-public-key.ts:45-50 | a point is on the curve exactly when x^2 is the computed value |
| Ed25519.DecompressExactly | web/ed25519-public-key.ts:41-57 | decompression gives (x, y) exactly when that point is on the curve with x of that parity, for every y (section 5.1.3 of RFC 8032) |

## Left out

- HTTP routers, PostgreSQL repositories, the TCP proxy and browser pages: input and output around the modelled code.
- Signatures, SHA-256, HMAC, WebAuthn and WebCrypto: foreign code; digests are function parameters where a value is needed.
- Stratum header assembly, difficulty arithmetic and network-target checks: function parameters of the session model, like JSON parsing and printing there.
- Frame length: Stratum frames are sequences of bytes in the model, so its length test counts bytes as the original does.
- Process-lock acquisition, stale-lock clearing and file protection checks: one lock holder at a time is assumed, each atomic file replacement is one step, and a removal with its directory sync is one step.
- `initialize` of the authority script: it runs before any journal exists.
- Key material in the authority store: a key is its id and public part; JWK field formats are not modelled, and `createAuthority` is assumed to make fresh lease key ids.
- AuthorityRuns.SequencesIncrease: assumes that no lease key id is ever created twice, as random ids are meant to ensure.
- The shape checks of dynamically typed input (`plainRecord`, unknown fields, boxed values): the model's types exclude them.
- LeaseAdmission.AdmissionDevice.Persist: the original takes persistence as a callback; the model uses the compare-and-swap of its tests.
- Unsubscribing from the clock: the controller never does.
- Grant fields other than the identifiers and the lease window: one flag says whether they are well formed, another whether the authorization verifies.
- canonicalJson on numbers that are not integers, and the text of a top-level `undefined` (the model gives the empty text).
- JsonRoundTrip.CanonicalTextReadsBack: an array with an undefined item has a text that is not JSON, so such values are left to the injectivity results.
- StratumFrames.RightCredentialsGoUpstream: what a forwarded frame parses to is stated for libraries whose printing and parsing of messages are inverse.
- The broadcast of progress updates by the progress service.
- Letter case in addresses: lower- and upper-casing are parameters of the Segwit check.
- ConvertBits.Convert: stated for widths with a sum of at most 32 bits, which covers the 5 and 8 the code uses, and for 32-bit inputs.
- Ed25519.DecompressExactly: rests on one hypothesis, that 2^255 - 19 is prime, which is not derived.
- Ed25519 point addition, scalar multiplication and the subgroup test: they need the group law of the curve.
- Floating-point displays (`as_f64`, `equivalent_binary_zero_work`), byte output and small conversions of `src/work.rs`: only easy members.
- Lifecycle tables, policy tables and strict field parsers: finite or one-branch checks.
