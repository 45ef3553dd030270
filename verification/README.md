# A verified model of the MindOne core

This project models the deterministic core of a network that rents out model inference: a quota
ledger chained by hashes, the price and settlement of a request, the reserve, the choice of a node,
the choice of a model file for deployment, the proxies through which a consumer reaches a node, and
three stand-alone loops. `dafny verify dfyconfig.toml` checks the whole of it.

| file | models |
|---|---|
| `Canonical`, `Text`, `Ledger`, `History` | the length-prefixed hash input of a ledger entry, the hash chain, and the client's re-check of displayed rows |
| `Fixed`, `Billing`, `Reserve` | rounding of settlements, the price of a request, reservations, and the reserve's books |
| `Midrank`, `ContributionRouting` | percentiles of contributions and the congestion-aware ranking of nodes |
| `AsnResolver` | the longest-prefix map from addresses to autonomous systems |
| `DeploymentGroups`, `DeploymentChoice` | grouping the shards of a model and choosing what to deploy |
| `CleanupRecord`, `SlotCleanup` | the managed loopback proxy: erasing slot 0 between inferences, under arbitrary interleaving |
| `StreamLog`, `StreamRelay` | the coordinator's append-only event log and the event stream the consumer's proxy makes of it |
| `SessionRotation` | concurrent requests that share a login session and rotate it when it is rejected |
| `Tokenizer`, `Volatility` | the command-line tokenizer and the root finder of the Glicko-2 update |
| `Wrappers`, `Machine`, `Division`, `Ordering` | option and result types, machine integers, integer quotients, sorting and permutations |

Premises that the theorems name:

- The hash function is a parameter. `HeadDeterminesChain` asks that it has no collision, and no
  genesis value, on the byte strings of the two chains compared, not on all byte strings: no function
  into 64 hexadecimal digits is injective on all. `TamperingYieldsCollision` states the same without
  a premise.
- UTF-8, decimal numbers, UUID printing and the length prefixes are modelled in full and their
  injectivity is proved.
- The exponential and the logarithm are parameters, used over exact reals through the three facts in
  `Volatility.ExpLn`; `PremiseSatisfiable` exhibits a pair that has them.
- In `SlotCleanup` the server does not drop a handler between the start of its forwarding and the
  record of the erase after a failed send. `DropSafeIff` shows that this premise is exact, and
  `DropDuringSendBreaks` a run of the code that violates it and forwards two inferences with no erase
  between.

Where the code does not keep what it seems to promise, the exact condition is proved together with a
case that meets it:

- `add_inflow` can leave its first addition behind (`FailureAtomicity`); the balance of a run is inflow
  minus outflow exactly when no inflow was torn (`BooksBalanceIff`), and runs with a torn inflow exist
  (`TornRunExists`).
- Percentiles separate different contributions only while `n - 1` is at most the scale
  (`StrictExactly`).
- The displayed purpose of a reserve release is not bound by the hash (`DisplayedPurposeIsFree`,
  `ShownAndHashedPurposeDiffer`).
- Once the status file is lost, the proxy still forwards exactly those requests that had passed the
  check on arrival and were neither refused nor forwarded since (`ForwardedAfterLossIff`,
  `ForwardedAfterLoss`).
- A session can be renewed exactly as long as no rotation was lost on its way back (`RenewableIff`),
  and one can be (`RotationCanBeLost`).

## Model

| member | source | states |
|---|---|---|
| Canonical.FramesRoundTrip | crates/mindone-accounting/src/ledger.rs:244-248 | reading length-prefixed fields gives back every list of fields, whatever bytes they hold |
| Canonical.FramesInjective | crates/mindone-accounting/src/ledger.rs:244-248 | equal encodings come from equal field lists |
| Canonical.ByteBuffer.AppendCanonicalField | crates/mindone-accounting/src/ledger.rs:244-248 | the buffer holds exactly the frames of the fields appended so far |
| Text.DecimalInjective | crates/mindone-accounting/src/ledger.rs:159-172 | different integers, of either sign, print differently |
| Text.UuidTextInjective | crates/mindone-accounting/src/ledger.rs:161-164 | different UUIDs print differently |
| Text.UuidShape | crates/mindone-accounting/src/ledger.rs:161-164 | the printed form has its four hyphens and is otherwise the bytes in hexadecimal |
| Text.EncodesCodePoint | crates/mindone-accounting/src/ledger.rs:244-248 | the bytes of a character decode to its code point and are as few as possible |
| Text.ControlsAre | crates/mindone-accounting/src/ledger.rs:198-206 | the control characters are the two blocks of 32 and the delete character |
| Text.WhitespaceIs | crates/mindone-cli/src/tui.rs:1071-1130 | white space is the 25 characters of the Unicode property |
| Ledger.AppendMetadata | crates/mindone-accounting/src/ledger.rs:173-176 | the metadata enters the buffer as key, value, key, value in ascending key order |
| Ledger.RecomputeHash | crates/mindone-accounting/src/ledger.rs:139-178 | the buffer code hashes the specified input, or fails with the entry type's error |
| Ledger.MetadataFieldsInjective | crates/mindone-accounting/src/ledger.rs:173-176 | the metadata fields determine the metadata map |
| Ledger.KindFromScopeAndType | crates/mindone-accounting/src/ledger.rs:33-71 | scope and entry type identify the kind, whatever the metadata |
| Ledger.HeadFieldsInjective | crates/mindone-accounting/src/ledger.rs:151-172 | the fourteen fixed fields determine version, scope, type, ids, key, amounts, timestamp in microseconds and previous hash |
| Ledger.HashInputUnique | crates/mindone-accounting/src/ledger.rs:139-178 | two entries have one hash input if and only if they agree on everything hashed |
| Ledger.ValidateChain | crates/mindone-accounting/src/ledger.rs:250-270 | the walk accepts exactly the valid chains, and reports the first entry that fails with its own error |
| Ledger.ValidChainIff | crates/mindone-accounting/src/ledger.rs:180-270 | a list is a valid chain exactly if every entry is balanced (after = before + amount, both nonnegative, debits exactly for consumer deductions and releases, zero only for contributions), in bounds and hashable, carries its own hash and its predecessor's, and is no older |
| Ledger.NewEntryIff | crates/mindone-accounting/src/ledger.rs:95-126 | a draft becomes an entry exactly if it is balanced, in bounds and hashable, and is then unchanged but for its hash |
| Ledger.LowerHexIff | crates/mindone-accounting/src/ledger.rs:272-278 | the byte test accepts exactly 64 lower-case hexadecimal digits |
| Ledger.MicrosCutTowardEpoch | crates/mindone-accounting/src/ledger.rs:146-155 | the hashed time is the time in microseconds, cut off toward the year 2000 on both sides of it |
| Ledger.AppendKeepsChainValid | crates/mindone-accounting/src/ledger.rs:95-137 | an entry made by the constructor that links to the head and is no older extends a valid chain |
| Ledger.HeadDeterminesChain | crates/mindone-accounting/src/ledger.rs:250-270 | two valid chains with one head hash have the same length and agree entry by entry on every hashed field |
| Ledger.TamperingYieldsCollision | crates/mindone-accounting/src/ledger.rs:250-270 | two different valid chains with one head hand over a collision of the hash function or an input that hashes to the genesis value |
| History.KindOfInvertsLabels | crates/mindone-cli/src/quota.rs:352-371 | the client's label lookup undoes scope and entry type for every kind |
| History.KindOfIsExact | crates/mindone-cli/src/quota.rs:352-371 | every accepted pair of labels is the one its kind prints, except that the purpose of a release is free |
| History.HonestRowAccepted | crates/mindone-cli/src/quota.rs:311-350 | a row that shows a valid entry under its own labels is accepted |
| History.AcceptedIff | crates/mindone-cli/src/quota.rs:311-350 | a first-version row is accepted exactly without metadata, a second-version row exactly if its content under its labels is sound and has its hash |
| History.AcceptedRowsAgree | crates/mindone-cli/src/quota.rs:311-371 | two accepted rows with one hash show the same content, or their inputs collide |
| History.DisplayedPurposeIsFree | crates/mindone-cli/src/quota.rs:360-362 | an accepted release row stays accepted under another displayed type exactly when that is one of the four purposes |
| History.ShownAndHashedPurposeDiffer | crates/mindone-cli/src/quota.rs:360-362 | for every hash function there is an accepted row that is shown with one purpose and hashed with another |
| Fixed.CalculateExact | crates/mindone-accounting/src/fixed.rs:106-170 | a settlement succeeds exactly when the rounded deduction and contribution fit 64 bits, holds those rounded values, and no 128-bit check ever fires |
| Fixed.RatesAre | crates/mindone-accounting/src/fixed.rs:64-70 | the deduction is 3/2, 1 or 7/10 of the base cost by tier, rounded up; node quota and points are the listed shares of it by trust class, rounded down |
| Fixed.SettlementConserves | crates/mindone-accounting/src/fixed.rs:103-141 | deduction equals node quota plus reserve inflow; the inflow is at least 12% of it and positive exactly when the base cost is |
| Fixed.WorstCaseDominates | crates/mindone-accounting/src/fixed.rs:106-141 | if the largest base cost settles at the High tier and Enhanced class, every smaller one settles at every tier and class and deducts no more |
| Fixed.DeductionSubadditive | crates/mindone-accounting/src/fixed.rs:111-116 | the deduction of a whole is at most the sum over two parts that cover it |
| Billing.CeilMulDivExact | crates/mindone-accounting/src/billing.rs:266-276 | only the final narrowing to 64 bits can fail |
| Billing.PriceExact | crates/mindone-accounting/src/billing.rs:144-190 | a price exists exactly when its components fit 64 bits, and is then the one with every component rounded up |
| Billing.QuoteAmounts | crates/mindone-accounting/src/billing.rs:127-190 | a quote charges GPU time per thousand tokens on top of the fixed time, memory over that time, and three costs, each rounded up on its own in its own unit |
| Billing.ValidateMeansTotal | crates/mindone-accounting/src/billing.rs:56-117 | a profile is accepted if and only if its fields are in range and every request up to its maximum can be priced and settled at every tier and trust class |
| Billing.QuoteTotal | crates/mindone-accounting/src/billing.rs:127-190 | on an accepted profile a quote succeeds exactly for the counts from 1 to the maximum |
| Billing.ReservationIff | crates/mindone-accounting/src/billing.rs:193-233 | a reservation is granted exactly on an accepted profile for token counts within both bounds |
| Billing.ReservationCovers | crates/mindone-accounting/src/billing.rs:193-233 | a reservation is at least every deduction of the request it covers, at any tier and class, and is reached by the full request |
| Billing.BaseCostSubadditive | crates/mindone-accounting/src/billing.rs:144-179 | through nested ceilings and the fixed GPU time, the cost of a sum is at most the sum of the costs |
| Billing.SplittingNeverSaves | crates/mindone-accounting/src/billing.rs:144-190 | splitting a request lowers neither base cost nor deduction |
| Reserve.ReserveState.AddInflow | crates/mindone-accounting/src/reserve.rs:46-55 | the new books and the answer, including the balance kept when the second addition fails |
| Reserve.ReserveState.ReleaseAmount | crates/mindone-accounting/src/reserve.rs:57-95 | the new books and the answer of a release |
| Reserve.FailureAtomicity | crates/mindone-accounting/src/reserve.rs:46-95 | a failed release changes nothing; a failed inflow changes the books exactly when the balance had room and the lifetime total had not |
| Reserve.RunConserves | crates/mindone-accounting/src/reserve.rs:46-95 | over every run of settlements and releases, deductions equal node quota plus inflow plus refused inflow, the reserve's part is at least 12%, and the balance is inflow minus outflow plus what torn inflows left |
| Reserve.BooksBalanceIff | crates/mindone-accounting/src/reserve.rs:50-54 | the balance equals inflow minus outflow after a run exactly when no inflow of the run was torn |
| Reserve.TornRunExists | crates/mindone-accounting/src/reserve.rs:46-95 | a run of two settlements and a release in which an inflow is torn and the balance is not inflow minus outflow |
| Reserve.InflowTakenIff | crates/mindone-accounting/src/reserve.rs:46-55 | whatever the books, the reserve takes a settlement's inflow exactly when its base cost is positive and both balance and lifetime total have room |
| Midrank.Frequencies | crates/mindone-accounting/src/routing.rs:250-253 | the table holds every contribution with its multiplicity |
| Midrank.MidrankPercentiles | crates/mindone-accounting/src/routing.rs:247-269 | the ascending pass with its running count gives every contribution its midrank percentile |
| Midrank.PercentileInRange | crates/mindone-accounting/src/routing.rs:260-264 | every percentile lies between 0 and the scale, so the conversion never falls back |
| Midrank.PercentileFloor | crates/mindone-accounting/src/routing.rs:260-264 | a percentile is the members below less the members above, from the middle of the cohort, on the scale, rounded down |
| Midrank.PercentilesMirror | crates/mindone-accounting/src/routing.rs:247-269 | negating all contributions turns each percentile into the rest of the scale, less one exactly where rounding bites |
| Midrank.PercentilesAverage | crates/mindone-accounting/src/routing.rs:260-264 | the percentiles of a cohort average half the scale, up to the rounding down of each |
| Midrank.MidranksSum | crates/mindone-accounting/src/routing.rs:260-262 | the doubled midranks of a cohort sum to n(n-1), whatever the ties |
| Midrank.NumeratorsSum | crates/mindone-accounting/src/routing.rs:260-262 | the numerators of a cohort's percentiles sum to n(n-1) times the scale |
| Midrank.LargerRanksHigher | crates/mindone-accounting/src/routing.rs:247-269 | a larger contribution never ranks lower |
| Midrank.StrictExactly | crates/mindone-accounting/src/routing.rs:260-264 | different contributions always get different percentiles in cohorts of size n if and only if n - 1 is at most the scale |
| Midrank.PercentilePermutes | crates/mindone-accounting/src/routing.rs:247-253 | percentiles do not depend on the order of the cohort |
| ContributionRouting.ValidateCohort | crates/mindone-accounting/src/routing.rs:185-203 | exactly the cohorts with valid, distinct identifiers and no negative number are accepted |
| ContributionRouting.RankContributionCandidates | crates/mindone-accounting/src/routing.rs:180-245 | the loop and the sort produce the specified ranking of a valid cohort, and an error otherwise |
| ContributionRouting.RankingPermutes | crates/mindone-accounting/src/routing.rs:213-244 | no candidate is lost, repeated or altered |
| ContributionRouting.BandFirst | crates/mindone-accounting/src/routing.rs:205-244 | under congestion the whole 2% band comes first by percentile; everything else is in base-score order |
| ContributionRouting.FirstIsNearBest | crates/mindone-accounting/src/routing.rs:205-244 | the first choice is within 2% of the best base score, and has it when contribution routing is off |
| ContributionRouting.FirstWithinTwoPercent | crates/mindone-accounting/src/routing.rs:205-244 | the first choice has at least 98% of the score of every candidate |
| ContributionRouting.PercentilesShown | crates/mindone-accounting/src/routing.rs:205-236 | a percentile is shown exactly in a congested cohort of five or more for a score of at least 98% of every other, and is then the midrank percentile |
| ContributionRouting.InputOrderIrrelevant | crates/mindone-accounting/src/routing.rs:180-245 | reordering the input changes neither its acceptance nor the ranking |
| AsnResolver.FromJson | crates/mindone-coordinator/src/anti_abuse.rs:79-102 | exactly the acceptable documents are taken, and their prefixes are sorted longest first |
| AsnResolver.AcceptableIff | crates/mindone-coordinator/src/anti_abuse.rs:79-102 | a file is accepted exactly if it has version 1, a permitted number of entries, each with a public number, a length within its family and no bit set past it, and no prefix twice |
| AsnResolver.BuildExact | crates/mindone-coordinator/src/anti_abuse.rs:147-183 | an accepted entry keeps its number, family, network and length |
| AsnResolver.ContainsIsLeadingBits | crates/mindone-coordinator/src/anti_abuse.rs:212-249 | masking and comparing tests agreement of the leading bits, in both families and for every length |
| AsnResolver.OneHitPerLength | crates/mindone-coordinator/src/anti_abuse.rs:197-233 | two valid prefixes of one length that contain one address have one identity |
| AsnResolver.LookupIsLongestMatch | crates/mindone-coordinator/src/anti_abuse.rs:110-116 | for every accepted file the answer is the unique longest match, or none if nothing matches |
| AsnResolver.LookupReadsFile | crates/mindone-coordinator/src/anti_abuse.rs:79-116 | the lookup answers a number exactly if the longest entry of the file that matches the address has it, and nothing exactly if none matches |
| AsnResolver.FileOrderIrrelevant | crates/mindone-coordinator/src/anti_abuse.rs:79-116 | the order of the entries in the file affects neither acceptance nor any answer |
| DeploymentGroups.CollectClasses | crates/mindone-cli/src/model.rs:598-623 | the pass separates unsplit files from classes keyed by directory, prefix and count, in listing order |
| DeploymentGroups.DeploymentArtifactGroups | crates/mindone-cli/src/model.rs:598-643 | in whatever order the classes are visited, the result is the unsplit files and every complete class once, in index order |
| DeploymentGroups.InOrderIffComplete | crates/mindone-cli/src/model.rs:624-641 | the test on the sorted class passes exactly when its indices are 1 to count |
| DeploymentGroups.GroupsSound | crates/mindone-cli/src/model.rs:598-643 | every group is one unsplit file or the shards 1 to count of one class, all with trusted hash and size |
| DeploymentGroups.GroupsComplete | crates/mindone-cli/src/model.rs:598-643 | no unsplit file and no complete class is dropped |
| DeploymentGroups.UnsplitKept | crates/mindone-cli/src/model.rs:601-622 | a runnable file with trusted hash and size whose name neither parses as a shard nor looks like one is offered on its own |
| DeploymentGroups.ClassMembersExact | crates/mindone-cli/src/model.rs:601-623 | the members of a class are exactly the runnable files of its directory whose names parse to its prefix and count |
| DeploymentGroups.NoOccurrenceReused | crates/mindone-cli/src/model.rs:598-643 | no occurrence of a file is used twice |
| DeploymentChoice.FitAgreesWithPreflight | crates/mindone-cli/src/model.rs:655-718 | the saturating fit flag and the later checked preflight agree on every list of files |
| DeploymentChoice.FitMeans | crates/mindone-cli/src/model.rs:585-596 | a group fits exactly if all sizes are known and their sum with two gibibytes is within seven tenths of the memory |
| DeploymentChoice.ScanGroups | crates/mindone-cli/src/model.rs:526-560 | one repository's loop keeps the least candidate seen, or stops at the first that fits with top priority |
| DeploymentChoice.Discover | crates/mindone-cli/src/model.rs:506-576 | an if and only if for each outcome: it fails on the first failed listing that nothing before it keeps the scan from reaching, finds nothing exactly when no listing failed and nothing is offered, and otherwise answers with the first candidate that ends the scan, else with the least of all in the full order |
| DeploymentChoice.ChoiceFits | crates/mindone-cli/src/model.rs:506-567 | if anything offered anywhere fits, the choice fits and no fitting candidate has a smaller quantisation priority |
| DeploymentChoice.ChoiceIsLexicographic | crates/mindone-cli/src/model.rs:511-567 | nothing offered is better than the choice on the first count on which they differ: fitting, priority, size, repository, name; with an early exit, repository, size, name among those that end the scan |
| DeploymentChoice.PriorityIsFirstRow | crates/mindone-cli/src/model.rs:661-686 | the priority of a file is the first row of the preference table that its name contains, whatever its case |
| DeploymentChoice.GroupingsAgree | crates/mindone-cli/src/model.rs:598-643 | two visits of the same listing in different orders offer the same groups |
| CleanupRecord.ProxyState.RecordCleanup | crates/mindone-cli/src/serve_proxy.rs:435-470 | the flag, the status record with saturating counters, and the reporting flag after one cleanup |
| CleanupRecord.RelayBody | crates/mindone-cli/src/serve_proxy.rs:342-371 | the detached relay reads the response to its end or first error even when the consumer has left, and delivers an unbroken prefix |
| SlotCleanup.StepKeepsInv | crates/mindone-cli/src/serve_proxy.rs:190-393 | every step of every handler keeps: free permit and unerased slot imply the flag |
| SlotCleanup.ErasesSeparateInferences | crates/mindone-cli/src/serve_proxy.rs:190-393 | in every interleaving, whatever fails, a confirmed erase of slot 0 lies between any two forwarded inferences |
| SlotCleanup.TraceIsTruthful | crates/mindone-cli/src/serve_proxy.rs:259-433 | in every run each confirmed erase of the trace was written by a step whose reply was a successful response of bounded size with a receipt for slot 0, and each forwarding by the sending of that request |
| SlotCleanup.DropSafeIff | crates/mindone-cli/src/serve_proxy.rs:259-341 | dropping a handler keeps the gate safe if and only if no request of it is under way unaccounted |
| SlotCleanup.DropDuringSendBreaks | crates/mindone-cli/src/serve_proxy.rs:259-341 | a concrete run in which a dropped handler lets a second inference through without an erase |
| SlotCleanup.CountersAreExact | crates/mindone-cli/src/serve_proxy.rs:435-470 | the counters are the run's true counts, saturated, and every recorded cleanup is a success or a failure |
| SlotCleanup.TokenCounterIsExact | crates/mindone-cli/src/serve_proxy.rs:435-470 | the token counter is the true total of the recorded successes, saturated |
| SlotCleanup.RecordFollowsStep | crates/mindone-cli/src/serve_proxy.rs:435-470 | each record sets the flag and the last error to the outcome recorded, and nothing else does |
| SlotCleanup.TurnedAwayNeverForwarded | crates/mindone-cli/src/serve_proxy.rs:190-257 | a request turned away for the engine's identity, a failed or unrecorded retry, or its body is never forwarded in any run |
| SlotCleanup.ForwardedAtMostOnce | crates/mindone-cli/src/serve_proxy.rs:190-393 | no run forwards a request twice |
| SlotCleanup.LateArrivalsRefused | crates/mindone-cli/src/serve_proxy.rs:206-212 | a request that arrives after the status could not be written is never forwarded |
| SlotCleanup.QueuedRequestStillForwarded | crates/mindone-cli/src/serve_proxy.rs:206-257 | from every state of the invariant a queued request can go on to its forwarding, whoever holds the permit, whether or not a cleanup is due or the status is lost |
| SlotCleanup.ForwardedAfterLossIff | crates/mindone-cli/src/serve_proxy.rs:206-257 | after the loss some continuation forwards a request if and only if it had passed the check on arrival and was neither refused nor forwarded since |
| SlotCleanup.ForwardedAfterLoss | crates/mindone-cli/src/serve_proxy.rs:200-257 | a run from the start that loses the status while a request is queued, and forwards it |
| StreamLog.StepKeepsJobOk | crates/mindone-coordinator/src/routes/jobs.rs:1259-1461 | appends, replays, settlement, failure and cancellation keep the log contiguous, closed by at most one end mark, append-only, and frozen once closed |
| StreamLog.AppendExact | crates/mindone-coordinator/src/routes/jobs.rs:1332-1435 | an append is accepted exactly if it repeats a stored event or is the next one of a log that is open and has room, and then adds just that event |
| StreamLog.CompleteIffClosed | crates/mindone-coordinator/src/routes/jobs.rs:2750-2790 | the aggregate transcript check passes exactly on logs that end with their end mark |
| StreamLog.SettlesIffClosed | crates/mindone-coordinator/src/routes/jobs.rs:2750-2790 | a leased job can be settled exactly if its log ends with its end mark |
| StreamLog.LogOnlyGrows | crates/mindone-coordinator/src/routes/jobs.rs:1259-1461 | over every run the log only grows, and stays as it is once its job has succeeded |
| StreamLog.ReadsAreHonest | crates/mindone-coordinator/src/routes/jobs.rs:1492-1647 | however appends and settlement fall between its three queries, a read returns consecutive events of the final log from the cursor, and reports success and its end truthfully |
| StreamLog.ReadsAreServed | crates/mindone-coordinator/src/routes/jobs.rs:1463-1647 | while the job has neither failed nor been cancelled, a read is served at every cursor the consumer can hold |
| StreamLog.SucceededReadsAreFull | crates/mindone-coordinator/src/routes/jobs.rs:1492-1647 | a read of a succeeded job returns as many of the next events as the limit allows and says whether there are more |
| StreamLog.BrokenReadsSaySo | crates/mindone-coordinator/src/routes/jobs.rs:1492-1647 | a read of a failed or cancelled job is served and carries its status and message |
| StreamLog.ReplayIsIdempotent | crates/mindone-coordinator/src/routes/jobs.rs:1332-1357 | repeating an accepted append changes nothing and is answered as a replay |
| StreamRelay.ProxyStream.Next | crates/mindone-cli/src/quota.rs:923-1015 | the polling loop computes the specified chunk, state and remaining polls |
| StreamRelay.OutcomeIsReported | crates/mindone-cli/src/quota.rs:923-1005 | each poll that decides a waiting stream is followed by exactly the events it brought and then one terminal frame: success, the job's message, or the deadline, decoding, retry or outage error |
| StreamRelay.QuietPollsKeepAlive | crates/mindone-cli/src/quota.rs:1006-1012 | a poll that decides and brings nothing produces a keep-alive exactly after 15 seconds without output |
| StreamRelay.RelayContinues | crates/mindone-cli/src/quota.rs:923-1015 | against any honest coordinator the frames continue the log without gap or repetition, success comes only after all of it, and nothing follows a terminal frame |
| StreamRelay.StreamIsFaithful | crates/mindone-cli/src/quota.rs:894-1015 | end to end: for every run of node, coordinator and network the consumer gets events 0, 1, 2, ... of the job's log and a success frame only with the whole log of a succeeded job |
| StreamRelay.SuccessIsAnnounced | crates/mindone-cli/src/quota.rs:923-1015 | end to end: once enough polls find the job succeeded, before the deadline and with short losses, the consumer gets the whole log and the success frame |
| StreamRelay.FailureIsAnnounced | crates/mindone-cli/src/quota.rs:923-1015 | end to end: the first poll that finds the job failed or cancelled ends the stream with the job's message |
| StreamRelay.OutagesAreBridged | crates/mindone-cli/src/quota.rs:962-1005 | from any stream, while polls before the deadline are answered without an error verdict or lost for less than 30 seconds, no error frame is emitted |
| StreamRelay.OutagesAreUnnoticed | crates/mindone-cli/src/quota.rs:894-1015 | end to end over the coordinator's own replies: while the job is not broken, no poll is garbled or late and every loss is shorter than 30 seconds, the consumer sees no error |
| StreamRelay.LongOutageEndsStream | crates/mindone-cli/src/quota.rs:999-1005 | an outage of 30 seconds ends every waiting stream with an error frame, if the consumer asks often enough |
| SessionRotation.RotatedOncePerRejection | crates/mindone-cli/src/quota.rs:1017-1059 | in every interleaving a rejected token is replaced at most once, only after its rejection and only by a newer one, and a request is sent at most twice, never twice with one token |
| SessionRotation.PresentedTokenIsLive | crates/mindone-cli/src/auth.rs:294-317 | a refresh presents the coordinator's current one-time token if and only if no rotation was lost; rotations and replacements match one to one up to that |
| SessionRotation.LostRotationIsFinal | crates/mindone-cli/src/auth.rs:294-317 | once the answer to a rotation is lost, the session is never replaced again |
| SessionRotation.RenewableIff | crates/mindone-cli/src/quota.rs:1017-1059 | after any run some continuation replaces the session if and only if no rotation was lost |
| SessionRotation.RotationCanBeLost | crates/mindone-cli/src/auth.rs:294-317 | one refused request whose refresh is answered in vain loses the rotation |
| SessionRotation.LaterRejectionReusesSession | crates/mindone-cli/src/quota.rs:1047-1053 | a request rejected while another rotated the session goes on with the new one and refreshes nothing |
| SessionRotation.ReleasedIsSentAgain | crates/mindone-cli/src/quota.rs:1017-1044 | a request that replaced the session, or found it replaced, does not finish before its second attempt unless it is dropped |
| Tokenizer.SplitCommandLine | crates/mindone-cli/src/tui.rs:1071-1144 | the character loop computes the scan of the whole input |
| Tokenizer.SplitUndoesQuoting | crates/mindone-cli/src/tui.rs:1071-1144 | quoting each word and joining with spaces is split back to exactly the words, for every list of words |
| Tokenizer.BackslashMeans | crates/mindone-cli/src/tui.rs:1071-1130 | a backslash joins white space or a quote to the word, and stands for itself before anything else |
| Tokenizer.SplitIsGrammar | crates/mindone-cli/src/tui.rs:1071-1144 | every input has a reading in the grammar, and every reading determines the result |
| Tokenizer.ErrorMeansOpenQuote | crates/mindone-cli/src/tui.rs:1133-1143 | an error is returned exactly when a quote is left open, and names that quote |
| Volatility.LogarithmBrackets | crates/mindone-accounting/src/glicko2.rs:182-190 | with a large improvement, its logarithm and the starting point bracket a root |
| Volatility.FirstStepBrackets | crates/mindone-accounting/src/glicko2.rs:190-211 | otherwise the first downward step already does |
| Volatility.FindUpper | crates/mindone-accounting/src/glicko2.rs:181-211 | the search for the second endpoint never fails and ends with a sign change |
| Volatility.SecantBetween | crates/mindone-accounting/src/glicko2.rs:229-245 | the secant point of a sign-changing pair lies between its endpoints |
| Volatility.IterateKeepsBracket | crates/mindone-accounting/src/glicko2.rs:229-260 | every pass keeps a sign change, with the halved value on the right side, inside the previous interval |
| Volatility.PassIsSecant | crates/mindone-accounting/src/glicko2.rs:240-259 | the new point is the zero of the line through the old ones; which old point stays, and whether its value is halved, depends on the sign change |
| Volatility.ObjectiveEquation | crates/mindone-accounting/src/glicko2.rs:266-281 | the objective is the function of step 5, multiplied out |
| Volatility.OutcomeUnique | crates/mindone-accounting/src/glicko2.rs:229-264 | an answer, a degenerate bracket and an exhausted budget of 1000 passes exclude one another |
| Volatility.SolveVolatility | crates/mindone-accounting/src/glicko2.rs:174-264 | an answer belongs to an interval no longer than the tolerance, inside the initial bracket, over which the objective changes sign; it is the lower end at the first pass within tolerance, and the two errors occur exactly on a flat bracket and after 1000 passes |
| Volatility.PremiseSatisfiable | crates/mindone-accounting/src/glicko2.rs:266-281 | the facts asked of exponential and logarithm hold of some pair of functions |

## Left out

- Ledger: `created_at` enters the hash in microseconds, truncated toward the year 2000, so chains agree on timestamps only up to that; the chain does not link balances from entry to entry, and no claim is made that it does. JSON encoding of entries is not modelled; an instant is its nanoseconds.
- Reserve: the id, purpose and timestamp that a release carries are not modelled; they do not affect the books.
- AsnResolver: JSON and the text of addresses and prefixes are parsed elsewhere; an address is its bits, most significant first. File size and permission checks are left out.
- DeploymentGroups: parsing a split file name and the parent of a path are parameters, and the classes may be visited in any order, of which the key order of the code is one.
- DeploymentChoice: fetched listings are input, the list of repository names is left out, and the detected hardware is the available memory.
- Volatility.SolveVolatility: floating point is idealised to exact reals, so finiteness checks and rounding are not modelled; convergence within 1000 passes is not claimed.
- SlotCleanup: concurrency is modelled as steps on values; checks of the engine's identity, sends, streams, erases and status writes succeed or fail arbitrarily. Counters of zeroised bytes, HTTP headers and clocks are left out, and so is liveness: nothing says that a stream or an erase ends.
- StreamLog: leases, payload validation and storage encryption appear as outcomes of a step; SQL is modelled by its effect on the rows. A streaming job has one attempt, so the retry of a job is not modelled. The cancellation of a job by the gateway (crates/mindone-coordinator/src/routes/openai_gateway.rs:237-307) is a step. Database failures count as lost polls.
- StreamRelay.ProxyStream.Next: the text of a frame, zeroisation and the 200 ms pause between polls are left out; an instant is its milliseconds and may go back. A poll includes the session rotation that `authorized_get` may do.
- SessionRotation: modelled as steps on values; the coordinator may reject any access token at any time, issues fresh tokens, and accepts a refresh token once. Device keys, challenges and the vault are outcomes of a step; a second process that rotates the same stored session is not modelled.
- The SQL and transactions of `anti_abuse.rs` and `auth.rs`, `deterministic_decision`, tiers, policies, `optimize.rs`, device binding and exit codes: case splits or database semantics.
- `rank_models`, `rank_nodes`, `quality.rs` and the rest of the Glicko-2 update: floating-point scores without an exact meaning.
- SHA-256, HMAC, key exchange, encryption, key storage and attestation adapters: foreign primitives.
- HTTP, process probing, file-system work, terminal rendering, key handling and argument parsing.
