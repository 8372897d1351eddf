# Verified model of the research-audit scripts

A Dafny 4.11 model of the algorithmic cores of the scripts directory, with machine-checked
proofs of what those cores are for.  `dafny verify dfyconfig.toml` checks everything.

Scripts that update state are methods and classes proved against specification functions
(the training-hook collector, the tensor walk, the bisection, the Holm loop, the greedy
selection, the nested sampler, the accountant replay and its review, the table scanner and
printer, the threshold scan, the composition run and its replay, the export validator, the gate
propagation).  Scripts made of exact expressions (the finite-channel experiment) are
functions and lemmas.  Exact fractions and floating-point quantities are reals; refusals and
exceptions are values.

| file | models |
|---|---|
| `CollectorSpec.dfy`, `CollectorSafety.dfy`, `CollectorRecords.dfy`, `TrainingHookCollector.dfy`, `SilentRaise.dfy` | the single-use training-hook collector: its transitions, what holds over every run, what each call leaves in the ledger, the class that updates fields, and a run whose raise leaves no record |
| `TrainingLedger.dfy` | the hash-chained event ledger and its verification |
| `TensorWalk.dfy`, `TensorStatistics.dfy` | the walk over cyclic containers, the aggregate it fills, and what its statistics say |
| `FiniteChannel.dfy`, `NestedSampler.dfy` | Bayes risk, interval floor and ceiling, CLEAR / HOLD / BLOCK, exact nested sampling |
| `HypergeometricBound.dfy`, `HolmProcedure.dfy`, `AttackThreshold.dfy`, `MomentsAccountant.dfy`, `AccountantReview.dfy`, `AccountantFindings.dfy` | the exact statistical procedures, and the review of accountant runs |
| `FarthestSelection.dfy` | greedy farthest-point selection and balanced subsets |
| `DecisionWitnesses.dfy`, `SignatureHistograms.dfy`, `ReleaseComposition.dfy`, `CompositionReplay.dfy`, `CompositionManifest.dfy` | guessing values, leaf-signature histograms, joint partitions, the composition manifest and its review |
| `ModelSubsets.dfy`, `PortfolioGates.dfy`, `ChildExport.dfy`, `ExportRows.dfy` | portfolio subsets, gate propagation, canonical child exports |
| `TableText.dfy`, `TextLines.dfy`, `DisplayedTables.dfy`, `TableShapes.dfy`, `TableFragments.dfy`, `DigestRoundTrip.dfy`, `DigestText.dfy`, `DigestFigures.dfy` | the Markdown table scanner, the digest printer, their round trip on lines and on text, and the figures the digest states |
| `FiniteSets.dfy`, `Sums.dfy`, `Arithmetic.dfy`, `Sorting.dfy`, `Results.dfy` | shared facts about sets, sums, products and quotients, sorting and results |

## Properties of the code that may surprise

Each is proved with the exact condition under which the expected property holds, and with a
concrete input on which it fails.

- The sum-of-increments bound that the composition scripts call a union bound is not a
  theorem.  An honest run passes its review exactly when the joint cells beyond the first do
  not exceed the component cells beyond one each (`CompositionReplay.HonestRunPassesExactly`);
  over releases in which every combination of cells occurs, exactly when at most one of them
  separates records at all (`ReleaseComposition.CrossedReleasesBreakTheBound`,
  `CompositionReplay.CrossedRunPassesExactly`).  Four releases of the 5 by 5 grid of
  scripts/evaluate_framework_effectiveness.py break it (`ReleaseComposition.GridBreaksTheBound`).
- The accountant review appends a ROC-ceiling mismatch after it has decided whether the run is
  reported.  An empty report means that every run replays if and only if some run fails an
  earlier check or every claimed ceiling is within tolerance of the replayed one
  (`AccountantReview.EmptyReportIsSoundExactly`).  A run whose ledgers replay but which claims
  a ceiling of 0.9 instead of 0.41 is not reported (`AccountantReview.MisstatedCeilingIsNotReported`).
- A digest is read back by its own scanner exactly when no registered family, path or status
  holds a line boundary (`DigestText.DigestReadsBackExactly`); a status with a line break in it
  truncates the index table (`DigestText.BrokenStatusIsNotReadBack`).
- Not every raise of the collector leaves a failure on record.  `CollectorSafety.RaisesAreRecorded`
  gives the exact condition for every call.  Among others a clock that raises on entry leaves the
  collector active, and a hook whose reduction raises leaves no trace; a run with both can still
  publish a report (`SilentRaise.ReportAfterRaises`).
- The composition review takes the reported success values as given: an accepted run stays
  accepted with another joint success exactly while that reaches the best reported component
  (`CompositionReplay.AcceptedJointSuccessExactly`), even where the run's own histogram
  contradicts it (`CompositionReplay.DoubledSuccessIsAccepted`).
- The sampler gives every observation exactly its weight if and only if no entry of the row is
  negative (`NestedSampler.DrawsAreExactlyTheWeights`); its own test accepts the row (-1, 2)
  (`NestedSampler.NegativeRowIsAccepted`).  This is true of the function alone: the program only
  passes it rows that were read by `rational`, which refuses negative numerators.
- `farthest` selects one item before it looks at the count, so a balanced subset has the
  requested size exactly when two or more are requested (`FarthestSelection.BalancedSizeExactly`);
  a count of one selects two (`FarthestSelection.CountOfOneSelectsTwo`).

## Model

| member | source | states |
|---|---|---|
| `CollectorSafety.EveryRunIsSafe` | scripts/llm_training_hooks.py:235-1004 | after any sequence of calls whatever: the ledger never exceeds its cap, installed = removed + remaining handles, the chain verifies from the genesis to the head, an uncapped ledger is complete step blocks followed by hooks of the open step only, and any report is certified |
| `CollectorSafety.FinalizeSucceedsExactly` | scripts/llm_training_hooks.py:893-1004 | after any run without a report, finalize creates one if and only if the collector was entered, no failure is on record, every handle can be removed, the model's parameters can be counted, the expected step count is the observed one and at least one, and nothing follows the last sealed step |
| `CollectorRecords.ReportIsMadeExactly` | scripts/llm_training_hooks.py:893-1004 | after any run without a report, finalize returns one exactly when the collector was entered, no cap, coverage, non-finite, abort or cleanup failure was recorded, every handle can be removed, the parameters can be counted, at least one step was sealed with nothing after it, and the step counts asked for are the sealed one |
| `CollectorSafety.FinalErrorExactly` | scripts/llm_training_hooks.py:927-955 | in every invariant state the final checks pass exactly for clean, complete, uncapped ledgers; the chain check never fails |
| `CollectorSafety.FailureIsForever` | scripts/llm_training_hooks.py:420-434 | from any state with a recorded failure and no report, no sequence of calls removes the failure or creates a report |
| `CollectorSafety.RaisesAreRecorded` | scripts/llm_training_hooks.py:365-1004 | in every reachable state, for each of the six calls, the exact condition - readable before the call - under which it raises and no failure is on record |
| `CollectorSafety.FailureStaysRecorded` | scripts/llm_training_hooks.py:485-489 | no call removes a failure from the record |
| `SilentRaise.ReportAfterRaises` | scripts/llm_training_hooks.py:408-482 | whether or not the clock raises on entry, a run goes on with an overflowing hook, which changes nothing, and then a complete step, after which finalize publishes a report |
| `CollectorSafety.ClosedLedgerIsFrozen` | scripts/llm_training_hooks.py:365-369 | single use: once entered and closed, no later call changes the ledger, the step count or a report |
| `CollectorSafety.SameHeadSameReportLedger` | scripts/llm_training_hooks.py:992-999 | with an injective digest, two certified reports of one genesis have equal heads exactly when their event lists are equal |
| `CollectorSafety.FullCoverageSize` | scripts/llm_training_hooks.py:499-511 | hook events that cover each (phase, module) pair once number exactly twice the modules |
| `CollectorSafety.OpenStepIsFull` | scripts/llm_training_hooks.py:499-511 | when the coverage check passes, the events since the last seal are exactly one full step of hooks |
| `CollectorSafety.ApplyKeepsInv` | scripts/llm_training_hooks.py:365-1004 | every call keeps the invariant that ties counters, ledger blocks, chain, handles and failure flags together |
| `CollectorRecords.StepRecordsExactly` | scripts/llm_training_hooks.py:642-786 | a step is sealed exactly when its arguments are in order, every module was seen once in each phase and the ledger has room; the new event holds the loss, gradients, coverage, tokens, details and manifest of the arguments, and the run fails exactly when the loss or a gradient is not finite, there is no gradient, or a trainable parameter has none |
| `CollectorRecords.HookRecordsExactly` | scripts/llm_training_hooks.py:448-482 | a fired hook is recorded exactly when the collector is active below its limits and the reduction did not raise; the event holds phase, module and reading, only its cell is counted, and the run fails exactly when the value was empty or not finite |
| `CollectorRecords.EveryEventIsRecorded` | scripts/llm_training_hooks.py:448-786 | each event of any run was appended, with all it holds, by one of the run's calls, made when the ledger held the events before it |
| `CollectorRecords.FaultIsForever` | scripts/llm_training_hooks.py:448-786 | a call that records a faulty reading or a faulty step fails the run: whatever is called later, no report follows |
| `CollectorRecords.EnterActivatesExactly` | scripts/llm_training_hooks.py:365-418 | entering leaves the collector active, with two handles per module, exactly when nothing was refused and the clock did not read as non-finite |
| `CollectorRecords.CloseRemovesExactly` | scripts/llm_training_hooks.py:788-817 | closing leaves exactly the handles whose removal raises, counts the others as removed and these as failures |
| `TrainingHookCollector.AggregateTrainingHookCollector.constructor` | scripts/llm_training_hooks.py:315-338 | a new collector is in the initial state, with no calls behind it |
| `TrainingHookCollector.AggregateTrainingHookCollector.IsSafe` | scripts/llm_training_hooks.py:235-1004 | every object in use is bounded, chained, handle-conserving and, if reported, certified: its state is the one its own calls lead to |
| `TrainingHookCollector.AggregateTrainingHookCollector.Enter` | scripts/llm_training_hooks.py:365-418 | entering makes the specified transition: single use, unknown modules, capacity, registration with roll-back, a clock that raises or is not finite |
| `TrainingHookCollector.AggregateTrainingHookCollector.Exit` | scripts/llm_training_hooks.py:420-434 | leaving closes the collector and marks an aborted body |
| `TrainingHookCollector.AggregateTrainingHookCollector.Close` | scripts/llm_training_hooks.py:788-817 | the reversed removal loop keeps exactly the handles that fail, in their order, and counts the rest as removed |
| `TrainingHookCollector.AggregateTrainingHookCollector.RecordHookEvent` | scripts/llm_training_hooks.py:448-482 | a fired hook makes the specified transition, each refusal in its order |
| `TrainingHookCollector.AggregateTrainingHookCollector.AppendEvent` | scripts/llm_training_hooks.py:484-497 | appends one sealed event or marks the cap as exceeded |
| `TrainingHookCollector.AggregateTrainingHookCollector.ValidateCurrentStepCoverage` | scripts/llm_training_hooks.py:499-511 | counts every (module, phase) cell of the step that differs from one |
| `TrainingHookCollector.AggregateTrainingHookCollector.Step` | scripts/llm_training_hooks.py:642-786 | sealing a step makes the specified transition through argument, coverage, reading, cap and judgement |
| `TrainingHookCollector.AggregateTrainingHookCollector.VerifyFinalCoverage` | scripts/llm_training_hooks.py:846-891 | the totals per module, exactly when coverage is complete |
| `TrainingHookCollector.AggregateTrainingHookCollector.Finalize` | scripts/llm_training_hooks.py:893-1004 | finalizing makes the specified transition, with every refusal in the order of the code |
| `TrainingLedger.VerifyEventChain` | scripts/llm_training_hooks.py:824-844 | raises nothing exactly when every event carries its position, its predecessor's digest and its own digest, and the head is the last digest |
| `TrainingLedger.AppendKeepsChain` | scripts/llm_training_hooks.py:484-497 | appending a sealed event to a chained ledger keeps it chained and moves the head to the new digest |
| `TrainingLedger.OneHeadOneLedger` | scripts/llm_training_hooks.py:824-844 | tamper evidence: with an injective digest, two ledgers that verify against one genesis and one head, both empty or neither, have the same length and agree event by event, magnitudes included |
| `TrainingLedger.FreshGenesisOneLedger` | scripts/llm_training_hooks.py:322-323 | the same for ledgers of any lengths, when the genesis is not itself an event digest |
| `TensorWalk.IterTensors` | scripts/llm_training_hooks.py:128-154 | on every finite container graph, cycles included, each reachable container is expanded exactly once, nothing else is, and the yields are their direct tensors with multiplicity |
| `TensorWalk.Walk.Visit` | scripts/llm_training_hooks.py:128-154 | one visit terminates and expands exactly the newly seen containers, after which every child of an expanded container is seen |
| `TensorWalk.WalkIsUnique` | scripts/llm_training_hooks.py:138-154 | two walks of one graph yield the same tensors with the same multiplicity, whatever order the containers are visited in |
| `TensorWalk.YieldsAreReachableTensors` | scripts/llm_training_hooks.py:128-154 | a walk yields exactly the root, if it is a tensor, and the tensors directly inside the containers it reaches |
| `TensorWalk.Aggregate.AddTensor` | scripts/llm_training_hooks.py:166-200 | keeps every statistic that of all entries of all tensors taken in, and raises exactly when the sum of their squares leaves the finite range |
| `TensorWalk.Aggregate.AsDict` | scripts/llm_training_hooks.py:202-223 | returns the counts, the maximum, the sum of squares, the quotients and the roots of all entries taken in, as the bit patterns of their doubles, with the missing values where an entry is not finite or there is none |
| `TensorWalk.LargestIsMaximum` | scripts/llm_training_hooks.py:191-197 | the kept maximum bounds every finite magnitude and, unless zero, is one of them |
| `TensorStatistics.StatisticsExactly` | scripts/llm_training_hooks.py:166-200 | the counts number the entries that are not finite and those that are zero, and the sum of squares adds up the squares of the finite ones |
| `TensorStatistics.MagnitudesExactly` | scripts/llm_training_hooks.py:202-223 | for a true square root, the squared root mean square times the entries is the sum of squares, the squared norm is it too, the share times the entries is the finite ones, and each is absent exactly where the code returns None |
| `TensorWalk.AggregateTensorTree` | scripts/llm_training_hooks.py:226-232 | the statistics of all entries of a whole walk, or an overflow exactly when the sum of their squares leaves the finite range |
| `TensorWalk.ReadingIsUnique` | scripts/llm_training_hooks.py:226-232 | the reading of a value, overflow included, is determined by its container graph, whatever the visiting order |
| `FiniteChannel.RiskBoundsEveryRule` | scripts/run_finite_channel_ceiling_experiment.py:178-196 | no decision rule identifies the state with a greater probability than the computed risk |
| `FiniteChannel.RiskIsAttained` | scripts/run_finite_channel_ceiling_experiment.py:178-196 | some decision rule reaches the computed risk |
| `FiniteChannel.BoundsBracketRisk` | scripts/run_finite_channel_ceiling_experiment.py:499-521 | when the interval family covers the channel, floor <= risk <= ceiling, with the prior clamp and the cap at one |
| `FiniteChannel.FloorIsTight` | scripts/run_finite_channel_ceiling_experiment.py:511-521 | the floor is at least every prior and at least every rule's success on the lower endpoints, and is equal to one of these |
| `FiniteChannel.CeilingIsTight` | scripts/run_finite_channel_ceiling_experiment.py:511-521 | the ceiling is at most one; below one it is the success of the best rule on the upper endpoints, and at one some rule reaches it |
| `FiniteChannel.ExactFamilyDecidesExactly` | scripts/run_finite_channel_ceiling_experiment.py:1197-1215 | where the endpoints are the channel itself both bounds are the risk, and the decision is BLOCK exactly above the tolerance and CLEAR otherwise |
| `FiniteChannel.CoveredDecisionIsCorrect` | scripts/run_finite_channel_ceiling_experiment.py:1197-1215 | under coverage CLEAR is never given above the tolerance and BLOCK never at or below it; HOLD means that the tolerance lies in the bracket |
| `FiniteChannel.WrongDecisionsNeedMissedFamilies` | scripts/run_finite_channel_ceiling_experiment.py:1237-1240 | in any group false clears plus false blocks, and ceiling undercoverage, are at most the replicates whose family missed the channel |
| `FiniteChannel.GroupCountsExactly` | scripts/run_finite_channel_ceiling_experiment.py:1237-1240 | the four sums of a group are the numbers of replicates wrongly cleared, wrongly blocked, with a ceiling below the risk, and covering the channel |
| `FiniteChannel.GarbledIsValid` | scripts/run_finite_channel_ceiling_experiment.py:178-196 | a valid channel followed by a stochastic map is a valid channel |
| `FiniteChannel.GarblingNeverRaisesRisk` | scripts/run_finite_channel_ceiling_experiment.py:178-196 | data processing: post-composing any channel with any stochastic map never raises the exact risk |
| `FiniteChannel.DeterministicRisk` | scripts/build_openml_decision_witnesses.py:33-35 | for a deterministic channel under the uniform prior the exact risk is distinct observations over records |
| `NestedSampler.AcceptedIffSumsToOne` | scripts/run_finite_channel_ceiling_experiment.py:436-443 | the integer weights reach the common denominator exactly when the fractions sum to one |
| `NestedSampler.WeightIsExact` | scripts/run_finite_channel_ceiling_experiment.py:436-440 | each integer weight over the common denominator is the fraction itself |
| `NestedSampler.CommonDenominatorIsLeast` | scripts/run_finite_channel_ceiling_experiment.py:436-440 | the common denominator divides every number that all denominators of the row divide |
| `NestedSampler.DrawFindsObservation` | scripts/run_finite_channel_ceiling_experiment.py:451-454 | every draw below the total finds an observation, whatever the signs of the entries |
| `NestedSampler.OutcomeInterval` | scripts/run_finite_channel_ceiling_experiment.py:444-454 | without negative entries the observation found is the one whose half-open weight interval holds the draw |
| `NestedSampler.DrawsAreExactlyTheWeights` | scripts/run_finite_channel_ceiling_experiment.py:436-454 | every observation gets exactly its integer weight in draws if and only if no entry of the row is negative |
| `NestedSampler.NegativeRowIsAccepted` | scripts/run_finite_channel_ceiling_experiment.py:436-443 | the row (-1, 2), which the program itself never passes, passes the function's unit-sum test although its draws are not its weights |
| `NestedSampler.SampleRow` | scripts/run_finite_channel_ceiling_experiment.py:436-457 | refuses exactly rows that do not sum to one and, then, empty size lists; otherwise stores, per reachable size, counts that tally the first `size` draws and sum to the size |
| `NestedSampler.SampleNestedCounts` | scripts/run_finite_channel_ceiling_experiment.py:415-461 | the whole channel, row by row, with every registered size; sizes below one hold no row |
| `NestedSampler.CheckpointsDominate` | scripts/run_finite_channel_ceiling_experiment.py:449-457 | within one result a larger checkpoint dominates a smaller one cell by cell |
| `NestedSampler.AddedCheckpointsChangeNothing` | scripts/run_finite_channel_ceiling_experiment.py:424-457 | two results over different size lists and streams that only draw further agree on every common checkpoint |
| `HypergeometricBound.ExactLower` | scripts/analyze_openml_population_validation.py:25-32 | the bisection returns the one number that exceeds the marked records exactly when at most the fraction alpha of all samples hold x or more of them, for every universe and marked set, counted as sets of samples |
| `HypergeometricBound.ExactBoundIsUnique` | scripts/analyze_openml_population_validation.py:25-32 | no other number up to the population does that |
| `HypergeometricBound.LowerBoundCoverage` | scripts/analyze_openml_population_validation.py:55-57 | for every population, true count and alpha, the samples whose bound exceeds the truth number at most alpha times all samples |
| `HypergeometricBound.TailCountsSamples` | scripts/analyze_openml_population_validation.py:30-30 | the binomial sum used for the tail counts the samples with at least x marked records |
| `HypergeometricBound.SamplesWithMarkedCount` | scripts/analyze_openml_population_validation.py:30-30 | samples with exactly the given hits number C(K, hits) C(N - K, n - hits), counted as sets |
| `HypergeometricBound.TailMonotone` | scripts/analyze_openml_population_validation.py:28-31 | the tail never falls when more records are marked, which is what the bisection relies on |
| `HolmProcedure.HolmRejections` | scripts/analyze_openml_inference.py:35-43 | the loop returns the step-down decisions, and rejects i exactly when every index set holding i has a member at or below alpha over its size |
| `HolmProcedure.StepDownImpliesClosed` | scripts/analyze_openml_inference.py:35-43 | an index the step-down reaches is rejected by the closed Bonferroni test |
| `HolmProcedure.ClosedImpliesStepDown` | scripts/analyze_openml_inference.py:35-43 | a closed-test rejection passes every earlier step of the step-down |
| `HolmProcedure.FalseRejectionNeedsSmallPvalue` | scripts/analyze_openml_inference.py:35-43 | if the returned decisions reject any member of a true-null set of size m, some p-value in that set is at or below alpha / m |
| `HolmProcedure.SmallerPvalueRejectedToo` | scripts/analyze_openml_inference.py:35-43 | the returned decisions are monotone in the p-value, so ties get one outcome |
| `AttackThreshold.ThresholdAtFpr` | scripts/run_openml_membership.py:67-81 | on any scores with ties: the returned count is what the threshold flags, stays within the floored allowance, and no threshold within the allowance flags more; empty scores raise |
| `AttackThreshold.Unique` | scripts/run_openml_membership.py:69-69 | distinct values in ascending order, each with its number of occurrences |
| `AttackThreshold.BestDecisionsAgree` | scripts/run_openml_membership.py:67-81 | any two best thresholds flag the same calibration scores |
| `AttackThreshold.LargerAllowanceFlagsMore` | scripts/run_openml_membership.py:67-81 | a larger allowance flags a superset |
| `AttackThreshold.FlaggedExactlyWhenItFits` | scripts/run_openml_membership.py:73-78 | an item is flagged exactly when all scores at least as high fit the allowance |
| `MomentsAccountant.ReplayMoment` | scripts/analyze_openml_dp_sgd.py:24-37 | the folded terms, with those the full-sampling branch skips, are the whole binomial moment |
| `MomentsAccountant.SumIsDrift` | scripts/analyze_openml_dp_sgd.py:26-36 | the binomial moment sum equals the expectation taken one sampling step at a time |
| `MomentsAccountant.MomentBounds` | scripts/analyze_openml_dp_sgd.py:24-37 | the order-a moment lies between 1 and B^(a(a-1)), and reaches the upper end at full sampling |
| `MomentsAccountant.MomentMonotone` | scripts/analyze_openml_dp_sgd.py:24-37 | the moment never falls when the sampling rate or the noise base grows |
| `MomentsAccountant.ReplayLedger` | scripts/analyze_openml_dp_sgd.py:40-46 | a dictionary in which every order's epsilon, times the order minus one, is the steps times the logarithm of the binomial moment plus log(1/delta); the least of them, and the first listed order that reaches it |
| `MomentsAccountant.FullSamplingClosedForm` | scripts/analyze_openml_dp_sgd.py:24-46 | without subsampling every order's epsilon is steps times order over 2 sigma^2 plus log(1/delta) over order minus one, for any logarithm of products |
| `MomentsAccountant.EpsilonMonotone` | scripts/analyze_openml_dp_sgd.py:43-44 | an order's epsilon is nonnegative and never falls with more steps, a larger rate, less noise or a smaller delta |
| `MomentsAccountant.ReplayedEpsilonMonotone` | scripts/analyze_openml_dp_sgd.py:40-46 | nor does the replayed epsilon, the least over the orders, when no order is added |
| `MomentsAccountant.RocCeilingExact` | scripts/analyze_openml_dp_sgd.py:103-107 | a point is at or below the replayed ROC ceiling exactly when it obeys tpr <= 1 and both (epsilon, delta) constraints |
| `AccountantReview.ReviewRuns` | scripts/analyze_openml_dp_sgd.py:64-109 | the loop with its shared error lists reports exactly the runs with an early mismatch, each with all its mismatches, the ROC ceiling included, and raises exactly when a per-order claim is missing |
| `AccountantReview.CheckSide` | scripts/analyze_openml_dp_sgd.py:72-82 | the four checks of one ledger against its claims, in order, with the missing claim that raises |
| `AccountantReview.NoEarlyErrorsExactly` | scripts/analyze_openml_dp_sgd.py:66-97 | a run has no early mismatch exactly when its artifacts are intact, both ledgers replay to their claims and its confusion counts recount |
| `AccountantFindings.FindingsExactly` | scripts/analyze_openml_dp_sgd.py:66-97 | unless a claim is missing, a mismatch is among a run's early errors exactly when what it says is so: of the artifacts' states, the least epsilon and its first order by their defining equations, and the counted score rows |
| `AccountantReview.ReportEmptyExactly` | scripts/analyze_openml_dp_sgd.py:97-98 | nothing is reported exactly when everything checked early replays, in every run |
| `AccountantReview.EmptyReportIsSoundExactly` | scripts/analyze_openml_dp_sgd.py:97-109 | an empty report means that every run replays, ROC ceilings included, if and only if some run fails an early check or every claimed ceiling is within tolerance of the replayed one |
| `AccountantReview.WrongCeilingIsLost` | scripts/analyze_openml_dp_sgd.py:108-109 | a run that replays early stays out of the report with any claimed ceiling, however wrong |
| `AccountantReview.MisstatedCeilingIsNotReported` | scripts/analyze_openml_dp_sgd.py:99-109 | a concrete run, its raw scores registered and intact, with claimed ceiling 0.9 and replayed ceiling 0.41 that is not reported |
| `FarthestSelection.Farthest` | scripts/select_openml_subsets.py:41-63 | the loop returns the greedy selection, or the refusal, that the specification picks |
| `FarthestSelection.SelectFacts` | scripts/select_openml_subsets.py:41-63 | for distinct items and 1 <= count <= items: exactly count distinct members of the items, each chosen farthest from those before |
| `FarthestSelection.SelectionIsRanked` | scripts/select_openml_subsets.py:51-62 | on any items: the first pick has the least digest, the earliest among equals; each later one is, among the open places, farthest from its predecessors, of the greatest digest among the equally far, and the earliest among equals; and exactly when a selection exists |
| `FarthestSelection.RankedIsUnique` | scripts/select_openml_subsets.py:51-62 | no other picks of that number satisfy this |
| `FarthestSelection.BalancedHalvesAreRanked` | scripts/select_openml_subsets.py:66-72 | a balanced subset is the ranked selection among all two-class items followed by the ranked selection among all items of more classes, each in its own metric and digests |
| `FarthestSelection.SelectionsNest` | scripts/select_openml_subsets.py:53-62 | the selection for a count is a prefix of the selection for any larger count |
| `FarthestSelection.SelectionIsSeparated` | scripts/select_openml_subsets.py:53-62 | any two selected items are at least the covering radius apart |
| `FarthestSelection.FarthestIsTwoApproximation` | scripts/select_openml_subsets.py:41-63 | over any pseudometric the covering radius is at most twice that of any other count or fewer centres |
| `FarthestSelection.SelectSize` | scripts/select_openml_subsets.py:42-53 | succeeds exactly when there are items and not fewer than the count, and then selects max(count, 1) of them |
| `FarthestSelection.BalancedSizeExactly` | scripts/select_openml_subsets.py:66-72 | a balanced subset exists exactly when both halves can be filled, holds distinct items of the two kinds, and has the requested size exactly when that is two or more |
| `FarthestSelection.CountOfOneSelectsTwo` | scripts/select_openml_subsets.py:66-72 | a concrete pool from which a balanced subset of one holds two |
| `DecisionWitnesses.AttributeValue` | scripts/build_openml_decision_witnesses.py:38-42 | the value is the success of the best rule that guesses the label from the observation: no rule beats it and some rule reaches it |
| `DecisionWitnesses.CountCells` | scripts/build_openml_decision_witnesses.py:39-41 | one counter per occurring observation, holding exactly its labels with their counts |
| `DecisionWitnesses.IdentityGuessIsCellCount` | scripts/build_openml_decision_witnesses.py:33-35 | the cell count is the best guess of labels that name the record |
| `DecisionWitnesses.GarblingNeverHelps` | scripts/build_openml_decision_witnesses.py:278-303 | a surface that is a function of another guesses no attribute better |
| `DecisionWitnesses.StrictSeparationExactly` | scripts/build_openml_decision_witnesses.py:288-301 | a garbled surface has at most as many cells, and strictly fewer exactly when it hides a difference |
| `DecisionWitnesses.SubstitutionCheck` | scripts/analyze_openml_decision_witnesses.py:82-86 | the mapping of sets has only singletons exactly when one surface is a function of the other |
| `DecisionWitnesses.SubstitutionCandidate` | scripts/build_openml_decision_witnesses.py:278-303 | a candidate is produced exactly for a deterministic garbling; its gap is never negative, and positive exactly when the label hides a leaf difference |
| `DecisionWitnesses.MetricReversalMeansIncomparable` | scripts/analyze_openml_decision_witnesses.py:53-61 | when identity and attribute guessing rank two surfaces in opposite orders, neither is a function of the other |
| `DecisionWitnesses.AnchorReversalMeansIncomparable` | scripts/analyze_openml_decision_witnesses.py:63-73 | when two subpopulations rank two surfaces in opposite orders, neither is a function of the other |
| `SignatureHistograms.SignatureHistogram` | scripts/run_openml_structural.py:167-194 | the sorted histogram and every metric: extremes of cell sizes, and the means, residual entropy and singletons as averages over the records of their own cell |
| `SignatureHistograms.HistogramIsHistogram` | scripts/run_openml_structural.py:190-193 | every occurring signature once with its number of records, in ascending order |
| `SignatureHistograms.HistogramIsUnique` | scripts/run_openml_structural.py:190-193 | no other list does that |
| `SignatureHistograms.CellSumIsRecordSum` | scripts/run_openml_structural.py:174-189 | a sum over cells weighted by their counts is the sum over the records |
| `SignatureHistograms.SuccessIsMeanShare` | scripts/run_openml_structural.py:174-189 | the success is the mean over the records of one over the size of the record's own cell, and these add up to the number of cells |
| `SignatureHistograms.DisclosureIsNonNegative` | scripts/run_openml_structural.py:174-185 | for any logarithm that does not decrease, the disclosed bits are never negative |
| `ReleaseComposition.JointRefines` | scripts/run_openml_composition.py:101-102 | records share a joint row exactly when they share the row of every release |
| `ReleaseComposition.JointCellsExactly` | scripts/analyze_openml_composition.py:64-67 | the joint release has at least each release's cells, and as many exactly when that release determines all the others |
| `ReleaseComposition.JointCellsAtMostProduct` | scripts/run_openml_composition.py:101-102 | joint cells are at most the product of the component cells |
| `ReleaseComposition.SumBoundExactly` | scripts/run_openml_composition.py:143-149 | the asserted bound, tolerance included, holds exactly when joint cells minus one do not exceed the summed component cells minus one |
| `ReleaseComposition.CrossedJointCells` | scripts/run_openml_composition.py:101-102 | where every joint cell of the earlier releases meets every cell of the next, the joint cells are exactly the product of the component cells |
| `ReleaseComposition.CrossedReleasesBreakTheBound` | scripts/analyze_openml_composition.py:62-63 | over such releases the bound holds exactly when at most one of them has more than one cell |
| `ReleaseComposition.GridBreaksTheBound` | scripts/evaluate_framework_effectiveness.py:580-584 | for releases that alternate rows and columns of an m by m grid the bound holds exactly when m is one or there are more than m releases |
| `CompositionReplay.RunOne` | scripts/run_openml_composition.py:85-149 | the accumulating loops produce the manifest of the joint partition, or the refusal of an empty roster or release list |
| `CompositionManifest.ManifestIsExact` | scripts/run_openml_composition.py:85-149 | every field of the manifest in terms of the releases: successes and increments scaled by the records are numbers of cells, the naive sum is the cells beyond one of all releases, the amplification is the joint success less the best component's, and the flag is the comparison of the two sums |
| `CompositionManifest.ManifestHistograms` | scripts/run_openml_composition.py:85-149 | the manifest holds the histogram of the joint leaves and of each release's own leaves, and no other |
| `CompositionReplay.ValidateRun` | scripts/analyze_openml_composition.py:32-68 | the review returns its findings in order, or raises on an empty histogram or run |
| `CompositionReplay.PassesExactly` | scripts/analyze_openml_composition.py:32-68 | the review is empty exactly when the roster is distinct and of the stated size, every histogram is present and non-empty with distinct signatures, its counts summing to the records, its length the occupied count and its least count the minimum, and both numeric bounds hold |
| `CompositionReplay.FindingsExactly` | scripts/analyze_openml_composition.py:32-68 | each finding is listed exactly when its own condition fails, and the review raises exactly for an empty histogram or, else, for a run without releases |
| `CompositionReplay.AmplificationIsNonNegative` | scripts/run_openml_composition.py:145-147 | an honest joint release is never less identifying than its best component |
| `CompositionReplay.HonestReview` | scripts/analyze_openml_composition.py:32-68 | the review of a run as written finds nothing, except the sum bound exactly where the sum is exceeded |
| `CompositionReplay.HonestRunPassesExactly` | scripts/analyze_openml_composition.py:62-63 | below 10^12 records the review passes exactly when joint cells minus one do not exceed the summed component cells minus one |
| `CompositionReplay.CrossedRunPassesExactly` | scripts/analyze_openml_composition.py:62-63 | an honest run over fully crossed releases passes exactly when at most one of them separates records |
| `CompositionReplay.AcceptedJointSuccessExactly` | scripts/analyze_openml_composition.py:42-67 | an accepted run stays accepted with another joint success exactly while that, tolerance included, reaches the best reported component |
| `CompositionReplay.AcceptedRunMayContradictItself` | scripts/analyze_openml_composition.py:42-67 | any honest accepted run stays accepted with any greater joint success, which its own histogram contradicts |
| `CompositionReplay.DoubledSuccessIsAccepted` | scripts/analyze_openml_composition.py:42-67 | a concrete honest run with joint success 1 that is accepted with joint success 2 |
| `ModelSubsets.SubsetsAreTheSelections` | scripts/run_composition_scaling_suite.py:370-375 | exactly the nonempty order-preserving selections of the keys occur |
| `ModelSubsets.SubsetsDiffer` | scripts/run_composition_scaling_suite.py:370-375 | none occurs twice |
| `ModelSubsets.SubsetCount` | scripts/run_composition_scaling_suite.py:378-380 | n keys give 2^n - 1 subsets |
| `PortfolioGates.WorstGate` | scripts/run_composition_scaling_suite.py:755-762 | a known gate of greatest severity among the values; empty and unknown values raise |
| `PortfolioGates.WorstDependsOnSet` | scripts/run_composition_scaling_suite.py:755-762 | order and repetition of the contributions do not matter |
| `PortfolioGates.WorstOfConcatenation` | scripts/run_composition_scaling_suite.py:755-762 | pooling contributions joins their worst gates |
| `PortfolioGates.GateVector` | scripts/run_composition_scaling_suite.py:765-776 | refuses exactly unregistered subsets and unknown levels, and otherwise gives every axis the worst of its collected contributions |
| `PortfolioGates.CollectedSource` | scripts/run_composition_scaling_suite.py:765-776 | a gate is collected for an axis exactly when it is the floor, the disclosure gate of the level on its axis, or contributed by a model of the subset |
| `PortfolioGates.LargerPortfolioIsNoBetter` | scripts/run_composition_scaling_suite.py:765-776 | for any contribution tables a larger portfolio is at least as severe on every axis |
| `PortfolioGates.PooledPortfolioJoins` | scripts/run_composition_scaling_suite.py:765-776 | the vector of a pooled portfolio is the axis-wise join of the two vectors |
| `PortfolioGates.BlocksAbsorb` | scripts/run_composition_scaling_suite.py:1061-1072 | an axis within the most severe gates stays within them in every larger portfolio |
| `PortfolioGates.SuiteBlocksAbsorb` | scripts/run_composition_scaling_suite.py:158-171 | in the registered suite a blocked axis stays blocked |
| `PortfolioGates.SuiteTablesAreRegistered` | scripts/run_composition_scaling_suite.py:173-208 | the suite's contribution tables name only known axes and gates and cover every model |
| `ChildExport.ValidateChildRows` | scripts/run_composition_scaling_suite.py:843-885 | the row loop returns the canonical rows or the first refusal |
| `ChildExport.AcceptsExactlyComplete` | scripts/run_composition_scaling_suite.py:851-877 | rows are accepted exactly when all are valid and their cells are exactly the registered ones; the final completeness check never fails |
| `ExportRows.AcceptedExactly` | scripts/run_composition_scaling_suite.py:779-877 | rows are accepted exactly when each reports all registered metrics, finite and in range, for a nonempty selection of the models, a registered scale and seed; no two report on the same; and every combination has one |
| `ChildExport.AcceptedRowsMatchCells` | scripts/run_composition_scaling_suite.py:845-877 | every registered cell has one and only one accepted row |
| `ChildExport.PermutationGivesSameExport` | scripts/run_composition_scaling_suite.py:878-885 | acceptance and the accepted result are the same for every permutation of the rows |
| `ChildExport.RevalidationIsIdentity` | scripts/run_composition_scaling_suite.py:1109-1112 | validating a validated export returns it unchanged |
| `ChildExport.CanonicalIsSortedPermutation` | scripts/run_composition_scaling_suite.py:878-885 | the canonical rows are the given rows, sorted by size, suite indices, scale and seed |
| `ExportRows.ExportIsInSuiteOrder` | scripts/run_composition_scaling_suite.py:878-885 | the export lists the given rows by number of models, then by the models' suite indices from left to right, then by scale, then by the seed's place |
| `Sorting.SortedIsUnique` | scripts/run_composition_scaling_suite.py:878-885 | two sorted arrangements of the same elements are equal when the order separates them |
| `ChildExport.SortKeyIdentifiesCell` | scripts/run_composition_scaling_suite.py:878-885 | two valid rows with the same sort key are for the same cell |
| `ChildExport.RegisteredCellCount` | scripts/run_composition_scaling_suite.py:845-851 | the registered cells number (2^models - 1) times scales times seeds |
| `ChildExport.SuiteCellCounts` | scripts/run_composition_scaling_suite.py:41-54 | the registered suite has 105 language cells and 45 vision cells |
| `DisplayedTables.ScanTables` | scripts/build_advisory_displayed_tables.py:52-76 | the index-and-flag scan finds exactly the tables that position-by-position facts about the file pick |
| `DisplayedTables.TablesAreTheQualifyingRuns` | scripts/build_advisory_displayed_tables.py:64-74 | exactly the maximal runs of pipe lines outside fences whose second line is a separator, with line number, heading and trimmed block |
| `DisplayedTables.TableLinesBelow` | scripts/build_advisory_displayed_tables.py:72-73 | each reported line number points at the first line of its run |
| `TableShapes.FencesAreCounted` | scripts/build_advisory_displayed_tables.py:59-63 | a line lies in a fence exactly when the fence lines above it are odd in number |
| `TableShapes.HeadingIsNearest` | scripts/build_advisory_displayed_tables.py:64-65 | the heading of a table is the text of the nearest line above it that is a heading with a text outside fences, or the default where there is none |
| `TableShapes.SeparatorExactly` | scripts/build_advisory_displayed_tables.py:20-20 | a separator is, between white space, two bars or more with white space, an optional colon, three dashes or more, an optional colon and white space between each and the next |
| `DisplayedTables.TablesAreOrderedAndDisjoint` | scripts/build_advisory_displayed_tables.py:68-74 | blocks come in file order with at least one foreign line between them |
| `DigestText.CompileDigest` | scripts/build_advisory_displayed_tables.py:79-164 | refuses the first source whose bytes do not have the published digest, and otherwise returns the printed lines, joined and stripped, as one text |
| `DigestFigures.RefusedExactly` | scripts/build_advisory_displayed_tables.py:86-93 | a digest is compiled exactly when every report has its published digest; otherwise the first that differs is refused |
| `DigestFigures.IndexIsInText` | scripts/build_advisory_displayed_tables.py:128-131 | line by line of the text: the index row of each source splits at its bars into its family, its link, the number of its tables, the number of their lines beyond the first two, and its status, exactly when no field holds a bar |
| `DigestFigures.TotalsArePrinted` | scripts/build_advisory_displayed_tables.py:95-110 | the opening states the number of distinct families, of sources, of all tables, and of all their lines beyond the first two |
| `DigestFigures.SectionIsPrinted` | scripts/build_advisory_displayed_tables.py:143-153 | every source has its section with its family and name, its link, its digest and its status, or the notice that it has no table |
| `DigestFigures.TableIsPrinted` | scripts/build_advisory_displayed_tables.py:154-163 | every table is printed whole under its number in the whole digest, its heading, and the link to its line |
| `DigestFigures.NameIsLastComponent` | scripts/build_advisory_displayed_tables.py:145-145 | the printed name is the last component of the path that is neither empty nor a dot |
| `DigestFigures.ThreeDigitsReadBack` | scripts/build_advisory_displayed_tables.py:157-157 | a printed table number has three digits or more and reads back as itself |
| `DigestFigures.DecimalReadsBack` | scripts/build_advisory_displayed_tables.py:109-131 | a printed figure is a row of digits without leading zeros that reads back as itself |
| `DigestRoundTrip.PrintDigest` | scripts/build_advisory_displayed_tables.py:99-163 | the printing loops emit the specified lines with a running table number across documents |
| `DigestText.DigestReadsBackExactly` | scripts/build_advisory_displayed_tables.py:52-164 | scanning the text of the digest of any registered sources returns the index table and then exactly the source blocks in order, each under its running label, if and only if no family, path or status holds a line boundary |
| `DigestText.BrokenStatusIsNotReadBack` | scripts/build_advisory_displayed_tables.py:133-138 | a concrete report with a line break in its status whose digest is not read back |
| `DigestText.ScannedIsOneLine` | scripts/build_advisory_displayed_tables.py:52-76 | whatever is scanned from split lines is made of single lines |
| `DigestRoundTrip.DigestReadsBack` | scripts/build_advisory_displayed_tables.py:99-163 | the round trip on the printed lines, for the tables scanned from any sources |
| `TableFragments.FoundInConcatenation` | scripts/build_advisory_displayed_tables.py:52-76 | scanning a concatenation is scanning its parts in turn when no fence is open at the end of the first and no run crosses the seam |
| `TableFragments.TablesOfTrimmedEnd` | scripts/build_advisory_displayed_tables.py:164-164 | dropping trailing blank lines and stripping the last one neither loses nor changes a table |
| `TableFragments.FoundTablesArePrintable` | scripts/build_advisory_displayed_tables.py:62-74 | every scanned table is a trimmed block under a heading that ends in no white space |
| `TextLines.SplitOfText` | scripts/build_advisory_displayed_tables.py:164-164 | splitting the joined and stripped text gives the single lines back, up to the trimmed end |
| `TextLines.SplitOfJoin` | scripts/build_advisory_displayed_tables.py:164-164 | splitting what was joined with newlines gives every list of single lines back |
| `TableText.StripOfRStrip` | scripts/build_advisory_displayed_tables.py:70-70 | right-stripping a stored line does not change what the scanner reads in it |

## Left out

- Binary64 rounding, infinities and NaN: rates, epsilons, thresholds, distances and risks are reals; the accountant's log-domain fold is the sum it computes, and `nextafter` is any positive step above the largest score.
- `math.log`, `math.exp` and `np.log2`: a logarithm is any function that is monotone from log(1) = 0, and the exponential of epsilon any positive number.
- Simultaneous interval construction and Clopper-Pearson quantiles: interval families are arbitrary, and coverage is a hypothesis.
- Random generators: the sampler's draws are an arbitrary stream of numbers below the row total.
- The training collector's lock and defensive copies, its error texts, JSON canonicalisation, and the parameter counts of its report; `last_step_time` is reduced to the outcome of reading the duration.
- `AddTensor`: does not model the rounding of each square and sum, so that an overflow is the exact sum of squares passing the largest finite number, and a complex entry is given by its modulus.
- `AsDict`: takes the square root and the bit pattern of a double as arbitrary functions.
- The gradient loop and GPU memory queries of a step: their outcomes arrive as readings of the framework.
- Digests: SHA-256 is an arbitrary function; tamper evidence assumes that it is injective, and tie-breaks use any natural number per item.
- `np.argsort` in the Holm loop is any sorting permutation, and `hypergeom.sf` its exact binomial sum.
- `metadata_vector`: the selection works over any pseudometric on the items.
- `Balanced`: does not model the final sort by data set identifier, because it only rearranges the chosen items.
- `ReplayLedger`: does not model ledgers with an order below two, a rate outside (0, 1] or a delta outside (0, 1], on which the script's arithmetic raises or has no meaning.
- `ReviewRuns`: does not model hashing and reading artifacts, whose outcome is given per artifact, or the rows of the summary table.
- `RunOne`: does not keep the cell-size metrics beyond count, minimum and success in the manifest, because the review does not read them; the run starts from the common roster and each release's leaf matrix on it.
- Reading the artifacts that the composition review opens: a histogram is either missing from the manifest or present with its entries; file hashes are not modelled.
- `ValidateChildRows`: does not model the header and resource checks of a child export, because they compare fixed fields one by one; a row of the wrong shape is one value, and numbers that JSON can write in two ways are equal to their integer.
- `WorstPerAxis`, `CollectContributions`: the order in which a model's axes are visited is not modelled; each axis collects in model order.
- `PrintDigest`: does not model the wording of the fixed sentences; they are a parameter that may hold any single lines opening no fence, table row or heading.
- `DigestText.CompileDigest`: does not model reading and decoding the files, or selecting and sorting the registered documents; paths are POSIX paths.
- Candidate search over anchors and metrics, bootstrap intervals, Wilson intervals and rank correlations.
- `assert_safe_aggregate`, report assembly, Markdown output of the analyses, argument parsing, subprocesses and file handling.
- The scripts/rehearse_* drivers and the engine, portfolio and protocol packages.
