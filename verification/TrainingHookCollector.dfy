/** `AggregateTrainingHookCollector` of scripts/llm_training_hooks.py: a class whose methods
    update its fields, each proved to make exactly the transition of `CollectorSpec`. */
module TrainingHookCollector {
  import opened FiniteSets
  import opened Results
  import opened TrainingLedger
  import opened CollectorSpec
  import Safety = CollectorSafety

  function Reverse(s: seq<nat>): seq<nat> {
    if s == [] then [] else Reverse(s[1..]) + [s[0]]
  }

  lemma {:induction false} ReverseAppend(s: seq<nat>, x: nat)
    ensures Reverse(s + [x]) == [x] + Reverse(s)
  {
    if s != [] {
      assert (s + [x])[1..] == s[1..] + [x];
      ReverseAppend(s[1..], x);
    }
  }

  /** Removes handles last to first; those that raise come back in their original order. */
  method RemoveHandles(handles: seq<nat>, stuck: set<nat>) returns (failed: seq<nat>, removedCount: nat)
    ensures failed == Stuck(handles, stuck)
    ensures removedCount == |handles| - |failed|
  {
    var failedHandles: seq<nat> := [];
    removedCount := 0;
    var i := |handles|;
    while i > 0
      invariant 0 <= i <= |handles|
      invariant Reverse(failedHandles) == Stuck(handles[i..], stuck)
      invariant |Stuck(handles[i..], stuck)| + removedCount == |handles| - i
    {
      i := i - 1;
      assert handles[i..][1..] == handles[i + 1..];
      if handles[i] in stuck {
        ReverseAppend(failedHandles, handles[i]);
        failedHandles := failedHandles + [handles[i]];
      } else {
        removedCount := removedCount + 1;
      }
    }
    assert handles[0..] == handles;
    failed := ReverseOf(failedHandles);
  }

  method ReverseOf(s: seq<nat>) returns (r: seq<nat>)
    ensures r == Reverse(s)
  {
    r := [];
    for i := 0 to |s|
      invariant r == Reverse(s[..i])
    {
      assert s[..i + 1] == s[..i] + [s[i]];
      ReverseAppend(s[..i], s[i]);
      r := [s[i]] + r;
    }
    assert s[..|s|] == s;
  }

  ghost predicate AllFull(perModule: seq<ModuleCoverage>, steps: nat) {
    forall j :: 0 <= j < |perModule| ==> perModule[j].forward == steps && perModule[j].backward == steps
  }

  lemma AllFullAppend(perModule: seq<ModuleCoverage>, one: ModuleCoverage, steps: nat)
    ensures AllFull(perModule + [one], steps)
        <==> AllFull(perModule, steps) && one.forward == steps && one.backward == steps
  {
    var grown := perModule + [one];
    assert grown[|perModule|] == one;
    assert forall j :: 0 <= j < |perModule| ==> grown[j] == perModule[j];
  }

  class AggregateTrainingHookCollector {
    const config: Config
    const digest: EventBody -> Digest

    var events: seq<Event>
    var head: Digest
    var phaseCounts: map<Key, nat>
    var handles: seq<nat>
    var installedHandleCount: nat
    var removedHandleCount: nat
    var cleanupFailures: nat
    var coverageFailures: nat
    var steps: nat
    var active: bool
    var entered: bool
    var finalized: bool
    var aborted: bool
    var capExceeded: bool
    var nonfiniteObservations: nat
    var report: Option<Report>

    /** Every call made so far. */
    ghost var calls: seq<Call>

    /** The abstract state. */
    ghost function View(): State
      reads this
    {
      State(events, head, phaseCounts, handles, installedHandleCount, removedHandleCount, cleanupFailures,
            coverageFailures, steps, active, entered, finalized, aborted, capExceeded, nonfiniteObservations, report)
    }

    /** The object's state is the one that the machine of `CollectorSpec` reaches by its calls, so
        whatever is proved of every run holds of the object. */
    ghost predicate Valid()
      reads this
    {
      && ValidConfig(config)
      && (forall i :: 0 <= i < |calls| ==> Callable(config, calls[i]))
      && View() == Run(config, digest, Initial(config), calls)
    }

    constructor (config: Config, digest: EventBody -> Digest)
      requires ValidConfig(config)
      ensures this.config == config && this.digest == digest
      ensures View() == Initial(config) && calls == [] && Valid()
    {
      this.config := config;
      this.digest := digest;
      events, head, phaseCounts := [], config.genesis, map[];
      handles, installedHandleCount, removedHandleCount := [], 0, 0;
      cleanupFailures, coverageFailures, steps := 0, 0, 0;
      active, entered, finalized, aborted, capExceeded := false, false, false, false, false;
      nonfiniteObservations, report, calls := 0, None, [];
    }

    /** What every object in use satisfies: the ledger is bounded and chained, no handle is lost, and
        a report is certified and about the ledger as it stands. */
    lemma IsSafe()
      requires Valid()
      ensures |events| <= config.eventCap && installedHandleCount == removedHandleCount + |handles|
      ensures WellChained(digest, config.genesis, events) && head == HeadOf(config.genesis, events)
      ensures !capExceeded ==> Safety.Blocks(config, events, steps) && Safety.OpenStep(config, View())
      ensures report.Some? ==> Safety.Certified(config, digest, report.value) && report.value.events == events
    {
      hide Run, WellChained, Safety.Blocks, Safety.OpenStep, Safety.Certified;
      Safety.EveryRunIsSafe(config, digest, calls);
    }

    method Close(stuck: set<nat>) returns (raised: bool)
      requires Valid()
      modifies this
      ensures (View(), raised) == CollectorSpec.Close(old(View()), stuck)
      ensures Valid() && calls == old(calls) + [CallClose(stuck)]
    {
      hide Run, CollectorSpec.Close, ValidConfig;
      Safety.RunAppend(config, digest, Initial(config), calls, CallClose(stuck));
      calls := calls + [CallClose(stuck)];
      raised := RemoveHooks(stuck);
    }

    /** The body of `close`, also used on entry, exit and finalization. */
    method RemoveHooks(stuck: set<nat>) returns (raised: bool)
      modifies this
      ensures (View(), raised) == CollectorSpec.Close(old(View()), stuck) && calls == old(calls)
    {
      if handles == [] {
        active := false;
        return cleanupFailures > 0;
      }
      var failed, removedCount := RemoveHandles(handles, stuck);
      handles := failed;
      removedHandleCount := removedHandleCount + removedCount;
      active := false;
      cleanupFailures := cleanupFailures + |failed|;
      raised := failed != [];
    }

    /** Registers a forward and a backward hook per module until a registration raises. */
    method InstallHooks(failsAt: Option<nat>) returns (installed: seq<nat>, raised: bool)
      ensures raised <==> failsAt.Some? && failsAt.value < 2 * |config.modules|
      ensures installed == Range(if raised then failsAt.value else 2 * |config.modules|)
    {
      installed := [];
      for i := 0 to |config.modules|
        invariant installed == Range(2 * i)
        invariant failsAt.Some? ==> failsAt.value >= 2 * i
      {
        if failsAt == Some(2 * i) {
          return installed, true;
        }
        installed := installed + [2 * i];
        if failsAt == Some(2 * i + 1) {
          return installed, true;
        }
        installed := installed + [2 * i + 1];
      }
      raised := false;
    }

    method Enter(entry: Entry) returns (reply: Reply)
      requires Valid()
      modifies this
      ensures (View(), reply) == CollectorSpec.Enter(config, old(View()), entry)
      ensures Valid() && calls == old(calls) + [CallEnter(entry)]
    {
      hide Run, ValidConfig, CollectorSpec.Enter;
      Safety.RunAppend(config, digest, Initial(config), calls, CallEnter(entry));
      calls := calls + [CallEnter(entry)];
      reply := EnterContext(entry);
    }

    /** The body of `__enter__`. */
    method EnterContext(entry: Entry) returns (reply: Reply)
      modifies this
      ensures (View(), reply) == CollectorSpec.Enter(config, old(View()), entry)
      ensures calls == old(calls)
    {
      if entered || finalized {
        return Raised(StateError);
      }
      entered := true;
      if entry.known.None? {
        return Raised(FrameworkError);
      }
      if exists i :: 0 <= i < |config.modules| && config.modules[i] !in entry.known.value {
        return Raised(ConfigurationError);
      }
      if config.expectedSteps.Some? && config.expectedSteps.value * (2 * |config.modules| + 1) > config.eventCap {
        capExceeded := true;
        return Raised(CapError);
      }
      reply := Register(entry);
    }

    /** Registers the hooks, rolling back if a registration raises, and starts the clock. */
    method Register(entry: Entry) returns (reply: Reply)
      modifies this
      ensures calls == old(calls)
      ensures
        var t, wanted := old(View()), 2 * |config.modules|;
        (View(), reply) == Registered(t, wanted, entry)
    {
      hide Stuck, CollectorSpec.Close;
      var installed, registrationRaised := InstallHooks(entry.registrationFailsAt);
      if registrationRaised {
        var left, undone := RemoveHandles(installed, entry.stuck);
        if left != [] {
          cleanupFailures := cleanupFailures + |left|;
          return Raised(CleanupError);
        }
        return Raised(FrameworkError);
      }
      handles := installed;
      installedHandleCount := |installed|;
      active := true;
      assert View() == Activate(old(View()), 2 * |config.modules|);
      if entry.clock.ClockRaises? {
        return Raised(FrameworkError);
      }
      if entry.clock.NonFiniteClock? {
        var raised := RemoveHooks(entry.stuck);
        return Raised(if raised then CleanupError else ConfigurationError);
      }
      return Done;
    }

    method Exit(failed: bool, stuck: set<nat>) returns (reply: Reply)
      requires Valid()
      modifies this
      ensures (View(), reply) == CollectorSpec.Exit(old(View()), failed, stuck)
      ensures Valid() && calls == old(calls) + [CallExit(failed, stuck)]
    {
      hide Run, ValidConfig, CollectorSpec.Exit;
      Safety.RunAppend(config, digest, Initial(config), calls, CallExit(failed, stuck));
      calls := calls + [CallExit(failed, stuck)];
      reply := LeaveContext(failed, stuck);
    }

    /** The body of `__exit__`. */
    method LeaveContext(failed: bool, stuck: set<nat>) returns (reply: Reply)
      modifies this
      ensures (View(), reply) == CollectorSpec.Exit(old(View()), failed, stuck)
      ensures calls == old(calls)
    {
      var raised := RemoveHooks(stuck);
      if failed {
        aborted := true;
        return Done;
      }
      return if raised then Raised(CleanupError) else Done;
    }

    method AppendEvent(payload: Payload) returns (refused: bool)
      modifies this
      ensures calls == old(calls)
      ensures (View(), refused) == Append(config, digest, old(View()), payload)
    {
      if |events| >= config.eventCap {
        capExceeded := true;
        return true;
      }
      var body := EventBody(|events|, head, payload);
      var event := Event(body, digest(body));
      events := events + [event];
      head := event.digest;
      return false;
    }

    method RecordHookEvent(phase: Phase, moduleIndex: nat, reading: Reading) returns (reply: Reply)
      requires moduleIndex < |config.modules|
      requires Valid()
      modifies this
      ensures (View(), reply) == Hook(config, digest, old(View()), phase, moduleIndex, reading)
      ensures Valid() && calls == old(calls) + [CallHook(phase, moduleIndex, reading)]
    {
      hide Run, ValidConfig, CollectorSpec.Hook;
      Safety.RunAppend(config, digest, Initial(config), calls, CallHook(phase, moduleIndex, reading));
      calls := calls + [CallHook(phase, moduleIndex, reading)];
      reply := RecordReading(phase, moduleIndex, reading);
    }

    /** The body of `_record_hook_event`. */
    method RecordReading(phase: Phase, moduleIndex: nat, reading: Reading) returns (reply: Reply)
      requires moduleIndex < |config.modules|
      modifies this
      ensures (View(), reply) == Hook(config, digest, old(View()), phase, moduleIndex, reading)
      ensures calls == old(calls)
    {
      hide JudgeHook;
      if !active {
        return Raised(StateError);
      }
      if config.expectedSteps.Some? && steps >= config.expectedSteps.value {
        coverageFailures := coverageFailures + 1;
        return Raised(CoverageError);
      }
      if reading.Unread? {
        return Raised(reading.error);
      }
      var stats := reading.stats;
      var key := Key(steps, phase, config.modules[moduleIndex]);
      phaseCounts := phaseCounts[key := Count(phaseCounts, key) + 1];
      var refused := AppendEvent(HookEvent(phase, steps, config.modules[moduleIndex], stats));
      if refused {
        return Raised(CapError);
      }
      reply := JudgeHookStats(stats);
    }

    method JudgeHookStats(stats: Stats) returns (reply: Reply)
      modifies this
      ensures calls == old(calls)
      ensures (View(), reply) == JudgeHook(old(View()), stats)
    {
      if stats.elements == 0 {
        coverageFailures := coverageFailures + 1;
        return Raised(CoverageError);
      }
      if stats.nonfinite > 0 {
        nonfiniteObservations := nonfiniteObservations + stats.nonfinite;
        return Raised(NonFiniteError);
      }
      return Done;
    }

    method ValidateCurrentStepCoverage() returns (raised: bool)
      modifies this
      ensures calls == old(calls)
      ensures var problems := CoverageProblems(config, old(View()), |config.modules|);
        View() == old(View()).(coverageFailures := old(coverageFailures) + problems) && raised == (problems > 0)
    {
      var problems := 0;
      for i := 0 to |config.modules|
        invariant View() == old(View()) && calls == old(calls)
        invariant problems == CoverageProblems(config, old(View()), i)
      {
        if Count(phaseCounts, Key(steps, Forward, config.modules[i])) != 1 {
          problems := problems + 1;
        }
        if Count(phaseCounts, Key(steps, Backward, config.modules[i])) != 1 {
          problems := problems + 1;
        }
      }
      coverageFailures := coverageFailures + problems;
      raised := problems > 0;
    }

    /** The argument checks that open `step`. */
    method CheckStepArguments(args: StepArgs) returns (error: Option<HookError>)
      ensures error == StepArgumentError(View(), args)
    {
      if !active {
        return Some(StateError);
      }
      if !args.sameModel {
        return Some(ConfigurationError);
      }
      if args.step.Some? {
        if args.step.value < 0 {
          return Some(ConfigurationError);
        }
        if args.step.value != steps {
          return Some(CoverageError);
        }
      }
      if NegativeOption(args.epoch) || NegativeOption(args.batchIndex) {
        return Some(ConfigurationError);
      }
      if args.tokens.Some? && args.inputTokens.Some? && args.tokens.value != args.inputTokens.value {
        return Some(ConfigurationError);
      }
      var tokens := args.tokens;
      if tokens.None? {
        tokens := args.inputTokens;
      }
      if tokens.None? || tokens.value < 1 {
        return Some(ConfigurationError);
      }
      if NegativeOption(args.targetTokens) || NegativeOption(args.truncatedRecords) || !IsManifest(args.manifest) {
        return Some(ConfigurationError);
      }
      return if args.learningRate.Err? then Some(args.learningRate.error) else None;
    }

    method Step(args: StepArgs) returns (reply: Reply)
      requires Valid()
      modifies this
      ensures (View(), reply) == CollectorSpec.Step(config, digest, old(View()), args)
      ensures Valid() && calls == old(calls) + [CallStep(args)]
    {
      hide Run, ValidConfig, CollectorSpec.Step;
      Safety.RunAppend(config, digest, Initial(config), calls, CallStep(args));
      calls := calls + [CallStep(args)];
      reply := SealOpenStep(args);
    }

    /** The body of `step`. */
    method SealOpenStep(args: StepArgs) returns (reply: Reply)
      modifies this
      ensures (View(), reply) == CollectorSpec.Step(config, digest, old(View()), args)
      ensures calls == old(calls)
    {
      hide CoverageProblems, StepArgumentError, CollectorSpec.ReadAndSeal;
      var argumentError := CheckStepArguments(args);
      if argumentError.Some? {
        return Raised(argumentError.value);
      }
      if config.expectedSteps.Some? && steps >= config.expectedSteps.value {
        coverageFailures := coverageFailures + 1;
        return Raised(CoverageError);
      }
      var uncovered := ValidateCurrentStepCoverage();
      if uncovered {
        return Raised(CoverageError);
      }
      reply := ReadAndSeal(args);
    }

    /** The rest of `step` once arguments and coverage passed. */
    method ReadAndSeal(args: StepArgs) returns (reply: Reply)
      requires StepArgumentError(View(), args).None?
      modifies this
      ensures calls == old(calls)
      ensures (View(), reply) == CollectorSpec.ReadAndSeal(config, digest, old(View()), args)
    {
      hide JudgeStep, StepArgumentError, StepReadingError, StepPayload, Append;
      var readingError := StepReadingError(args);
      if readingError.Some? {
        return Raised(readingError.value);
      }
      var payload := BuildStepPayload(args);
      reply := SealStep(payload);
    }

    method BuildStepPayload(args: StepArgs) returns (payload: Payload)
      requires StepArgumentError(View(), args).None? && StepReadingError(args).None?
      ensures payload == StepPayload(View(), args) && payload.StepEvent?
    {
      var tokens := ResolvedTokens(args).value;
      payload := StepEvent(steps, args.loss.value, args.gradients.stats, args.gradientCoverage, tokens,
        [Some(args.timing.value), args.targetTokens, args.epoch, args.batchIndex, args.learningRate.value,
         args.truncatedRecords]
        + args.gpuMemory.value, args.manifest);
    }

    /** Appends the step event, counts the step, and judges what it saw. */
    method SealStep(payload: Payload) returns (reply: Reply)
      requires payload.StepEvent?
      modifies this
      ensures calls == old(calls)
      ensures
        var (t, refused) := Append(config, digest, old(View()), payload);
        if refused then (View(), reply) == (t, Raised(CapError))
        else (View(), reply) == JudgeStep(t.(steps := t.steps + 1), payload)
    {
      hide JudgeStep;
      var refused := AppendEvent(payload);
      if refused {
        return Raised(CapError);
      }
      steps := steps + 1;
      reply := JudgeStepEvent(payload);
    }

    method JudgeStepEvent(payload: Payload) returns (reply: Reply)
      requires payload.StepEvent? && events != []
      modifies this
      ensures calls == old(calls)
      ensures (View(), reply) == JudgeStep(old(View()), payload)
    {
      if payload.loss.None? {
        nonfiniteObservations := nonfiniteObservations + 1;
        return Raised(NonFiniteError);
      }
      if payload.gradients.elements == 0 {
        coverageFailures := coverageFailures + 1;
        return Raised(CoverageError);
      }
      if !IsCompleteGradient(payload.coverage) {
        coverageFailures := coverageFailures + 1;
        return Raised(CoverageError);
      }
      if payload.gradients.nonfinite > 0 {
        nonfiniteObservations := nonfiniteObservations + payload.gradients.nonfinite;
        return Raised(NonFiniteError);
      }
      return Appended(events[|events| - 1]);
    }

    method SumPhase(phase: Phase, name: string, expectedSteps: nat) returns (total: nat)
      ensures total == PhaseTotal(phaseCounts, phase, name, expectedSteps)
    {
      total := 0;
      for step := 0 to expectedSteps
        invariant total == PhaseTotal(phaseCounts, phase, name, step)
      {
        total := total + Count(phaseCounts, Key(step, phase, name));
      }
    }

    /** `_verify_final_coverage`: the per-module totals, or None where it raises. */
    method VerifyFinalCoverage(expectedSteps: nat) returns (coverage: Option<seq<ModuleCoverage>>)
      ensures coverage.Some? <==> CoverageComplete(config, View(), expectedSteps)
      ensures coverage.Some? ==> coverage.value == Coverage(config, View(), expectedSteps)
    {
      var perModule: seq<ModuleCoverage> := [];
      var failures := coverageFailures;
      for i := 0 to |config.modules|
        invariant |perModule| == i
        invariant forall j :: 0 <= j < i ==> perModule[j] == Coverage(config, View(), expectedSteps)[j]
        invariant failures >= coverageFailures
        invariant failures == coverageFailures <==> AllFull(perModule, expectedSteps)
      {
        var forward := SumPhase(Forward, config.modules[i], expectedSteps);
        var backward := SumPhase(Backward, config.modules[i], expectedSteps);
        AllFullAppend(perModule, ModuleCoverage(config.modules[i], forward, backward), expectedSteps);
        perModule := perModule + [ModuleCoverage(config.modules[i], forward, backward)];
        if forward != expectedSteps {
          failures := failures + 1;
        }
        if backward != expectedSteps {
          failures := failures + 1;
        }
      }
      assert perModule == Coverage(config, View(), expectedSteps);
      hide Coverage;
      if |events| != expectedSteps * (2 * |config.modules| + 1) {
        failures := failures + 1;
      }
      coverage := if failures > 0 then None else Some(perModule);
    }

    /** The checks of `finalize` once the handles are gone; the coverage when all pass. */
    method FinalChecks(expectedSteps: nat) returns (outcome: Result<seq<ModuleCoverage>, HookError>)
      ensures outcome == match FinalError(config, digest, View(), expectedSteps)
        case Some(error) => Err(error)
        case None => Ok(Coverage(config, View(), expectedSteps))
    {
      if !(handles == [] && removedHandleCount == installedHandleCount && cleanupFailures == 0) {
        return Err(CleanupError);
      }
      if expectedSteps * (2 * |config.modules| + 1) > config.eventCap {
        return Err(CapError);
      }
      if capExceeded || |events| > config.eventCap {
        return Err(CapError);
      }
      if nonfiniteObservations > 0 {
        return Err(NonFiniteError);
      }
      if aborted {
        return Err(CoverageError);
      }
      var check := VerifyEventChain(digest, config.genesis, events, head);
      if !check.Intact? {
        return Err(IntegrityError);
      }
      if expectedSteps < 1 || steps != expectedSteps {
        return Err(CoverageError);
      }
      var coverage := VerifyFinalCoverage(expectedSteps);
      return if coverage.None? then Err(CoverageError) else Ok(coverage.value);
    }

    method Finalize(expectedSteps: Option<int>, stuck: set<nat>, counted: bool) returns (reply: Reply)
      requires Valid()
      modifies this
      ensures (View(), reply) == CollectorSpec.Finalize(config, digest, old(View()), expectedSteps, stuck, counted)
      ensures Valid() && calls == old(calls) + [CallFinalize(expectedSteps, stuck, counted)]
    {
      hide Run, ValidConfig, CollectorSpec.Finalize;
      Safety.RunAppend(config, digest, Initial(config), calls, CallFinalize(expectedSteps, stuck, counted));
      calls := calls + [CallFinalize(expectedSteps, stuck, counted)];
      reply := PublishReport(expectedSteps, stuck, counted);
    }

    /** The body of `finalize`. */
    method PublishReport(expectedSteps: Option<int>, stuck: set<nat>, counted: bool) returns (reply: Reply)
      modifies this
      ensures (View(), reply) == CollectorSpec.Finalize(config, digest, old(View()), expectedSteps, stuck, counted)
      ensures calls == old(calls)
    {
      hide FinalError, Coverage;
      if expectedSteps.Some? && expectedSteps.value < 1 {
        return Raised(ConfigurationError);
      }
      if report.Some? {
        if expectedSteps.Some? && expectedSteps.value != report.value.expectedSteps {
          return Raised(ConfigurationError);
        }
        return Reported(report.value);
      }
      if !entered {
        return Raised(StateError);
      }
      var expected: nat;
      if expectedSteps.Some? {
        if config.expectedSteps.Some? && expectedSteps.value != config.expectedSteps.value {
          return Raised(ConfigurationError);
        }
        expected := expectedSteps.value;
      } else if config.expectedSteps.Some? {
        expected := config.expectedSteps.value;
      } else {
        expected := steps;
      }
      var raised := RemoveHooks(stuck);
      if raised {
        return Raised(CleanupError);
      }
      var outcome := FinalChecks(expected);
      if outcome.Err? {
        return Raised(outcome.error);
      }
      if !counted {
        return Raised(FrameworkError);
      }
      var published := Report(config.modules, expected, steps, outcome.value, config.eventCap, config.genesis, head,
                              events);
      report := Some(published);
      finalized := true;
      return Reported(published);
    }
  }
}
