/** The training-hook collector of scripts/llm_training_hooks.py as a state machine: one
    pure transition per public entry point, with exceptions as replies.  What the machine
    guarantees over whole runs is proved in `CollectorSafety`; the class that implements
    it by updating fields is in `TrainingHookCollector`. */
module CollectorSpec {
  import opened FiniteSets
  import opened Results
  import opened TrainingLedger

  datatype HookError =
    | StateError | ConfigurationError | CoverageError | NonFiniteError
    | CapError | CleanupError | IntegrityError | FrameworkError

  datatype Config = Config(modules: seq<string>, expectedSteps: Option<nat>, eventCap: nat, genesis: Digest)

  /** What a constructed collector has been checked for. */
  predicate ValidConfig(c: Config) {
    && c.modules != [] && (forall i :: 0 <= i < |c.modules| ==> c.modules[i] != "") && Distinct(c.modules)
    && (c.expectedSteps.Some? ==> c.expectedSteps.value >= 1)
    && c.eventCap >= 1
  }

  datatype Key = Key(step: nat, phase: Phase, moduleName: string)

  /** Totals of one module in the final coverage. */
  datatype ModuleCoverage = ModuleCoverage(moduleName: string, forward: nat, backward: nat)

  datatype Report = Report(
    modules: seq<string>, expectedSteps: nat, observedSteps: nat,
    perModule: seq<ModuleCoverage>, eventCap: nat, genesis: Digest, head: Digest, events: seq<Event>)

  datatype State = State(
    events: seq<Event>, head: Digest, phaseCounts: map<Key, nat>,
    handles: seq<nat>, installed: nat, removed: nat, cleanupFailures: nat, coverageFailures: nat,
    steps: nat, active: bool, entered: bool, finalized: bool, aborted: bool, capExceeded: bool,
    nonfinite: nat, report: Option<Report>)

  function Initial(c: Config): State {
    State([], c.genesis, map[], [], 0, 0, 0, 0, 0, false, false, false, false, false, 0, None)
  }

  datatype Reply = Done | Appended(event: Event) | Reported(report: Report) | Raised(error: HookError)

  // ---- Inputs from outside the collector -------------------------------------------

  datatype Clock = FiniteClock | NonFiniteClock | ClockRaises

  /** What happens outside on entry: the module names the model lists, unless listing them raises,
      the registration that raises (if any), the handles whose `remove` raises, and the clock. */
  datatype Entry = Entry(known: Option<set<string>>, registrationFailsAt: Option<nat>, stuck: set<nat>, clock: Clock)

  /** The aggregate of a hooked value, unless its reduction raised: on an overflow, or for a reason of
      the framework's own. */
  datatype Reading = Unread(error: HookError) | Read(stats: Stats)

  /** Arguments of `step` after Python's type checks. */
  datatype StepArgs = StepArgs(
    sameModel: bool, step: Option<int>, epoch: Option<int>, batchIndex: Option<int>,
    tokens: Option<int>, inputTokens: Option<int>, targetTokens: Option<int>, truncatedRecords: Option<int>,
    manifest: Option<string>, learningRate: Result<Option<int>, HookError>,
    loss: Result<Option<int>, HookError>, gradients: Reading, gradientCoverage: GradientCoverage,
    timing: Result<int, HookError>, gpuMemory: Result<seq<Option<int>>, HookError>)

  datatype Call =
    | CallEnter(entry: Entry)
    | CallHook(phase: Phase, moduleIndex: nat, reading: Reading)
    | CallStep(args: StepArgs)
    | CallClose(stuck: set<nat>)
    | CallExit(failed: bool, stuck: set<nat>)
    | CallFinalize(expectedSteps: Option<int>, stuck: set<nat>, counted: bool)

  // ---- Transitions -----------------------------------------------------------------

  /** Events a run of `steps` steps over `modules` modules needs: 2 per module and one seal. */
  function RequiredEvents(modules: nat, steps: nat): nat {
    steps * (2 * modules + 1)
  }

  function Stuck(handles: seq<nat>, stuck: set<nat>): (left: seq<nat>)
    ensures |left| <= |handles|
  {
    if handles == [] then []
    else (if handles[0] in stuck then [handles[0]] else []) + Stuck(handles[1..], stuck)
  }

  function Range(n: nat): seq<nat> {
    seq(n, i => i)
  }

  predicate HandlesRemoved(s: State) {
    s.handles == [] && s.removed == s.installed && s.cleanupFailures == 0
  }

  /** `close`: true when it raises. */
  function Close(s: State, stuck: set<nat>): (State, bool) {
    if s.handles == [] then (s.(active := false), s.cleanupFailures > 0)
    else
      var left := Stuck(s.handles, stuck);
      (s.(handles := left, removed := s.removed + (|s.handles| - |left|), active := false,
          cleanupFailures := s.cleanupFailures + |left|), left != [])
  }

  /** The state once every hook is registered. */
  function Activate(s: State, wanted: nat): State {
    s.(handles := Range(wanted), installed := wanted, active := true)
  }

  /** `__enter__`. */
  function Enter(c: Config, s: State, entry: Entry): (State, Reply) {
    if s.entered || s.finalized then (s, Raised(StateError))
    else
      var t := s.(entered := true);
      var wanted := 2 * |c.modules|;
      if entry.known.None? then (t, Raised(FrameworkError))
      else if exists i :: 0 <= i < |c.modules| && c.modules[i] !in entry.known.value then
        (t, Raised(ConfigurationError))
      else if c.expectedSteps.Some? && RequiredEvents(|c.modules|, c.expectedSteps.value) > c.eventCap then
        (t.(capExceeded := true), Raised(CapError))
      else Registered(t, wanted, entry)
  }

  /** Registration of `wanted` hooks, with its roll-back, and the first clock reading. */
  function Registered(t: State, wanted: nat, entry: Entry): (State, Reply) {
    if entry.registrationFailsAt.Some? && entry.registrationFailsAt.value < wanted then
      var left := |Stuck(Range(entry.registrationFailsAt.value), entry.stuck)|;
      if left > 0 then (t.(cleanupFailures := t.cleanupFailures + left), Raised(CleanupError))
      else (t, Raised(FrameworkError))
    else
      var u := Activate(t, wanted);
      if entry.clock.FiniteClock? then (u, Done)
      else if entry.clock.ClockRaises? then (u, Raised(FrameworkError))
      else
        var (v, raised) := Close(u, entry.stuck);
        (v, Raised(if raised then CleanupError else ConfigurationError))
  }

  /** `_append_event`: true when the cap refuses the event. */
  function Append(c: Config, digest: EventBody -> Digest, s: State, payload: Payload): (State, bool) {
    if |s.events| >= c.eventCap then (s.(capExceeded := true), true)
    else
      var event := Sealed(digest, s.head, |s.events|, payload);
      (s.(events := s.events + [event], head := event.digest), false)
  }

  function Count(counts: map<Key, nat>, key: Key): nat {
    if key in counts then counts[key] else 0
  }

  /** `_record_hook_event`, fired for an allowlisted module. */
  function Hook(c: Config, digest: EventBody -> Digest, s: State, phase: Phase, moduleIndex: nat,
                reading: Reading): (State, Reply)
    requires moduleIndex < |c.modules|
  {
    if !s.active then (s, Raised(StateError))
    else if c.expectedSteps.Some? && s.steps >= c.expectedSteps.value then
      (s.(coverageFailures := s.coverageFailures + 1), Raised(CoverageError))
    else if reading.Unread? then (s, Raised(reading.error))
    else
      var name := c.modules[moduleIndex];
      var key := Key(s.steps, phase, name);
      var counted := s.(phaseCounts := s.phaseCounts[key := Count(s.phaseCounts, key) + 1]);
      var (t, full) := Append(c, digest, counted, HookEvent(phase, s.steps, name, reading.stats));
      if full then (t, Raised(CapError)) else JudgeHook(t, reading.stats)
  }

  /** What a hook does once its event is in the ledger. */
  function JudgeHook(t: State, stats: Stats): (State, Reply) {
    if stats.elements == 0 then
      (t.(coverageFailures := t.coverageFailures + 1), Raised(CoverageError))
    else if stats.nonfinite > 0 then
      (t.(nonfinite := t.nonfinite + stats.nonfinite), Raised(NonFiniteError))
    else (t, Done)
  }

  /** How many (module, phase) cells of the current step differ from one, over the first n modules. */
  function CoverageProblems(c: Config, s: State, n: nat): nat
    requires n <= |c.modules|
  {
    if n == 0 then 0
    else
      CoverageProblems(c, s, n - 1)
      + (if Count(s.phaseCounts, Key(s.steps, Forward, c.modules[n - 1])) != 1 then 1 else 0)
      + (if Count(s.phaseCounts, Key(s.steps, Backward, c.modules[n - 1])) != 1 then 1 else 0)
  }

  predicate NegativeOption(o: Option<int>) {
    o.Some? && o.value < 0
  }

  /** Absent, or a lowercase SHA-256 digest. */
  predicate IsManifest(manifest: Option<string>) {
    manifest.Some? ==>
      |manifest.value| == 64
      && forall i :: 0 <= i < 64 ==> '0' <= manifest.value[i] <= '9' || 'a' <= manifest.value[i] <= 'f'
  }

  function ResolvedTokens(a: StepArgs): Option<int> {
    if a.tokens.Some? then a.tokens else a.inputTokens
  }

  /** The argument checks of `step`, in order; None when they all pass. */
  function StepArgumentError(s: State, a: StepArgs): Option<HookError> {
    if !s.active then Some(StateError)
    else if !a.sameModel then Some(ConfigurationError)
    else if NegativeOption(a.step) then Some(ConfigurationError)
    else if a.step.Some? && a.step.value != s.steps then Some(CoverageError)
    else if NegativeOption(a.epoch) || NegativeOption(a.batchIndex) then Some(ConfigurationError)
    else if a.tokens.Some? && a.inputTokens.Some? && a.tokens != a.inputTokens then Some(ConfigurationError)
    else if ResolvedTokens(a).None? || ResolvedTokens(a).value < 1 then Some(ConfigurationError)
    else if NegativeOption(a.targetTokens) || NegativeOption(a.truncatedRecords) then Some(ConfigurationError)
    else if !IsManifest(a.manifest) then Some(ConfigurationError)
    else if a.learningRate.Err? then Some(a.learningRate.error)
    else None
  }

  /** The readings `step` takes after coverage passed, in order. */
  function StepReadingError(a: StepArgs): Option<HookError> {
    if a.loss.Err? then Some(a.loss.error)
    else if a.gradients.Unread? then Some(a.gradients.error)
    else if a.timing.Err? then Some(a.timing.error)
    else if a.gpuMemory.Err? then Some(a.gpuMemory.error)
    else None
  }

  function StepPayload(s: State, a: StepArgs): Payload
    requires StepArgumentError(s, a).None? && StepReadingError(a).None?
  {
    StepEvent(s.steps, a.loss.value, a.gradients.stats, a.gradientCoverage, ResolvedTokens(a).value,
              [Some(a.timing.value), a.targetTokens, a.epoch, a.batchIndex, a.learningRate.value, a.truncatedRecords]
              + a.gpuMemory.value, a.manifest)
  }

  /** A failure to record, and the exception that goes with it. */
  datatype Fault = Fault(error: HookError, coverage: nat, nonfinite: nat)

  /** What is wrong with a step event, the first fault only. */
  function StepFault(payload: Payload): Option<Fault>
    requires payload.StepEvent?
  {
    if payload.loss.None? then Some(Fault(NonFiniteError, 0, 1))
    else if payload.gradients.elements == 0 || !IsCompleteGradient(payload.coverage) then
      Some(Fault(CoverageError, 1, 0))
    else if payload.gradients.nonfinite > 0 then Some(Fault(NonFiniteError, 0, payload.gradients.nonfinite))
    else None
  }

  /** What `step` does once its event is in the ledger and the step is counted. */
  function JudgeStep(u: State, payload: Payload): (State, Reply)
    requires payload.StepEvent? && u.events != []
  {
    match StepFault(payload)
    case None => (u, Appended(u.events[|u.events| - 1]))
    case Some(fault) =>
      (u.(coverageFailures := u.coverageFailures + fault.coverage, nonfinite := u.nonfinite + fault.nonfinite),
       Raised(fault.error))
  }

  /** `step`. */
  function Step(c: Config, digest: EventBody -> Digest, s: State, a: StepArgs): (State, Reply) {
    var refused := StepArgumentError(s, a);
    if refused.Some? then (s, Raised(refused.value))
    else if c.expectedSteps.Some? && s.steps >= c.expectedSteps.value then
      (s.(coverageFailures := s.coverageFailures + 1), Raised(CoverageError))
    else
      var problems := CoverageProblems(c, s, |c.modules|);
      if problems > 0 then (s.(coverageFailures := s.coverageFailures + problems), Raised(CoverageError))
      else ReadAndSeal(c, digest, s, a)
  }

  /** The rest of `step` once arguments and coverage passed. */
  function ReadAndSeal(c: Config, digest: EventBody -> Digest, s: State, a: StepArgs): (State, Reply)
    requires StepArgumentError(s, a).None?
  {
    var unread := StepReadingError(a);
    if unread.Some? then (s, Raised(unread.value))
    else
      var payload := StepPayload(s, a);
      var (t, full) := Append(c, digest, s, payload);
      if full then (t, Raised(CapError)) else JudgeStep(t.(steps := t.steps + 1), payload)
  }

  /** `__exit__`; an exception from the body propagates whatever `close` does. */
  function Exit(s: State, failed: bool, stuck: set<nat>): (State, Reply) {
    var (t, raised) := Close(s, stuck);
    if failed then (t.(aborted := true), Done)
    else (t, if raised then Raised(CleanupError) else Done)
  }

  function PhaseTotal(counts: map<Key, nat>, phase: Phase, name: string, steps: nat): nat {
    if steps == 0 then 0 else PhaseTotal(counts, phase, name, steps - 1) + Count(counts, Key(steps - 1, phase, name))
  }

  function Coverage(c: Config, s: State, steps: nat): seq<ModuleCoverage> {
    seq(|c.modules|, i requires 0 <= i < |c.modules| =>
      ModuleCoverage(c.modules[i],
                     PhaseTotal(s.phaseCounts, Forward, c.modules[i], steps),
                     PhaseTotal(s.phaseCounts, Backward, c.modules[i], steps)))
  }

  /** `_verify_final_coverage` raises nothing. */
  predicate CoverageComplete(c: Config, s: State, steps: nat) {
    && s.coverageFailures == 0
    && (forall i :: 0 <= i < |c.modules| ==>
          Coverage(c, s, steps)[i].forward == steps && Coverage(c, s, steps)[i].backward == steps)
    && |s.events| == RequiredEvents(|c.modules|, steps)
  }

  function MakeReport(c: Config, s: State, steps: nat): Report {
    Report(c.modules, steps, s.steps, Coverage(c, s, steps), c.eventCap, c.genesis, s.head, s.events)
  }

  /** The step count `finalize` will insist on, or its refusal. */
  function FinalExpectation(c: Config, s: State, expectedSteps: Option<int>): Result<nat, HookError> {
    if expectedSteps.Some? then
      if expectedSteps.value < 1 then Err(ConfigurationError)
      else if c.expectedSteps.Some? && expectedSteps.value != c.expectedSteps.value then Err(ConfigurationError)
      else Ok(expectedSteps.value)
    else Ok(if c.expectedSteps.Some? then c.expectedSteps.value else s.steps)
  }

  /** The checks of `finalize` after `close`, in order; None when a report may be made. */
  ghost function FinalError(c: Config, digest: EventBody -> Digest, s: State, steps: nat): Option<HookError> {
    if !HandlesRemoved(s) then Some(CleanupError)
    else if RequiredEvents(|c.modules|, steps) > c.eventCap then Some(CapError)
    else if s.capExceeded || |s.events| > c.eventCap then Some(CapError)
    else if s.nonfinite > 0 then Some(NonFiniteError)
    else if s.aborted then Some(CoverageError)
    else if !(WellChained(digest, c.genesis, s.events) && s.head == HeadOf(c.genesis, s.events)) then
      Some(IntegrityError)
    else if steps < 1 || s.steps != steps || !CoverageComplete(c, s, steps) then Some(CoverageError)
    else None
  }

  /** `finalize`. */
  ghost function Finalize(c: Config, digest: EventBody -> Digest, s: State, expectedSteps: Option<int>, stuck: set<nat>,
                          counted: bool): (State, Reply) {
    if expectedSteps.Some? && expectedSteps.value < 1 then (s, Raised(ConfigurationError))
    else if s.report.Some? then
      if expectedSteps.Some? && expectedSteps.value != s.report.value.expectedSteps then (s, Raised(ConfigurationError))
      else (s, Reported(s.report.value))
    else if !s.entered then (s, Raised(StateError))
    else
      var expected := FinalExpectation(c, s, expectedSteps);
      if expected.Err? then (s, Raised(expected.error))
      else
        var (t, raised) := Close(s, stuck);
        if raised then (t, Raised(CleanupError))
        else
          var error := FinalError(c, digest, t, expected.value);
          if error.Some? then (t, Raised(error.value))
          else if !counted then (t, Raised(FrameworkError))
          else
            var report := MakeReport(c, t, expected.value);
            (t.(report := Some(report), finalized := true), Reported(report))
  }

  /** A hook can only fire for an allowlisted module. */
  predicate Callable(c: Config, call: Call) {
    call.CallHook? ==> call.moduleIndex < |c.modules|
  }

  ghost function Apply(c: Config, digest: EventBody -> Digest, s: State, call: Call): (State, Reply)
    requires Callable(c, call)
  {
    match call
    case CallEnter(entry) => Enter(c, s, entry)
    case CallHook(phase, moduleIndex, reading) => Hook(c, digest, s, phase, moduleIndex, reading)
    case CallStep(args) => Step(c, digest, s, args)
    case CallClose(stuck) => var (t, raised) := Close(s, stuck); (t, if raised then Raised(CleanupError) else Done)
    case CallExit(failed, stuck) => Exit(s, failed, stuck)
    case CallFinalize(expectedSteps, stuck, counted) => Finalize(c, digest, s, expectedSteps, stuck, counted)
  }

  /** The state after a whole sequence of calls. */
  ghost function Run(c: Config, digest: EventBody -> Digest, s: State, calls: seq<Call>): State
    requires forall i :: 0 <= i < |calls| ==> Callable(c, calls[i])
    decreases |calls|
  {
    if calls == [] then s
    else Run(c, digest, Apply(c, digest, s, calls[0]).0, calls[1..])
  }
}
