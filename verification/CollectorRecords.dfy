/** What the calls of the training-hook collector leave in the ledger: every event holds the readings and
    the arguments of the call that appended it, and readings that are not in order condemn the run. */
module CollectorRecords {
  import opened FiniteSets
  import opened Results
  import opened TrainingLedger
  import opened CollectorSpec
  import opened CollectorSafety

  // ---- What a step records ---------------------------------------------------------

  /** The argument is not negative where it is given. */
  predicate NotNegative(o: Option<int>) {
    o.Some? ==> o.value >= 0
  }

  /** The two names of the token count agree on a positive number. */
  predicate TokensAre(a: StepArgs, tokens: int) {
    && tokens >= 1 && (a.tokens.Some? || a.inputTokens.Some?)
    && (a.tokens.Some? ==> a.tokens.value == tokens) && (a.inputTokens.Some? ==> a.inputTokens.value == tokens)
  }

  /** Every allowlisted module was seen once forward and once backward in the open step. */
  ghost predicate StepCovered(c: Config, s: State) {
    forall i :: 0 <= i < |c.modules| ==>
      && Count(s.phaseCounts, Key(s.steps, Forward, c.modules[i])) == 1
      && Count(s.phaseCounts, Key(s.steps, Backward, c.modules[i])) == 1
  }

  /** What it takes for a step to be sealed. */
  ghost predicate StepIsTaken(c: Config, s: State, a: StepArgs) {
    && s.active && a.sameModel && (a.step.Some? ==> a.step.value == s.steps)
    && NotNegative(a.epoch) && NotNegative(a.batchIndex)
    && NotNegative(a.targetTokens) && NotNegative(a.truncatedRecords)
    && (exists tokens :: TokensAre(a, tokens)) && IsManifest(a.manifest)
    && (c.expectedSteps.Some? ==> s.steps < c.expectedSteps.value)
    && StepCovered(c, s)
    && a.learningRate.Ok? && a.loss.Ok? && a.gradients.Read? && a.timing.Ok? && a.gpuMemory.Ok?
    && |s.events| < c.eventCap
  }

  /** The event of step number `step` holds the arguments, and nothing else. */
  ghost predicate IsStepRecord(step: nat, a: StepArgs, payload: Payload) {
    && payload.StepEvent? && payload.step == step
    && a.loss == Ok(payload.loss)
    && a.gradients == Read(payload.gradients) && payload.coverage == a.gradientCoverage
    && TokensAre(a, payload.tokens)
    && |payload.details| >= 6
    && payload.details[0].Some? && a.timing == Ok(payload.details[0].value)
    && payload.details[1] == a.targetTokens && payload.details[2] == a.epoch && payload.details[3] == a.batchIndex
    && a.learningRate == Ok(payload.details[4]) && payload.details[5] == a.truncatedRecords
    && a.gpuMemory == Ok(payload.details[6..])
    && payload.manifest == a.manifest
  }

  /** The loss or a gradient is not finite, there is no gradient at all, or some trainable parameter has none. */
  predicate IsFaulty(a: StepArgs) {
    || a.loss == Ok(None)
    || (a.gradients.Read? && (a.gradients.stats.elements == 0 || a.gradients.stats.nonfinite > 0))
    || a.gradientCoverage.expectedTensors != a.gradientCoverage.observedTensors
    || a.gradientCoverage.expectedElements != a.gradientCoverage.observedElements
  }

  /** One sealed event was appended, holding the payload. */
  ghost predicate Grew(digest: EventBody -> Digest, s: State, t: State, payload: Payload) {
    var event := Event(EventBody(|s.events|, s.head, payload), digest(EventBody(|s.events|, s.head, payload)));
    t.events == s.events + [event] && t.head == event.digest
  }

  ghost predicate Unchanged(s: State, t: State) {
    t.events == s.events && t.head == s.head && t.steps == s.steps
  }

  /** A step is sealed exactly when its arguments are in order, the open step is covered and the ledger has
      room; its event then holds the arguments, and the run fails exactly when they are faulty. */
  lemma StepRecordsExactly(c: Config, digest: EventBody -> Digest, s: State, a: StepArgs)
    ensures
      var (t, reply) := Step(c, digest, s, a);
      if StepIsTaken(c, s, a) then
        && |t.events| == |s.events| + 1
        && IsStepRecord(s.steps, a, t.events[|s.events|].body.payload)
        && Grew(digest, s, t, t.events[|s.events|].body.payload)
        && t.steps == s.steps + 1 && t.phaseCounts == s.phaseCounts
        && (Failed(t) <==> Failed(s) || IsFaulty(a))
        && reply == if IsFaulty(a) then FaultReply(a) else Appended(t.events[|s.events|])
      else Unchanged(s, t) && t.phaseCounts == s.phaseCounts && reply.Raised?
  {
    ArgumentsExactly(s, a);
    CoverageExactly(c, s, |c.modules|);
    hide StepArgumentError, CoverageProblems, StepCovered, TokensAre, IsManifest, Grew, IsStepRecord;
    if StepArgumentError(s, a).None? && StepReadingError(a).None? {
      PayloadIsRecord(s, a);
      FaultsExactly(s, a);
      hide StepPayload;
      if |s.events| < c.eventCap {
        SealedStepGrows(c, digest, s, StepPayload(s, a));
      }
    }
    hide JudgeStep, Append;
    if !StepIsTaken(c, s, a) {
      UntakenStep(c, digest, s, a);
    }
  }

  /** The arguments pass exactly when each is in order. */
  lemma ArgumentsExactly(s: State, a: StepArgs)
    ensures StepArgumentError(s, a).None?
       <==> && s.active && a.sameModel && (a.step.Some? ==> a.step.value == s.steps)
            && NotNegative(a.epoch) && NotNegative(a.batchIndex)
            && NotNegative(a.targetTokens) && NotNegative(a.truncatedRecords)
            && (exists tokens :: TokensAre(a, tokens)) && IsManifest(a.manifest) && a.learningRate.Ok?
  {
    hide IsManifest;
    if ResolvedTokens(a).Some? && (a.tokens.Some? && a.inputTokens.Some? ==> a.tokens == a.inputTokens)
       && ResolvedTokens(a).value >= 1 {
      assert TokensAre(a, ResolvedTokens(a).value);
    }
  }

  lemma {:induction false} CoverageExactly(c: Config, s: State, n: nat)
    requires n <= |c.modules|
    ensures CoverageProblems(c, s, n) == 0
       <==> forall i :: 0 <= i < n ==>
              && Count(s.phaseCounts, Key(s.steps, Forward, c.modules[i])) == 1
              && Count(s.phaseCounts, Key(s.steps, Backward, c.modules[i])) == 1
  {
    hide Count;
    if n > 0 {
      CoverageExactly(c, s, n - 1);
    }
  }

  lemma PayloadIsRecord(s: State, a: StepArgs)
    requires StepArgumentError(s, a).None? && StepReadingError(a).None?
    ensures IsStepRecord(s.steps, a, StepPayload(s, a))
  {
    hide IsManifest;
    assert StepPayload(s, a).details[6..] == a.gpuMemory.value;
  }

  lemma FaultsExactly(s: State, a: StepArgs)
    requires StepArgumentError(s, a).None? && StepReadingError(a).None?
    ensures StepPayload(s, a).StepEvent? && (StepFault(StepPayload(s, a)).Some? <==> IsFaulty(a))
    ensures IsFaulty(a) ==> Raised(StepFault(StepPayload(s, a)).value.error) == FaultReply(a)
  {
    hide IsManifest;
  }

  lemma SealedStepGrows(c: Config, digest: EventBody -> Digest, s: State, payload: Payload)
    requires payload.StepEvent? && |s.events| < c.eventCap
    ensures
      var (t, full) := Append(c, digest, s, payload);
      && !full && Grew(digest, s, t, payload) && t == s.(events := t.events, head := t.head)
      && |t.events| == |s.events| + 1 && t.events[|s.events|].body.payload == payload
      && var (u, reply) := JudgeStep(t.(steps := t.steps + 1), payload);
      && u.events == t.events && u.head == t.head && u.steps == t.steps + 1 && u.phaseCounts == t.phaseCounts
      && (Failed(u) <==> Failed(t) || StepFault(payload).Some?)
      && reply == match StepFault(payload)
                  case None => Appended(t.events[|s.events|])
                  case Some(fault) => Raised(fault.error)
  {
  }

  lemma UntakenStep(c: Config, digest: EventBody -> Digest, s: State, a: StepArgs)
    requires !StepIsTaken(c, s, a)
    ensures var (t, reply) := Step(c, digest, s, a);
      Unchanged(s, t) && t.phaseCounts == s.phaseCounts && reply.Raised?
  {
    ArgumentsExactly(s, a);
    CoverageExactly(c, s, |c.modules|);
    hide StepArgumentError, CoverageProblems, TokensAre, IsManifest, StepPayload, JudgeStep;
    if StepArgumentError(s, a).None? && StepReadingError(a).None? && CoverageProblems(c, s, |c.modules|) == 0 {
      assert StepCovered(c, s);
    }
  }

  /** The exception of a faulty step: the loss is judged first, then coverage, then the gradients. */
  function FaultReply(a: StepArgs): Reply {
    if a.loss == Ok(None) then Raised(NonFiniteError)
    else if (a.gradients.Read? && a.gradients.stats.elements == 0) || !IsCompleteGradient(a.gradientCoverage)
    then Raised(CoverageError)
    else Raised(NonFiniteError)
  }

  // ---- What a hook records ---------------------------------------------------------

  /** What it takes for a fired hook to be recorded. */
  predicate HookIsTaken(c: Config, s: State, reading: Reading) {
    && s.active && reading.Read? && |s.events| < c.eventCap
    && (c.expectedSteps.Some? ==> s.steps < c.expectedSteps.value)
  }

  /** A fired hook is recorded exactly when the collector is active below its limits and the reduction did
      not raise; the event holds the phase, the module and the reading, and only its cell is counted.  The
      run fails exactly when the value was empty or not finite. */
  lemma HookRecordsExactly(c: Config, digest: EventBody -> Digest, s: State, phase: Phase, moduleIndex: nat,
                           reading: Reading)
    requires moduleIndex < |c.modules|
    ensures
      var (t, reply) := Hook(c, digest, s, phase, moduleIndex, reading);
      var key := Key(s.steps, phase, c.modules[moduleIndex]);
      && t.steps == s.steps
      && (forall other :: other != key ==> Count(t.phaseCounts, other) == Count(s.phaseCounts, other))
      && if HookIsTaken(c, s, reading) then
           && Grew(digest, s, t, HookEvent(phase, s.steps, c.modules[moduleIndex], reading.stats))
           && Count(t.phaseCounts, key) == Count(s.phaseCounts, key) + 1
           && (Failed(t) <==> Failed(s) || reading.stats.elements == 0 || reading.stats.nonfinite > 0)
           && (reply == Done <==> reading.stats.elements > 0 && reading.stats.nonfinite == 0)
         else Unchanged(s, t) && reply.Raised?
  {
    HookCountsExactly(c, digest, s, phase, moduleIndex, reading);
    HookLedgerExactly(c, digest, s, phase, moduleIndex, reading);
    hide Hook, Grew, Count;
  }

  lemma HookCountsExactly(c: Config, digest: EventBody -> Digest, s: State, phase: Phase, moduleIndex: nat,
                          reading: Reading)
    requires moduleIndex < |c.modules|
    ensures
      var t, key := Hook(c, digest, s, phase, moduleIndex, reading).0, Key(s.steps, phase, c.modules[moduleIndex]);
      && (forall other :: other != key ==> Count(t.phaseCounts, other) == Count(s.phaseCounts, other))
      && (HookIsTaken(c, s, reading) ==> Count(t.phaseCounts, key) == Count(s.phaseCounts, key) + 1)
  {
    hide JudgeHook, Append;
    if s.active && reading.Read? && (c.expectedSteps.Some? ==> s.steps < c.expectedSteps.value) {
      var key := Key(s.steps, phase, c.modules[moduleIndex]);
      var counted := CountedAt(s, key);
      var payload := HookEvent(phase, s.steps, c.modules[moduleIndex], reading.stats);
      HookUnfolds(c, digest, s, phase, moduleIndex, reading);
      hide Hook, CountedAt, Count;
      CountedAtExactly(s, key);
      AppendExactly(c, digest, counted, payload);
      JudgeHookExactly(Append(c, digest, counted, payload).0, reading.stats);
    }
  }

  lemma HookLedgerExactly(c: Config, digest: EventBody -> Digest, s: State, phase: Phase, moduleIndex: nat,
                          reading: Reading)
    requires moduleIndex < |c.modules|
    ensures
      var (t, reply) := Hook(c, digest, s, phase, moduleIndex, reading);
      && t.steps == s.steps
      && if HookIsTaken(c, s, reading) then
           && Grew(digest, s, t, HookEvent(phase, s.steps, c.modules[moduleIndex], reading.stats))
           && (Failed(t) <==> Failed(s) || reading.stats.elements == 0 || reading.stats.nonfinite > 0)
           && (reply == Done <==> reading.stats.elements > 0 && reading.stats.nonfinite == 0)
         else Unchanged(s, t) && reply.Raised?
  {
    hide JudgeHook, Append, Count;
    if s.active && reading.Read? && (c.expectedSteps.Some? ==> s.steps < c.expectedSteps.value) {
      var key := Key(s.steps, phase, c.modules[moduleIndex]);
      var counted := CountedAt(s, key);
      var payload := HookEvent(phase, s.steps, c.modules[moduleIndex], reading.stats);
      HookUnfolds(c, digest, s, phase, moduleIndex, reading);
      hide Hook, CountedAt, Count;
      CountedAtExactly(s, key);
      AppendExactly(c, digest, counted, payload);
      JudgeHookExactly(Append(c, digest, counted, payload).0, reading.stats);
    }
  }

  /** The state once the hook is counted. */
  ghost function CountedAt(s: State, key: Key): State {
    s.(phaseCounts := s.phaseCounts[key := Count(s.phaseCounts, key) + 1])
  }

  lemma CountedAtExactly(s: State, key: Key)
    ensures CountedAt(s, key) == s.(phaseCounts := CountedAt(s, key).phaseCounts)
    ensures Count(CountedAt(s, key).phaseCounts, key) == Count(s.phaseCounts, key) + 1
    ensures forall other :: other != key ==>
      Count(CountedAt(s, key).phaseCounts, other) == Count(s.phaseCounts, other)
  {
  }

  lemma HookUnfolds(c: Config, digest: EventBody -> Digest, s: State, phase: Phase, moduleIndex: nat, reading: Reading)
    requires moduleIndex < |c.modules| && s.active && reading.Read?
    requires c.expectedSteps.Some? ==> s.steps < c.expectedSteps.value
    ensures
      var counted := CountedAt(s, Key(s.steps, phase, c.modules[moduleIndex]));
      var (t, full) :=
        Append(c, digest, counted, HookEvent(phase, s.steps, c.modules[moduleIndex], reading.stats));
      Hook(c, digest, s, phase, moduleIndex, reading)
      == if full then (t, Raised(CapError)) else JudgeHook(t, reading.stats)
  {
    hide Append, JudgeHook, Count;
  }

  lemma AppendExactly(c: Config, digest: EventBody -> Digest, s: State, payload: Payload)
    ensures
      var (t, full) := Append(c, digest, s, payload);
      if |s.events| < c.eventCap then
        !full && Grew(digest, s, t, payload) && t == s.(events := t.events, head := t.head)
      else full && t == s.(capExceeded := true)
  {
  }

  lemma JudgeHookExactly(t: State, stats: Stats)
    ensures
      var (u, reply) := JudgeHook(t, stats);
      && u.events == t.events && u.head == t.head && u.steps == t.steps && u.phaseCounts == t.phaseCounts
      && (Failed(u) <==> Failed(t) || stats.elements == 0 || stats.nonfinite > 0)
      && (reply == Done <==> stats.elements > 0 && stats.nonfinite == 0)
  {
  }

  /** Every other call leaves the ledger alone. */
  lemma OthersRecordNothing(c: Config, digest: EventBody -> Digest, s: State, call: Call)
    requires Callable(c, call) && !call.CallHook? && !call.CallStep?
    ensures var t := Apply(c, digest, s, call).0;
      Unchanged(s, t) && t.phaseCounts == s.phaseCounts
  {
    hide Enter, Close, Exit, Finalize;
    match call
    case CallEnter(entry) => EnterKeepsLedger(c, s, entry);
    case CallClose(stuck) => CloseKeepsLedger(s, stuck);
    case CallExit(failed, stuck) => ExitKeepsLedger(s, failed, stuck);
    case CallFinalize(expectedSteps, stuck, counted) =>
      FinalizeKeepsLedger(c, digest, s, expectedSteps, stuck, counted);
  }

  lemma EnterKeepsLedger(c: Config, s: State, entry: Entry)
    ensures SameLedger(s, Enter(c, s, entry).0)
  {
    hide Stuck, RequiredEvents;
  }

  lemma ExitKeepsLedger(s: State, failed: bool, stuck: set<nat>)
    ensures SameLedger(s, Exit(s, failed, stuck).0)
  {
    hide Close;
    CloseKeepsLedger(s, stuck);
  }

  lemma FinalizeKeepsLedger(c: Config, digest: EventBody -> Digest, s: State, expectedSteps: Option<int>,
                            stuck: set<nat>, counted: bool)
    ensures SameLedger(s, Finalize(c, digest, s, expectedSteps, stuck, counted).0)
  {
    hide Close, FinalExpectation, MakeReport, FinalError;
    CloseKeepsLedger(s, stuck);
  }

  // ---- What entering and closing do ------------------------------------------------

  /** What it takes for the hooks to be in place once entered. */
  predicate EntryHolds(c: Config, s: State, entry: Entry) {
    && !s.entered && !s.finalized
    && entry.known.Some? && (forall i :: 0 <= i < |c.modules| ==> c.modules[i] in entry.known.value)
    && (c.expectedSteps.Some? ==> c.expectedSteps.value * (2 * |c.modules| + 1) <= c.eventCap)
    && (entry.registrationFailsAt.Some? ==> entry.registrationFailsAt.value >= 2 * |c.modules|)
    && !entry.clock.NonFiniteClock?
  }

  /** Entering leaves the collector active, with one forward and one backward handle for each module, exactly
      when nothing was refused; it returns exactly when the clock did not raise either. */
  lemma EnterActivatesExactly(c: Config, s: State, entry: Entry)
    requires !s.entered ==> !s.active && s.handles == []
    ensures
      var (t, reply) := Enter(c, s, entry);
      && (t.active <==> s.active || EntryHolds(c, s, entry))
      && (reply == Done <==> EntryHolds(c, s, entry) && entry.clock.FiniteClock?)
      && (EntryHolds(c, s, entry) ==>
            && t.entered && t.installed == 2 * |c.modules| == |t.handles|
            && forall i :: 0 <= i < |t.handles| ==> t.handles[i] == i)
  {
    hide Stuck;
  }

  lemma {:induction false} StuckExactly(handles: seq<nat>, stuck: set<nat>, h: nat)
    ensures multiset(Stuck(handles, stuck))[h] == if h in stuck then multiset(handles)[h] else 0
  {
    if handles != [] {
      StuckExactly(handles[1..], stuck, h);
      assert handles == [handles[0]] + handles[1..];
    }
  }

  /** Closing removes exactly the handles that can be removed, counts them, and raises exactly when one is
      left, or when there was nothing to remove and one was left before. */
  lemma CloseRemovesExactly(s: State, stuck: set<nat>)
    ensures
      var (t, raised) := Close(s, stuck);
      && !t.active
      && (forall h :: multiset(t.handles)[h] == if h in stuck then multiset(s.handles)[h] else 0)
      && t.removed + |t.handles| == s.removed + |s.handles|
      && t.cleanupFailures == s.cleanupFailures + |t.handles|
      && (raised <==> t.handles != [] || (s.handles == [] && s.cleanupFailures > 0))
  {
    hide Stuck;
    forall h: nat ensures multiset(Stuck(s.handles, stuck))[h] == if h in stuck then multiset(s.handles)[h] else 0 {
      StuckExactly(s.handles, stuck, h);
    }
  }

  // ---- Runs ------------------------------------------------------------------------

  ghost predicate AllCallable(c: Config, calls: seq<Call>) {
    forall i :: 0 <= i < |calls| ==> Callable(c, calls[i])
  }

  /** The call, made in state s, puts the payload into the ledger. */
  ghost predicate Records(c: Config, s: State, call: Call, payload: Payload) {
    match call
    case CallHook(phase, moduleIndex, reading) =>
      && HookIsTaken(c, s, reading) && moduleIndex < |c.modules|
      && payload == HookEvent(phase, s.steps, c.modules[moduleIndex], reading.stats)
    case CallStep(args) => StepIsTaken(c, s, args) && IsStepRecord(s.steps, args, payload)
    case _ => false
  }

  /** The call appends what it records, or nothing. */
  lemma CallRecords(c: Config, digest: EventBody -> Digest, s: State, call: Call)
    requires Callable(c, call)
    ensures var t := Apply(c, digest, s, call).0;
      || t.events == s.events
      || (|t.events| == |s.events| + 1 && t.events[..|s.events|] == s.events
          && Records(c, s, call, t.events[|s.events|].body.payload))
  {
    hide Step, Hook, StepIsTaken, IsStepRecord, Enter, Close, Exit, Finalize;
    match call
    case CallHook(phase, moduleIndex, reading) => HookRecordsExactly(c, digest, s, phase, moduleIndex, reading);
    case CallStep(args) => StepRecordsExactly(c, digest, s, args);
    case _ => OthersRecordNothing(c, digest, s, call);
  }

  /** Event j of a run was appended, with everything it holds, by one of its calls, made when the ledger
      held the j events before it. */
  lemma {:induction false} EveryEventIsRecorded(c: Config, digest: EventBody -> Digest, calls: seq<Call>, j: nat)
    returns (i: nat)
    requires AllCallable(c, calls) && j < |Run(c, digest, Initial(c), calls).events|
    ensures i < |calls| && AllCallable(c, calls[..i])
    ensures Run(c, digest, Initial(c), calls[..i]).events == Run(c, digest, Initial(c), calls).events[..j]
    ensures Records(c, Run(c, digest, Initial(c), calls[..i]), calls[i],
                    Run(c, digest, Initial(c), calls).events[j].body.payload)
    decreases |calls|
  {
    hide Records, Apply, Callable;
    i := |calls| - 1;
    var init, last := calls[..i], calls[i];
    assert calls == init + [last];
    RunAppend(c, digest, Initial(c), init, last);
    var s, t := Run(c, digest, Initial(c), init), Run(c, digest, Initial(c), calls);
    CallRecords(c, digest, s, last);
    if j < |s.events| {
      i := EveryEventIsRecorded(c, digest, init, j);
      assert init[..i] == calls[..i];
    }
  }

  /** A call that records faulty readings condemns the run: no report ever follows. */
  predicate RecordsFault(c: Config, call: Call) {
    match call
    case CallHook(_, _, reading) => reading.Read? && (reading.stats.elements == 0 || reading.stats.nonfinite > 0)
    case CallStep(args) => IsFaulty(args)
    case _ => false
  }

  lemma FaultIsForever(c: Config, digest: EventBody -> Digest, calls: seq<Call>, call: Call, later: seq<Call>)
    requires ValidConfig(c) && AllCallable(c, calls) && Callable(c, call) && AllCallable(c, later)
    requires RecordsFault(c, call)
    requires
      var s := Run(c, digest, Initial(c), calls);
      |Apply(c, digest, s, call).0.events| > |s.events|
    ensures AllCallable(c, calls + [call] + later)
    ensures
      var t := Run(c, digest, Initial(c), calls + [call] + later);
      Failed(t) && t.report.None?
  {
    var s := Run(c, digest, Initial(c), calls);
    var t := Apply(c, digest, s, call).0;
    InitialInv(c, digest);
    RunKeepsInv(c, digest, Initial(c), calls);
    RunAppend(c, digest, Initial(c), calls, call);
    RunInTurn(c, digest, Initial(c), calls + [call], later);
    FaultCondemns(c, digest, s, call);
    hide *;
    FailureIsForever(c, digest, t, later);
  }

  /** No event is appended after a report, and a recorded fault is a failure. */
  lemma FaultCondemns(c: Config, digest: EventBody -> Digest, s: State, call: Call)
    requires Inv(c, digest, s) && Callable(c, call) && RecordsFault(c, call)
    requires |Apply(c, digest, s, call).0.events| > |s.events|
    ensures Doomed(Apply(c, digest, s, call).0)
  {
    ReportIsLate(c, digest, s);
    hide Step, Hook, Inv, StepIsTaken, IsStepRecord, Grew, Failed, IsFaulty;
    match call
    case CallHook(phase, moduleIndex, reading) =>
      HookRecordsExactly(c, digest, s, phase, moduleIndex, reading);
      HookKeepsReport(c, digest, s, phase, moduleIndex, reading);
    case CallStep(args) =>
      StepRecordsExactly(c, digest, s, args);
      StepKeepsReport(c, digest, s, args);
  }

  lemma ReportIsLate(c: Config, digest: EventBody -> Digest, s: State)
    requires Inv(c, digest, s)
    ensures s.active ==> s.report.None?
  {
    hide Certified, Bounded, Chained, Structured, CleanUnlessFailed;
  }

  lemma HookKeepsReport(c: Config, digest: EventBody -> Digest, s: State, phase: Phase, moduleIndex: nat,
                        reading: Reading)
    requires moduleIndex < |c.modules|
    ensures Hook(c, digest, s, phase, moduleIndex, reading).0.report == s.report
    ensures Hook(c, digest, s, phase, moduleIndex, reading).0.events != s.events ==> s.active
  {
  }

  lemma StepKeepsReport(c: Config, digest: EventBody -> Digest, s: State, a: StepArgs)
    ensures Step(c, digest, s, a).0.report == s.report
    ensures Step(c, digest, s, a).0.events != s.events ==> s.active
  {
    hide CoverageProblems, StepPayload, StepFault, StepReadingError;
    if StepArgumentError(s, a).None? {
      RefusesInactive(s, a);
    }
    hide StepArgumentError;
  }

  /** A run in two parts. */
  lemma {:induction false} RunInTurn(c: Config, digest: EventBody -> Digest, s: State, first: seq<Call>,
                                     second: seq<Call>)
    requires AllCallable(c, first) && AllCallable(c, second)
    ensures AllCallable(c, first + second)
    ensures Run(c, digest, s, first + second) == Run(c, digest, Run(c, digest, s, first), second)
    decreases |first|
  {
    hide Apply, Callable;
    if first == [] {
      assert first + second == second;
    } else {
      assert (first + second)[1..] == first[1..] + second;
      RunInTurn(c, digest, Apply(c, digest, s, first[0]).0, first[1..], second);
    }
  }

  // ---- When a report is made -------------------------------------------------------

  /** Nothing was recorded against the run. */
  predicate NothingRecorded(s: State) {
    !s.capExceeded && s.coverageFailures == 0 && s.nonfinite == 0 && !s.aborted && s.cleanupFailures == 0
  }

  lemma {:induction false} NothingStuck(handles: seq<nat>, stuck: set<nat>)
    ensures Stuck(handles, stuck) == [] <==> forall h :: h in handles ==> h !in stuck
  {
    if handles != [] {
      NothingStuck(handles[1..], stuck);
      assert handles == [handles[0]] + handles[1..];
    }
  }

  /** After any run without a report, `finalize` makes one exactly when the collector was entered, nothing was
      recorded against the run, every handle can be removed, the parameters can be counted, at least one step
      was sealed with nothing after it, and both step counts that were asked for, if any, are the sealed one. */
  lemma ReportIsMadeExactly(c: Config, digest: EventBody -> Digest, calls: seq<Call>, expectedSteps: Option<int>,
                            stuck: set<nat>, counted: bool)
    requires ValidConfig(c) && AllCallable(c, calls)
    requires Run(c, digest, Initial(c), calls).report.None?
    ensures
      var s := Run(c, digest, Initial(c), calls);
      var (t, reply) := Finalize(c, digest, s, expectedSteps, stuck, counted);
      && (reply.Reported? <==> t.report.Some?) && (reply.Reported? ==> t.report == Some(reply.report))
      && (t.report.Some?
          <==>
          && s.entered && NothingRecorded(s) && (forall h :: h in s.handles ==> h !in stuck) && counted
          && s.steps >= 1 && |s.events| == s.steps * (2 * |c.modules| + 1)
          && (expectedSteps.Some? ==> expectedSteps.value == s.steps)
          && (c.expectedSteps.Some? ==> c.expectedSteps.value == s.steps))
  {
    var s := Run(c, digest, Initial(c), calls);
    FinalizeSucceedsExactly(c, digest, calls, expectedSteps, stuck, counted);
    NothingStuck(s.handles, stuck);
    StartIsProduct(c, s.steps);
    FinalizeReplies(c, digest, s, expectedSteps, stuck, counted);
    hide Run, Finalize, Stuck, Start;
  }

  lemma StartIsProduct(c: Config, steps: nat)
    ensures Start(c, steps) == steps * (2 * |c.modules| + 1)
  {
  }

  lemma FinalizeReplies(c: Config, digest: EventBody -> Digest, s: State, expectedSteps: Option<int>,
                        stuck: set<nat>, counted: bool)
    requires s.report.None?
    ensures
      var (t, reply) := Finalize(c, digest, s, expectedSteps, stuck, counted);
      (reply.Reported? <==> t.report.Some?) && (reply.Reported? ==> t.report == Some(reply.report))
  {
    hide Stuck, FinalExpectation, FinalError, MakeReport;
  }
}
