/** Runs of the training-hook collector in which entering and a hook raise, leave no failure on
    record, and the collector still publishes a report. */
module SilentRaise {
  import opened Results
  import opened TrainingLedger
  import opened CollectorSpec
  import opened CollectorSafety

  const MAGNITUDES: seq<Option<int>> := [Some(1), Some(1), Some(1), Some(1), Some(1)]
  const READING: Reading := Read(Stats(1, 1, 0, 0, MAGNITUDES))
  const STEP: StepArgs := StepArgs(
    true, None, None, None, Some(1), None, None, None, None,
    Ok(None), Ok(Some(0)), READING, GradientCoverage(1, 1, 1, 1), Ok(0), Ok([]))

  /** Every hook is registered, and then the first clock reading succeeds or raises. */
  function EntryWith(raises: bool): Entry {
    Entry(Some({"layer"}), None, {}, if raises then ClockRaises else FiniteClock)
  }

  /** One module, one expected step, room for its three events. */
  function OneLayer(genesis: Digest): Config {
    Config(["layer"], Some(1), 3, genesis)
  }

  function Entered(c: Config): State {
    Activate(Initial(c).(entered := true), 2)
  }

  /** A clock that raises leaves the collector exactly as active as one that does not. */
  lemma EnterActivates(c: Config, raises: bool)
    requires c == OneLayer(c.genesis)
    ensures Enter(c, Initial(c), EntryWith(raises)) == (Entered(c), if raises then Raised(FrameworkError) else Done)
  {
  }

  /** A hook that finds its cell empty and room in the ledger. */
  lemma CleanHook(c: Config, digest: EventBody -> Digest, s: State, phase: Phase)
    requires c == OneLayer(c.genesis) && s.active && s.steps == 0 && |s.events| < 3
    ensures var (t, reply) := Hook(c, digest, s, phase, 0, READING);
      && reply == Done && |t.events| == |s.events| + 1
      && t == s.(events := t.events, head := t.head,
                 phaseCounts :=
                   s.phaseCounts[Key(0, phase, "layer") := Count(s.phaseCounts, Key(0, phase, "layer")) + 1])
  {
  }

  lemma CleanStep(c: Config, digest: EventBody -> Digest, s: State)
    requires c == OneLayer(c.genesis) && s.active && s.steps == 0 && |s.events| == 2
    requires Count(s.phaseCounts, Key(0, Forward, "layer")) == 1 && Count(s.phaseCounts, Key(0, Backward, "layer")) == 1
    ensures var (t, reply) := Step(c, digest, s, STEP);
      && reply.Appended? && |t.events| == 3 && t == s.(events := t.events, head := t.head, steps := 1)
  {
    assert CoverageProblems(c, s, 0) == 0;
    assert CoverageProblems(c, s, 1) == 0;
  }

  /** An entry, an overflowing hook, then a complete step. */
  function Calls(raises: bool): seq<Call> {
    [CallEnter(EntryWith(raises)), CallHook(Forward, 0, Unread(NonFiniteError)), CallHook(Forward, 0, READING),
     CallHook(Backward, 0, READING), CallStep(STEP)]
  }

  /** Whether or not the clock raises on entry, the overflowing hook raises and leaves the state as it
      was; the step is then completed, and `finalize` publishes a report. */
  lemma ReportAfterRaises(digest: EventBody -> Digest, genesis: Digest, raises: bool)
    ensures var c, calls := OneLayer(genesis), Calls(raises);
      && (forall i :: 0 <= i < |calls| ==> Callable(c, calls[i]))
      && Apply(c, digest, Initial(c), calls[0]) == (Entered(c), if raises then Raised(FrameworkError) else Done)
      && Apply(c, digest, Entered(c), calls[1]) == (Entered(c), Raised(NonFiniteError))
      && Finalize(c, digest, Run(c, digest, Initial(c), calls), None, {}, true).0.report.Some?
  {
    var c := OneLayer(genesis);
    var s := RunState(c, digest, raises);
    hide Apply;
    FinalizeSucceedsExactly(c, digest, Calls(raises), None, {}, true);
    hide *;
    FinishedReports(c, s);
  }

  lemma FinishedReports(c: Config, s: State)
    requires c == OneLayer(c.genesis) && s.entered && !Failed(s)
    requires s.handles == [0, 1] && s.steps == 1 && |s.events| == 3
    ensures Stuck(s.handles, {}) == [] && FinalExpectation(c, s, None) == Ok(s.steps) && |s.events| == Start(c, s.steps)
  {
    assert Stuck([1], {}) == [];
  }

  /** The hooks and the step that follow the entry. */
  lemma StepAfterEntry(c: Config, digest: EventBody -> Digest) returns (s: State)
    requires c == OneLayer(c.genesis)
    ensures Hook(c, digest, Entered(c), Forward, 0, Unread(NonFiniteError)) == (Entered(c), Raised(NonFiniteError))
    ensures
      var s3 := Hook(c, digest, Entered(c), Forward, 0, READING).0;
      var s4 := Hook(c, digest, s3, Backward, 0, READING).0;
      s == Step(c, digest, s4, STEP).0
    ensures s.entered && s.report.None? && !Failed(s) && s.handles == [0, 1] && s.steps == 1 && |s.events| == 3
  {
    var s1 := Entered(c);
    UnreadHookIsInvisible(c, digest, s1, Forward, 0, NonFiniteError);
    CleanHook(c, digest, s1, Forward);
    var s3 := Hook(c, digest, s1, Forward, 0, READING).0;
    CleanHook(c, digest, s3, Backward);
    var s4 := Hook(c, digest, s3, Backward, 0, READING).0;
    CleanStep(c, digest, s4);
    s := Step(c, digest, s4, STEP).0;
    hide Hook, Step;
  }

  lemma RunState(c: Config, digest: EventBody -> Digest, raises: bool) returns (s: State)
    requires c == OneLayer(c.genesis)
    ensures ValidConfig(c) && forall i :: 0 <= i < |Calls(raises)| ==> Callable(c, Calls(raises)[i])
    ensures Apply(c, digest, Initial(c), Calls(raises)[0])
        == (Entered(c), if raises then Raised(FrameworkError) else Done)
    ensures Apply(c, digest, Entered(c), Calls(raises)[1]) == (Entered(c), Raised(NonFiniteError))
    ensures s == Run(c, digest, Initial(c), Calls(raises))
    ensures s.entered && s.report.None? && !Failed(s) && s.handles == [0, 1] && s.steps == 1 && |s.events| == 3
  {
    EnterActivates(c, raises);
    s := StepAfterEntry(c, digest);
    hide Enter, Hook, Step, Entered;
    UnfoldRun(c, digest, Initial(c), raises);
  }

  lemma UnfoldRun(c: Config, digest: EventBody -> Digest, s: State, raises: bool)
    requires |c.modules| == 1
    ensures forall i :: 0 <= i < |Calls(raises)| ==> Callable(c, Calls(raises)[i])
    ensures
      var s1 := Enter(c, s, EntryWith(raises)).0;
      var s2 := Hook(c, digest, s1, Forward, 0, Unread(NonFiniteError)).0;
      var s3 := Hook(c, digest, s2, Forward, 0, READING).0;
      var s4 := Hook(c, digest, s3, Backward, 0, READING).0;
      Run(c, digest, s, Calls(raises)) == Step(c, digest, s4, STEP).0
  {
    hide Enter, Hook, Step;
    var calls := Calls(raises);
    assert calls[1..][1..] == calls[2..] && calls[2..][1..] == calls[3..];
    assert calls[3..][1..] == calls[4..] && calls[4..][1..] == [];
    var s1 := Enter(c, s, EntryWith(raises)).0;
    assert Run(c, digest, s, calls) == Run(c, digest, s1, calls[1..]);
    var s2 := Hook(c, digest, s1, Forward, 0, Unread(NonFiniteError)).0;
    assert Run(c, digest, s1, calls[1..]) == Run(c, digest, s2, calls[2..]);
    var s3 := Hook(c, digest, s2, Forward, 0, READING).0;
    assert Run(c, digest, s2, calls[2..]) == Run(c, digest, s3, calls[3..]);
    var s4 := Hook(c, digest, s3, Backward, 0, READING).0;
    assert Run(c, digest, s3, calls[3..]) == Run(c, digest, s4, calls[4..]);
    assert Run(c, digest, s4, calls[4..]) == Run(c, digest, Step(c, digest, s4, STEP).0, []);
  }
}
