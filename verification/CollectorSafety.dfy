/** What the collector of `CollectorSpec` guarantees over every sequence of calls: a bounded,
    chained, block-structured ledger, handle conservation, sticky failure, and reports
    exactly when a clean complete run has been observed. */
module CollectorSafety {
  import opened FiniteSets
  import opened Results
  import opened TrainingLedger
  import opened CollectorSpec

  // ---- Block structure -------------------------------------------------------------

  /** A hook event of the given step for an allowlisted module. */
  predicate IsHook(c: Config, p: Payload, step: nat) {
    p.HookEvent? && p.step == step && p.moduleName in c.modules
  }

  predicate Matches(p: Payload, phase: Phase, name: string) {
    p.HookEvent? && p.phase == phase && p.moduleName == name
  }

  /** Position j, and no other, holds the given hook. */
  ghost predicate OnlyAt(segment: seq<Event>, phase: Phase, name: string, j: int) {
    && 0 <= j < |segment| && Matches(segment[j].body.payload, phase, name)
    && forall l :: 0 <= l < |segment| && Matches(segment[l].body.payload, phase, name) ==> l == j
  }

  /** Exactly one event of the segment is the given hook. */
  ghost predicate OnlyOnce(segment: seq<Event>, phase: Phase, name: string) {
    exists j :: OnlyAt(segment, phase, name, j)
  }

  /** Hook events only, and each (phase, module) pair exactly once. */
  ghost predicate FullCoverage(c: Config, segment: seq<Event>, step: nat) {
    && (forall j :: 0 <= j < |segment| ==> IsHook(c, segment[j].body.payload, step))
    && (forall phase, i :: 0 <= i < |c.modules| ==> OnlyOnce(segment, phase, c.modules[i]))
  }

  /** Full coverage of one step followed by the event that seals it. */
  ghost predicate CompleteBlock(c: Config, block: seq<Event>, step: nat) {
    && |block| == 2 * |c.modules| + 1
    && FullCoverage(c, block[..2 * |c.modules|], step)
    && block[2 * |c.modules|].body.payload.StepEvent?
    && block[2 * |c.modules|].body.payload.step == step
  }

  function Start(c: Config, step: nat): nat {
    RequiredEvents(|c.modules|, step)
  }

  lemma StartNext(c: Config, step: nat)
    ensures Start(c, step + 1) == Start(c, step) + 2 * |c.modules| + 1
  {
    assert (step + 1) * (2 * |c.modules| + 1) == step * (2 * |c.modules| + 1) + (2 * |c.modules| + 1);
  }

  lemma {:induction false} StartMonotone(c: Config, k: nat, l: nat)
    requires k <= l
    ensures Start(c, k) <= Start(c, l)
    ensures k < l ==> Start(c, k + 1) <= Start(c, l)
    decreases l - k
  {
    hide Start;
    if k < l {
      StartNext(c, l - 1);
      StartMonotone(c, k, l - 1);
    }
  }

  ghost predicate BlockAt(c: Config, events: seq<Event>, k: nat) {
    Start(c, k) <= Start(c, k + 1) <= |events| && CompleteBlock(c, events[Start(c, k)..Start(c, k + 1)], k)
  }

  /** The events before `Start(steps)` are complete blocks, one per sealed step. */
  ghost predicate Blocks(c: Config, events: seq<Event>, steps: nat) {
    forall k: nat :: k < steps ==> BlockAt(c, events, k)
  }

  // ---- Counting one step's hooks ---------------------------------------------------

  function Hits(segment: seq<Event>, phase: Phase, name: string): nat {
    if segment == [] then 0
    else
      var last := |segment| - 1;
      Hits(segment[..last], phase, name) + if Matches(segment[last].body.payload, phase, name) then 1 else 0
  }

  lemma {:induction false} NoHits(segment: seq<Event>, phase: Phase, name: string)
    requires Hits(segment, phase, name) == 0
    ensures forall j :: 0 <= j < |segment| ==> !Matches(segment[j].body.payload, phase, name)
  {
    if segment != [] {
      var last := |segment| - 1;
      NoHits(segment[..last], phase, name);
      forall j | 0 <= j < |segment| ensures !Matches(segment[j].body.payload, phase, name) {
        if j < last {
          assert segment[..last][j] == segment[j];
        }
      }
    }
  }

  lemma {:induction false} OneHit(segment: seq<Event>, phase: Phase, name: string) returns (j: int)
    requires Hits(segment, phase, name) == 1
    ensures OnlyAt(segment, phase, name, j)
  {
    var last := |segment| - 1;
    var before := segment[..last];
    assert forall l :: 0 <= l < last ==> before[l] == segment[l];
    if Matches(segment[last].body.payload, phase, name) {
      NoHits(before, phase, name);
      j := last;
    } else {
      j := OneHit(before, phase, name);
    }
    hide Matches;
    forall l | 0 <= l < |segment| && Matches(segment[l].body.payload, phase, name) ensures l == j {
      if l < last {
        assert before[l] == segment[l];
      }
    }
  }

  function IndexOf(names: seq<string>, name: string): (i: nat)
    requires name in names
    ensures i < |names| && names[i] == name
  {
    if names[0] == name then 0 else IndexOf(names[1..], name) + 1
  }

  /** A number below 2m for each (phase, module) pair. */
  function PairCode(c: Config, p: Payload): nat
    requires p.HookEvent? && p.moduleName in c.modules
  {
    2 * IndexOf(c.modules, p.moduleName) + if p.phase.Forward? then 0 else 1
  }

  /** Full coverage needs exactly 2m events. */
  lemma FullCoverageSize(c: Config, segment: seq<Event>, step: nat)
    requires Distinct(c.modules) && FullCoverage(c, segment, step)
    ensures |segment| == 2 * |c.modules|
  {
    NotMoreThanPairs(c, segment, step);
    NotFewerThanPairs(c, segment, step);
  }

  lemma NotMoreThanPairs(c: Config, segment: seq<Event>, step: nat)
    requires FullCoverage(c, segment, step)
    ensures |segment| <= 2 * |c.modules|
  {
    assert forall j :: 0 <= j < |segment| ==> IsHook(c, segment[j].body.payload, step);
    var labels := seq(|segment|, j requires 0 <= j < |segment| => PairCode(c, segment[j].body.payload) as int);
    forall i, j | 0 <= i < j < |labels| ensures labels[i] != labels[j] {
      if PairCode(c, segment[i].body.payload) == PairCode(c, segment[j].body.payload) {
        SamePair(c, segment, step, i, j);
      }
    }
    DistinctLabelsFit(labels, 2 * |c.modules|);
  }

  /** Two positions of a covered segment never hold the same pair. */
  lemma SamePair(c: Config, segment: seq<Event>, step: nat, i: nat, j: nat)
    requires FullCoverage(c, segment, step) && i < |segment| && j < |segment|
    requires IsHook(c, segment[i].body.payload, step) && IsHook(c, segment[j].body.payload, step)
    requires PairCode(c, segment[i].body.payload) == PairCode(c, segment[j].body.payload)
    ensures i == j
  {
    var p, q := segment[i].body.payload, segment[j].body.payload;
    var name := c.modules[IndexOf(c.modules, p.moduleName)];
    assert Matches(p, p.phase, name) && Matches(q, p.phase, name);
    assert OnlyOnce(segment, p.phase, name);
  }

  ghost function PositionOf(c: Config, segment: seq<Event>, step: nat, code: nat): (j: int)
    requires FullCoverage(c, segment, step) && code < 2 * |c.modules|
    ensures OnlyAt(segment, PhaseOf(code), c.modules[code / 2], j)
  {
    assert OnlyOnce(segment, PhaseOf(code), c.modules[code / 2]);
    var j :| OnlyAt(segment, PhaseOf(code), c.modules[code / 2], j);
    j
  }

  function PhaseOf(code: nat): Phase {
    if code % 2 == 0 then Forward else Backward
  }

  lemma NotFewerThanPairs(c: Config, segment: seq<Event>, step: nat)
    requires Distinct(c.modules) && FullCoverage(c, segment, step)
    ensures |segment| >= 2 * |c.modules|
  {
    var labels := seq(2 * |c.modules|, q requires 0 <= q < 2 * |c.modules| => PositionOf(c, segment, step, q));
    forall a, b | 0 <= a < b < |labels| ensures labels[a] != labels[b] {
      if labels[a] == labels[b] {
        DifferentPairs(c, segment, step, a, b, labels[a]);
      }
    }
    DistinctLabelsFit(labels, |segment|);
  }

  lemma DifferentPairs(c: Config, segment: seq<Event>, step: nat, a: nat, b: nat, j: int)
    requires Distinct(c.modules) && a < 2 * |c.modules| && b < 2 * |c.modules|
    requires OnlyAt(segment, PhaseOf(a), c.modules[a / 2], j) && OnlyAt(segment, PhaseOf(b), c.modules[b / 2], j)
    ensures a == b
  {
    assert c.modules[a / 2] == c.modules[b / 2];
  }

  // ---- The invariant ---------------------------------------------------------------

  ghost predicate CleanPayload(p: Payload) {
    match p
    case HookEvent(_, _, _, stats) => stats.elements > 0 && stats.nonfinite == 0
    case StepEvent(_, loss, gradients, coverage, _, _, _) =>
      loss.Some? && gradients.elements > 0 && IsCompleteGradient(coverage) && gradients.nonfinite == 0
  }

  ghost predicate Clean(events: seq<Event>) {
    forall i :: 0 <= i < |events| ==> CleanPayload(events[i].body.payload)
  }

  /** The open step: only its own hooks after the last seal, counted by `phaseCounts`. */
  ghost predicate OpenStep(c: Config, s: State) {
    && Start(c, s.steps) <= |s.events|
    && (forall i :: Start(c, s.steps) <= i < |s.events| ==> IsHook(c, s.events[i].body.payload, s.steps))
    && (forall phase, i :: 0 <= i < |c.modules| ==>
          Count(s.phaseCounts, Key(s.steps, phase, c.modules[i]))
            == Hits(s.events[Start(c, s.steps)..], phase, c.modules[i]))
  }

  /** Sealed steps were counted exactly once everywhere, and no later step was counted. */
  ghost predicate SealedCounts(c: Config, s: State) {
    && (forall k: nat, phase, i :: k < s.steps && 0 <= i < |c.modules| ==>
          Count(s.phaseCounts, Key(k, phase, c.modules[i])) == 1)
    && (forall key :: key in s.phaseCounts ==> key.step <= s.steps)
  }

  ghost predicate Structured(c: Config, s: State) {
    Blocks(c, s.events, s.steps) && OpenStep(c, s) && SealedCounts(c, s)
  }

  ghost predicate Chained(c: Config, digest: EventBody -> Digest, s: State) {
    WellChained(digest, c.genesis, s.events) && s.head == HeadOf(c.genesis, s.events)
  }

  /** Everything a published report certifies. */
  ghost predicate Certified(c: Config, digest: EventBody -> Digest, r: Report) {
    && r.modules == c.modules && r.genesis == c.genesis && r.eventCap == c.eventCap
    && r.expectedSteps == r.observedSteps >= 1
    && (c.expectedSteps.Some? ==> r.expectedSteps == c.expectedSteps.value)
    && |r.events| == Start(c, r.expectedSteps) <= c.eventCap
    && Blocks(c, r.events, r.expectedSteps)
    && Clean(r.events)
    && WellChained(digest, c.genesis, r.events) && r.head == HeadOf(c.genesis, r.events)
    && |r.perModule| == |c.modules|
    && forall i :: 0 <= i < |c.modules| ==>
         r.perModule[i] == ModuleCoverage(c.modules[i], r.expectedSteps, r.expectedSteps)
  }

  ghost predicate ReportMatches(c: Config, digest: EventBody -> Digest, s: State) {
    s.report.Some? ==>
      && Certified(c, digest, s.report.value)
      && s.report.value.events == s.events && s.report.value.head == s.head
      && s.entered && !s.active && s.finalized && s.handles == []
  }

  ghost predicate Bounded(c: Config, s: State) {
    && |s.events| <= c.eventCap
    && s.installed == s.removed + |s.handles|
    && (c.expectedSteps.Some? ==> s.steps <= c.expectedSteps.value)
    && (!s.entered ==> !s.active && s.handles == [] && s.removed == 0)
    && (s.finalized <==> s.report.Some?)
  }

  /** The invariant apart from cleanliness. */
  ghost predicate Core(c: Config, digest: EventBody -> Digest, s: State) {
    && Bounded(c, s)
    && Chained(c, digest, s)
    && (!s.capExceeded ==> Structured(c, s))
    && ReportMatches(c, digest, s)
  }

  ghost predicate CleanUnlessFailed(s: State) {
    s.coverageFailures == 0 && s.nonfinite == 0 ==> Clean(s.events)
  }

  ghost predicate Inv(c: Config, digest: EventBody -> Digest, s: State) {
    Core(c, digest, s) && CleanUnlessFailed(s)
  }

  lemma InitialInv(c: Config, digest: EventBody -> Digest)
    ensures Inv(c, digest, Initial(c))
  {
  }

  // ---- Preservation ----------------------------------------------------------------

  /** The part of the state that the ledger structure speaks about. */
  ghost predicate SameLedger(s: State, t: State) {
    t.events == s.events && t.head == s.head && t.phaseCounts == s.phaseCounts && t.steps == s.steps
  }

  lemma SameLedgerStructured(c: Config, s: State, t: State)
    requires SameLedger(s, t) && Structured(c, s)
    ensures Structured(c, t)
  {
  }

  /** Raising failure flags, and nothing else. */
  ghost predicate OnlyFlags(s: State, t: State) {
    && t == s.(coverageFailures := t.coverageFailures, nonfinite := t.nonfinite, capExceeded := t.capExceeded)
    && t.coverageFailures >= s.coverageFailures && t.nonfinite >= s.nonfinite && (s.capExceeded ==> t.capExceeded)
  }

  lemma FlagsKeepCore(c: Config, digest: EventBody -> Digest, s: State, t: State)
    requires Core(c, digest, s) && OnlyFlags(s, t)
    ensures Core(c, digest, t)
  {
    hide Structured, Certified, WellChained;
    if !s.capExceeded {
      SameLedgerStructured(c, s, t);
    }
  }

  lemma FlagsKeepInv(c: Config, digest: EventBody -> Digest, s: State, t: State)
    requires Inv(c, digest, s) && OnlyFlags(s, t)
    ensures Inv(c, digest, t)
  {
    FlagsKeepCore(c, digest, s, t);
    hide Core, Clean;
  }

  lemma CloseKeepsInv(c: Config, digest: EventBody -> Digest, s: State, stuck: set<nat>)
    requires Inv(c, digest, s)
    ensures Inv(c, digest, Close(s, stuck).0)
    ensures SameLedger(s, Close(s, stuck).0) && !Close(s, stuck).0.active
  {
    hide Structured, Certified, Clean, WellChained;
    if !s.capExceeded {
      SameLedgerStructured(c, s, Close(s, stuck).0);
    }
  }

  lemma ActivateKeepsInv(c: Config, digest: EventBody -> Digest, s: State, wanted: nat)
    requires Inv(c, digest, s) && !s.active && s.removed == 0 && s.handles == [] && s.entered && s.report.None?
    ensures Inv(c, digest, Activate(s, wanted))
  {
    hide Structured, Certified, Clean, WellChained;
    if !s.capExceeded {
      SameLedgerStructured(c, s, Activate(s, wanted));
    }
  }

  /** Entering, and entering with only failures to show for it. */
  lemma MarkEnteredKeepsInv(c: Config, digest: EventBody -> Digest, s: State, t: State)
    requires Inv(c, digest, s) && !s.entered
    requires t == s.(entered := true, capExceeded := t.capExceeded, cleanupFailures := t.cleanupFailures)
    requires s.capExceeded ==> t.capExceeded
    ensures Inv(c, digest, t)
    ensures !t.active && t.removed == 0 && t.handles == [] && t.report.None?
  {
    hide Structured, Certified, Clean, WellChained;
    if !s.capExceeded {
      SameLedgerStructured(c, s, t);
    }
  }

  lemma EnterKeepsInv(c: Config, digest: EventBody -> Digest, s: State, entry: Entry)
    requires Inv(c, digest, s)
    ensures Inv(c, digest, Enter(c, s, entry).0)
  {
    if !s.entered && !s.finalized {
      var t := s.(entered := true);
      var wanted := 2 * |c.modules|;
      MarkEnteredKeepsInv(c, digest, s, t);
      hide Inv, RequiredEvents, Range, Close, Stuck;
      var result := Enter(c, s, entry).0;
      if result == Activate(t, wanted) || result == Close(Activate(t, wanted), entry.stuck).0 {
        ActivateKeepsInv(c, digest, t, wanted);
        CloseKeepsInv(c, digest, Activate(t, wanted), entry.stuck);
      } else {
        MarkEnteredKeepsInv(c, digest, s, result);
      }
    }
  }

  /** Appending behind the last seal leaves the sealed blocks alone. */
  lemma BlocksKept(c: Config, events: seq<Event>, event: Event, steps: nat)
    requires Blocks(c, events, steps)
    ensures Blocks(c, events + [event], steps)
  {
    hide CompleteBlock, Start;
    forall k: nat | k < steps
      ensures BlockAt(c, events + [event], k)
    {
      assert BlockAt(c, events, k);
      assert (events + [event])[Start(c, k)..Start(c, k + 1)] == events[Start(c, k)..Start(c, k + 1)];
    }
  }

  lemma HitsAppend(segment: seq<Event>, event: Event, phase: Phase, name: string)
    ensures Hits(segment + [event], phase, name)
         == Hits(segment, phase, name) + if Matches(event.body.payload, phase, name) then 1 else 0
  {
    assert (segment + [event])[..|segment|] == segment;
  }

  /** Recording a hook keeps the structure of an uncapped ledger. */
  lemma HookKeepsStructure(c: Config, s: State, t: State, event: Event, phase: Phase, moduleIndex: nat)
    requires Structured(c, s) && moduleIndex < |c.modules|
    requires t.events == s.events + [event] && t.steps == s.steps
    requires IsHook(c, event.body.payload, s.steps) && Matches(event.body.payload, phase, c.modules[moduleIndex])
    requires var key := Key(s.steps, phase, c.modules[moduleIndex]);
      t.phaseCounts == s.phaseCounts[key := Count(s.phaseCounts, key) + 1]
    ensures Structured(c, t)
  {
    BlocksKept(c, s.events, event, s.steps);
    HookKeepsOpenStep(c, s, t, event, phase, moduleIndex);
    hide Blocks, OpenStep;
  }

  lemma HookKeepsOpenStep(c: Config, s: State, t: State, event: Event, phase: Phase, moduleIndex: nat)
    requires OpenStep(c, s) && moduleIndex < |c.modules|
    requires t.events == s.events + [event] && t.steps == s.steps
    requires IsHook(c, event.body.payload, s.steps) && Matches(event.body.payload, phase, c.modules[moduleIndex])
    requires var key := Key(s.steps, phase, c.modules[moduleIndex]);
      t.phaseCounts == s.phaseCounts[key := Count(s.phaseCounts, key) + 1]
    ensures OpenStep(c, t)
  {
    var start := Start(c, s.steps);
    hide Start, Hits;
    assert t.events[start..] == s.events[start..] + [event];
    forall p, i | 0 <= i < |c.modules|
      ensures Count(t.phaseCounts, Key(t.steps, p, c.modules[i])) == Hits(t.events[start..], p, c.modules[i])
    {
      HitsAppend(s.events[start..], event, p, c.modules[i]);
    }
  }

  lemma HookKeepsCore(c: Config, digest: EventBody -> Digest, s: State, phase: Phase, moduleIndex: nat, stats: Stats)
    requires Core(c, digest, s) && moduleIndex < |c.modules| && s.active && |s.events| < c.eventCap
    ensures
      var name := c.modules[moduleIndex];
      var key := Key(s.steps, phase, name);
      var counted := s.(phaseCounts := s.phaseCounts[key := Count(s.phaseCounts, key) + 1]);
      Core(c, digest, Append(c, digest, counted, HookEvent(phase, s.steps, name, stats)).0)
  {
    var name := c.modules[moduleIndex];
    var payload := HookEvent(phase, s.steps, name, stats);
    var key := Key(s.steps, phase, name);
    var counted := s.(phaseCounts := s.phaseCounts[key := Count(s.phaseCounts, key) + 1]);
    var t := Append(c, digest, counted, payload).0;
    var event := Sealed(digest, s.head, |s.events|, payload);
    AppendKeepsChain(digest, c.genesis, s.events, payload);
    if !s.capExceeded {
      HookKeepsStructure(c, s, t, event, phase, moduleIndex);
    }
    hide Structured, WellChained, Certified;
  }

  lemma CappedHookKeepsCore(c: Config, digest: EventBody -> Digest, s: State, counts: map<Key, nat>)
    requires Core(c, digest, s) && s.active
    ensures Core(c, digest, s.(phaseCounts := counts, capExceeded := true))
  {
    hide Structured, WellChained, Certified;
  }

  lemma CleanAppend(events: seq<Event>, event: Event)
    requires Clean(events) && CleanPayload(event.body.payload)
    ensures Clean(events + [event])
  {
  }

  lemma JudgeHookKeepsInv(c: Config, digest: EventBody -> Digest, s: State, t: State, event: Event, stats: Stats)
    requires CleanUnlessFailed(s) && Core(c, digest, t)
    requires t.coverageFailures == s.coverageFailures && t.nonfinite == s.nonfinite && t.events == s.events + [event]
    requires event.body.payload.HookEvent? && event.body.payload.stats == stats
    ensures Inv(c, digest, JudgeHook(t, stats).0)
  {
    hide Core;
    var u := JudgeHook(t, stats).0;
    assert OnlyFlags(t, u);
    FlagsKeepCore(c, digest, t, u);
    if u.coverageFailures == 0 && u.nonfinite == 0 {
      CleanAppend(s.events, event);
    }
    hide Clean;
  }

  lemma HookKeepsInv(c: Config, digest: EventBody -> Digest, s: State, phase: Phase, moduleIndex: nat, reading: Reading)
    requires Inv(c, digest, s) && moduleIndex < |c.modules|
    ensures Inv(c, digest, Hook(c, digest, s, phase, moduleIndex, reading).0)
  {
    hide Core, Clean;
    if !s.active || reading.Unread? || (c.expectedSteps.Some? && s.steps >= c.expectedSteps.value) {
      hide Inv;
      var t := Hook(c, digest, s, phase, moduleIndex, reading).0;
      assert OnlyFlags(s, t);
      FlagsKeepInv(c, digest, s, t);
    } else {
      CountedHookKeepsInv(c, digest, s, phase, moduleIndex, reading);
    }
  }

  lemma CountedHookKeepsInv(c: Config, digest: EventBody -> Digest, s: State, phase: Phase, moduleIndex: nat,
                            reading: Reading)
    requires Inv(c, digest, s) && moduleIndex < |c.modules|
    requires s.active && reading.Read? && (c.expectedSteps.Some? ==> s.steps < c.expectedSteps.value)
    ensures Inv(c, digest, Hook(c, digest, s, phase, moduleIndex, reading).0)
  {
    hide Core, Clean;
    var name := c.modules[moduleIndex];
    var key := Key(s.steps, phase, name);
    var counted := s.(phaseCounts := s.phaseCounts[key := Count(s.phaseCounts, key) + 1]);
    var payload := HookEvent(phase, s.steps, name, reading.stats);
    if |s.events| >= c.eventCap {
      CappedHookKeepsCore(c, digest, s, counted.phaseCounts);
    } else {
      HookKeepsCore(c, digest, s, phase, moduleIndex, reading.stats);
      JudgeHookKeepsInv(c, digest, s, Append(c, digest, counted, payload).0,
                        Sealed(digest, s.head, |s.events|, payload), reading.stats);
      hide JudgeHook;
    }
  }

  /** No coverage problem means every cell of the open step was counted once. */
  lemma {:induction false} NoProblemsCounts(c: Config, s: State, n: nat)
    requires n <= |c.modules| && CoverageProblems(c, s, n) == 0
    ensures forall phase, i :: 0 <= i < n ==> Count(s.phaseCounts, Key(s.steps, phase, c.modules[i])) == 1
  {
    if n > 0 {
      NoProblemsCounts(c, s, n - 1);
      forall phase, i | 0 <= i < n ensures Count(s.phaseCounts, Key(s.steps, phase, c.modules[i])) == 1 {
        if i == n - 1 {
          match phase {
            case Forward =>
            case Backward =>
          }
        }
      }
    }
  }

  /** When `step` accepts the coverage, the open step is a full block without its seal. */
  lemma OpenStepIsFull(c: Config, s: State)
    requires Distinct(c.modules) && OpenStep(c, s) && CoverageProblems(c, s, |c.modules|) == 0
    ensures FullCoverage(c, s.events[Start(c, s.steps)..], s.steps)
    ensures |s.events| == Start(c, s.steps) + 2 * |c.modules|
  {
    NoProblemsCounts(c, s, |c.modules|);
    hide Start, CoverageProblems;
    var segment := s.events[Start(c, s.steps)..];
    forall phase, i | 0 <= i < |c.modules| ensures OnlyOnce(segment, phase, c.modules[i]) {
      var j := OneHit(segment, phase, c.modules[i]);
    }
    FullCoverageSize(c, segment, s.steps);
  }

  /** Sealing a full step opens the next one. */
  lemma SealKeepsStructure(c: Config, s: State, t: State, event: Event)
    requires Structured(c, s) && Distinct(c.modules) && CoverageProblems(c, s, |c.modules|) == 0
    requires t.events == s.events + [event] && t.steps == s.steps + 1 && t.phaseCounts == s.phaseCounts
    requires event.body.payload.StepEvent? && event.body.payload.step == s.steps
    ensures Structured(c, t)
  {
    OpenStepIsFull(c, s);
    NoProblemsCounts(c, s, |c.modules|);
    StartNext(c, s.steps);
    BlocksKept(c, s.events, event, s.steps);
    SealedBlock(c, s, t, event);
    hide Start, CoverageProblems, BlockAt;
    assert Blocks(c, t.events, t.steps) by {
      forall k: nat | k < t.steps ensures BlockAt(c, t.events, k) {
        assert k < s.steps ==> BlockAt(c, t.events, k);
      }
    }
    assert |t.events| == Start(c, t.steps);
    assert t.events[Start(c, t.steps)..] == [];
    assert OpenStep(c, t);
    assert SealedCounts(c, t);
  }

  lemma SealedBlock(c: Config, s: State, t: State, event: Event)
    requires |s.events| == Start(c, s.steps) + 2 * |c.modules|
    requires FullCoverage(c, s.events[Start(c, s.steps)..], s.steps)
    requires t.events == s.events + [event]
    requires event.body.payload.StepEvent? && event.body.payload.step == s.steps
    ensures BlockAt(c, t.events, s.steps)
  {
    StartNext(c, s.steps);
    hide Start, FullCoverage;
    var block := t.events[Start(c, s.steps)..Start(c, s.steps + 1)];
    assert block[..2 * |c.modules|] == s.events[Start(c, s.steps)..];
    assert block[2 * |c.modules|] == event;
  }

  lemma SealKeepsCore(c: Config, digest: EventBody -> Digest, s: State, payload: Payload)
    requires Core(c, digest, s) && Distinct(c.modules) && s.active && |s.events| < c.eventCap
    requires CoverageProblems(c, s, |c.modules|) == 0
    requires c.expectedSteps.Some? ==> s.steps < c.expectedSteps.value
    requires payload.StepEvent? && payload.step == s.steps
    ensures
      var t := Append(c, digest, s, payload).0;
      Core(c, digest, t.(steps := t.steps + 1))
  {
    var t := Append(c, digest, s, payload).0;
    var u := t.(steps := t.steps + 1);
    AppendKeepsChain(digest, c.genesis, s.events, payload);
    if !s.capExceeded {
      SealKeepsStructure(c, s, u, Sealed(digest, s.head, |s.events|, payload));
    }
    hide Structured, WellChained, Certified, CoverageProblems;
  }

  lemma StepKeepsInv(c: Config, digest: EventBody -> Digest, s: State, a: StepArgs)
    requires Inv(c, digest, s) && Distinct(c.modules)
    ensures Inv(c, digest, Step(c, digest, s, a).0)
  {
    hide Inv, StepArgumentError, CoverageProblems, ReadAndSeal;
    if StepArgumentError(s, a).Some? || CoverageProblems(c, s, |c.modules|) > 0
       || (c.expectedSteps.Some? && s.steps >= c.expectedSteps.value)
    {
      var t := Step(c, digest, s, a).0;
      assert OnlyFlags(s, t);
      FlagsKeepInv(c, digest, s, t);
    } else {
      RefusesInactive(s, a);
      ReadAndSealKeepsInv(c, digest, s, a);
    }
  }

  lemma ReadAndSealKeepsInv(c: Config, digest: EventBody -> Digest, s: State, a: StepArgs)
    requires Inv(c, digest, s) && Distinct(c.modules) && s.active && StepArgumentError(s, a).None?
    requires CoverageProblems(c, s, |c.modules|) == 0
    requires c.expectedSteps.Some? ==> s.steps < c.expectedSteps.value
    ensures Inv(c, digest, ReadAndSeal(c, digest, s, a).0)
  {
    hide Inv, StepArgumentError, StepReadingError, CoverageProblems, StepPayload, JudgeStep;
    if StepReadingError(a).None? {
      StepPayloadIsStep(s, a);
      if |s.events| >= c.eventCap {
        FlagsKeepInv(c, digest, s, ReadAndSeal(c, digest, s, a).0);
      } else {
        SealStepKeepsInv(c, digest, s, StepPayload(s, a));
      }
    }
  }

  lemma StepPayloadIsStep(s: State, a: StepArgs)
    requires StepArgumentError(s, a).None? && StepReadingError(a).None?
    ensures StepPayload(s, a).StepEvent? && StepPayload(s, a).step == s.steps
  {
  }

  lemma RefusesInactive(s: State, a: StepArgs)
    requires StepArgumentError(s, a).None?
    ensures s.active
  {
  }

  lemma SealStepKeepsInv(c: Config, digest: EventBody -> Digest, s: State, payload: Payload)
    requires Inv(c, digest, s) && Distinct(c.modules) && s.active && |s.events| < c.eventCap
    requires CoverageProblems(c, s, |c.modules|) == 0
    requires c.expectedSteps.Some? ==> s.steps < c.expectedSteps.value
    requires payload.StepEvent? && payload.step == s.steps
    ensures var t := Append(c, digest, s, payload).0; Inv(c, digest, JudgeStep(t.(steps := t.steps + 1), payload).0)
  {
    SealKeepsCore(c, digest, s, payload);
    hide Core, Clean;
    var t := Append(c, digest, s, payload).0;
    JudgeStepKeepsInv(c, digest, s, t.(steps := t.steps + 1), Sealed(digest, s.head, |s.events|, payload), payload);
  }

  lemma JudgeStepKeepsInv(c: Config, digest: EventBody -> Digest, s: State, u: State, event: Event, payload: Payload)
    requires CleanUnlessFailed(s) && Core(c, digest, u)
    requires u.coverageFailures == s.coverageFailures && u.nonfinite == s.nonfinite && u.events == s.events + [event]
    requires payload.StepEvent? && event.body.payload == payload
    ensures Inv(c, digest, JudgeStep(u, payload).0)
  {
    hide Core, Clean;
    var v := JudgeStep(u, payload).0;
    JudgementRaisesFlags(u, payload);
    FlagsKeepCore(c, digest, u, v);
    if v.coverageFailures == 0 && v.nonfinite == 0 {
      CleanAppend(s.events, event);
    }
  }

  lemma FaultsOfUnclean(payload: Payload)
    requires payload.StepEvent?
    ensures StepFault(payload).None? ==> CleanPayload(payload)
    ensures StepFault(payload).Some? ==> StepFault(payload).value.coverage > 0 || StepFault(payload).value.nonfinite > 0
  {
  }

  lemma JudgementRaisesFlags(u: State, payload: Payload)
    requires payload.StepEvent? && u.events != []
    ensures OnlyFlags(u, JudgeStep(u, payload).0)
    ensures var v := JudgeStep(u, payload).0; v.coverageFailures == 0 && v.nonfinite == 0 ==> CleanPayload(payload)
  {
    FaultsOfUnclean(payload);
    hide StepFault, CleanPayload;
  }

  // ---- Finalization ----------------------------------------------------------------

  /** Some failure is on record. */
  predicate Failed(s: State) {
    s.capExceeded || s.coverageFailures > 0 || s.nonfinite > 0 || s.aborted || s.cleanupFailures > 0
  }

  lemma {:induction false} SealedTotals(c: Config, s: State, phase: Phase, i: nat, n: nat)
    requires SealedCounts(c, s) && i < |c.modules| && n <= s.steps
    ensures PhaseTotal(s.phaseCounts, phase, c.modules[i], n) == n
  {
    if n > 0 {
      SealedTotals(c, s, phase, i, n - 1);
      assert Count(s.phaseCounts, Key(n - 1, phase, c.modules[i])) == 1;
    }
  }

  lemma SealedCoverage(c: Config, s: State)
    requires SealedCounts(c, s)
    ensures forall i :: 0 <= i < |c.modules| ==>
      Coverage(c, s, s.steps)[i] == ModuleCoverage(c.modules[i], s.steps, s.steps)
  {
    hide SealedCounts, PhaseTotal;
    forall i | 0 <= i < |c.modules|
      ensures Coverage(c, s, s.steps)[i] == ModuleCoverage(c.modules[i], s.steps, s.steps)
    {
      SealedTotals(c, s, Forward, i, s.steps);
      SealedTotals(c, s, Backward, i, s.steps);
    }
  }

  /** In every reachable state the checks of `finalize` come down to these: the others -
      capacity, chain replay, per-module totals - can never fail. */
  ghost predicate ReadyToReport(c: Config, s: State, steps: nat) {
    && !Failed(s) && s.handles == []
    && steps == s.steps >= 1
    && |s.events| == Start(c, s.steps)
  }

  lemma FinalErrorExactly(c: Config, digest: EventBody -> Digest, s: State, steps: nat)
    requires Inv(c, digest, s)
    ensures FinalError(c, digest, s, steps).None? <==> ReadyToReport(c, s, steps)
  {
    hide WellChained, RequiredEvents, Structured, Clean, Certified;
    if ReadyToReport(c, s, steps) {
      StructuredCoverage(c, s);
    }
  }

  lemma StructuredCoverage(c: Config, s: State)
    requires Structured(c, s)
    ensures forall i :: 0 <= i < |c.modules| ==>
      Coverage(c, s, s.steps)[i] == ModuleCoverage(c.modules[i], s.steps, s.steps)
  {
    SealedCoverage(c, s);
  }

  lemma ReportIsCertified(c: Config, digest: EventBody -> Digest, s: State)
    requires Inv(c, digest, s) && ReadyToReport(c, s, s.steps)
    requires c.expectedSteps.Some? ==> c.expectedSteps.value == s.steps
    ensures Certified(c, digest, MakeReport(c, s, s.steps))
  {
    StructuredCoverage(c, s);
    hide WellChained, Clean, SealedCounts, OpenStep, Blocks, Start;
    assert Start(c, s.steps) <= c.eventCap;
  }

  lemma PublishKeepsInv(c: Config, digest: EventBody -> Digest, s: State, report: Report)
    requires Inv(c, digest, s) && Certified(c, digest, report) && s.entered && !s.active && s.handles == []
    requires report.events == s.events && report.head == s.head
    ensures Inv(c, digest, s.(report := Some(report), finalized := true))
  {
    hide Structured, Certified, Clean, WellChained;
    if !s.capExceeded {
      SameLedgerStructured(c, s, s.(report := Some(report), finalized := true));
    }
  }

  lemma FinalizeKeepsInv(c: Config, digest: EventBody -> Digest, s: State, expectedSteps: Option<int>, stuck: set<nat>,
                         counted: bool)
    requires Inv(c, digest, s)
    ensures Inv(c, digest, Finalize(c, digest, s, expectedSteps, stuck, counted).0)
  {
    var expected := FinalExpectation(c, s, expectedSteps);
    CloseKeepsInv(c, digest, s, stuck);
    var t := Close(s, stuck).0;
    if s.entered && expected.Ok? && FinalError(c, digest, t, expected.value).None? {
      FinalErrorExactly(c, digest, t, expected.value);
      assert c.expectedSteps.Some? ==> c.expectedSteps.value == t.steps;
      ReportIsCertified(c, digest, t);
      assert t.entered;
      hide Inv, Certified, FinalError, ReadyToReport;
      PublishKeepsInv(c, digest, t, MakeReport(c, t, t.steps));
    } else {
      hide Inv, FinalError, Close;
    }
  }

  lemma ExitKeepsInv(c: Config, digest: EventBody -> Digest, s: State, failed: bool, stuck: set<nat>)
    requires Inv(c, digest, s)
    ensures Inv(c, digest, Exit(s, failed, stuck).0)
  {
    CloseKeepsInv(c, digest, s, stuck);
    var t := Close(s, stuck).0;
    hide Close, Structured, Certified, Clean, WellChained;
    if !t.capExceeded {
      SameLedgerStructured(c, t, t.(aborted := true));
    }
  }

  lemma ApplyKeepsInv(c: Config, digest: EventBody -> Digest, s: State, call: Call)
    requires Inv(c, digest, s) && ValidConfig(c) && Callable(c, call)
    ensures Inv(c, digest, Apply(c, digest, s, call).0)
  {
    hide Inv, Enter, Hook, Step, Close, Exit, Finalize;
    match call
    case CallEnter(entry) => EnterKeepsInv(c, digest, s, entry);
    case CallHook(phase, moduleIndex, reading) => HookKeepsInv(c, digest, s, phase, moduleIndex, reading);
    case CallStep(args) => StepKeepsInv(c, digest, s, args);
    case CallClose(stuck) => CloseKeepsInv(c, digest, s, stuck);
    case CallExit(failed, stuck) => ExitKeepsInv(c, digest, s, failed, stuck);
    case CallFinalize(expectedSteps, stuck, counted) => FinalizeKeepsInv(c, digest, s, expectedSteps, stuck, counted);
  }

  lemma {:induction false} RunKeepsInv(c: Config, digest: EventBody -> Digest, s: State, calls: seq<Call>)
    requires Inv(c, digest, s) && ValidConfig(c)
    requires forall i :: 0 <= i < |calls| ==> Callable(c, calls[i])
    ensures Inv(c, digest, Run(c, digest, s, calls))
    decreases |calls|
  {
    hide Inv, Apply;
    if calls != [] {
      ApplyKeepsInv(c, digest, s, calls[0]);
      RunKeepsInv(c, digest, Apply(c, digest, s, calls[0]).0, calls[1..]);
    }
  }

  /** One more call extends a run by its transition. */
  lemma {:induction false} RunAppend(c: Config, digest: EventBody -> Digest, s: State, calls: seq<Call>, call: Call)
    requires (forall i :: 0 <= i < |calls| ==> Callable(c, calls[i])) && Callable(c, call)
    ensures forall i :: 0 <= i < |calls + [call]| ==> Callable(c, (calls + [call])[i])
    ensures Run(c, digest, s, calls + [call]) == Apply(c, digest, Run(c, digest, s, calls), call).0
    decreases |calls|
  {
    hide Apply, Callable;
    if calls == [] {
      assert calls + [call] == [call] && [call][1..] == [];
    } else {
      assert (calls + [call])[1..] == calls[1..] + [call];
      RunAppend(c, digest, Apply(c, digest, s, calls[0]).0, calls[1..], call);
    }
  }

  // ---- Results over whole runs -----------------------------------------------------

  /** Every run of a fresh collector, whatever is called in whatever order: the ledger is
      bounded and chained, handles are conserved, and a report, if any, is certified -
      complete blocks for exactly the expected steps, clean, nothing after the last seal -
      and is about the ledger as it stands. */
  lemma EveryRunIsSafe(c: Config, digest: EventBody -> Digest, calls: seq<Call>)
    requires ValidConfig(c) && forall i :: 0 <= i < |calls| ==> Callable(c, calls[i])
    ensures
      var s := Run(c, digest, Initial(c), calls);
      && |s.events| <= c.eventCap
      && s.installed == s.removed + |s.handles|
      && WellChained(digest, c.genesis, s.events) && s.head == HeadOf(c.genesis, s.events)
      && (!s.capExceeded ==> Blocks(c, s.events, s.steps) && OpenStep(c, s))
      && (s.report.Some? ==> Certified(c, digest, s.report.value) && s.report.value.events == s.events)
  {
    InitialInv(c, digest);
    RunKeepsInv(c, digest, Initial(c), calls);
    hide Run, WellChained, Blocks, OpenStep, SealedCounts, Certified, Clean;
  }

  /** `finalize` publishes a report exactly when the run behind it was entered, the step
      counts agree, at least one step was sealed with no hook after it, nothing was ever
      recorded as a failure, every remaining handle can be removed, and the model's parameters can
      be counted for the report. */
  lemma FinalizeSucceedsExactly(c: Config, digest: EventBody -> Digest, calls: seq<Call>, expectedSteps: Option<int>,
                                stuck: set<nat>, counted: bool)
    requires ValidConfig(c) && forall i :: 0 <= i < |calls| ==> Callable(c, calls[i])
    requires Run(c, digest, Initial(c), calls).report.None?
    ensures
      var s := Run(c, digest, Initial(c), calls);
      Finalize(c, digest, s, expectedSteps, stuck, counted).0.report.Some?
      <==>
      && s.entered && !Failed(s) && Stuck(s.handles, stuck) == []
      && FinalExpectation(c, s, expectedSteps) == Ok(s.steps) && s.steps >= 1
      && |s.events| == Start(c, s.steps) && counted
  {
    InitialInv(c, digest);
    RunKeepsInv(c, digest, Initial(c), calls);
    FinalizeFromInvariant(c, digest, Run(c, digest, Initial(c), calls), expectedSteps, stuck, counted);
  }

  lemma FinalizeFromInvariant(c: Config, digest: EventBody -> Digest, s: State, expectedSteps: Option<int>,
                              stuck: set<nat>, counted: bool)
    requires Inv(c, digest, s) && s.report.None?
    ensures
      Finalize(c, digest, s, expectedSteps, stuck, counted).0.report.Some?
      <==>
      && s.entered && !Failed(s) && Stuck(s.handles, stuck) == []
      && FinalExpectation(c, s, expectedSteps) == Ok(s.steps) && s.steps >= 1
      && |s.events| == Start(c, s.steps) && counted
  {
    CloseKeepsInv(c, digest, s, stuck);
    var t := Close(s, stuck).0;
    var expected := FinalExpectation(c, s, expectedSteps);
    if expected.Ok? {
      FinalErrorExactly(c, digest, t, expected.value);
    }
    hide Inv, FinalError, Start, MakeReport;
  }

  /** A recorded failure with no report yet. */
  predicate Doomed(s: State) {
    Failed(s) && s.report.None?
  }

  lemma EnterAndFailure(c: Config, s: State, entry: Entry)
    ensures var (t, reply) := Enter(c, s, entry);
      && (Doomed(s) ==> Doomed(t)) && (Failed(s) ==> Failed(t))
      && (reply == Raised(CapError) || reply == Raised(CleanupError) ==> Failed(t))
  {
    hide RequiredEvents, Range;
  }

  lemma CloseAndFailure(s: State, stuck: set<nat>)
    ensures var (t, raised) := Close(s, stuck);
      (Doomed(s) ==> Doomed(t)) && (Failed(s) ==> Failed(t)) && (raised ==> Failed(t))
  {
    hide Stuck;
  }

  lemma JudgeHookAndFailure(u: State, stats: Stats)
    ensures var (t, reply) := JudgeHook(u, stats);
      (Doomed(u) ==> Doomed(t)) && (Failed(u) ==> Failed(t)) && (reply.Raised? ==> Failed(t))
  {
  }

  lemma JudgeStepAndFailure(u: State, payload: Payload)
    requires u.events != [] && payload.StepEvent?
    ensures var (t, reply) := JudgeStep(u, payload);
      (Doomed(u) ==> Doomed(t)) && (Failed(u) ==> Failed(t)) && (reply.Raised? ==> Failed(t))
  {
  }

  lemma HookAndFailure(c: Config, digest: EventBody -> Digest, s: State, phase: Phase, moduleIndex: nat,
                       reading: Reading)
    requires moduleIndex < |c.modules|
    ensures var (t, reply) := Hook(c, digest, s, phase, moduleIndex, reading);
      && (Doomed(s) ==> Doomed(t)) && (Failed(s) ==> Failed(t))
      && (s.active && reading.Read? && reply.Raised? ==> Failed(t))
  {
    hide JudgeHook, Append;
    if s.active && reading.Read? {
      var name := c.modules[moduleIndex];
      var key := Key(s.steps, phase, name);
      var counted := s.(phaseCounts := s.phaseCounts[key := Count(s.phaseCounts, key) + 1]);
      AppendAndFailure(c, digest, counted, HookEvent(phase, s.steps, name, reading.stats));
      JudgeHookAndFailure(Append(c, digest, counted, HookEvent(phase, s.steps, name, reading.stats)).0, reading.stats);
    }
  }

  lemma AppendAndFailure(c: Config, digest: EventBody -> Digest, s: State, payload: Payload)
    ensures var (t, full) := Append(c, digest, s, payload);
      (Doomed(s) ==> Doomed(t)) && (Failed(s) ==> Failed(t)) && (full ==> Failed(t))
  {
  }

  lemma StepAndFailure(c: Config, digest: EventBody -> Digest, s: State, a: StepArgs)
    ensures var (t, reply) := Step(c, digest, s, a);
      && (Doomed(s) ==> Doomed(t)) && (Failed(s) ==> Failed(t))
      && (StepArgumentError(s, a).None? && StepReadingError(a).None? && reply.Raised? ==> Failed(t))
  {
    hide Append, JudgeStep, StepArgumentError, StepReadingError, CoverageProblems, StepPayload;
    if StepArgumentError(s, a).None? && StepReadingError(a).None? {
      StepPayloadIsStep(s, a);
      SealedStepAndFailure(c, digest, s, StepPayload(s, a));
    }
  }

  lemma SealedStepAndFailure(c: Config, digest: EventBody -> Digest, s: State, payload: Payload)
    requires payload.StepEvent?
    ensures
      var (t, full) := Append(c, digest, s, payload);
      if full then (Doomed(s) ==> Doomed(t)) && (Failed(s) ==> Failed(t)) && Failed(t)
      else
        var (u, reply) := JudgeStep(t.(steps := t.steps + 1), payload);
        (Doomed(s) ==> Doomed(u)) && (Failed(s) ==> Failed(u)) && (reply.Raised? ==> Failed(u))
  {
    hide JudgeStep;
    if |s.events| < c.eventCap {
      var t := Append(c, digest, s, payload).0;
      JudgeStepAndFailure(t.(steps := t.steps + 1), payload);
    }
  }

  lemma FinalizeAndFailure(c: Config, digest: EventBody -> Digest, s: State, expectedSteps: Option<int>,
                           stuck: set<nat>, counted: bool)
    requires Doomed(s)
    ensures Doomed(Finalize(c, digest, s, expectedSteps, stuck, counted).0)
  {
    hide WellChained, RequiredEvents, Stuck, PhaseTotal, MakeReport;
  }

  /** No call clears a recorded failure or reports in spite of one. */
  lemma CallKeepsFailure(c: Config, digest: EventBody -> Digest, s: State, call: Call)
    requires Callable(c, call) && Doomed(s)
    ensures Doomed(Apply(c, digest, s, call).0)
  {
    hide Enter, Hook, Step, Finalize;
    match call
    case CallEnter(entry) => EnterAndFailure(c, s, entry);
    case CallHook(phase, moduleIndex, reading) => HookAndFailure(c, digest, s, phase, moduleIndex, reading);
    case CallStep(args) => StepAndFailure(c, digest, s, args);
    case CallClose(stuck) => CloseAndFailure(s, stuck);
    case CallExit(failed, stuck) => CloseAndFailure(s, stuck); hide Close;
    case CallFinalize(expectedSteps, stuck, counted) => FinalizeAndFailure(c, digest, s, expectedSteps, stuck, counted);
  }

  /** Sticky failure, from any state whatever: once a failure is on record before a report
      exists, no later sequence of calls ever produces a report. */
  lemma {:induction false} FailureIsForever(c: Config, digest: EventBody -> Digest, s: State, calls: seq<Call>)
    requires forall i :: 0 <= i < |calls| ==> Callable(c, calls[i])
    requires Doomed(s)
    ensures Doomed(Run(c, digest, s, calls))
    decreases |calls|
  {
    hide Apply, Doomed;
    if calls != [] {
      CallKeepsFailure(c, digest, s, calls[0]);
      FailureIsForever(c, digest, Apply(c, digest, s, calls[0]).0, calls[1..]);
    }
  }

  // ---- Raises without a record -----------------------------------------------------

  /** The step count leaves room for another step. */
  predicate BelowExpected(c: Config, s: State) {
    c.expectedSteps.Some? ==> s.steps < c.expectedSteps.value
  }

  /** Registration is undone completely, the clock raises with the hooks in place, or its first reading
      is refused with every handle removed. */
  predicate RollsBackCleanly(c: Config, entry: Entry) {
    var wanted := 2 * |c.modules|;
    if entry.registrationFailsAt.Some? && entry.registrationFailsAt.value < wanted
    then Stuck(Range(entry.registrationFailsAt.value), entry.stuck) == []
    else entry.clock.ClockRaises? || (entry.clock.NonFiniteClock? && Stuck(Range(wanted), entry.stuck) == [])
  }

  predicate EnterLeavesNoRecord(c: Config, s: State, entry: Entry) {
    || s.entered || s.finalized
    || entry.known.None?
    || (exists i :: 0 <= i < |c.modules| && c.modules[i] !in entry.known.value)
    || ((c.expectedSteps.Some? ==> RequiredEvents(|c.modules|, c.expectedSteps.value) <= c.eventCap)
        && RollsBackCleanly(c, entry))
  }

  predicate HookLeavesNoRecord(c: Config, s: State, reading: Reading) {
    !s.active || (reading.Unread? && BelowExpected(c, s))
  }

  predicate StepLeavesNoRecord(c: Config, s: State, a: StepArgs) {
    || StepArgumentError(s, a).Some?
    || (BelowExpected(c, s) && CoverageProblems(c, s, |c.modules|) == 0 && StepReadingError(a).Some?)
  }

  /** A report that disagrees with the expectation; or, without a report, a collector that was never
      entered, an expectation that disagrees with the constructor's, or - every handle removed - a
      run that is not complete at the expected step, or parameters that cannot be counted. */
  predicate FinalizeLeavesNoRecord(c: Config, s: State, expectedSteps: Option<int>, stuck: set<nat>, counted: bool) {
    if expectedSteps.Some? && expectedSteps.value < 1 then true
    else if s.report.Some? then expectedSteps.Some? && expectedSteps.value != s.report.value.expectedSteps
    else if !s.entered then true
    else
      match FinalExpectation(c, s, expectedSteps)
      case Err(_) => true
      case Ok(expected) =>
        Stuck(s.handles, stuck) == [] && !(expected == s.steps >= 1 && |s.events| == Start(c, s.steps) && counted)
  }

  /** The conditions, all readable before the call, under which a call raises and leaves no failure
      on record. */
  predicate LeavesNoRecord(c: Config, s: State, call: Call) {
    match call
    case CallEnter(entry) => EnterLeavesNoRecord(c, s, entry)
    case CallHook(_, _, reading) => HookLeavesNoRecord(c, s, reading)
    case CallStep(a) => StepLeavesNoRecord(c, s, a)
    case CallClose(_) => false
    case CallExit(_, _) => false
    case CallFinalize(expectedSteps, stuck, counted) => FinalizeLeavesNoRecord(c, s, expectedSteps, stuck, counted)
  }

  lemma EnterRecords(c: Config, s: State, entry: Entry)
    requires !Failed(s)
    ensures var (t, reply) := Enter(c, s, entry); reply.Raised? && !Failed(t) <==> EnterLeavesNoRecord(c, s, entry)
  {
    hide RequiredEvents, Stuck;
  }

  lemma HookRecords(c: Config, digest: EventBody -> Digest, s: State, phase: Phase, moduleIndex: nat, reading: Reading)
    requires moduleIndex < |c.modules| && !Failed(s)
    ensures var (t, reply) := Hook(c, digest, s, phase, moduleIndex, reading);
      reply.Raised? && !Failed(t) <==> HookLeavesNoRecord(c, s, reading)
  {
    HookAndFailure(c, digest, s, phase, moduleIndex, reading);
    hide JudgeHook, Append;
  }

  lemma StepRecords(c: Config, digest: EventBody -> Digest, s: State, a: StepArgs)
    requires !Failed(s)
    ensures var (t, reply) := Step(c, digest, s, a); reply.Raised? && !Failed(t) <==> StepLeavesNoRecord(c, s, a)
  {
    StepAndFailure(c, digest, s, a);
    hide Append, JudgeStep, StepArgumentError, StepReadingError, CoverageProblems, StepPayload;
  }

  lemma CloseRecords(s: State, stuck: set<nat>)
    requires !Failed(s)
    ensures var (t, raised) := Close(s, stuck); (raised ==> Failed(t)) && (raised <==> Stuck(s.handles, stuck) != [])
    ensures !Close(s, stuck).1 ==> !Failed(Close(s, stuck).0)
  {
  }

  lemma FinalizeRecords(c: Config, digest: EventBody -> Digest, s: State, expectedSteps: Option<int>, stuck: set<nat>,
                        counted: bool)
    requires Inv(c, digest, s) && !Failed(s)
    ensures var (t, reply) := Finalize(c, digest, s, expectedSteps, stuck, counted);
      reply.Raised? && !Failed(t) <==> FinalizeLeavesNoRecord(c, s, expectedSteps, stuck, counted)
  {
    CloseKeepsInv(c, digest, s, stuck);
    CloseRecords(s, stuck);
    var t := Close(s, stuck).0;
    var expected := FinalExpectation(c, s, expectedSteps);
    if expected.Ok? {
      FinalErrorExactly(c, digest, t, expected.value);
    }
    hide Inv, FinalError, Start, MakeReport, Stuck;
  }

  lemma FinalizeKeepsFailed(c: Config, digest: EventBody -> Digest, s: State, expectedSteps: Option<int>,
                            stuck: set<nat>, counted: bool)
    requires Failed(s)
    ensures Failed(Finalize(c, digest, s, expectedSteps, stuck, counted).0)
  {
    CloseAndFailure(s, stuck);
    hide FinalError, MakeReport, Close;
  }

  /** A recorded failure stays on record, whatever is called. */
  lemma FailureStaysRecorded(c: Config, digest: EventBody -> Digest, s: State, call: Call)
    requires Callable(c, call) && Failed(s)
    ensures Failed(Apply(c, digest, s, call).0)
  {
    hide Enter, Hook, Step, Finalize, Close;
    match call
    case CallEnter(entry) => EnterAndFailure(c, s, entry);
    case CallHook(phase, moduleIndex, reading) => HookAndFailure(c, digest, s, phase, moduleIndex, reading);
    case CallStep(args) => StepAndFailure(c, digest, s, args);
    case CallClose(stuck) => CloseAndFailure(s, stuck);
    case CallExit(failed, stuck) => CloseAndFailure(s, stuck);
    case CallFinalize(expectedSteps, stuck, counted) =>
      FinalizeKeepsFailed(c, digest, s, expectedSteps, stuck, counted);
  }

  /** In every reachable state a call raises without a failure on record, before or after, exactly
      when none was on record and the conditions of `LeavesNoRecord` hold. */
  lemma RaisesAreRecorded(c: Config, digest: EventBody -> Digest, s: State, call: Call)
    requires Callable(c, call) && Inv(c, digest, s)
    ensures var (t, reply) := Apply(c, digest, s, call);
      reply.Raised? && !Failed(t) <==> !Failed(s) && LeavesNoRecord(c, s, call)
  {
    hide Enter, Hook, Step, Finalize, Inv, Close, EnterLeavesNoRecord, HookLeavesNoRecord, StepLeavesNoRecord,
      FinalizeLeavesNoRecord;
    if Failed(s) {
      FailureStaysRecorded(c, digest, s, call);
    } else {
      match call
      case CallEnter(entry) => EnterRecords(c, s, entry);
      case CallHook(phase, moduleIndex, reading) => HookRecords(c, digest, s, phase, moduleIndex, reading);
      case CallStep(args) => StepRecords(c, digest, s, args);
      case CallClose(stuck) => CloseRecords(s, stuck);
      case CallExit(failed, stuck) => CloseRecords(s, stuck);
      case CallFinalize(expectedSteps, stuck, counted) => FinalizeRecords(c, digest, s, expectedSteps, stuck, counted);
    }
  }

  /** A reduction that raises out of the hook leaves no trace at all. */
  lemma UnreadHookIsInvisible(c: Config, digest: EventBody -> Digest, s: State, phase: Phase, moduleIndex: nat,
                              error: HookError)
    requires moduleIndex < |c.modules| && s.active && BelowExpected(c, s)
    ensures Hook(c, digest, s, phase, moduleIndex, Unread(error)) == (s, Raised(error))
  {
  }

  lemma CloseKeepsLedger(s: State, stuck: set<nat>)
    ensures
      var t := Close(s, stuck).0;
      && SameLedger(s, t) && t.entered == s.entered && !t.active && t.report == s.report
  {
    hide Stuck;
  }

  lemma SecondEntryRefused(c: Config, s: State, entry: Entry)
    requires s.entered
    ensures Enter(c, s, entry) == (s, Raised(StateError))
  {
    hide Registered, RequiredEvents;
  }

  lemma ClosedHookRefused(c: Config, digest: EventBody -> Digest, s: State, phase: Phase, moduleIndex: nat,
                          reading: Reading)
    requires moduleIndex < |c.modules| && !s.active
    ensures Hook(c, digest, s, phase, moduleIndex, reading) == (s, Raised(StateError))
  {
    hide Append, JudgeHook;
  }

  /** A step of an inactive collector is refused before anything else. */
  lemma ClosedStepRefused(c: Config, digest: EventBody -> Digest, s: State, a: StepArgs)
    requires !s.active
    ensures Step(c, digest, s, a) == (s, Raised(StateError))
  {
    hide Append, StepPayload, CoverageProblems, JudgeStep;
  }

  lemma ClosedFinalize(c: Config, digest: EventBody -> Digest, s: State, expectedSteps: Option<int>, stuck: set<nat>,
                       counted: bool)
    requires s.entered && !s.active
    ensures
      var t := Finalize(c, digest, s, expectedSteps, stuck, counted).0;
      && SameLedger(s, t) && t.entered && !t.active
      && (s.report.Some? ==> t.report == s.report)
  {
    hide Stuck, MakeReport, FinalError;
  }

  lemma CallKeepsClosedLedger(c: Config, digest: EventBody -> Digest, s: State, call: Call)
    requires Callable(c, call) && s.entered && !s.active
    ensures
      var t := Apply(c, digest, s, call).0;
      && SameLedger(s, t) && t.entered && !t.active
      && (s.report.Some? ==> t.report == s.report)
  {
    hide Step, Finalize, Enter, Hook, Close;
    match call
    case CallEnter(entry) => SecondEntryRefused(c, s, entry);
    case CallHook(phase, moduleIndex, reading) => ClosedHookRefused(c, digest, s, phase, moduleIndex, reading);
    case CallStep(args) => ClosedStepRefused(c, digest, s, args);
    case CallClose(stuck) => CloseKeepsLedger(s, stuck);
    case CallExit(failed, stuck) => CloseKeepsLedger(s, stuck);
    case CallFinalize(expectedSteps, stuck, counted) => ClosedFinalize(c, digest, s, expectedSteps, stuck, counted);
  }

  /** Single use: once the context is closed the ledger never changes again, and neither
      does a published report, whatever is called. */
  lemma {:induction false} ClosedLedgerIsFrozen(c: Config, digest: EventBody -> Digest, s: State, calls: seq<Call>)
    requires forall i :: 0 <= i < |calls| ==> Callable(c, calls[i])
    requires s.entered && !s.active
    ensures
      var t := Run(c, digest, s, calls);
      && SameLedger(s, t) && !t.active
      && (s.report.Some? ==> t.report == s.report)
    decreases |calls|
  {
    hide Apply;
    if calls != [] {
      CallKeepsClosedLedger(c, digest, s, calls[0]);
      ClosedLedgerIsFrozen(c, digest, Apply(c, digest, s, calls[0]).0, calls[1..]);
    }
  }

  /** Tamper evidence for reports: two reports of any two collectors configured with the
      same genesis that show the same head hold the same events. */
  lemma SameHeadSameReportLedger(c: Config, d: Config, digest: EventBody -> Digest, p: Report, q: Report)
    requires Injective(digest) && c.genesis == d.genesis
    requires Certified(c, digest, p) && Certified(d, digest, q)
    ensures p.head == q.head <==> p.events == q.events
  {
    LedgerNonEmpty(c, digest, p);
    LedgerNonEmpty(d, digest, q);
    hide Certified, Injective;
    if p.head == q.head {
      OneHeadOneLedger(digest, c.genesis, p.events, q.events);
    }
  }

  lemma LedgerNonEmpty(c: Config, digest: EventBody -> Digest, r: Report)
    requires Certified(c, digest, r)
    ensures r.events != [] && WellChained(digest, c.genesis, r.events) && r.head == HeadOf(c.genesis, r.events)
  {
    StartMonotone(c, 1, r.expectedSteps);
    StartNext(c, 0);
  }
}
