/** The validation loop of scripts/analyze_openml_dp_sgd.py: it replays both ledgers of every
    run, re-counts its confusion counts, and recomputes its ROC ceiling - after it has decided
    whether the run is reported. */
module AccountantReview {
  import opened Results
  import opened MomentsAccountant

  const TOLERANCE: real := 0.000000001

  /** What the workspace holds for an artifact. */
  datatype FileState = Missing | Altered | Intact

  datatype Artifact = Artifact(name: string, state: FileState)

  /** One side's ledger and what its manifest claims of it. */
  datatype Side = Side(ledger: Ledger, epsilon: real, order: nat, byOrder: map<nat, real>, target: real)

  datatype Score = Score(group: string, score: real)

  datatype Attack = Attack(threshold: real, truePositives: int, falsePositives: int, targetFpr: real)

  /** A run's manifest, and the rows of its score file unless that is absent. */
  datatype Run = Run(
    artifacts: seq<Artifact>, target: Side, reference: Side, raw: Option<seq<Score>>,
    groupCounts: map<string, nat>, attack: Attack, rocCeiling: real)

  datatype SideName = Target | Reference

  datatype Mismatch =
    | MissingArtifact(name: string)
    | AlteredArtifact(name: string)
    | EpsilonReplay(side: SideName)
    | OrderReplay(side: SideName)
    | EpsilonExceedsTarget(side: SideName)
    | PerOrderReplay(side: SideName)
    | GroupCounts
    | TruePositives
    | FalsePositives
    | RocCeilingReplay

  /** A claimed value for some order is absent from the manifest. */
  datatype Raised = MissingOrder

  /** The raw scores are registered once, and present exactly when their file is there to be read. */
  predicate RegistersScores(run: Run) {
    && (exists i :: 0 <= i < |run.artifacts| && run.artifacts[i].name == "raw_scores")
    && forall i :: 0 <= i < |run.artifacts| && run.artifacts[i].name == "raw_scores" ==>
         (run.raw.None? <==> run.artifacts[i].state == Missing)
  }

  predicate ValidRun(run: Run) {
    ValidLedger(run.target.ledger) && ValidLedger(run.reference.ledger) && RegistersScores(run)
  }

  predicate IsExp(exp: real -> real, x: real) {
    exp(x) > 0.0
  }

  function Distance(x: real, y: real): real {
    if x < y then y - x else x - y
  }

  // ---- What it means that a run replays --------------------------------------------

  predicate Close(x: real, y: real) {
    y - TOLERANCE <= x <= y + TOLERANCE
  }

  predicate OrderReplays(log: real -> real, s: Side, i: nat)
    requires ValidLedger(s.ledger) && i < |s.ledger.orders|
  {
    s.ledger.orders[i] in s.byOrder
      && Close(OrderEpsilon(log, s.ledger, s.ledger.orders[i]), s.byOrder[s.ledger.orders[i]])
  }

  predicate SideReplays(log: real -> real, s: Side)
    requires ValidLedger(s.ledger)
  {
    && Close(ReplayedEpsilon(log, s.ledger), s.epsilon)
    && s.order == BestOrder(log, s.ledger)
    && ReplayedEpsilon(log, s.ledger) <= s.target + TOLERANCE
    && forall k: nat :: k < |s.ledger.orders| ==> OrderReplays(log, s, k)
  }

  /** How many scores of a group reach the threshold. */
  function Reaching(scores: seq<Score>, group: string, threshold: real): nat {
    if scores == [] then 0
    else
      var last := scores[|scores| - 1];
      Reaching(scores[..|scores| - 1], group, threshold)
      + if last.group == group && last.score >= threshold then 1 else 0
  }

  /** `raw.groupby("group").size().to_dict()`. */
  function GroupSizes(scores: seq<Score>): map<string, nat> {
    if scores == [] then map[]
    else
      var before, group := GroupSizes(scores[..|scores| - 1]), scores[|scores| - 1].group;
      before[group := if group in before then before[group] + 1 else 1]
  }

  predicate ScoresReplay(run: Run) {
    run.raw.Some? ==>
      var raw := run.raw.value;
      && GroupSizes(raw) == run.groupCounts
      && Reaching(raw, "member_audit", run.attack.threshold) == run.attack.truePositives
      && Reaching(raw, "nonmember_audit", run.attack.threshold) == run.attack.falsePositives
  }

  /** Everything checked before the run is reported or not. */
  predicate ReplaysEarly(log: real -> real, run: Run)
    requires ValidRun(run)
  {
    && (forall i :: 0 <= i < |run.artifacts| ==> run.artifacts[i].state == Intact)
    && SideReplays(log, run.target) && SideReplays(log, run.reference) && ScoresReplay(run)
  }

  /** The ledgers are valid and e^epsilon is positive. */
  predicate CanReview(log: real -> real, exp: real -> real, run: Run) {
    ValidRun(run) && IsExp(exp, ReplayedEpsilon(log, run.target.ledger))
  }

  /** The ceiling at the target rate that the target ledger replays to. */
  function ReplayedCeiling(log: real -> real, exp: real -> real, run: Run): real
    requires CanReview(log, exp, run)
  {
    RocCeiling(exp(ReplayedEpsilon(log, run.target.ledger)), run.target.ledger.delta, run.attack.targetFpr)
  }

  predicate CeilingReplays(log: real -> real, exp: real -> real, run: Run)
    requires CanReview(log, exp, run)
  {
    Close(ReplayedCeiling(log, exp, run), run.rocCeiling)
  }

  // ---- The checks of one run -------------------------------------------------------

  function Flag(bad: bool, mismatch: Mismatch): seq<Mismatch> {
    if bad then [mismatch] else []
  }

  function ArtifactErrors(artifacts: seq<Artifact>): seq<Mismatch> {
    if artifacts == [] then []
    else
      var last := artifacts[|artifacts| - 1];
      ArtifactErrors(artifacts[..|artifacts| - 1])
      + match last.state
        case Missing => [MissingArtifact(last.name)]
        case Altered => [AlteredArtifact(last.name)]
        case Intact => []
  }

  /** `any(abs(by_order[key] - claimed[key]) > 1e-9 ...)` from position i on: the first absent claim
      raises, the first mismatch ends the search. */
  function PerOrderDiffers(log: real -> real, s: Side, i: nat): Result<bool, Raised>
    requires ValidLedger(s.ledger) && i <= |s.ledger.orders|
    decreases |s.ledger.orders| - i
  {
    if i == |s.ledger.orders| then Ok(false)
    else
      var order := s.ledger.orders[i];
      if order !in s.byOrder then Err(MissingOrder)
      else if Distance(OrderEpsilon(log, s.ledger, order), s.byOrder[order]) > TOLERANCE then Ok(true)
      else PerOrderDiffers(log, s, i + 1)
  }

  function SideErrors(log: real -> real, name: SideName, s: Side): Result<seq<Mismatch>, Raised>
    requires ValidLedger(s.ledger)
  {
    var epsilon := ReplayedEpsilon(log, s.ledger);
    match PerOrderDiffers(log, s, 0)
    case Err(e) => Err(e)
    case Ok(differs) =>
      Ok(Flag(Distance(epsilon, s.epsilon) > TOLERANCE, EpsilonReplay(name))
         + Flag(BestOrder(log, s.ledger) != s.order, OrderReplay(name))
         + Flag(epsilon > s.target + TOLERANCE, EpsilonExceedsTarget(name))
         + Flag(differs, PerOrderReplay(name)))
  }

  function ScoreErrors(run: Run): seq<Mismatch> {
    if run.raw.None? then []
    else
      var raw := run.raw.value;
      Flag(GroupSizes(raw) != run.groupCounts, GroupCounts)
      + Flag(Reaching(raw, "member_audit", run.attack.threshold) != run.attack.truePositives, TruePositives)
      + Flag(Reaching(raw, "nonmember_audit", run.attack.threshold) != run.attack.falsePositives, FalsePositives)
  }

  /** The errors known when the run is reported or not. */
  function EarlyErrors(log: real -> real, run: Run): Result<seq<Mismatch>, Raised>
    requires ValidRun(run)
  {
    match SideErrors(log, Target, run.target)
    case Err(e) => Err(e)
    case Ok(target) =>
      match SideErrors(log, Reference, run.reference)
      case Err(e) => Err(e)
      case Ok(reference) => Ok(ArtifactErrors(run.artifacts) + target + reference + ScoreErrors(run))
  }

  lemma CloseIsNear(x: real, y: real)
    ensures Close(x, y) <==> Distance(x, y) <= TOLERANCE
  {
  }

  lemma {:induction false} NoArtifactErrors(artifacts: seq<Artifact>)
    ensures ArtifactErrors(artifacts) == [] <==> forall i :: 0 <= i < |artifacts| ==> artifacts[i].state == Intact
  {
    if artifacts != [] {
      var init, last := artifacts[..|artifacts| - 1], artifacts[|artifacts| - 1];
      NoArtifactErrors(init);
      assert forall i :: 0 <= i < |init| ==> init[i] == artifacts[i];
    }
  }

  lemma {:induction false} NoOrderDiffers(log: real -> real, s: Side, i: nat)
    requires ValidLedger(s.ledger) && i <= |s.ledger.orders|
    ensures PerOrderDiffers(log, s, i) == Ok(false)
       <==> forall k: nat :: i <= k < |s.ledger.orders| ==> OrderReplays(log, s, k)
    decreases |s.ledger.orders| - i
  {
    hide OrderEpsilon, Distance, Close;
    if i < |s.ledger.orders| {
      NoOrderDiffers(log, s, i + 1);
      var here := OrderReplays(log, s, i);
      if s.ledger.orders[i] in s.byOrder {
        CloseIsNear(OrderEpsilon(log, s.ledger, s.ledger.orders[i]), s.byOrder[s.ledger.orders[i]]);
      }
    }
  }

  lemma NoSideErrors(log: real -> real, name: SideName, s: Side)
    requires ValidLedger(s.ledger)
    ensures SideErrors(log, name, s) == Ok([]) <==> SideReplays(log, s)
  {
    hide OrderEpsilon, BestIndex, Distance, Close, PerOrderDiffers, ReplayedEpsilon, BestOrder, TOLERANCE;
    NoOrderDiffers(log, s, 0);
    CloseIsNear(ReplayedEpsilon(log, s.ledger), s.epsilon);
    hide OrderReplays;
  }

  /** No early error is found exactly when all that is checked early replays. */
  lemma NoEarlyErrorsExactly(log: real -> real, run: Run)
    requires ValidRun(run)
    ensures EarlyErrors(log, run) == Ok([]) <==> ReplaysEarly(log, run)
  {
    hide SideErrors, SideReplays, ArtifactErrors, GroupSizes, Reaching;
    NoSideErrors(log, Target, run.target);
    NoSideErrors(log, Reference, run.reference);
    NoArtifactErrors(run.artifacts);
  }

  // ---- The loop --------------------------------------------------------------------

  /** The mutable list the loop builds for one run. */
  class RunErrors {
    var messages: seq<Mismatch>

    constructor (messages: seq<Mismatch>)
      ensures this.messages == messages
    {
      this.messages := messages;
    }

    method Append(message: Mismatch)
      modifies this
      ensures messages == old(messages) + [message]
    {
      messages := messages + [message];
    }
  }

  /** The checks of one side, on the replayed dictionary. */
  method CheckSide(log: real -> real, name: SideName, s: Side) returns (r: Result<seq<Mismatch>, Raised>)
    requires ValidLedger(s.ledger)
    ensures r == SideErrors(log, name, s)
  {
    hide OrderEpsilon, BestIndex, Distance, BestOrder, ReplayedEpsilon, TOLERANCE;
    var epsilon, order, byOrder := ReplayLedger(log, s.ledger);
    var errors := Flag(Distance(epsilon, s.epsilon) > TOLERANCE, EpsilonReplay(name));
    errors := errors + Flag(order != s.order, OrderReplay(name));
    errors := errors + Flag(epsilon > s.target + TOLERANCE, EpsilonExceedsTarget(name));
    var differs := false;
    var i := 0;
    while i < |s.ledger.orders| && !differs
      invariant 0 <= i <= |s.ledger.orders|
      invariant PerOrderDiffers(log, s, 0) == if differs then Ok(true) else PerOrderDiffers(log, s, i)
    {
      var key := s.ledger.orders[i];
      if key !in s.byOrder {
        return Err(MissingOrder);
      }
      differs := Distance(byOrder[key], s.byOrder[key]) > TOLERANCE;
      i := i + 1;
    }
    errors := errors + Flag(differs, PerOrderReplay(name));
    return Ok(errors);
  }

  method CheckArtifacts(artifacts: seq<Artifact>) returns (errors: seq<Mismatch>)
    ensures errors == ArtifactErrors(artifacts)
  {
    errors := [];
    for i := 0 to |artifacts|
      invariant errors == ArtifactErrors(artifacts[..i])
    {
      assert artifacts[..i + 1][..i] == artifacts[..i];
      match artifacts[i].state
      case Missing => errors := errors + [MissingArtifact(artifacts[i].name)];
      case Altered => errors := errors + [AlteredArtifact(artifacts[i].name)];
      case Intact => errors := errors + [];
    }
    assert artifacts[..|artifacts|] == artifacts;
  }

  /** The checks of one run that come before its report. */
  method CheckRun(log: real -> real, run: Run) returns (r: Result<seq<Mismatch>, Raised>)
    requires ValidRun(run)
    ensures r == EarlyErrors(log, run)
  {
    hide SideErrors, ScoreErrors, ArtifactErrors;
    var errors := CheckArtifacts(run.artifacts);
    var target := CheckSide(log, Target, run.target);
    if target.Err? {
      return Err(target.error);
    }
    errors := errors + target.value;
    var reference := CheckSide(log, Reference, run.reference);
    if reference.Err? {
      return Err(reference.error);
    }
    errors := errors + reference.value;
    errors := errors + ScoreErrors(run);
    return Ok(errors);
  }

  predicate Reviewable(log: real -> real, exp: real -> real, runs: seq<Run>) {
    forall run :: run in runs ==> CanReview(log, exp, run)
  }

  /** Every error of a run, the ROC check included. */
  function AllErrors(log: real -> real, exp: real -> real, run: Run): seq<Mismatch>
    requires CanReview(log, exp, run)
  {
    match EarlyErrors(log, run)
    case Err(_) => []
    case Ok(early) =>
      early + Flag(Distance(ReplayedCeiling(log, exp, run), run.rocCeiling) > TOLERANCE, RocCeilingReplay)
  }

  /** The runs that end up in the error report. */
  function Reported(log: real -> real, runs: seq<Run>): (r: seq<Run>)
    requires forall run :: run in runs ==> ValidRun(run)
    ensures forall run :: run in r ==> run in runs
  {
    if runs == [] then []
    else
      var init, last := runs[..|runs| - 1], runs[|runs| - 1];
      assert runs == init + [last];
      if EarlyErrors(log, last) == Ok([]) then Reported(log, init) else Reported(log, init) + [last]
  }

  lemma ReportedNext(log: real -> real, runs: seq<Run>, i: nat)
    requires (forall run :: run in runs ==> ValidRun(run)) && i < |runs|
    ensures Reported(log, runs[..i + 1])
         == if EarlyErrors(log, runs[i]) == Ok([]) then Reported(log, runs[..i])
            else Reported(log, runs[..i]) + [runs[i]]
  {
    hide EarlyErrors, ValidRun;
    assert runs[..i + 1][..i] == runs[..i];
  }

  ghost predicate ListsErrors(log: real -> real, exp: real -> real, errors: seq<RunErrors>, reported: seq<Run>)
    requires Reviewable(log, exp, reported)
    reads errors
  {
    |errors| == |reported|
    && forall i :: 0 <= i < |errors| ==> errors[i].messages == AllErrors(log, exp, reported[i])
  }

  lemma OneMoreEntry(log: real -> real, exp: real -> real, errors: seq<RunErrors>, reported: seq<Run>, one: RunErrors,
                     run: Run)
    requires Reviewable(log, exp, reported) && CanReview(log, exp, run)
    requires ListsErrors(log, exp, errors, reported) && one.messages == AllErrors(log, exp, run)
    ensures Reviewable(log, exp, reported + [run]) && ListsErrors(log, exp, errors + [one], reported + [run])
  {
    hide AllErrors, CanReview;
  }

  /** One pass of the loop body.  `errors` keeps a reference to the run's own list, so a ROC mismatch
      appended later shows in an entry made earlier, but makes none. */
  method ReviewRun(log: real -> real, exp: real -> real, run: Run, errors: seq<RunErrors>)
    returns (r: Result<seq<RunErrors>, Raised>)
    requires CanReview(log, exp, run)
    ensures r.Err? <==> EarlyErrors(log, run).Err?
    ensures r.Ok? && EarlyErrors(log, run) == Ok([]) ==> r.value == errors
    ensures r.Ok? && EarlyErrors(log, run) != Ok([]) ==>
      |r.value| == |errors| + 1 && r.value == errors + [r.value[|errors|]]
      && fresh(r.value[|errors|]) && r.value[|errors|].messages == AllErrors(log, exp, run)
  {
    hide EarlyErrors, Distance, ReplayedCeiling, TOLERANCE;
    var early := CheckRun(log, run);
    if early.Err? {
      return Err(early.error);
    }
    var runErrors := new RunErrors(early.value);
    var extended := errors;
    if runErrors.messages != [] {
      extended := errors + [runErrors];
    }
    if Distance(ReplayedCeiling(log, exp, run), run.rocCeiling) > TOLERANCE {
      runErrors.Append(RocCeilingReplay);
    }
    return Ok(extended);
  }

  /** The loop over runs: raises exactly when some early check does, and otherwise reports exactly the
      runs with an early mismatch, each with all its mismatches. */
  method ReviewRuns(log: real -> real, exp: real -> real, runs: seq<Run>) returns (r: Result<seq<RunErrors>, Raised>)
    requires Reviewable(log, exp, runs)
    ensures r.Err? <==> exists run :: run in runs && ValidRun(run) && EarlyErrors(log, run).Err?
    ensures r.Ok? ==> Reviewable(log, exp, Reported(log, runs)) && ListsErrors(log, exp, r.value, Reported(log, runs))
  {
    hide EarlyErrors, Reported, CanReview, AllErrors;
    var errors: seq<RunErrors> := [];
    PrefixReviewable(log, exp, runs);
    NothingReported(log, runs[..0]);
    for i := 0 to |runs|
      invariant forall k :: 0 <= k < i ==> ValidRun(runs[k]) && EarlyErrors(log, runs[k]).Ok?
      invariant forall k :: 0 <= k < |errors| ==> fresh(errors[k])
      invariant Reviewable(log, exp, Reported(log, runs[..i]))
      invariant ListsErrors(log, exp, errors, Reported(log, runs[..i]))
    {
      assert runs[i] in runs;
      var extended := ReviewRun(log, exp, runs[i], errors);
      if extended.Err? {
        return Err(extended.error);
      }
      ReportedNext(log, runs, i);
      if EarlyErrors(log, runs[i]) != Ok([]) {
        OneMoreEntry(log, exp, errors, Reported(log, runs[..i]), extended.value[|errors|], runs[i]);
      }
      errors := extended.value;
    }
    assert runs[..|runs|] == runs;
    return Ok(errors);
  }

  lemma PrefixReviewable(log: real -> real, exp: real -> real, runs: seq<Run>)
    requires Reviewable(log, exp, runs)
    ensures forall run :: run in runs ==> ValidRun(run)
    ensures forall i :: 0 <= i <= |runs| ==> Reviewable(log, exp, runs[..i])
  {
    hide ReplayedEpsilon, IsExp;
  }

  lemma NothingReported(log: real -> real, runs: seq<Run>)
    requires runs == []
    ensures Reported(log, runs) == []
  {
  }

  // ---- What an empty report means --------------------------------------------------

  lemma {:induction false} ReportedMembers(log: real -> real, runs: seq<Run>, run: Run)
    requires (forall other :: other in runs ==> ValidRun(other)) && ValidRun(run)
    ensures run in Reported(log, runs) <==> run in runs && !ReplaysEarly(log, run)
  {
    hide EarlyErrors, ReplaysEarly, ReplayedEpsilon;
    if runs != [] {
      var init, last := runs[..|runs| - 1], runs[|runs| - 1];
      assert runs == init + [last];
      ReportedMembers(log, init, run);
      NoEarlyErrorsExactly(log, last);
    }
  }

  predicate Replays(log: real -> real, exp: real -> real, run: Run)
    requires CanReview(log, exp, run)
  {
    ReplaysEarly(log, run) && CeilingReplays(log, exp, run)
  }

  /** Nothing is reported exactly when everything checked early replays, in every run. */
  lemma ReportEmptyExactly(log: real -> real, runs: seq<Run>)
    requires forall run :: run in runs ==> ValidRun(run)
    ensures Reported(log, runs) == [] <==> forall i :: 0 <= i < |runs| ==> ReplaysEarly(log, runs[i])
  {
    hide ReplaysEarly, Reported, ReplayedEpsilon;
    if Reported(log, runs) == [] {
      forall i | 0 <= i < |runs| ensures ReplaysEarly(log, runs[i]) {
        ReportedMembers(log, runs, runs[i]);
      }
    } else {
      ReportedMembers(log, runs, Reported(log, runs)[0]);
    }
  }

  /** An empty report means that every run replays, ROC ceilings included, if and only if some run
      fails an early check or every claimed ceiling is within tolerance of the replayed one. */
  lemma EmptyReportIsSoundExactly(log: real -> real, exp: real -> real, runs: seq<Run>)
    requires Reviewable(log, exp, runs)
    ensures (Reported(log, runs) == [] ==> forall i :: 0 <= i < |runs| ==> Replays(log, exp, runs[i]))
       <==> (exists i :: 0 <= i < |runs| && !ReplaysEarly(log, runs[i]))
            || (forall i :: 0 <= i < |runs| ==> CeilingReplays(log, exp, runs[i]))
  {
    ReportEmptyExactly(log, runs);
    hide ReplaysEarly, CeilingReplays, Reported, ReplayedEpsilon;
  }

  /** Whatever run replays early stays out of the report with any claimed ceiling at all. */
  lemma WrongCeilingIsLost(log: real -> real, exp: real -> real, run: Run, claimed: real)
    requires CanReview(log, exp, run) && ReplaysEarly(log, run)
    requires Distance(ReplayedCeiling(log, exp, run), claimed) > TOLERANCE
    ensures var wrong := run.(rocCeiling := claimed);
      CanReview(log, exp, wrong) && Reported(log, [wrong]) == [] && !CeilingReplays(log, exp, wrong)
  {
    hide Reported, ReplayedEpsilon, RocCeiling, SideReplays, GroupSizes, Reaching;
    var wrong := run.(rocCeiling := claimed);
    assert CanReview(log, exp, wrong) && ReplaysEarly(log, wrong);
    ReportEmptyExactly(log, [wrong]);
    CloseIsNear(ReplayedCeiling(log, exp, wrong), claimed);
  }

  // ---- A run whose wrong ceiling is lost -------------------------------------------

  /** One full-batch step with delta 0.01 and e^(1/(2 sigma^2)) = 2: epsilon is log 4 + log 100. */
  const FULL_BATCH: Ledger := Ledger([2], 1, 1.0, 2.0, 0.01)

  function FullBatchEpsilon(log: real -> real): real {
    log(4.0) + log(100.0)
  }

  function FullBatchSide(log: real -> real): Side {
    var epsilon := FullBatchEpsilon(log);
    Side(FULL_BATCH, epsilon, 2, map[2 := epsilon], epsilon)
  }

  /** One flagged member and one unflagged nonmember. */
  const AUDIT_SCORES: seq<Score> := [Score("member_audit", 0.75), Score("nonmember_audit", 0.25)]

  /** Everything in this run replays but its claimed ceiling, 0.9 instead of 0.41. */
  function MisstatedRun(log: real -> real): Run {
    Run([Artifact("raw_scores", Intact)], FullBatchSide(log), FullBatchSide(log), Some(AUDIT_SCORES),
        map["member_audit" := 1, "nonmember_audit" := 1], Attack(0.5, 1, 0, 0.001), 0.9)
  }

  lemma FullBatchMoment()
    ensures Moment(2, 1.0, 2.0) == 4.0
  {
    MomentBounds(2, 1.0, 2.0);
    assert Power(2.0, 2) == 2.0 * Power(2.0, 1) && Power(2.0, 1) == 2.0 * Power(2.0, 0);
    hide Moment;
    assert Growth(2.0, 2) == 4.0;
  }

  lemma FullBatchReplaysTo(log: real -> real)
    ensures ValidLedger(FULL_BATCH) && BestOrder(log, FULL_BATCH) == 2
    ensures OrderEpsilon(log, FULL_BATCH, 2) == ReplayedEpsilon(log, FULL_BATCH) == FullBatchEpsilon(log)
  {
    FullBatchMoment();
    hide Moment;
    assert 1.0 / 0.01 == 100.0;
  }

  lemma FullBatchReplays(log: real -> real)
    ensures ValidLedger(FullBatchSide(log).ledger) && SideReplays(log, FullBatchSide(log))
  {
    FullBatchReplaysTo(log);
    hide OrderEpsilon, BestOrder, BestIndex, ReplayedEpsilon;
    assert OrderReplays(log, FullBatchSide(log), 0);
  }

  /** The misstated run is not reported: an empty report although a claimed ceiling is wrong. */
  lemma MisstatedCeilingIsNotReported(log: real -> real, exp: real -> real)
    requires exp(FullBatchEpsilon(log)) == 400.0
    ensures var run := MisstatedRun(log);
      CanReview(log, exp, run) && ReplayedCeiling(log, exp, run) == 0.41 && run.rocCeiling == 0.9
      && Reported(log, [run]) == [] && !Replays(log, exp, run)
  {
    FullBatchReplaysTo(log);
    FullBatchReplays(log);
    hide OrderEpsilon, BestOrder, BestIndex, ReplayedEpsilon, SideReplays;
    var run := MisstatedRun(log);
    AuditScoresReplay(log);
    assert run.artifacts[0].name == "raw_scores";
    assert ValidRun(run) && ReplaysEarly(log, run);
    ReportEmptyExactly(log, [run]);
  }

  lemma AuditScoresReplay(log: real -> real)
    ensures ScoresReplay(MisstatedRun(log))
  {
    var scores := AUDIT_SCORES;
    assert scores[..1] == [scores[0]] && scores[..1][..0] == [];
    assert GroupSizes(scores[..1]) == map["member_audit" := 1];
    assert Reaching(scores[..1], "member_audit", 0.5) == 1 && Reaching(scores[..1], "nonmember_audit", 0.5) == 0;
    assert |"member_audit"| == 12 && |"nonmember_audit"| == 15;
  }
}
