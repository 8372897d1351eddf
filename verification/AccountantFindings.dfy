/** What the accountant review finds in a run: each mismatch is listed exactly when what it says is so, in
    terms of the ledgers, the score rows and the claims alone. */
module AccountantFindings {
  import opened Results
  import opened FiniteSets
  import opened MomentsAccountant
  import opened AccountantReview

  // ---- What a mismatch says --------------------------------------------------------

  /** The least epsilon over the ledger's orders. */
  ghost predicate IsLeastEpsilon(log: real -> real, l: Ledger, epsilon: real) {
    && (exists i :: 0 <= i < |l.orders| && IsEpsilon(log, l, l.orders[i], epsilon))
    && forall i, other :: 0 <= i < |l.orders| && IsEpsilon(log, l, l.orders[i], other) ==> epsilon <= other
  }

  /** The first order at which the least epsilon is reached. */
  ghost predicate IsFirstBest(log: real -> real, l: Ledger, order: nat) {
    exists i :: IsFirstBestAt(log, l, i) && l.orders[i] == order
  }

  ghost predicate IsFirstBestAt(log: real -> real, l: Ledger, i: int) {
    && 0 <= i < |l.orders|
    && (forall epsilon :: IsEpsilon(log, l, l.orders[i], epsilon) ==> IsLeastEpsilon(log, l, epsilon))
    && forall j, epsilon :: 0 <= j < i && IsEpsilon(log, l, l.orders[j], epsilon) ==> !IsLeastEpsilon(log, l, epsilon)
  }

  /** More than a billionth apart. */
  predicate Apart(x: real, y: real) {
    x - y > 0.000000001 || y - x > 0.000000001
  }

  /** The places of a group's scores that reach the threshold. */
  ghost function ReachingPlaces(scores: seq<Score>, group: string, threshold: real): set<int> {
    Where(scores, (s: Score) => s.group == group && s.score >= threshold)
  }

  ghost function GroupPlaces(scores: seq<Score>, group: string): set<int> {
    Where(scores, (s: Score) => s.group == group)
  }

  /** The claimed counts are those of the groups that occur. */
  ghost predicate CountsGroups(scores: seq<Score>, counts: map<string, nat>) {
    forall group ::
      && (group in counts <==> GroupPlaces(scores, group) != {})
      && (group in counts ==> counts[group] == |GroupPlaces(scores, group)|)
  }

  function SideOf(run: Run, name: SideName): Side {
    match name
    case Target => run.target
    case Reference => run.reference
  }

  ghost predicate IsSo(log: real -> real, run: Run, mismatch: Mismatch) {
    match mismatch
    case MissingArtifact(name) => Artifact(name, Missing) in run.artifacts
    case AlteredArtifact(name) => Artifact(name, Altered) in run.artifacts
    case EpsilonReplay(side) =>
      var s := SideOf(run, side);
      exists epsilon :: IsLeastEpsilon(log, s.ledger, epsilon) && Apart(epsilon, s.epsilon)
    case OrderReplay(side) => !IsFirstBest(log, SideOf(run, side).ledger, SideOf(run, side).order)
    case EpsilonExceedsTarget(side) =>
      var s := SideOf(run, side);
      exists epsilon :: IsLeastEpsilon(log, s.ledger, epsilon) && epsilon > s.target + 0.000000001
    case PerOrderReplay(side) =>
      var s := SideOf(run, side);
      exists order, epsilon :: OrderDiffers(log, s, order, epsilon)
    case GroupCounts => run.raw.Some? && !CountsGroups(run.raw.value, run.groupCounts)
    case TruePositives =>
      && run.raw.Some?
      && |ReachingPlaces(run.raw.value, "member_audit", run.attack.threshold)| != run.attack.truePositives
    case FalsePositives =>
      && run.raw.Some?
      && |ReachingPlaces(run.raw.value, "nonmember_audit", run.attack.threshold)| != run.attack.falsePositives
    case RocCeilingReplay => false
  }

  /** The claim for one order is more than a billionth away from its epsilon. */
  ghost predicate OrderDiffers(log: real -> real, s: Side, order: nat, epsilon: real) {
    && order in s.ledger.orders && order in s.byOrder
    && IsEpsilon(log, s.ledger, order, epsilon) && Apart(epsilon, s.byOrder[order])
  }

  // ---- Scores ----------------------------------------------------------------------

  lemma {:induction false} ReachingCounts(scores: seq<Score>, group: string, threshold: real)
    ensures Reaching(scores, group, threshold) == |ReachingPlaces(scores, group, threshold)|
  {
    if scores != [] {
      var init, last := scores[..|scores| - 1], scores[|scores| - 1];
      ReachingCounts(init, group, threshold);
      assert scores == init + [last];
      WhereNext(init, last, (s: Score) => s.group == group && s.score >= threshold);
    }
  }

  lemma {:induction false} SizesCount(scores: seq<Score>)
    ensures CountsGroups(scores, GroupSizes(scores))
  {
    if scores != [] {
      var init, last := scores[..|scores| - 1], scores[|scores| - 1];
      SizesCount(init);
      assert scores == init + [last];
      forall group
        ensures group in GroupSizes(scores) <==> GroupPlaces(scores, group) != {}
        ensures group in GroupSizes(scores) ==> GroupSizes(scores)[group] == |GroupPlaces(scores, group)|
      {
        GroupPlacesNext(init, last, group);
      }
    }
  }

  lemma GroupPlacesNext(init: seq<Score>, last: Score, group: string)
    ensures |GroupPlaces(init + [last], group)| == |GroupPlaces(init, group)| + if last.group == group then 1 else 0
    ensures GroupPlaces(init + [last], group) != {} <==> GroupPlaces(init, group) != {} || last.group == group
  {
    WhereNext(init, last, (s: Score) => s.group == group);
    hide Where;
    SizeOfEmpty(GroupPlaces(init, group));
    SizeOfEmpty(GroupPlaces(init + [last], group));
  }

  lemma SizeOfEmpty(s: set<int>)
    ensures s != {} <==> |s| > 0
  {
  }

  /** Two descriptions of the same groups are equal. */
  lemma CountsAreUnique(scores: seq<Score>, a: map<string, nat>, b: map<string, nat>)
    requires CountsGroups(scores, a) && CountsGroups(scores, b)
    ensures a == b
  {
    hide GroupPlaces;
  }

  // ---- Ledgers ---------------------------------------------------------------------

  lemma ReplayedIsLeast(log: real -> real, l: Ledger, epsilon: real)
    requires ValidLedger(l)
    ensures IsLeastEpsilon(log, l, epsilon) <==> epsilon == ReplayedEpsilon(log, l)
  {
    hide IsEpsilon, OrderEpsilon, BestIndex;
    var b := BestIndex(log, l, |l.orders|);
    forall i, other | 0 <= i < |l.orders|
      ensures IsEpsilon(log, l, l.orders[i], other) <==> other == OrderEpsilon(log, l, l.orders[i])
    {
      EpsilonExactly(log, l, l.orders[i], other);
    }
    assert IsEpsilon(log, l, l.orders[b], ReplayedEpsilon(log, l));
  }

  lemma BestIsFirst(log: real -> real, l: Ledger, order: nat)
    requires ValidLedger(l)
    ensures IsFirstBest(log, l, order) <==> order == BestOrder(log, l)
  {
    hide IsEpsilon, OrderEpsilon, BestIndex, IsLeastEpsilon;
    var b := BestIndex(log, l, |l.orders|);
    forall i, epsilon | 0 <= i < |l.orders|
      ensures IsEpsilon(log, l, l.orders[i], epsilon) <==> epsilon == OrderEpsilon(log, l, l.orders[i])
    {
      EpsilonExactly(log, l, l.orders[i], epsilon);
    }
    forall epsilon ensures IsLeastEpsilon(log, l, epsilon) <==> epsilon == ReplayedEpsilon(log, l) {
      ReplayedIsLeast(log, l, epsilon);
    }
    assert IsFirstBestAt(log, l, b);
    forall i | IsFirstBestAt(log, l, i) ensures i == b {
      assert IsEpsilon(log, l, l.orders[i], OrderEpsilon(log, l, l.orders[i]));
      assert IsEpsilon(log, l, l.orders[b], OrderEpsilon(log, l, l.orders[b]));
    }
  }

  lemma {:induction false} DiffersExactly(log: real -> real, s: Side, i: nat)
    requires ValidLedger(s.ledger) && i <= |s.ledger.orders| && PerOrderDiffers(log, s, i).Ok?
    ensures PerOrderDiffers(log, s, i).value
       <==> exists k :: i <= k < |s.ledger.orders| && DiffersAt(log, s, k)
    decreases |s.ledger.orders| - i
  {
    hide OrderEpsilon;
    if i < |s.ledger.orders| {
      assert DiffersAt(log, s, i)
        <==> Distance(OrderEpsilon(log, s.ledger, s.ledger.orders[i]), s.byOrder[s.ledger.orders[i]]) > TOLERANCE;
      if !DiffersAt(log, s, i) {
        DiffersExactly(log, s, i + 1);
      }
    }
  }

  ghost predicate DiffersAt(log: real -> real, s: Side, k: int)
    requires ValidLedger(s.ledger)
  {
    && 0 <= k < |s.ledger.orders| && s.ledger.orders[k] in s.byOrder
    && Apart(OrderEpsilon(log, s.ledger, s.ledger.orders[k]), s.byOrder[s.ledger.orders[k]])
  }

  lemma OrderDiffersSomewhere(log: real -> real, s: Side)
    requires ValidLedger(s.ledger)
    ensures (exists k :: DiffersAt(log, s, k)) <==> exists order, epsilon :: OrderDiffers(log, s, order, epsilon)
  {
    hide IsEpsilon, OrderEpsilon, Apart;
    if k :| DiffersAt(log, s, k) {
      var order := s.ledger.orders[k];
      EpsilonExactly(log, s.ledger, order, OrderEpsilon(log, s.ledger, order));
      assert OrderDiffers(log, s, order, OrderEpsilon(log, s.ledger, order));
    }
    if order, epsilon :| OrderDiffers(log, s, order, epsilon) {
      EpsilonExactly(log, s.ledger, order, epsilon);
      var k :| 0 <= k < |s.ledger.orders| && s.ledger.orders[k] == order;
      assert DiffersAt(log, s, k);
    }
  }

  // ---- The findings ----------------------------------------------------------------

  lemma FlagLists(bad: bool, flagged: Mismatch, mismatch: Mismatch)
    ensures mismatch in Flag(bad, flagged) <==> bad && mismatch == flagged
  {
  }

  lemma {:induction false} ArtifactErrorsExactly(artifacts: seq<Artifact>, mismatch: Mismatch)
    ensures mismatch in ArtifactErrors(artifacts)
       <==> match mismatch
            case MissingArtifact(name) => Artifact(name, Missing) in artifacts
            case AlteredArtifact(name) => Artifact(name, Altered) in artifacts
            case _ => false
  {
    if artifacts != [] {
      var init, last := artifacts[..|artifacts| - 1], artifacts[|artifacts| - 1];
      ArtifactErrorsExactly(init, mismatch);
      assert artifacts == init + [last];
    }
  }

  /** A mismatch about one side of the ledgers. */
  predicate IsAbout(mismatch: Mismatch, name: SideName) {
    || mismatch == EpsilonReplay(name) || mismatch == OrderReplay(name)
    || mismatch == EpsilonExceedsTarget(name) || mismatch == PerOrderReplay(name)
  }

  lemma SideErrorsExactly(log: real -> real, run: Run, name: SideName, mismatch: Mismatch)
    requires ValidRun(run) && SideErrors(log, name, SideOf(run, name)).Ok?
    ensures mismatch in SideErrors(log, name, SideOf(run, name)).value
       <==> IsAbout(mismatch, name) && IsSo(log, run, mismatch)
  {
    var s := SideOf(run, name);
    var epsilon := ReplayedEpsilon(log, s.ledger);
    EpsilonIsSo(log, run, name);
    OrdersAreSo(log, run, name);
    hide ReplayedEpsilon, BestOrder, PerOrderDiffers, Distance, IsSo;
    FlagLists(Distance(epsilon, s.epsilon) > TOLERANCE, EpsilonReplay(name), mismatch);
    FlagLists(BestOrder(log, s.ledger) != s.order, OrderReplay(name), mismatch);
    FlagLists(epsilon > s.target + TOLERANCE, EpsilonExceedsTarget(name), mismatch);
    FlagLists(PerOrderDiffers(log, s, 0).value, PerOrderReplay(name), mismatch);
    hide Flag;
  }

  lemma OrdersAreSo(log: real -> real, run: Run, name: SideName)
    requires ValidRun(run) && PerOrderDiffers(log, SideOf(run, name), 0).Ok?
    ensures var s := SideOf(run, name);
      && (IsSo(log, run, OrderReplay(name)) <==> BestOrder(log, s.ledger) != s.order)
      && (IsSo(log, run, PerOrderReplay(name)) <==> PerOrderDiffers(log, s, 0).value)
  {
    var s := SideOf(run, name);
    BestIsFirst(log, s.ledger, s.order);
    DiffersExactly(log, s, 0);
    OrderDiffersSomewhere(log, s);
    hide BestOrder, IsFirstBest, OrderDiffers, PerOrderDiffers;
  }

  lemma EpsilonIsSo(log: real -> real, run: Run, name: SideName)
    requires ValidRun(run)
    ensures var s := SideOf(run, name);
      && (IsSo(log, run, EpsilonReplay(name)) <==> Distance(ReplayedEpsilon(log, s.ledger), s.epsilon) > TOLERANCE)
      && (IsSo(log, run, EpsilonExceedsTarget(name)) <==> ReplayedEpsilon(log, s.ledger) > s.target + TOLERANCE)
  {
    var s := SideOf(run, name);
    hide ReplayedEpsilon, IsLeastEpsilon;
    forall epsilon ensures IsLeastEpsilon(log, s.ledger, epsilon) <==> epsilon == ReplayedEpsilon(log, s.ledger) {
      ReplayedIsLeast(log, s.ledger, epsilon);
    }
    assert IsLeastEpsilon(log, s.ledger, ReplayedEpsilon(log, s.ledger));
  }

  lemma ScoreErrorsExactly(log: real -> real, run: Run, mismatch: Mismatch)
    ensures mismatch in ScoreErrors(run)
       <==> mismatch in [GroupCounts, TruePositives, FalsePositives] && IsSo(log, run, mismatch)
  {
    if run.raw.Some? {
      var raw := run.raw.value;
      ReachingCounts(raw, "member_audit", run.attack.threshold);
      ReachingCounts(raw, "nonmember_audit", run.attack.threshold);
      SizesCount(raw);
      hide GroupSizes, Reaching, ReachingPlaces, CountsGroups;
      if CountsGroups(raw, run.groupCounts) {
        CountsAreUnique(raw, run.groupCounts, GroupSizes(raw));
      }
    }
  }

  /** Before a run is reported, exactly the mismatches that are so are found, unless a claim is missing. */
  lemma FindingsExactly(log: real -> real, run: Run, mismatch: Mismatch)
    requires ValidRun(run) && EarlyErrors(log, run).Ok?
    ensures mismatch in EarlyErrors(log, run).value <==> IsSo(log, run, mismatch)
  {
    hide SideErrors, ScoreErrors, ArtifactErrors;
    ArtifactErrorsExactly(run.artifacts, mismatch);
    SideErrorsExactly(log, run, Target, mismatch);
    SideErrorsExactly(log, run, Reference, mismatch);
    ScoreErrorsExactly(log, run, mismatch);
    EveryKind(log, run, mismatch);
  }

  lemma EveryKind(log: real -> real, run: Run, mismatch: Mismatch)
    ensures IsSo(log, run, mismatch) ==>
            || mismatch.MissingArtifact? || mismatch.AlteredArtifact? || IsAbout(mismatch, Target)
            || IsAbout(mismatch, Reference) || mismatch in [GroupCounts, TruePositives, FalsePositives]
  {
  }
}
