/** The manifest that scripts/run_openml_composition.py writes for one data set and the errors
    that scripts/analyze_openml_composition.py reports about it. */
module CompositionReplay {
  import opened FiniteSets
  import opened Results
  import opened DecisionWitnesses
  import opened SignatureHistograms
  import opened ReleaseComposition

  /** The joint histogram is kept under None, a release histogram under its seed. */
  type Artifact = Option<int>

  datatype Standalone = Standalone(seed: int, metrics: Metrics)

  datatype Run = Run(
    roster: seq<string>,
    records: int,
    standalone: seq<Standalone>,
    joint: Metrics,
    histograms: map<Artifact, seq<Entry>>,
    jointIncrement: real,
    naiveSum: real,
    amplification: real,
    withinSum: bool)

  datatype RunError = NoReleases | EmptyRoster

  // ---- Writing ---------------------------------------------------------------------

  /** One leaf matrix per seed, all over the common roster. */
  predicate AreLoaded(load: int -> Matrix, seeds: seq<int>, n: nat) {
    forall k :: 0 <= k < |seeds| ==> IsLeafMatrix(load(seeds[k]), n)
  }

  function Loaded(load: int -> Matrix, seeds: seq<int>): (ms: seq<Matrix>)
    ensures |ms| == |seeds| && forall k :: 0 <= k < |seeds| ==> ms[k] == load(seeds[k])
  {
    seq(|seeds|, k requires 0 <= k < |seeds| => load(seeds[k]))
  }

  /** The joint leaf matrix of the loaded releases. */
  function JointOf(load: int -> Matrix, seeds: seq<int>, n: nat): (joint: Matrix)
    requires AreLoaded(load, seeds, n)
    ensures |joint| == n
  {
    WidthIsRosterOf(load, seeds, n);
    Joint(Loaded(load, seeds), n)
  }

  lemma WidthIsRosterOf(load: int -> Matrix, seeds: seq<int>, n: nat)
    requires AreLoaded(load, seeds, n)
    ensures AreReleases(Loaded(load, seeds), n) && forall k :: 0 <= k < |seeds| ==> |Loaded(load, seeds)[k]| == n
  {
  }

  function StandaloneMetrics(load: int -> Matrix, seeds: seq<int>, n: nat): (r: seq<Standalone>)
    requires n > 0 && AreLoaded(load, seeds, n)
    ensures |r| == |seeds|
    ensures forall k :: 0 <= k < |seeds| ==> r[k] == Standalone(seeds[k], MetricsOf(load(seeds[k])))
  {
    seq(|seeds|, k requires 0 <= k < |seeds| => Standalone(seeds[k], MetricsOf(load(seeds[k]))))
  }

  function ReleaseHistograms(load: int -> Matrix, seeds: seq<int>, joint: Matrix): map<Artifact, seq<Entry>> {
    if seeds == [] then map[None := Histogram(joint)]
    else
      var seed := seeds[|seeds| - 1];
      ReleaseHistograms(load, seeds[..|seeds| - 1], joint)[Some(seed) := Histogram(load(seed))]
  }

  function BestSuccess(standalone: seq<Standalone>): (best: real)
    requires standalone != []
    ensures exists k :: 0 <= k < |standalone| && standalone[k].metrics.success == best
    ensures forall k :: 0 <= k < |standalone| ==> standalone[k].metrics.success <= best
  {
    var last := standalone[|standalone| - 1].metrics.success;
    if |standalone| == 1 then last
    else
      var rest := BestSuccess(standalone[..|standalone| - 1]);
      if rest < last then last else rest
  }

  function HonestRun(roster: seq<string>, seeds: seq<int>, load: int -> Matrix): Run
    requires roster != [] && seeds != [] && AreLoaded(load, seeds, |roster|)
  {
    var n := |roster|;
    var ms := Loaded(load, seeds);
    var joint := JointOf(load, seeds, n);
    var standalone := StandaloneMetrics(load, seeds, n);
    var counts := CellCounts(ms);
    Run(roster, n, standalone, MetricsOf(joint), ReleaseHistograms(load, seeds, joint),
        Increment(|Cells(joint)|, n), SumOfIncrements(counts, n),
        MetricsOf(joint).success - BestSuccess(standalone), WithinSum(|Cells(joint)|, counts, n))
  }

  lemma LoadedAreReleases(load: int -> Matrix, seeds: seq<int>, n: nat)
    requires AreLoaded(load, seeds, n)
    ensures AreReleases(Loaded(load, seeds), n)
  {
    hide IsLeafMatrix;
  }

  /** The loop over releases and the joint computation of `run_one`, from the common roster on. */
  method RunOne(roster: seq<string>, seeds: seq<int>, load: int -> Matrix, log2: real -> real, exp2: real -> real)
    returns (r: Result<Run, RunError>)
    requires AreLoaded(load, seeds, |roster|)
    ensures r == if seeds == [] then Err(NoReleases)
                 else if roster == [] then Err(EmptyRoster)
                 else Ok(HonestRun(roster, seeds, load))
  {
    hide Histogram, MetricsOf, Cells, BestSuccess, JointRow, IsHistogram, SumOfIncrements, TOLERANCE;
    if seeds == [] {
      return Err(NoReleases);
    }
    if roster == [] {
      return Err(EmptyRoster);
    }
    var n := |roster|;
    var matrices, standalone, naiveSum := CollectReleases(n, seeds, load, log2, exp2);
    JointIs(load, seeds, n);
    var joint := Joint(matrices, n);
    hide Joint, Loaded, StandaloneMetrics, CellCounts, HonestRun, ReleaseHistograms, Increment;
    var jointHistogram, jointMetrics, _ := SignatureHistogram(joint, log2, exp2);
    var jointIncrement := jointMetrics.success - 1.0 / n as real;
    var histograms := StoreHistograms(seeds, load, joint, jointHistogram);
    var best := BestSuccess(standalone);
    hide *;
    HonestFigures(roster, seeds, load);
    return Ok(Run(roster, n, standalone, jointMetrics, histograms, jointIncrement, naiveSum,
                  jointMetrics.success - best, jointIncrement <= naiveSum + TOLERANCE));
  }

  lemma HonestFigures(roster: seq<string>, seeds: seq<int>, load: int -> Matrix)
    requires roster != [] && seeds != [] && AreLoaded(load, seeds, |roster|)
    ensures
      var n, standalone := |roster|, StandaloneMetrics(load, seeds, |roster|);
      var joint, naiveSum := JointOf(load, seeds, n), SumOfIncrements(CellCounts(Loaded(load, seeds)), n);
      var jointIncrement := MetricsOf(joint).success - 1.0 / n as real;
      && HonestRun(roster, seeds, load)
         == Run(roster, n, standalone, MetricsOf(joint), ReleaseHistograms(load, seeds, joint), jointIncrement,
                naiveSum, MetricsOf(joint).success - BestSuccess(standalone), jointIncrement <= naiveSum + TOLERANCE)
  {
    hide *;
    JointIs(load, seeds, |roster|);
    SuccessIsShare(JointOf(load, seeds, |roster|));
    HonestParts(roster, seeds, load);
    HonestSums(roster, seeds, load);
  }

  lemma JointIs(load: int -> Matrix, seeds: seq<int>, n: nat)
    requires AreLoaded(load, seeds, n)
    ensures AreReleases(Loaded(load, seeds), n) && forall k :: 0 <= k < |seeds| ==> |Loaded(load, seeds)[k]| == n
    ensures JointOf(load, seeds, n) == Joint(Loaded(load, seeds), n)
  {
    WidthIsRosterOf(load, seeds, n);
    hide Joint;
  }

  lemma SuccessIsShare(leaves: Matrix)
    requires leaves != []
    ensures MetricsOf(leaves).success - 1.0 / |leaves| as real == Increment(|Cells(leaves)|, |leaves|)
    ensures MetricsOf(leaves).occupied == |Cells(leaves)| == |Histogram(leaves)|
    ensures MetricsOf(leaves).success == |Cells(leaves)| as real / |leaves| as real
  {
    MetricsRead(leaves);
    hide MetricsOf, Histogram, Cells;
  }

  lemma NextRelease(seeds: seq<int>, load: int -> Matrix, n: nat, k: nat)
    requires n > 0 && k < |seeds|
    ensures Loaded(load, seeds[..k + 1]) == Loaded(load, seeds[..k]) + [load(seeds[k])]
    ensures SumOfIncrements(CellCounts(Loaded(load, seeds[..k + 1])), n)
         == SumOfIncrements(CellCounts(Loaded(load, seeds[..k])), n) + Increment(|Cells(load(seeds[k]))|, n)
  {
    hide Increment, Cells;
    var before, after := CellCounts(Loaded(load, seeds[..k])), CellCounts(Loaded(load, seeds[..k + 1]));
    assert after[..k] == before && after[k] == |Cells(load(seeds[k]))|;
  }

  method CollectReleases(n: nat, seeds: seq<int>, load: int -> Matrix, log2: real -> real, exp2: real -> real)
    returns (matrices: seq<Matrix>, standalone: seq<Standalone>, naiveSum: real)
    requires n > 0 && AreLoaded(load, seeds, n)
    ensures matrices == Loaded(load, seeds) && standalone == StandaloneMetrics(load, seeds, n)
    ensures naiveSum == SumOfIncrements(CellCounts(matrices), n)
  {
    hide Histogram, MetricsOf, SumOfIncrements, CellCounts, Loaded, StandaloneMetrics;
    matrices, standalone, naiveSum := [], [], 0.0;
    NoReleasesSum(load, seeds[..0], n);
    for k := 0 to |seeds|
      invariant matrices == Loaded(load, seeds[..k])
      invariant standalone == StandaloneMetrics(load, seeds, n)[..k]
      invariant naiveSum == SumOfIncrements(CellCounts(Loaded(load, seeds[..k])), n)
    {
      var leaves := load(seeds[k]);
      var _, metrics, _ := SignatureHistogram(leaves, log2, exp2);
      SuccessIsShare(leaves);
      NextRelease(seeds, load, n, k);
      matrices := matrices + [leaves];
      standalone := standalone + [Standalone(seeds[k], metrics)];
      naiveSum := naiveSum + (metrics.success - 1.0 / n as real);
    }
    assert seeds[..|seeds|] == seeds;
  }

  lemma NoReleasesSum(load: int -> Matrix, seeds: seq<int>, n: nat)
    requires n > 0 && seeds == []
    ensures Loaded(load, seeds) == [] && SumOfIncrements(CellCounts(Loaded(load, seeds)), n) == 0.0
  {
  }

  /** The histogram artifacts: a repeated seed overwrites its entry. */
  method StoreHistograms(seeds: seq<int>, load: int -> Matrix, joint: Matrix, jointHistogram: seq<Entry>)
    returns (histograms: map<Artifact, seq<Entry>>)
    requires jointHistogram == Histogram(joint)
    ensures histograms == ReleaseHistograms(load, seeds, joint)
  {
    hide Histogram;
    histograms := map[None := jointHistogram];
    for k := 0 to |seeds|
      invariant histograms == ReleaseHistograms(load, seeds[..k], joint)
    {
      assert seeds[..k + 1][..k] == seeds[..k];
      histograms := histograms[Some(seeds[k]) := Histogram(load(seeds[k]))];
    }
    assert seeds[..|seeds|] == seeds;
  }

  // ---- Reviewing -------------------------------------------------------------------

  datatype Finding =
    | RosterMismatch
    | MissingHistogram(of: Artifact)
    | DuplicateSignatures(of: Artifact)
    | CountsOffRoster(of: Artifact)
    | OccupiedMismatch(of: Artifact)
    | MinimumMismatch(of: Artifact)
    | SumExceeded
    | LessIdentifying

  datatype ReviewError = EmptyHistogram | NoStandalone

  function Flag(bad: bool, finding: Finding): seq<Finding> {
    if bad then [finding] else []
  }

  function HistogramFindings(run: Run, of: Artifact, metrics: Metrics): Result<seq<Finding>, ReviewError> {
    if of !in run.histograms then Ok([MissingHistogram(of)])
    else
      var entries := run.histograms[of];
      if entries == [] then Err(EmptyHistogram)
      else
        Ok(Flag(!DistinctSignatures(entries), DuplicateSignatures(of))
           + Flag(Total(entries) != run.records, CountsOffRoster(of))
           + Flag(|entries| != metrics.occupied, OccupiedMismatch(of))
           + Flag(Minimum(entries) != metrics.minimum, MinimumMismatch(of)))
  }

  /** The findings about the roster, the joint histogram and the first n release histograms. */
  function FindingsUpTo(run: Run, n: nat): Result<seq<Finding>, ReviewError>
    requires n <= |run.standalone|
  {
    if n == 0 then
      match HistogramFindings(run, None, run.joint)
      case Err(e) => Err(e)
      case Ok(more) => Ok(Flag(|run.roster| != run.records || !Distinct(run.roster), RosterMismatch) + more)
    else
      match FindingsUpTo(run, n - 1)
      case Err(e) => Err(e)
      case Ok(found) =>
        match HistogramFindings(run, Some(run.standalone[n - 1].seed), run.standalone[n - 1].metrics)
        case Err(e) => Err(e)
        case Ok(more) => Ok(found + more)
  }

  function Review(run: Run): Result<seq<Finding>, ReviewError> {
    match FindingsUpTo(run, |run.standalone|)
    case Err(e) => Err(e)
    case Ok(found) =>
      if run.standalone == [] then Err(NoStandalone)
      else
        Ok(found + Flag(run.jointIncrement > run.naiveSum + TOLERANCE, SumExceeded)
           + Flag(run.joint.success + TOLERANCE < BestSuccess(run.standalone), LessIdentifying))
  }

  /** `validate_run`, from the roster check on. */
  method ValidateRun(run: Run) returns (r: Result<seq<Finding>, ReviewError>)
    ensures r == Review(run)
  {
    hide BestSuccess, Minimum, TOLERANCE, Flag, HistogramFindings;
    var errors := Flag(|run.roster| != run.records || !Distinct(run.roster), RosterMismatch);
    var found := ReviewHistogram(run, None, run.joint);
    if found.Err? {
      FailureStays(run, 0, |run.standalone|);
      return Err(found.error);
    }
    errors := errors + found.value;
    for n := 0 to |run.standalone|
      invariant FindingsUpTo(run, n) == Ok(errors)
    {
      found := ReviewHistogram(run, Some(run.standalone[n].seed), run.standalone[n].metrics);
      if found.Err? {
        FailureStays(run, n + 1, |run.standalone|);
        return Err(found.error);
      }
      errors := errors + found.value;
    }
    errors := errors + Flag(run.jointIncrement > run.naiveSum + TOLERANCE, SumExceeded);
    if run.standalone == [] {
      return Err(NoStandalone);
    }
    errors := errors + Flag(run.joint.success + TOLERANCE < BestSuccess(run.standalone), LessIdentifying);
    return Ok(errors);
  }

  lemma {:induction false} FailureStays(run: Run, m: nat, n: nat)
    requires m <= n <= |run.standalone| && FindingsUpTo(run, m).Err?
    ensures FindingsUpTo(run, n) == FindingsUpTo(run, m)
  {
    hide HistogramFindings, Flag;
    if m < n {
      FailureStays(run, m, n - 1);
    }
  }

  method ReviewHistogram(run: Run, of: Artifact, metrics: Metrics) returns (r: Result<seq<Finding>, ReviewError>)
    ensures r == HistogramFindings(run, of, metrics)
  {
    if of !in run.histograms {
      return Ok([MissingHistogram(of)]);
    }
    var entries := run.histograms[of];
    hide DistinctSignatures, Total, Minimum;
    var errors := Flag(!DistinctSignatures(entries), DuplicateSignatures(of));
    errors := errors + Flag(Total(entries) != run.records, CountsOffRoster(of));
    errors := errors + Flag(|entries| != metrics.occupied, OccupiedMismatch(of));
    if entries == [] {
      return Err(EmptyHistogram);
    }
    errors := errors + Flag(Minimum(entries) != metrics.minimum, MinimumMismatch(of));
    return Ok(errors);
  }

  // ---- What the review finds -------------------------------------------------------

  /** The k-th histogram under review with the metrics it is checked against: the joint one first. */
  function Checked(run: Run, k: nat): (Artifact, Metrics)
    requires k <= |run.standalone|
  {
    if k == 0 then (None, run.joint) else (Some(run.standalone[k - 1].seed), run.standalone[k - 1].metrics)
  }

  /** What it takes for a finding about one histogram to be right. */
  ghost predicate IsWrong(run: Run, of: Artifact, metrics: Metrics, finding: Finding) {
    match finding
    case MissingHistogram(a) => a == of && of !in run.histograms
    case DuplicateSignatures(a) =>
      && a == of && of in run.histograms
      && exists i, j :: 0 <= i < j < |run.histograms[of]|
                        && run.histograms[of][i].signature == run.histograms[of][j].signature
    case CountsOffRoster(a) => a == of && of in run.histograms && Total(run.histograms[of]) != run.records
    case OccupiedMismatch(a) => a == of && of in run.histograms && |run.histograms[of]| != metrics.occupied
    case MinimumMismatch(a) =>
      && a == of && of in run.histograms && !IsLeastCount(run.histograms[of], metrics.minimum)
    case _ => false
  }

  /** The least count: some entry has it and none a smaller one. */
  ghost predicate IsLeastCount(entries: seq<Entry>, least: int) {
    && (exists i :: 0 <= i < |entries| && entries[i].count == least)
    && forall i :: 0 <= i < |entries| ==> entries[i].count >= least
  }

  /** Whether the artifact's histogram is present and agrees with the run and its metrics. */
  ghost predicate HistogramAgrees(run: Run, of: Artifact, metrics: Metrics) {
    && of in run.histograms && run.histograms[of] != []
    && (forall i, j :: 0 <= i < j < |run.histograms[of]| ==>
          run.histograms[of][i].signature != run.histograms[of][j].signature)
    && Total(run.histograms[of]) == run.records
    && |run.histograms[of]| == metrics.occupied
    && IsLeastCount(run.histograms[of], metrics.minimum)
  }

  /** What it takes for a finding about the run to be right. */
  ghost predicate IsRight(run: Run, finding: Finding) {
    match finding
    case RosterMismatch =>
      |run.roster| != run.records || exists i, j :: 0 <= i < j < |run.roster| && run.roster[i] == run.roster[j]
    case SumExceeded => run.jointIncrement > run.naiveSum + 0.000000000001
    case LessIdentifying =>
      exists k :: 0 <= k < |run.standalone|
                  && run.standalone[k].metrics.success > run.joint.success + 0.000000000001
    case _ => IsWrongUpTo(run, |run.standalone|, finding)
  }

  /** A finding about one of the first histograms. */
  ghost predicate IsWrongUpTo(run: Run, n: nat, finding: Finding)
    requires n <= |run.standalone|
  {
    exists k: nat :: k <= n && IsWrong(run, Checked(run, k).0, Checked(run, k).1, finding)
  }

  /** The histogram is present without any entry, where the script takes the least of no counts. */
  predicate IsEmpty(run: Run, of: Artifact) {
    of in run.histograms && run.histograms[of] == []
  }

  lemma FlagLists(bad: bool, flagged: Finding, finding: Finding)
    ensures finding in Flag(bad, flagged) <==> bad && finding == flagged
  {
  }

  lemma MinimumIsLeast(entries: seq<Entry>, least: int)
    requires entries != []
    ensures Minimum(entries) == least <==> IsLeastCount(entries, least)
  {
    var k :| 0 <= k < |entries| && entries[k].count == Minimum(entries);
    hide Minimum;
  }

  /** The findings about one histogram are exactly the ones that are right about it. */
  lemma HistogramFindingsExactly(run: Run, of: Artifact, metrics: Metrics, finding: Finding)
    ensures HistogramFindings(run, of, metrics).Err? <==> IsEmpty(run, of)
    ensures HistogramFindings(run, of, metrics).Err? ==> HistogramFindings(run, of, metrics).error == EmptyHistogram
    ensures HistogramFindings(run, of, metrics).Ok? ==>
      (finding in HistogramFindings(run, of, metrics).value <==> IsWrong(run, of, metrics, finding))
  {
    hide Total, Flag, Minimum, IsLeastCount;
    if of in run.histograms && run.histograms[of] != [] {
      var entries := run.histograms[of];
      MinimumIsLeast(entries, metrics.minimum);
      FlagLists(!DistinctSignatures(entries), DuplicateSignatures(of), finding);
      FlagLists(Total(entries) != run.records, CountsOffRoster(of), finding);
      FlagLists(|entries| != metrics.occupied, OccupiedMismatch(of), finding);
      FlagLists(Minimum(entries) != metrics.minimum, MinimumMismatch(of), finding);
    }
  }

  lemma IsWrongNext(run: Run, n: nat, finding: Finding)
    requires n <= |run.standalone|
    ensures IsWrongUpTo(run, n, finding)
       <==> (n > 0 && IsWrongUpTo(run, n - 1, finding))
            || IsWrong(run, Checked(run, n).0, Checked(run, n).1, finding)
  {
    hide IsWrong;
  }

  lemma {:induction false} FindingsUpToExactly(run: Run, n: nat, finding: Finding)
    requires n <= |run.standalone|
    ensures FindingsUpTo(run, n).Err? <==> exists k: nat :: k <= n && IsEmpty(run, Checked(run, k).0)
    ensures FindingsUpTo(run, n).Err? ==> FindingsUpTo(run, n).error == EmptyHistogram
    ensures FindingsUpTo(run, n).Ok? ==>
      (finding in FindingsUpTo(run, n).value
       <==> (finding == RosterMismatch && IsRight(run, finding)) || IsWrongUpTo(run, n, finding))
  {
    var of, metrics := Checked(run, n).0, Checked(run, n).1;
    HistogramFindingsExactly(run, of, metrics, finding);
    IsWrongNext(run, n, finding);
    hide HistogramFindings, IsWrong, IsWrongUpTo, IsEmpty;
    if n > 0 {
      FindingsUpToExactly(run, n - 1, finding);
    } else {
      FlagLists(|run.roster| != run.records || !Distinct(run.roster), RosterMismatch, finding);
    }
  }

  /** The review lists exactly the findings that are right about the run, and raises exactly for an empty
      histogram or, else, for a run without releases. */
  lemma FindingsExactly(run: Run, finding: Finding)
    ensures Review(run) == Err(EmptyHistogram)
       <==> exists k: nat :: k <= |run.standalone| && IsEmpty(run, Checked(run, k).0)
    ensures Review(run).Err? ==> Review(run) == Err(EmptyHistogram) || run.standalone == []
    ensures Review(run).Ok? ==> run.standalone != [] && (finding in Review(run).value <==> IsRight(run, finding))
  {
    FindingsUpToExactly(run, |run.standalone|, finding);
    hide FindingsUpTo, IsEmpty, IsWrongUpTo, Checked;
    if run.standalone != [] {
      LessIdentifyingExactly(run);
      hide BestSuccess;
      FlagLists(run.jointIncrement > run.naiveSum + TOLERANCE, SumExceeded, finding);
      FlagLists(run.joint.success + TOLERANCE < BestSuccess(run.standalone), LessIdentifying, finding);
      if finding.RosterMismatch? || finding.SumExceeded? || finding.LessIdentifying? {
        OnlyHistogramsAreWrong(run, finding);
      }
    }
  }

  lemma LessIdentifyingExactly(run: Run)
    requires run.standalone != []
    ensures run.joint.success + TOLERANCE < BestSuccess(run.standalone) <==> IsRight(run, LessIdentifying)
  {
    var best := BestSuccess(run.standalone);
    var k :| 0 <= k < |run.standalone| && run.standalone[k].metrics.success == best;
  }

  lemma OnlyHistogramsAreWrong(run: Run, finding: Finding)
    requires finding.RosterMismatch? || finding.SumExceeded? || finding.LessIdentifying?
    ensures !IsWrongUpTo(run, |run.standalone|, finding)
  {
  }

  /** A run passes its review exactly when its roster is one of distinct records of the stated number,
      every histogram is present, lists distinct signatures, sums to the records and has the stated cells
      and least count, and both numeric bounds hold. */
  lemma PassesExactly(run: Run)
    ensures Review(run) == Ok([])
       <==> && run.standalone != []
            && |run.roster| == run.records && Distinct(run.roster)
            && (forall k: nat :: k <= |run.standalone| ==> HistogramAgrees(run, Checked(run, k).0, Checked(run, k).1))
            && run.jointIncrement <= run.naiveSum + 0.000000000001
            && forall k :: 0 <= k < |run.standalone| ==>
                 run.standalone[k].metrics.success <= run.joint.success + 0.000000000001
  {
    PassesWhenNothingIsRight(run);
    NothingIsRight(run);
    hide Review;
    forall k: nat | k <= |run.standalone|
      ensures HistogramAgrees(run, Checked(run, k).0, Checked(run, k).1)
         <==> !IsEmpty(run, Checked(run, k).0) && NothingWrong(run, k)
    {
      AgreesExactly(run, k);
    }
    hide HistogramAgrees, IsWrong, IsEmpty, Checked, NothingWrong, IsWrongUpTo;
    BoundsAreRight(run);
    hide IsRight;
  }

  lemma BoundsAreRight(run: Run)
    ensures !IsRight(run, RosterMismatch) <==> |run.roster| == run.records && Distinct(run.roster)
    ensures !IsRight(run, SumExceeded) <==> run.jointIncrement <= run.naiveSum + 0.000000000001
    ensures !IsRight(run, LessIdentifying)
       <==> forall k :: 0 <= k < |run.standalone| ==>
              run.standalone[k].metrics.success <= run.joint.success + 0.000000000001
  {
  }

  lemma PassesWhenNothingIsRight(run: Run)
    ensures Review(run) == Ok([])
       <==> && run.standalone != [] && (forall finding :: !IsRight(run, finding))
            && forall k: nat :: k <= |run.standalone| ==> !IsEmpty(run, Checked(run, k).0)
  {
    FindingsExactly(run, RosterMismatch);
    forall finding ensures Review(run).Ok? ==> (finding in Review(run).value <==> IsRight(run, finding)) {
      FindingsExactly(run, finding);
    }
    hide IsRight, Review, IsEmpty, Checked;
    if Review(run).Ok? && Review(run).value != [] {
      assert Review(run).value[0] in Review(run).value;
    }
  }

  /** None of the findings about the k-th histogram is right. */
  ghost predicate NothingWrong(run: Run, k: nat)
    requires k <= |run.standalone|
  {
    forall finding :: !IsWrong(run, Checked(run, k).0, Checked(run, k).1, finding)
  }

  lemma AgreesExactly(run: Run, k: nat)
    requires k <= |run.standalone|
    ensures HistogramAgrees(run, Checked(run, k).0, Checked(run, k).1)
       <==> !IsEmpty(run, Checked(run, k).0) && NothingWrong(run, k)
  {
    var (of, metrics) := Checked(run, k);
    hide Total, IsLeastCount;
    if NothingWrong(run, k) {
      assert !IsWrong(run, of, metrics, MissingHistogram(of));
      assert !IsWrong(run, of, metrics, DuplicateSignatures(of));
      assert !IsWrong(run, of, metrics, CountsOffRoster(of));
      assert !IsWrong(run, of, metrics, OccupiedMismatch(of));
      assert !IsWrong(run, of, metrics, MinimumMismatch(of));
    }
  }

  lemma NothingIsRight(run: Run)
    ensures (forall finding :: !IsRight(run, finding))
       <==> && !IsRight(run, RosterMismatch) && !IsRight(run, SumExceeded) && !IsRight(run, LessIdentifying)
            && forall k: nat :: k <= |run.standalone| ==> NothingWrong(run, k)
  {
    hide IsWrong, Checked;
    if forall finding :: !IsRight(run, finding) {
      forall k: nat | k <= |run.standalone| ensures NothingWrong(run, k) {
        forall finding ensures !IsWrong(run, Checked(run, k).0, Checked(run, k).1, finding) {
          WrongIsRight(run, k, finding);
        }
      }
    } else {
      var finding :| IsRight(run, finding);
      RightIsWrongSomewhere(run, finding);
    }
  }

  lemma RightIsWrongSomewhere(run: Run, finding: Finding)
    requires IsRight(run, finding)
    ensures finding == RosterMismatch || finding == SumExceeded || finding == LessIdentifying
            || exists k: nat :: k <= |run.standalone| && !NothingWrong(run, k)
  {
    if IsWrongUpTo(run, |run.standalone|, finding) {
      var k: nat :| k <= |run.standalone| && IsWrong(run, Checked(run, k).0, Checked(run, k).1, finding);
      assert !NothingWrong(run, k);
    }
  }

  lemma WrongIsRight(run: Run, k: nat, finding: Finding)
    requires k <= |run.standalone|
    ensures IsWrong(run, Checked(run, k).0, Checked(run, k).1, finding) ==> IsRight(run, finding)
  {
    assert IsWrong(run, Checked(run, k).0, Checked(run, k).1, finding) ==> IsWrongUpTo(run, |run.standalone|, finding);
  }

  // ---- What the review of an honest run finds --------------------------------------

  /** The artifacts hold each release's own histogram, also when a seed repeats. */
  lemma {:induction false} StoredHistograms(load: int -> Matrix, seeds: seq<int>, joint: Matrix)
    ensures var stored := ReleaseHistograms(load, seeds, joint);
      && None in stored && stored[None] == Histogram(joint)
      && forall k :: 0 <= k < |seeds| ==>
        Some(seeds[k]) in stored && stored[Some(seeds[k])] == Histogram(load(seeds[k]))
  {
    hide Histogram;
    if seeds != [] {
      StoredHistograms(load, seeds[..|seeds| - 1], joint);
    }
  }

  lemma HonestHistogramIsClean(run: Run, of: Artifact, leaves: Matrix)
    requires leaves != [] && run.records == |leaves|
    requires of in run.histograms && run.histograms[of] == Histogram(leaves)
    ensures HistogramFindings(run, of, MetricsOf(leaves)) == Ok([])
  {
    hide *;
    var entries := Histogram(leaves);
    HistogramIsHistogram(leaves);
    HistogramFacts(entries, leaves);
    MetricsRead(leaves);
    NoFindings(run, of, MetricsOf(leaves));
  }

  lemma NoFindings(run: Run, of: Artifact, metrics: Metrics)
    requires of in run.histograms && run.histograms[of] != [] && DistinctSignatures(run.histograms[of])
    requires Total(run.histograms[of]) == run.records && |run.histograms[of]| == metrics.occupied
    requires Minimum(run.histograms[of]) == metrics.minimum
    ensures HistogramFindings(run, of, metrics) == Ok([])
  {
    hide DistinctSignatures, Total, Minimum;
    var none: seq<Finding> := [];
    assert none + none + none + none == none;
  }

  lemma HonestParts(roster: seq<string>, seeds: seq<int>, load: int -> Matrix)
    requires roster != [] && seeds != [] && AreLoaded(load, seeds, |roster|)
    ensures var run, joint := HonestRun(roster, seeds, load), JointOf(load, seeds, |roster|);
      && run.roster == roster && run.records == |roster| && run.joint == MetricsOf(joint)
      && run.histograms == ReleaseHistograms(load, seeds, joint)
      && run.standalone == StandaloneMetrics(load, seeds, |roster|)
      && run.withinSum == (run.jointIncrement <= run.naiveSum + TOLERANCE)
  {
    hide Histogram, MetricsOf, BestSuccess, Cells, Increment, SumOfIncrements, CellCounts, JointRow, ReleaseHistograms;
  }

  lemma HonestHistogramsAreClean(roster: seq<string>, seeds: seq<int>, load: int -> Matrix, k: nat)
    requires roster != [] && seeds != [] && AreLoaded(load, seeds, |roster|) && k < |seeds|
    ensures var run := HonestRun(roster, seeds, load);
      && HistogramFindings(run, None, run.joint) == Ok([])
      && |run.standalone| == |seeds|
      && HistogramFindings(run, Some(run.standalone[k].seed), run.standalone[k].metrics) == Ok([])
  {
    hide HonestRun, Histogram, MetricsOf, JointRow, Joint, HistogramFindings, ReleaseHistograms, Loaded,
      StandaloneMetrics;
    var run, joint := HonestRun(roster, seeds, load), JointOf(load, seeds, |roster|);
    HonestParts(roster, seeds, load);
    StoredHistograms(load, seeds, joint);
    HonestHistogramIsClean(run, None, joint);
    HonestHistogramIsClean(run, Some(seeds[k]), load(seeds[k]));
  }

  lemma {:induction false} HonestFindings(roster: seq<string>, seeds: seq<int>, load: int -> Matrix, k: nat)
    requires roster != [] && seeds != [] && AreLoaded(load, seeds, |roster|) && Distinct(roster)
    requires k <= |seeds| == |HonestRun(roster, seeds, load).standalone|
    ensures FindingsUpTo(HonestRun(roster, seeds, load), k) == Ok([])
  {
    hide HonestRun, HistogramFindings, AreLoaded, Distinct;
    var none: seq<Finding> := [];
    assert none + none == none;
    if k == 0 {
      HonestParts(roster, seeds, load);
      HonestHistogramsAreClean(roster, seeds, load, 0);
    } else {
      HonestFindings(roster, seeds, load, k - 1);
      HonestHistogramsAreClean(roster, seeds, load, k - 1);
    }
  }

  /** A joint release is never reported less identifying than its best component. */
  lemma AmplificationIsNonNegative(roster: seq<string>, seeds: seq<int>, load: int -> Matrix)
    requires roster != [] && seeds != [] && AreLoaded(load, seeds, |roster|)
    ensures HonestRun(roster, seeds, load).amplification >= 0.0
  {
    hide MetricsOf, Histogram, Cells, WithinSum, SumOfIncrements, CellCounts, JointRow, ReleaseHistograms, IsLeafMatrix,
      Loaded;
    var n, ms := |roster|, Loaded(load, seeds);
    var standalone := StandaloneMetrics(load, seeds, n);
    LoadedAreReleases(load, seeds, n);
    var k :| 0 <= k < |standalone| && standalone[k].metrics.success == BestSuccess(standalone);
    WidthIsRoster(ms, n);
    JointCellsExactly(ms, n, k);
    SuccessIsShare(Joint(ms, n));
    SuccessIsShare(ms[k]);
    ValueOrder(|Cells(ms[k])|, |Cells(JointOf(load, seeds, n))|, n);
  }

  /** The review of an honest run raises nothing but, where the sum of increments is exceeded, the
      finding that it exceeds the bound. */
  lemma HonestReview(roster: seq<string>, seeds: seq<int>, load: int -> Matrix)
    requires roster != [] && seeds != [] && AreLoaded(load, seeds, |roster|) && Distinct(roster)
    ensures var ms := Loaded(load, seeds);
      AreReleases(ms, |roster|)
      && Review(HonestRun(roster, seeds, load))
         == Ok(Flag(!WithinSum(|Cells(JointOf(load, seeds, |roster|))|, CellCounts(ms), |roster|), SumExceeded))
  {
    hide *;
    var run, ms := HonestRun(roster, seeds, load), Loaded(load, seeds);
    HonestShape(roster, seeds, load);
    HonestFindings(roster, seeds, load, |seeds|);
    AmplificationIsNonNegative(roster, seeds, load);
    CleanReview(run);
  }

  lemma HonestShape(roster: seq<string>, seeds: seq<int>, load: int -> Matrix)
    requires roster != [] && seeds != [] && AreLoaded(load, seeds, |roster|)
    ensures var run, ms := HonestRun(roster, seeds, load), Loaded(load, seeds);
      && AreReleases(ms, |roster|)
      && |run.standalone| == |seeds|
      && run.amplification == run.joint.success - BestSuccess(run.standalone)
      && (run.jointIncrement <= run.naiveSum + TOLERANCE
        <==> WithinSum(|Cells(JointOf(load, seeds, |roster|))|, CellCounts(ms), |roster|))
  {
    hide HonestRun, MetricsOf, Increment, SumOfIncrements, CellCounts, BestSuccess, ReleaseHistograms, JointRow, Cells,
      Histogram, AreLoaded, TOLERANCE, Joint;
    LoadedAreReleases(load, seeds, |roster|);
    WidthIsRoster(Loaded(load, seeds), |roster|);
    HonestParts(roster, seeds, load);
    HonestSums(roster, seeds, load);
  }

  lemma HonestSums(roster: seq<string>, seeds: seq<int>, load: int -> Matrix)
    requires roster != [] && seeds != [] && AreLoaded(load, seeds, |roster|)
    ensures var run, ms, n := HonestRun(roster, seeds, load), Loaded(load, seeds), |roster|;
      && run.jointIncrement == Increment(|Cells(JointOf(load, seeds, n))|, n)
      && run.naiveSum == SumOfIncrements(CellCounts(ms), n)
      && |run.standalone| == |seeds|
      && run.amplification == run.joint.success - BestSuccess(run.standalone)
  {
    hide MetricsOf, Increment, SumOfIncrements, CellCounts, BestSuccess, ReleaseHistograms, JointRow, Cells, Histogram,
      TOLERANCE, WithinSum;
  }

  lemma CleanReview(run: Run)
    requires run.standalone != [] && FindingsUpTo(run, |run.standalone|) == Ok([])
    requires run.joint.success >= BestSuccess(run.standalone)
    ensures Review(run) == Ok(Flag(run.jointIncrement > run.naiveSum + TOLERANCE, SumExceeded))
  {
    hide FindingsUpTo, BestSuccess;
    var flagged := Flag(run.jointIncrement > run.naiveSum + TOLERANCE, SumExceeded);
    assert [] + flagged + [] == flagged;
  }

  /** An honest run on fewer than 10^12 records passes exactly when its joint cells stay within the
      sum of the components' extra cells. */
  lemma HonestRunPassesExactly(roster: seq<string>, seeds: seq<int>, load: int -> Matrix)
    requires 0 < |roster| < 1000000000000 && seeds != [] && AreLoaded(load, seeds, |roster|) && Distinct(roster)
    ensures var ms := Loaded(load, seeds);
      AreReleases(ms, |roster|)
      && (Review(HonestRun(roster, seeds, load)) == Ok([])
          <==> |Cells(JointOf(load, seeds, |roster|))| - 1 <= Excess(CellCounts(ms)))
  {
    hide Review, WithinSum, Excess, HonestRun, AreLoaded, Distinct, CellCounts, Cells, AreReleases, JointRow, Joint;
    HonestReview(roster, seeds, load);
    var ms := Loaded(load, seeds);
    WidthIsRoster(ms, |roster|);
    SumBoundExactly(|Cells(JointOf(load, seeds, |roster|))|, CellCounts(ms), |roster|);
  }

  /** An honest run over fully crossed releases passes exactly when at most one of them separates any
      records at all. */
  lemma CrossedRunPassesExactly(roster: seq<string>, seeds: seq<int>, load: int -> Matrix)
    requires 0 < |roster| < 1000000000000 && seeds != [] && AreLoaded(load, seeds, |roster|) && Distinct(roster)
    requires AreReleases(Loaded(load, seeds), |roster|) && AreCrossed(Loaded(load, seeds), |roster|)
    ensures Review(HonestRun(roster, seeds, load)) == Ok([]) <==> AtMostOneAboveOne(CellCounts(Loaded(load, seeds)))
  {
    hide Review, WithinSum, HonestRun, AreLoaded, Distinct, CellCounts, Cells, AreReleases, AreCrossed, JointRow, Joint,
      AtMostOneAboveOne;
    var ms := Loaded(load, seeds);
    WidthIsRoster(ms, |roster|);
    HonestReview(roster, seeds, load);
    CrossedReleasesBreakTheBound(ms, |roster|);
  }

  /** The review never recomputes a success value.  An accepted run stays accepted with another
      joint success exactly while that reaches the best reported component, tolerance included. */
  lemma AcceptedJointSuccessExactly(run: Run, success: real)
    requires Review(run) == Ok([])
    ensures Review(Restated(run, success)) == Ok([]) <==> success + TOLERANCE >= BestSuccess(run.standalone)
  {
    hide FindingsUpTo, BestSuccess, TOLERANCE;
    SameFindings(run, Restated(run, success), |run.standalone|);
  }

  function Restated(run: Run, success: real): Run {
    run.(joint := run.joint.(success := success))
  }

  /** The joint success that a run's own joint histogram gives. */
  predicate IsTrueSuccess(run: Run) {
    None in run.histograms && run.records > 0
    && run.joint.success == |run.histograms[None]| as real / run.records as real
  }

  /** Any honest accepted run can be restated so that the review still accepts it while its own
      histogram contradicts it: every greater joint success will do. */
  lemma AcceptedRunMayContradictItself(roster: seq<string>, seeds: seq<int>, load: int -> Matrix, success: real)
    requires roster != [] && seeds != [] && AreLoaded(load, seeds, |roster|)
    requires Review(HonestRun(roster, seeds, load)) == Ok([])
    requires success > HonestRun(roster, seeds, load).joint.success
    ensures IsTrueSuccess(HonestRun(roster, seeds, load))
    ensures Review(Restated(HonestRun(roster, seeds, load), success)) == Ok([])
    ensures !IsTrueSuccess(Restated(HonestRun(roster, seeds, load), success))
  {
    hide *;
    var run := HonestRun(roster, seeds, load);
    HonestSuccessIsTrue(roster, seeds, load);
    RestatedIsFalse(run, success);
    AmplificationIsNonNegative(roster, seeds, load);
    HonestShape(roster, seeds, load);
    AcceptedJointSuccessExactly(run, success);
    assert TOLERANCE >= 0.0 by {
      ToleranceIsPositive();
    }
  }

  lemma ToleranceIsPositive()
    ensures TOLERANCE > 0.0
  {
  }

  lemma HonestSuccessIsTrue(roster: seq<string>, seeds: seq<int>, load: int -> Matrix)
    requires roster != [] && seeds != [] && AreLoaded(load, seeds, |roster|)
    ensures IsTrueSuccess(HonestRun(roster, seeds, load))
  {
    hide HonestRun, Histogram, MetricsOf, JointRow, Joint, ReleaseHistograms, Loaded, StandaloneMetrics;
    var joint := JointOf(load, seeds, |roster|);
    HonestParts(roster, seeds, load);
    StoredHistograms(load, seeds, joint);
    SuccessIsShare(joint);
  }

  lemma RestatedIsFalse(run: Run, success: real)
    requires IsTrueSuccess(run) && success != run.joint.success
    ensures !IsTrueSuccess(Restated(run, success))
  {
  }

  /** One record and one release: the honest run passes with joint success 1, and a claimed joint
      success of 2 passes as well. */
  lemma DoubledSuccessIsAccepted()
    ensures var run := HonestRun(["record"], [0], OneLeaf);
      && AreLoaded(OneLeaf, [0], 1)
      && Review(run) == Ok([]) && run.joint.success == 1.0
      && Review(Restated(run, 2.0)) == Ok([]) && !IsTrueSuccess(Restated(run, 2.0))
  {
    hide Review, HonestRun, Histogram, MetricsOf, ReleaseHistograms, BestSuccess;
    var load, roster, seeds := OneLeaf, ["record"], [0];
    var ms := Loaded(load, seeds);
    LoadedAreReleases(load, seeds, 1);
    assert ms == [OneLeaf(0)] && ms[..0] == [];
    JointOfOne(OneLeaf(0));
    OneCell();
    assert CellCounts(ms) == [1];
    assert Excess([1]) == 0 by {
      assert [1][..0] == [];
    }
    HonestRunPassesExactly(roster, seeds, load);
    HonestParts(roster, seeds, load);
    SuccessIsShare([[0]]);
    AcceptedRunMayContradictItself(roster, seeds, load, 2.0);
  }

  lemma JointOfOne(m: Matrix)
    ensures Joint([m], |m|) == m
  {
    forall i | 0 <= i < |m| ensures JointRow([m], i) == m[i] {
      assert [m][..0] == [] && [] + m[i] == m[i];
    }
  }

  lemma OneCell()
    ensures |Cells(OneLeaf(0))| == 1
  {
    assert Cells(OneLeaf(0)) == {[0]};
  }

  function OneLeaf(seed: int): Matrix {
    [[0]]
  }

  lemma {:induction false} SameFindings(run: Run, other: Run, n: nat)
    requires n <= |run.standalone| && other == run.(joint := run.joint.(success := other.joint.success))
    ensures FindingsUpTo(other, n) == FindingsUpTo(run, n)
  {
    hide DistinctSignatures, Total, Minimum, Flag, Distinct;
    if n > 0 {
      SameFindings(run, other, n - 1);
    }
  }
}
