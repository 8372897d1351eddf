/** The figures of the manifest that the composition script writes, in terms of the releases alone. */
module CompositionManifest {
  import opened Arithmetic
  import opened FiniteSets
  import opened Results
  import opened Sums
  import opened DecisionWitnesses
  import opened SignatureHistograms
  import opened ReleaseComposition
  import opened CompositionReplay

  /** What the increments of the releases add up to, once scaled by the records. */
  ghost function CellsBeyondOne(load: int -> Matrix, seeds: seq<int>): real {
    Sum(|seeds|, k => if 0 <= k < |seeds| then |Cells(load(seeds[k]))| as real - 1.0 else 0.0)
  }

  lemma {:induction false} ScaledIncrements(ms: seq<Matrix>, n: nat, f: int -> real)
    requires n > 0 && forall k :: 0 <= k < |ms| ==> f(k) == |Cells(ms[k])| as real - 1.0
    ensures OverRecords(SumOfIncrements(CellCounts(ms), n), n) == Sum(|ms|, f)
    decreases |ms|
  {
    hide Cells;
    if ms != [] {
      var last := |ms| - 1;
      ScaledIncrements(ms[..last], n, f);
      assert CellCounts(ms)[..last] == CellCounts(ms[..last]);
      IncrementScaled(|Cells(ms[last])|, n);
      hide Increment;
      Distributes(SumOfIncrements(CellCounts(ms[..last]), n), Increment(|Cells(ms[last])|, n), n as real);
    }
  }

  lemma Distributes(a: real, b: real, c: real)
    ensures (a + b) * c == a * c + b * c
  {
  }

  lemma IncrementScaled(cells: nat, n: nat)
    requires n > 0
    ensures OverRecords(Increment(cells, n), n) == cells as real - 1.0
  {
    QuotientTimes(cells as real, n as real);
    QuotientTimes(1.0, n as real);
    Distributes(cells as real / n as real, -(1.0 / n as real), n as real);
    assert -(1.0 / n as real) * n as real == -1.0;
  }

  /** A share of the records as a number of them. */
  function OverRecords(share: real, records: nat): real {
    share * records as real
  }

  /** The manifest of a run: each release with its seed and its success; the joint success; the increments,
      scaled by the records; how far the joint release exceeds the best component; the flag; and a histogram
      for the joint partition and for every release, and for nothing else. */
  lemma ManifestIsExact(roster: seq<string>, seeds: seq<int>, load: int -> Matrix)
    requires roster != [] && seeds != [] && AreLoaded(load, seeds, |roster|)
    ensures
      var run, n, joint := HonestRun(roster, seeds, load), |roster|, JointOf(load, seeds, |roster|);
      && run.roster == roster && run.records == n && |run.standalone| == |seeds|
      && (forall k :: 0 <= k < |seeds| ==>
            && run.standalone[k].seed == seeds[k]
            && OverRecords(run.standalone[k].metrics.success, n) == |Cells(load(seeds[k]))| as real)
      && OverRecords(run.joint.success, n) == |Cells(joint)| as real
      && OverRecords(run.jointIncrement, n) == |Cells(joint)| as real - 1.0
      && OverRecords(run.naiveSum, n) == CellsBeyondOne(load, seeds)
      && (forall k :: 0 <= k < |seeds| ==> run.amplification <= run.joint.success - run.standalone[k].metrics.success)
      && (exists k :: 0 <= k < |seeds|
                      && run.amplification == run.joint.success - run.standalone[k].metrics.success)
      && (run.withinSum <==> run.jointIncrement <= run.naiveSum + 0.000000000001)
  {
    hide *;
    ManifestCounts(roster, seeds, load);
    ManifestIncrements(roster, seeds, load);
    ManifestAmplification(roster, seeds, load);
  }

  lemma ManifestCounts(roster: seq<string>, seeds: seq<int>, load: int -> Matrix)
    requires roster != [] && seeds != [] && AreLoaded(load, seeds, |roster|)
    ensures
      var run, n, joint := HonestRun(roster, seeds, load), |roster|, JointOf(load, seeds, |roster|);
      && run.roster == roster && run.records == n && |run.standalone| == |seeds|
      && (forall k :: 0 <= k < |seeds| ==>
            && run.standalone[k].seed == seeds[k]
            && OverRecords(run.standalone[k].metrics.success, n) == |Cells(load(seeds[k]))| as real)
      && OverRecords(run.joint.success, n) == |Cells(joint)| as real
  {
    HonestParts(roster, seeds, load);
    ScaledFigures(roster, seeds, load);
    hide OverRecords, HonestRun, JointOf, MetricsOf, Cells, ReleaseHistograms, SumOfIncrements, Increment,
      CellsBeyondOne;
    var run, n := HonestRun(roster, seeds, load), |roster|;
    forall k | 0 <= k < |seeds|
      ensures run.standalone[k].seed == seeds[k]
      ensures OverRecords(run.standalone[k].metrics.success, n) == |Cells(load(seeds[k]))| as real
    {
      assert run.standalone[k] == Standalone(seeds[k], MetricsOf(load(seeds[k])));
    }
  }

  lemma ManifestIncrements(roster: seq<string>, seeds: seq<int>, load: int -> Matrix)
    requires roster != [] && seeds != [] && AreLoaded(load, seeds, |roster|)
    ensures
      var run, n, joint := HonestRun(roster, seeds, load), |roster|, JointOf(load, seeds, |roster|);
      && OverRecords(run.jointIncrement, n) == |Cells(joint)| as real - 1.0
      && OverRecords(run.naiveSum, n) == CellsBeyondOne(load, seeds)
      && (run.withinSum <==> run.jointIncrement <= run.naiveSum + 0.000000000001)
  {
    assert TOLERANCE == 0.000000000001;
    hide *;
    var run, n := HonestRun(roster, seeds, load), |roster|;
    HonestParts(roster, seeds, load);
    HonestSums(roster, seeds, load);
    ScaledFigures(roster, seeds, load);
  }

  lemma ManifestAmplification(roster: seq<string>, seeds: seq<int>, load: int -> Matrix)
    requires roster != [] && seeds != [] && AreLoaded(load, seeds, |roster|)
    ensures
      var run := HonestRun(roster, seeds, load);
      && |run.standalone| == |seeds|
      && (forall k :: 0 <= k < |seeds| ==> run.amplification <= run.joint.success - run.standalone[k].metrics.success)
      && (exists k :: 0 <= k < |seeds|
                      && run.amplification == run.joint.success - run.standalone[k].metrics.success)
  {
    hide *;
    HonestSums(roster, seeds, load);
    var run := HonestRun(roster, seeds, load);
    var k :| 0 <= k < |run.standalone| && run.standalone[k].metrics.success == BestSuccess(run.standalone);
    assert run.amplification == run.joint.success - run.standalone[k].metrics.success;
  }

  lemma ScaledFigures(roster: seq<string>, seeds: seq<int>, load: int -> Matrix)
    requires roster != [] && seeds != [] && AreLoaded(load, seeds, |roster|)
    ensures
      var n, joint := |roster|, JointOf(load, seeds, |roster|);
      && (forall k :: 0 <= k < |seeds| ==>
            && |load(seeds[k])| == n
            && OverRecords(MetricsOf(load(seeds[k])).success, n) == |Cells(load(seeds[k]))| as real)
      && OverRecords(MetricsOf(joint).success, n) == |Cells(joint)| as real
      && OverRecords(Increment(|Cells(joint)|, n), n) == |Cells(joint)| as real - 1.0
      && OverRecords(SumOfIncrements(CellCounts(Loaded(load, seeds)), n), n) == CellsBeyondOne(load, seeds)
  {
    hide MetricsOf, Cells, SumOfIncrements, Increment, JointOf;
    var n, joint := |roster|, JointOf(load, seeds, |roster|);
    forall k | 0 <= k < |seeds|
      ensures |load(seeds[k])| == n
      ensures OverRecords(MetricsOf(load(seeds[k])).success, n) == |Cells(load(seeds[k]))| as real
    {
      SuccessScaled(load(seeds[k]));
    }
    SuccessScaled(joint);
    IncrementScaled(|Cells(joint)|, n);
    ScaledIncrements(Loaded(load, seeds), n,
                     k => if 0 <= k < |seeds| then |Cells(load(seeds[k]))| as real - 1.0 else 0.0);
  }

  lemma SuccessScaled(leaves: Matrix)
    requires leaves != []
    ensures OverRecords(MetricsOf(leaves).success, |leaves|) == |Cells(leaves)| as real
  {
    hide MetricsOf, Cells, Histogram;
    SuccessIsShare(leaves);
    QuotientIs(|Cells(leaves)| as real, |leaves| as real, MetricsOf(leaves).success);
  }

  /** The manifest holds a histogram for the joint partition and for every release, each the one of its own
      leaves, and no other. */
  lemma ManifestHistograms(roster: seq<string>, seeds: seq<int>, load: int -> Matrix)
    requires roster != [] && seeds != [] && AreLoaded(load, seeds, |roster|)
    ensures
      var stored := HonestRun(roster, seeds, load).histograms;
      && None in stored && IsHistogram(stored[None], JointOf(load, seeds, |roster|))
      && (forall seed :: Some(seed) in stored <==> seed in seeds)
      && forall seed :: seed in seeds ==> IsHistogram(stored[Some(seed)], load(seed))
  {
    hide Histogram, IsHistogram, MetricsOf, JointRow, HonestRun;
    HonestParts(roster, seeds, load);
    var joint := JointOf(load, seeds, |roster|);
    StoredHistograms(load, seeds, joint);
    StoredOnly(load, seeds, joint);
    HistogramIsHistogram(joint);
    forall seed | seed in seeds ensures IsHistogram(Histogram(load(seed)), load(seed)) {
      HistogramIsHistogram(load(seed));
    }
  }

  lemma {:induction false} StoredOnly(load: int -> Matrix, seeds: seq<int>, joint: Matrix)
    ensures forall seed :: Some(seed) in ReleaseHistograms(load, seeds, joint) <==> seed in seeds
  {
    hide Histogram;
    if seeds != [] {
      StoredOnly(load, seeds[..|seeds| - 1], joint);
      assert seeds == seeds[..|seeds| - 1] + [seeds[|seeds| - 1]];
    }
  }
}
