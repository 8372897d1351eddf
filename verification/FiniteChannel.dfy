/** Exact Bayes risk of a finite channel, the interval floor and ceiling around it, and
    the CLEAR / HOLD / BLOCK rule of scripts/run_finite_channel_ceiling_experiment.py.
    Exact fractions are modelled as real numbers. */
module FiniteChannel {
  import opened Arithmetic
  import opened FiniteSets
  import opened Results
  import opened Sums

  type Matrix = seq<seq<real>>

  datatype ChannelError = RowsMisaligned | NotRectangular | BadPrior | BadRow

  function Cell(m: Matrix, row: int, column: int): real {
    if 0 <= row < |m| && 0 <= column < |m[row]| then m[row][column] else 0.0
  }

  function Entry(v: seq<real>, i: int): real {
    if 0 <= i < |v| then v[i] else 0.0
  }

  predicate ProbabilityVector(v: seq<real>) {
    Sum(|v|, i => Entry(v, i)) == 1.0 && forall i :: 0 <= i < |v| ==> v[i] >= 0.0
  }

  predicate Rectangular(m: Matrix, columns: nat) {
    forall s :: 0 <= s < |m| ==> |m[s]| == columns
  }

  /** What `exact_channel_risk` accepts. */
  predicate ValidChannel(channel: Matrix, prior: seq<real>) {
    && |channel| == |prior| >= 2
    && |channel[0]| >= 1 && Rectangular(channel, |channel[0]|)
    && ProbabilityVector(prior)
    && forall s :: 0 <= s < |channel| ==> ProbabilityVector(channel[s])
  }

  /** Joint weight of a state and an observation. */
  function Joint(weights: Matrix, prior: seq<real>, state: int, observation: int): real {
    Entry(prior, state) * Cell(weights, state, observation)
  }

  /** The largest joint weight in one observation column. */
  function ColumnPeak(weights: Matrix, prior: seq<real>, observation: int): real
    requires prior != []
  {
    Max(|prior|, s => Joint(weights, prior, s, observation))
  }

  function PeakTotal(weights: Matrix, prior: seq<real>, observations: nat): real
    requires prior != []
  {
    Sum(observations, o => ColumnPeak(weights, prior, o))
  }

  /** `exact_channel_risk`, with its refusals. */
  function ExactChannelRisk(channel: Matrix, prior: seq<real>): (r: Result<real, ChannelError>)
    ensures r.Ok? <==> ValidChannel(channel, prior)
  {
    if |channel| != |prior| || |channel| < 2 then Err(RowsMisaligned)
    else if |channel[0]| < 1 || !Rectangular(channel, |channel[0]|) then Err(NotRectangular)
    else if !ProbabilityVector(prior) then Err(BadPrior)
    else if exists s :: 0 <= s < |channel| && !ProbabilityVector(channel[s]) then Err(BadRow)
    else Ok(PeakTotal(channel, prior, |channel[0]|))
  }

  lemma PeakIsGreatest(weights: Matrix, prior: seq<real>, observation: int) returns (arg: nat)
    requires prior != []
    ensures arg < |prior| && ColumnPeak(weights, prior, observation) == Joint(weights, prior, arg, observation)
    ensures forall s :: 0 <= s < |prior| ==>
      Joint(weights, prior, s, observation) <= ColumnPeak(weights, prior, observation)
  {
    hide Joint;
    var joint := s => Joint(weights, prior, s, observation);
    arg := MaxIsGreatest(|prior|, joint);
    forall s | 0 <= s < |prior|
      ensures Joint(weights, prior, s, observation) <= ColumnPeak(weights, prior, observation)
    {
      assert joint(s) <= Max(|prior|, joint);
    }
  }

  lemma PeakTotalIs(weights: Matrix, prior: seq<real>, n: nat, peak: int -> real)
    requires prior != [] && forall o :: peak(o) == ColumnPeak(weights, prior, o)
    ensures PeakTotal(weights, prior, n) == Sum(n, peak)
  {
    hide ColumnPeak;
    SumCongruent(n, peak, o => ColumnPeak(weights, prior, o));
  }

  lemma RowIsDistribution(channel: Matrix, prior: seq<real>, s: int)
    requires ValidChannel(channel, prior) && 0 <= s < |prior|
    ensures Sum(|channel[0]|, o => Cell(channel, s, o)) == 1.0
    ensures forall o :: Cell(channel, s, o) >= 0.0
    ensures Entry(prior, s) >= 0.0
  {
    SumCongruent(|channel[0]|, o => Cell(channel, s, o), i => Entry(channel[s], i));
    assert ProbabilityVector(channel[s]);
    forall o ensures Cell(channel, s, o) >= 0.0 {
      if 0 <= o < |channel[s]| {
        assert channel[s][o] >= 0.0;
      }
    }
  }

  lemma JointNonNegative(channel: Matrix, prior: seq<real>, s: int, o: int)
    requires ValidChannel(channel, prior) && 0 <= s < |prior|
    ensures Joint(channel, prior, s, o) >= 0.0
  {
    RowIsDistribution(channel, prior, s);
  }

  /** A state's joint weights sum to its prior. */
  lemma JointRowSum(channel: Matrix, prior: seq<real>, s: int)
    requires ValidChannel(channel, prior) && 0 <= s < |prior|
    ensures Sum(|channel[0]|, o => Joint(channel, prior, s, o)) == Entry(prior, s)
  {
    RowIsDistribution(channel, prior, s);
    ScaledUnitSum(|channel[0]|, Entry(prior, s), o => Cell(channel, s, o), o => Joint(channel, prior, s, o));
  }

  // ---- The Bayes meaning of the risk -----------------------------------------------

  /** A guessing rule names a state for every observation. */
  ghost predicate IsRule(rule: seq<int>, states: nat, observations: nat) {
    |rule| == observations && forall o :: 0 <= o < observations ==> 0 <= rule[o] < states
  }

  ghost function GuessWeight(channel: Matrix, prior: seq<real>, rule: seq<int>, o: int): real {
    if 0 <= o < |rule| then Joint(channel, prior, rule[o], o) else 0.0
  }

  /** Probability that the rule names the true state. */
  ghost function RuleSuccess(channel: Matrix, prior: seq<real>, rule: seq<int>): real {
    Sum(|rule|, o => GuessWeight(channel, prior, rule, o))
  }

  /** No guessing rule beats the risk. */
  lemma RiskBoundsEveryRule(channel: Matrix, prior: seq<real>, rule: seq<int>)
    requires prior != [] && channel != [] && IsRule(rule, |prior|, |channel[0]|)
    ensures RuleSuccess(channel, prior, rule) <= PeakTotal(channel, prior, |channel[0]|)
  {
    hide Joint, ColumnPeak;
    forall o | 0 <= o < |rule|
      ensures GuessWeight(channel, prior, rule, o) <= ColumnPeak(channel, prior, o)
    {
      var a := PeakIsGreatest(channel, prior, o);
    }
    SumMonotone(|rule|, o => GuessWeight(channel, prior, rule, o), o => ColumnPeak(channel, prior, o));
  }

  /** Some guessing rule attains it, so the risk is the exact Bayes success. */
  lemma RiskIsAttained(channel: Matrix, prior: seq<real>) returns (rule: seq<int>)
    requires prior != [] && channel != []
    ensures IsRule(rule, |prior|, |channel[0]|)
    ensures RuleSuccess(channel, prior, rule) == PeakTotal(channel, prior, |channel[0]|)
  {
    hide Joint, ColumnPeak;
    rule := PeakRule(channel, prior, |channel[0]|);
    SumCongruent(|rule|, o => GuessWeight(channel, prior, rule, o), o => ColumnPeak(channel, prior, o));
  }

  /** The rule naming, for each observation, a state of greatest joint weight. */
  lemma {:induction false} PeakRule(channel: Matrix, prior: seq<real>, n: nat) returns (rule: seq<int>)
    requires prior != []
    ensures IsRule(rule, |prior|, n)
    ensures forall o :: 0 <= o < n ==> Joint(channel, prior, rule[o], o) == ColumnPeak(channel, prior, o)
  {
    if n == 0 {
      rule := [];
    } else {
      hide Joint, ColumnPeak;
      var before := PeakRule(channel, prior, n - 1);
      var arg := PeakIsGreatest(channel, prior, n - 1);
      rule := before + [arg];
    }
  }

  // ---- Floor, ceiling and decision -------------------------------------------------

  datatype Bounds = Bounds(floor: real, ceiling: real)

  /** `exact_interval_bounds`: the largest prior clamps the floor, one caps the ceiling. */
  function IntervalBounds(lower: Matrix, upper: Matrix, prior: seq<real>): Bounds
    requires lower != [] && prior != []
  {
    var observations := |lower[0]|;
    var floor := PeakTotal(lower, prior, observations);
    var ceiling := PeakTotal(upper, prior, observations);
    var blind := Max(|prior|, s => Entry(prior, s));
    Bounds(if blind < floor then floor else blind, if ceiling < 1.0 then ceiling else 1.0)
  }

  datatype Decision = CLEAR | HOLD | BLOCK

  function Decide(floor: real, ceiling: real, tolerance: real): Decision {
    if floor > tolerance then BLOCK
    else if ceiling <= tolerance then CLEAR
    else HOLD
  }

  predicate SameShape(m: Matrix, channel: Matrix) {
    |m| == |channel| && forall s :: 0 <= s < |m| ==> |m[s]| == |channel[s]|
  }

  /** `_covered`: the interval family contains every cell of the channel. */
  predicate Covered(lower: Matrix, upper: Matrix, channel: Matrix)
    requires SameShape(lower, channel) && SameShape(upper, channel)
  {
    forall s, o :: 0 <= s < |channel| && 0 <= o < |channel[s]| ==> lower[s][o] <= channel[s][o] <= upper[s][o]
  }

  lemma PeakMonotone(a: Matrix, b: Matrix, prior: seq<real>, observations: nat)
    requires prior != [] && forall i :: 0 <= i < |prior| ==> prior[i] >= 0.0
    requires forall s, o :: 0 <= s < |prior| && 0 <= o < observations ==> Cell(a, s, o) <= Cell(b, s, o)
    ensures PeakTotal(a, prior, observations) <= PeakTotal(b, prior, observations)
  {
    forall o | 0 <= o < observations
      ensures ColumnPeak(a, prior, o) <= ColumnPeak(b, prior, o)
    {
      forall s | 0 <= s < |prior| ensures Joint(a, prior, s, o) <= Joint(b, prior, s, o) {
        ScaleMonotone(Entry(prior, s), Cell(a, s, o), Cell(b, s, o));
      }
      MaxMonotone(|prior|, s => Joint(a, prior, s, o), s => Joint(b, prior, s, o));
    }
    SumMonotone(observations, o => ColumnPeak(a, prior, o), o => ColumnPeak(b, prior, o));
  }

  /** Guessing blind already succeeds with the largest prior. */
  lemma BlindGuessBelowRisk(channel: Matrix, prior: seq<real>)
    requires ValidChannel(channel, prior)
    ensures Max(|prior|, s => Entry(prior, s)) <= PeakTotal(channel, prior, |channel[0]|)
  {
    var best := MaxIsGreatest(|prior|, s => Entry(prior, s));
    JointRowSum(channel, prior, best);
    hide *;
    forall o ensures Joint(channel, prior, best, o) <= ColumnPeak(channel, prior, o) {
      var a := PeakIsGreatest(channel, prior, o);
    }
    var peak := o => ColumnPeak(channel, prior, o);
    SumMonotone(|channel[0]|, o => Joint(channel, prior, best, o), peak);
    PeakTotalIs(channel, prior, |channel[0]|, peak);
  }

  /** The risk is a probability. */
  lemma RiskAtMostOne(channel: Matrix, prior: seq<real>)
    requires ValidChannel(channel, prior)
    ensures PeakTotal(channel, prior, |channel[0]|) <= 1.0
  {
    hide Joint;
    var m, n := |channel[0]|, |prior|;
    var joint := (s: int, o: int) => Joint(channel, prior, s, o);
    forall o | 0 <= o < m
      ensures ColumnPeak(channel, prior, o) <= Sum(n, s => joint(s, o))
    {
      forall s | 0 <= s < n ensures Joint(channel, prior, s, o) >= 0.0 {
        JointNonNegative(channel, prior, s, o);
      }
      MaxBelowSum(n, s => Joint(channel, prior, s, o));
      SumCongruent(n, s => Joint(channel, prior, s, o), s => joint(s, o));
    }
    SumMonotone(m, o => ColumnPeak(channel, prior, o), o => Sum(n, s => joint(s, o)));
    SumExchanged(n, m, joint);
    forall s | 0 <= s < n
      ensures Sum(m, o => joint(s, o)) == Entry(prior, s)
    {
      JointRowSum(channel, prior, s);
      SumCongruent(m, o => joint(s, o), o => Joint(channel, prior, s, o));
    }
    SumCongruent(n, s => Sum(m, o => joint(s, o)), i => Entry(prior, i));
  }

  /** Interval soundness: a covering family brackets the true risk. */
  lemma BoundsBracketRisk(lower: Matrix, upper: Matrix, channel: Matrix, prior: seq<real>)
    requires ValidChannel(channel, prior)
    requires SameShape(lower, channel) && SameShape(upper, channel) && Covered(lower, upper, channel)
    ensures var b := IntervalBounds(lower, upper, prior);
      b.floor <= ExactChannelRisk(channel, prior).value <= b.ceiling
  {
    var observations := |channel[0]|;
    assert forall s, o :: 0 <= s < |prior| && 0 <= o < observations ==>
      Cell(lower, s, o) <= Cell(channel, s, o) <= Cell(upper, s, o);
    PeakMonotone(lower, channel, prior, observations);
    PeakMonotone(channel, upper, prior, observations);
    BlindGuessBelowRisk(channel, prior);
    RiskAtMostOne(channel, prior);
  }

  /** The floor is tight: it is the greater of the largest prior and the best rule's success on the
      lower endpoints, for it is reached by neither less nor more than one of the two. */
  lemma FloorIsTight(lower: Matrix, upper: Matrix, prior: seq<real>)
    requires lower != [] && prior != []
    ensures
      var floor := IntervalBounds(lower, upper, prior).floor;
      && (forall s :: 0 <= s < |prior| ==> prior[s] <= floor)
      && (forall rule :: IsRule(rule, |prior|, |lower[0]|) ==> RuleSuccess(lower, prior, rule) <= floor)
      && ((exists s :: 0 <= s < |prior| && prior[s] == floor)
          || exists rule :: IsRule(rule, |prior|, |lower[0]|) && RuleSuccess(lower, prior, rule) == floor)
  {
    var entry := s => Entry(prior, s);
    var best := MaxIsGreatest(|prior|, entry);
    assert prior[best] == entry(best);
    forall s | 0 <= s < |prior| ensures prior[s] <= prior[best] {
      assert prior[s] == entry(s);
    }
    hide RuleSuccess, PeakTotal;
    forall rule | IsRule(rule, |prior|, |lower[0]|)
      ensures RuleSuccess(lower, prior, rule) <= PeakTotal(lower, prior, |lower[0]|)
    {
      RiskBoundsEveryRule(lower, prior, rule);
    }
    var attained := RiskIsAttained(lower, prior);
  }

  /** The ceiling is tight: one, or the best rule's success on the upper endpoints if that is less. */
  lemma CeilingIsTight(lower: Matrix, upper: Matrix, prior: seq<real>)
    requires lower != [] && upper != [] && |upper[0]| == |lower[0]| && prior != []
    ensures
      var ceiling := IntervalBounds(lower, upper, prior).ceiling;
      && ceiling <= 1.0
      && (ceiling < 1.0 ==>
            forall rule :: IsRule(rule, |prior|, |upper[0]|) ==> RuleSuccess(upper, prior, rule) <= ceiling)
      && exists rule :: IsRule(rule, |prior|, |upper[0]|)
                        && RuleSuccess(upper, prior, rule) >= ceiling
                        && (ceiling < 1.0 ==> RuleSuccess(upper, prior, rule) == ceiling)
  {
    hide RuleSuccess, PeakTotal;
    forall rule | IsRule(rule, |prior|, |upper[0]|)
      ensures RuleSuccess(upper, prior, rule) <= PeakTotal(upper, prior, |upper[0]|)
    {
      RiskBoundsEveryRule(upper, prior, rule);
    }
    var attained := RiskIsAttained(upper, prior);
  }

  /** When the endpoints are the channel itself, both bounds are the risk, and the decision is never
      HOLD: it is BLOCK exactly when the risk is above the tolerance. */
  lemma ExactFamilyDecidesExactly(channel: Matrix, prior: seq<real>, tolerance: real)
    requires ValidChannel(channel, prior)
    ensures
      var b, risk := IntervalBounds(channel, channel, prior), ExactChannelRisk(channel, prior).value;
      && b.floor == b.ceiling == risk
      && Decide(b.floor, b.ceiling, tolerance) == if risk > tolerance then BLOCK else CLEAR
  {
    BlindGuessBelowRisk(channel, prior);
    RiskAtMostOne(channel, prior);
  }

  /** The rule is never wrong on a covered family: CLEAR means the risk is tolerable and
      BLOCK means it is not; conversely a HOLD leaves the tolerance between the bounds. */
  lemma CoveredDecisionIsCorrect(lower: Matrix, upper: Matrix, channel: Matrix, prior: seq<real>, tolerance: real)
    requires ValidChannel(channel, prior)
    requires SameShape(lower, channel) && SameShape(upper, channel) && Covered(lower, upper, channel)
    ensures
      var b := IntervalBounds(lower, upper, prior);
      var risk := ExactChannelRisk(channel, prior).value;
      match Decide(b.floor, b.ceiling, tolerance)
      case CLEAR => risk <= tolerance
      case BLOCK => risk > tolerance
      case HOLD => b.floor <= tolerance < b.ceiling
  {
    BoundsBracketRisk(lower, upper, channel, prior);
  }

  // ---- Groups of replicates --------------------------------------------------------

  datatype Replicate = Replicate(lower: Matrix, upper: Matrix)

  datatype GroupCounts = GroupCounts(falseClears: nat, falseBlocks: nat, undercoverage: nat, familyCovered: nat)

  ghost predicate Shaped(records: seq<Replicate>, channel: Matrix) {
    forall i :: 0 <= i < |records| ==> SameShape(records[i].lower, channel) && SameShape(records[i].upper, channel)
  }

  /** The four sums `_group_summary` takes over its records. */
  ghost function GroupSummary(records: seq<Replicate>, channel: Matrix, prior: seq<real>, tolerance: real): GroupCounts
    requires ValidChannel(channel, prior) && Shaped(records, channel)
  {
    if records == [] then GroupCounts(0, 0, 0, 0)
    else
      var last := |records| - 1;
      var before := GroupSummary(records[..last], channel, prior, tolerance);
      var record := records[last];
      var b := IntervalBounds(record.lower, record.upper, prior);
      var status := Decide(b.floor, b.ceiling, tolerance);
      var risk := ExactChannelRisk(channel, prior).value;
      GroupCounts(
        before.falseClears + if status == CLEAR && risk > tolerance then 1 else 0,
        before.falseBlocks + if status == BLOCK && risk <= tolerance then 1 else 0,
        before.undercoverage + if b.ceiling < risk then 1 else 0,
        before.familyCovered + if Covered(record.lower, record.upper, channel) then 1 else 0)
  }

  /** The four ways in which a replicate is counted. */
  ghost predicate WronglyCleared(record: Replicate, prior: seq<real>, tolerance: real, risk: real) {
    && record.lower != [] && prior != [] && risk > tolerance
    && IntervalBounds(record.lower, record.upper, prior).ceiling <= tolerance
    && IntervalBounds(record.lower, record.upper, prior).floor <= tolerance
  }

  ghost predicate WronglyBlocked(record: Replicate, prior: seq<real>, tolerance: real, risk: real) {
    && record.lower != [] && prior != [] && risk <= tolerance
    && IntervalBounds(record.lower, record.upper, prior).floor > tolerance
  }

  ghost predicate Undercovers(record: Replicate, prior: seq<real>, risk: real) {
    record.lower != [] && prior != [] && IntervalBounds(record.lower, record.upper, prior).ceiling < risk
  }

  ghost predicate CoversChannel(record: Replicate, channel: Matrix) {
    && SameShape(record.lower, channel) && SameShape(record.upper, channel)
    && Covered(record.lower, record.upper, channel)
  }

  /** The four sums are the numbers of replicates that were wrongly cleared, wrongly blocked, had their
      ceiling below the risk, and covered the channel. */
  lemma {:induction false} GroupCountsExactly(records: seq<Replicate>, channel: Matrix, prior: seq<real>,
                                              tolerance: real)
    requires ValidChannel(channel, prior) && Shaped(records, channel)
    ensures
      var g, risk := GroupSummary(records, channel, prior, tolerance), ExactChannelRisk(channel, prior).value;
      && g.falseClears == |Where(records, record => WronglyCleared(record, prior, tolerance, risk))|
      && g.falseBlocks == |Where(records, record => WronglyBlocked(record, prior, tolerance, risk))|
      && g.undercoverage == |Where(records, record => Undercovers(record, prior, risk))|
      && g.familyCovered == |Where(records, record => CoversChannel(record, channel))|
  {
    var risk := ExactChannelRisk(channel, prior).value;
    if records != [] {
      var init, last := records[..|records| - 1], records[|records| - 1];
      GroupCountsExactly(init, channel, prior, tolerance);
      assert records == init + [last];
      SummaryNext(records, channel, prior, tolerance);
      hide *;
      WhereNext(init, last, record => WronglyCleared(record, prior, tolerance, risk));
      WhereNext(init, last, record => WronglyBlocked(record, prior, tolerance, risk));
      WhereNext(init, last, record => Undercovers(record, prior, risk));
      WhereNext(init, last, record => CoversChannel(record, channel));
    }
  }

  lemma SummaryNext(records: seq<Replicate>, channel: Matrix, prior: seq<real>, tolerance: real)
    requires ValidChannel(channel, prior) && Shaped(records, channel) && records != []
    ensures
      var risk, last := ExactChannelRisk(channel, prior).value, records[|records| - 1];
      var before := GroupSummary(records[..|records| - 1], channel, prior, tolerance);
      GroupSummary(records, channel, prior, tolerance)
      == GroupCounts(before.falseClears + if WronglyCleared(last, prior, tolerance, risk) then 1 else 0,
                     before.falseBlocks + if WronglyBlocked(last, prior, tolerance, risk) then 1 else 0,
                     before.undercoverage + if Undercovers(last, prior, risk) then 1 else 0,
                     before.familyCovered + if CoversChannel(last, channel) then 1 else 0)
  {
    hide IntervalBounds, Covered, ExactChannelRisk;
  }

  /** Wrong decisions are paid for, one for one, by replicates whose intervals missed. */
  lemma {:induction false} WrongDecisionsNeedMissedFamilies(records: seq<Replicate>, channel: Matrix, prior: seq<real>,
                                                            tolerance: real)
    requires ValidChannel(channel, prior) && Shaped(records, channel)
    ensures
      var g := GroupSummary(records, channel, prior, tolerance);
      && g.falseClears + g.falseBlocks <= |records| - g.familyCovered
      && g.undercoverage <= |records| - g.familyCovered
  {
    if records != [] {
      var last := |records| - 1;
      WrongDecisionsNeedMissedFamilies(records[..last], channel, prior, tolerance);
      var record := records[last];
      if Covered(record.lower, record.upper, channel) {
        BoundsBracketRisk(record.lower, record.upper, channel, prior);
      }
    }
  }

  // ---- Data processing -------------------------------------------------------------

  /** Probability of observing o and then j. */
  ghost function Routed(channel: Matrix, kernel: Matrix, s: int, o: int, j: int): real {
    Cell(channel, s, o) * Cell(kernel, o, j)
  }

  /** The channel whose observation is further garbled by `kernel`. */
  ghost function Garbled(channel: Matrix, kernel: Matrix): Matrix
    requires kernel != []
  {
    seq(|channel|, s => seq(|kernel[0]|, j => Sum(|kernel|, o => Routed(channel, kernel, s, o, j))))
  }

  ghost predicate ValidKernel(kernel: Matrix, inputs: nat) {
    && |kernel| == inputs && inputs >= 1 && |kernel[0]| >= 1 && Rectangular(kernel, |kernel[0]|)
    && forall o :: 0 <= o < inputs ==> ProbabilityVector(kernel[o])
  }

  lemma GarbledCell(channel: Matrix, kernel: Matrix, s: int, j: int)
    requires kernel != [] && 0 <= s < |channel| && 0 <= j < |kernel[0]|
    ensures Cell(Garbled(channel, kernel), s, j) == Sum(|kernel|, o => Routed(channel, kernel, s, o, j))
  {
  }

  lemma KernelRowSum(kernel: Matrix, inputs: nat, o: int)
    requires ValidKernel(kernel, inputs) && 0 <= o < inputs
    ensures Sum(|kernel[0]|, j => Cell(kernel, o, j)) == 1.0
  {
    SumCongruent(|kernel[0]|, j => Cell(kernel, o, j), i => Entry(kernel[o], i));
  }

  lemma GarbledIsValid(channel: Matrix, prior: seq<real>, kernel: Matrix)
    requires ValidChannel(channel, prior) && ValidKernel(kernel, |channel[0]|)
    ensures ValidChannel(Garbled(channel, kernel), prior)
  {
    var garbled := Garbled(channel, kernel);
    var m, k := |channel[0]|, |kernel[0]|;
    forall s | 0 <= s < |garbled|
      ensures ProbabilityVector(garbled[s])
    {
      forall j | 0 <= j < k ensures garbled[s][j] >= 0.0 {
        GarbledCell(channel, kernel, s, j);
        assert forall o :: 0 <= o < m ==> Cell(channel, s, o) * Cell(kernel, o, j) >= 0.0;
        SumNonNegative(m, o => Routed(channel, kernel, s, o, j));
      }
      GarbledRowSum(channel, prior, kernel, s);
    }
  }

  lemma GarbledEntry(channel: Matrix, kernel: Matrix, s: int, j: int)
    requires kernel != [] && 0 <= s < |channel| && 0 <= j < |kernel[0]|
    ensures |Garbled(channel, kernel)| == |channel|
    ensures Entry(Garbled(channel, kernel)[s], j) == Sum(|kernel|, o => Routed(channel, kernel, s, o, j))
  {
    hide Routed;
    GarbledCell(channel, kernel, s, j);
  }

  lemma GarbledRowSum(channel: Matrix, prior: seq<real>, kernel: Matrix, s: int)
    requires ValidChannel(channel, prior) && ValidKernel(kernel, |channel[0]|) && 0 <= s < |channel|
    ensures Sum(|kernel[0]|, i => Entry(Garbled(channel, kernel)[s], i)) == 1.0
  {
    var m, k := |channel[0]|, |kernel[0]|;
    var product := (j: int, o: int) => Routed(channel, kernel, s, o, j);
    forall j | 0 <= j < k
      ensures Entry(Garbled(channel, kernel)[s], j) == Sum(m, o => product(j, o))
    {
      hide *;
      GarbledEntry(channel, kernel, s, j);
      SumCongruent(m, o => Routed(channel, kernel, s, o, j), o => product(j, o));
    }
    hide Garbled, Entry;
    SumCongruent(k, i => Entry(Garbled(channel, kernel)[s], i), j => Sum(m, o => product(j, o)));
    RowIsDistribution(channel, prior, s);
    MixtureMass(kernel, m, o => Cell(channel, s, o), product);
  }

  /** Spreading weights through a stochastic kernel keeps their total. */
  lemma MixtureMass(kernel: Matrix, inputs: nat, weight: int -> real, mass: (int, int) -> real)
    requires ValidKernel(kernel, inputs)
    requires forall j, o :: mass(j, o) == weight(o) * Cell(kernel, o, j)
    ensures Sum(|kernel[0]|, j => Sum(inputs, o => mass(j, o))) == Sum(inputs, o => weight(o))
    ensures Sum(|kernel[0]|, j => Sum(inputs, o => mass(j, o))) == Sum(inputs, weight)
  {
    var k := |kernel[0]|;
    SumExchanged(k, inputs, mass);
    forall o | 0 <= o < inputs
      ensures Sum(k, j => mass(j, o)) == weight(o)
    {
      KernelRowSum(kernel, inputs, o);
      ScaledUnitSum(k, weight(o), j => Cell(kernel, o, j), j => mass(j, o));
    }
    SumCongruent(inputs, o => Sum(k, j => mass(j, o)), o => weight(o));
    SumCongruent(inputs, o => Sum(k, j => mass(j, o)), weight);
  }

  /** A joint weight routed through one kernel entry. */
  ghost function RoutedJoint(channel: Matrix, prior: seq<real>, kernel: Matrix, s: int, o: int, j: int): real {
    Entry(prior, s) * Routed(channel, kernel, s, o, j)
  }

  ghost function RoutedPeak(channel: Matrix, prior: seq<real>, kernel: Matrix, o: int, j: int): real
    requires prior != []
  {
    ColumnPeak(channel, prior, o) * Cell(kernel, o, j)
  }

  lemma RoutedJointBelowPeak(channel: Matrix, prior: seq<real>, kernel: Matrix, s: int, o: int, j: int)
    requires 0 <= s < |prior| && Cell(kernel, o, j) >= 0.0
    ensures RoutedJoint(channel, prior, kernel, s, o, j) <= RoutedPeak(channel, prior, kernel, o, j)
  {
    hide *;
    JointBelowPeak(channel, prior, s, o);
    JointIs(channel, prior, s, o);
    RoutedJointIs(channel, prior, kernel, s, o, j);
    ScaledBound(Entry(prior, s), Cell(channel, s, o), Cell(kernel, o, j), ColumnPeak(channel, prior, o));
  }

  lemma JointBelowPeak(channel: Matrix, prior: seq<real>, s: int, o: int)
    requires 0 <= s < |prior|
    ensures Joint(channel, prior, s, o) <= ColumnPeak(channel, prior, o)
  {
    hide ColumnPeak, Joint;
    var arg := PeakIsGreatest(channel, prior, o);
  }

  lemma JointIs(channel: Matrix, prior: seq<real>, s: int, o: int)
    ensures Joint(channel, prior, s, o) == Entry(prior, s) * Cell(channel, s, o)
  {
  }

  lemma RoutedJointIs(channel: Matrix, prior: seq<real>, kernel: Matrix, s: int, o: int, j: int)
    ensures RoutedJoint(channel, prior, kernel, s, o, j)
         == Entry(prior, s) * (Cell(channel, s, o) * Cell(kernel, o, j))
    ensures prior != [] ==>
      RoutedPeak(channel, prior, kernel, o, j) == ColumnPeak(channel, prior, o) * Cell(kernel, o, j)
  {
  }

  lemma JointOfGarbled(channel: Matrix, prior: seq<real>, kernel: Matrix, s: int, j: int)
    requires kernel != [] && 0 <= s < |channel| && 0 <= j < |kernel[0]|
    ensures Joint(Garbled(channel, kernel), prior, s, j)
         == Sum(|kernel|, o => RoutedJoint(channel, prior, kernel, s, o, j))
  {
    GarbledCell(channel, kernel, s, j);
    ScaledSumIs(|kernel|, Entry(prior, s), o => Routed(channel, kernel, s, o, j),
                o => RoutedJoint(channel, prior, kernel, s, o, j));
  }

  /** One garbled column cannot peak above the mixture of the original peaks. */
  lemma GarbledPeak(channel: Matrix, prior: seq<real>, kernel: Matrix, j: int)
    requires ValidChannel(channel, prior) && ValidKernel(kernel, |channel[0]|) && 0 <= j < |kernel[0]|
    ensures ColumnPeak(Garbled(channel, kernel), prior, j)
         <= Sum(|channel[0]|, o => RoutedPeak(channel, prior, kernel, o, j))
  {
    forall o | 0 <= o < |kernel| ensures Cell(kernel, o, j) >= 0.0 {
      assert ProbabilityVector(kernel[o]);
    }
    assert |kernel| == |channel[0]| && |prior| == |channel|;
    hide *;
    var s := PeakIsGreatest(Garbled(channel, kernel), prior, j);
    JointOfGarbled(channel, prior, kernel, s, j);
    forall o | 0 <= o < |kernel|
      ensures RoutedJoint(channel, prior, kernel, s, o, j) <= RoutedPeak(channel, prior, kernel, o, j)
    {
      RoutedJointBelowPeak(channel, prior, kernel, s, o, j);
    }
    SumMonotone(|kernel|, o => RoutedJoint(channel, prior, kernel, s, o, j),
                o => RoutedPeak(channel, prior, kernel, o, j));
  }

  /** Data processing: garbling the observation never raises the exact risk. */
  lemma GarblingNeverRaisesRisk(channel: Matrix, prior: seq<real>, kernel: Matrix)
    requires ValidChannel(channel, prior) && ValidKernel(kernel, |channel[0]|)
    ensures ExactChannelRisk(Garbled(channel, kernel), prior).Ok?
    ensures ExactChannelRisk(Garbled(channel, kernel), prior).value <= ExactChannelRisk(channel, prior).value
  {
    GarbledIsValid(channel, prior, kernel);
    GarbledPeakTotal(channel, prior, kernel);
  }

  lemma GarbledPeakTotal(channel: Matrix, prior: seq<real>, kernel: Matrix)
    requires ValidChannel(channel, prior) && ValidKernel(kernel, |channel[0]|)
    ensures PeakTotal(Garbled(channel, kernel), prior, |kernel[0]|) <= PeakTotal(channel, prior, |channel[0]|)
  {
    assert |Garbled(channel, kernel)| == |channel| && prior != [];
    hide *;
    var m, k := |channel[0]|, |kernel[0]|;
    var garbled := Garbled(channel, kernel);
    var peak := o => ColumnPeak(channel, prior, o);
    var garbledPeak := j => ColumnPeak(garbled, prior, j);
    var mass := (j: int, o: int) => RoutedPeak(channel, prior, kernel, o, j);
    forall j | 0 <= j < k
      ensures garbledPeak(j) <= Sum(m, o => mass(j, o))
    {
      GarbledPeak(channel, prior, kernel, j);
      SumCongruent(m, o => RoutedPeak(channel, prior, kernel, o, j), o => mass(j, o));
    }
    SumMonotone(k, garbledPeak, j => Sum(m, o => mass(j, o)));
    PeakMass(channel, prior, kernel, peak, mass);
    PeakTotalIs(garbled, prior, k, garbledPeak);
    PeakTotalIs(channel, prior, m, peak);
  }

  lemma PeakMass(channel: Matrix, prior: seq<real>, kernel: Matrix, peak: int -> real, mass: (int, int) -> real)
    requires prior != [] && channel != [] && ValidKernel(kernel, |channel[0]|)
    requires forall o :: peak(o) == ColumnPeak(channel, prior, o)
    requires forall j, o :: mass(j, o) == RoutedPeak(channel, prior, kernel, o, j)
    ensures Sum(|kernel[0]|, j => Sum(|channel[0]|, o => mass(j, o))) == Sum(|channel[0]|, peak)
  {
    hide ColumnPeak, Cell, ValidKernel;
    MixtureMass(kernel, |channel[0]|, peak, mass);
  }

  // ---- Deterministic channels ------------------------------------------------------

  /** The channel that reports a fixed label for each state. */
  ghost function OneHot(labels: seq<nat>, observations: nat): Matrix {
    seq(|labels|, s requires 0 <= s < |labels| => seq(observations, o => if labels[s] == o then 1.0 else 0.0))
  }

  /** The distinct labels. */
  ghost function Used(labels: seq<nat>): set<nat> {
    set l | l in labels
  }

  ghost function Share(n: nat): real
    requires n > 0
  {
    1.0 / n as real
  }

  ghost function Uniform(n: nat): seq<real>
    requires n > 0
  {
    seq(n, _ => Share(n))
  }

  lemma {:induction false} SumIndicator(n: nat, k: int, f: int -> real)
    requires forall i :: 0 <= i < n ==> f(i) == if i == k then 1.0 else 0.0
    ensures Sum(n, f) == if 0 <= k < n then 1.0 else 0.0
  {
    if n > 0 {
      SumIndicator(n - 1, k, f);
    }
  }

  lemma {:induction false} SumConstant(n: nat, c: real, f: int -> real)
    requires forall i :: 0 <= i < n ==> f(i) == c
    ensures Sum(n, f) == n as real * c
  {
    if n > 0 {
      SumConstant(n - 1, c, f);
      OneMore(n, c);
    }
  }

  lemma OneMore(n: nat, c: real)
    requires n > 0
    ensures n as real * c == (n - 1) as real * c + c
  {
  }

  /** Summing one over the labels in use counts them. */
  lemma {:induction false} SumCountsUsed(n: nat, used: set<nat>, f: int -> real)
    requires forall i: nat :: i < n ==> f(i) == if i in used then 1.0 else 0.0
    requires forall o :: o in used ==> o < n
    ensures Sum(n, f) == |used| as real
  {
    if n == 0 {
      assert used == {};
    } else {
      var rest := used - {n - 1};
      SumCountsUsed(n - 1, rest, f);
      if n - 1 in used {
        assert |rest| == |used| - 1;
      } else {
        assert rest == used;
      }
    }
  }

  lemma OneHotIsValid(labels: seq<nat>, observations: nat)
    requires |labels| >= 2 && observations >= 1 && forall s :: 0 <= s < |labels| ==> labels[s] < observations
    ensures ValidChannel(OneHot(labels, observations), Uniform(|labels|))
  {
    var channel, prior := OneHot(labels, observations), Uniform(|labels|);
    forall s | 0 <= s < |channel| ensures ProbabilityVector(channel[s]) {
      SumIndicator(observations, labels[s], i => Entry(channel[s], i));
    }
    SumConstant(|labels|, Share(|labels|), i => Entry(prior, i));
  }

  lemma OneHotPeak(labels: seq<nat>, observations: nat, o: int)
    requires labels != [] && 0 <= o < observations
    ensures ColumnPeak(OneHot(labels, observations), Uniform(|labels|), o)
         == if o in Used(labels) then Share(|labels|) else 0.0
  {
    var channel, prior := OneHot(labels, observations), Uniform(|labels|);
    assert |prior| == |labels| && Share(|labels|) > 0.0;
    hide OneHot, Uniform, ColumnPeak, Joint, Share;
    var arg := PeakIsGreatest(channel, prior, o);
    OneHotJoint(labels, observations, o, arg);
    if o in Used(labels) {
      var s :| 0 <= s < |labels| && labels[s] == o;
      OneHotJoint(labels, observations, o, s);
      assert Joint(channel, prior, s, o) <= ColumnPeak(channel, prior, o);
    }
  }

  lemma OneHotJoint(labels: seq<nat>, observations: nat, o: int, s: int)
    requires 0 <= o < observations && 0 <= s < |labels|
    ensures Joint(OneHot(labels, observations), Uniform(|labels|), s, o)
         == if labels[s] == o then Share(|labels|) else 0.0
  {
  }

  /** A deterministic observation of uniform states is worth its number of distinct
      values over the number of states: the cell-count formula is the exact Bayes risk. */
  lemma DeterministicRisk(labels: seq<nat>, observations: nat)
    requires |labels| >= 2 && observations >= 1 && forall s :: 0 <= s < |labels| ==> labels[s] < observations
    ensures ExactChannelRisk(OneHot(labels, observations), Uniform(|labels|))
         == Ok(|Used(labels)| as real / |labels| as real)
  {
    OneHotIsValid(labels, observations);
    assert |OneHot(labels, observations)[0]| == observations;
    DeterministicPeakTotal(labels, observations);
  }

  lemma DeterministicPeakTotal(labels: seq<nat>, observations: nat)
    requires labels != [] && forall o :: o in Used(labels) ==> o < observations
    ensures PeakTotal(OneHot(labels, observations), Uniform(|labels|), observations)
         == |Used(labels)| as real / |labels| as real
  {
    assert Uniform(|labels|) != [];
    hide *;
    var peak := o => ColumnPeak(OneHot(labels, observations), Uniform(|labels|), o);
    forall o: nat | o < observations
      ensures peak(o) == if o in Used(labels) then Share(|labels|) else 0.0
    {
      OneHotPeak(labels, observations, o);
    }
    ScaledCount(observations, Used(labels), Share(|labels|), peak);
    PeakTotalIs(OneHot(labels, observations), Uniform(|labels|), observations, peak);
    ShareTimes(|Used(labels)|, |labels|);
  }

  lemma ScaledCount(n: nat, used: set<nat>, c: real, f: int -> real)
    requires forall i: nat :: i < n ==> f(i) == if i in used then c else 0.0
    requires forall o :: o in used ==> o < n
    ensures Sum(n, f) == c * |used| as real
  {
    var indicator := (i: int) => if i >= 0 && i in used then 1.0 else 0.0;
    SumCountsUsed(n, used, indicator);
    ScaledSumIs(n, c, indicator, f);
  }

  lemma ShareTimes(k: nat, n: nat)
    requires n > 0
    ensures Share(n) * k as real == k as real / n as real
  {
  }
}
