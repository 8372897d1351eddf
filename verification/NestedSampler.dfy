/** The exact nested multinomial sampler of scripts/run_finite_channel_ceiling_experiment.py.
    The pseudo-random stream is a parameter: `draws[s]` is what `randrange` returns for
    state s, which depends on the seed labels but never on the checkpoint list. */
module NestedSampler {
  import opened Arithmetic
  import opened FiniteSets
  import opened Results

  datatype Fraction = Fraction(numerator: int, denominator: nat)

  type Row = seq<Fraction>

  predicate Positive(row: Row) {
    forall i :: 0 <= i < |row| ==> row[i].denominator > 0
  }

  predicate NonNegative(row: Row) {
    forall i :: 0 <= i < |row| ==> row[i].numerator >= 0
  }

  // ---- Least common denominator ----------------------------------------------------

  function Gcd(a: nat, b: nat): nat
    decreases b
  {
    if b == 0 then a else Gcd(b, a % b)
  }

  ghost predicate Divides(d: nat, n: nat) {
    exists k: nat :: n == k * d
  }

  lemma DividesCombination(d: nat, a: nat, b: nat, q: nat)
    requires Divides(d, a) && Divides(d, b)
    ensures Divides(d, q * a + b)
  {
    var i: nat :| a == i * d;
    var j: nat :| b == j * d;
    assert q * a + b == (q * i + j) * d;
  }

  lemma {:induction false} GcdDivides(a: nat, b: nat)
    ensures Divides(Gcd(a, b), a) && Divides(Gcd(a, b), b)
    decreases b
  {
    if b == 0 {
      assert a == 1 * a && 0 == 0 * a;
    } else {
      GcdDivides(b, a % b);
      DividesCombination(Gcd(b, a % b), b, a % b, a / b);
      assert (a / b) * b + a % b == a;
    }
  }

  lemma {:induction false} GcdPositive(a: nat, b: nat)
    requires a > 0
    ensures Gcd(a, b) > 0
    decreases b
  {
    if b > 0 {
      GcdPositive(b, a % b);
    }
  }

  /** `math.lcm` of two positive integers. */
  function Lcm(a: nat, b: nat): nat
    requires a > 0
  {
    GcdPositive(a, b);
    Repeated(Quotient(a, Gcd(a, b)), b)
  }

  function Quotient(a: nat, g: nat): nat
    requires g > 0
  {
    a / g
  }

  function Repeated(a: nat, b: nat): nat {
    a * b
  }

  lemma LcmIsCommonMultiple(a: nat, b: nat)
    requires a > 0 && b > 0
    ensures Lcm(a, b) > 0 && Divides(a, Lcm(a, b)) && Divides(b, Lcm(a, b))
  {
    var g := Gcd(a, b);
    GcdPositive(a, b);
    GcdDivides(a, b);
    var i: nat :| a == i * g;
    var j: nat :| b == j * g;
    ExactQuotient(i, g);
    assert Lcm(a, b) == i * b;
    CommonProduct(i, j, g);
  }

  lemma ExactQuotient(i: nat, g: nat)
    requires g > 0
    ensures (i * g) / g == i
  {
    var a := i * g;
    assert a == (a / g) * g + a % g;
    assert (i - a / g) * g == a % g;
    MultipleOutside(i - a / g, g);
  }

  lemma MultipleOutside(k: int, g: nat)
    requires g > 0
    ensures k >= 1 ==> k * g >= g
    ensures k <= -1 ==> k * g < 0
  {
  }

  lemma CommonProduct(i: nat, j: nat, g: nat)
    requires i * g > 0 && j * g > 0
    ensures i * (j * g) == j * (i * g) > 0
  {
    assert i > 0;
  }

  /** The greatest common divisor is a combination of both numbers. */
  lemma {:induction false} GcdIsCombination(a: nat, b: nat) returns (u: int, v: int)
    ensures u * a + v * b == Gcd(a, b)
    decreases b
  {
    if b == 0 {
      u, v := 1, 0;
    } else {
      var x, y := GcdIsCombination(b, a % b);
      u, v := y, x - y * (a / b);
      RemainderCombined(x, y, a, b, a / b, a % b);
    }
  }

  lemma RemainderCombined(x: int, y: int, a: int, b: int, q: int, r: int)
    requires a == q * b + r
    ensures x * b + y * r == y * a + (x - y * q) * b
  {
    assert y * a == (y * q) * b + y * r;
  }

  lemma MultipliedOut(u: int, v: int, a: int, b: int, p: int, q: int, m: int)
    requires m == p * a && m == q * b
    ensures (u * a + v * b) * m == (u * q + v * p) * (a * b)
  {
    assert (u * a) * m == (u * a) * (q * b) == (u * q) * (a * b);
    assert (v * b) * m == (v * b) * (p * a) == (v * p) * (a * b);
    assert (u * a + v * b) * m == (u * a) * m + (v * b) * m;
    assert (u * q + v * p) * (a * b) == (u * q) * (a * b) + (v * p) * (a * b);
  }

  lemma Cancelled(g: int, m: int, k: int, i: int, b: int)
    requires g > 0 && g * m == k * ((i * g) * b)
    ensures m == k * (i * b)
  {
    assert k * ((i * g) * b) == g * (k * (i * b));
  }

  /** The least common multiple divides every common multiple. */
  lemma LcmDividesMultiples(a: nat, b: nat, m: nat)
    requires a > 0 && b > 0 && Divides(a, m) && Divides(b, m)
    ensures Divides(Lcm(a, b), m)
  {
    var g := Gcd(a, b);
    GcdPositive(a, b);
    GcdDivides(a, b);
    LcmIsCommonMultiple(a, b);
    var i: nat :| a == i * g;
    var p: nat :| m == p * a;
    var q: nat :| m == q * b;
    var u, v := GcdIsCombination(a, b);
    var k := u * q + v * p;
    ExactQuotient(i, g);
    assert Lcm(a, b) == i * b;
    MultipliedOut(u, v, a, b, p, q, m);
    Cancelled(g, m, k, i, b);
    NotNegativeFactor(k, Lcm(a, b), m);
  }

  lemma NotNegativeFactor(k: int, n: nat, m: nat)
    requires n > 0 && m == k * n
    ensures Divides(n, m)
  {
    if k < 0 {
      MultipleOutside(k, n);
    }
    var factor: nat := k;
    assert m == factor * n;
  }

  function CommonDenominator(row: Row): (c: nat)
    requires Positive(row)
    ensures c > 0
  {
    if row == [] then 1
    else
      var last := |row| - 1;
      var before := CommonDenominator(row[..last]);
      LcmIsCommonMultiple(before, row[last].denominator);
      Lcm(before, row[last].denominator)
  }

  /** The denominator that the row is brought to is the least one: it divides every other. */
  lemma {:induction false} CommonDenominatorIsLeast(row: Row, m: nat)
    requires Positive(row) && forall i :: 0 <= i < |row| ==> Divides(row[i].denominator, m)
    ensures Divides(CommonDenominator(row), m)
  {
    hide Divides, Lcm;
    if row == [] {
      OneDivides(m);
    } else {
      var last := |row| - 1;
      CommonDenominatorIsLeast(row[..last], m);
      LcmDividesMultiples(CommonDenominator(row[..last]), row[last].denominator, m);
    }
  }

  lemma OneDivides(m: nat)
    ensures Divides(1, m)
  {
    assert m == m * 1;
  }

  lemma DividesTransitive(a: nat, b: nat, c: nat)
    requires Divides(a, b) && Divides(b, c)
    ensures Divides(a, c)
  {
    var i: nat :| b == i * a;
    var j: nat :| c == j * b;
    assert c == (j * i) * a;
  }

  lemma {:induction false} EveryDenominatorDivides(row: Row, o: nat)
    requires Positive(row) && o < |row|
    ensures Divides(row[o].denominator, CommonDenominator(row))
  {
    var last := |row| - 1;
    LcmIsCommonMultiple(CommonDenominator(row[..last]), row[last].denominator);
    if o < last {
      EveryDenominatorDivides(row[..last], o);
      DividesTransitive(row[o].denominator, CommonDenominator(row[..last]), CommonDenominator(row));
    }
  }

  // ---- Integer weights -------------------------------------------------------------

  function Weight(row: Row, common: nat, o: nat): int
    requires Positive(row) && o < |row|
  {
    row[o].numerator * (common / row[o].denominator)
  }

  /** Sum of the weights of the first n observations: the cumulative thresholds. */
  function Threshold(row: Row, common: nat, n: nat): int
    requires Positive(row) && n <= |row|
  {
    if n == 0 then 0 else Threshold(row, common, n - 1) + Weight(row, common, n - 1)
  }

  function TotalWeight(row: Row): int
    requires Positive(row)
  {
    Threshold(row, CommonDenominator(row), |row|)
  }

  function Value(f: Fraction): real
    requires f.denominator > 0
  {
    f.numerator as real / f.denominator as real
  }

  function RowSum(row: Row, n: nat): real
    requires Positive(row) && n <= |row|
  {
    if n == 0 then 0.0 else RowSum(row, n - 1) + Value(row[n - 1])
  }

  function Scaled(x: real, c: nat): real {
    x * c as real
  }

  /** The weight over the common denominator is the fraction itself: no rounding. */
  lemma WeightIsExact(row: Row, o: nat)
    requires Positive(row) && o < |row|
    ensures Weight(row, CommonDenominator(row), o) as real
         == Value(row[o]) * CommonDenominator(row) as real
  {
    EveryDenominatorDivides(row, o);
    hide CommonDenominator;
    FractionOf(row[o].numerator, row[o].denominator, CommonDenominator(row));
  }

  lemma FractionOf(n: int, d: nat, c: nat)
    requires d > 0 && Divides(d, c)
    ensures (n * (c / d)) as real == (n as real / d as real) * c as real
  {
    var k: nat :| c == k * d;
    ExactQuotient(k, d);
    ScaledFraction(n, d, k);
  }

  lemma ScaledFraction(n: int, d: nat, k: nat)
    requires d > 0
    ensures (n * k) as real == (n as real / d as real) * (k * d) as real
  {
    var r := n as real / d as real;
    assert r * d as real == n as real;
    assert (k * d) as real == k as real * d as real;
    assert (n * k) as real == n as real * k as real;
    assert r * (k as real * d as real) == (r * d as real) * k as real;
  }

  lemma {:induction false} ThresholdIsExact(row: Row, n: nat)
    requires Positive(row) && n <= |row|
    ensures Threshold(row, CommonDenominator(row), n) as real == Scaled(RowSum(row, n), CommonDenominator(row))
  {
    hide *;
    var c := CommonDenominator(row);
    SumsNext(row, c, n);
    if n == 0 {
      ScaledAdds(0.0, 0.0, c);
    } else {
      ThresholdIsExact(row, n - 1);
      WeightIsExact(row, n - 1);
      ScaledAdds(RowSum(row, n - 1), Value(row[n - 1]), c);
    }
  }

  lemma SumsNext(row: Row, c: nat, n: nat)
    requires Positive(row) && n <= |row|
    ensures n == 0 ==> Threshold(row, c, n) == 0 && RowSum(row, n) == 0.0
    ensures n > 0 ==>
      row[n - 1].denominator > 0
      && Threshold(row, c, n) == Threshold(row, c, n - 1) + Weight(row, c, n - 1)
      && RowSum(row, n) == RowSum(row, n - 1) + Value(row[n - 1])
  {
  }

  lemma ScaledAdds(x: real, y: real, c: nat)
    ensures Scaled(x + y, c) == Scaled(x, c) + y * c as real
    ensures Scaled(0.0, c) == 0.0
  {
  }

  /** The integer test the sampler makes holds exactly when the fractions sum to one. */
  lemma AcceptedIffSumsToOne(row: Row)
    requires Positive(row)
    ensures TotalWeight(row) == CommonDenominator(row) <==> SumsToOne(row)
  {
    assert TotalWeight(row) == Threshold(row, CommonDenominator(row), |row|);
    assert SumsToOne(row) <==> RowSum(row, |row|) == 1.0;
    hide *;
    ThresholdIsExact(row, |row|);
    UnitScale(Threshold(row, CommonDenominator(row), |row|), RowSum(row, |row|), CommonDenominator(row));
  }

  /** The row is a probability vector of exact fractions. */
  predicate SumsToOne(row: Row) {
    Positive(row) && RowSum(row, |row|) == 1.0
  }

  lemma UnitScale(total: int, x: real, c: nat)
    requires c > 0 && total as real == Scaled(x, c)
    ensures total == c <==> x == 1.0
  {
    assert x * c as real - c as real == (x - 1.0) * c as real;
    if x > 1.0 {
      PositiveProduct(x - 1.0, c as real);
    } else if x < 1.0 {
      PositiveProduct(1.0 - x, c as real);
    }
  }

  // ---- Inversion -------------------------------------------------------------------

  /** `next(index for index, threshold in enumerate(cumulative) if draw < threshold)`. */
  function Observe(cumulative: seq<int>, draw: nat): (o: nat)
    ensures o <= |cumulative|
    ensures o < |cumulative| ==> draw < cumulative[o]
    ensures forall j :: 0 <= j < o ==> cumulative[j] <= draw
  {
    if cumulative == [] || draw < cumulative[0] then 0
    else Observe(cumulative[1..], draw) + 1
  }

  function Cumulative(row: Row, common: nat, n: nat): (c: seq<int>)
    requires Positive(row) && n <= |row|
    ensures |c| == n
    ensures forall i :: 0 <= i < n ==> c[i] == Threshold(row, common, i + 1)
  {
    if n == 0 then [] else Cumulative(row, common, n - 1) + [Threshold(row, common, n)]
  }

  function Outcome(row: Row, draw: nat): nat
    requires Positive(row)
  {
    Observe(Cumulative(row, CommonDenominator(row), |row|), draw)
  }

  lemma WeightSign(row: Row, o: nat)
    requires Positive(row) && o < |row|
    ensures Weight(row, CommonDenominator(row), o) >= 0 <==> row[o].numerator >= 0
  {
    EveryDenominatorDivides(row, o);
    var d, c := row[o].denominator, CommonDenominator(row);
    var k: nat :| c == k * d;
    ExactQuotient(k, d);
    ProductSign(row[o].numerator, k);
  }

  lemma ProductSign(n: int, k: nat)
    requires k > 0
    ensures n * k >= 0 <==> n >= 0
  {
  }

  lemma {:induction false} ThresholdsAscend(row: Row, i: nat, j: nat)
    requires Positive(row) && NonNegative(row) && i <= j <= |row|
    ensures Threshold(row, CommonDenominator(row), i) <= Threshold(row, CommonDenominator(row), j)
    decreases j - i
  {
    hide CommonDenominator, Weight;
    if i < j {
      ThresholdsAscend(row, i, j - 1);
      WeightSign(row, j - 1);
    }
  }

  /** A draw below the total always finds an observation, whatever the signs of the entries. */
  lemma DrawFindsObservation(row: Row, draw: nat)
    requires Positive(row) && draw < TotalWeight(row)
    ensures Outcome(row, draw) < |row|
  {
    var c := CommonDenominator(row);
    assert Cumulative(row, c, |row|)[|row| - 1] == Threshold(row, c, |row|);
  }

  /** On a row without negative entries the observation found is the one whose weight interval
      holds the draw. */
  lemma OutcomeInterval(row: Row, draw: nat, o: nat)
    requires Positive(row) && NonNegative(row) && draw < TotalWeight(row) && o < |row|
    ensures Outcome(row, draw) == o
       <==> Threshold(row, CommonDenominator(row), o) <= draw < Threshold(row, CommonDenominator(row), o + 1)
  {
    DrawFindsObservation(row, draw);
    var c := CommonDenominator(row);
    var cumulative := Cumulative(row, c, |row|);
    var found := Observe(cumulative, draw);
    if found < o {
      ThresholdsAscend(row, found + 1, o);
    } else if found > o {
      assert cumulative[o] <= draw;
    } else if o > 0 {
      assert cumulative[o - 1] <= draw;
    }
  }

  ghost function DrawsFor(row: Row, o: nat): set<int>
    requires Positive(row)
  {
    set d: int | 0 <= d < TotalWeight(row) && Outcome(row, d) == o
  }

  ghost function Interval(low: int, high: int): (s: set<int>)
    requires low <= high
    ensures forall d :: d in s <==> low <= d < high
    ensures |s| == high - low
    decreases high - low
  {
    if low == high then {} else Interval(low, high - 1) + {high - 1}
  }

  /** Exactness: among the equally likely draws, exactly `Weight` give observation o. */
  lemma DrawsForCount(row: Row, o: nat)
    requires Positive(row) && NonNegative(row) && o < |row|
    ensures |DrawsFor(row, o)| == Weight(row, CommonDenominator(row), o)
  {
    var c := CommonDenominator(row);
    var low, high := Threshold(row, c, o), Threshold(row, c, o + 1);
    hide CommonDenominator, Outcome;
    ThresholdsAscend(row, 0, o);
    ThresholdsAscend(row, o, o + 1);
    ThresholdsAscend(row, o + 1, |row|);
    hide Weight;
    forall d: int
      ensures d in DrawsFor(row, o) <==> d in Interval(low, high)
    {
      if 0 <= d < TotalWeight(row) {
        OutcomeInterval(row, d, o);
      }
    }
    assert DrawsFor(row, o) == Interval(low, high);
  }

  /** Every observation gets exactly its weight in draws if and only if no entry of the row is
      negative. */
  lemma DrawsAreExactlyTheWeights(row: Row)
    requires Positive(row)
    ensures (forall o: nat :: o < |row| ==> |DrawsFor(row, o)| == Weight(row, CommonDenominator(row), o))
        <==> NonNegative(row)
  {
    hide DrawsFor, Weight, CommonDenominator;
    if NonNegative(row) {
      forall o: nat | o < |row| ensures |DrawsFor(row, o)| == Weight(row, CommonDenominator(row), o) {
        DrawsForCount(row, o);
      }
    } else {
      var o: nat :| o < |row| && row[o].numerator < 0;
      WeightSign(row, o);
      assert |DrawsFor(row, o)| != Weight(row, CommonDenominator(row), o);
    }
  }

  /** The row (-1, 2) sums to one, so the sampler accepts it, and its weights are not the draws. */
  lemma NegativeRowIsAccepted()
    ensures var row := [Fraction(-1, 1), Fraction(2, 1)];
      && SumsToOne(row)
      && exists o: nat :: o < |row| && |DrawsFor(row, o)| != Weight(row, CommonDenominator(row), o)
  {
    var row := [Fraction(-1, 1), Fraction(2, 1)];
    assert RowSum(row, 1) == -1.0 && RowSum(row, 2) == 1.0;
    assert !NonNegative(row) by {
      assert row[0].numerator < 0;
    }
    hide DrawsFor, Weight, CommonDenominator, RowSum;
    DrawsAreExactlyTheWeights(row);
  }

  // ---- Counts ----------------------------------------------------------------------

  ghost function HitPositions(row: Row, draws: seq<nat>, n: nat, o: int): set<int>
    requires Positive(row) && n <= |draws|
  {
    set i: int | 0 <= i < n && Outcome(row, draws[i]) == o
  }

  /** How many of the first n draws gave observation o. */
  ghost function Tally(row: Row, draws: seq<nat>, n: nat, o: int): nat
    requires Positive(row) && n <= |draws|
  {
    |HitPositions(row, draws, n, o)|
  }

  ghost predicate IsTallyRow(row: Row, draws: seq<nat>, n: nat, counts: seq<nat>)
    requires Positive(row) && n <= |draws|
  {
    |counts| == |row| && forall o :: 0 <= o < |row| ==> counts[o] == Tally(row, draws, n, o)
  }

  lemma TallyAtMost(row: Row, draws: seq<nat>, n: nat, o: int)
    requires Positive(row) && n <= |draws|
    ensures Tally(row, draws, n, o) <= n
  {
    SubsetSize(HitPositions(row, draws, n, o), Below(n));
  }

  lemma TallyStep(row: Row, draws: seq<nat>, n: nat, o: int)
    requires Positive(row) && n < |draws|
    ensures Tally(row, draws, n + 1, o) == Tally(row, draws, n, o) + if Outcome(row, draws[n]) == o then 1 else 0
  {
    hide Outcome;
    var before, after := HitPositions(row, draws, n, o), HitPositions(row, draws, n + 1, o);
    if Outcome(row, draws[n]) == o {
      assert after == before + {n};
    } else {
      assert after == before;
    }
  }

  function Total(counts: seq<nat>): nat {
    if counts == [] then 0 else Total(counts[..|counts| - 1]) + counts[|counts| - 1]
  }

  lemma {:induction false} TotalUpdated(counts: seq<nat>, o: nat)
    requires o < |counts|
    ensures Total(counts[o := counts[o] + 1]) == Total(counts) + 1
  {
    var last := |counts| - 1;
    if o < last {
      TotalUpdated(counts[..last], o);
      assert counts[o := counts[o] + 1][..last] == counts[..last][o := counts[o] + 1];
    } else {
      assert counts[o := counts[o] + 1][..last] == counts[..last];
    }
  }

  lemma {:induction false} TotalZero(counts: seq<nat>)
    requires forall o :: 0 <= o < |counts| ==> counts[o] == 0
    ensures Total(counts) == 0
  {
    if counts != [] {
      TotalZero(counts[..|counts| - 1]);
    }
  }

  /** A larger checkpoint dominates a smaller one cell by cell. */
  lemma {:induction false} TallyGrows(row: Row, draws: seq<nat>, n: nat, m: nat, o: int)
    requires Positive(row) && n <= m <= |draws|
    ensures Tally(row, draws, n, o) <= Tally(row, draws, m, o)
  {
    if n < m {
      TallyGrows(row, draws, n, m - 1, o);
      TallyStep(row, draws, m - 1, o);
    }
  }

  /** A checkpoint depends only on its own prefix of the stream, so asking for further
      checkpoints, or drawing further, leaves it unchanged. */
  lemma TallyDependsOnPrefix(row: Row, draws: seq<nat>, other: seq<nat>, n: nat, o: int)
    requires Positive(row) && n <= |draws| && n <= |other| && draws[..n] == other[..n]
    ensures Tally(row, draws, n, o) == Tally(row, other, n, o)
  {
    forall i | 0 <= i < n ensures draws[i] == other[i] {
      assert draws[..n][i] == other[..n][i];
    }
    assert HitPositions(row, draws, n, o) == HitPositions(row, other, n, o);
  }

  // ---- The sampler -----------------------------------------------------------------

  datatype SamplerError = RowDoesNotSumToOne | NoSampleSizes

  /** `randrange` stays below the row's total, and there are enough draws for every size. */
  predicate IsStream(row: Row, sizes: seq<int>, draws: seq<nat>) {
    && Positive(row)
    && (forall size :: size in sizes ==> size <= |draws|)
    && (forall i :: 0 <= i < |draws| ==> TotalWeight(row) > 0 ==> draws[i] < TotalWeight(row))
  }

  ghost predicate ValidStream(channel: seq<Row>, sizes: seq<int>, draws: seq<seq<nat>>) {
    |draws| == |channel| && forall s :: 0 <= s < |channel| ==> IsStream(channel[s], sizes, draws[s])
  }

  method LargestSize(sizes: seq<int>) returns (largest: int)
    requires sizes != []
    ensures largest in sizes
    ensures forall size :: size in sizes ==> size <= largest
  {
    largest := sizes[0];
    for k := 1 to |sizes|
      invariant largest in sizes
      invariant forall j :: 0 <= j < k ==> sizes[j] <= largest
    {
      if sizes[k] > largest {
        largest := sizes[k];
      }
    }
  }

  /** The cumulative thresholds of one row, and their last value. */
  method Accumulate(row: Row) returns (cumulative: seq<int>, running: int)
    requires Positive(row)
    ensures cumulative == Cumulative(row, CommonDenominator(row), |row|)
    ensures running == TotalWeight(row)
  {
    var common := CommonDenominator(row);
    var integerWeights := seq(|row|, o requires 0 <= o < |row| => Weight(row, common, o));
    cumulative := [];
    running := 0;
    hide Weight, CommonDenominator;
    for o := 0 to |row|
      invariant running == Threshold(row, common, o)
      invariant cumulative == Cumulative(row, common, o)
    {
      running := running + integerWeights[o];
      cumulative := cumulative + [running];
    }
  }

  /** The running counts after n draws. */
  ghost predicate TalliedTo(row: Row, draws: seq<nat>, n: int, counts: seq<nat>) {
    Positive(row) && 0 <= n <= |draws| && IsTallyRow(row, draws, n, counts) && Total(counts) == n
  }

  lemma NoDrawsYet(row: Row, draws: seq<nat>, counts: seq<nat>)
    requires Positive(row) && |counts| == |row| && forall o :: 0 <= o < |counts| ==> counts[o] == 0
    ensures TalliedTo(row, draws, 0, counts)
  {
    TotalZero(counts);
    forall o | 0 <= o < |row| ensures counts[o] == Tally(row, draws, 0, o) {
      TallyAtMost(row, draws, 0, o);
    }
  }

  lemma CountObservation(row: Row, draws: seq<nat>, n: nat, counts: seq<nat>, cumulative: seq<int>, observation: nat)
    requires Positive(row) && n < |draws| && TalliedTo(row, draws, n, counts)
    requires draws[n] < TotalWeight(row)
    requires cumulative == Cumulative(row, CommonDenominator(row), |row|)
    requires observation == Observe(cumulative, draws[n])
    ensures observation < |counts| == |row|
    ensures TalliedTo(row, draws, n + 1, counts[observation := counts[observation] + 1])
  {
    DrawFindsObservation(row, draws[n]);
    hide Observe, Total, Tally;
    var counted := counts[observation := counts[observation] + 1];
    forall o | 0 <= o < |row|
      ensures counted[o] == Tally(row, draws, n + 1, o)
    {
      TallyStep(row, draws, n, o);
    }
    TotalUpdated(counts, observation);
  }

  /** One trial: invert the draw and count the observation it lands on. */
  method CountDraw(row: Row, draws: seq<nat>, n: nat, counts: seq<nat>, cumulative: seq<int>)
      returns (counted: seq<nat>)
    requires Positive(row) && cumulative == Cumulative(row, CommonDenominator(row), |row|)
    requires n < |draws| && draws[n] < TotalWeight(row)
    requires TalliedTo(row, draws, n, counts)
    ensures TalliedTo(row, draws, n + 1, counted)
  {
    var observation := Observe(cumulative, draws[n]);
    CountObservation(row, draws, n, counts, cumulative, observation);
    hide *;
    counted := counts[observation := counts[observation] + 1];
  }

  /** The trial loop; a size below one is never reached. */
  method RunTrials(row: Row, sizes: seq<int>, draws: seq<nat>, cumulative: seq<int>, largest: int)
    returns (checkpoints: map<int, seq<nat>>)
    requires Positive(row) && cumulative == Cumulative(row, CommonDenominator(row), |row|)
    requires forall size :: size in sizes ==> size <= largest
    requires largest <= |draws| && forall i :: 0 <= i < |draws| ==> draws[i] < TotalWeight(row)
    ensures forall size :: size in checkpoints <==> size in sizes && size >= 1
    ensures forall size :: size in checkpoints ==> TalliedTo(row, draws, size, checkpoints[size])
  {
    var counts: seq<nat> := seq(|row|, _ => 0);
    NoDrawsYet(row, draws, counts);
    checkpoints := map[];
    hide *;
    var trial := 1;
    while trial <= largest
      invariant 1 <= trial && (trial <= largest + 1 || trial == 1)
      invariant TalliedTo(row, draws, trial - 1, counts)
      invariant forall size :: size in checkpoints <==> size in sizes && 1 <= size < trial
      invariant forall size :: size in checkpoints ==> TalliedTo(row, draws, size, checkpoints[size])
    {
      counts := CountDraw(row, draws, trial - 1, counts, cumulative);
      if trial in sizes {
        checkpoints := checkpoints[trial := counts];
      }
      trial := trial + 1;
    }
  }

  /** One state's checkpoints: the running counts are stored at every requested size. */
  method SampleRow(row: Row, sizes: seq<int>, draws: seq<nat>)
    returns (result: Result<map<int, seq<nat>>, SamplerError>)
    requires IsStream(row, sizes, draws)
    ensures result == Err(RowDoesNotSumToOne) <==> !SumsToOne(row)
    ensures result == Err(NoSampleSizes) <==> SumsToOne(row) && sizes == []
    ensures result.Ok? ==> forall size :: size in result.value <==> size in sizes && size >= 1
    ensures result.Ok? ==> forall size :: size in result.value ==> TalliedTo(row, draws, size, result.value[size])
  {
    AcceptedIffSumsToOne(row);
    var cumulative, running := Accumulate(row);
    if running != CommonDenominator(row) {
      return Err(RowDoesNotSumToOne);
    }
    if sizes == [] {
      return Err(NoSampleSizes);
    }
    hide CommonDenominator, TalliedTo, SumsToOne, TotalWeight;
    var largest := LargestSize(sizes);
    var checkpoints := RunTrials(row, sizes, draws, cumulative, largest);
    return Ok(checkpoints);
  }

  /** Every checkpoint holds, for each of the first n states, the exact tally of its own prefix of
      that state's stream, and each of its rows sums to the checkpoint; a size below one holds
      no row at all. */
  ghost predicate SampledTo(channel: seq<Row>, sizes: seq<int>, draws: seq<seq<nat>>, n: nat,
                            rows: map<int, seq<seq<nat>>>) {
    && n <= |channel| == |draws|
    && (forall size :: size in rows <==> size in sizes)
    && (forall size :: size in sizes ==> |rows[size]| == if size >= 1 then n else 0)
    && (forall size, s :: size in sizes && size >= 1 && 0 <= s < n ==>
          TalliedTo(channel[s], draws[s], size, rows[size][s]))
  }

  function AppendRow(sizes: seq<int>, rows: map<int, seq<seq<nat>>>, row: map<int, seq<nat>>): map<int, seq<seq<nat>>>
    requires forall size :: size in sizes ==> size in rows && (size >= 1 ==> size in row)
  {
    map size | size in sizes :: if size >= 1 then rows[size] + [row[size]] else rows[size]
  }

  lemma AppendRowSampled(channel: seq<Row>, sizes: seq<int>, draws: seq<seq<nat>>, n: nat,
                         rows: map<int, seq<seq<nat>>>, row: map<int, seq<nat>>)
    requires SampledTo(channel, sizes, draws, n, rows) && n < |channel|
    requires forall size :: size in sizes && size >= 1 ==>
      size in row && TalliedTo(channel[n], draws[n], size, row[size])
    ensures SampledTo(channel, sizes, draws, n + 1, AppendRow(sizes, rows, row))
  {
    hide TalliedTo;
  }

  /** `_sample_nested_counts` succeeds exactly when every row sums to one and, unless there is no
      row, some size is asked for; then every checkpoint holds the exact tallies of its own
      prefix of the streams. */
  method SampleNestedCounts(channel: seq<Row>, sizes: seq<int>, draws: seq<seq<nat>>)
    returns (result: Result<map<int, seq<seq<nat>>>, SamplerError>)
    requires ValidStream(channel, sizes, draws)
    ensures result.Ok? <==> (forall s :: 0 <= s < |channel| ==> SumsToOne(channel[s])) && (channel == [] || sizes != [])
    ensures result.Ok? ==> SampledTo(channel, sizes, draws, |channel|, result.value)
  {
    var rows: map<int, seq<seq<nat>>> := map size | size in sizes :: [];
    for s := 0 to |channel|
      invariant SampledTo(channel, sizes, draws, s, rows)
      invariant (forall t :: 0 <= t < s ==> SumsToOne(channel[t])) && (s == 0 || sizes != [])
    {
      hide TalliedTo, SumsToOne, IsStream;
      var sampled := SampleRow(channel[s], sizes, draws[s]);
      if sampled.Err? {
        assert sampled.error.RowDoesNotSumToOne? || sampled.error.NoSampleSizes?;
        return Err(sampled.error);
      }
      AppendRowSampled(channel, sizes, draws, s, rows, sampled.value);
      rows := AppendRow(sizes, rows, sampled.value);
    }
    return Ok(rows);
  }

  // ---- Nesting ---------------------------------------------------------------------

  /** Added checkpoints, which only draw further, never change a checkpoint: two results over
      different size lists agree wherever both hold it. */
  lemma AddedCheckpointsChangeNothing(channel: seq<Row>, sizes: seq<int>, draws: seq<seq<nat>>,
                                      rows: map<int, seq<seq<nat>>>, more: seq<int>, further: seq<seq<nat>>,
                                      others: map<int, seq<seq<nat>>>, size: int)
    requires SampledTo(channel, sizes, draws, |channel|, rows) && SampledTo(channel, more, further, |channel|, others)
    requires forall s :: 0 <= s < |channel| ==> draws[s] <= further[s]
    requires size in sizes && size in more
    ensures rows[size] == others[size]
  {
    hide TalliedTo;
    if size >= 1 {
      forall s | 0 <= s < |channel| ensures rows[size][s] == others[size][s] {
        SameTally(channel[s], draws[s], further[s], size, rows[size][s], others[size][s]);
      }
    }
  }

  lemma SameTally(row: Row, draws: seq<nat>, further: seq<nat>, size: int, a: seq<nat>, b: seq<nat>)
    requires TalliedTo(row, draws, size, a) && TalliedTo(row, further, size, b) && draws <= further
    ensures a == b
  {
    hide Tally, Total;
    assert draws[..size] == further[..size];
    forall o | 0 <= o < |row| ensures a[o] == b[o] {
      TallyDependsOnPrefix(row, draws, further, size, o);
    }
  }

  /** Within one result a larger checkpoint dominates a smaller one cell by cell. */
  lemma CheckpointsDominate(channel: seq<Row>, sizes: seq<int>, draws: seq<seq<nat>>, rows: map<int, seq<seq<nat>>>,
                            small: int, large: int, s: nat, o: nat)
    requires SampledTo(channel, sizes, draws, |channel|, rows)
    requires small in sizes && large in sizes && 1 <= small <= large && s < |channel| && o < |channel[s]|
    ensures |rows[small]| == |rows[large]| == |channel| && |rows[small][s]| == |rows[large][s]| == |channel[s]|
    ensures rows[small][s][o] <= rows[large][s][o]
  {
    assert TalliedTo(channel[s], draws[s], small, rows[small][s])
      && TalliedTo(channel[s], draws[s], large, rows[large][s]);
    TallyGrows(channel[s], draws[s], small, large, o);
  }
}
