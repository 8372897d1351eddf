/** The subsampled-Gaussian accountant replay of scripts/analyze_openml_dp_sgd.py.

    The script adds logarithms; the model adds the numbers themselves.  With
    base = e^(1/(2 sigma^2)) >= 1, `replay_rdp` of order a is log(Moment(a, q, base)) / (a - 1). */
module MomentsAccountant {
  import opened Arithmetic
  import opened Sums
  import opened HypergeometricBound

  function Power(x: real, n: nat): real {
    if n == 0 then 1.0 else x * Power(x, n - 1)
  }

  /** base^(j(j-1)): the factor exp(j(j-1)/(2 sigma^2)). */
  function Growth(base: real, j: nat): real {
    Power(base, if j == 0 then 0 else j * (j - 1))
  }

  // ---- The replayed sum ------------------------------------------------------------

  function Weighted(count: nat, hits: real, misses: real, growth: real): real {
    count as real * (hits * misses) * growth
  }

  /** Weight of j successes out of n, times the growth at j + k. */
  function Term(base: real, q: real, n: nat, k: nat, j: int): real {
    if 0 <= j <= n then Weighted(Choose(n, j), Power(q, j), Power(1.0 - q, n - j), Growth(base, j + k)) else 0.0
  }

  function Moment(order: nat, q: real, base: real): real {
    Sum(order + 1, j => Term(base, q, order, 0, j))
  }

  function Mix(q: real, x: real, y: real): real {
    (1.0 - q) * x + q * y
  }

  /** The same expectation one Bernoulli draw at a time. */
  function Drift(base: real, q: real, n: nat, k: nat): real {
    if n == 0 then Growth(base, k)
    else Mix(q, Drift(base, q, n - 1, k), Drift(base, q, n - 1, k + 1))
  }

  lemma {:induction false} ChooseAbove(n: nat, j: nat)
    requires j > n
    ensures Choose(n, j) == 0
  {
    if n > 0 {
      ChooseAbove(n - 1, j);
      ChooseAbove(n - 1, j - 1);
    }
  }

  lemma PowerNext(x: real, n: nat)
    requires n > 0
    ensures Power(x, n) == x * Power(x, n - 1)
  {
  }

  /** Pascal's rule for the weighted terms. */
  lemma TermSplits(base: real, q: real, n: nat, k: nat, j: nat)
    requires n > 0 && j <= n
    ensures Term(base, q, n, k, j) == Mix(q, Term(base, q, n - 1, k, j), Term(base, q, n - 1, k + 1, j - 1))
  {
    if j == 0 {
      FirstTermSplits(base, q, n, k);
    } else if j == n {
      LastTermSplits(base, q, n, k);
    } else {
      InnerTermSplits(base, q, n, k, j);
    }
  }

  lemma TermIs(base: real, q: real, n: nat, k: nat, j: nat)
    requires j <= n
    ensures Term(base, q, n, k, j) == Weighted(Choose(n, j), Power(q, j), Power(1.0 - q, n - j), Growth(base, j + k))
  {
  }

  lemma FirstTermSplits(base: real, q: real, n: nat, k: nat)
    requires n > 0
    ensures Term(base, q, n, k, 0) == Mix(q, Term(base, q, n - 1, k, 0), Term(base, q, n - 1, k + 1, -1))
  {
    assert Term(base, q, n - 1, k + 1, -1) == 0.0 && Choose(n, 0) == Choose(n - 1, 0);
    hide *;
    TermIs(base, q, n, k, 0);
    TermIs(base, q, n - 1, k, 0);
    PowerNext(1.0 - q, n);
    OnlyMiss(q, Choose(n, 0), Power(q, 0), Power(1.0 - q, n - 1), Growth(base, k), Power(1.0 - q, n));
  }

  lemma LastTermSplits(base: real, q: real, n: nat, k: nat)
    requires n > 0
    ensures Term(base, q, n, k, n) == Mix(q, Term(base, q, n - 1, k, n), Term(base, q, n - 1, k + 1, n - 1))
  {
    ChooseAbove(n - 1, n);
    assert Term(base, q, n - 1, k, n) == 0.0 && Choose(n, n) == Choose(n - 1, n - 1);
    hide *;
    TermIs(base, q, n, k, n);
    TermIs(base, q, n - 1, k + 1, n - 1);
    PowerNext(q, n);
    OnlyHit(q, Choose(n, n), Power(q, n - 1), Power(1.0 - q, 0), Growth(base, n + k), Power(q, n));
  }

  lemma InnerTermSplits(base: real, q: real, n: nat, k: nat, j: nat)
    requires 0 < j < n
    ensures Term(base, q, n, k, j) == Mix(q, Term(base, q, n - 1, k, j), Term(base, q, n - 1, k + 1, j - 1))
  {
    assert Choose(n, j) == Choose(n - 1, j) + Choose(n - 1, j - 1);
    hide *;
    TermIs(base, q, n, k, j);
    TermIs(base, q, n - 1, k, j);
    TermIs(base, q, n - 1, k + 1, j - 1);
    PowersSplit(q, Choose(n - 1, j), Choose(n - 1, j - 1), j, n - j, Growth(base, j + k));
  }

  lemma PowersSplit(q: real, c: nat, d: nat, hits: nat, misses: nat, g: real)
    requires hits > 0 && misses > 0
    ensures Weighted(c + d, Power(q, hits), Power(1.0 - q, misses), g)
         == Mix(q, Weighted(c, Power(q, hits), Power(1.0 - q, misses - 1), g),
                Weighted(d, Power(q, hits - 1), Power(1.0 - q, misses), g))
  {
    hide *;
    PowerNext(q, hits);
    PowerNext(1.0 - q, misses);
    MissOrHit(q, c, d, Power(q, hits - 1), Power(1.0 - q, misses - 1), g, Power(q, hits), Power(1.0 - q, misses));
  }

  lemma TakeFactor(f: real, c: nat, u: real, v: real, g: real, fu: real, fv: real)
    requires fu == f * u && fv == f * v
    ensures Weighted(c, fu, v, g) == f * Weighted(c, u, v, g)
    ensures Weighted(c, u, fv, g) == f * Weighted(c, u, v, g)
  {
    assert fu * v == f * (u * v) && u * fv == f * (u * v);
    var w := u * v;
    assert c as real * (f * w) == f * (c as real * w);
    assert (f * (c as real * w)) * g == f * ((c as real * w) * g);
  }

  lemma OnlyMiss(q: real, c: nat, u: real, v: real, g: real, pv: real)
    requires pv == (1.0 - q) * v
    ensures Weighted(c, u, pv, g) == Mix(q, Weighted(c, u, v, g), 0.0)
  {
    TakeFactor(1.0 - q, c, u, v, g, (1.0 - q) * u, pv);
    hide Weighted;
  }

  lemma OnlyHit(q: real, c: nat, u: real, v: real, g: real, qu: real)
    requires qu == q * u
    ensures Weighted(c, qu, v, g) == Mix(q, 0.0, Weighted(c, u, v, g))
  {
    TakeFactor(q, c, u, v, g, qu, q * v);
    hide Weighted;
  }

  lemma MissOrHit(q: real, c: nat, d: nat, u: real, v: real, g: real, qu: real, pv: real)
    requires qu == q * u && pv == (1.0 - q) * v
    ensures Weighted(c + d, qu, pv, g) == Mix(q, Weighted(c, qu, v, g), Weighted(d, u, pv, g))
  {
    hide Weighted;
    TakeFactor(1.0 - q, c, qu, v, g, (1.0 - q) * qu, pv);
    TakeFactor(q, d, u, pv, g, qu, q * pv);
    CountsAdd(c, d, qu, pv, g);
  }

  lemma CountsAdd(c: nat, d: nat, u: real, v: real, g: real)
    ensures Weighted(c + d, u, v, g) == Weighted(c, u, v, g) + Weighted(d, u, v, g)
  {
    var w := u * v;
    assert (c + d) as real * w == c as real * w + d as real * w;
    assert (c as real * w + d as real * w) * g == (c as real * w) * g + (d as real * w) * g;
  }

  lemma {:induction false} SumShifted(n: nat, f: int -> real, g: int -> real)
    requires forall j :: f(j) == g(j - 1)
    ensures Sum(n + 1, f) == g(-1) + Sum(n, g)
  {
    if n > 0 {
      SumShifted(n - 1, f, g);
    }
  }

  lemma MixAdds(q: real, a: real, b: real, c: real, d: real)
    ensures Mix(q, a, b) + Mix(q, c, d) == Mix(q, a + c, b + d)
  {
  }

  lemma {:induction false} SumOfMixes(n: nat, q: real, whole: int -> real, left: int -> real, right: int -> real)
    requires forall j: nat :: j < n ==> whole(j) == Mix(q, left(j), right(j))
    ensures Sum(n, whole) == Mix(q, Sum(n, left), Sum(n, right))
  {
    if n > 0 {
      SumOfMixes(n - 1, q, whole, left, right);
      MixAdds(q, Sum(n - 1, left), Sum(n - 1, right), left(n - 1), right(n - 1));
      hide Mix;
    }
  }

  /** The binomial sum is the step-by-step expectation. */
  lemma {:induction false} SumIsDrift(base: real, q: real, n: nat, k: nat)
    ensures Sum(n + 1, j => Term(base, q, n, k, j)) == Drift(base, q, n, k)
  {
    var whole := j => Term(base, q, n, k, j);
    if n == 0 {
      assert Sum(1, whole) == whole(0);
      assert Choose(0, 0) == 1;
    } else {
      SumIsDrift(base, q, n - 1, k);
      SumIsDrift(base, q, n - 1, k + 1);
      DriftOfSums(base, q, n, k, whole, j => Term(base, q, n - 1, k, j), j => Term(base, q, n - 1, k + 1, j));
    }
  }

  lemma NoOutsideTerms(base: real, q: real, n: nat, k: nat)
    requires n > 0
    ensures Term(base, q, n - 1, k, n) == 0.0 && Term(base, q, n - 1, k + 1, -1) == 0.0
  {
  }

  lemma DriftOfSums(base: real, q: real, n: nat, k: nat, whole: int -> real, stay: int -> real, move: int -> real)
    requires n > 0
    requires forall j :: whole(j) == Term(base, q, n, k, j)
    requires forall j :: stay(j) == Term(base, q, n - 1, k, j)
    requires forall j :: move(j) == Term(base, q, n - 1, k + 1, j)
    ensures Sum(n + 1, whole) == Mix(q, Sum(n, stay), Sum(n, move))
  {
    hide Term, Mix;
    NoOutsideTerms(base, q, n, k);
    var moved := j => move(j - 1);
    forall j: nat | j < n + 1 ensures whole(j) == Mix(q, stay(j), moved(j)) {
      TermSplits(base, q, n, k, j);
    }
    SumOfMixes(n + 1, q, whole, stay, moved);
    SumShifted(n, moved, move);
    assert Sum(n + 1, stay) == Sum(n, stay) + stay(n);
  }

  // ---- Bounds and monotonicity -----------------------------------------------------

  lemma {:induction false} PowerAtLeastOne(x: real, n: nat)
    requires x >= 1.0
    ensures Power(x, n) >= 1.0
  {
    if n > 0 {
      PowerAtLeastOne(x, n - 1);
      ProductMonotone(1.0, x, 1.0, Power(x, n - 1));
    }
  }

  lemma {:induction false} PowerMonotone(x: real, m: nat, n: nat)
    requires x >= 1.0 && m <= n
    ensures Power(x, m) <= Power(x, n)
  {
    if m < n {
      PowerMonotone(x, m, n - 1);
      PowerAtLeastOne(x, n - 1);
      ProductMonotone(1.0, x, Power(x, n - 1), Power(x, n - 1));
    }
  }

  lemma {:induction false} PowerMonotoneInBase(x: real, y: real, n: nat)
    requires 0.0 <= x <= y
    ensures 0.0 <= Power(x, n) <= Power(y, n)
  {
    if n > 0 {
      PowerMonotoneInBase(x, y, n - 1);
      ProductMonotone(x, y, Power(x, n - 1), Power(y, n - 1));
      ProductMonotone(0.0, x, 0.0, Power(x, n - 1));
    }
  }

  lemma GrowthMonotone(base: real, j: nat, k: nat)
    requires base >= 1.0 && j <= k
    ensures 1.0 <= Growth(base, j) <= Growth(base, k)
  {
    PowerAtLeastOne(base, if j == 0 then 0 else j * (j - 1));
    if 0 < j {
      assert j * (j - 1) <= k * (k - 1);
    }
    PowerMonotone(base, if j == 0 then 0 else j * (j - 1), if k == 0 then 0 else k * (k - 1));
  }

  lemma Mixture(q: real, x: real, y: real, low: real, high: real)
    requires 0.0 <= q <= 1.0 && low <= x <= high && low <= y <= high
    ensures low <= Mix(q, x, y) <= high
  {
    var p := 1.0 - q;
    NonNegativeProduct(p, x - low);
    NonNegativeProduct(q, y - low);
    NonNegativeProduct(p, high - x);
    NonNegativeProduct(q, high - y);
    assert p * (x - low) == p * x - p * low && q * (y - low) == q * y - q * low;
    assert p * (high - x) == p * high - p * x && q * (high - y) == q * high - q * y;
    assert p * low + q * low == low && p * high + q * high == high;
  }

  lemma {:induction false} DriftBounds(base: real, q: real, n: nat, k: nat)
    requires base >= 1.0 && 0.0 <= q <= 1.0
    ensures 1.0 <= Drift(base, q, n, k) <= Growth(base, n + k)
  {
    hide Growth, Mix;
    if n == 0 {
      GrowthMonotone(base, k, k);
    } else {
      DriftBounds(base, q, n - 1, k);
      DriftBounds(base, q, n - 1, k + 1);
      GrowthMonotone(base, n - 1 + k, n + k);
      Mixture(q, Drift(base, q, n - 1, k), Drift(base, q, n - 1, k + 1), 1.0, Growth(base, n + k));
    }
  }

  /** A mixture grows with either value, and with the weight of the larger one. */
  lemma MixtureMonotone(q: real, r: real, x: real, y: real, u: real, v: real)
    requires 0.0 <= q <= r <= 1.0 && x <= u && y <= v && u <= v
    ensures Mix(q, x, y) <= Mix(r, u, v)
  {
    NonNegativeProduct(1.0 - q, u - x);
    NonNegativeProduct(q, v - y);
    NonNegativeProduct(r - q, v - u);
    assert Mix(r, u, v) - Mix(q, x, y)
        == (1.0 - q) * (u - x) + q * (v - y) + (r - q) * (v - u);
  }

  lemma {:induction false} DriftGrowsWithStart(base: real, q: real, n: nat, k: nat)
    requires base >= 1.0 && 0.0 <= q <= 1.0
    ensures Drift(base, q, n, k) <= Drift(base, q, n, k + 1)
  {
    hide Growth, Mix;
    if n == 0 {
      GrowthMonotone(base, k, k + 1);
    } else {
      DriftGrowsWithStart(base, q, n - 1, k);
      DriftGrowsWithStart(base, q, n - 1, k + 1);
      MixtureMonotone(q, q, Drift(base, q, n - 1, k), Drift(base, q, n - 1, k + 1),
                      Drift(base, q, n - 1, k + 1), Drift(base, q, n - 1, k + 2));
    }
  }

  lemma {:induction false} DriftMonotone(low: real, high: real, q: real, r: real, n: nat, k: nat)
    requires 1.0 <= low <= high && 0.0 <= q <= r <= 1.0
    ensures Drift(low, q, n, k) <= Drift(high, r, n, k)
  {
    if n == 0 {
      PowerMonotoneInBase(low, high, if k == 0 then 0 else k * (k - 1));
    } else {
      hide Mix;
      DriftMonotone(low, high, q, r, n - 1, k);
      DriftMonotone(low, high, q, r, n - 1, k + 1);
      DriftGrowsWithStart(high, r, n - 1, k);
      MixtureMonotone(q, r, Drift(low, q, n - 1, k), Drift(low, q, n - 1, k + 1),
                      Drift(high, r, n - 1, k), Drift(high, r, n - 1, k + 1));
    }
  }

  lemma {:induction false} DriftAtFullSampling(base: real, n: nat, k: nat)
    ensures Drift(base, 1.0, n, k) == Growth(base, n + k)
  {
    if n > 0 {
      DriftAtFullSampling(base, n - 1, k + 1);
    }
  }

  /** The replayed moment lies between 1 and the unsampled Gaussian moment, which it
      attains at sampling rate one. */
  lemma MomentBounds(order: nat, q: real, base: real)
    requires base >= 1.0 && 0.0 <= q <= 1.0
    ensures 1.0 <= Moment(order, q, base) <= Growth(base, order) == Moment(order, 1.0, base)
  {
    SumIsDrift(base, q, order, 0);
    SumIsDrift(base, 1.0, order, 0);
    DriftBounds(base, q, order, 0);
    DriftAtFullSampling(base, order, 0);
  }

  /** More sampling or less noise never lowers the moment. */
  lemma MomentMonotone(order: nat, q: real, r: real, low: real, high: real)
    requires 1.0 <= low <= high && 0.0 <= q <= r <= 1.0
    ensures Moment(order, q, low) <= Moment(order, r, high)
  {
    SumIsDrift(low, q, order, 0);
    SumIsDrift(high, r, order, 0);
    DriftMonotone(low, high, q, r, order, 0);
  }

  // ---- The replay loops ------------------------------------------------------------

  lemma {:induction false} PowerOfZero(n: nat)
    requires n > 0
    ensures Power(0.0, n) == 0.0
  {
  }

  /** At rate one every term but the last vanishes, which is why the loop may skip them. */
  lemma SkippedTermIsZero(base: real, order: nat, j: nat)
    requires j < order
    ensures Term(base, 1.0, order, 0, j) == 0.0
  {
    PowerOfZero(order - j);
  }

  /** `replay_rdp`, inside the logarithm: the list of terms, then the fold over it. */
  method ReplayMoment(order: nat, q: real, base: real) returns (moment: real)
    requires 0.0 < q <= 1.0 && base >= 1.0
    ensures moment == Moment(order, q, base)
  {
    hide Term;
    var values: seq<real> := [];
    var term := j => Term(base, q, order, 0, j);
    for j := 0 to order + 1
      invariant Total(values) == Sum(j, term)
      invariant |values| <= j && (j == order + 1 ==> values != [])
    {
      if q == 1.0 && j != order {
        SkippedTermIsZero(base, order, j);
        continue;
      }
      TotalAppend(values, term(j));
      values := values + [term(j)];
    }
    var accumulator := values[0];
    for i := 1 to |values|
      invariant accumulator == Total(values[..i])
    {
      assert values[..i + 1][..i] == values[..i];
      accumulator := accumulator + values[i];
    }
    assert values[..|values|] == values;
    moment := accumulator;
  }

  function Total(values: seq<real>): real {
    if values == [] then 0.0 else Total(values[..|values| - 1]) + values[|values| - 1]
  }

  lemma TotalAppend(values: seq<real>, x: real)
    ensures Total(values + [x]) == Total(values) + x
  {
    assert (values + [x])[..|values|] == values;
  }

  /** A sealed ledger; `noise` stands for e^(1/(2 sigma^2)). */
  datatype Ledger = Ledger(orders: seq<nat>, steps: nat, sampleRate: real, noise: real, delta: real)

  predicate ValidLedger(l: Ledger) {
    && l.orders != [] && (forall i :: 0 <= i < |l.orders| ==> l.orders[i] >= 2)
    && 0.0 < l.sampleRate <= 1.0 && l.noise >= 1.0 && 0.0 < l.delta <= 1.0
  }

  /** A logarithm: only its monotonicity and its value at one are used. */
  ghost predicate IsLog(log: real -> real) {
    log(1.0) == 0.0 && forall x, y :: 0.0 < x <= y ==> log(x) <= log(y)
  }

  /** Epsilon of one order. */
  function OrderEpsilon(log: real -> real, l: Ledger, order: nat): real
    requires order >= 2 && l.delta > 0.0
  {
    Composed(l.steps, log(Moment(order, l.sampleRate, l.noise)), log(1.0 / l.delta), order)
  }

  /** Composition over the steps and conversion to (epsilon, delta). */
  function Composed(steps: nat, logMoment: real, logDelta: real, order: nat): real
    requires order >= 2
  {
    (steps as real * logMoment + logDelta) / (order - 1) as real
  }

  /** The position of the first order of least epsilon among the first n. */
  function BestIndex(log: real -> real, l: Ledger, n: nat): (b: nat)
    requires ValidLedger(l) && 0 < n <= |l.orders|
    ensures b < n
    ensures forall k :: 0 <= k < n ==> OrderEpsilon(log, l, l.orders[b]) <= OrderEpsilon(log, l, l.orders[k])
    ensures forall k :: 0 <= k < b ==> OrderEpsilon(log, l, l.orders[b]) < OrderEpsilon(log, l, l.orders[k])
  {
    if n == 1 then 0
    else
      var b := BestIndex(log, l, n - 1);
      if OrderEpsilon(log, l, l.orders[n - 1]) < OrderEpsilon(log, l, l.orders[b]) then n - 1 else b
  }

  function BestOrder(log: real -> real, l: Ledger): nat
    requires ValidLedger(l)
  {
    l.orders[BestIndex(log, l, |l.orders|)]
  }

  /** The epsilon that a ledger replays to: the least over its orders. */
  function ReplayedEpsilon(log: real -> real, l: Ledger): real
    requires ValidLedger(l)
  {
    OrderEpsilon(log, l, BestOrder(log, l))
  }

  /** `replay_ledger`: a dictionary of epsilons and the first order of least epsilon. */
  method ReplayLedger(log: real -> real, l: Ledger) returns (epsilon: real, bestOrder: nat, results: map<nat, real>)
    requires ValidLedger(l)
    ensures forall order :: order in results <==> order in l.orders
    ensures forall order :: order in results ==> order >= 2 && results[order] == OrderEpsilon(log, l, order)
    ensures forall order :: order in results ==> IsEpsilon(log, l, order, results[order])
    ensures bestOrder == BestOrder(log, l) && epsilon == ReplayedEpsilon(log, l)
    ensures bestOrder in results && forall order :: order in results ==> epsilon <= results[order]
  {
    hide OrderEpsilon, BestIndex, IsEpsilon;
    results := map[];
    for i := 0 to |l.orders|
      invariant forall order :: order in results <==> order in l.orders[..i]
      invariant forall order :: order in results ==> order >= 2 && results[order] == OrderEpsilon(log, l, order)
    {
      var moment := ReplayMoment(l.orders[i], l.sampleRate, l.noise);
      EpsilonFromMoment(log, l, l.orders[i], moment);
      results := results[l.orders[i] := Composed(l.steps, log(moment), log(1.0 / l.delta), l.orders[i])];
    }
    assert l.orders[..|l.orders|] == l.orders;
    bestOrder := l.orders[0];
    ghost var first := 0;
    BestIndexStep(log, l, 1);
    for i := 1 to |l.orders|
      invariant first == BestIndex(log, l, i) && bestOrder == l.orders[first] && bestOrder in results
    {
      BestIndexStep(log, l, i + 1);
      if results[l.orders[i]] < results[bestOrder] {
        bestOrder := l.orders[i];
        first := i;
      }
    }
    epsilon := results[bestOrder];
    forall order | order in results ensures IsEpsilon(log, l, order, results[order]) {
      EpsilonExactly(log, l, order, results[order]);
    }
  }

  /** The one number that the order minus one scales to the composed moment and the logarithm of 1/delta
      together. */
  ghost predicate IsEpsilon(log: real -> real, l: Ledger, order: nat, epsilon: real) {
    && order >= 2 && l.delta > 0.0
    && epsilon * (order - 1) as real
       == l.steps as real * log(Moment(order, l.sampleRate, l.noise)) + log(1.0 / l.delta)
  }

  lemma EpsilonExactly(log: real -> real, l: Ledger, order: nat, epsilon: real)
    requires l.delta > 0.0 && order >= 2
    ensures epsilon == OrderEpsilon(log, l, order) <==> IsEpsilon(log, l, order, epsilon)
  {
    hide Moment;
    var moment, rest := log(Moment(order, l.sampleRate, l.noise)), log(1.0 / l.delta);
    ComposedExactly(l.steps, moment, rest, order, epsilon);
    hide Composed;
  }

  lemma ComposedExactly(steps: nat, logMoment: real, logDelta: real, order: nat, epsilon: real)
    requires order >= 2
    ensures epsilon == Composed(steps, logMoment, logDelta, order)
       <==> epsilon * (order - 1) as real == steps as real * logMoment + logDelta
  {
    QuotientIs(steps as real * logMoment + logDelta, (order - 1) as real, epsilon);
  }

  /** A logarithm of products. */
  ghost predicate IsProductLog(log: real -> real) {
    IsLog(log) && forall x, y :: x > 0.0 && y > 0.0 ==> log(x * y) == log(x) + log(y)
  }

  lemma {:induction false} LogOfPower(log: real -> real, x: real, n: nat)
    requires IsProductLog(log) && x >= 1.0
    ensures log(Power(x, n)) == n as real * log(x)
  {
    hide IsProductLog;
    if n == 0 {
      LogOfOne(log);
      assert n as real == 0.0 && Power(x, n) == 1.0;
      NoTimes(log(x));
    } else {
      LogOfPower(log, x, n - 1);
      PowerAtLeastOne(x, n - 1);
      PowerNext(x, n);
      LogOfNext(log, x, Power(x, n - 1), Power(x, n));
      hide Power;
      OneMoreTime(n, log(x));
    }
  }

  lemma LogOfOne(log: real -> real)
    requires IsProductLog(log)
    ensures log(1.0) == 0.0
  {
  }

  lemma LogOfNext(log: real -> real, x: real, y: real, z: real)
    requires IsProductLog(log) && x >= 1.0 && y >= 1.0 && z == x * y
    ensures log(z) == log(x) + log(y)
  {
  }

  lemma NoTimes(x: real)
    ensures 0.0 * x == 0.0
  {
  }

  lemma OneMoreTime(n: nat, x: real)
    requires n > 0
    ensures n as real * x == x + (n - 1) as real * x
  {
  }

  /** Without subsampling every order's epsilon has the closed form of the Gaussian mechanism: steps
      times order times 1/(2 sigma^2), and log(1/delta) over order minus one. */
  lemma FullSamplingClosedForm(log: real -> real, l: Ledger, order: nat)
    requires IsProductLog(log) && ValidLedger(l) && l.sampleRate == 1.0 && order >= 2
    ensures OrderEpsilon(log, l, order)
         == (l.steps * order) as real * log(l.noise) + log(1.0 / l.delta) / (order - 1) as real
  {
    hide IsProductLog, OrderEpsilon;
    ClosedFormScaled(l.steps, order, log(l.noise), log(1.0 / l.delta));
    FullSamplingEpsilon(log, l, order, order * (order - 1),
                        (l.steps * order) as real * log(l.noise) + log(1.0 / l.delta) / (order - 1) as real);
  }

  lemma FullSamplingEpsilon(log: real -> real, l: Ledger, order: nat, n: nat, epsilon: real)
    requires IsProductLog(log) && ValidLedger(l) && l.sampleRate == 1.0 && order >= 2 && n == order * (order - 1)
    requires epsilon * (order - 1) as real == l.steps as real * (n as real * log(l.noise)) + log(1.0 / l.delta)
    ensures OrderEpsilon(log, l, order) == epsilon
  {
    assert l.noise >= 1.0 && l.delta > 0.0;
    hide *;
    FullMoment(l.noise, order);
    LogOfPower(log, l.noise, n);
    IsEpsilonOf(log, l, order, epsilon, n as real * log(l.noise));
    EpsilonExactly(log, l, order, epsilon);
  }

  lemma FullMoment(base: real, order: nat)
    requires order >= 2
    ensures Moment(order, 1.0, base) == Power(base, order * (order - 1))
  {
    DriftAtFullSampling(base, order, 0);
    SumIsDrift(base, 1.0, order, 0);
    hide Power, Moment;
  }

  lemma IsEpsilonOf(log: real -> real, l: Ledger, order: nat, epsilon: real, moment: real)
    requires order >= 2 && l.delta > 0.0 && log(Moment(order, l.sampleRate, l.noise)) == moment
    requires epsilon * (order - 1) as real == l.steps as real * moment + log(1.0 / l.delta)
    ensures IsEpsilon(log, l, order, epsilon)
  {
    hide Moment;
  }

  lemma ClosedFormScaled(steps: nat, order: nat, x: real, y: real)
    requires order >= 2
    ensures ((steps * order) as real * x + y / (order - 1) as real) * (order - 1) as real
         == steps as real * ((order * (order - 1)) as real * x) + y
  {
    var gap := (order - 1) as real;
    QuotientTimes(y, gap);
    Regrouped(steps as real, order as real, x, gap);
  }

  lemma Regrouped(a: real, b: real, c: real, d: real)
    ensures ((a * b) * c) * d == a * ((b * d) * c)
  {
  }

  lemma BestIndexStep(log: real -> real, l: Ledger, n: nat)
    requires ValidLedger(l) && 0 < n <= |l.orders|
    ensures n == 1 ==> BestIndex(log, l, n) == 0
    ensures n > 1 ==>
      (BestIndex(log, l, n)
       == if OrderEpsilon(log, l, l.orders[n - 1]) < OrderEpsilon(log, l, l.orders[BestIndex(log, l, n - 1)])
          then n - 1 else BestIndex(log, l, n - 1))
  {
  }

  lemma EpsilonFromMoment(log: real -> real, l: Ledger, order: nat, moment: real)
    requires order >= 2 && l.delta > 0.0 && moment == Moment(order, l.sampleRate, l.noise)
    ensures Composed(l.steps, log(moment), log(1.0 / l.delta), order) == OrderEpsilon(log, l, order)
  {
  }

  /** Worse privacy parameters never replay to a smaller epsilon, at any order: more steps,
      a larger sampling rate, less noise, or a smaller delta. */
  lemma EpsilonMonotone(log: real -> real, l: Ledger, m: Ledger, order: nat)
    requires IsLog(log) && ValidLedger(l) && ValidLedger(m) && order >= 2
    requires l.steps <= m.steps && l.sampleRate <= m.sampleRate && l.noise <= m.noise && l.delta >= m.delta
    ensures 0.0 <= OrderEpsilon(log, l, order) <= OrderEpsilon(log, m, order)
  {
    MomentBounds(order, l.sampleRate, l.noise);
    MomentMonotone(order, l.sampleRate, m.sampleRate, l.noise, m.noise);
    hide Moment, IsLog, OrderEpsilon, Composed;
    var a, b := Moment(order, l.sampleRate, l.noise), Moment(order, m.sampleRate, m.noise);
    ReciprocalOrder(m.delta, l.delta);
    EpsilonFromMoment(log, l, order, a);
    EpsilonFromMoment(log, m, order, b);
    LogOrder(log, a, b);
    LogOrder(log, 1.0 / l.delta, 1.0 / m.delta);
    ScaledSumOrder(l.steps, m.steps, log(a), log(b), log(1.0 / l.delta), log(1.0 / m.delta), order);
  }

  /** Nor does the replayed epsilon, the least over the orders, when no order was added. */
  lemma ReplayedEpsilonMonotone(log: real -> real, l: Ledger, m: Ledger)
    requires IsLog(log) && ValidLedger(l) && ValidLedger(m) && forall order :: order in m.orders ==> order in l.orders
    requires l.steps <= m.steps && l.sampleRate <= m.sampleRate && l.noise <= m.noise && l.delta >= m.delta
    ensures 0.0 <= ReplayedEpsilon(log, l) <= ReplayedEpsilon(log, m)
  {
    hide OrderEpsilon, BestIndex;
    var order := BestOrder(log, m);
    assert order in m.orders;
    var k :| 0 <= k < |l.orders| && l.orders[k] == order;
    EpsilonMonotone(log, l, m, order);
    EpsilonMonotone(log, l, m, BestOrder(log, l));
  }

  lemma LogOrder(log: real -> real, x: real, y: real)
    requires IsLog(log) && 1.0 <= x <= y
    ensures 0.0 <= log(x) <= log(y)
  {
    assert log(1.0) <= log(x);
  }

  lemma ScaledSumOrder(s: nat, t: nat, a: real, b: real, c: real, d: real, order: nat)
    requires s <= t && 0.0 <= a <= b && 0.0 <= c <= d && order >= 2
    ensures 0.0 <= Composed(s, a, c, order) <= Composed(t, b, d, order)
  {
    ProductMonotone(s as real, t as real, a, b);
    ProductMonotone(0.0, s as real, 0.0, a);
    QuotientOrder(s as real * a + c, t as real * b + d, (order - 1) as real);
    QuotientOrder(0.0, s as real * a + c, (order - 1) as real);
  }

  lemma ReciprocalOrder(x: real, y: real)
    requires 0.0 < x <= y <= 1.0
    ensures 1.0 <= 1.0 / y <= 1.0 / x
  {
    Reciprocal(x, 1.0 / x);
    Reciprocal(y, 1.0 / y);
    ReciprocalsOrdered(x, y, 1.0 / x, 1.0 / y);
  }

  lemma Reciprocal(x: real, u: real)
    requires x > 0.0 && u == 1.0 / x
    ensures u * x == 1.0 && u > 0.0
  {
  }

  lemma ReciprocalsOrdered(x: real, y: real, u: real, v: real)
    requires 0.0 < x <= y <= 1.0 && u * x == 1.0 && v * y == 1.0 && v > 0.0
    ensures 1.0 <= v <= u
  {
    ProductMonotone(v, v, x, y);
    ScaleOrder(v, u, x);
    ProductMonotone(v, v, y, 1.0);
  }

  // ---- The ROC ceiling -------------------------------------------------------------

  function Least(a: real, b: real): real {
    if a <= b then a else b
  }

  /** The replayed ceiling on the true positive rate; `expEpsilon` is e^epsilon. */
  function RocCeiling(expEpsilon: real, delta: real, fpr: real): real
    requires expEpsilon > 0.0
  {
    Least(1.0, Least(expEpsilon * fpr + delta, 1.0 - (1.0 / expEpsilon) * (1.0 - fpr - delta)))
  }

  /** The ceiling is exact: a rate is at or below it precisely when it is a rate that meets
      both (epsilon, delta) constraints on the test. */
  lemma RocCeilingExact(expEpsilon: real, delta: real, fpr: real, tpr: real)
    requires expEpsilon > 0.0
    ensures tpr <= RocCeiling(expEpsilon, delta, fpr)
       <==> tpr <= 1.0 && tpr <= expEpsilon * fpr + delta && 1.0 - fpr <= expEpsilon * (1.0 - tpr) + delta
  {
    var slack := 1.0 - fpr - delta;
    assert (1.0 / expEpsilon) * slack == slack / expEpsilon;
    QuotientOrder(slack, 1.0 - tpr, expEpsilon);
  }
}
