/** The finite-population lower bound of scripts/analyze_openml_population_validation.py:
    `exact_lower` searches by bisection for the least number of marked records that
    leaves the hypergeometric upper tail above alpha.

    The tail is the exact binomial-coefficient sum.  Its meaning is fixed independently,
    by counting the samples themselves: `SamplesWithMarked` is a set of sets. */
module HypergeometricBound {
  import opened Arithmetic
  import opened FiniteSets

  /** Binomial coefficient, zero outside 0 <= k <= n. */
  function Choose(n: nat, k: int): nat {
    if k < 0 then 0
    else if k == 0 then 1
    else if n == 0 then 0
    else Choose(n - 1, k - 1) + Choose(n - 1, k)
  }

  /** Sum over i >= x of C(marked, i) * C(population - marked, draws - i). */
  function TailWeight(population: nat, marked: nat, draws: nat, x: nat): nat
    requires marked <= population
    decreases draws + 1 - x
  {
    if x > draws then 0
    else HypergeometricCount(marked, population - marked, draws, x)
         + TailWeight(population, marked, draws, x + 1)
  }

  /** The survival function P[X >= x] that the bisection consults. */
  function Survival(population: nat, marked: nat, draws: nat, x: nat): real
    requires marked <= population && Choose(population, draws) > 0
  {
    Proportion(TailWeight(population, marked, draws, x), Choose(population, draws))
  }

  function Proportion(part: nat, whole: nat): real
    requires whole > 0
  {
    part as real / whole as real
  }

  // ---- Samples as sets -------------------------------------------------------------

  ghost function Samples(universe: set<int>, draws: int): set<set<int>> {
    set s: set<int> | s <= universe && |s| == draws
  }

  ghost function SamplesWithMarked(universe: set<int>, marked: set<int>, draws: int, hits: int): set<set<int>> {
    set s: set<int> | s <= universe && |s| == draws && |s * marked| == hits
  }

  ghost function SamplesWithAtLeast(universe: set<int>, marked: set<int>, draws: int, hits: int): set<set<int>> {
    set s: set<int> | s <= universe && |s| == draws && |s * marked| >= hits
  }

  ghost function AddToEach(e: int, family: set<set<int>>): set<set<int>> {
    Image((s: set<int>) => s + {e}, family)
  }

  lemma AddToEachSize(e: int, family: set<set<int>>)
    requires forall s :: s in family ==> e !in s
    ensures |AddToEach(e, family)| == |family|
  {
    var add := (s: set<int>) => s + {e};
    forall s, t | s in family && t in family && add(s) == add(t)
      ensures s == t
    {
      assert s == add(s) - {e} && t == add(t) - {e};
    }
    ImageSize(add, family);
  }

  lemma WithElement(universe: set<int>, marked: set<int>, e: int, t: set<int>)
    requires e in universe && e !in t
    ensures t + {e} <= universe <==> t <= universe - {e}
    ensures |t + {e}| == |t| + 1
    ensures |(t + {e}) * marked| == |t * (marked - {e})| + if e in marked then 1 else 0
  {
    if e in marked {
      assert (t + {e}) * marked == (t * (marked - {e})) + {e};
    } else {
      assert (t + {e}) * marked == t * (marked - {e});
    }
  }

  lemma WithoutElement(universe: set<int>, marked: set<int>, e: int, s: set<int>)
    requires e !in s
    ensures s <= universe <==> s <= universe - {e}
    ensures s * marked == s * (marked - {e})
  {
  }

  /** Splitting on one element: samples without it and samples with it. */
  lemma SplitOnElement(universe: set<int>, marked: set<int>, draws: int, hits: int, e: int)
    requires e in universe
    ensures
      var u, m := universe - {e}, marked - {e};
      var without := SamplesWithMarked(u, m, draws, hits);
      var including := SamplesWithMarked(u, m, draws - 1, if e in marked then hits - 1 else hits);
      |SamplesWithMarked(universe, marked, draws, hits)| == |without| + |including|
  {
    var u, m := universe - {e}, marked - {e};
    var without := SamplesWithMarked(u, m, draws, hits);
    var including := SamplesWithMarked(u, m, draws - 1, if e in marked then hits - 1 else hits);
    var all := SamplesWithMarked(universe, marked, draws, hits);
    AddToEachSize(e, including);
    SplitCovers(universe, marked, draws, hits, e, all, without, including);
    assert all == without + AddToEach(e, including);
    assert without !! AddToEach(e, including);
  }

  lemma SplitCovers(universe: set<int>, marked: set<int>, draws: int, hits: int, e: int,
                    all: set<set<int>>, without: set<set<int>>, including: set<set<int>>)
    requires e in universe
    requires all == SamplesWithMarked(universe, marked, draws, hits)
    requires without == SamplesWithMarked(universe - {e}, marked - {e}, draws, hits)
    requires including
      == SamplesWithMarked(universe - {e}, marked - {e}, draws - 1, if e in marked then hits - 1 else hits)
    ensures forall s :: s in all ==> s in without || s in AddToEach(e, including)
    ensures forall s :: s in without || s in AddToEach(e, including) ==> s in all
  {
    forall s | s in all
      ensures s in without || s in AddToEach(e, including)
    {
      if e in s {
        var t := s - {e};
        assert s == t + {e};
        WithElement(universe, marked, e, t);
        assert t in including;
      } else {
        WithoutElement(universe, marked, e, s);
      }
    }
    forall t | t in including
      ensures t + {e} in all
    {
      WithElement(universe, marked, e, t);
    }
    forall s | s in without
      ensures s in all
    {
      WithoutElement(universe, marked, e, s);
    }
  }

  /** The hypergeometric formula: `marked` and `unmarked` records, `hits` of the draws marked. */
  function HypergeometricCount(marked: nat, unmarked: nat, draws: int, hits: int): nat {
    Choose(marked, hits) * Choose(unmarked, draws - hits)
  }

  lemma HypergeometricPascal(marked: nat, unmarked: nat, draws: int, hits: int)
    ensures marked > 0 ==>
      HypergeometricCount(marked, unmarked, draws, hits)
      == HypergeometricCount(marked - 1, unmarked, draws, hits)
        + HypergeometricCount(marked - 1, unmarked, draws - 1, hits - 1)
    ensures unmarked > 0 ==>
      HypergeometricCount(marked, unmarked, draws, hits)
      == HypergeometricCount(marked, unmarked - 1, draws, hits)
        + HypergeometricCount(marked, unmarked - 1, draws - 1, hits)
  {
    if marked > 0 {
      PascalTimes(marked, hits, Choose(unmarked, draws - hits));
    }
    if unmarked > 0 {
      PascalTimes(unmarked, draws - hits, Choose(marked, hits));
    }
  }

  /** The hypergeometric count: how many samples hold exactly `hits` marked records. */
  lemma {:induction false} SamplesWithMarkedCount(universe: set<int>, marked: set<int>, draws: int, hits: int)
    requires marked <= universe
    ensures |SamplesWithMarked(universe, marked, draws, hits)|
         == HypergeometricCount(|marked|, |universe - marked|, draws, hits)
    decreases |universe|
  {
    hide SamplesWithMarked, HypergeometricCount;
    if |universe| == 0 {
      EmptyUniverseCount(universe, marked, draws, hits);
    } else if |marked| > 0 {
      var e := AnyOf(marked);
      SizesWithout(universe, marked, e);
      SamplesWithMarkedCount(universe - {e}, marked - {e}, draws, hits);
      SamplesWithMarkedCount(universe - {e}, marked - {e}, draws - 1, hits - 1);
      PeelMarked(universe, marked, draws, hits, e);
    } else {
      var e := AnyOf(universe);
      SizesWithout(universe, marked, e);
      SamplesWithMarkedCount(universe - {e}, marked - {e}, draws, hits);
      SamplesWithMarkedCount(universe - {e}, marked - {e}, draws - 1, hits);
      PeelUnmarked(universe, marked, draws, hits, e);
    }
  }

  /** Whether the samples are counted by the formula. */
  ghost predicate IsCounted(universe: set<int>, marked: set<int>, draws: int, hits: int) {
    |SamplesWithMarked(universe, marked, draws, hits)|
    == HypergeometricCount(|marked|, |universe - marked|, draws, hits)
  }

  lemma SizesWithout(universe: set<int>, marked: set<int>, e: int)
    requires marked <= universe && e in universe
    ensures marked - {e} <= universe - {e} && |universe - {e}| == |universe| - 1
    ensures e in marked ==> |marked - {e}| == |marked| - 1 && |universe - {e} - (marked - {e})| == |universe - marked|
    ensures e !in marked ==> |marked - {e}| == |marked| && |universe - {e} - (marked - {e})| == |universe - marked| - 1
  {
    if e in marked {
      assert universe - {e} - (marked - {e}) == universe - marked;
    } else {
      assert marked - {e} == marked;
      assert universe - {e} - (marked - {e}) == (universe - marked) - {e};
    }
  }

  lemma PeelMarked(universe: set<int>, marked: set<int>, draws: int, hits: int, e: int)
    requires marked <= universe && e in marked
    requires IsCounted(universe - {e}, marked - {e}, draws, hits)
    requires IsCounted(universe - {e}, marked - {e}, draws - 1, hits - 1)
    ensures IsCounted(universe, marked, draws, hits)
  {
    hide SamplesWithMarked, HypergeometricCount;
    SizesWithout(universe, marked, e);
    SplitOnElement(universe, marked, draws, hits, e);
    HypergeometricPascal(|marked|, |universe - marked|, draws, hits);
  }

  lemma PeelUnmarked(universe: set<int>, marked: set<int>, draws: int, hits: int, e: int)
    requires marked <= universe && e in universe && e !in marked
    requires IsCounted(universe - {e}, marked - {e}, draws, hits)
    requires IsCounted(universe - {e}, marked - {e}, draws - 1, hits)
    ensures IsCounted(universe, marked, draws, hits)
  {
    hide SamplesWithMarked, HypergeometricCount;
    SizesWithout(universe, marked, e);
    SplitOnElement(universe, marked, draws, hits, e);
    HypergeometricPascal(|marked|, |universe - marked|, draws, hits);
  }

  lemma EmptyUniverseCount(universe: set<int>, marked: set<int>, draws: int, hits: int)
    requires |universe| == 0 && marked <= universe
    ensures |SamplesWithMarked(universe, marked, draws, hits)|
         == HypergeometricCount(|marked|, |universe - marked|, draws, hits)
  {
    var all := SamplesWithMarked(universe, marked, draws, hits);
    assert universe == {} && marked == {};
    if draws == 0 && hits == 0 {
      assert all == {{}};
    } else {
      assert all == {};
    }
  }

  lemma PascalTimes(n: nat, k: int, w: nat)
    requires n > 0
    ensures Choose(n, k) * w == Choose(n - 1, k) * w + Choose(n - 1, k - 1) * w
    ensures w * Choose(n, k) == w * Choose(n - 1, k) + w * Choose(n - 1, k - 1)
  {
    assert Choose(n, k) == Choose(n - 1, k) + Choose(n - 1, k - 1);
  }

  /** C(|universe|, draws) counts the samples, so `Survival` is a proportion of samples. */
  lemma SamplesCount(universe: set<int>, draws: int)
    ensures |Samples(universe, draws)| == Choose(|universe|, draws)
  {
    SamplesWithMarkedCount(universe, {}, draws, 0);
    assert universe - {} == universe;
    forall s: set<int> | s in Samples(universe, draws)
      ensures s in SamplesWithMarked(universe, {}, draws, 0)
    {
      assert s * {} == {};
    }
    assert SamplesWithMarked(universe, {}, draws, 0) == Samples(universe, draws);
  }

  /** The tail sum counts the samples holding at least x marked records. */
  lemma {:induction false} TailCountsSamples(universe: set<int>, marked: set<int>, draws: nat, x: nat)
    requires marked <= universe && |marked| <= |universe|
    ensures |SamplesWithAtLeast(universe, marked, draws, x)| == TailWeight(|universe|, |marked|, draws, x)
    decreases draws + 1 - x
  {
    var all := SamplesWithAtLeast(universe, marked, draws, x);
    if x > draws {
      forall s | s in all ensures false { SubsetSize(s * marked, s); }
      assert all == {};
    } else {
      SamplesWithMarkedCount(universe, marked, draws, x);
      SubsetSize(marked, universe);
      assert universe == (universe - marked) + marked;
      TailCountsSamples(universe, marked, draws, x + 1);
      AtLeastSplits(universe, marked, draws, x);
    }
  }

  lemma AtLeastSplits(universe: set<int>, marked: set<int>, draws: nat, x: nat)
    ensures |SamplesWithAtLeast(universe, marked, draws, x)|
         == |SamplesWithMarked(universe, marked, draws, x)| + |SamplesWithAtLeast(universe, marked, draws, x + 1)|
  {
    var exact := SamplesWithMarked(universe, marked, draws, x);
    var more := SamplesWithAtLeast(universe, marked, draws, x + 1);
    assert SamplesWithAtLeast(universe, marked, draws, x) == exact + more;
    assert exact !! more;
  }

  /** Marking more records never shrinks the tail. */
  lemma {:induction false} TailMonotone(population: nat, k: nat, l: nat, draws: nat, x: nat)
    requires k <= l <= population
    ensures TailWeight(population, k, draws, x) <= TailWeight(population, l, draws, x)
  {
    var u, a, b := Below(population), Below(k), Below(l);
    TailCountsSamples(u, a, draws, x);
    TailCountsSamples(u, b, draws, x);
    var sa, sb := SamplesWithAtLeast(u, a, draws, x), SamplesWithAtLeast(u, b, draws, x);
    forall s | s in sa ensures s in sb { SubsetSize(s * a, s * b); }
    SubsetSize(sa, sb);
  }

  /** With at most draws - x unmarked records every sample holds x marked ones. */
  lemma TailFull(population: nat, marked: nat, draws: nat, x: nat)
    requires x <= draws <= population && population - draws + x <= marked <= population
    ensures TailWeight(population, marked, draws, x) == Choose(population, draws)
  {
    hide *;
    var u, m := Below(population), Below(marked);
    TailCountsSamples(u, m, draws, x);
    SamplesCount(u, draws);
    EverySampleHits(u, m, draws, x);
  }

  lemma EverySampleHits(universe: set<int>, marked: set<int>, draws: nat, x: nat)
    requires marked <= universe && |universe| <= |marked| + draws - x
    ensures SamplesWithAtLeast(universe, marked, draws, x) == Samples(universe, draws)
  {
    DisjointUnionSize(universe, universe - marked, marked);
    forall s | s in Samples(universe, draws)
      ensures s in SamplesWithAtLeast(universe, marked, draws, x)
    {
      DisjointUnionSize(s, s * marked, s - marked);
      SubsetSize(s - marked, universe - marked);
    }
  }

  lemma {:induction false} ChoosePositive(n: nat, k: nat)
    requires k <= n
    ensures Choose(n, k) > 0
  {
    if 0 < k {
      ChoosePositive(n - 1, k - 1);
    }
  }

  // ---- The bisection ---------------------------------------------------------------

  /** Whether a marked count of k leaves P[X >= x] above alpha. */
  predicate Compatible(population: nat, draws: nat, x: nat, alpha: real, k: nat)
    requires k <= population
  {
    Choose(population, draws) > 0 && Survival(population, k, draws, x) > alpha
  }

  /** The least compatible marked count at or above k, by trying them in turn. */
  function LeastCompatibleFrom(population: nat, draws: nat, x: nat, alpha: real, k: nat): (least: nat)
    requires k <= population
    ensures k <= least <= population
    ensures forall j: nat :: k <= j < least ==> !Compatible(population, draws, x, alpha, j)
    ensures least < population ==> Compatible(population, draws, x, alpha, least)
    decreases population - k
  {
    if k == population || Compatible(population, draws, x, alpha, k) then k
    else LeastCompatibleFrom(population, draws, x, alpha, k + 1)
  }

  function LowerBound(population: nat, draws: nat, x: nat, alpha: real): nat {
    LeastCompatibleFrom(population, draws, x, alpha, 0)
  }

  lemma ProportionAtMost(part: nat, whole: nat, bound: real)
    requires whole > 0
    ensures Proportion(part, whole) <= bound <==> part as real <= bound * whole as real
  {
    QuotientOrder(part as real, bound, whole as real);
  }

  lemma ProportionMonotone(part: nat, more: nat, whole: nat)
    requires whole > 0 && part <= more
    ensures Proportion(part, whole) <= Proportion(more, whole)
  {
    QuotientOrder(part as real, more as real, whole as real);
  }

  lemma CompatibleMonotone(population: nat, draws: nat, x: nat, alpha: real, k: nat, l: nat)
    requires k <= l <= population
    requires Compatible(population, draws, x, alpha, k)
    ensures Compatible(population, draws, x, alpha, l)
  {
    TailMonotone(population, k, l, draws, x);
    ProportionMonotone(TailWeight(population, k, draws, x), TailWeight(population, l, draws, x),
                       Choose(population, draws));
  }

  lemma TooFewMarked(population: nat, draws: nat, x: nat, alpha: real, k: nat)
    requires draws <= population && k <= population && k < x && 0.0 <= alpha
    ensures !Compatible(population, draws, x, alpha, k)
  {
    var u, m := Below(population), Below(k);
    TailCountsSamples(u, m, draws, x);
    var all := SamplesWithAtLeast(u, m, draws, x);
    forall s | s in all ensures false { SubsetSize(s * m, m); }
    assert all == {};
    ChoosePositive(population, draws);
  }

  lemma EnoughMarked(population: nat, draws: nat, x: nat, alpha: real)
    requires x <= draws <= population && alpha < 1.0
    ensures Compatible(population, draws, x, alpha, population - draws + x)
  {
    TailFull(population, population - draws + x, draws, x);
    ChoosePositive(population, draws);
    WholeIsOne(Choose(population, draws));
  }

  lemma ZeroHitsAlwaysCompatible(population: nat, draws: nat, alpha: real)
    requires draws <= population && alpha < 1.0
    ensures Compatible(population, draws, 0, alpha, 0)
  {
    var u, m := Below(population), Below(0);
    TailCountsSamples(u, m, draws, 0);
    SamplesCount(u, draws);
    assert SamplesWithAtLeast(u, m, draws, 0) == Samples(u, draws);
    ChoosePositive(population, draws);
    WholeIsOne(Choose(population, draws));
  }

  lemma WholeIsOne(c: nat)
    requires c > 0
    ensures c as real / c as real == 1.0
  {
  }

  /** What an exact lower bound is: it exceeds the number of marked records exactly when at most the
      fraction alpha of all samples hold x or more of them, whichever records are marked. */
  ghost predicate IsExactBound(lower: nat, population: nat, draws: nat, x: nat, alpha: real) {
    forall universe: set<int>, marked: set<int> :: |universe| == population && marked <= universe ==>
      (|marked| < lower
       <==> |SamplesWithAtLeast(universe, marked, draws, x)| as real <= alpha * |Samples(universe, draws)| as real)
  }

  /** Few enough samples reach x hits exactly when the marked count is not compatible. */
  lemma CompatibleExactly(universe: set<int>, marked: set<int>, draws: nat, x: nat, alpha: real)
    requires marked <= universe && |marked| <= |universe| && draws <= |universe|
    ensures Compatible(|universe|, draws, x, alpha, |marked|)
       <==> |SamplesWithAtLeast(universe, marked, draws, x)| as real > alpha * |Samples(universe, draws)| as real
  {
    hide Choose, TailWeight, SamplesWithAtLeast, Samples, Proportion, Survival;
    ChoosePositive(|universe|, draws);
    TailCountsSamples(universe, marked, draws, x);
    SamplesCount(universe, draws);
    SurvivalScaled(|universe|, |marked|, draws, x, alpha);
  }

  /** The least compatible count is the exact bound. */
  lemma LeastCompatibleIsExact(lower: nat, population: nat, draws: nat, x: nat, alpha: real)
    requires lower <= population && draws <= population && Compatible(population, draws, x, alpha, lower)
    requires forall k: nat :: k < lower ==> !Compatible(population, draws, x, alpha, k)
    ensures IsExactBound(lower, population, draws, x, alpha)
  {
    hide Compatible, SamplesWithAtLeast, Samples;
    forall universe: set<int>, marked: set<int> | |universe| == population && marked <= universe
      ensures |marked| < lower
         <==> |SamplesWithAtLeast(universe, marked, draws, x)| as real <= alpha * |Samples(universe, draws)| as real
    {
      SubsetSize(marked, universe);
      CompatibleExactly(universe, marked, draws, x, alpha);
      if lower <= |marked| {
        CompatibleMonotone(population, draws, x, alpha, lower, |marked|);
      }
    }
  }

  /** No other number is the exact bound. */
  lemma ExactBoundIsUnique(a: nat, b: nat, population: nat, draws: nat, x: nat, alpha: real)
    requires a <= population && b <= population
    requires IsExactBound(a, population, draws, x, alpha) && IsExactBound(b, population, draws, x, alpha)
    ensures a == b
  {
    hide SamplesWithAtLeast, Samples;
    hide IsExactBound;
    var marked := Below(if a < b then a else b);
    ExactBoundAt(a, Below(population), marked, draws, x, alpha);
    ExactBoundAt(b, Below(population), marked, draws, x, alpha);
  }

  lemma ExactBoundAt(lower: nat, universe: set<int>, marked: set<int>, draws: nat, x: nat, alpha: real)
    requires IsExactBound(lower, |universe|, draws, x, alpha) && marked <= universe
    ensures |marked| < lower
       <==> |SamplesWithAtLeast(universe, marked, draws, x)| as real <= alpha * |Samples(universe, draws)| as real
  {
  }

  /** `exact_lower`: the bisection returns the exact bound, which is the least compatible count. */
  method ExactLower(population: nat, draws: nat, x: nat, alpha: real) returns (lower: nat)
    requires x <= draws <= population && 0.0 <= alpha < 1.0
    ensures lower <= population && IsExactBound(lower, population, draws, x, alpha)
    ensures lower == LowerBound(population, draws, x, alpha)
  {
    hide IsExactBound;
    EnoughMarked(population, draws, x, alpha);
    if x == 0 {
      ZeroHitsAlwaysCompatible(population, draws, alpha);
      LeastCompatibleIsExact(0, population, draws, x, alpha);
      return 0;
    }
    var low, high := x, population - draws + x;
    forall k: nat | k < low ensures !Compatible(population, draws, x, alpha, k) {
      TooFewMarked(population, draws, x, alpha, k);
    }
    while low < high
      invariant x <= low <= high <= population
      invariant forall k: nat :: k < low ==> !Compatible(population, draws, x, alpha, k)
      invariant Compatible(population, draws, x, alpha, high)
    {
      var middle := (low + high) / 2;
      if Survival(population, middle, draws, x) > alpha {
        high := middle;
      } else {
        forall k: nat | k <= middle ensures !Compatible(population, draws, x, alpha, k) {
          if Compatible(population, draws, x, alpha, k) {
            CompatibleMonotone(population, draws, x, alpha, k, middle);
          }
        }
        low := middle + 1;
      }
    }
    LeastCompatibleIsExact(low, population, draws, x, alpha);
    return low;
  }

  // ---- Coverage --------------------------------------------------------------------

  /** The samples on which the bound overshoots the true number of marked records. */
  ghost function Overshooting(universe: set<int>, marked: set<int>, draws: nat, alpha: real): set<set<int>> {
    set s: set<int> | s <= universe && |s| == draws
                      && LowerBound(|universe|, draws, |s * marked|, alpha) > |marked|
  }

  /** Exact design-based coverage: under simple random sampling without replacement the
      bound exceeds the truth on at most a fraction alpha of all samples, for every
      population, every marked set and every sample size. */
  lemma LowerBoundCoverage(universe: set<int>, marked: set<int>, draws: nat, alpha: real)
    requires marked <= universe && draws <= |universe| && 0.0 <= alpha < 1.0
    ensures |Overshooting(universe, marked, draws, alpha)| as real
         <= alpha * |Samples(universe, draws)| as real
  {
    hide *;
    var over := Overshooting(universe, marked, draws, alpha);
    if |over| > 0 {
      var s := FewestHits(over, marked);
      SubsetSize(marked, universe);
      OvershootingInTail(universe, marked, draws, alpha, s);
      SubsetSize(over, SamplesWithAtLeast(universe, marked, draws, |s * marked|));
      TailWeightAtBound(|universe|, |marked|, draws, |s * marked|, alpha);
      TailCountsSamples(universe, marked, draws, |s * marked|);
      SamplesCount(universe, draws);
    } else {
      assert alpha * |Samples(universe, draws)| as real >= 0.0;
    }
  }

  lemma OvershootingInTail(universe: set<int>, marked: set<int>, draws: nat, alpha: real, s: set<int>)
    requires s in Overshooting(universe, marked, draws, alpha)
    requires forall t :: t in Overshooting(universe, marked, draws, alpha) ==> |s * marked| <= |t * marked|
    ensures LowerBound(|universe|, draws, |s * marked|, alpha) > |marked|
    ensures Overshooting(universe, marked, draws, alpha) <= SamplesWithAtLeast(universe, marked, draws, |s * marked|)
  {
  }

  /** Below the bound the tail carries at most the fraction alpha. */
  lemma TailWeightAtBound(population: nat, marked: nat, draws: nat, x: nat, alpha: real)
    requires draws <= population && marked <= population
    requires marked < LowerBound(population, draws, x, alpha)
    ensures TailWeight(population, marked, draws, x) as real <= alpha * Choose(population, draws) as real
  {
    hide *;
    ChoosePositive(population, draws);
    BelowBoundSurvival(population, marked, draws, x, alpha);
    SurvivalScaled(population, marked, draws, x, alpha);
  }

  lemma BelowBoundSurvival(population: nat, marked: nat, draws: nat, x: nat, alpha: real)
    requires marked <= population && Choose(population, draws) > 0
    requires marked < LowerBound(population, draws, x, alpha)
    ensures Survival(population, marked, draws, x) <= alpha
  {
    assert !Compatible(population, draws, x, alpha, marked);
  }

  lemma SurvivalScaled(population: nat, marked: nat, draws: nat, x: nat, alpha: real)
    requires marked <= population && Choose(population, draws) > 0
    ensures Survival(population, marked, draws, x) <= alpha
       <==> TailWeight(population, marked, draws, x) as real <= alpha * Choose(population, draws) as real
  {
    hide Choose, TailWeight, Proportion;
    ProportionAtMost(TailWeight(population, marked, draws, x), Choose(population, draws), alpha);
  }

  lemma {:induction false} FewestHits(family: set<set<int>>, marked: set<int>) returns (least: set<int>)
    requires family != {}
    ensures least in family
    ensures forall s :: s in family ==> |least * marked| <= |s * marked|
    decreases |family|
  {
    var s :| s in family;
    var rest := family - {s};
    if rest == {} {
      least := s;
      assert family == {s};
    } else {
      var t := FewestHits(rest, marked);
      least := if |s * marked| <= |t * marked| then s else t;
      assert family == rest + {s};
    }
  }
}
