/** What the statistics of an aggregate say about its entries, entry by entry. */
module TensorStatistics {
  import opened FiniteSets
  import opened Results
  import opened Sums
  import opened Arithmetic
  import opened TrainingLedger
  import opened TensorWalk

  /** What an entry adds to the sum of squares. */
  function SquareOf(t: seq<Element>, i: int): real {
    if 0 <= i < |t| && t[i].Finite? then t[i].value * t[i].value else 0.0
  }

  /** The counts number the entries that are not finite and those that are zero; the sum of squares adds up
      the squares of the finite ones. */
  lemma {:induction false} StatisticsExactly(t: seq<Element>)
    ensures Nonfinites(t) == |Where(t, (e: Element) => e.NonFinite?)|
    ensures Zeros(t) == |Where(t, (e: Element) => e == Finite(0.0))|
    ensures Squares(t) == Sum(|t|, i => SquareOf(t, i))
  {
    if t != [] {
      var init, last := t[..|t| - 1], t[|t| - 1];
      StatisticsExactly(init);
      assert t == init + [last];
      WhereNext(init, last, (e: Element) => e.NonFinite?);
      WhereNext(init, last, (e: Element) => e == Finite(0.0));
      SumCongruent(|init|, i => SquareOf(init, i), i => SquareOf(t, i));
      hide Where, Sum;
      SumNext(|init|, i => SquareOf(t, i));
    }
  }

  lemma SumNext(n: nat, f: int -> real)
    ensures Sum(n + 1, f) == Sum(n, f) + f(n)
  {
  }

  /** The derived magnitudes: where the root is a root and the patterns tell numbers apart, the reported
      quotients and roots are those of the totals, and are absent exactly where they have no meaning. */
  lemma MagnitudesExactly(d: Doubles, elements: nat, nonfinite: nat, largest: real, squares: real)
    requires squares >= 0.0 && nonfinite <= elements
    requires forall x :: x >= 0.0 ==> d.sqrt(x) >= 0.0 && d.sqrt(x) * d.sqrt(x) == x
    ensures var m := Magnitudes(d, elements, nonfinite, largest, squares);
      && |m| == 5 && m[0] == Some(d.pattern(largest)) && m[1] == Some(d.pattern(squares))
      && (m[2].None? <==> nonfinite > 0)
      && (nonfinite == 0 ==> exists rms ::
            m[2] == Some(d.pattern(rms)) && rms >= 0.0
            && if elements == 0 then rms == 0.0 else rms * rms * elements as real == squares)
      && (m[3].None? <==> elements == 0)
      && (elements > 0 ==> exists share ::
            m[3] == Some(d.pattern(share)) && share * elements as real == (elements - nonfinite) as real)
      && (m[4].None? <==> nonfinite > 0)
      && (nonfinite == 0 ==> exists norm :: m[4] == Some(d.pattern(norm)) && norm >= 0.0 && norm * norm == squares)
  {
  }
}
