/** Finite sums and maxima of real-valued terms indexed from zero. */
module Sums {

  function Sum(n: nat, f: int -> real): real {
    if n == 0 then 0.0 else Sum(n - 1, f) + f(n - 1)
  }

  function Max(n: nat, f: int -> real): real
    requires n > 0
  {
    if n == 1 then f(0)
    else
      var rest := Max(n - 1, f);
      if rest < f(n - 1) then f(n - 1) else rest
  }

  lemma {:induction false} SumMonotone(n: nat, f: int -> real, g: int -> real)
    requires forall i :: 0 <= i < n ==> f(i) <= g(i)
    ensures Sum(n, f) <= Sum(n, g)
  {
    if n > 0 {
      SumMonotone(n - 1, f, g);
    }
  }

  lemma SumCongruent(n: nat, f: int -> real, g: int -> real)
    requires forall i :: 0 <= i < n ==> f(i) == g(i)
    ensures Sum(n, f) == Sum(n, g)
  {
    SumMonotone(n, f, g);
    SumMonotone(n, g, f);
  }

  lemma {:induction false} SumScaled(n: nat, c: real, f: int -> real)
    ensures Sum(n, i => c * f(i)) == c * Sum(n, f)
  {
    if n > 0 {
      SumScaled(n - 1, c, f);
    }
  }

  /** A scaled sum is bounded term by term. */
  lemma ScaledSumIs(n: nat, c: real, f: int -> real, g: int -> real)
    requires forall i :: 0 <= i < n ==> g(i) == c * f(i)
    ensures Sum(n, g) == c * Sum(n, f)
  {
    SumScaled(n, c, f);
    SumCongruent(n, i => c * f(i), g);
  }

  /** Scaling a distribution: the total is the scale. */
  lemma ScaledUnitSum(n: nat, c: real, f: int -> real, g: int -> real)
    requires forall i :: 0 <= i < n ==> g(i) == c * f(i)
    requires Sum(n, f) == 1.0
    ensures Sum(n, g) == c
  {
    ScaledSumIs(n, c, f, g);
  }

  lemma {:induction false} SumAdded(n: nat, f: int -> real, g: int -> real)
    ensures Sum(n, i => f(i) + g(i)) == Sum(n, f) + Sum(n, g)
  {
    if n > 0 {
      SumAdded(n - 1, f, g);
    }
  }

  lemma {:induction false} SumZero(n: nat, f: int -> real)
    requires forall i :: 0 <= i < n ==> f(i) == 0.0
    ensures Sum(n, f) == 0.0
  {
    if n > 0 {
      SumZero(n - 1, f);
    }
  }

  lemma {:induction false} SumNonNegative(n: nat, f: int -> real)
    requires forall i :: 0 <= i < n ==> f(i) >= 0.0
    ensures Sum(n, f) >= 0.0
  {
    if n > 0 {
      SumNonNegative(n - 1, f);
    }
  }

  /** A sum of non-negative terms dominates each of them. */
  lemma {:induction false} TermBelowSum(n: nat, f: int -> real, k: int)
    requires 0 <= k < n
    requires forall i :: 0 <= i < n ==> f(i) >= 0.0
    ensures f(k) <= Sum(n, f)
  {
    if k == n - 1 {
      SumNonNegative(n - 1, f);
    } else {
      TermBelowSum(n - 1, f, k);
    }
  }

  /** Exchanging the order of a double sum. */
  lemma {:induction false} SumExchanged(m: nat, n: nat, f: (int, int) -> real)
    ensures Sum(m, i => Sum(n, j => f(i, j))) == Sum(n, j => Sum(m, i => f(i, j)))
  {
    if m == 0 {
      SumZero(n, j => Sum(m, i => f(i, j)));
    } else {
      SumExchanged(m - 1, n, f);
      var column := j => Sum(m - 1, i => f(i, j));
      var row := j => f(m - 1, j);
      SumAdded(n, column, row);
      SumCongruent(n, j => Sum(m, i => f(i, j)), j => column(j) + row(j));
    }
  }

  lemma {:induction false} MaxIsGreatest(n: nat, f: int -> real) returns (arg: nat)
    requires n > 0
    ensures arg < n && Max(n, f) == f(arg)
    ensures forall i :: 0 <= i < n ==> f(i) <= Max(n, f)
  {
    if n == 1 {
      arg := 0;
    } else {
      arg := MaxIsGreatest(n - 1, f);
      if Max(n - 1, f) < f(n - 1) {
        arg := n - 1;
      }
    }
  }

  lemma MaxMonotone(n: nat, f: int -> real, g: int -> real)
    requires n > 0
    requires forall i :: 0 <= i < n ==> f(i) <= g(i)
    ensures Max(n, f) <= Max(n, g)
  {
    var a := MaxIsGreatest(n, f);
    var b := MaxIsGreatest(n, g);
    assert f(a) <= g(a) <= Max(n, g);
  }

  lemma MaxBelowSum(n: nat, f: int -> real)
    requires n > 0
    requires forall i :: 0 <= i < n ==> f(i) >= 0.0
    ensures Max(n, f) <= Sum(n, f)
  {
    var a := MaxIsGreatest(n, f);
    TermBelowSum(n, f, a);
  }
}
