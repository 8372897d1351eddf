/** Registered orders and the model subsets that scripts/run_composition_scaling_suite.py
    enumerates, size by size. */
module ModelSubsets {
  import opened FiniteSets
  import opened HypergeometricBound

  /** The first index of x in the order, or the order's length. */
  function Rank<T(==)>(order: seq<T>, x: T): (r: nat)
    ensures r <= |order|
    ensures r < |order| <==> x in order
    ensures r < |order| ==> order[r] == x
  {
    if order == [] then 0
    else if order[0] == x then 0
    else
      var r := Rank(order[1..], x);
      assert order == [order[0]] + order[1..];
      r + 1
  }

  lemma RankIsInjective<T>(order: seq<T>, a: T, b: T)
    requires a in order && b in order && Rank(order, a) == Rank(order, b)
    ensures a == b
  {
  }

  /** s lists some of the keys in their order. */
  predicate IsSelection<T(==)>(s: seq<T>, keys: seq<T>) {
    s == [] || (keys != [] && ((s[0] == keys[0] && IsSelection(s[1..], keys[1..])) || IsSelection(s, keys[1..])))
  }

  function Prepended<T>(x: T, lists: seq<seq<T>>): (r: seq<seq<T>>)
    ensures |r| == |lists| && forall i :: 0 <= i < |lists| ==> r[i] == [x] + lists[i]
  {
    seq(|lists|, i requires 0 <= i < |lists| => [x] + lists[i])
  }

  /** `itertools.combinations(keys, size)`, in its order. */
  function Combinations<T>(keys: seq<T>, size: nat): seq<seq<T>> {
    if size == 0 then [[]]
    else if keys == [] then []
    else Prepended(keys[0], Combinations(keys[1..], size - 1)) + Combinations(keys[1..], size)
  }

  /** `_all_nonempty_subsets` takes the sizes up to the number of keys. */
  function SubsetsUpTo<T>(keys: seq<T>, size: nat): seq<seq<T>> {
    if size == 0 then [] else SubsetsUpTo(keys, size - 1) + Combinations(keys, size)
  }

  lemma {:induction false} InCombinations<T(!new)>(keys: seq<T>, size: nat, s: seq<T>)
    ensures s in Combinations(keys, size) <==> |s| == size && IsSelection(s, keys)
  {
    hide *;
    if size > 0 && keys != [] {
      var with, without := Prepended(keys[0], Combinations(keys[1..], size - 1)), Combinations(keys[1..], size);
      Step(keys, size, s);
      InCombinations(keys[1..], size, s);
      InEither(with, without, s);
      if s == [] {
        NotPrepended(keys[0], Combinations(keys[1..], size - 1));
      } else {
        InCombinations(keys[1..], size - 1, s[1..]);
        InPrepended(keys[0], Combinations(keys[1..], size - 1), s);
      }
    } else {
      EdgeCombinations(keys, size, s);
    }
  }

  lemma EdgeCombinations<T(!new)>(keys: seq<T>, size: nat, s: seq<T>)
    requires size == 0 || keys == []
    ensures s in Combinations(keys, size) <==> |s| == size && IsSelection(s, keys)
  {
  }

  lemma Step<T>(keys: seq<T>, size: nat, s: seq<T>)
    requires size > 0 && keys != []
    ensures Combinations(keys, size)
        == Prepended(keys[0], Combinations(keys[1..], size - 1)) + Combinations(keys[1..], size)
    ensures s != [] ==>
      (IsSelection(s, keys) <==> (s[0] == keys[0] && IsSelection(s[1..], keys[1..])) || IsSelection(s, keys[1..]))
  {
  }

  lemma InEither<T(!new)>(a: seq<T>, b: seq<T>, x: T)
    ensures x in a + b <==> x in a || x in b
  {
  }

  lemma NotPrepended<T(!new)>(x: T, lists: seq<seq<T>>)
    ensures [] !in Prepended(x, lists)
  {
    forall i | 0 <= i < |lists| ensures Prepended(x, lists)[i] != [] {
      assert |Prepended(x, lists)[i]| == |lists[i]| + 1;
    }
  }

  lemma InPrepended<T(!new)>(x: T, lists: seq<seq<T>>, s: seq<T>)
    requires s != []
    ensures s in Prepended(x, lists) <==> s[0] == x && s[1..] in lists
  {
    if s[0] == x && s[1..] in lists {
      var i :| 0 <= i < |lists| && lists[i] == s[1..];
      assert Prepended(x, lists)[i] == s;
    }
    if s in Prepended(x, lists) {
      var i :| 0 <= i < |lists| && Prepended(x, lists)[i] == s;
      assert s[1..] == lists[i];
    }
  }

  lemma {:induction false} ShorterSelection<T(!new)>(s: seq<T>, keys: seq<T>)
    requires IsSelection(s, keys)
    ensures |s| <= |keys| && forall x :: x in s ==> x in keys
  {
    if s != [] {
      assert keys == [keys[0]] + keys[1..] && s == [s[0]] + s[1..];
      if s[0] == keys[0] && IsSelection(s[1..], keys[1..]) {
        ShorterSelection(s[1..], keys[1..]);
      } else {
        ShorterSelection(s, keys[1..]);
      }
    }
  }

  /** Exactly the nonempty order-preserving selections occur. */
  lemma {:induction false} SubsetsAreTheSelections<T(!new)>(keys: seq<T>, size: nat, s: seq<T>)
    ensures s in SubsetsUpTo(keys, size) <==> 1 <= |s| <= size && IsSelection(s, keys)
  {
    hide Combinations, IsSelection;
    if size > 0 {
      SubsetsAreTheSelections(keys, size - 1, s);
      InCombinations(keys, size, s);
      InEither(SubsetsUpTo(keys, size - 1), Combinations(keys, size), s);
    }
  }

  lemma {:induction false} CombinationsDiffer<T(!new)>(keys: seq<T>, size: nat)
    requires Distinct(keys)
    ensures Distinct(Combinations(keys, size))
  {
    if size > 0 && keys != [] {
      var with, without := Prepended(keys[0], Combinations(keys[1..], size - 1)), Combinations(keys[1..], size);
      CombinationsDiffer(keys[1..], size - 1);
      CombinationsDiffer(keys[1..], size);
      PrependedDiffer(keys[0], Combinations(keys[1..], size - 1));
      forall s | s in with ensures s !in without {
        SecondHalfLacks(keys, size, s);
      }
      ConcatenationDiffers(with, without);
    }
  }

  lemma SecondHalfLacks<T(!new)>(keys: seq<T>, size: nat, s: seq<T>)
    requires Distinct(keys) && keys != [] && size > 0
    requires s in Prepended(keys[0], Combinations(keys[1..], size - 1))
    ensures s !in Combinations(keys[1..], size)
  {
    InCombinations(keys[1..], size, s);
    FirstIsNotLater(keys);
    NotPrepended(keys[0], Combinations(keys[1..], size - 1));
    InPrepended(keys[0], Combinations(keys[1..], size - 1), s);
    assert s[0] in s;
    if IsSelection(s, keys[1..]) {
      ShorterSelection(s, keys[1..]);
    }
  }

  lemma FirstIsNotLater<T(!new)>(keys: seq<T>)
    requires Distinct(keys) && keys != []
    ensures keys[0] !in keys[1..]
  {
    forall j | 0 <= j < |keys[1..]| ensures keys[1..][j] != keys[0] {
      assert keys[1..][j] == keys[j + 1];
    }
  }

  lemma PrependedDiffer<T(!new)>(x: T, lists: seq<seq<T>>)
    requires Distinct(lists)
    ensures Distinct(Prepended(x, lists))
  {
    forall i, j | 0 <= i < j < |lists| ensures Prepended(x, lists)[i] != Prepended(x, lists)[j] {
      assert Prepended(x, lists)[i][1..] == lists[i] && Prepended(x, lists)[j][1..] == lists[j];
    }
  }

  lemma ConcatenationDiffers<T(!new)>(a: seq<T>, b: seq<T>)
    requires Distinct(a) && Distinct(b) && forall x :: x in a ==> x !in b
    ensures Distinct(a + b)
  {
    forall i, j | 0 <= i < j < |a + b| ensures (a + b)[i] != (a + b)[j] {
      if i < |a| <= j {
        assert a[i] in a && b[j - |a|] in b;
      }
    }
  }

  /** No selection occurs twice. */
  lemma {:induction false} SubsetsDiffer<T(!new)>(keys: seq<T>, size: nat)
    requires Distinct(keys)
    ensures Distinct(SubsetsUpTo(keys, size))
  {
    hide Distinct, Combinations, IsSelection;
    if size > 0 {
      SubsetsDiffer(keys, size - 1);
      CombinationsDiffer(keys, size);
      forall s | s in SubsetsUpTo(keys, size - 1) ensures s !in Combinations(keys, size) {
        SubsetsAreTheSelections(keys, size - 1, s);
        InCombinations(keys, size, s);
      }
      ConcatenationDiffers(SubsetsUpTo(keys, size - 1), Combinations(keys, size));
    } else {
      NothingDiffers(SubsetsUpTo(keys, 0));
    }
  }

  lemma NothingDiffers<T>(s: seq<T>)
    requires s == []
    ensures Distinct(s)
  {
  }

  lemma {:induction false} CombinationsCount<T>(keys: seq<T>, size: nat)
    ensures |Combinations(keys, size)| == Choose(|keys|, size)
  {
    if size > 0 && keys != [] {
      CombinationsCount(keys[1..], size - 1);
      CombinationsCount(keys[1..], size);
    }
  }

  function Power(n: nat): (r: nat)
    ensures r > 0
  {
    if n == 0 then 1 else 2 * Power(n - 1)
  }

  function ChooseSum(n: nat, size: nat): nat {
    if size == 0 then 0 else ChooseSum(n, size - 1) + Choose(n, size)
  }

  lemma {:induction false} ChooseSumPascal(n: nat, size: nat)
    requires n > 0 && size > 0
    ensures ChooseSum(n, size) == 1 + ChooseSum(n - 1, size - 1) + ChooseSum(n - 1, size)
  {
    assert Choose(n, size) == Choose(n - 1, size - 1) + Choose(n - 1, size);
    if size > 1 {
      ChooseSumPascal(n, size - 1);
      assert ChooseSum(n - 1, size - 1) == ChooseSum(n - 1, size - 2) + Choose(n - 1, size - 1);
    } else {
      assert Choose(n - 1, 0) == 1 && ChooseSum(n, 0) == 0 && ChooseSum(n - 1, 0) == 0;
    }
  }

  lemma {:induction false} NothingBeyond(n: nat, size: nat)
    requires size > n
    ensures Choose(n, size) == 0
  {
    if n > 0 {
      NothingBeyond(n - 1, size - 1);
      NothingBeyond(n - 1, size);
    }
  }

  lemma {:induction false} ChooseSumIs(n: nat)
    ensures ChooseSum(n, n) == Power(n) - 1
  {
    if n > 0 {
      ChooseSumIs(n - 1);
      ChooseSumPascal(n, n);
      NothingBeyond(n - 1, n);
    }
  }

  lemma {:induction false} SubsetsUpToCount<T>(keys: seq<T>, size: nat)
    ensures |SubsetsUpTo(keys, size)| == ChooseSum(|keys|, size)
  {
    if size > 0 {
      SubsetsUpToCount(keys, size - 1);
      CombinationsCount(keys, size);
    }
  }

  /** n distinct keys have 2^n - 1 nonempty subsets: 31 for five models. */
  lemma SubsetCount<T(!new)>(keys: seq<T>)
    ensures |SubsetsUpTo(keys, |keys|)| == Power(|keys|) - 1
  {
    SubsetsUpToCount(keys, |keys|);
    ChooseSumIs(|keys|);
  }

  const MODEL_KEYS: seq<string> := ["distilgpt2", "meta-opt-125m", "pythia-160m", "alexnet", "densenet121"]

  lemma ModelNamesDiffer()
    ensures Distinct(MODEL_KEYS) && |MODEL_KEYS| == 5
  {
    assert |MODEL_KEYS[0]| == 10 && |MODEL_KEYS[1]| == 13 && |MODEL_KEYS[2]| == 11;
    assert |MODEL_KEYS[3]| == 7 && |MODEL_KEYS[4]| == 11;
    assert MODEL_KEYS[2][0] == 'p' && MODEL_KEYS[4][0] == 'd';
  }
}
