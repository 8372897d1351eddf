/** The Holm step-down procedure of scripts/analyze_openml_inference.py, proved equal
    to closed Bonferroni testing: a definition over all subsets of hypotheses that never
    mentions an order. */
module HolmProcedure {
  import opened FiniteSets

  /** What `np.argsort` returns: a permutation listing the p-values in ascending order.
      Tied p-values may come in any order. */
  ghost predicate IsArgsort(order: seq<nat>, pvalues: seq<real>) {
    && |order| == |pvalues|
    && (forall k :: 0 <= k < |order| ==> order[k] < |pvalues|)
    && (forall j, k :: 0 <= j < k < |order| ==> order[j] != order[k])
    && (forall j, k :: 0 <= j < k < |order| ==> pvalues[order[j]] <= pvalues[order[k]])
  }

  /** The Bonferroni test of the intersection hypothesis over the indices in `family`. */
  ghost predicate BonferroniRejects(pvalues: seq<real>, alpha: real, family: set<int>) {
    exists j :: j in family && 0 <= j < |pvalues| && |family| > 0 && pvalues[j] <= alpha / |family| as real
  }

  /** Closed testing: hypothesis i falls when every intersection containing it falls. */
  ghost predicate ClosedTestRejects(pvalues: seq<real>, alpha: real, i: int)
    requires 0 <= i < |pvalues|
  {
    forall family: set<int> :: i in family && family <= Below(|pvalues|) ==> BonferroniRejects(pvalues, alpha, family)
  }

  /** Position k survives the step-down comparison. */
  predicate Passes(pvalues: seq<real>, alpha: real, order: seq<nat>, k: nat)
    requires k < |order| == |pvalues| && order[k] < |pvalues|
  {
    pvalues[order[k]] <= alpha / (|pvalues| - k) as real
  }

  /** The hypotheses that every comparison up to their own position lets through are rejected. */
  ghost predicate IsStepDown(pvalues: seq<real>, alpha: real, order: seq<nat>, decisions: seq<bool>) {
    && IsArgsort(order, pvalues) && |decisions| == |pvalues|
    && forall r: nat :: r < |order| ==> (decisions[order[r]] <==> PassesUpTo(pvalues, alpha, order, r))
  }

  ghost predicate PassesUpTo(pvalues: seq<real>, alpha: real, order: seq<nat>, r: nat)
    requires IsArgsort(order, pvalues) && r < |order|
  {
    forall k: nat :: k <= r ==> Passes(pvalues, alpha, order, k)
  }

  lemma RankOf(order: seq<nat>, pvalues: seq<real>, i: int) returns (k: nat)
    requires IsArgsort(order, pvalues) && 0 <= i < |pvalues|
    ensures k < |order| && order[k] == i
  {
    TailSize(order, 0);
    FullSubset(Tail(order, 0), Below(|pvalues|));
    assert i in Tail(order, 0);
    k :| 0 <= k < |order| && order[k] as int == i;
  }

  lemma ThresholdAntitone(alpha: real, small: nat, large: nat)
    requires 0 < small <= large && 0.0 <= alpha
    ensures alpha / large as real <= alpha / small as real
  {
    var s, l := small as real, large as real;
    assert alpha / s - alpha / l == alpha * (l - s) / (s * l);
    assert alpha * (l - s) >= 0.0 && s * l > 0.0;
  }

  /** The hypotheses at or after position k. */
  ghost function Tail(order: seq<nat>, k: nat): set<int>
    requires k <= |order|
  {
    set j: int | k <= j < |order| :: order[j] as int
  }

  lemma TailSize(order: seq<nat>, k: nat)
    requires k <= |order|
    requires forall i, j :: 0 <= i < j < |order| ==> order[i] != order[j]
    ensures |Tail(order, k)| == |order| - k
    decreases |order| - k
  {
    if k == |order| {
      assert Tail(order, k) == {};
    } else {
      TailSize(order, k + 1);
      assert Tail(order, k) == Tail(order, k + 1) + {order[k] as int};
    }
  }

  /** The first position of the order whose hypothesis lies in the family. */
  lemma FirstInFamily(order: seq<nat>, family: set<int>, r: nat) returns (k: nat)
    requires r < |order| && order[r] as int in family
    ensures k <= r && order[k] as int in family
    ensures forall j :: 0 <= j < k ==> order[j] as int !in family
  {
    k := 0;
    while order[k] as int !in family
      invariant k <= r
      invariant forall j :: 0 <= j < k ==> order[j] as int !in family
      decreases r - k
    {
      k := k + 1;
    }
  }

  /** Step-down rejection implies closed-test rejection. */
  lemma StepDownImpliesClosed(pvalues: seq<real>, alpha: real, order: seq<nat>, r: nat)
    requires IsArgsort(order, pvalues) && 0.0 <= alpha && r < |order|
    requires forall k: nat :: k <= r ==> Passes(pvalues, alpha, order, k)
    ensures ClosedTestRejects(pvalues, alpha, order[r])
  {
    forall family: set<int> | order[r] as int in family && family <= Below(|pvalues|)
      ensures BonferroniRejects(pvalues, alpha, family)
    {
      var k := FirstInFamily(order, family, r);
      forall j | j in family ensures j in Tail(order, k) {
        var rank := RankOf(order, pvalues, j);
        assert order[rank] as int == j;
      }
      SubsetSize(family, Tail(order, k));
      TailSize(order, k);
      assert |family| > 0 by { SubsetSize({order[k] as int}, family); }
      ThresholdAntitone(alpha, |family|, |pvalues| - k);
      assert Passes(pvalues, alpha, order, k);
    }
  }

  /** Closed-test rejection implies that no earlier position stops the step-down. */
  lemma ClosedImpliesStepDown(pvalues: seq<real>, alpha: real, order: seq<nat>, r: nat, k: nat)
    requires IsArgsort(order, pvalues) && k <= r < |order|
    requires ClosedTestRejects(pvalues, alpha, order[r])
    ensures Passes(pvalues, alpha, order, k)
  {
    var family := Tail(order, k);
    TailSize(order, k);
    assert order[r] as int in family;
    assert BonferroniRejects(pvalues, alpha, family);
    var j :| j in family && 0 <= j < |pvalues| && pvalues[j] <= alpha / |family| as real;
    var rank :| k <= rank < |order| && order[rank] as int == j;
    assert pvalues[order[k]] <= pvalues[order[rank]];
  }

  /** `holm_rejections`: the loop with its early break decides the closed test, whatever
      order `np.argsort` gives tied p-values. */
  method HolmRejections(pvalues: seq<real>, alpha: real, order: seq<nat>) returns (decisions: seq<bool>)
    requires IsArgsort(order, pvalues) && 0.0 <= alpha
    ensures IsStepDown(pvalues, alpha, order, decisions)
    ensures forall i :: 0 <= i < |pvalues| ==> (decisions[i] <==> ClosedTestRejects(pvalues, alpha, i))
  {
    var rejected := new bool[|pvalues|](_ => false);
    var rank := 0;
    while rank < |order|
      invariant 0 <= rank <= |order|
      invariant forall k: nat :: k < rank ==> Passes(pvalues, alpha, order, k)
      invariant forall k: nat :: k < rank ==> rejected[order[k]]
      invariant forall k: nat :: rank <= k < |order| ==> !rejected[order[k]]
    {
      var index := order[rank];
      if pvalues[index] <= alpha / (|pvalues| - rank) as real {
        rejected[index] := true;
      } else {
        break;
      }
      rank := rank + 1;
    }
    assert rank < |order| ==> !Passes(pvalues, alpha, order, rank);
    decisions := rejected[..];
    StepDownIsClosed(pvalues, alpha, order, decisions);
  }

  /** The step-down decisions are those of the closed test. */
  lemma StepDownIsClosed(pvalues: seq<real>, alpha: real, order: seq<nat>, decisions: seq<bool>)
    requires IsStepDown(pvalues, alpha, order, decisions) && 0.0 <= alpha
    ensures forall i :: 0 <= i < |pvalues| ==> (decisions[i] <==> ClosedTestRejects(pvalues, alpha, i))
  {
    hide Passes, ClosedTestRejects;
    forall i | 0 <= i < |pvalues|
      ensures decisions[i] <==> ClosedTestRejects(pvalues, alpha, i)
    {
      var r := RankOf(order, pvalues, i);
      if decisions[i] {
        StepDownImpliesClosed(pvalues, alpha, order, r);
      }
      if ClosedTestRejects(pvalues, alpha, i) {
        forall k: nat | k <= r ensures Passes(pvalues, alpha, order, k) {
          ClosedImpliesStepDown(pvalues, alpha, order, r, k);
        }
      }
    }
  }

  /** Familywise control at its root: if the procedure rejects any member of the set of true nulls,
      some true null has a p-value at or below alpha divided by their number. */
  lemma FalseRejectionNeedsSmallPvalue(pvalues: seq<real>, alpha: real, order: seq<nat>, decisions: seq<bool>,
                                       trueNulls: set<int>)
    requires IsStepDown(pvalues, alpha, order, decisions) && 0.0 <= alpha && trueNulls <= Below(|pvalues|)
    requires exists i :: i in trueNulls && 0 <= i < |pvalues| && decisions[i]
    ensures exists j :: j in trueNulls && 0 <= j < |pvalues| && pvalues[j] <= alpha / |trueNulls| as real
  {
    StepDownIsClosed(pvalues, alpha, order, decisions);
    assert BonferroniRejects(pvalues, alpha, trueNulls);
  }

  /** Tied p-values get the same decision, and a smaller p-value is never treated worse. */
  lemma SmallerPvalueRejectedToo(pvalues: seq<real>, alpha: real, order: seq<nat>, decisions: seq<bool>, i: nat, j: nat)
    requires IsStepDown(pvalues, alpha, order, decisions) && 0.0 <= alpha
    requires i < |pvalues| && j < |pvalues| && pvalues[i] <= pvalues[j] && decisions[j]
    ensures decisions[i]
  {
    hide ClosedTestRejects;
    StepDownIsClosed(pvalues, alpha, order, decisions);
    ClosedTestIsMonotone(pvalues, alpha, i, j);
  }

  lemma ClosedTestIsMonotone(pvalues: seq<real>, alpha: real, i: int, j: int)
    requires 0 <= i < |pvalues| && 0 <= j < |pvalues| && pvalues[i] <= pvalues[j]
    requires ClosedTestRejects(pvalues, alpha, j)
    ensures ClosedTestRejects(pvalues, alpha, i)
  {
    forall family: set<int> | i in family && family <= Below(|pvalues|)
      ensures BonferroniRejects(pvalues, alpha, family)
    {
      var swapped := if j in family then family else (family - {i}) + {j};
      assert j in swapped && swapped <= Below(|pvalues|);
      assert |swapped| == |family|;
      assert BonferroniRejects(pvalues, alpha, swapped);
      var m :| m in swapped && 0 <= m < |pvalues| && pvalues[m] <= alpha / |swapped| as real;
      var hit := if m in family then m else i;
      assert pvalues[hit] <= alpha / |family| as real;
    }
  }
}
