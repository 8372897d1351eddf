/** The attack threshold calibrated on nonmember scores by scripts/run_openml_membership.py:
    the most permissive threshold whose false positives stay within the allowance. */
module AttackThreshold {
  import opened Results

  datatype ScoreError = NoScores

  /** How many scores a threshold flags. */
  function Flagged(scores: seq<real>, threshold: real): nat {
    if scores == [] then 0
    else Flagged(scores[1..], threshold) + if scores[0] >= threshold then 1 else 0
  }

  function Occurrences(scores: seq<real>, value: real): nat {
    if scores == [] then 0
    else Occurrences(scores[1..], value) + if scores[0] == value then 1 else 0
  }

  /** At most the allowance is flagged, and no threshold within the allowance flags more. */
  ghost predicate IsBestThreshold(scores: seq<real>, allowed: int, threshold: real, count: nat) {
    && count == Flagged(scores, threshold)
    && (count <= allowed || count == 0)
    && forall u: real :: Flagged(scores, u) <= allowed ==> Flagged(scores, u) <= count
  }

  // ---- Counting --------------------------------------------------------------------

  lemma {:induction false} FlaggedAntitone(scores: seq<real>, low: real, high: real)
    requires low <= high
    ensures Flagged(scores, high) <= Flagged(scores, low) <= |scores|
  {
    if scores != [] {
      FlaggedAntitone(scores[1..], low, high);
    }
  }

  /** With no score strictly between two thresholds, lowering the threshold adds the ties. */
  lemma {:induction false} FlaggedStep(scores: seq<real>, low: real, high: real)
    requires low < high && forall i :: 0 <= i < |scores| ==> scores[i] <= low || high <= scores[i]
    ensures Flagged(scores, low) == Flagged(scores, high) + Occurrences(scores, low)
  {
    if scores != [] {
      FlaggedStep(scores[1..], low, high);
    }
  }

  lemma {:induction false} NoneFlagged(scores: seq<real>, threshold: real)
    requires forall i :: 0 <= i < |scores| ==> scores[i] < threshold
    ensures Flagged(scores, threshold) == 0
  {
    if scores != [] {
      NoneFlagged(scores[1..], threshold);
    }
  }

  lemma {:induction false} AllFlagged(scores: seq<real>, threshold: real)
    requires forall i :: 0 <= i < |scores| ==> threshold <= scores[i]
    ensures Flagged(scores, threshold) == |scores|
  {
    if scores != [] {
      AllFlagged(scores[1..], threshold);
    }
  }

  /** A score that only the lower of two thresholds flags makes the counts differ. */
  lemma {:induction false} FlaggedStrict(scores: seq<real>, low: real, high: real, i: nat)
    requires i < |scores| && low <= scores[i] < high
    ensures Flagged(scores, high) < Flagged(scores, low)
  {
    if i == 0 {
      FlaggedAntitone(scores[1..], low, high);
    } else {
      FlaggedStrict(scores[1..], low, high, i - 1);
    }
  }

  // ---- Distinct values with their counts -------------------------------------------

  predicate IsAscending(values: seq<real>) {
    forall i, j :: 0 <= i < j < |values| ==> values[i] < values[j]
  }

  /** What `np.unique(scores, return_counts=True)` returns. */
  ghost predicate IsUnique(scores: seq<real>, values: seq<real>, counts: seq<nat>) {
    && |values| == |counts|
    && IsAscending(values)
    && (forall y :: y in scores ==> y in values)
    && (forall k :: 0 <= k < |values| ==> values[k] in scores && counts[k] == Occurrences(scores, values[k]))
  }

  lemma {:induction false} OccurrencesAppend(scores: seq<real>, x: real, value: real)
    ensures Occurrences(scores + [x], value) == Occurrences(scores, value) + if x == value then 1 else 0
  {
    if scores == [] {
      assert [x][1..] == [];
    } else {
      assert (scores + [x])[1..] == scores[1..] + [x];
      OccurrencesAppend(scores[1..], x, value);
    }
  }

  lemma {:induction false} AbsentDoesNotOccur(scores: seq<real>, value: real)
    requires value !in scores
    ensures Occurrences(scores, value) == 0
  {
    if scores != [] {
      AbsentDoesNotOccur(scores[1..], value);
    }
  }

  /** Where x belongs among ascending values. */
  method Position(values: seq<real>, x: real) returns (k: nat)
    requires IsAscending(values)
    ensures k <= |values|
    ensures forall i :: 0 <= i < k ==> values[i] < x
    ensures forall i :: k <= i < |values| ==> x <= values[i]
  {
    k := 0;
    while k < |values| && values[k] < x
      invariant k <= |values|
      invariant forall i :: 0 <= i < k ==> values[i] < x
    {
      k := k + 1;
    }
  }

  lemma CountedAgain(scores: seq<real>, values: seq<real>, counts: seq<nat>, x: real, k: nat)
    requires IsUnique(scores, values, counts) && k < |values| && values[k] == x
    ensures IsUnique(scores + [x], values, counts[k := counts[k] + 1])
  {
    hide Occurrences;
    forall j | 0 <= j < |values|
      ensures counts[k := counts[k] + 1][j] == Occurrences(scores + [x], values[j])
    {
      OccurrencesAppend(scores, x, values[j]);
    }
  }

  function Insert<T>(s: seq<T>, k: nat, x: T): (r: seq<T>)
    requires k <= |s|
    ensures |r| == |s| + 1 && r[k] == x
    ensures forall i :: 0 <= i < k ==> r[i] == s[i]
    ensures forall i :: k < i < |r| ==> r[i] == s[i - 1]
    ensures forall i :: 0 <= i < |s| ==> s[i] == r[if i < k then i else i + 1]
  {
    s[..k] + [x] + s[k..]
  }

  lemma InsertKeepsMembers<T(!new)>(s: seq<T>, k: nat, x: T)
    requires k <= |s|
    ensures x in Insert(s, k, x) && forall y :: y in s ==> y in Insert(s, k, x)
  {
    hide Insert;
    assert Insert(s, k, x)[k] == x;
  }

  lemma CountedFirst(scores: seq<real>, values: seq<real>, counts: seq<nat>, x: real, k: nat)
    requires IsUnique(scores, values, counts) && k <= |values|
    requires forall i :: 0 <= i < k ==> values[i] < x
    requires forall i :: k <= i < |values| ==> x < values[i]
    ensures IsUnique(scores + [x], Insert(values, k, x), Insert(counts, k, 1))
  {
    hide Occurrences, Insert;
    InsertAscends(values, k, x);
    var wider, more := Insert(values, k, x), Insert(counts, k, 1);
    assert x !in values;
    assert x !in scores;
    forall y | y in scores + [x] ensures y in wider {
      InsertKeepsMembers(values, k, x);
    }
    hide IsAscending;
    forall j | 0 <= j < |wider| ensures wider[j] in scores + [x] && more[j] == Occurrences(scores + [x], wider[j]) {
      CountOfInserted(scores, values, counts, x, k, j);
    }
  }

  lemma InsertAscends(values: seq<real>, k: nat, x: real)
    requires IsAscending(values) && k <= |values|
    requires forall i :: 0 <= i < k ==> values[i] < x
    requires forall i :: k <= i < |values| ==> x < values[i]
    ensures IsAscending(Insert(values, k, x))
  {
    hide Insert;
  }

  lemma CountOfInserted(scores: seq<real>, values: seq<real>, counts: seq<nat>, x: real, k: nat, j: nat)
    requires |values| == |counts| && k <= |values| && j <= |values| && x !in scores
    requires forall i :: 0 <= i < |values| ==> values[i] in scores && counts[i] == Occurrences(scores, values[i])
    ensures Insert(values, k, x)[j] in scores + [x]
    ensures Insert(counts, k, 1)[j] == Occurrences(scores + [x], Insert(values, k, x)[j])
  {
    hide Occurrences, Insert;
    var value := Insert(values, k, x)[j];
    OccurrencesAppend(scores, x, value);
    AbsentDoesNotOccur(scores, x);
    if j != k {
      var i := if j < k then j else j - 1;
      assert value == values[i] && value in scores;
    }
  }

  method Unique(scores: seq<real>) returns (values: seq<real>, counts: seq<nat>)
    ensures IsUnique(scores, values, counts)
  {
    values, counts := [], [];
    hide Occurrences, Insert;
    for n := 0 to |scores|
      invariant IsUnique(scores[..n], values, counts)
    {
      var x := scores[n];
      var k := Position(values, x);
      assert scores[..n + 1] == scores[..n] + [x];
      if k < |values| && values[k] == x {
        CountedAgain(scores[..n], values, counts, x, k);
        counts := counts[k := counts[k] + 1];
      } else {
        CountedFirst(scores[..n], values, counts, x, k);
        values, counts := Insert(values, k, x), Insert(counts, k, 1);
      }
    }
    assert scores[..|scores|] == scores;
  }

  // ---- The calibrated threshold ----------------------------------------------------

  lemma NoScoreBetween(scores: seq<real>, values: seq<real>, counts: seq<nat>, k: nat)
    requires IsUnique(scores, values, counts) && k + 1 < |values|
    ensures forall i :: 0 <= i < |scores| ==> scores[i] <= values[k] || values[k + 1] <= scores[i]
  {
    forall i | 0 <= i < |scores| ensures scores[i] <= values[k] || values[k + 1] <= scores[i] {
      assert scores[i] in scores;
      var j :| 0 <= j < |values| && values[j] == scores[i];
    }
  }

  lemma SomeValue(scores: seq<real>, values: seq<real>, counts: seq<nat>)
    requires IsUnique(scores, values, counts) && scores != []
    ensures values != []
  {
    var y := scores[0];
    assert y in scores && y in values;
  }

  lemma BelowTheLargest(scores: seq<real>, values: seq<real>, counts: seq<nat>)
    requires IsUnique(scores, values, counts) && values != []
    ensures forall i :: 0 <= i < |scores| ==> scores[i] <= values[|values| - 1]
  {
    forall i | 0 <= i < |scores| ensures scores[i] <= values[|values| - 1] {
      assert scores[i] in scores;
      var j :| 0 <= j < |values| && values[j] == scores[i];
    }
  }

  lemma AboveTheSmallest(scores: seq<real>, values: seq<real>, counts: seq<nat>)
    requires IsUnique(scores, values, counts) && values != []
    ensures forall i :: 0 <= i < |scores| ==> values[0] <= scores[i]
  {
    forall i | 0 <= i < |scores| ensures values[0] <= scores[i] {
      assert scores[i] in scores;
      var j :| 0 <= j < |values| && values[j] == scores[i];
    }
  }

  /** Taking value k as threshold adds its ties to what the next value above it flags, and no
      threshold in between flags more than that one. */
  lemma RunningTotal(scores: seq<real>, values: seq<real>, counts: seq<nat>, k: nat, higher: real)
    requires IsUnique(scores, values, counts) && k < |values|
    requires if k + 1 < |values| then higher == values[k + 1] else values[k] < higher
    ensures Flagged(scores, values[k]) == Flagged(scores, higher) + counts[k]
    ensures forall u: real :: values[k] < u ==> Flagged(scores, u) <= Flagged(scores, higher)
  {
    hide Flagged, Occurrences;
    if k + 1 < |values| {
      NoScoreBetween(scores, values, counts, k);
    } else {
      BelowTheLargest(scores, values, counts);
    }
    FlaggedStep(scores, values[k], higher);
    forall u: real | values[k] < u ensures Flagged(scores, u) <= Flagged(scores, higher) {
      FlaggedStep(scores, values[k], if u < higher then u else higher);
      FlaggedAntitone(scores, if u < higher then u else higher, u);
    }
  }

  /** `threshold_at_fpr`; the successor of the largest score is taken `ulp` above it. */
  method ThresholdAtFpr(scores: seq<real>, targetFpr: real, ulp: real) returns (r: Result<(real, nat), ScoreError>)
    requires ulp > 0.0
    ensures r == Err(NoScores) <==> scores == []
    ensures r.Ok? ==> IsBestThreshold(scores, (targetFpr * |scores| as real).Floor, r.value.0, r.value.1)
    ensures r.Ok? ==> r.value.0 in scores || (r.value.1 == 0 && forall i :: 0 <= i < |scores| ==> scores[i] < r.value.0)
  {
    var allowed := (targetFpr * |scores| as real).Floor;
    var values, counts := Unique(scores);
    if scores == [] {
      return Err(NoScores);
    }
    hide Flagged, Occurrences;
    SomeValue(scores, values, counts);
    var top := values[|values| - 1] + ulp;
    BelowTheLargest(scores, values, counts);
    NoneFlagged(scores, top);
    var cumulative: nat := 0;
    var chosen: Option<real> := None;
    var index := |values|;
    while index > 0
      invariant 0 <= index <= |values|
      invariant cumulative == Flagged(scores, if index == |values| then top else values[index])
      invariant cumulative <= allowed || cumulative == 0
      invariant chosen == if index == |values| then None else Some(values[index])
      invariant index == |values| ==> cumulative == 0
    {
      RunningTotal(scores, values, counts, index - 1, if index == |values| then top else values[index]);
      var nextTotal := cumulative + counts[index - 1];
      if nextTotal > allowed {
        StoppedIsBest(scores, allowed, values[index - 1], if index == |values| then top else values[index]);
        break;
      }
      index, cumulative, chosen := index - 1, nextTotal, Some(values[index - 1]);
    }
    if index == 0 {
      AboveTheSmallest(scores, values, counts);
      AllFlagged(scores, values[0]);
      forall u: real ensures Flagged(scores, u) <= |scores| {
        FlaggedAntitone(scores, u, u);
      }
    }
    match chosen
    case None => r := Ok((top, 0));
    case Some(t) => r := Ok((t, cumulative));
  }

  lemma StoppedIsBest(scores: seq<real>, allowed: int, refused: real, threshold: real)
    requires Flagged(scores, refused) > allowed
    requires Flagged(scores, threshold) <= allowed || Flagged(scores, threshold) == 0
    requires forall u: real :: refused < u ==> Flagged(scores, u) <= Flagged(scores, threshold)
    ensures IsBestThreshold(scores, allowed, threshold, Flagged(scores, threshold))
  {
    hide Flagged;
    forall u: real | Flagged(scores, u) <= allowed ensures Flagged(scores, u) <= Flagged(scores, threshold) {
      if u <= refused {
        FlaggedAntitone(scores, u, refused);
      }
    }
  }

  // ---- Consequences ----------------------------------------------------------------

  /** The calibrated decision is unique: any two best thresholds flag the same scores. */
  lemma BestDecisionsAgree(scores: seq<real>, allowed: int, s: real, m: nat, t: real, n: nat, i: nat)
    requires IsBestThreshold(scores, allowed, s, m) && IsBestThreshold(scores, allowed, t, n) && i < |scores|
    ensures m == n && (scores[i] >= s <==> scores[i] >= t)
  {
    hide Flagged;
    if scores[i] >= s && scores[i] < t {
      FlaggedStrict(scores, s, t, i);
    }
    if scores[i] >= t && scores[i] < s {
      FlaggedStrict(scores, t, s, i);
    }
  }

  /** A larger allowance flags a superset. */
  lemma LargerAllowanceFlagsMore(scores: seq<real>, a: int, s: real, m: nat, b: int, t: real, n: nat, i: nat)
    requires a <= b && IsBestThreshold(scores, a, s, m) && IsBestThreshold(scores, b, t, n)
    requires i < |scores| && scores[i] >= s
    ensures m <= n && scores[i] >= t
  {
    hide Flagged;
    if scores[i] < t {
      FlaggedStrict(scores, s, t, i);
    }
  }

  /** Ties are all or nothing: an item is flagged exactly when the allowance holds every score
      at least as high. */
  lemma FlaggedExactlyWhenItFits(scores: seq<real>, allowed: int, t: real, n: nat, i: nat)
    requires IsBestThreshold(scores, allowed, t, n) && i < |scores|
    ensures scores[i] >= t <==> Flagged(scores, scores[i]) <= allowed
  {
    hide Flagged;
    if scores[i] >= t {
      FlaggedAntitone(scores, t, scores[i]);
      FlaggedStrict(scores, t, scores[i] + 1.0, i);
    } else if Flagged(scores, scores[i]) <= allowed {
      FlaggedStrict(scores, scores[i], t, i);
    }
  }
}
