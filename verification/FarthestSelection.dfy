/** Greedy farthest-point selection of scripts/select_openml_subsets.py, over any item
    type, any pseudometric on it and any tie-break digest. */
module FarthestSelection {
  import opened FiniteSets
  import opened Results

  ghost predicate Pseudometric<T(!new)>(d: (T, T) -> real) {
    && (forall x :: d(x, x) == 0.0)
    && (forall x, y :: d(x, y) >= 0.0)
    && (forall x, y :: d(x, y) == d(y, x))
    && (forall x, y, z :: d(x, z) <= d(x, y) + d(y, z))
  }

  /** Distance from x to its nearest chosen item. */
  function Nearest<T>(d: (T, T) -> real, chosen: seq<T>, x: T): real
    requires chosen != []
  {
    var last := |chosen| - 1;
    if last == 0 then d(x, chosen[0])
    else
      var rest := Nearest(d, chosen[..last], x);
      if d(x, chosen[last]) < rest then d(x, chosen[last]) else rest
  }

  /** `Nearest` is the least of the distances to the chosen items. */
  lemma {:induction false} NearestIsLeast<T(!new)>(d: (T, T) -> real, chosen: seq<T>, x: T) returns (arg: nat)
    requires chosen != []
    ensures arg < |chosen| && Nearest(d, chosen, x) == d(x, chosen[arg])
    ensures forall i :: 0 <= i < |chosen| ==> Nearest(d, chosen, x) <= d(x, chosen[i])
  {
    var last := |chosen| - 1;
    if last == 0 {
      arg := 0;
    } else {
      arg := NearestIsLeast(d, chosen[..last], x);
      assert forall i :: 0 <= i < last ==> chosen[..last][i] == chosen[i];
      if d(x, chosen[last]) < Nearest(d, chosen[..last], x) {
        arg := last;
      }
    }
  }

  /** The lexicographic comparison of (distance, tie digest) score pairs. */
  predicate ScoreLess<T(!new)>(d: (T, T) -> real, tie: T -> nat, chosen: seq<T>, x: T, y: T)
    requires chosen != []
  {
    var dx, dy := Nearest(d, chosen, x), Nearest(d, chosen, y);
    dx < dy || (dx == dy && tie(x) < tie(y))
  }

  /** Index of the first item of least digest among the first n. */
  function SeedIndex<T(!new)>(tie: T -> nat, items: seq<T>, n: nat): (i: nat)
    requires 0 < n <= |items|
    ensures i < n
    ensures forall j :: 0 <= j < n ==> tie(items[i]) <= tie(items[j])
    ensures forall j :: 0 <= j < i ==> tie(items[i]) < tie(items[j])
  {
    if n == 1 then 0
    else
      var i := SeedIndex(tie, items, n - 1);
      if tie(items[n - 1]) < tie(items[i]) then n - 1 else i
  }

  /** Index of the first item of greatest score among the first n. */
  function FarthestIndex<T(!new)>(d: (T, T) -> real, tie: T -> nat, chosen: seq<T>, remaining: seq<T>, n: nat): (i: nat)
    requires chosen != [] && 0 < n <= |remaining|
    ensures i < n
    ensures forall j :: 0 <= j < n ==> Nearest(d, chosen, remaining[j]) <= Nearest(d, chosen, remaining[i])
  {
    if n == 1 then 0
    else
      var i := FarthestIndex(d, tie, chosen, remaining, n - 1);
      if ScoreLess(d, tie, chosen, remaining[i], remaining[n - 1]) then n - 1 else i
  }

  /** `list.remove`: drop the first occurrence. */
  function RemoveFirst<T(==, !new)>(s: seq<T>, x: T): (r: seq<T>)
    ensures x in s ==> |r| == |s| - 1
    ensures forall y :: y in r ==> y in s
    ensures forall y :: y in s ==> y == x || y in r
  {
    if s == [] then []
    else if s[0] == x then s[1..]
    else [s[0]] + RemoveFirst(s[1..], x)
  }

  function Without<T(==, !new)>(s: seq<T>, x: T): (r: seq<T>)
    ensures forall y :: y in r <==> y in s && y != x
  {
    if s == [] then []
    else if s[0] == x then Without(s[1..], x)
    else [s[0]] + Without(s[1..], x)
  }

  datatype SelectionError = CountExceedsItems | NothingLeft

  /** The greedy continuation from a partial selection. */
  function Grow<T(==, !new)>(d: (T, T) -> real, tie: T -> nat, chosen: seq<T>, remaining: seq<T>, count: int)
    : Result<seq<T>, SelectionError>
    requires chosen != []
    decreases count - |chosen|
  {
    if |chosen| >= count then Ok(chosen)
    else if remaining == [] then Err(NothingLeft)
    else
      var next := remaining[FarthestIndex(d, tie, chosen, remaining, |remaining|)];
      Grow(d, tie, chosen + [next], RemoveFirst(remaining, next), count)
  }

  function Select<T(==, !new)>(d: (T, T) -> real, tie: T -> nat, items: seq<T>, count: int)
    : Result<seq<T>, SelectionError>
  {
    if count > |items| then Err(CountExceedsItems)
    else if items == [] then Err(NothingLeft)
    else
      var seed := items[SeedIndex(tie, items, |items|)];
      Grow(d, tie, [seed], Without(items, seed), count)
  }

  /** `farthest`: the loop that grows `selected` and shrinks `remaining`. */
  method Farthest<T(==, !new)>(d: (T, T) -> real, tie: T -> nat, items: seq<T>, count: int)
    returns (result: Result<seq<T>, SelectionError>)
    ensures result == Select(d, tie, items, count)
  {
    if count > |items| {
      return Err(CountExceedsItems);
    }
    if items == [] {
      return Err(NothingLeft);
    }
    var least := 0;
    for n := 1 to |items|
      invariant least < n && least == SeedIndex(tie, items, n)
    {
      if tie(items[n]) < tie(items[least]) {
        least := n;
      }
    }
    var selected := [items[least]];
    var remaining := Without(items, items[least]);
    while |selected| < count
      invariant selected != []
      invariant Select(d, tie, items, count) == Grow(d, tie, selected, remaining, count)
      decreases count - |selected|
    {
      if remaining == [] {
        return Err(NothingLeft);
      }
      var best := 0;
      for n := 1 to |remaining|
        invariant best < n && best == FarthestIndex(d, tie, selected, remaining, n)
      {
        if ScoreLess(d, tie, selected, remaining[best], remaining[n]) {
          best := n;
        }
      }
      var chosen := remaining[best];
      selected := selected + [chosen];
      remaining := RemoveFirst(remaining, chosen);
    }
    return Ok(selected);
  }

  // ---- What the selection guarantees -----------------------------------------------

  /** Every element after the first was, when chosen, as far as any item from its
      predecessors. */
  ghost predicate GreedySequence<T(!new)>(d: (T, T) -> real, items: seq<T>, chosen: seq<T>) {
    forall i, x :: 1 <= i < |chosen| && x in items ==> Nearest(d, chosen[..i], x) <= Nearest(d, chosen[..i], chosen[i])
  }

  /** The partial state of the loop. */
  ghost predicate Partial<T(!new)>(d: (T, T) -> real, items: seq<T>, chosen: seq<T>, remaining: seq<T>) {
    && chosen != []
    && GreedySequence(d, items, chosen)
    && (forall x :: x in items <==> x in chosen || x in remaining)
    && Distinct(chosen) && Distinct(remaining)
    && (forall x :: x in chosen ==> x !in remaining)
    && |chosen| + |remaining| == |items|
  }

  lemma {:induction false} RemoveFirstDistinct<T(!new)>(s: seq<T>, x: T)
    requires Distinct(s)
    ensures Distinct(RemoveFirst(s, x)) && x !in RemoveFirst(s, x)
  {
    if s == [] {
    } else if s[0] == x {
      assert forall i, j :: 0 <= i < j < |s[1..]| ==> s[1..][i] == s[i + 1] && s[1..][j] == s[j + 1];
    } else {
      assert forall i, j :: 0 <= i < j < |s[1..]| ==> s[1..][i] == s[i + 1] && s[1..][j] == s[j + 1];
      RemoveFirstDistinct(s[1..], x);
      assert s[0] !in s[1..];
      PrependDistinct(s[0], RemoveFirst(s[1..], x));
    }
  }

  lemma PrependDistinct<T(!new)>(x: T, s: seq<T>)
    requires Distinct(s) && x !in s
    ensures Distinct([x] + s)
  {
  }

  lemma AppendDistinct<T(!new)>(s: seq<T>, x: T)
    requires Distinct(s) && x !in s
    ensures Distinct(s + [x])
  {
  }

  lemma {:induction false} WithoutIsRemoveFirst<T(!new)>(s: seq<T>, x: T)
    requires Distinct(s)
    ensures Without(s, x) == RemoveFirst(s, x)
  {
    if s != [] {
      WithoutIsRemoveFirst(s[1..], x);
      if s[0] == x {
        assert x !in s[1..];
        WithoutAbsent(s[1..], x);
      }
    }
  }

  lemma {:induction false} WithoutAbsent<T(!new)>(s: seq<T>, x: T)
    requires x !in s
    ensures Without(s, x) == s
  {
    if s != [] {
      WithoutAbsent(s[1..], x);
    }
  }

  lemma NearestZero<T(!new)>(d: (T, T) -> real, chosen: seq<T>, x: T)
    requires Pseudometric(d) && x in chosen
    ensures Nearest(d, chosen, x) == 0.0
  {
    var i :| 0 <= i < |chosen| && chosen[i] == x;
    var arg := NearestIsLeast(d, chosen, x);
    assert Nearest(d, chosen, x) <= d(x, chosen[i]) == d(x, x);
  }

  lemma NearestNonNegative<T(!new)>(d: (T, T) -> real, chosen: seq<T>, x: T)
    requires Pseudometric(d) && chosen != []
    ensures Nearest(d, chosen, x) >= 0.0
  {
    var arg := NearestIsLeast(d, chosen, x);
  }

  /** One greedy step keeps the loop state. */
  lemma StepKeepsPartial<T(!new)>(d: (T, T) -> real, tie: T -> nat, items: seq<T>, chosen: seq<T>, remaining: seq<T>)
    requires Pseudometric(d) && Partial(d, items, chosen, remaining) && remaining != []
    ensures
      var next := remaining[FarthestIndex(d, tie, chosen, remaining, |remaining|)];
      Partial(d, items, chosen + [next], RemoveFirst(remaining, next))
  {
    var next := remaining[FarthestIndex(d, tie, chosen, remaining, |remaining|)];
    forall x | x in items
      ensures Nearest(d, chosen, x) <= Nearest(d, chosen, next)
    {
      if x in chosen {
        NearestZero(d, chosen, x);
        NearestNonNegative(d, chosen, next);
      } else {
        var j :| 0 <= j < |remaining| && remaining[j] == x;
      }
    }
    hide *;
    ExtendGreedy(d, items, chosen, next) by { PartialIsGreedy(d, items, chosen, remaining); }
    MoveAcross(d, items, chosen, remaining, next);
  }

  lemma PartialIsGreedy<T(!new)>(d: (T, T) -> real, items: seq<T>, chosen: seq<T>, remaining: seq<T>)
    requires Partial(d, items, chosen, remaining)
    ensures chosen != [] && GreedySequence(d, items, chosen)
  {
  }

  lemma ExtendGreedy<T(!new)>(d: (T, T) -> real, items: seq<T>, chosen: seq<T>, next: T)
    requires chosen != [] && GreedySequence(d, items, chosen)
    requires forall x :: x in items ==> Nearest(d, chosen, x) <= Nearest(d, chosen, next)
    ensures GreedySequence(d, items, chosen + [next])
  {
    var grown := chosen + [next];
    forall i, x | 1 <= i < |grown| && x in items
      ensures Nearest(d, grown[..i], x) <= Nearest(d, grown[..i], grown[i])
    {
      assert grown[..|chosen|] == chosen;
      if i < |chosen| {
        assert grown[..i] == chosen[..i];
      }
    }
  }

  lemma MoveAcross<T(!new)>(d: (T, T) -> real, items: seq<T>, chosen: seq<T>, remaining: seq<T>, next: T)
    requires Partial(d, items, chosen, remaining) && next in remaining
    requires GreedySequence(d, items, chosen + [next])
    ensures Partial(d, items, chosen + [next], RemoveFirst(remaining, next))
  {
    hide Nearest, GreedySequence;
    RemoveFirstDistinct(remaining, next);
    AppendDistinct(chosen, next);
  }

  lemma {:induction false} GrowFacts<T(!new)>(d: (T, T) -> real, tie: T -> nat, items: seq<T>, chosen: seq<T>,
                                              remaining: seq<T>, count: int)
    requires Pseudometric(d) && Partial(d, items, chosen, remaining)
    requires |chosen| <= count <= |items|
    ensures var r := Grow(d, tie, chosen, remaining, count);
      r.Ok? && |r.value| == count && Distinct(r.value) && GreedySequence(d, items, r.value)
      && (forall x :: x in r.value ==> x in items)
    decreases count - |chosen|
  {
    if |chosen| < count {
      var next := remaining[FarthestIndex(d, tie, chosen, remaining, |remaining|)];
      StepKeepsPartial(d, tie, items, chosen, remaining);
      GrowFacts(d, tie, items, chosen + [next], RemoveFirst(remaining, next), count);
    }
  }

  lemma SeedPartial<T(!new)>(d: (T, T) -> real, tie: T -> nat, items: seq<T>)
    requires items != [] && Distinct(items)
    ensures var seed := items[SeedIndex(tie, items, |items|)];
      Partial(d, items, [seed], Without(items, seed))
  {
    var seed := items[SeedIndex(tie, items, |items|)];
    WithoutIsRemoveFirst(items, seed);
    RemoveFirstDistinct(items, seed);
  }

  /** On distinct items the selection succeeds, has exactly `count` distinct members of
      the items, and is greedy. */
  lemma SelectFacts<T(!new)>(d: (T, T) -> real, tie: T -> nat, items: seq<T>, count: int)
    requires Pseudometric(d) && Distinct(items) && 1 <= count <= |items|
    ensures var r := Select(d, tie, items, count);
      r.Ok? && |r.value| == count && Distinct(r.value) && GreedySequence(d, items, r.value)
      && (forall x :: x in r.value ==> x in items)
  {
    var seed := items[SeedIndex(tie, items, |items|)];
    SeedPartial(d, tie, items);
    GrowFacts(d, tie, items, [seed], Without(items, seed), count);
  }

  lemma {:induction false} GrowPrefix<T(!new)>(d: (T, T) -> real, tie: T -> nat, chosen: seq<T>, remaining: seq<T>,
                                               count: int, larger: int)
    requires chosen != [] && |chosen| <= count <= larger
    requires Grow(d, tie, chosen, remaining, larger).Ok?
    ensures Grow(d, tie, chosen, remaining, count).Ok?
    ensures Grow(d, tie, chosen, remaining, count).value <= Grow(d, tie, chosen, remaining, larger).value
    decreases larger - |chosen|
  {
    if |chosen| < larger {
      var next := remaining[FarthestIndex(d, tie, chosen, remaining, |remaining|)];
      var grown := chosen + [next];
      if |chosen| < count {
        GrowPrefix(d, tie, grown, RemoveFirst(remaining, next), count, larger);
      } else {
        GrowPrefix(d, tie, grown, RemoveFirst(remaining, next), |grown|, larger);
        assert chosen <= grown;
      }
    }
  }

  /** Asking for more items only extends the selection. */
  lemma SelectionsNest<T(!new)>(d: (T, T) -> real, tie: T -> nat, items: seq<T>, count: int, larger: int)
    requires Pseudometric(d) && Distinct(items) && 1 <= count <= larger <= |items|
    ensures Select(d, tie, items, count).Ok? && Select(d, tie, items, larger).Ok?
    ensures Select(d, tie, items, count).value <= Select(d, tie, items, larger).value
  {
    SelectFacts(d, tie, items, larger);
    var seed := items[SeedIndex(tie, items, |items|)];
    GrowPrefix(d, tie, [seed], Without(items, seed), count, larger);
  }

  // ---- Which items are selected ----------------------------------------------------

  /** The members of `kept` stand in the items at the ascending places `at`. */
  ghost predicate StandAt<T(!new)>(items: seq<T>, at: seq<nat>, kept: seq<T>) {
    && |at| == |kept|
    && (forall k :: 0 <= k < |at| ==> at[k] < |items| && items[at[k]] == kept[k])
    && forall k, l :: 0 <= k < l < |at| ==> at[k] < at[l]
  }

  /** The item at place i ranks before the item at place j: it is farther from the chosen ones, or as
      far with a greater digest, or alike in both and listed no later. */
  ghost predicate RanksBefore<T(!new)>(d: (T, T) -> real, tie: T -> nat, items: seq<T>, chosen: seq<T>, i: nat, j: nat)
    requires chosen != [] && i < |items| && j < |items|
  {
    var near, other := Nearest(d, chosen, items[i]), Nearest(d, chosen, items[j]);
    near > other || (near == other && (tie(items[i]) > tie(items[j]) || (tie(items[i]) == tie(items[j]) && i <= j)))
  }

  /** Place j is still open after the picks: it was not picked, and does not hold the first pick. */
  ghost predicate IsOpen<T(!new)>(items: seq<T>, picks: seq<nat>, j: nat)
    requires picks != []
  {
    j < |items| && j !in picks && picks[0] < |items| && items[j] != items[picks[0]]
  }

  /** The first pick has the least digest of all items, and is the earliest of those that have it. */
  ghost predicate IsSeed<T(!new)>(tie: T -> nat, items: seq<T>, i: nat) {
    i < |items| && forall j: nat :: j < |items| ==>
      tie(items[i]) < tie(items[j]) || (tie(items[i]) == tie(items[j]) && i <= j)
  }

  /** Pick k was open and ranked before every other open place. */
  ghost predicate IsBestPick<T(!new)>(d: (T, T) -> real, tie: T -> nat, items: seq<T>, picks: seq<nat>, chosen: seq<T>,
                                      k: nat)
    requires 1 <= k < |picks| && |chosen| == |picks|
  {
    && IsOpen(items, picks[..k], picks[k])
    && forall j: nat :: IsOpen(items, picks[..k], j) ==> RanksBefore(d, tie, items, chosen[..k], picks[k], j)
  }

  /** The chosen items stand at the picks, each the best one when it was picked. */
  ghost predicate IsRanked<T(!new)>(d: (T, T) -> real, tie: T -> nat, items: seq<T>, picks: seq<nat>, chosen: seq<T>) {
    && |picks| == |chosen| > 0
    && (forall k :: 0 <= k < |picks| ==> picks[k] < |items| && items[picks[k]] == chosen[k])
    && IsSeed(tie, items, picks[0])
    && forall k :: 1 <= k < |picks| ==> IsBestPick(d, tie, items, picks, chosen, k)
  }

  /** The ranked selection of `count` items, or of one where none are asked for. */
  ghost predicate IsRankedSelection<T(!new)>(d: (T, T) -> real, tie: T -> nat, items: seq<T>, count: int,
                                             chosen: seq<T>) {
    |chosen| == Larger(count, 1) && exists picks :: IsRanked(d, tie, items, picks, chosen)
  }

  /** The earliest index of greatest score. */
  lemma {:induction false} FarthestIsBest<T(!new)>(d: (T, T) -> real, tie: T -> nat, chosen: seq<T>, remaining: seq<T>,
                                                   n: nat)
    requires chosen != [] && 0 < n <= |remaining|
    ensures var b := FarthestIndex(d, tie, chosen, remaining, n);
      && (forall k :: 0 <= k < n ==> !ScoreLess(d, tie, chosen, remaining[b], remaining[k]))
      && (forall k :: 0 <= k < b ==> ScoreLess(d, tie, chosen, remaining[k], remaining[b]))
  {
    if n > 1 {
      FarthestIsBest(d, tie, chosen, remaining, n - 1);
    }
  }

  lemma {:induction false} RemoveFirstAt<T(!new)>(s: seq<T>, b: nat)
    requires b < |s| && forall k :: 0 <= k < b ==> s[k] != s[b]
    ensures RemoveFirst(s, s[b]) == s[..b] + s[b + 1..]
  {
    if b > 0 {
      RemoveFirstAt(s[1..], b - 1);
    }
  }

  lemma {:induction false} WithoutStands<T(!new)>(items: seq<T>, x: T) returns (at: seq<nat>)
    ensures StandAt(items, at, Without(items, x))
    ensures forall j: nat :: j in at <==> j < |items| && items[j] != x
  {
    if items == [] {
      at := [];
    } else {
      var rest := WithoutStands(items[1..], x);
      at := if items[0] == x then Shifted(rest) else [0] + Shifted(rest);
      ShiftedIn(rest);
      hide Shifted;
      forall j: nat ensures j in at <==> j < |items| && items[j] != x {
        if 0 < j < |items| {
          assert items[1..][j - 1] == items[j];
        }
      }
      ShiftedStands(items, rest, Without(items[1..], x));
    }
  }

  ghost function Shifted(at: seq<nat>): seq<nat> {
    seq(|at|, k requires 0 <= k < |at| => at[k] + 1)
  }

  lemma ShiftedIn(at: seq<nat>)
    ensures forall j: nat :: j in Shifted(at) <==> j > 0 && j - 1 in at
  {
    forall j: nat | j > 0 && j - 1 in at ensures j in Shifted(at) {
      var k :| 0 <= k < |at| && at[k] == j - 1;
      assert Shifted(at)[k] == j;
    }
  }

  lemma ShiftedStands<T(!new)>(items: seq<T>, at: seq<nat>, kept: seq<T>)
    requires items != [] && StandAt(items[1..], at, kept)
    ensures StandAt(items, Shifted(at), kept)
    ensures StandAt(items, [0] + Shifted(at), [items[0]] + kept)
  {
  }

  lemma ExtendRanked<T(!new)>(d: (T, T) -> real, tie: T -> nat, items: seq<T>, picks: seq<nat>, chosen: seq<T>, i: nat)
    requires IsRanked(d, tie, items, picks, chosen) && IsOpen(items, picks, i)
    requires forall j: nat :: IsOpen(items, picks, j) ==> RanksBefore(d, tie, items, chosen, i, j)
    ensures IsRanked(d, tie, items, picks + [i], chosen + [items[i]])
  {
    var grown, longer := picks + [i], chosen + [items[i]];
    hide Nearest, RanksBefore, IsSeed;
    forall k | 1 <= k < |grown| ensures IsBestPick(d, tie, items, grown, longer, k) {
      assert grown[..|picks|] == picks && longer[..|picks|] == chosen;
      if k < |picks| {
        assert IsBestPick(d, tie, items, picks, chosen, k);
        assert grown[..k] == picks[..k] && longer[..k] == chosen[..k];
      }
    }
  }

  /** The best of the remaining items ranks before every open place. */
  lemma BestRanksFirst<T(!new)>(d: (T, T) -> real, tie: T -> nat, items: seq<T>, chosen: seq<T>, at: seq<nat>,
                                remaining: seq<T>, b: nat)
    requires chosen != [] && StandAt(items, at, remaining) && b < |remaining|
    requires forall k :: 0 <= k < |remaining| ==> !ScoreLess(d, tie, chosen, remaining[b], remaining[k])
    requires forall k :: 0 <= k < b ==> ScoreLess(d, tie, chosen, remaining[k], remaining[b])
    ensures forall k :: 0 <= k < |at| ==> RanksBefore(d, tie, items, chosen, at[b], at[k])
    ensures forall k :: 0 <= k < b ==> remaining[k] != remaining[b]
  {
    hide Nearest;
    forall k | 0 <= k < |at| ensures RanksBefore(d, tie, items, chosen, at[b], at[k]) {
      assert !ScoreLess(d, tie, chosen, remaining[b], remaining[k]);
      if k < b {
        assert ScoreLess(d, tie, chosen, remaining[k], remaining[b]);
      }
    }
  }

  lemma DropPlace<T(!new)>(items: seq<T>, at: seq<nat>, remaining: seq<T>, b: nat)
    requires StandAt(items, at, remaining) && b < |at|
    ensures StandAt(items, at[..b] + at[b + 1..], remaining[..b] + remaining[b + 1..])
    ensures forall j: nat :: j in at[..b] + at[b + 1..] <==> j in at && j != at[b]
  {
    forall j: nat | j in at && j != at[b] ensures j in at[..b] + at[b + 1..] {
      var k :| 0 <= k < |at| && at[k] == j;
      assert if k < b then (at[..b] + at[b + 1..])[k] == j else (at[..b] + at[b + 1..])[k - 1] == j;
    }
  }

  lemma {:induction false} GrowRanked<T(!new)>(d: (T, T) -> real, tie: T -> nat, items: seq<T>, picks: seq<nat>,
                                               chosen: seq<T>, at: seq<nat>, remaining: seq<T>, count: int)
    requires IsRanked(d, tie, items, picks, chosen) && StandAt(items, at, remaining)
    requires forall j: nat :: j in at <==> IsOpen(items, picks, j)
    ensures var r := Grow(d, tie, chosen, remaining, count);
      && (r.Ok? <==> count <= |chosen| + |remaining|) && r != Err(CountExceedsItems)
      && (r.Ok? ==> |r.value| == Larger(count, |chosen|)
                    && exists all :: IsRanked(d, tie, items, all, r.value))
    decreases count - |chosen|
  {
    assert chosen != [];
    if |chosen| < count && remaining != [] {
      var b := FarthestIndex(d, tie, chosen, remaining, |remaining|);
      hide *;
      PickRanked(d, tie, items, picks, chosen, at, remaining, b);
      GrowNext(d, tie, chosen, remaining, count, b);
      GrowRanked(d, tie, items, picks + [at[b]], chosen + [remaining[b]], at[..b] + at[b + 1..],
                 remaining[..b] + remaining[b + 1..], count);
    } else {
      hide IsRanked;
    }
  }

  /** One pass of the loop. */
  lemma GrowNext<T(!new)>(d: (T, T) -> real, tie: T -> nat, chosen: seq<T>, remaining: seq<T>, count: int, b: nat)
    requires chosen != [] && |chosen| < count && b < |remaining|
    requires b == FarthestIndex(d, tie, chosen, remaining, |remaining|)
    ensures Grow(d, tie, chosen, remaining, count)
         == Grow(d, tie, chosen + [remaining[b]], remaining[..b] + remaining[b + 1..], count)
  {
    FarthestIsBest(d, tie, chosen, remaining, |remaining|);
    hide FarthestIndex, Nearest;
    RemoveFirstAt(remaining, b);
  }

  /** The item that the loop takes is the best pick. */
  lemma PickRanked<T(!new)>(d: (T, T) -> real, tie: T -> nat, items: seq<T>, picks: seq<nat>, chosen: seq<T>,
                            at: seq<nat>, remaining: seq<T>, b: nat)
    requires chosen != [] && b < |remaining|
    requires b == FarthestIndex(d, tie, chosen, remaining, |remaining|)
    requires IsRanked(d, tie, items, picks, chosen) && StandAt(items, at, remaining)
    requires forall j: nat :: j in at <==> IsOpen(items, picks, j)
    ensures b < |at| == |remaining|
    ensures IsRanked(d, tie, items, picks + [at[b]], chosen + [remaining[b]])
    ensures StandAt(items, at[..b] + at[b + 1..], remaining[..b] + remaining[b + 1..])
    ensures forall j: nat :: j in at[..b] + at[b + 1..] <==> IsOpen(items, picks + [at[b]], j)
  {
    assert picks != [];
    FarthestIsBest(d, tie, chosen, remaining, |remaining|);
    hide *;
    StandSizes(items, at, remaining);
    StandsThere(items, at, remaining, b);
    BestRanksFirst(d, tie, items, chosen, at, remaining, b);
    DropPlace(items, at, remaining, b);
    OpenAfter(items, picks, at[b]);
    assert at[b] in at;
    forall j: nat | IsOpen(items, picks, j) ensures j < |items| && RanksBefore(d, tie, items, chosen, at[b], j) {
      assert j in at;
    }
    ExtendRanked(d, tie, items, picks, chosen, at[b]);
  }

  lemma StandSizes<T(!new)>(items: seq<T>, at: seq<nat>, kept: seq<T>)
    requires StandAt(items, at, kept)
    ensures |at| == |kept| && forall k :: 0 <= k < |at| ==> at[k] < |items|
  {
  }

  lemma StandsThere<T(!new)>(items: seq<T>, at: seq<nat>, kept: seq<T>, k: nat)
    requires StandAt(items, at, kept) && k < |kept|
    ensures |at| == |kept| && at[k] < |items| && items[at[k]] == kept[k]
  {
  }

  lemma OpenAfter<T(!new)>(items: seq<T>, picks: seq<nat>, i: nat)
    requires picks != []
    ensures forall j: nat :: IsOpen(items, picks + [i], j) <==> IsOpen(items, picks, j) && j != i
  {
  }

  /** The picks: the first has the least digest; each later one is, among the open places, farthest from
      the items chosen before it, of the greatest digest among the equally far, and the earliest among
      equals.  A selection exists exactly when enough places differ from the seed. */
  lemma SelectionIsRanked<T(!new)>(d: (T, T) -> real, tie: T -> nat, items: seq<T>, count: int)
    ensures var r := Select(d, tie, items, count);
      && (r == Err(CountExceedsItems) <==> count > |items|)
      && (r.Ok? ==> IsRankedSelection(d, tie, items, count, r.value))
      && (r.Ok? <==> count <= |items| && items != [] && count <= 1 + |Unlike(items, SeedOf(tie, items))|)
  {
    hide Grow, Without, Nearest, IsRanked, StandAt, IsSeed, SeedOf;
    if count <= |items| && items != [] {
      var i := SeedOf(tie, items);
      SelectFromSeed(d, tie, items, count, i);
      var at := WithoutStands(items, items[i]);
      hide Select;
      SeedIsRanked(d, tie, items, i);
      GrowRanked(d, tie, items, [i], [items[i]], at, Without(items, items[i]), count);
      PlacesCount(items, at, Without(items, items[i]), Unlike(items, i));
    }
  }

  lemma SelectFromSeed<T(!new)>(d: (T, T) -> real, tie: T -> nat, items: seq<T>, count: int, i: nat)
    requires count <= |items| && items != [] && i == SeedOf(tie, items)
    ensures i < |items| && Select(d, tie, items, count) == Grow(d, tie, [items[i]], Without(items, items[i]), count)
  {
    hide Grow, Without;
  }

  /** The place of the seed. */
  ghost function SeedOf<T(!new)>(tie: T -> nat, items: seq<T>): (i: nat)
    requires items != []
    ensures i < |items| && IsSeed(tie, items, i)
    ensures forall k :: IsSeed(tie, items, k) ==> k == i
  {
    SeedIndex(tie, items, |items|)
  }

  /** The places whose items differ from the one at place i. */
  ghost function Unlike<T(!new)>(items: seq<T>, i: nat): set<nat>
    requires i < |items|
  {
    set j: nat | j < |items| && items[j] != items[i]
  }

  lemma SeedIsRanked<T(!new)>(d: (T, T) -> real, tie: T -> nat, items: seq<T>, i: nat)
    requires IsSeed(tie, items, i)
    ensures IsRanked(d, tie, items, [i], [items[i]])
    ensures forall j: nat :: IsOpen(items, [i], j) <==> j < |items| && items[j] != items[i]
  {
  }

  lemma PlacesCount<T(!new)>(items: seq<T>, at: seq<nat>, kept: seq<T>, places: set<nat>)
    requires StandAt(items, at, kept) && forall j: nat :: j in places <==> j in at
    ensures |places| == |kept|
  {
    assert Distinct(at);
    MembersOfDistinct(at);
    assert places == Members(at);
  }

  /** Nothing else is ranked: the picks of a given number are determined. */
  lemma {:induction false} RankedIsUnique<T(!new)>(d: (T, T) -> real, tie: T -> nat, items: seq<T>, picks: seq<nat>,
                                                   chosen: seq<T>, other: seq<nat>, others: seq<T>, n: nat)
    requires IsRanked(d, tie, items, picks, chosen) && IsRanked(d, tie, items, other, others)
    requires n <= |picks| && n <= |other|
    ensures picks[..n] == other[..n] && chosen[..n] == others[..n]
  {
    hide Nearest;
    if n > 0 {
      var k := n - 1;
      RankedIsUnique(d, tie, items, picks, chosen, other, others, k);
      if k > 0 {
        assert IsBestPick(d, tie, items, picks, chosen, k) && IsBestPick(d, tie, items, other, others, k);
        assert RanksBefore(d, tie, items, chosen[..k], picks[k], other[k]);
        assert RanksBefore(d, tie, items, chosen[..k], other[k], picks[k]);
      }
      assert picks[..n] == picks[..k] + [picks[k]] && other[..n] == other[..k] + [other[k]];
      assert chosen[..n] == chosen[..k] + [chosen[k]] && others[..n] == others[..k] + [others[k]];
    }
  }

  // ---- Covering radius -------------------------------------------------------------

  /** The item worst served by the centres. */
  ghost function WorstServed<T(!new)>(d: (T, T) -> real, items: seq<T>, centres: seq<T>): (q: T)
    requires items != [] && centres != []
    ensures q in items
    ensures forall x :: x in items ==> Nearest(d, centres, x) <= Nearest(d, centres, q)
  {
    var last := |items| - 1;
    if last == 0 then items[0]
    else
      var q := WorstServed(d, items[..last], centres);
      assert forall x :: x in items ==> x in items[..last] || x == items[last];
      if Nearest(d, centres, q) < Nearest(d, centres, items[last]) then items[last] else q
  }

  ghost function CoveringRadius<T(!new)>(d: (T, T) -> real, items: seq<T>, centres: seq<T>): real
    requires items != [] && centres != []
  {
    Nearest(d, centres, WorstServed(d, items, centres))
  }

  lemma {:induction false} NearestShrinks<T(!new)>(d: (T, T) -> real, chosen: seq<T>, i: nat, x: T)
    requires 1 <= i <= |chosen|
    ensures Nearest(d, chosen, x) <= Nearest(d, chosen[..i], x)
  {
    var j := NearestIsLeast(d, chosen[..i], x);
    var arg := NearestIsLeast(d, chosen, x);
    assert chosen[..i][j] == chosen[j];
  }

  /** A greedy selection is a packing at its own covering radius. */
  lemma GreedyIsPacking<T(!new)>(d: (T, T) -> real, items: seq<T>, chosen: seq<T>, i: nat, j: nat)
    requires Pseudometric(d) && items != [] && chosen != []
    requires GreedySequence(d, items, chosen) && i < j < |chosen|
    ensures d(chosen[i], chosen[j]) >= CoveringRadius(d, items, chosen)
  {
    var q := WorstServed(d, items, chosen);
    NearestShrinks(d, chosen, j, q);
    var arg := NearestIsLeast(d, chosen[..j], chosen[j]);
    assert chosen[..j][i] == chosen[i];
    assert Nearest(d, chosen[..j], chosen[j]) <= d(chosen[j], chosen[..j][i]);
  }

  lemma NearestAttained<T(!new)>(d: (T, T) -> real, centres: seq<T>, x: T)
    requires centres != []
    ensures exists i :: 0 <= i < |centres| && Nearest(d, centres, x) == d(x, centres[i])
  {
    var arg := NearestIsLeast(d, centres, x);
  }

  /** The nearest centre of a point, as an index. */
  ghost function NearestCentre<T(!new)>(d: (T, T) -> real, centres: seq<T>, x: T): (i: int)
    requires centres != []
    ensures 0 <= i < |centres| && Nearest(d, centres, x) == d(x, centres[i])
  {
    NearestAttained(d, centres, x);
    var i :| 0 <= i < |centres| && Nearest(d, centres, x) == d(x, centres[i]);
    i
  }

  /** Two packed points served by one centre bound the packing distance. */
  lemma SharedCentre<T(!new)>(d: (T, T) -> real, items: seq<T>, centres: seq<T>, x: T, y: T)
    requires Pseudometric(d) && items != [] && centres != [] && x in items && y in items
    requires NearestCentre(d, centres, x) == NearestCentre(d, centres, y)
    ensures d(x, y) <= 2.0 * CoveringRadius(d, items, centres)
  {
    var c := centres[NearestCentre(d, centres, x)];
    assert d(x, y) <= d(x, c) + d(c, y);
    assert d(c, y) == d(y, c);
  }

  /** The factor-2 guarantee: no set of at most `count` centres, drawn from anywhere in
      the space, covers the items with less than half the radius of the selection. */
  lemma FarthestIsTwoApproximation<T(!new)>(d: (T, T) -> real, tie: T -> nat, items: seq<T>, count: int,
                                            centres: seq<T>)
    requires Pseudometric(d) && Distinct(items) && 1 <= count <= |items|
    requires 1 <= |centres| <= count
    ensures Select(d, tie, items, count).Ok? && |Select(d, tie, items, count).value| == count
    ensures CoveringRadius(d, items, Select(d, tie, items, count).value) <= 2.0 * CoveringRadius(d, items, centres)
  {
    SelectFacts(d, tie, items, count);
    var chosen := Select(d, tie, items, count).value;
    hide *;
    var points := chosen + [WorstServed(d, items, chosen)];
    var i, j := TwoPointsShareCentre(d, centres, points);
    SharedCentre(d, items, centres, points[i], points[j]);
    WorstServedExtendsPacking(d, items, chosen, i, j);
  }

  /** More points than centres: two points have the same nearest centre. */
  lemma TwoPointsShareCentre<T(!new)>(d: (T, T) -> real, centres: seq<T>, points: seq<T>) returns (i: nat, j: nat)
    requires 1 <= |centres| < |points|
    ensures i < j < |points| && NearestCentre(d, centres, points[i]) == NearestCentre(d, centres, points[j])
  {
    var labels := seq(|points|, k requires 0 <= k < |points| => NearestCentre(d, centres, points[k]));
    i, j := RepeatedLabel(labels, |centres|);
  }

  /** The worst-served item keeps its distance too. */
  lemma WorstServedExtendsPacking<T(!new)>(d: (T, T) -> real, items: seq<T>, chosen: seq<T>, i: nat, j: nat)
    requires Pseudometric(d) && items != [] && chosen != [] && GreedySequence(d, items, chosen)
    requires i < j <= |chosen|
    ensures var points := chosen + [WorstServed(d, items, chosen)];
      d(points[i], points[j]) >= CoveringRadius(d, items, chosen)
  {
    if j < |chosen| {
      GreedyIsPacking(d, items, chosen, i, j);
    } else {
      var q := WorstServed(d, items, chosen);
      var arg := NearestIsLeast(d, chosen, q);
      assert Nearest(d, chosen, q) <= d(q, chosen[i]);
      assert d(q, chosen[i]) == d(chosen[i], q);
    }
  }

  /** Pairwise separation of the selection. */
  lemma SelectionIsSeparated<T(!new)>(d: (T, T) -> real, tie: T -> nat, items: seq<T>, count: int, i: nat, j: nat)
    requires Pseudometric(d) && Distinct(items) && i < j < count <= |items|
    ensures var r := Select(d, tie, items, count);
      r.Ok? && |r.value| == count && d(r.value[i], r.value[j]) >= CoveringRadius(d, items, r.value)
  {
    SelectFacts(d, tie, items, count);
    GreedyIsPacking(d, items, Select(d, tie, items, count).value, i, j);
  }

  // ---- Balanced subsets ------------------------------------------------------------

  function Keep<T(!new)>(items: seq<T>, want: T -> bool): (r: seq<T>)
    ensures forall x :: x in r ==> x in items && want(x)
  {
    if items == [] then []
    else Keep(items[..|items| - 1], want) + if want(items[|items| - 1]) then [items[|items| - 1]] else []
  }

  /** The places of the wanted items. */
  ghost predicate AreWanted<T(!new)>(items: seq<T>, want: T -> bool, at: seq<nat>) {
    forall j: nat :: j in at <==> j < |items| && want(items[j])
  }

  /** The kept items are exactly the wanted ones, in their order. */
  lemma {:induction false} KeepStands<T(!new)>(items: seq<T>, want: T -> bool) returns (at: seq<nat>)
    ensures StandAt(items, at, Keep(items, want)) && AreWanted(items, want, at)
  {
    at := [];
    if items != [] {
      hide StandAt, AreWanted;
      at := KeepStands(items[..|items| - 1], want);
      StandsLonger(items, at, Keep(items[..|items| - 1], want));
      WantedNext(items, want, at);
      if want(items[|items| - 1]) {
        at := at + [|items| - 1];
      }
    }
  }

  lemma WantedNext<T(!new)>(items: seq<T>, want: T -> bool, at: seq<nat>)
    requires items != [] && AreWanted(items[..|items| - 1], want, at)
    ensures AreWanted(items, want, if want(items[|items| - 1]) then at + [|items| - 1] else at)
  {
  }

  lemma StandsLonger<T(!new)>(items: seq<T>, at: seq<nat>, kept: seq<T>)
    requires items != [] && StandAt(items[..|items| - 1], at, kept)
    ensures StandAt(items, at, kept)
    ensures StandAt(items, at + [|items| - 1], kept + [items[|items| - 1]])
  {
  }

  lemma {:induction false} KeepDistinct<T(!new)>(items: seq<T>, want: T -> bool)
    requires Distinct(items)
    ensures Distinct(Keep(items, want))
  {
    if items != [] {
      KeepDistinct(items[..|items| - 1], want);
    }
  }

  function Binary<T>(classes: T -> int): T -> bool {
    x => classes(x) == 2
  }

  function Multiclass<T>(classes: T -> int): T -> bool {
    x => classes(x) > 2
  }

  /** `balanced_subset` before its final sort by identifier; the metric is scaled to the items it
      is applied to, and each half has its own tie-break. */
  function Balanced<T(==, !new)>(metric: seq<T> -> ((T, T) -> real), binaryTie: T -> nat, multiTie: T -> nat,
                                 classes: T -> int, datasets: seq<T>, count: int): Result<seq<T>, SelectionError>
  {
    var binary, multi := Keep(datasets, Binary(classes)), Keep(datasets, Multiclass(classes));
    match Select(metric(binary), binaryTie, binary, count / 2)
    case Err(e) => Err(e)
    case Ok(first) =>
      match Select(metric(multi), multiTie, multi, count - count / 2)
      case Err(e) => Err(e)
      case Ok(second) => Ok(first + second)
  }

  /** Whatever the count, at least one item is selected. */
  lemma SelectSize<T(!new)>(d: (T, T) -> real, tie: T -> nat, items: seq<T>, count: int)
    requires Pseudometric(d) && Distinct(items)
    ensures var r := Select(d, tie, items, count);
      && (r.Ok? <==> count <= |items| && items != [])
      && (r.Ok? ==> |r.value| == (if count < 1 then 1 else count)
                    && Distinct(r.value) && forall x :: x in r.value ==> x in items)
  {
    if 1 <= count <= |items| {
      SelectFacts(d, tie, items, count);
    }
  }

  function Larger(a: int, b: int): int {
    if a < b then b else a
  }

  /** A balanced subset exists exactly when both halves can be filled, holds distinct data sets of
      the two kinds, and has the requested size exactly when two or more were requested. */
  lemma BalancedSizeExactly<T(!new)>(metric: seq<T> -> ((T, T) -> real), binaryTie: T -> nat, multiTie: T -> nat,
                                     classes: T -> int, datasets: seq<T>, count: int)
    requires Distinct(datasets) && forall items :: Pseudometric(metric(items))
    ensures var r := Balanced(metric, binaryTie, multiTie, classes, datasets, count);
      var binary, multi := Keep(datasets, Binary(classes)), Keep(datasets, Multiclass(classes));
      && (r.Ok? <==> binary != [] && multi != [] && count / 2 <= |binary| && count - count / 2 <= |multi|)
      && (r.Ok? ==>
            var half := Larger(count / 2, 1);
            && Distinct(r.value) && half < |r.value|
            && (forall i :: 0 <= i < |r.value| ==>
                  if i < half then classes(r.value[i]) == 2 else classes(r.value[i]) > 2)
            && (|r.value| == count <==> count >= 2))
  {
    hide *;
    var binary, multi := Keep(datasets, Binary(classes)), Keep(datasets, Multiclass(classes));
    KeepDistinct(datasets, Binary(classes));
    KeepDistinct(datasets, Multiclass(classes));
    SelectSize(metric(binary), binaryTie, binary, count / 2);
    SelectSize(metric(multi), multiTie, multi, count - count / 2);
    BalancedOutcome(metric, binaryTie, multiTie, classes, datasets, count);
    if Balanced(metric, binaryTie, multiTie, classes, datasets, count).Ok? {
      var b, m, first, second := Halves(metric, binaryTie, multiTie, classes, datasets, count);
      KindsOf(classes, datasets);
      DisjointDistinct(first, second, classes);
      BalancedSize(count, |first|, |second|);
    }
  }

  lemma BalancedSize(count: int, first: nat, second: nat)
    requires first == if count / 2 < 1 then 1 else count / 2
    requires second == if count - count / 2 < 1 then 1 else count - count / 2
    ensures first == Larger(count / 2, 1) && second > 0
    ensures first + second == count <==> count >= 2
  {
  }

  lemma KindsOf<T(!new)>(classes: T -> int, datasets: seq<T>)
    ensures forall x :: x in Keep(datasets, Binary(classes)) ==> classes(x) == 2
    ensures forall x :: x in Keep(datasets, Multiclass(classes)) ==> classes(x) > 2
  {
    hide Keep;
  }

  lemma BalancedOutcome<T(!new)>(metric: seq<T> -> ((T, T) -> real), binaryTie: T -> nat, multiTie: T -> nat,
                                 classes: T -> int, datasets: seq<T>, count: int)
    ensures
      var binary, multi := Keep(datasets, Binary(classes)), Keep(datasets, Multiclass(classes));
      Balanced(metric, binaryTie, multiTie, classes, datasets, count).Ok?
      <==>
      && Select(metric(binary), binaryTie, binary, count / 2).Ok?
      && Select(metric(multi), multiTie, multi, count - count / 2).Ok?
  {
    hide Keep, Select, Binary, Multiclass;
  }


  /** Each half is the ranked selection among the data sets of its kind, in its own metric and with its
      own digests. */
  lemma BalancedHalvesAreRanked<T(!new)>(metric: seq<T> -> ((T, T) -> real), binaryTie: T -> nat, multiTie: T -> nat,
                                         classes: T -> int, datasets: seq<T>, count: int)
    returns (binary: seq<T>, multi: seq<T>, first: seq<T>, second: seq<T>)
    requires Balanced(metric, binaryTie, multiTie, classes, datasets, count).Ok?
    ensures IsFiltered(datasets, Binary(classes), binary) && IsFiltered(datasets, Multiclass(classes), multi)
    ensures IsRankedSelection(metric(binary), binaryTie, binary, count / 2, first)
    ensures IsRankedSelection(metric(multi), multiTie, multi, count - count / 2, second)
    ensures Balanced(metric, binaryTie, multiTie, classes, datasets, count).value == first + second
  {
    hide *;
    binary, multi, first, second := Halves(metric, binaryTie, multiTie, classes, datasets, count);
    KeepIsFiltered(datasets, Binary(classes));
    KeepIsFiltered(datasets, Multiclass(classes));
    SelectionIsRanked(metric(binary), binaryTie, binary, count / 2);
    SelectionIsRanked(metric(multi), multiTie, multi, count - count / 2);
  }

  lemma Halves<T(!new)>(metric: seq<T> -> ((T, T) -> real), binaryTie: T -> nat, multiTie: T -> nat,
                        classes: T -> int, datasets: seq<T>, count: int)
    returns (binary: seq<T>, multi: seq<T>, first: seq<T>, second: seq<T>)
    requires Balanced(metric, binaryTie, multiTie, classes, datasets, count).Ok?
    ensures binary == Keep(datasets, Binary(classes)) && multi == Keep(datasets, Multiclass(classes))
    ensures Select(metric(binary), binaryTie, binary, count / 2) == Ok(first)
    ensures Select(metric(multi), multiTie, multi, count - count / 2) == Ok(second)
    ensures Balanced(metric, binaryTie, multiTie, classes, datasets, count).value == first + second
  {
    hide Keep, Select, Binary, Multiclass;
    binary, multi := Keep(datasets, Binary(classes)), Keep(datasets, Multiclass(classes));
    first := Select(metric(binary), binaryTie, binary, count / 2).value;
    second := Select(metric(multi), multiTie, multi, count - count / 2).value;
  }

  /** The kept items are the wanted ones, each as often and in the order in which they are listed. */
  ghost predicate IsFiltered<T(!new)>(items: seq<T>, want: T -> bool, kept: seq<T>) {
    exists at :: StandAt(items, at, kept) && AreWanted(items, want, at)
  }

  lemma KeepIsFiltered<T(!new)>(items: seq<T>, want: T -> bool)
    ensures IsFiltered(items, want, Keep(items, want))
  {
    var at := KeepStands(items, want);
    hide StandAt, Keep;
    assert AreWanted(items, want, at);
  }

  lemma DisjointDistinct<T(!new)>(first: seq<T>, second: seq<T>, classes: T -> int)
    requires Distinct(first) && Distinct(second)
    requires (forall x :: x in first ==> classes(x) == 2) && (forall x :: x in second ==> classes(x) > 2)
    ensures Distinct(first + second)
    ensures forall i :: 0 <= i < |first + second| ==>
      if i < |first| then classes((first + second)[i]) == 2 else classes((first + second)[i]) > 2
  {
    var all := first + second;
    forall i | 0 <= i < |all| ensures if i < |first| then classes(all[i]) == 2 else classes(all[i]) > 2 {
      if i < |first| {
        assert all[i] in first;
      } else {
        assert all[i] in second;
      }
    }
  }

  /** One data set of each kind and a count of one: two are selected. */
  lemma CountOfOneSelectsTwo()
    ensures var r := Balanced((_: seq<nat>) => Together, IdentityTie, IdentityTie, IdentityClasses, [2, 3], 1);
      r.Ok? && |r.value| == 2
  {
    BalancedSizeExactly((_: seq<nat>) => Together, IdentityTie, IdentityTie, IdentityClasses, [2, 3], 1);
    var binary, multi := Keep([2, 3], Binary(IdentityClasses)), Keep([2, 3], Multiclass(IdentityClasses));
    assert [2, 3][..1] == [2] && [2][..0] == [];
    assert binary == [2] && multi == [3];
  }

  function Together(x: nat, y: nat): real {
    0.0
  }

  function IdentityTie(x: nat): nat {
    x
  }

  function IdentityClasses(x: nat): int {
    x
  }
}
