/** Guessing values of released surfaces, from scripts/build_openml_decision_witnesses.py and
    its replay in scripts/analyze_openml_decision_witnesses.py: identity guessing by cell
    count, attribute guessing by cell majorities, and the garbling check between surfaces. */
module DecisionWitnesses {
  import opened Arithmetic
  import opened Results
  import opened FiniteSets

  datatype ValueError = LengthsDiffer | NoRecords

  // ---- The decision problem --------------------------------------------------------

  function Cells<O>(observations: seq<O>): set<O> {
    set o | o in observations
  }

  /** Records in the chosen cells whose label the rule guesses from the observation. */
  ghost function Correct<O(!new)>(observations: seq<O>, labels: seq<int>, cells: set<O>, rule: O -> int): nat
    requires |observations| == |labels|
  {
    if observations == [] then 0
    else
      var last := |observations| - 1;
      Correct(observations[..last], labels[..last], cells, rule)
      + if observations[last] in cells && labels[last] == rule(observations[last]) then 1 else 0
  }

  /** Records whose label the rule guesses. */
  ghost function Success<O(!new)>(observations: seq<O>, labels: seq<int>, rule: O -> int): nat
    requires |observations| == |labels|
  {
    Correct(observations, labels, Cells(observations), rule)
  }

  /** The greatest number of records that any rule guesses. */
  ghost predicate IsBestGuess<O(!new)>(observations: seq<O>, labels: seq<int>, total: nat)
    requires |observations| == |labels|
  {
    && (forall rule: O -> int :: Success(observations, labels, rule) <= total)
    && (exists rule: O -> int :: Success(observations, labels, rule) == total)
  }

  // ---- Majorities ------------------------------------------------------------------

  ghost function Hits<O(!new)>(observations: seq<O>, labels: seq<int>, o: O, tag: int): nat
    requires |observations| == |labels|
  {
    Correct(observations, labels, {o}, _ => tag)
  }

  lemma {:induction false} CorrectIsLocal<O(!new)>(observations: seq<O>, labels: seq<int>, cells: set<O>, f: O -> int,
                                                   g: O -> int)
    requires |observations| == |labels| && forall o :: o in cells ==> f(o) == g(o)
    ensures Correct(observations, labels, cells, f) == Correct(observations, labels, cells, g)
  {
    if observations != [] {
      CorrectIsLocal(observations[..|observations| - 1], labels[..|observations| - 1], cells, f, g);
    }
  }

  lemma {:induction false} CorrectSplits<O(!new)>(observations: seq<O>, labels: seq<int>, cells: set<O>, o: O,
                                                  rule: O -> int)
    requires |observations| == |labels| && o !in cells
    ensures Correct(observations, labels, cells + {o}, rule)
         == Correct(observations, labels, cells, rule) + Hits(observations, labels, o, rule(o))
  {
    if observations != [] {
      var last := |observations| - 1;
      CorrectSplits(observations[..last], labels[..last], cells, o, rule);
    }
  }

  lemma {:induction false} NothingInNoCells<O(!new)>(observations: seq<O>, labels: seq<int>, rule: O -> int)
    requires |observations| == |labels|
    ensures Correct(observations, labels, {}, rule) == 0
  {
    if observations != [] {
      NothingInNoCells(observations[..|observations| - 1], labels[..|observations| - 1], rule);
    }
  }

  /** Only the cells that occur matter. */
  lemma {:induction false} CorrectInMoreCells<O(!new)>(observations: seq<O>, labels: seq<int>, cells: set<O>,
                                                       more: set<O>, rule: O -> int)
    requires |observations| == |labels|
    requires forall i :: 0 <= i < |observations| ==> (observations[i] in cells <==> observations[i] in more)
    ensures Correct(observations, labels, cells, rule) == Correct(observations, labels, more, rule)
  {
    if observations != [] {
      CorrectInMoreCells(observations[..|observations| - 1], labels[..|observations| - 1], cells, more, rule);
    }
  }

  /** `counts` is one cell's Counter: exactly the labels that occur in it, with their counts. */
  ghost predicate IsCounter<O(!new)>(counts: map<int, nat>, observations: seq<O>, labels: seq<int>, o: O)
    requires |observations| == |labels|
  {
    forall tag: int ::
      && (tag in counts <==> Hits(observations, labels, o, tag) > 0)
      && (tag in counts ==> counts[tag] == Hits(observations, labels, o, tag))
  }

  ghost predicate AreCounters<O(!new)>(cells: map<O, map<int, nat>>, observations: seq<O>, labels: seq<int>)
    requires |observations| == |labels|
  {
    && (forall o: O :: o in cells <==> o in observations)
    && (forall o: O :: o in cells ==> IsCounter(cells[o], observations, labels, o))
  }

  lemma HitsNext<O(!new)>(observations: seq<O>, labels: seq<int>, n: nat, o: O, tag: int)
    requires |observations| == |labels| && n < |labels|
    ensures Hits(observations[..n + 1], labels[..n + 1], o, tag)
         == Hits(observations[..n], labels[..n], o, tag) + if observations[n] == o && labels[n] == tag then 1 else 0
  {
    assert observations[..n + 1][..n] == observations[..n] && labels[..n + 1][..n] == labels[..n];
  }

  lemma {:induction false} NoHits<O(!new)>(observations: seq<O>, labels: seq<int>, o: O, tag: int)
    requires |observations| == |labels| && o !in observations
    ensures Hits(observations, labels, o, tag) == 0
  {
    if observations != [] {
      NoHits(observations[..|observations| - 1], labels[..|observations| - 1], o, tag);
    }
  }

  lemma {:induction false} SomeHit<O(!new)>(observations: seq<O>, labels: seq<int>, i: nat)
    requires |observations| == |labels| && i < |labels|
    ensures Hits(observations, labels, observations[i], labels[i]) > 0
  {
    var last := |observations| - 1;
    if i < last {
      SomeHit(observations[..last], labels[..last], i);
    }
  }

  function Bump(counts: map<int, nat>, tag: int): map<int, nat> {
    counts[tag := if tag in counts then counts[tag] + 1 else 1]
  }

  lemma CounterNext<O(!new)>(counts: map<int, nat>, observations: seq<O>, labels: seq<int>, n: nat, o: O)
    requires |observations| == |labels| && n < |labels|
    requires IsCounter(counts, observations[..n], labels[..n], o)
    ensures IsCounter(if observations[n] == o then Bump(counts, labels[n]) else counts,
                      observations[..n + 1], labels[..n + 1], o)
  {
    hide Hits;
    var next := if observations[n] == o then Bump(counts, labels[n]) else counts;
    forall tag: int
      ensures tag in next <==> Hits(observations[..n + 1], labels[..n + 1], o, tag) > 0
      ensures tag in next ==> next[tag] == Hits(observations[..n + 1], labels[..n + 1], o, tag)
    {
      HitsNext(observations, labels, n, o, tag);
    }
  }

  lemma EmptyCounter<O(!new)>(observations: seq<O>, labels: seq<int>, o: O)
    requires |observations| == |labels| && o !in observations
    ensures IsCounter(map[], observations, labels, o)
  {
    hide Hits;
    forall tag: int ensures Hits(observations, labels, o, tag) == 0 {
      NoHits(observations, labels, o, tag);
    }
  }

  lemma CountersNext<O(!new)>(cells: map<O, map<int, nat>>, observations: seq<O>, labels: seq<int>, n: nat)
    requires |observations| == |labels| && n < |labels|
    requires AreCounters(cells, observations[..n], labels[..n])
    ensures AreCounters(Counted(cells, observations[n], labels[n]), observations[..n + 1], labels[..n + 1])
  {
    hide IsCounter, Bump;
    var next, seen := Counted(cells, observations[n], labels[n]), observations[n];
    assert observations[..n + 1] == observations[..n] + [seen];
    if seen !in cells {
      EmptyCounter(observations[..n], labels[..n], seen);
    }
    forall o: O | o in next ensures IsCounter(next[o], observations[..n + 1], labels[..n + 1], o) {
      CounterNext(if o in cells then cells[o] else map[], observations, labels, n, o);
    }
  }

  /** `cells[observation][label] += 1` on a defaultdict of Counters. */
  function Counted<O>(cells: map<O, map<int, nat>>, o: O, tag: int): map<O, map<int, nat>> {
    cells[o := Bump(if o in cells then cells[o] else map[], tag)]
  }

  method CountCells<O(==, !new)>(observations: seq<O>, labels: seq<int>) returns (cells: map<O, map<int, nat>>)
    requires |observations| == |labels|
    ensures AreCounters(cells, observations, labels)
  {
    hide IsCounter, Counted;
    cells := map[];
    for n := 0 to |labels|
      invariant AreCounters(cells, observations[..n], labels[..n])
    {
      CountersNext(cells, observations, labels, n);
      cells := Counted(cells, observations[n], labels[n]);
    }
    assert observations[..|labels|] == observations && labels[..|labels|] == labels;
  }

  lemma SomeKey(keys: set<int>)
    requires keys != {}
    ensures exists k: int :: k in keys
  {
    var k := AnyOf(keys);
  }

  /** `max(counts.values())` with a label that reaches it. */
  method Majority(counts: map<int, nat>) returns (most: nat, tag: int)
    requires counts.Keys != {}
    ensures tag in counts && counts[tag] == most
    ensures forall k :: k in counts ==> counts[k] <= most
  {
    var keys := counts.Keys;
    SomeKey(keys);
    tag :| tag in keys;
    most := counts[tag];
    keys := keys - {tag};
    while keys != {}
      invariant keys <= counts.Keys && tag in counts && counts[tag] == most
      invariant forall k :: k in counts && k !in keys ==> counts[k] <= most
      decreases |keys|
    {
      SomeKey(keys);
      var k :| k in keys;
      if counts[k] > most {
        tag, most := k, counts[k];
      }
      keys := keys - {k};
    }
  }

  ghost function Amended<O(!new)>(rule: O -> int, o: O, tag: int): O -> int {
    p => if p == o then tag else rule(p)
  }

  /** The rule is best on the cells summed so far. */
  ghost predicate IsBestOn<O(!new)>(observations: seq<O>, labels: seq<int>, cells: set<O>, rule: O -> int, total: nat)
    requires |observations| == |labels|
  {
    && Correct(observations, labels, cells, rule) == total
    && forall g: O -> int :: Correct(observations, labels, cells, g) <= total
  }

  lemma NextCell<O(!new)>(observations: seq<O>, labels: seq<int>, cells: set<O>, rule: O -> int, total: nat,
                          o: O, counts: map<int, nat>, most: nat, tag: int)
    requires |observations| == |labels| && o !in cells && IsBestOn(observations, labels, cells, rule, total)
    requires IsCounter(counts, observations, labels, o)
    requires tag in counts && counts[tag] == most && forall k :: k in counts ==> counts[k] <= most
    ensures IsBestOn(observations, labels, cells + {o}, Amended(rule, o, tag), total + most)
  {
    hide Hits, Correct;
    var better := Amended(rule, o, tag);
    CorrectSplits(observations, labels, cells, o, better);
    CorrectIsLocal(observations, labels, cells, better, rule);
    assert Hits(observations, labels, o, tag) == most;
    forall g: O -> int ensures Correct(observations, labels, cells + {o}, g) <= total + most {
      CorrectSplits(observations, labels, cells, o, g);
      assert g(o) in counts ==> counts[g(o)] == Hits(observations, labels, o, g(o));
    }
  }

  lemma BestOnNothing<O(!new)>(observations: seq<O>, labels: seq<int>, rule: O -> int)
    requires |observations| == |labels|
    ensures IsBestOn(observations, labels, {}, rule, 0)
  {
    hide Correct;
    forall g: O -> int ensures Correct(observations, labels, {}, g) == 0 {
      NothingInNoCells(observations, labels, g);
    }
  }

  lemma CounterHasKey<O(!new)>(counts: map<int, nat>, observations: seq<O>, labels: seq<int>, o: O)
    requires |observations| == |labels| && IsCounter(counts, observations, labels, o) && o in observations
    ensures counts.Keys != {}
  {
    hide Hits;
    var i :| 0 <= i < |observations| && observations[i] == o;
    SomeHit(observations, labels, i);
    assert labels[i] in counts;
  }

  /** `sum(max(counts.values()) for counts in cells.values())`. */
  method SumOfMajorities<O(==, !new)>(observations: seq<O>, labels: seq<int>, cells: map<O, map<int, nat>>)
      returns (total: nat)
    requires |observations| == |labels| && AreCounters(cells, observations, labels)
    ensures IsBestGuess(observations, labels, total)
  {
    hide *;
    total := 0;
    var keys := cells.Keys;
    ghost var rule: O -> int := _ => 0;
    BestOnNothing(observations, labels, rule);
    assert cells.Keys - keys == {};
    while keys != {}
      invariant keys <= cells.Keys
      invariant IsBestOn(observations, labels, cells.Keys - keys, rule, total)
      decreases |keys|
    {
      SomeCell(keys);
      var o :| o in keys;
      CellHasCounter(cells, observations, labels, o);
      var most, tag := Majority(cells[o]);
      NextCell(observations, labels, cells.Keys - keys, rule, total, o, cells[o], most, tag);
      assert (cells.Keys - keys) + {o} == cells.Keys - (keys - {o});
      total := total + most;
      rule, keys := Amended(rule, o, tag), keys - {o};
    }
    assert cells.Keys - keys == cells.Keys;
    CellsAreKeys(cells, observations, labels);
    BestOverall(observations, labels, rule, total);
  }

  lemma CellHasCounter<O(!new)>(cells: map<O, map<int, nat>>, observations: seq<O>, labels: seq<int>, o: O)
    requires |observations| == |labels| && AreCounters(cells, observations, labels) && o in cells
    ensures cells[o].Keys != {} && IsCounter(cells[o], observations, labels, o)
  {
    hide IsCounter;
    CounterHasKey(cells[o], observations, labels, o);
  }

  lemma CellsAreKeys<O(!new)>(cells: map<O, map<int, nat>>, observations: seq<O>, labels: seq<int>)
    requires |observations| == |labels| && AreCounters(cells, observations, labels)
    ensures cells.Keys == Cells(observations)
  {
    hide IsCounter;
  }

  lemma BestOverall<O(!new)>(observations: seq<O>, labels: seq<int>, rule: O -> int, total: nat)
    requires |observations| == |labels| && IsBestOn(observations, labels, Cells(observations), rule, total)
    ensures IsBestGuess(observations, labels, total)
  {
    hide Correct, Cells;
    assert Success(observations, labels, rule) == total;
  }

  lemma SomeCell<O(!new)>(keys: set<O>)
    requires keys != {}
    ensures exists o: O :: o in keys
  {
    var o := AnyOf(keys);
  }

  /** `attribute_value`: the success of the best rule that guesses the label from the observation. */
  method AttributeValue<O(==, !new)>(observations: seq<O>, labels: seq<int>) returns (r: Result<real, ValueError>)
    ensures r == Err(LengthsDiffer) <==> |observations| != |labels|
    ensures r == Err(NoRecords) <==> |observations| == |labels| == 0
    ensures r.Ok? ==> exists total: nat ::
        IsBestGuess(observations, labels, total) && r.value == total as real / |labels| as real
  {
    hide IsBestGuess, AreCounters;
    if |observations| != |labels| {
      return Err(LengthsDiffer);
    }
    var cells := CountCells(observations, labels);
    var total := SumOfMajorities(observations, labels, cells);
    if |labels| == 0 {
      return Err(NoRecords);
    }
    return Ok(total as real / |labels| as real);
  }

  // ---- Identity guessing -----------------------------------------------------------

  /** `exact_guess_value` on the records that the mask keeps. */
  function ExactGuessValue<O(==)>(selected: seq<O>): Result<real, ValueError> {
    if selected == [] then Err(NoRecords) else Ok(|Cells(selected)| as real / |selected| as real)
  }

  /** Where labels identify records, a cell holds at most one correctly guessed record. */
  lemma {:induction false} OneHitPerCell<O(!new)>(observations: seq<O>, labels: seq<int>, rule: O -> int)
      returns (guessed: set<O>)
    requires |observations| == |labels| && Distinct(labels)
    ensures guessed <= Cells(observations) && |guessed| == Success(observations, labels, rule)
    ensures forall o :: o in guessed ==> rule(o) in labels
  {
    guessed := {};
    if observations != [] {
      var last := |observations| - 1;
      guessed := OneHitPerCell(observations[..last], labels[..last], rule);
      GrowCells(observations, labels, rule);
      if labels[last] == rule(observations[last]) {
        assert observations[last] !in guessed;
        guessed := guessed + {observations[last]};
      }
    }
  }

  lemma GrowCells<O(!new)>(observations: seq<O>, labels: seq<int>, rule: O -> int)
    requires |observations| == |labels| > 0
    ensures var last := |observations| - 1;
      && Success(observations, labels, rule)
      == Success(observations[..last], labels[..last], rule)
        + (if labels[last] == rule(observations[last]) then 1 else 0)
      && Cells(observations) == Cells(observations[..last]) + {observations[last]}
  {
    var last := |observations| - 1;
    CorrectInMoreCells(observations[..last], labels[..last], Cells(observations[..last]), Cells(observations), rule);
    assert observations == observations[..last] + [observations[last]];
  }

  /** Guess, in each cell, the first record that showed it. */
  lemma {:induction false} FirstRecordRule<O(!new)>(observations: seq<O>, labels: seq<int>) returns (rule: O -> int)
    requires |observations| == |labels|
    ensures Success(observations, labels, rule) >= |Cells(observations)|
  {
    if observations == [] {
      rule := _ => 0;
    } else {
      var last := |observations| - 1;
      var o := observations[last];
      rule := FirstRecordRule(observations[..last], labels[..last]);
      if o !in observations[..last] {
        ghost var before := rule;
        rule := Amended(rule, o, labels[last]);
        CorrectIsLocal(observations[..last], labels[..last], Cells(observations[..last]), before, rule);
      }
      GrowCells(observations, labels, rule);
    }
  }

  /** Identity guessing by cell count is the best guess of a label that names the record. */
  lemma IdentityGuessIsCellCount<O(!new)>(observations: seq<O>, labels: seq<int>)
    requires |observations| == |labels| && Distinct(labels)
    ensures IsBestGuess(observations, labels, |Cells(observations)|)
  {
    hide Success, Cells;
    forall rule: O -> int ensures Success(observations, labels, rule) <= |Cells(observations)| {
      var guessed := OneHitPerCell(observations, labels, rule);
      SubsetSize(guessed, Cells(observations));
    }
    var rule := FirstRecordRule(observations, labels);
    assert Success(observations, labels, rule) == |Cells(observations)|;
  }

  // ---- Garblings -------------------------------------------------------------------

  /** One surface is a function of the other on the roster. */
  predicate IsGarbling<O(==), P(==)>(from: seq<O>, to: seq<P>)
    requires |from| == |to|
  {
    forall i, j :: 0 <= i < j < |from| && from[i] == from[j] ==> to[i] == to[j]
  }

  lemma {:induction false} SuccessOfComposite<O(!new), P(!new)>(from: seq<O>, to: seq<P>, labels: seq<int>,
                                                                h: O -> P, rule: P -> int)
    requires |from| == |to| == |labels| && forall i :: 0 <= i < |from| ==> to[i] == h(from[i])
    ensures Success(to, labels, rule) == Success(from, labels, o => rule(h(o)))
  {
    if from != [] {
      var last := |from| - 1;
      SuccessOfComposite(from[..last], to[..last], labels[..last], h, rule);
      GrowCells(to, labels, rule);
      GrowCells(from, labels, o => rule(h(o)));
    }
  }

  ghost function Partner<O(!new), P(!new)>(from: seq<O>, to: seq<P>, o: O): P
    requires |from| == |to| > 0
  {
    if i: nat :| i < |from| && from[i] == o then to[i] else to[0]
  }

  lemma GarblingIsAFunction<O(!new), P(!new)>(from: seq<O>, to: seq<P>)
    requires |from| == |to| > 0
    ensures IsGarbling(from, to) <==> forall i :: 0 <= i < |from| ==> to[i] == Partner(from, to, from[i])
  {
    if IsGarbling(from, to) {
      forall i | 0 <= i < |from| ensures to[i] == Partner(from, to, from[i]) {
        var k: nat :| k < |from| && from[k] == from[i] && to[k] == Partner(from, to, from[i]);
        assert k == i || k < i || i < k;
      }
    }
  }

  /** No attribute is guessed better from a function of a surface than from the surface. */
  lemma GarblingNeverHelps<O(!new), P(!new)>(from: seq<O>, to: seq<P>, labels: seq<int>, a: nat, b: nat)
    requires |from| == |to| == |labels| && IsGarbling(from, to)
    requires IsBestGuess(from, labels, a) && IsBestGuess(to, labels, b)
    ensures b <= a
  {
    hide Success, Partner;
    var rule: P -> int :| Success(to, labels, rule) == b;
    if from == [] {
      NoSuccess(to, labels, rule);
    } else {
      GarblingIsAFunction(from, to);
      SuccessOfComposite(from, to, labels, o => Partner(from, to, o), rule);
      var composite: O -> int := o => rule(Partner(from, to, o));
      assert Success(from, labels, composite) == b by {
        SuccessCongruent(from, labels, composite, o => rule((p => Partner(from, to, p))(o)));
      }
    }
  }

  lemma NoSuccess<P(!new)>(to: seq<P>, labels: seq<int>, rule: P -> int)
    requires |to| == |labels| == 0
    ensures Success(to, labels, rule) == 0
  {
  }

  lemma SuccessCongruent<O(!new)>(observations: seq<O>, labels: seq<int>, f: O -> int, g: O -> int)
    requires |observations| == |labels| && forall o: O :: f(o) == g(o)
    ensures Success(observations, labels, f) == Success(observations, labels, g)
  {
    CorrectIsLocal(observations, labels, Cells(observations), f, g);
  }

  function Positions(n: nat): (r: seq<int>)
    ensures |r| == n && Distinct(r)
  {
    seq(n, i => i)
  }

  /** The label surface has at most as many cells, and strictly fewer exactly when some label
      hides a difference of the leaf signatures. */
  lemma StrictSeparationExactly<O(!new), P(!new)>(from: seq<O>, to: seq<P>)
    requires |from| == |to| && IsGarbling(from, to)
    ensures |Cells(to)| <= |Cells(from)|
    ensures |Cells(to)| < |Cells(from)| <==> !IsGarbling(to, from)
  {
    hide Cells, IsBestGuess;
    var ids := Positions(|from|);
    IdentityGuessIsCellCount(from, ids);
    IdentityGuessIsCellCount(to, ids);
    GarblingNeverHelps(from, to, ids, |Cells(from)|, |Cells(to)|);
    if IsGarbling(to, from) {
      GarblingNeverHelps(to, from, ids, |Cells(to)|, |Cells(from)|);
    } else {
      MergedCell(from, to);
    }
  }

  lemma MergedCell<O(!new), P(!new)>(from: seq<O>, to: seq<P>)
    requires |from| == |to| && IsGarbling(from, to) && !IsGarbling(to, from)
    ensures |Cells(to)| < |Cells(from)|
  {
    var i, j :| 0 <= i < j < |from| && to[i] == to[j] && from[i] != from[j];
    var h := (o: O) => Partner(from, to, o);
    var rest := Cells(from) - {from[i]};
    hide Partner;
    GarblingIsAFunction(from, to);
    forall p | p in Cells(to) ensures p in Image(h, rest) {
      var k :| 0 <= k < |to| && to[k] == p;
      var source := if from[k] == from[i] then from[j] else from[k];
      assert source in rest && h(source) == p;
    }
    ImageNoLarger(h, rest);
    SubsetSize(Cells(to), Image(h, rest));
    assert from[i] in Cells(from);
  }

  // ---- The replay checks -----------------------------------------------------------

  /** Record i shows o on one surface and p on the other. */
  predicate Shows<O(==), P(==)>(from: seq<O>, to: seq<P>, i: int, o: O, p: P)
    requires |from| == |to|
  {
    0 <= i < |from| && from[i] == o && to[i] == p
  }

  predicate Holds<O, P(==)>(mapping: map<O, set<P>>, o: O, p: P) {
    o in mapping && p in mapping[o]
  }

  ghost predicate IsMapping<O(!new), P(!new)>(mapping: map<O, set<P>>, from: seq<O>, to: seq<P>)
    requires |from| == |to|
  {
    && (forall i :: 0 <= i < |from| ==> from[i] in mapping && to[i] in mapping[from[i]])
    && (forall o, p :: Holds(mapping, o, p) ==> exists i :: Shows(from, to, i, o, p))
    && (forall o :: o in mapping ==> |mapping[o]| > 0)
  }

  function Mapped<O, P>(mapping: map<O, set<P>>, o: O, p: P): map<O, set<P>> {
    mapping[o := (if o in mapping then mapping[o] else {}) + {p}]
  }

  lemma MappingNext<O(!new), P(!new)>(mapping: map<O, set<P>>, from: seq<O>, to: seq<P>, n: nat)
    requires |from| == |to| && n < |from| && IsMapping(mapping, from[..n], to[..n])
    ensures IsMapping(Mapped(mapping, from[n], to[n]), from[..n + 1], to[..n + 1])
  {
    var next, f, t := Mapped(mapping, from[n], to[n]), from[..n + 1], to[..n + 1];
    forall i | 0 <= i < |f| ensures f[i] in next && t[i] in next[f[i]] {
      if i < n {
        assert f[i] == from[..n][i] && t[i] == to[..n][i];
      }
    }
    forall o, p | Holds(next, o, p) ensures exists i :: Shows(f, t, i, o, p) {
      if Holds(mapping, o, p) {
        var i :| Shows(from[..n], to[..n], i, o, p);
        assert Shows(f, t, i, o, p);
      } else {
        assert Shows(f, t, n, o, p);
      }
    }
  }

  lemma SingletonMeansGarbling<O(!new), P(!new)>(mapping: map<O, set<P>>, from: seq<O>, to: seq<P>)
    requires |from| == |to| && IsMapping(mapping, from, to)
    ensures (forall o :: o in mapping ==> |mapping[o]| == 1) <==> IsGarbling(from, to)
  {
    if forall o :: o in mapping ==> |mapping[o]| == 1 {
      forall i, j | 0 <= i < j < |from| && from[i] == from[j] ensures to[i] == to[j] {
        SingletonMembers(mapping[from[i]], to[i], to[j]);
      }
    }
    if IsGarbling(from, to) {
      forall o | o in mapping ensures |mapping[o]| == 1 {
        OneValue(mapping, from, to, o);
      }
    }
  }

  lemma SingletonMembers<P>(s: set<P>, x: P, y: P)
    requires |s| == 1 && x in s && y in s
    ensures x == y
  {
    if x != y {
      SubsetSize({x, y}, s);
    }
  }

  lemma OneValue<O(!new), P(!new)>(mapping: map<O, set<P>>, from: seq<O>, to: seq<P>, o: O)
    requires |from| == |to| && IsMapping(mapping, from, to) && IsGarbling(from, to) && o in mapping
    ensures |mapping[o]| == 1
  {
    var p := AnyOf(mapping[o]);
    assert Holds(mapping, o, p);
    var i :| Shows(from, to, i, o, p);
    forall q | q in mapping[o] ensures q == p {
      assert Holds(mapping, o, q);
      var k :| Shows(from, to, k, o, q);
      assert k == i || k < i || i < k;
    }
    assert mapping[o] == {p};
  }

  /** `prediction_by_observation` and the test that every observation has one prediction. */
  method SubstitutionCheck<O(==, !new), P(==, !new)>(from: seq<O>, to: seq<P>) returns (garbling: bool)
    requires |from| == |to|
    ensures garbling <==> IsGarbling(from, to)
  {
    hide IsMapping, Mapped, IsGarbling;
    var mapping: map<O, set<P>> := map[];
    EmptyMapping<O, P>(from[..0], to[..0]);
    for n := 0 to |from|
      invariant IsMapping(mapping, from[..n], to[..n])
    {
      MappingNext(mapping, from, to, n);
      mapping := Mapped(mapping, from[n], to[n]);
    }
    assert from[..|from|] == from && to[..|to|] == to;
    SingletonMeansGarbling(mapping, from, to);
    garbling := forall o :: o in mapping ==> |mapping[o]| == 1;
  }

  lemma EmptyMapping<O(!new), P(!new)>(from: seq<O>, to: seq<P>)
    requires |from| == |to| == 0
    ensures IsMapping(map[], from, to)
  {
  }

  datatype Candidate = Candidate(labelValue: real, leafValue: real, gap: real)

  /** `substitution_candidates` for one release. */
  method SubstitutionCandidate<O(==, !new), P(==, !new)>(leaves: seq<O>, predictions: seq<P>)
    returns (r: Result<Option<Candidate>, ValueError>)
    ensures r == Err(LengthsDiffer) <==> |leaves| != |predictions|
    ensures r == Err(NoRecords) <==> |leaves| == |predictions| == 0
    ensures r.Ok? ==> (r.value.Some? <==> IsGarbling(leaves, predictions))
    ensures r.Ok? && r.value.Some? ==> var c := r.value.value;
      && Ok(c.labelValue) == ExactGuessValue(predictions) && Ok(c.leafValue) == ExactGuessValue(leaves)
      && c.gap == c.leafValue - c.labelValue >= 0.0
      && (c.gap > 0.0 <==> !IsGarbling(predictions, leaves))
  {
    if |leaves| != |predictions| {
      return Err(LengthsDiffer);
    }
    hide IsGarbling, Cells;
    var garbling := SubstitutionCheck(leaves, predictions);
    if !garbling {
      if |leaves| == 0 {
        EmptyIsGarbling(leaves, predictions);
      }
      return Ok(None);
    }
    var labelValue, leafValue := ExactGuessValue(predictions), ExactGuessValue(leaves);
    if labelValue.Err? || leafValue.Err? {
      return Err(NoRecords);
    }
    StrictSeparationExactly(leaves, predictions);
    ValueOrder(|Cells(predictions)|, |Cells(leaves)|, |leaves|);
    return Ok(Some(Candidate(labelValue.value, leafValue.value, leafValue.value - labelValue.value)));
  }

  lemma EmptyIsGarbling<O(!new), P(!new)>(from: seq<O>, to: seq<P>)
    requires |from| == |to| == 0
    ensures IsGarbling(from, to)
  {
  }

  // ---- Reversals -------------------------------------------------------------------

  /** A ranking reversal between identity and attribute guessing shows that neither surface is a
      function of the other. */
  lemma MetricReversalMeansIncomparable<O(!new), P(!new)>(left: seq<O>, right: seq<P>, labels: seq<int>, a: nat, b: nat)
    requires |left| == |right| == |labels| > 0
    requires IsBestGuess(left, labels, a) && IsBestGuess(right, labels, b)
    requires (Value(|Cells(left)|, |left|) - Value(|Cells(right)|, |left|))
      * (Value(a, |left|) - Value(b, |left|)) < 0.0
    ensures !IsGarbling(left, right) && !IsGarbling(right, left)
  {
    hide *;
    var n := |left|;
    ValueOrder(|Cells(left)|, |Cells(right)|, n);
    ValueOrder(a, b, n);
    OppositeSigns(Value(|Cells(left)|, n) - Value(|Cells(right)|, n), Value(a, n) - Value(b, n));
    if IsGarbling(left, right) {
      StrictSeparationExactly(left, right);
      GarblingNeverHelps(left, right, labels, a, b);
    }
    if IsGarbling(right, left) {
      StrictSeparationExactly(right, left);
      GarblingNeverHelps(right, left, labels, b, a);
    }
  }

  lemma ValueOrder(a: nat, b: nat, n: nat)
    requires n > 0
    ensures a < b <==> Value(a, n) < Value(b, n)
    ensures a > b <==> Value(a, n) > Value(b, n)
  {
    QuotientOrder(a as real, b as real, n as real);
    QuotientOrder(b as real, a as real, n as real);
  }

  lemma OppositeSigns(x: real, y: real)
    requires x * y < 0.0
    ensures x < 0.0 < y || y < 0.0 < x
  {
  }

  function Value(count: nat, n: nat): real
    requires n > 0
  {
    count as real / n as real
  }

  /** `observations[mask]`. */
  function Masked<O>(observations: seq<O>, mask: seq<bool>): seq<O>
    requires |observations| == |mask|
  {
    if mask == [] then []
    else
      var last := |mask| - 1;
      Masked(observations[..last], mask[..last]) + if mask[last] then [observations[last]] else []
  }

  /** Both surfaces keep the same records, so a garbling stays one on every subpopulation. */
  lemma {:induction false} MaskedPair<O(!new), P(!new)>(from: seq<O>, to: seq<P>, mask: seq<bool>, k: nat)
      returns (i: int)
    requires |from| == |to| == |mask| && k < |Masked(from, mask)|
    ensures |Masked(from, mask)| == |Masked(to, mask)|
    ensures Shows(from, to, i, Masked(from, mask)[k], Masked(to, mask)[k])
  {
    var last := |mask| - 1;
    MaskedLength(from[..last], to[..last], mask[..last]);
    if k < |Masked(from[..last], mask[..last])| {
      i := MaskedPair(from[..last], to[..last], mask[..last], k);
    } else {
      i := last;
    }
  }

  lemma {:induction false} MaskedLength<O(!new), P(!new)>(from: seq<O>, to: seq<P>, mask: seq<bool>)
    requires |from| == |to| == |mask|
    ensures |Masked(from, mask)| == |Masked(to, mask)|
  {
    if mask != [] {
      var last := |mask| - 1;
      MaskedLength(from[..last], to[..last], mask[..last]);
    }
  }

  lemma MaskedGarbling<O(!new), P(!new)>(from: seq<O>, to: seq<P>, mask: seq<bool>)
    requires |from| == |to| == |mask| && IsGarbling(from, to)
    ensures |Masked(from, mask)| == |Masked(to, mask)| && IsGarbling(Masked(from, mask), Masked(to, mask))
  {
    MaskedLength(from, to, mask);
    var f, t := Masked(from, mask), Masked(to, mask);
    hide Masked;
    forall j, k | 0 <= j < k < |f| && f[j] == f[k] ensures t[j] == t[k] {
      var i := MaskedPair(from, to, mask, j);
      var l := MaskedPair(from, to, mask, k);
      assert i == l || i < l || l < i;
    }
  }

  /** If two subpopulations rank the surfaces in opposite orders, neither surface is a function of
      the other. */
  lemma AnchorReversalMeansIncomparable<O(!new), P(!new)>(left: seq<O>, right: seq<P>, leftMask: seq<bool>,
                                                          rightMask: seq<bool>)
    requires |left| == |right| == |leftMask| == |rightMask|
    requires |Cells(Masked(left, leftMask))| > |Cells(Masked(right, leftMask))|
    requires |Cells(Masked(left, rightMask))| < |Cells(Masked(right, rightMask))|
    ensures !IsGarbling(left, right) && !IsGarbling(right, left)
  {
    hide Masked, Cells, IsGarbling;
    if IsGarbling(left, right) {
      MaskedGarbling(left, right, rightMask);
      StrictSeparationExactly(Masked(left, rightMask), Masked(right, rightMask));
    }
    if IsGarbling(right, left) {
      MaskedGarbling(right, left, leftMask);
      StrictSeparationExactly(Masked(right, leftMask), Masked(left, leftMask));
    }
  }
}
