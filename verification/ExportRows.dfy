/** What an accepted child export holds and in which order, spelled out row by row. */
module ExportRows {
  import opened Results
  import opened FiniteSets
  import opened ModelSubsets
  import opened Sorting
  import opened ChildExport

  // ---- Acceptance ------------------------------------------------------------------

  predicate IsShare(name: string) {
    || name == "before_balanced_accuracy" || name == "after_balanced_accuracy"
    || name == "before_roc_auc" || name == "after_roc_auc"
  }

  /** A finite number in the range of its metric: balanced accuracies and areas under the curve lie between
      zero and one and other language metrics between minus one and one; a cross entropy is not negative and
      other vision metrics lie between zero and one. */
  predicate InRange(modality: Modality, name: string, metric: Metric) {
    && metric.Number?
    && (modality.Llm? ==> -1.0 <= metric.value <= 1.0)
    && (modality.Llm? && IsShare(name) ==> metric.value >= 0.0)
    && (modality.Vision? ==> metric.value >= 0.0)
    && (modality.Vision? && name != "clean_mean_cross_entropy" ==> metric.value <= 1.0)
  }

  /** A row for a nonempty selection of the models, a registered scale and a registered seed, with every
      registered metric, in range, and no other. */
  ghost predicate IsRegisteredRow(reg: Registry, item: Item) {
    && item.Row? && item.modelKeys != [] && IsSelection(item.modelKeys, reg.keys)
    && item.scale in reg.scales && item.seed in reg.seeds
    && item.metrics.Some?
    && (forall name :: name in item.metrics.value <==> name in reg.metricNames)
    && forall name :: name in item.metrics.value ==> InRange(reg.modality, name, item.metrics.value[name])
  }

  /** Two rows report on the same selection, scale and seed. */
  predicate SameCell(a: Item, b: Item) {
    a.Row? && b.Row? && a.modelKeys == b.modelKeys && a.scale == b.scale && a.seed == b.seed
  }

  lemma MetricInRange(modality: Modality, name: string, metric: Metric)
    ensures IsValidMetric(modality, name, metric) <==> InRange(modality, name, metric)
  {
  }

  lemma CellIsRegistered(reg: Registry, item: Item)
    requires item.Row?
    ensures CellOf(item) in ExpectedCells(reg)
       <==> item.modelKeys != [] && IsSelection(item.modelKeys, reg.keys) && item.scale in reg.scales
            && item.seed in reg.seeds
  {
    SubsetsAreTheSelections(reg.keys, |reg.keys|, item.modelKeys);
    hide SubsetsUpTo, IsSelection;
    if IsSelection(item.modelKeys, reg.keys) {
      ShorterSelection(item.modelKeys, reg.keys);
    }
  }

  lemma ValidExactly(reg: Registry, item: Item)
    ensures IsValidRow(reg, item) <==> IsRegisteredRow(reg, item)
  {
    hide ExpectedCells, IsSelection, IsValidMetric, InRange, CellOf;
    if item.Row? {
      CellIsRegistered(reg, item);
      forall name, metric ensures IsValidMetric(reg.modality, name, metric) <==> InRange(reg.modality, name, metric) {
        MetricInRange(reg.modality, name, metric);
      }
    }
  }

  /** Rows are accepted exactly when each is registered, no two are for the same cell, and every nonempty
      selection of the models has a row at every scale and seed. */
  lemma AcceptedExactly(reg: Registry, rows: seq<Item>)
    ensures ValidateRows(reg, rows).Ok?
       <==> && (forall i :: 0 <= i < |rows| ==> IsRegisteredRow(reg, rows[i]))
            && (forall i, j :: 0 <= i < j < |rows| ==> !SameCell(rows[i], rows[j]))
            && forall keys, scale, seed ::
                 keys != [] && IsSelection(keys, reg.keys) && scale in reg.scales && seed in reg.seeds ==>
                 HasRow(rows, keys, scale, seed)
  {
    AcceptsExactlyComplete(reg, rows);
    hide ValidateRows, ExpectedCells, IsValidRow, IsRegisteredRow, CellsOf, CellOf, IsSelection, HasRow, SameCell;
    forall i | 0 <= i < |rows| ensures IsValidRow(reg, rows[i]) <==> IsRegisteredRow(reg, rows[i]) {
      ValidExactly(reg, rows[i]);
    }
    if forall i :: 0 <= i < |rows| ==> IsRegisteredRow(reg, rows[i]) {
      forall i | 0 <= i < |rows| ensures rows[i].Row? {
        RegisteredIsRow(reg, rows[i]);
      }
      forall row | row in rows ensures IsValidRow(reg, row) {
        var i :| 0 <= i < |rows| && rows[i] == row;
      }
      DistinctExactly(rows);
      CellsAreExpected(reg, rows);
      CoveredExactly(reg, rows);
      FewCells(rows);
      if CellsOf(rows) == ExpectedCells(reg) && |rows| == |ExpectedCells(reg)| {
        assert |CellsOf(rows)| == |rows|;
      }
    }
  }

  lemma RegisteredIsRow(reg: Registry, item: Item)
    requires IsRegisteredRow(reg, item)
    ensures item.Row?
  {
  }

  /** There are as many cells as rows exactly when no two rows share one. */
  lemma DistinctExactly(rows: seq<Item>)
    requires forall i :: 0 <= i < |rows| ==> rows[i].Row?
    ensures |CellsOf(rows)| == |rows| <==> forall i, j :: 0 <= i < j < |rows| ==> !SameCell(rows[i], rows[j])
  {
    hide CellsOf;
    if |CellsOf(rows)| == |rows| {
      forall i, j | 0 <= i < j < |rows| ensures !SameCell(rows[i], rows[j]) {
        ImageSizeInjective(rows, i, j);
      }
    }
    if forall i, j :: 0 <= i < j < |rows| ==> !SameCell(rows[i], rows[j]) {
      AllCells(rows);
    }
  }

  lemma {:induction false} AllCells(rows: seq<Item>)
    requires forall i :: 0 <= i < |rows| ==> rows[i].Row?
    requires forall i, j :: 0 <= i < j < |rows| ==> !SameCell(rows[i], rows[j])
    ensures |CellsOf(rows)| == |rows|
  {
    if rows == [] {
      NoCells(rows);
    } else {
      var last := |rows| - 1;
      AllCells(rows[..last]);
      CellsNext(rows, last);
      assert rows[..last + 1] == rows;
      assert CellOf(rows[last]) !in CellsOf(rows[..last]);
    }
  }

  /** The rows cover the registered cells exactly when every combination has a row. */
  lemma CoveredExactly(reg: Registry, rows: seq<Item>)
    requires forall i :: 0 <= i < |rows| ==> rows[i].Row?
    ensures ExpectedCells(reg) <= CellsOf(rows)
       <==> forall keys, scale, seed ::
              keys != [] && IsSelection(keys, reg.keys) && scale in reg.scales && seed in reg.seeds ==>
              HasRow(rows, keys, scale, seed)
  {
    hide ExpectedCells, IsSelection, CellOf, CellsOf, HasRow;
    forall keys, scale, seed ensures Cell(keys, scale, seed) in CellsOf(rows) <==> HasRow(rows, keys, scale, seed) {
      RowOfCell(rows, keys, scale, seed);
    }
    forall keys, scale, seed
      ensures Cell(keys, scale, seed) in ExpectedCells(reg)
         <==> keys != [] && IsSelection(keys, reg.keys) && scale in reg.scales && seed in reg.seeds
    {
      CellIsRegistered(reg, Row(keys, scale, seed, None));
      CellOfRow(keys, scale, seed);
    }
    if ExpectedCells(reg) <= CellsOf(rows) {
      forall keys, scale, seed
        | keys != [] && IsSelection(keys, reg.keys) && scale in reg.scales && seed in reg.seeds
        ensures HasRow(rows, keys, scale, seed)
      {
        assert Cell(keys, scale, seed) in ExpectedCells(reg);
      }
    } else {
      var cell :| cell in ExpectedCells(reg) && cell !in CellsOf(rows);
      assert cell == Cell(cell.subset, cell.scale, cell.seed);
      assert !HasRow(rows, cell.subset, cell.scale, cell.seed);
    }
  }

  lemma CellOfRow(keys: seq<string>, scale: int, seed: int)
    ensures CellOf(Row(keys, scale, seed, None)) == Cell(keys, scale, seed)
  {
  }

  lemma RowOfCell(rows: seq<Item>, keys: seq<string>, scale: int, seed: int)
    requires forall i :: 0 <= i < |rows| ==> rows[i].Row?
    ensures Cell(keys, scale, seed) in CellsOf(rows) <==> HasRow(rows, keys, scale, seed)
  {
    hide CellOf;
  }

  ghost predicate HasRow(rows: seq<Item>, keys: seq<string>, scale: int, seed: int) {
    exists i :: 0 <= i < |rows| && rows[i].Row? && CellOf(rows[i]) == Cell(keys, scale, seed)
  }

  // ---- Order -----------------------------------------------------------------------

  /** The suite indices of one list of models come before those of another of the same length: they agree up
      to some place and are smaller there. */
  ghost predicate IndicesBefore(order: seq<string>, a: seq<string>, b: seq<string>) {
    exists p :: 0 <= p < |a| && p < |b| && Rank(order, a[p]) < Rank(order, b[p])
                && forall q :: 0 <= q < p ==> Rank(order, a[q]) == Rank(order, b[q])
  }

  ghost predicate IndicesAgree(order: seq<string>, a: seq<string>, b: seq<string>) {
    |a| == |b| && forall q :: 0 <= q < |a| ==> Rank(order, a[q]) == Rank(order, b[q])
  }

  /** Fewer models first; then the models' suite indices; then the scale; then the place of the seed. */
  ghost predicate ComesBefore(reg: Registry, a: Item, b: Item) {
    a.Row? && b.Row? &&
    (|a.modelKeys| < |b.modelKeys|
     || (|a.modelKeys| == |b.modelKeys|
         && (IndicesBefore(reg.order, a.modelKeys, b.modelKeys)
             || (IndicesAgree(reg.order, a.modelKeys, b.modelKeys)
                 && (a.scale < b.scale
                     || (a.scale == b.scale && Rank(reg.seeds, a.seed) <= Rank(reg.seeds, b.seed)))))))
  }

  lemma LexStep(x: int, y: int, a: seq<int>, b: seq<int>)
    ensures LexLe([x] + a, [y] + b) <==> x < y || (x == y && LexLe(a, b))
  {
    assert ([x] + a)[1..] == a && ([y] + b)[1..] == b;
  }

  lemma {:induction false} LexOfIndices(order: seq<string>, a: seq<string>, b: seq<string>, s: seq<int>, t: seq<int>)
    requires |a| == |b|
    ensures LexLe(Indices(order, a) + s, Indices(order, b) + t)
       <==> IndicesBefore(order, a, b) || (IndicesAgree(order, a, b) && LexLe(s, t))
  {
    if a == [] {
      assert Indices(order, a) + s == s && Indices(order, b) + t == t;
    } else {
      LexOfIndices(order, a[1..], b[1..], s, t);
      IndicesOfRest(order, a, s);
      IndicesOfRest(order, b, t);
      LexStep(Rank(order, a[0]), Rank(order, b[0]), Indices(order, a[1..]) + s, Indices(order, b[1..]) + t);
      hide LexLe, Indices, Rank;
      AgreeNext(order, a, b);
      BeforeNext(order, a, b);
    }
  }

  lemma IndicesOfRest(order: seq<string>, a: seq<string>, s: seq<int>)
    requires a != []
    ensures Indices(order, a) + s == [Rank(order, a[0])] + (Indices(order, a[1..]) + s)
  {
  }

  lemma AgreeNext(order: seq<string>, a: seq<string>, b: seq<string>)
    requires |a| == |b| > 0
    ensures IndicesAgree(order, a, b) <==> Rank(order, a[0]) == Rank(order, b[0]) && IndicesAgree(order, a[1..], b[1..])
  {
    hide Rank;
    if Rank(order, a[0]) == Rank(order, b[0]) && IndicesAgree(order, a[1..], b[1..]) {
      forall q | 0 <= q < |a| ensures Rank(order, a[q]) == Rank(order, b[q]) {
        if q > 0 {
          assert a[q] == a[1..][q - 1] && b[q] == b[1..][q - 1];
        }
      }
    }
  }

  lemma BeforeNext(order: seq<string>, a: seq<string>, b: seq<string>)
    requires |a| == |b| > 0
    ensures IndicesBefore(order, a, b)
       <==> Rank(order, a[0]) < Rank(order, b[0])
            || (Rank(order, a[0]) == Rank(order, b[0]) && IndicesBefore(order, a[1..], b[1..]))
  {
    hide Rank;
    if IndicesBefore(order, a, b) {
      var p :| 0 <= p < |a| && Rank(order, a[p]) < Rank(order, b[p])
               && forall q :: 0 <= q < p ==> Rank(order, a[q]) == Rank(order, b[q]);
      if p > 0 {
        assert a[1..][p - 1] == a[p] && b[1..][p - 1] == b[p];
        assert forall q :: 0 <= q < p - 1 ==> a[1..][q] == a[q + 1] && b[1..][q] == b[q + 1];
      }
    }
    if Rank(order, a[0]) == Rank(order, b[0]) && IndicesBefore(order, a[1..], b[1..]) {
      var p :| 0 <= p < |a[1..]| && Rank(order, a[1..][p]) < Rank(order, b[1..][p])
               && forall q :: 0 <= q < p ==> Rank(order, a[1..][q]) == Rank(order, b[1..][q]);
      assert a[p + 1] == a[1..][p] && b[p + 1] == b[1..][p];
      forall q | 0 <= q < p + 1 ensures Rank(order, a[q]) == Rank(order, b[q]) {
        if q > 0 {
          assert a[q] == a[1..][q - 1] && b[q] == b[1..][q - 1];
        }
      }
    }
  }

  /** The sort keys of two rows compare as the rows do in the suite. */
  lemma KeysCompareExactly(reg: Registry, a: Item, b: Item)
    requires a.Row? && b.Row?
    ensures LexLe(SortKey(reg, a), SortKey(reg, b)) <==> ComesBefore(reg, a, b)
  {
    var s, t := [a.scale, Rank(reg.seeds, a.seed)], [b.scale, Rank(reg.seeds, b.seed)];
    SortKeyOpens(reg, a);
    SortKeyOpens(reg, b);
    hide SortKey, Indices, Rank;
    LexStep(|a.modelKeys|, |b.modelKeys|, Indices(reg.order, a.modelKeys) + s, Indices(reg.order, b.modelKeys) + t);
    if |a.modelKeys| == |b.modelKeys| {
      LexOfIndices(reg.order, a.modelKeys, b.modelKeys, s, t);
      LexStep(a.scale, b.scale, [s[1]], [t[1]]);
      LexStep(s[1], t[1], [], []);
      assert s == [a.scale] + [s[1]] && t == [b.scale] + [t[1]] && [s[1]] == [s[1]] + [] && [t[1]] == [t[1]] + [];
    }
  }

  lemma SortKeyOpens(reg: Registry, a: Item)
    requires a.Row?
    ensures SortKey(reg, a)
         == [|a.modelKeys|] + (Indices(reg.order, a.modelKeys) + [a.scale, Rank(reg.seeds, a.seed)])
  {
    hide Indices, Rank;
  }

  /** The accepted export lists the given rows, each as often, in the order of the suite. */
  lemma ExportIsInSuiteOrder(reg: Registry, rows: seq<Item>)
    requires ValidateRows(reg, rows).Ok?
    ensures var out := ValidateRows(reg, rows).value;
      && multiset(out) == multiset(rows)
      && forall i, j :: 0 <= i < j < |out| ==> ComesBefore(reg, out[i], out[j])
  {
    AcceptedExactly(reg, rows);
    CanonicalIsSortedPermutation(reg, rows);
    AcceptedIsCanonical(reg, rows);
    hide *;
    var out := Canonical(reg, rows);
    forall i, j | 0 <= i < j < |out| ensures ComesBefore(reg, out[i], out[j]) {
      assert out[i] in multiset(rows) && out[j] in multiset(rows);
      RegisteredIsRow(reg, out[i]);
      RegisteredIsRow(reg, out[j]);
      KeysCompareExactly(reg, out[i], out[j]);
    }
  }

  lemma AcceptedIsCanonical(reg: Registry, rows: seq<Item>)
    requires ValidateRows(reg, rows).Ok?
    ensures ValidateRows(reg, rows).value == Canonical(reg, rows)
  {
    hide Canonical, FirstError, CellsOf, ExpectedCells;
  }
}
