/** The scalar rows of an untrusted child export: validation and canonical order, from
    scripts/run_composition_scaling_suite.py. */
module ChildExport {
  import opened Results
  import opened FiniteSets
  import opened ModelSubsets
  import opened Sorting

  datatype Metric = Number(value: real) | NotANumber

  /** One entry of `subset_scalars`; `metrics` is None when it is not an object. */
  datatype Item =
    | NotARow
    | Row(modelKeys: seq<string>, scale: int, seed: int, metrics: Option<map<string, Metric>>)

  datatype Cell = Cell(subset: seq<string>, scale: int, seed: int)

  datatype ExportError = CellCount | RowShape | CellUnknownOrRepeated | MetricKeys | MetricValue | Incomplete

  datatype Modality = Llm | Vision

  /** `order` lists all suite models, `keys` those of the modality. */
  datatype Registry = Registry(
    modality: Modality, order: seq<string>, keys: seq<string>, scales: seq<int>, seeds: seq<int>,
    metricNames: seq<string>)

  predicate IsRegistry(reg: Registry) {
    Distinct(reg.keys) && forall k :: k in reg.keys ==> k in reg.order
  }

  // ---- Cells and metrics -----------------------------------------------------------

  function ExpectedCells(reg: Registry): set<Cell> {
    set subset, scale, seed | subset in SubsetsUpTo(reg.keys, |reg.keys|) && scale in reg.scales && seed in reg.seeds
      :: Cell(subset, scale, seed)
  }

  function CellOf(item: Item): Cell {
    match item
    case NotARow => Cell([], 0, 0)
    case Row(keys, scale, seed, _) => Cell(keys, scale, seed)
  }

  const UNIT_METRICS: set<string> :=
    {"before_balanced_accuracy", "after_balanced_accuracy", "before_roc_auc", "after_roc_auc"}

  /** `_validate_metric_value`. */
  predicate IsValidMetric(modality: Modality, name: string, metric: Metric) {
    match metric
    case NotANumber => false
    case Number(x) =>
      match modality
      case Llm => if name in UNIT_METRICS then 0.0 <= x <= 1.0 else -1.0 <= x <= 1.0
      case Vision => if name == "clean_mean_cross_entropy" then x >= 0.0 else 0.0 <= x <= 1.0
  }

  predicate HasMetricKeys(reg: Registry, item: Item) {
    item.Row? && item.metrics.Some? && item.metrics.value.Keys == set name | name in reg.metricNames
  }

  predicate HasMetricValues(reg: Registry, item: Item) {
    item.Row? && item.metrics.Some?
    && forall name :: name in item.metrics.value ==> IsValidMetric(reg.modality, name, item.metrics.value[name])
  }

  predicate IsValidRow(reg: Registry, item: Item) {
    item.Row? && CellOf(item) in ExpectedCells(reg) && HasMetricKeys(reg, item) && HasMetricValues(reg, item)
  }

  // ---- Canonical order -------------------------------------------------------------

  function Indices(order: seq<string>, keys: seq<string>): (r: seq<int>)
    ensures |r| == |keys| && forall i :: 0 <= i < |keys| ==> r[i] == Rank(order, keys[i])
  {
    seq(|keys|, i requires 0 <= i < |keys| => Rank(order, keys[i]))
  }

  /** The sort key: number of models, their suite indices, the scale and the seed's index. */
  function SortKey(reg: Registry, item: Item): seq<int> {
    match item
    case NotARow => []
    case Row(keys, scale, seed, _) => [|keys|] + Indices(reg.order, keys) + [scale, Rank(reg.seeds, seed)]
  }

  /** The order of `copied_rows.sort(key=...)`. */
  function Before(reg: Registry): (Item, Item) -> bool {
    (a: Item, b: Item) => LexLe(SortKey(reg, a), SortKey(reg, b))
  }

  function Canonical(reg: Registry, rows: seq<Item>): seq<Item> {
    Sorted(Before(reg), rows)
  }

  lemma BeforeIsOrder(reg: Registry)
    ensures IsOrder(Before(reg))
  {
    KeyOrderIsOrder(item => SortKey(reg, item), Before(reg));
  }

  /** The canonical rows are the given rows in the order of their sort keys. */
  lemma CanonicalIsSortedPermutation(reg: Registry, rows: seq<Item>)
    ensures multiset(Canonical(reg, rows)) == multiset(rows)
    ensures forall i, j :: 0 <= i < j < |Canonical(reg, rows)| ==>
      LexLe(SortKey(reg, Canonical(reg, rows)[i]), SortKey(reg, Canonical(reg, rows)[j]))
    ensures IsSorted(Before(reg), Canonical(reg, rows))
  {
    hide IsOrder, Sorted, SortKey, LexLe;
    BeforeIsOrder(reg);
    SortedIsSortedPermutation(Before(reg), rows);
  }

  // ---- Acceptance ------------------------------------------------------------------

  function CellsOf(rows: seq<Item>): set<Cell> {
    set row | row in rows :: CellOf(row)
  }

  /** The verdict on row n when the cells above it are `observed`. */
  function RowError(reg: Registry, item: Item, observed: set<Cell>): Option<ExportError> {
    if !item.Row? then Some(RowShape)
    else if CellOf(item) !in ExpectedCells(reg) || CellOf(item) in observed then Some(CellUnknownOrRepeated)
    else if !HasMetricKeys(reg, item) then Some(MetricKeys)
    else if !HasMetricValues(reg, item) then Some(MetricValue)
    else None
  }

  /** The first error in the first n rows. */
  function FirstError(reg: Registry, rows: seq<Item>, n: nat): Option<ExportError>
    requires n <= |rows|
  {
    if n == 0 then None
    else if FirstError(reg, rows, n - 1).Some? then FirstError(reg, rows, n - 1)
    else RowError(reg, rows[n - 1], CellsOf(rows[..n - 1]))
  }

  function ValidateRows(reg: Registry, rows: seq<Item>): Result<seq<Item>, ExportError> {
    if |rows| != |ExpectedCells(reg)| then Err(CellCount)
    else if FirstError(reg, rows, |rows|).Some? then Err(FirstError(reg, rows, |rows|).value)
    else if CellsOf(rows) != ExpectedCells(reg) then Err(Incomplete)
    else Ok(Canonical(reg, rows))
  }

  lemma {:induction false} ErrorStays(reg: Registry, rows: seq<Item>, m: nat, n: nat)
    requires m <= n <= |rows| && FirstError(reg, rows, m).Some?
    ensures FirstError(reg, rows, n) == FirstError(reg, rows, m)
  {
    hide RowError;
    if m < n {
      ErrorStays(reg, rows, m, n - 1);
    }
  }

  lemma CellsNext(rows: seq<Item>, n: nat)
    requires n < |rows|
    ensures CellsOf(rows[..n + 1]) == CellsOf(rows[..n]) + {CellOf(rows[n])}
  {
    assert rows[..n + 1] == rows[..n] + [rows[n]];
  }

  /** The row loop of `validate_child_export` with the completeness check and the sort. */
  method ValidateChildRows(reg: Registry, rows: seq<Item>) returns (r: Result<seq<Item>, ExportError>)
    ensures r == ValidateRows(reg, rows)
  {
    hide ExpectedCells, HasMetricKeys, HasMetricValues, CellsOf, CellOf, Canonical;
    var expected := ExpectedCells(reg);
    if |rows| != |expected| {
      return Err(CellCount);
    }
    var observed: set<Cell> := {};
    var copied: seq<Item> := [];
    NoCells(rows[..0]);
    for n := 0 to |rows|
      invariant FirstError(reg, rows, n) == None
      invariant observed == CellsOf(rows[..n]) && copied == rows[..n]
    {
      var error := CheckRow(reg, rows[n], expected, observed);
      if error.Some? {
        ErrorStays(reg, rows, n + 1, |rows|);
        return Err(error.value);
      }
      CellsNext(rows, n);
      observed := observed + {CellOf(rows[n])};
      copied := copied + [rows[n]];
    }
    assert rows[..|rows|] == rows;
    if observed != expected {
      return Err(Incomplete);
    }
    return Ok(Canonical(reg, copied));
  }

  method CheckRow(reg: Registry, item: Item, expected: set<Cell>, observed: set<Cell>)
      returns (error: Option<ExportError>)
    requires expected == ExpectedCells(reg)
    ensures error == RowError(reg, item, observed)
  {
    hide ExpectedCells, HasMetricKeys, HasMetricValues, CellOf;
    if !item.Row? {
      return Some(RowShape);
    }
    var cell := CellOf(item);
    if cell !in expected || cell in observed {
      return Some(CellUnknownOrRepeated);
    }
    if !HasMetricKeys(reg, item) {
      return Some(MetricKeys);
    }
    if !HasMetricValues(reg, item) {
      return Some(MetricValue);
    }
    return None;
  }

  lemma NoCells(rows: seq<Item>)
    requires rows == []
    ensures CellsOf(rows) == {}
  {
  }

  /** No error in the first n rows means that they are valid and their cells distinct. */
  lemma {:induction false} CleanPrefix(reg: Registry, rows: seq<Item>, n: nat)
    requires n <= |rows|
    ensures FirstError(reg, rows, n).None?
       <==> (forall i :: 0 <= i < n ==> IsValidRow(reg, rows[i])) && |CellsOf(rows[..n])| == n
    ensures |CellsOf(rows[..n])| <= n
  {
    hide ExpectedCells, HasMetricKeys, HasMetricValues, CellsOf, CellOf;
    if n == 0 {
      NoCells(rows[..0]);
    } else {
      CleanPrefix(reg, rows, n - 1);
      CellsNext(rows, n - 1);
    }
  }

  /** What an accepted export is: valid rows whose cells are exactly the registered ones. */
  ghost predicate IsComplete(reg: Registry, rows: seq<Item>) {
    && |rows| == |ExpectedCells(reg)|
    && (forall row :: row in rows ==> IsValidRow(reg, row))
    && CellsOf(rows) == ExpectedCells(reg)
  }

  lemma CellsAreExpected(reg: Registry, rows: seq<Item>)
    requires forall i :: 0 <= i < |rows| ==> IsValidRow(reg, rows[i])
    ensures CellsOf(rows) <= ExpectedCells(reg)
  {
    hide ExpectedCells, HasMetricKeys, HasMetricValues, CellOf;
  }

  /** Acceptance is exactly completeness, and the final completeness check never fails. */
  lemma AcceptsExactlyComplete(reg: Registry, rows: seq<Item>)
    ensures ValidateRows(reg, rows).Ok? <==> IsComplete(reg, rows)
    ensures ValidateRows(reg, rows) != Err(Incomplete)
  {
    hide ExpectedCells, IsValidRow, CellsOf, FirstError, Canonical;
    assert rows[..|rows|] == rows;
    CleanPrefix(reg, rows, |rows|);
    FirstErrorIsARowError(reg, rows, |rows|);
    if |rows| == |ExpectedCells(reg)| && FirstError(reg, rows, |rows|).None? {
      CellsAreExpected(reg, rows);
      FullSubset(CellsOf(rows), ExpectedCells(reg));
    }
  }

  lemma {:induction false} FirstErrorIsARowError(reg: Registry, rows: seq<Item>, n: nat)
    requires n <= |rows|
    ensures FirstError(reg, rows, n) != Some(Incomplete)
  {
    hide ExpectedCells, HasMetricKeys, HasMetricValues, CellsOf, CellOf;
    if n > 0 {
      FirstErrorIsARowError(reg, rows, n - 1);
    }
  }

  lemma ImageSizeInjective(rows: seq<Item>, i: nat, j: nat)
    requires |CellsOf(rows)| == |rows| && i < j < |rows|
    ensures CellOf(rows[i]) != CellOf(rows[j])
  {
    hide CellOf;
    if CellOf(rows[i]) == CellOf(rows[j]) {
      var rest := rows[..i] + rows[i + 1..];
      forall row | row in rows ensures CellOf(row) in CellsOf(rest) {
        var k :| 0 <= k < |rows| && rows[k] == row;
        var kept := if k == i then j else k;
        assert rest[if kept < i then kept else kept - 1] == rows[kept];
      }
      assert CellsOf(rows) <= CellsOf(rest);
      SubsetSize(CellsOf(rows), CellsOf(rest));
      FewCells(rest);
    }
  }

  lemma {:induction false} FewCells(rows: seq<Item>)
    ensures |CellsOf(rows)| <= |rows|
  {
    hide CellOf;
    if rows == [] {
      NoCells(rows);
    } else {
      FewCells(rows[..|rows| - 1]);
      CellsNext(rows, |rows| - 1);
      assert rows[..|rows|] == rows;
    }
  }

  /** The rows of an accepted export are in bijection with the registered cells. */
  lemma AcceptedRowsMatchCells(reg: Registry, rows: seq<Item>, cell: Cell) returns (i: nat)
    requires ValidateRows(reg, rows).Ok? && cell in ExpectedCells(reg)
    ensures i < |rows| && CellOf(rows[i]) == cell
    ensures forall j :: 0 <= j < |rows| && CellOf(rows[j]) == cell ==> j == i
  {
    hide ExpectedCells, IsValidRow, ValidateRows, CellOf;
    AcceptsExactlyComplete(reg, rows);
    assert cell in CellsOf(rows);
    i :| 0 <= i < |rows| && CellOf(rows[i]) == cell;
    forall j | 0 <= j < |rows| && CellOf(rows[j]) == cell ensures j == i {
      if j < i {
        ImageSizeInjective(rows, j, i);
      } else if i < j {
        ImageSizeInjective(rows, i, j);
      }
    }
  }

  // ---- Canonicalisation ------------------------------------------------------------

  lemma {:induction false} SameIndices(order: seq<string>, a: seq<string>, b: seq<string>)
    requires (forall k :: k in a ==> k in order) && (forall k :: k in b ==> k in order)
    requires Indices(order, a) == Indices(order, b)
    ensures a == b
  {
    hide Rank, Indices;
    assert |a| == |Indices(order, a)| == |Indices(order, b)| == |b|;
    forall i | 0 <= i < |a| ensures a[i] == b[i] {
      assert a[i] in a && b[i] in b && Indices(order, a)[i] == Indices(order, b)[i];
      RankIsInjective(order, a[i], b[i]);
    }
  }

  lemma RegisteredParts(reg: Registry, item: Item)
    requires IsRegistry(reg) && IsValidRow(reg, item)
    ensures item.Row? && item.seed in reg.seeds && forall k :: k in item.modelKeys ==> k in reg.order
  {
    SubsetsAreTheSelections(reg.keys, |reg.keys|, item.modelKeys);
    hide SubsetsUpTo;
    ShorterSelection(item.modelKeys, reg.keys);
  }

  /** Registered cells with the same sort key are the same cell. */
  lemma SortKeyIdentifiesCell(reg: Registry, a: Item, b: Item)
    requires IsRegistry(reg) && IsValidRow(reg, a) && IsValidRow(reg, b) && SortKey(reg, a) == SortKey(reg, b)
    ensures CellOf(a) == CellOf(b)
  {
    RegisteredParts(reg, a);
    RegisteredParts(reg, b);
    hide IsRegistry, IsValidRow, Rank, Indices;
    var n, s, t := |a.modelKeys|, SortKey(reg, a), SortKey(reg, b);
    assert s[0] == n && t[0] == |b.modelKeys|;
    assert s[1..n + 1] == Indices(reg.order, a.modelKeys) && t[1..n + 1] == Indices(reg.order, b.modelKeys);
    assert s[n + 1] == a.scale && t[n + 1] == b.scale;
    assert s[n + 2] == Rank(reg.seeds, a.seed) && t[n + 2] == Rank(reg.seeds, b.seed);
    SameIndices(reg.order, a.modelKeys, b.modelKeys);
    RankIsInjective(reg.seeds, a.seed, b.seed);
  }

  lemma CompleteRowsAreIdentified(reg: Registry, rows: seq<Item>)
    requires IsRegistry(reg) && IsComplete(reg, rows)
    ensures Separates(Before(reg), rows)
  {
    hide IsRegistry, IsValidRow, SortKey, ExpectedCells, CellOf;
    forall a, b | a in rows && b in rows && Before(reg)(a, b) && Before(reg)(b, a) ensures a == b {
      LexAntisymmetric(SortKey(reg, a), SortKey(reg, b));
      SortKeyIdentifiesCell(reg, a, b);
      var i :| 0 <= i < |rows| && rows[i] == a;
      var j :| 0 <= j < |rows| && rows[j] == b;
      if i < j {
        ImageSizeInjective(rows, i, j);
      } else if j < i {
        ImageSizeInjective(rows, j, i);
      }
    }
  }

  lemma CompletenessIsPermutationInvariant(reg: Registry, a: seq<Item>, b: seq<Item>)
    requires multiset(a) == multiset(b) && IsComplete(reg, a)
    ensures IsComplete(reg, b)
  {
    hide IsValidRow, ExpectedCells, CellOf;
    SameSize(a, b);
    SameMembers(a, b);
  }

  /** Acceptance and the accepted result do not depend on the order of the rows. */
  lemma PermutationGivesSameExport(reg: Registry, a: seq<Item>, b: seq<Item>)
    requires IsRegistry(reg) && multiset(a) == multiset(b)
    ensures ValidateRows(reg, a).Ok? <==> ValidateRows(reg, b).Ok?
    ensures ValidateRows(reg, a).Ok? ==> ValidateRows(reg, a) == ValidateRows(reg, b)
  {
    hide IsRegistry, IsComplete, ExpectedCells, FirstError, CellsOf, Canonical, IsSorted, Separates;
    AcceptsExactlyComplete(reg, a);
    AcceptsExactlyComplete(reg, b);
    if IsComplete(reg, a) {
      CompletenessIsPermutationInvariant(reg, a, b);
      SameCanonical(reg, a, b);
    }
    if IsComplete(reg, b) {
      CompletenessIsPermutationInvariant(reg, b, a);
    }
  }

  lemma SameCanonical(reg: Registry, a: seq<Item>, b: seq<Item>)
    requires IsRegistry(reg) && multiset(a) == multiset(b) && IsComplete(reg, a)
    ensures Canonical(reg, a) == Canonical(reg, b)
  {
    hide *;
    CanonicalIsSortedPermutation(reg, a);
    CanonicalIsSortedPermutation(reg, b);
    CompletenessIsPermutationInvariant(reg, a, Canonical(reg, a));
    CompleteRowsAreIdentified(reg, Canonical(reg, a));
    SortedIsUnique(Before(reg), Canonical(reg, a), Canonical(reg, b));
  }

  /** Validating a validated export returns it unchanged. */
  lemma RevalidationIsIdentity(reg: Registry, rows: seq<Item>)
    requires IsRegistry(reg) && ValidateRows(reg, rows).Ok?
    ensures ValidateRows(reg, ValidateRows(reg, rows).value) == ValidateRows(reg, rows)
  {
    hide IsRegistry, IsComplete, ExpectedCells, FirstError, CellsOf, Canonical, IsSorted, Separates;
    CanonicalIsSortedPermutation(reg, rows);
    PermutationGivesSameExport(reg, rows, Canonical(reg, rows));
  }

  // ---- The registered matrix -------------------------------------------------------

  ghost function Triple(p: ((seq<string>, int), int)): Cell {
    Cell(p.0.0, p.0.1, p.1)
  }

  lemma CellsAreTriples(reg: Registry, subsets: set<seq<string>>, scales: set<int>, seeds: set<int>)
    requires subsets == (set s | s in SubsetsUpTo(reg.keys, |reg.keys|))
    requires scales == (set x | x in reg.scales) && seeds == (set x | x in reg.seeds)
    ensures ExpectedCells(reg) == Image(Triple, Pairs(Pairs(subsets, scales), seeds))
    ensures InjectiveOn(Triple, Pairs(Pairs(subsets, scales), seeds))
  {
    hide SubsetsUpTo;
    var triples := Pairs(Pairs(subsets, scales), seeds);
    forall cell | cell in ExpectedCells(reg) ensures cell in Image(Triple, triples) {
      var p := ((cell.subset, cell.scale), cell.seed);
      assert p in triples && Triple(p) == cell;
    }
  }

  /** An accepted export has one row per nonempty model subset, scale and seed. */
  lemma RegisteredCellCount(reg: Registry)
    requires Distinct(reg.keys) && Distinct(reg.scales) && Distinct(reg.seeds)
    ensures |ExpectedCells(reg)| == Times(Times(Power(|reg.keys|) - 1, |reg.scales|), |reg.seeds|)
  {
    hide ExpectedCells, Times, Power, Distinct, SubsetsUpTo, Triple, Pairs;
    var subsets := set s | s in SubsetsUpTo(reg.keys, |reg.keys|);
    var scales, seeds := set x | x in reg.scales, set x | x in reg.seeds;
    SubsetsDiffer(reg.keys, |reg.keys|);
    SubsetCount(reg.keys);
    MembersOfDistinct(SubsetsUpTo(reg.keys, |reg.keys|));
    MembersOfDistinct(reg.scales);
    MembersOfDistinct(reg.seeds);
    PairsSize(subsets, scales);
    PairsSize(Pairs(subsets, scales), seeds);
    CellsAreTriples(reg, subsets, scales, seeds);
    ImageSize(Triple, Pairs(Pairs(subsets, scales), seeds));
  }

  const SUITE_SEEDS: seq<int> := [3407, 499625614, 4288481424, 2669540432, 2937338177]

  const LLM: Registry := Registry(
    Llm, MODEL_KEYS, MODEL_KEYS[..3], [2048, 4096, 8192], SUITE_SEEDS,
    ["before_balanced_accuracy", "after_balanced_accuracy", "balanced_accuracy_change",
     "before_roc_auc", "after_roc_auc", "roc_auc_change",
     "before_membership_advantage", "after_membership_advantage", "membership_advantage_change",
     "after_balanced_accuracy_minus_mean_singletons", "after_roc_auc_minus_mean_singletons"])

  const VISION: Registry := Registry(
    Vision, MODEL_KEYS, MODEL_KEYS[3..], [5400, 10800, 21600], SUITE_SEEDS,
    ["clean_top1_accuracy", "clean_mean_cross_entropy", "brightness_top1_accuracy", "gaussian_noise_top1_accuracy",
     "ensemble_fgsm_top1_accuracy", "ensemble_fgsm_attack_success_rate_on_clean_correct",
     "ensemble_fgsm_member_prediction_disagreement"])

  /** The registered suite: 105 language cells and 45 vision cells. */
  lemma SuiteCellCounts()
    ensures IsRegistry(LLM) && IsRegistry(VISION)
    ensures |ExpectedCells(LLM)| == 105 && |ExpectedCells(VISION)| == 45
  {
    ModelNamesDiffer();
    hide MODEL_KEYS, ExpectedCells;
    RegisteredCellCount(LLM);
    RegisteredCellCount(VISION);
    assert Power(3) == 8 && Power(2) == 4;
  }
}
