/** The joint partition of several releases over a common roster
    (scripts/run_openml_composition.py) and the bound on its value that the scripts assert. */
module ReleaseComposition {
  import opened Arithmetic
  import opened Results
  import opened FiniteSets
  import opened DecisionWitnesses
  import opened SignatureHistograms

  const TOLERANCE: real := 0.000000000001

  /** One leaf row per roster record, all of one width. */
  predicate IsLeafMatrix(m: Matrix, n: nat) {
    |m| == n && forall i, j :: 0 <= i < n && 0 <= j < n ==> |m[i]| == |m[j]|
  }

  // ---- The joint partition ---------------------------------------------------------

  /** Record i's leaves over all releases, in release order. */
  function JointRow(ms: seq<Matrix>, i: nat): Row
    requires forall k :: 0 <= k < |ms| ==> i < |ms[k]|
  {
    if ms == [] then [] else JointRow(ms[..|ms| - 1], i) + ms[|ms| - 1][i]
  }

  function Joint(ms: seq<Matrix>, n: nat): (r: Matrix)
    requires forall k :: 0 <= k < |ms| ==> |ms[k]| == n
    ensures |r| == n
  {
    seq(n, i requires 0 <= i < n => JointRow(ms, i))
  }

  predicate AreReleases(ms: seq<Matrix>, n: nat) {
    forall k :: 0 <= k < |ms| ==> IsLeafMatrix(ms[k], n)
  }

  /** Records that agree on the joint row agree on every release. */
  lemma {:induction false} JointRefines(ms: seq<Matrix>, n: nat, i: nat, j: nat)
    requires AreReleases(ms, n) && i < n && j < n
    ensures |JointRow(ms, i)| == |JointRow(ms, j)|
    ensures JointRow(ms, i) == JointRow(ms, j) <==> forall k :: 0 <= k < |ms| ==> ms[k][i] == ms[k][j]
  {
    if ms != [] {
      var init, last := ms[..|ms| - 1], ms[|ms| - 1];
      JointRefines(init, n, i, j);
      SameSplit(JointRow(init, i), last[i], JointRow(init, j), last[j]);
      assert forall k :: 0 <= k < |init| ==> init[k] == ms[k];
    }
  }

  lemma SameSplit(a: Row, b: Row, c: Row, d: Row)
    requires |a| == |c| && |b| == |d|
    ensures a + b == c + d <==> a == c && b == d
  {
    if a + b == c + d {
      assert (a + b)[..|a|] == a && (c + d)[..|a|] == c;
      assert (a + b)[|a|..] == b && (c + d)[|a|..] == d;
    }
  }

  /** The joint partition refines each release. */
  lemma JointGarblesToEach(ms: seq<Matrix>, n: nat, k: nat)
    requires AreReleases(ms, n) && k < |ms|
    ensures IsGarbling(Joint(ms, n), ms[k])
  {
    forall i, j | 0 <= i < j < n && Joint(ms, n)[i] == Joint(ms, n)[j] ensures ms[k][i] == ms[k][j] {
      JointRefines(ms, n, i, j);
    }
  }

  /** The joint release has at least the cells of each release, and exactly as many only if that
      release already determines all the others. */
  lemma JointCellsExactly(ms: seq<Matrix>, n: nat, k: nat)
    requires AreReleases(ms, n) && k < |ms|
    ensures |Cells(ms[k])| <= |Cells(Joint(ms, n))|
    ensures |Cells(ms[k])| == |Cells(Joint(ms, n))| <==> forall l :: 0 <= l < |ms| ==> IsGarbling(ms[k], ms[l])
  {
    hide Cells;
    JointGarblesToEach(ms, n, k);
    StrictSeparationExactly(Joint(ms, n), ms[k]);
    DeterminesAll(ms, n, k);
  }

  lemma DeterminesAll(ms: seq<Matrix>, n: nat, k: nat)
    requires AreReleases(ms, n) && k < |ms|
    ensures IsGarbling(ms[k], Joint(ms, n)) <==> forall l :: 0 <= l < |ms| ==> IsGarbling(ms[k], ms[l])
  {
    hide JointRow;
    forall i, j | 0 <= i < n && 0 <= j < n
      ensures Joint(ms, n)[i] == Joint(ms, n)[j] <==> forall l :: 0 <= l < |ms| ==> ms[l][i] == ms[l][j]
    {
      JointRefines(ms, n, i, j);
    }
  }

  // ---- The product bound -----------------------------------------------------------

  function CellCounts(ms: seq<Matrix>): (r: seq<nat>)
    ensures |r| == |ms|
  {
    seq(|ms|, k requires 0 <= k < |ms| => |Cells(ms[k])|)
  }

  function Product(counts: seq<nat>): nat {
    if counts == [] then 1 else Times(Product(counts[..|counts| - 1]), counts[|counts| - 1])
  }

  lemma CellsOfPair(whole: Matrix, a: Matrix, b: Matrix)
    requires |whole| == |a| == |b| && forall i :: 0 <= i < |whole| ==> whole[i] == a[i] + b[i]
    ensures |Cells(whole)| <= Times(|Cells(a)|, |Cells(b)|)
  {
    hide Times;
    var glue := (p: (Row, Row)) => p.0 + p.1;
    var pairs := Pairs(Cells(a), Cells(b));
    forall r | r in Cells(whole) ensures r in Image(glue, pairs) {
      var i :| 0 <= i < |whole| && whole[i] == r;
      assert (a[i], b[i]) in pairs && glue((a[i], b[i])) == r;
    }
    ImageNoLarger(glue, pairs);
    PairsSize(Cells(a), Cells(b));
    SubsetSize(Cells(whole), Image(glue, pairs));
  }

  lemma TimesMonotone(a: nat, b: nat, c: nat)
    requires a <= b
    ensures Times(a, c) <= Times(b, c)
  {
  }

  /** The joint release has at most as many cells as all combinations of component cells. */
  lemma {:induction false} JointCellsAtMostProduct(ms: seq<Matrix>, n: nat)
    requires AreReleases(ms, n)
    ensures |Cells(Joint(ms, n))| <= Product(CellCounts(ms))
  {
    hide Cells, Times, IsLeafMatrix;
    if ms == [] {
      AtMostOneCell(Joint(ms, n));
    } else {
      var init, last := ms[..|ms| - 1], ms[|ms| - 1];
      assert forall k :: 0 <= k < |init| ==> init[k] == ms[k];
      WidthIsRoster(ms, n);
      JointCellsAtMostProduct(init, n);
      CellsOfPair(Joint(ms, n), Joint(init, n), last);
      TimesMonotone(|Cells(Joint(init, n))|, Product(CellCounts(init)), |Cells(last)|);
      assert CellCounts(ms)[..|ms| - 1] == CellCounts(init);
    }
  }

  lemma WidthIsRoster(ms: seq<Matrix>, n: nat)
    requires AreReleases(ms, n)
    ensures forall k :: 0 <= k < |ms| ==> |ms[k]| == n
  {
  }

  lemma AtMostOneCell(m: Matrix)
    requires forall i :: 0 <= i < |m| ==> m[i] == []
    ensures |Cells(m)| <= 1
  {
    SubsetSize(Cells(m), {[]});
  }

  // ---- The sum-of-increments check -------------------------------------------------

  /** What the component cells add up to beyond one cell each. */
  function Excess(counts: seq<nat>): int {
    if counts == [] then 0 else Excess(counts[..|counts| - 1]) + counts[|counts| - 1] - 1
  }

  function Increment(cells: nat, n: nat): real
    requires n > 0
  {
    cells as real / n as real - 1.0 / n as real
  }

  function SumOfIncrements(counts: seq<nat>, n: nat): real
    requires n > 0
  {
    if counts == [] then 0.0 else SumOfIncrements(counts[..|counts| - 1], n) + Increment(counts[|counts| - 1], n)
  }

  predicate WithinSum(joint: nat, counts: seq<nat>, n: nat)
    requires n > 0
  {
    Increment(joint, n) <= SumOfIncrements(counts, n) + TOLERANCE
  }

  lemma IncrementIs(cells: nat, n: nat)
    requires n > 0
    ensures Increment(cells, n) == (cells - 1) as real / n as real
  {
  }

  lemma QuotientsAdd(a: int, b: int, n: nat)
    requires n > 0
    ensures a as real / n as real + b as real / n as real == (a + b) as real / n as real
  {
  }

  lemma {:induction false} SumOfIncrementsIs(counts: seq<nat>, n: nat)
    requires n > 0
    ensures SumOfIncrements(counts, n) == Excess(counts) as real / n as real
  {
    hide Increment;
    if counts != [] {
      SumOfIncrementsIs(counts[..|counts| - 1], n);
      var last: int := counts[|counts| - 1];
      IncrementIs(last, n);
      QuotientsAdd(Excess(counts[..|counts| - 1]), last - 1, n);
    }
  }

  lemma QuotientTolerance(a: int, b: int, n: nat)
    requires 0 < n < 1000000000000
    ensures a as real / n as real <= b as real / n as real + TOLERANCE <==> a <= b
  {
    var x, y := a as real / n as real, b as real / n as real;
    assert x * n as real == a as real && y * n as real == b as real;
    if x <= y + TOLERANCE {
      assert (x - y) * n as real <= TOLERANCE * n as real < 1.0;
      assert (x - y) * n as real == (a - b) as real;
    }
    if a <= b {
      QuotientOrder(a as real, b as real, n as real);
    }
  }

  /** The bound the scripts call a union bound holds exactly when the joint cells beyond the first
      are no more than the component cells beyond one each. */
  lemma SumBoundExactly(joint: nat, counts: seq<nat>, n: nat)
    requires 0 < n < 1000000000000
    ensures WithinSum(joint, counts, n) <==> joint - 1 <= Excess(counts)
  {
    hide Increment, SumOfIncrements, Excess, TOLERANCE;
    IncrementIs(joint, n);
    SumOfIncrementsIs(counts, n);
    QuotientTolerance(joint - 1, Excess(counts), n);
  }

  predicate AtMostOneAboveOne(counts: seq<nat>) {
    forall i, j :: 0 <= i < j < |counts| ==> counts[i] <= 1 || counts[j] <= 1
  }

  /** Some record shows the same earlier leaves as record i and the same leaves of release k as
      record j. */
  ghost predicate Meets(ms: seq<Matrix>, n: nat, k: nat, i: nat, j: nat)
    requires AreReleases(ms, n) && k < |ms| && i < n && j < n
  {
    exists r: nat :: r < n && JointRow(ms[..k], r) == JointRow(ms[..k], i) && ms[k][r] == ms[k][j]
  }

  /** Every joint cell of the earlier releases meets every cell of the next one. */
  ghost predicate AreCrossed(ms: seq<Matrix>, n: nat)
    requires AreReleases(ms, n)
  {
    forall k: nat, i: nat, j: nat :: k < |ms| && i < n && j < n ==> Meets(ms, n, k, i, j)
  }

  function Glued(p: (Row, Row)): Row {
    p.0 + p.1
  }

  lemma GluedCells(init: seq<Matrix>, last: Matrix, n: nat)
    requires AreReleases(init + [last], n) && n > 0
    requires forall i: nat, j: nat :: i < n && j < n ==> Meets(init + [last], n, |init|, i, j)
    ensures AreReleases(init, n)
    ensures |Cells(Joint(init + [last], n))| == Times(|Cells(Joint(init, n))|, |Cells(last)|)
  {
    var ms := init + [last];
    assert ms[..|init|] == init;
    assert forall k :: 0 <= k < |init| ==> init[k] == ms[k];
    var before, whole := Joint(init, n), Joint(ms, n);
    var pairs := Pairs(Cells(before), Cells(last));
    hide Times;
    assert ms[|init|] == last && |last| == n;
    forall i | 0 <= i < n ensures whole[i] == Glued((before[i], last[i])) {
    }
    PairsMeet(init, last, n);
    hide JointRow, AreReleases, Meets;
    assert Cells(whole) == Image(Glued, pairs);
    ImageSize(Glued, pairs);
    PairsSize(Cells(before), Cells(last));
  }

  /** Gluing is injective on the pairs, and every pair is some record's joint row. */
  lemma PairsMeet(init: seq<Matrix>, last: Matrix, n: nat)
    requires AreReleases(init + [last], n) && AreReleases(init, n)
    requires forall i: nat, j: nat :: i < n && j < n ==> Meets(init + [last], n, |init|, i, j)
    ensures InjectiveOn(Glued, Pairs(Cells(Joint(init, n)), Cells(last)))
    ensures forall p :: p in Pairs(Cells(Joint(init, n)), Cells(last)) ==> Glued(p) in Cells(Joint(init + [last], n))
  {
    var ms := init + [last];
    var before, whole := Joint(init, n), Joint(ms, n);
    assert ms[..|init|] == init && ms[|init|] == last;
    forall p, q | p in Pairs(Cells(before), Cells(last)) && q in Pairs(Cells(before), Cells(last))
      && Glued(p) == Glued(q)
      ensures p == q
    {
      var i :| 0 <= i < n && before[i] == p.0;
      var j :| 0 <= j < n && before[j] == q.0;
      JointRefines(init, n, i, j);
      SameSplit(p.0, p.1, q.0, q.1);
    }
    forall p | p in Pairs(Cells(before), Cells(last)) ensures Glued(p) in Cells(whole) {
      var i :| 0 <= i < n && before[i] == p.0;
      var j :| 0 <= j < n && last[j] == p.1;
      assert Meets(ms, n, |init|, i, j);
      var r: nat :| r < n && JointRow(ms[..|init|], r) == JointRow(ms[..|init|], i) && ms[|init|][r] == ms[|init|][j];
      assert whole[r] == Glued(p);
    }
  }

  /** Crossed releases have as many joint cells as all combinations of component cells. */
  lemma {:induction false} CrossedJointCells(ms: seq<Matrix>, n: nat)
    requires AreReleases(ms, n) && n > 0 && AreCrossed(ms, n)
    ensures |Cells(Joint(ms, n))| == Product(CellCounts(ms))
  {
    hide Cells, Times;
    if ms == [] {
      EmptyJointCell(n);
    } else {
      var init, last := ms[..|ms| - 1], ms[|ms| - 1];
      assert ms == init + [last];
      CrossedPrefix(ms, n);
      CrossedJointCells(init, n);
      GluedCells(init, last, n);
      assert CellCounts(ms)[..|ms| - 1] == CellCounts(init);
    }
  }

  lemma EmptyJointCell(n: nat)
    requires n > 0
    ensures |Cells(Joint([], n))| == 1
  {
    assert Joint([], n)[0] == [];
    assert Cells(Joint([], n)) == {[]};
  }

  lemma CrossedPrefix(ms: seq<Matrix>, n: nat)
    requires AreReleases(ms, n) && AreCrossed(ms, n) && ms != []
    ensures AreReleases(ms[..|ms| - 1], n) && AreCrossed(ms[..|ms| - 1], n)
  {
    hide JointRow;
    var init := ms[..|ms| - 1];
    assert forall k :: 0 <= k < |init| ==> init[k] == ms[k];
    forall k: nat, i: nat, j: nat | k < |init| && i < n && j < n ensures Meets(init, n, k, i, j) {
      assert Meets(ms, n, k, i, j);
      assert init[..k] == ms[..k];
    }
  }

  /** Where every combination of cells occurs, the bound holds exactly when at most one release
      separates any records at all. */
  lemma CrossedReleasesBreakTheBound(ms: seq<Matrix>, n: nat)
    requires 0 < n < 1000000000000 && AreReleases(ms, n) && AreCrossed(ms, n)
    ensures WithinSum(|Cells(Joint(ms, n))|, CellCounts(ms), n) <==> AtMostOneAboveOne(CellCounts(ms))
  {
    hide WithinSum, AtMostOneAboveOne, Product, Excess, Cells, AreCrossed, IsLeafMatrix;
    CrossedJointCells(ms, n);
    SumBoundExactly(Product(CellCounts(ms)), CellCounts(ms), n);
    forall k | 0 <= k < |ms| ensures CellCounts(ms)[k] >= 1 {
      WidthIsRoster(ms, n);
      SomeCellOccurs(ms[k]);
    }
    ProductAgainstExcess(CellCounts(ms));
  }

  lemma {:induction false} ProductAgainstExcess(counts: seq<nat>)
    requires forall k :: 0 <= k < |counts| ==> counts[k] >= 1
    ensures Product(counts) >= 1 && Excess(counts) >= 0 && Product(counts) - 1 >= Excess(counts)
    ensures Product(counts) - 1 <= Excess(counts) <==> AtMostOneAboveOne(counts)
    ensures Excess(counts) == 0 <==> forall k :: 0 <= k < |counts| ==> counts[k] == 1
  {
    hide Times;
    if counts != [] {
      var init, last := counts[..|counts| - 1], counts[|counts| - 1];
      assert forall k :: 0 <= k < |init| ==> init[k] == counts[k];
      ProductAgainstExcess(init);
      TimesAgainstSum(Product(init), last);
      assert AtMostOneAboveOne(counts)
        <==> AtMostOneAboveOne(init) && (last <= 1 || forall k :: 0 <= k < |init| ==> init[k] <= 1);
      assert Excess(init) == 0 ==> Product(init) - 1 <= Excess(init) by {
        assert (forall k :: 0 <= k < |init| ==> init[k] == 1) ==> AtMostOneAboveOne(init);
      }
    }
  }

  lemma TimesAgainstSum(a: nat, b: nat)
    requires a >= 1 && b >= 1
    ensures Times(a, b) >= a + b - 1
    ensures Times(a, b) == a + b - 1 <==> a == 1 || b == 1
  {
    assert Times(a, b) - (a + b - 1) == (a - 1) * (b - 1);
  }

  // ---- A crossed grid --------------------------------------------------------------

  function RowOf(i: nat, m: nat): int {
    if m == 0 then 0 else i / m
  }

  function ColumnOf(i: nat, m: nat): int {
    if m == 0 then 0 else i % m
  }

  function GridRows(m: nat): (r: Matrix)
    ensures |r| == Times(m, m)
  {
    seq(Times(m, m), i requires 0 <= i < Times(m, m) => [RowOf(i, m)])
  }

  function GridColumns(m: nat): (r: Matrix)
    ensures |r| == Times(m, m)
  {
    seq(Times(m, m), i requires 0 <= i < Times(m, m) => [ColumnOf(i, m)])
  }

  /** Releases that show row, column, row, column, ... of an m by m grid of records. */
  function GridReleases(m: nat, releases: nat): (r: seq<Matrix>)
    ensures |r| == releases && AreReleases(r, Times(m, m))
  {
    seq(releases, k => if k % 2 == 0 then GridRows(m) else GridColumns(m))
  }

  lemma Fundamental(i: nat, m: nat)
    requires m > 0
    ensures i == Times(RowOf(i, m), m) + ColumnOf(i, m) && 0 <= RowOf(i, m) && 0 <= ColumnOf(i, m) < m
  {
  }

  lemma SplitIsUnique(m: nat, y: nat, z: nat, q: nat, r: nat)
    requires Times(y, m) + z == Times(q, m) + r && z < m && r < m
    ensures y == q && z == r
  {
    if y < q {
      TimesGrows(y, q, m);
    } else if q < y {
      TimesGrows(q, y, m);
    }
  }

  lemma TimesGrows(a: nat, b: nat, m: nat)
    requires a < b
    ensures Times(a, m) + m <= Times(b, m)
  {
    TimesMonotone(a + 1, b, m);
  }

  lemma CellPosition(m: nat, row: nat, column: nat) returns (i: nat)
    requires row < m && column < m
    ensures i < Times(m, m) && RowOf(i, m) == row && ColumnOf(i, m) == column
  {
    hide *;
    i := Times(row, m) + column;
    TimesGrows(row, m, m);
    Fundamental(i, m);
    SplitIsUnique(m, RowOf(i, m), ColumnOf(i, m), row, column);
  }

  lemma RowBelow(i: nat, m: nat)
    requires i < Times(m, m)
    ensures m > 0 && 0 <= RowOf(i, m) < m && 0 <= ColumnOf(i, m) < m
  {
    hide RowOf, ColumnOf;
    if m > 0 {
      Fundamental(i, m);
      if RowOf(i, m) >= m {
        hide Times;
        TimesMonotone(m, RowOf(i, m), m);
      }
    }
  }

  function Line(q: int): Row {
    [q]
  }

  /** A matrix of one-leaf rows that shows exactly the leaves below m has m cells. */
  lemma LineCells(part: Matrix, m: nat)
    requires forall i :: 0 <= i < |part| ==> |part[i]| == 1 && 0 <= part[i][0] < m
    requires forall q :: 0 <= q < m ==> Line(q) in part
    ensures |Cells(part)| == m
  {
    ImageSize(Line, Below(m));
    hide Below;
    forall r | r in part ensures r in Image(Line, Below(m)) {
      assert r == Line(r[0]);
    }
    assert Cells(part) == Image(Line, Below(m));
  }

  lemma GridCells(m: nat)
    requires m > 0
    ensures |Cells(GridRows(m))| == m && |Cells(GridColumns(m))| == m
  {
    hide RowOf, ColumnOf, Times, Cells;
    forall q | 0 <= q < m ensures Line(q) in GridRows(m) && Line(q) in GridColumns(m) {
      var i := CellPosition(m, q, 0);
      var j := CellPosition(m, 0, q);
      assert GridRows(m)[i] == Line(q) && GridColumns(m)[j] == Line(q);
    }
    forall i | 0 <= i < Times(m, m) ensures 0 <= RowOf(i, m) < m && 0 <= ColumnOf(i, m) < m {
      RowBelow(i, m);
    }
    LineCells(GridRows(m), m);
    LineCells(GridColumns(m), m);
  }

  lemma {:induction false} AllRowsDiffer(m: Matrix)
    requires forall i, j :: 0 <= i < j < |m| ==> m[i] != m[j]
    ensures |Cells(m)| == |m|
  {
    if m == [] {
      assert Cells(m) == {};
    } else {
      var init := m[..|m| - 1];
      AllRowsDiffer(init);
      assert Cells(m) == Cells(init) + {m[|m| - 1]};
    }
  }

  lemma GridJointCells(m: nat, releases: nat)
    requires m > 0 && releases >= 2
    ensures |Cells(Joint(GridReleases(m, releases), Times(m, m)))| == Times(m, m)
  {
    hide RowOf, ColumnOf, Times, JointRow;
    var ms, n := GridReleases(m, releases), Times(m, m);
    forall i, j | 0 <= i < j < n ensures Joint(ms, n)[i] != Joint(ms, n)[j] {
      JointRefines(ms, n, i, j);
      Fundamental(i, m);
      Fundamental(j, m);
      assert ms[0][i] == [RowOf(i, m)] && ms[0][j] == [RowOf(j, m)];
      assert ms[1][i] == [ColumnOf(i, m)] && ms[1][j] == [ColumnOf(j, m)];
    }
    AllRowsDiffer(Joint(ms, n));
  }

  lemma {:induction false} ExcessOfEqual(counts: seq<nat>, m: nat)
    requires forall k :: 0 <= k < |counts| ==> counts[k] == m
    ensures Excess(counts) == |counts| * (m - 1)
  {
    if counts != [] {
      ExcessOfEqual(counts[..|counts| - 1], m);
    }
  }

  /** Two or more releases of an m by m grid break the bound exactly when they number at most m and
      the grid is not a single record: four releases of the 5 by 5 grid do. */
  lemma GridBreaksTheBound(m: nat, releases: nat)
    requires 0 < Times(m, m) < 1000000000000 && releases >= 2
    ensures var ms := GridReleases(m, releases);
      WithinSum(|Cells(Joint(ms, Times(m, m)))|, CellCounts(ms), Times(m, m)) <==> m == 1 || m < releases
  {
    hide WithinSum, Cells;
    var ms := GridReleases(m, releases);
    GridCells(m);
    GridJointCells(m, releases);
    SumBoundExactly(Times(m, m), CellCounts(ms), Times(m, m));
    ExcessOfEqual(CellCounts(ms), m);
    SquareAgainst(m, releases);
  }

  lemma SquareAgainst(m: nat, releases: nat)
    requires m > 0
    ensures Times(m, m) - 1 <= releases * (m - 1) <==> m == 1 || m < releases
  {
    if m > 1 {
      SquareMinusOne(m);
      Cancel(m - 1, m + 1, releases);
    }
  }

  lemma SquareMinusOne(m: nat)
    ensures Times(m, m) - 1 == (m + 1) * (m - 1)
  {
  }

  lemma Cancel(c: nat, x: nat, y: nat)
    requires c > 0
    ensures x * c <= y * c <==> x <= y
  {
  }
}
