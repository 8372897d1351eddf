/** The leaf-signature histogram of scripts/run_openml_structural.py and its cell-size metrics. */
module SignatureHistograms {
  import opened Arithmetic
  import opened FiniteSets
  import opened DecisionWitnesses
  import opened Sorting

  type Row = seq<int>
  type Matrix = seq<Row>

  // ---- Histograms ------------------------------------------------------------------

  datatype Entry = Entry(signature: Row, count: int)

  function Occurrences(leaves: Matrix, signature: Row): nat {
    if leaves == [] then 0
    else Occurrences(leaves[..|leaves| - 1], signature) + if leaves[|leaves| - 1] == signature then 1 else 0
  }

  function Total(entries: seq<Entry>): int {
    if entries == [] then 0 else Total(entries[..|entries| - 1]) + entries[|entries| - 1].count
  }

  function Minimum(entries: seq<Entry>): (least: int)
    requires entries != []
    ensures exists k :: 0 <= k < |entries| && entries[k].count == least
    ensures forall k :: 0 <= k < |entries| ==> least <= entries[k].count
  {
    var last := entries[|entries| - 1].count;
    if |entries| == 1 then last
    else
      var rest := Minimum(entries[..|entries| - 1]);
      if last < rest then last else rest
  }

  function SignaturesOf(entries: seq<Entry>): set<Row> {
    set k | 0 <= k < |entries| :: entries[k].signature
  }

  predicate DistinctSignatures(entries: seq<Entry>) {
    forall i, j :: 0 <= i < j < |entries| ==> entries[i].signature != entries[j].signature
  }

  predicate CountsOccurrences(entries: seq<Entry>, leaves: Matrix) {
    forall k :: 0 <= k < |entries| ==> entries[k].count == Occurrences(leaves, entries[k].signature)
  }

  /** Every occurring leaf signature once, with its number of records. */
  predicate IsHistogram(entries: seq<Entry>, leaves: Matrix) {
    && DistinctSignatures(entries)
    && SignaturesOf(entries) == Cells(leaves)
    && CountsOccurrences(entries, leaves)
  }

  function Find(entries: seq<Entry>, signature: Row): (k: nat)
    ensures k <= |entries|
    ensures forall i :: 0 <= i < k ==> entries[i].signature != signature
    ensures k < |entries| ==> entries[k].signature == signature
  {
    if entries == [] then 0
    else
      var k := Find(entries[..|entries| - 1], signature);
      if k < |entries| - 1 || entries[k].signature == signature then k else k + 1
  }

  /** `signatures[row] += 1` on a Counter that lists its keys as they first appear. */
  function CountRow(entries: seq<Entry>, row: Row): seq<Entry> {
    var k := Find(entries, row);
    if k < |entries| then entries[k := entries[k].(count := entries[k].count + 1)] else entries + [Entry(row, 1)]
  }

  lemma OccurrencesNext(leaves: Matrix, n: nat, signature: Row)
    requires n < |leaves|
    ensures Occurrences(leaves[..n + 1], signature)
         == Occurrences(leaves[..n], signature) + if leaves[n] == signature then 1 else 0
  {
    assert leaves[..n + 1][..n] == leaves[..n];
  }

  lemma {:induction false} AbsentRow(leaves: Matrix, signature: Row)
    requires signature !in leaves
    ensures Occurrences(leaves, signature) == 0
  {
    if leaves != [] {
      AbsentRow(leaves[..|leaves| - 1], signature);
    }
  }

  lemma CellsNext(leaves: Matrix, n: nat)
    requires n < |leaves|
    ensures Cells(leaves[..n + 1]) == Cells(leaves[..n]) + {leaves[n]}
  {
    assert leaves[..n + 1] == leaves[..n] + [leaves[n]];
  }

  lemma CountsNext(entries: seq<Entry>, leaves: Matrix, n: nat)
    requires n < |leaves| && DistinctSignatures(entries) && CountsOccurrences(entries, leaves[..n])
    requires SignaturesOf(entries) == Cells(leaves[..n])
    ensures CountsOccurrences(CountRow(entries, leaves[n]), leaves[..n + 1])
  {
    hide Find, Occurrences, Cells;
    var row, next, k := leaves[n], CountRow(entries, leaves[n]), Find(entries, leaves[n]);
    forall i | 0 <= i < |next| ensures next[i].count == Occurrences(leaves[..n + 1], next[i].signature) {
      OccurrencesNext(leaves, n, next[i].signature);
      if i == |entries| {
        assert row !in SignaturesOf(entries);
        NotACell(leaves[..n], row);
        AbsentRow(leaves[..n], row);
      }
    }
  }

  lemma NotACell(leaves: Matrix, row: Row)
    requires row !in Cells(leaves)
    ensures row !in leaves
  {
  }

  lemma SignaturesNext(entries: seq<Entry>, row: Row)
    ensures SignaturesOf(CountRow(entries, row)) == SignaturesOf(entries) + {row}
  {
    hide Find;
    var next, k := CountRow(entries, row), Find(entries, row);
    forall i | 0 <= i < |next| ensures next[i].signature in SignaturesOf(entries) + {row} {
      assert i < |entries| ==> next[i].signature == entries[i].signature;
    }
    forall i | 0 <= i < |entries| ensures entries[i].signature in SignaturesOf(next) {
      assert next[i].signature == entries[i].signature;
    }
    assert next[k].signature == row;
  }

  lemma HistogramNext(entries: seq<Entry>, leaves: Matrix, n: nat)
    requires n < |leaves| && IsHistogram(entries, leaves[..n])
    ensures IsHistogram(CountRow(entries, leaves[n]), leaves[..n + 1])
  {
    hide Cells, CountsOccurrences, SignaturesOf, DistinctSignatures, CountRow;
    CountsNext(entries, leaves, n);
    SignaturesNext(entries, leaves[n]);
    CellsNext(leaves, n);
    NewSignature(entries, leaves[n]);
  }

  lemma NewSignature(entries: seq<Entry>, row: Row)
    requires DistinctSignatures(entries)
    ensures DistinctSignatures(CountRow(entries, row))
  {
    hide Find;
  }

  lemma SignaturesGrow(entries: seq<Entry>)
    ensures entries == [] ==> SignaturesOf(entries) == {}
    ensures entries != [] ==>
      SignaturesOf(entries) == SignaturesOf(entries[..|entries| - 1]) + {entries[|entries| - 1].signature}
  {
    if entries != [] {
      var init, last := entries[..|entries| - 1], entries[|entries| - 1];
      assert forall k :: 0 <= k < |init| ==> entries[k] == init[k];
    }
  }

  lemma InSignatures(entries: seq<Entry>, row: Row)
    ensures row in SignaturesOf(entries) <==> exists k :: 0 <= k < |entries| && entries[k].signature == row
  {
  }

  lemma {:induction false} HistogramSize(entries: seq<Entry>)
    requires DistinctSignatures(entries)
    ensures |SignaturesOf(entries)| == |entries|
  {
    hide SignaturesOf;
    SignaturesGrow(entries);
    if entries != [] {
      HistogramSize(entries[..|entries| - 1]);
      InSignatures(entries[..|entries| - 1], entries[|entries| - 1].signature);
    }
  }

  function Counted(leaves: Matrix): seq<Entry> {
    if leaves == [] then [] else CountRow(Counted(leaves[..|leaves| - 1]), leaves[|leaves| - 1])
  }

  lemma {:induction false} CountedIsHistogram(leaves: Matrix)
    ensures IsHistogram(Counted(leaves), leaves)
  {
    hide IsHistogram, CountRow;
    if leaves == [] {
      EmptyHistogram(leaves);
    } else {
      CountedIsHistogram(leaves[..|leaves| - 1]);
      HistogramNext(Counted(leaves[..|leaves| - 1]), leaves, |leaves| - 1);
      assert leaves[..|leaves|] == leaves;
    }
  }

  lemma EmptyHistogram(leaves: Matrix)
    requires leaves == []
    ensures IsHistogram([], leaves)
  {
  }

  // ---- Sorting by signature --------------------------------------------------------

  function BySignature(): (Entry, Entry) -> bool {
    (a: Entry, b: Entry) => LexLe(a.signature, b.signature)
  }

  /** `sorted(signatures.items())`. */
  function Histogram(leaves: Matrix): seq<Entry> {
    Sorted(BySignature(), Counted(leaves))
  }

  lemma SignatureOrderIsOrder()
    ensures IsOrder(BySignature())
  {
    KeyOrderIsOrder((e: Entry) => e.signature, BySignature());
  }

  lemma SameSignatures(a: seq<Entry>, b: seq<Entry>)
    requires multiset(a) == multiset(b)
    ensures SignaturesOf(a) <= SignaturesOf(b)
  {
    SameMembers(a, b);
    forall k | 0 <= k < |a| ensures a[k].signature in SignaturesOf(b) {
      assert a[k] in a;
      var l :| 0 <= l < |b| && b[l] == a[k];
    }
  }

  /** As many signatures as entries means that no signature repeats. */
  lemma {:induction false} CountMeansDistinct(entries: seq<Entry>)
    ensures |SignaturesOf(entries)| <= |entries|
    ensures |SignaturesOf(entries)| == |entries| ==> DistinctSignatures(entries)
  {
    hide SignaturesOf;
    SignaturesGrow(entries);
    if entries != [] {
      CountMeansDistinct(entries[..|entries| - 1]);
      InSignatures(entries[..|entries| - 1], entries[|entries| - 1].signature);
    }
  }

  /** A rearranged histogram is a histogram. */
  lemma RearrangedHistogram(a: seq<Entry>, b: seq<Entry>, leaves: Matrix)
    requires IsHistogram(a, leaves) && multiset(a) == multiset(b)
    ensures IsHistogram(b, leaves)
  {
    hide Cells, Occurrences;
    SameSize(a, b);
    SameMembers(a, b);
    SameSignatures(a, b);
    SameSignatures(b, a);
    assert SignaturesOf(a) == SignaturesOf(b);
    HistogramSize(a);
    CountMeansDistinct(b);
    hide DistinctSignatures, SignaturesOf;
    forall k | 0 <= k < |b| ensures b[k].count == Occurrences(leaves, b[k].signature) {
      assert b[k] in b;
      var l :| 0 <= l < |a| && a[l] == b[k];
    }
  }

  /** The histogram lists every occurring signature once with its count, in ascending order. */
  lemma HistogramIsHistogram(leaves: Matrix)
    ensures IsHistogram(Histogram(leaves), leaves)
    ensures IsSorted(BySignature(), Histogram(leaves))
  {
    hide IsHistogram, Sorted, IsSorted, IsOrder, Counted, BySignature;
    SignatureOrderIsOrder();
    CountedIsHistogram(leaves);
    SortedIsSortedPermutation(BySignature(), Counted(leaves));
    RearrangedHistogram(Counted(leaves), Histogram(leaves), leaves);
  }

  /** Only one list is both. */
  lemma HistogramIsUnique(leaves: Matrix, entries: seq<Entry>)
    requires IsHistogram(entries, leaves) && IsSorted(BySignature(), entries)
    ensures entries == Histogram(leaves)
  {
    hide *;
    HistogramIsHistogram(leaves);
    SameEntries(leaves, entries, Histogram(leaves));
    SignaturesSeparate(entries, leaves);
    SortedIsUnique(BySignature(), entries, Histogram(leaves));
  }

  lemma SignaturesSeparate(entries: seq<Entry>, leaves: Matrix)
    requires IsHistogram(entries, leaves)
    ensures Separates(BySignature(), entries)
  {
    hide Cells, Occurrences, LexLe;
    forall a, b | a in entries && b in entries && BySignature()(a, b) && BySignature()(b, a) ensures a == b {
      LexAntisymmetric(a.signature, b.signature);
    }
  }

  /** Two histograms of the same leaves have the same entries, each once. */
  lemma SameEntries(leaves: Matrix, a: seq<Entry>, b: seq<Entry>)
    requires IsHistogram(a, leaves) && IsHistogram(b, leaves)
    ensures multiset(a) == multiset(b)
  {
    hide Cells, Occurrences, CountsOccurrences, SignaturesOf;
    forall e ensures multiset(a)[e] == multiset(b)[e] {
      EntryOnce(a, e);
      EntryOnce(b, e);
      EntryIn(leaves, a, e);
      EntryIn(leaves, b, e);
    }
  }

  lemma {:induction false} EntryOnce(entries: seq<Entry>, e: Entry)
    requires DistinctSignatures(entries)
    ensures multiset(entries)[e] == if e in entries then 1 else 0
  {
    if entries != [] {
      var init, last := entries[..|entries| - 1], entries[|entries| - 1];
      assert entries == init + [last];
      EntryOnce(init, e);
    }
  }

  lemma EntryIn(leaves: Matrix, entries: seq<Entry>, e: Entry)
    requires IsHistogram(entries, leaves)
    ensures e in entries <==> e.signature in Cells(leaves) && e.count == Occurrences(leaves, e.signature)
  {
    hide Cells, Occurrences;
    if e.signature in Cells(leaves) && e.count == Occurrences(leaves, e.signature) {
      assert e.signature in SignaturesOf(entries);
      var k :| 0 <= k < |entries| && entries[k].signature == e.signature;
      assert entries[k] == e;
    }
    if e in entries {
      var k :| 0 <= k < |entries| && entries[k] == e;
      assert e.signature in SignaturesOf(entries);
    }
  }

  // ---- Sums over cells and over records --------------------------------------------

  function Weighed(count: int, x: real): real {
    count as real * x
  }

  /** Each entry's count times a value of its signature. */
  function CellSum(entries: seq<Entry>, f: Row -> real): real {
    if entries == [] then 0.0
    else
      var last := entries[|entries| - 1];
      CellSum(entries[..|entries| - 1], f) + Weighed(last.count, f(last.signature))
  }

  function RecordSum(leaves: Matrix, f: Row -> real): real {
    if leaves == [] then 0.0 else RecordSum(leaves[..|leaves| - 1], f) + f(leaves[|leaves| - 1])
  }

  function OccurrenceSum(signatures: seq<Row>, leaves: Matrix, f: Row -> real): real {
    if signatures == [] then 0.0
    else
      var last := signatures[|signatures| - 1];
      OccurrenceSum(signatures[..|signatures| - 1], leaves, f) + Weighed(Occurrences(leaves, last), f(last))
  }

  lemma WeighedNext(count: int, x: real)
    ensures Weighed(count + 1, x) == Weighed(count, x) + x && Weighed(0, x) == 0.0
  {
  }

  /** One more record raises exactly its own signature's term. */
  lemma {:induction false} OccurrenceSumNext(signatures: seq<Row>, leaves: Matrix, row: Row, f: Row -> real)
    requires Distinct(signatures)
    ensures OccurrenceSum(signatures, leaves + [row], f)
         == OccurrenceSum(signatures, leaves, f) + if row in signatures then f(row) else 0.0
  {
    hide Weighed;
    assert (leaves + [row])[..|leaves|] == leaves;
    if signatures != [] {
      var init, last := signatures[..|signatures| - 1], signatures[|signatures| - 1];
      assert signatures == init + [last];
      OccurrenceSumNext(init, leaves, row, f);
      WeighedNext(Occurrences(leaves, last), f(last));
      assert last !in init;
    }
  }

  lemma {:induction false} NothingOccurs(signatures: seq<Row>, f: Row -> real)
    ensures OccurrenceSum(signatures, [], f) == 0.0
  {
    if signatures != [] {
      NothingOccurs(signatures[..|signatures| - 1], f);
    }
  }

  lemma {:induction false} OccurrenceSumIsRecordSum(signatures: seq<Row>, leaves: Matrix, f: Row -> real)
    requires Distinct(signatures) && forall row :: row in leaves ==> row in signatures
    ensures OccurrenceSum(signatures, leaves, f) == RecordSum(leaves, f)
  {
    hide OccurrenceSum, Distinct;
    if leaves == [] {
      NothingOccurs(signatures, f);
    } else {
      var init, last := leaves[..|leaves| - 1], leaves[|leaves| - 1];
      assert leaves == init + [last];
      OccurrenceSumIsRecordSum(signatures, init, f);
      OccurrenceSumNext(signatures, init, last, f);
    }
  }

  function Keys(entries: seq<Entry>): (r: seq<Row>)
    ensures |r| == |entries| && forall k :: 0 <= k < |r| ==> r[k] == entries[k].signature
  {
    seq(|entries|, k requires 0 <= k < |entries| => entries[k].signature)
  }

  lemma {:induction false} CellSumIsOccurrenceSum(entries: seq<Entry>, leaves: Matrix, f: Row -> real)
    requires CountsOccurrences(entries, leaves)
    ensures CellSum(entries, f) == OccurrenceSum(Keys(entries), leaves, f)
  {
    hide Weighed, Occurrences;
    if entries != [] {
      CellSumIsOccurrenceSum(entries[..|entries| - 1], leaves, f);
      assert Keys(entries)[..|entries| - 1] == Keys(entries[..|entries| - 1]);
    }
  }

  /** A sum over cells, weighted by their counts, is the sum over the records. */
  lemma CellSumIsRecordSum(entries: seq<Entry>, leaves: Matrix, f: Row -> real)
    requires IsHistogram(entries, leaves)
    ensures CellSum(entries, f) == RecordSum(leaves, f)
  {
    CellSumIsOccurrenceSum(entries, leaves, f);
    forall row | row in leaves ensures row in Keys(entries) {
      assert row in SignaturesOf(entries);
      var k :| 0 <= k < |entries| && entries[k].signature == row;
      assert Keys(entries)[k] == row;
    }
    hide CellSum, OccurrenceSum, RecordSum, Cells, CountsOccurrences;
    OccurrenceSumIsRecordSum(Keys(entries), leaves, f);
  }

  lemma {:induction false} TotalIsCellSum(entries: seq<Entry>)
    ensures Total(entries) as real == CellSum(entries, _ => 1.0)
  {
    if entries != [] {
      TotalIsCellSum(entries[..|entries| - 1]);
    }
  }

  lemma {:induction false} RecordsSumToOneEach(leaves: Matrix)
    ensures RecordSum(leaves, _ => 1.0) == |leaves| as real
  {
    if leaves != [] {
      RecordsSumToOneEach(leaves[..|leaves| - 1]);
    }
  }

  lemma SomeCellOccurs(m: Matrix)
    requires m != []
    ensures |Cells(m)| >= 1
  {
    assert m[0] in Cells(m);
  }

  lemma HistogramFacts(entries: seq<Entry>, leaves: Matrix)
    requires IsHistogram(entries, leaves)
    ensures |entries| == |Cells(leaves)| && (leaves != [] ==> entries != [])
    ensures DistinctSignatures(entries) && Total(entries) == |leaves|
  {
    TotalIsCellSum(entries);
    RecordsSumToOneEach(leaves);
    if leaves != [] {
      SomeCellOccurs(leaves);
    }
    hide DistinctSignatures, CountsOccurrences, Cells, SignaturesOf, CellSum, RecordSum, Total;
    CellSumIsRecordSum(entries, leaves, _ => 1.0);
    HistogramSize(entries);
  }

  /** Every count belongs to an occurring row, and the other way round. */
  lemma CountsAreCellSizes(entries: seq<Entry>, leaves: Matrix)
    requires IsHistogram(entries, leaves)
    ensures forall k :: 0 <= k < |entries| ==>
      entries[k].signature in leaves && entries[k].count == Occurrences(leaves, entries[k].signature) >= 1
    ensures forall row :: row in leaves ==> exists k :: 0 <= k < |entries| && entries[k].signature == row
  {
    hide Occurrences;
    forall k | 0 <= k < |entries|
      ensures entries[k].signature in leaves && Occurrences(leaves, entries[k].signature) >= 1
    {
      assert entries[k].signature in SignaturesOf(entries);
      var i :| 0 <= i < |leaves| && leaves[i] == entries[k].signature;
      PresentRow(leaves, i);
    }
    forall row | row in leaves ensures exists k :: 0 <= k < |entries| && entries[k].signature == row {
      assert row in SignaturesOf(entries);
    }
  }

  lemma {:induction false} PresentRow(leaves: Matrix, i: nat)
    requires i < |leaves|
    ensures Occurrences(leaves, leaves[i]) >= 1
  {
    if i < |leaves| - 1 {
      PresentRow(leaves[..|leaves| - 1], i);
    }
  }

  // ---- Metrics ---------------------------------------------------------------------

  datatype Metrics = Metrics(occupied: int, minimum: int, success: real)

  function MetricsOf(leaves: Matrix): (m: Metrics)
    requires leaves != []
    ensures m.occupied == |Cells(leaves)| >= 1 && m.minimum >= 1
  {
    HistogramIsHistogram(leaves);
    HistogramFacts(Histogram(leaves), leaves);
    CountsAreCellSizes(Histogram(leaves), leaves);
    SomeCellOccurs(leaves);
    Metrics(|Cells(leaves)|, Minimum(Histogram(leaves)), |Cells(leaves)| as real / |leaves| as real)
  }

  /** The remaining cell-size metrics. */
  datatype Spread = Spread(
    records: int, maximum: int, harmonicMean: real, geometricMean: real, arithmeticMean: real,
    entropy: real, disclosed: real, worstSuccess: real, singletons: int, singletonFraction: real)

  function Maximum(entries: seq<Entry>): (most: int)
    requires entries != []
    ensures exists k :: 0 <= k < |entries| && entries[k].count == most
    ensures forall k :: 0 <= k < |entries| ==> entries[k].count <= most
  {
    var last := entries[|entries| - 1].count;
    if |entries| == 1 then last
    else
      var rest := Maximum(entries[..|entries| - 1]);
      if last > rest then last else rest
  }

  function Square(x: int): real {
    x as real * x as real
  }

  /** `np.sum(counts * counts)`. */
  function SquareSum(entries: seq<Entry>): real {
    if entries == [] then 0.0 else SquareSum(entries[..|entries| - 1]) + Square(entries[|entries| - 1].count)
  }

  /** `np.sum((counts / n) * np.log2(counts))`. */
  function EntropySum(entries: seq<Entry>, n: nat, log2: real -> real): real
    requires n > 0
  {
    if entries == [] then 0.0
    else
      var c := entries[|entries| - 1].count as real;
      EntropySum(entries[..|entries| - 1], n, log2) + (c / n as real) * log2(c)
  }

  /** `counts[counts == 1].sum()`. */
  function SingletonSum(entries: seq<Entry>): int {
    if entries == [] then 0
    else SingletonSum(entries[..|entries| - 1]) + if entries[|entries| - 1].count == 1 then 1 else 0
  }

  // The same quantities record by record: the size of the record's own cell, its share of the
  // residual entropy, and whether the record is alone.

  function OwnCellSize(leaves: Matrix): Row -> real {
    row => Occurrences(leaves, row) as real
  }

  function OwnEntropy(leaves: Matrix, log2: real -> real): Row -> real
    requires leaves != []
  {
    row => log2(Occurrences(leaves, row) as real) / |leaves| as real
  }

  function Alone(leaves: Matrix): Row -> real {
    row => if Occurrences(leaves, row) == 1 then 1.0 else 0.0
  }

  lemma TermForms(c: int, n: nat, x: real)
    requires n > 0
    ensures Square(c) == Weighed(c, c as real)
    ensures (c as real / n as real) * x == Weighed(c, x / n as real)
    ensures Weighed(1, 1.0) == 1.0 && Weighed(c, 0.0) == 0.0
  {
    var r := 1.0 / n as real;
    assert c as real / n as real == c as real * r && x / n as real == x * r;
  }

  lemma {:induction false} SumForms(entries: seq<Entry>, leaves: Matrix, log2: real -> real)
    requires CountsOccurrences(entries, leaves) && leaves != []
    ensures SquareSum(entries) == CellSum(entries, OwnCellSize(leaves))
    ensures EntropySum(entries, |leaves|, log2) == CellSum(entries, OwnEntropy(leaves, log2))
    ensures SingletonSum(entries) as real == CellSum(entries, Alone(leaves))
  {
    hide Occurrences, Square, Weighed;
    if entries != [] {
      var last := entries[|entries| - 1];
      SumForms(entries[..|entries| - 1], leaves, log2);
      TermForms(last.count, |leaves|, log2(last.count as real));
    }
  }

  /** The extreme counts are the extreme sizes of a record's own cell. */
  ghost predicate AreExtremes(leaves: Matrix, minimum: int, maximum: int) {
    && (forall row :: row in leaves ==> minimum <= Occurrences(leaves, row) <= maximum)
    && (exists row :: row in leaves && Occurrences(leaves, row) == maximum)
    && (exists row :: row in leaves && Occurrences(leaves, row) == minimum)
  }

  /** The means are taken over the records: of the size of the record's own cell, of its share of
      the entropy, of being alone. */
  ghost predicate AreMeans(s: Spread, leaves: Matrix, log2: real -> real, exp2: real -> real)
    requires leaves != []
  {
    var n := |leaves| as real;
    && s.arithmeticMean == RecordSum(leaves, OwnCellSize(leaves)) / n
    && s.entropy == RecordSum(leaves, OwnEntropy(leaves, log2))
    && s.geometricMean == exp2(s.entropy) && s.disclosed == log2(n) - s.entropy
    && s.singletons as real == RecordSum(leaves, Alone(leaves)) && s.singletonFraction == s.singletons as real / n
  }

  ghost predicate IsSpread(s: Spread, leaves: Matrix, log2: real -> real, exp2: real -> real)
    requires leaves != []
  {
    && s.records == |leaves|
    && AreExtremes(leaves, MetricsOf(leaves).minimum, s.maximum)
    && AreMeans(s, leaves, log2, exp2)
    && s.harmonicMean == |leaves| as real / MetricsOf(leaves).occupied as real
    && s.worstSuccess == 1.0 / MetricsOf(leaves).minimum as real
  }

  lemma ExtremesOf(entries: seq<Entry>, leaves: Matrix)
    requires IsHistogram(entries, leaves) && entries != []
    ensures AreExtremes(leaves, Minimum(entries), Maximum(entries))
  {
    CountsAreCellSizes(entries, leaves);
    hide *;
    CountsBetween(entries);
    forall row | row in leaves ensures Minimum(entries) <= Occurrences(leaves, row) <= Maximum(entries) {
      var k :| 0 <= k < |entries| && entries[k].signature == row;
      assert Minimum(entries) <= entries[k].count <= Maximum(entries);
    }
    var low :| 0 <= low < |entries| && entries[low].count == Minimum(entries);
    var high :| 0 <= high < |entries| && entries[high].count == Maximum(entries);
    MakeExtremes(leaves, Minimum(entries), Maximum(entries), entries[low].signature, entries[high].signature);
  }

  lemma CountsBetween(entries: seq<Entry>)
    requires entries != []
    ensures forall k :: 0 <= k < |entries| ==> Minimum(entries) <= entries[k].count <= Maximum(entries)
    ensures exists k :: 0 <= k < |entries| && entries[k].count == Minimum(entries)
    ensures exists k :: 0 <= k < |entries| && entries[k].count == Maximum(entries)
  {
    var low :| 0 <= low < |entries| && entries[low].count == Minimum(entries);
    var high :| 0 <= high < |entries| && entries[high].count == Maximum(entries);
  }

  lemma MakeExtremes(leaves: Matrix, minimum: int, maximum: int, smallest: Row, largest: Row)
    requires forall row :: row in leaves ==> minimum <= Occurrences(leaves, row) <= maximum
    requires smallest in leaves && Occurrences(leaves, smallest) == minimum
    requires largest in leaves && Occurrences(leaves, largest) == maximum
    ensures AreExtremes(leaves, minimum, maximum)
  {
    hide Occurrences;
  }

  /** `signature_histogram`. */
  method SignatureHistogram(leaves: Matrix, log2: real -> real, exp2: real -> real)
    returns (entries: seq<Entry>, metrics: Metrics, spread: Spread)
    requires leaves != []
    ensures entries == Histogram(leaves) && IsHistogram(entries, leaves) && IsSorted(BySignature(), entries)
    ensures metrics == MetricsOf(leaves) && IsSpread(spread, leaves, log2, exp2)
  {
    hide CountRow, IsHistogram, Sorted;
    var counted: seq<Entry> := [];
    for n := 0 to |leaves|
      invariant counted == Counted(leaves[..n])
    {
      assert leaves[..n + 1][..n] == leaves[..n];
      counted := CountRow(counted, leaves[n]);
    }
    assert leaves[..|leaves|] == leaves;
    entries := Sorted(BySignature(), counted);
    HistogramIsHistogram(leaves);
    HistogramFacts(entries, leaves);
    metrics := Metrics(|entries|, Minimum(entries), |entries| as real / |leaves| as real);
    spread := SpreadOf(entries, leaves, log2, exp2);
  }

  method SpreadOf(entries: seq<Entry>, ghost leaves: Matrix, log2: real -> real, exp2: real -> real)
      returns (spread: Spread)
    requires leaves != [] && entries == Histogram(leaves) && entries != []
    ensures IsSpread(spread, leaves, log2, exp2)
  {
    HistogramIsHistogram(leaves);
    HistogramFacts(entries, leaves);
    hide *;
    MetricsRead(leaves);
    ExtremesOf(entries, leaves);
    var n := Total(entries);
    var entropy, singletons := EntropySum(entries, n, log2), SingletonSum(entries);
    spread := Spread(n, Maximum(entries), n as real / |entries| as real, exp2(entropy), SquareSum(entries) / n as real,
                     entropy, log2(n as real) - entropy, 1.0 / Minimum(entries) as real,
                     singletons, singletons as real / n as real);
    MeansOf(spread, entries, leaves, log2, exp2);
    MakeSpread(spread, leaves, log2, exp2);
  }

  lemma MetricsRead(leaves: Matrix)
    requires leaves != []
    ensures Histogram(leaves) != []
    ensures MetricsOf(leaves).minimum == Minimum(Histogram(leaves)) >= 1
    ensures MetricsOf(leaves).occupied == |Cells(leaves)| == |Histogram(leaves)|
    ensures MetricsOf(leaves).success == |Cells(leaves)| as real / |leaves| as real
  {
    HistogramIsHistogram(leaves);
    HistogramFacts(Histogram(leaves), leaves);
    hide Histogram, IsHistogram, Cells;
  }

  lemma MeansOf(s: Spread, entries: seq<Entry>, leaves: Matrix, log2: real -> real, exp2: real -> real)
    requires leaves != [] && IsHistogram(entries, leaves)
    requires s.arithmeticMean == SquareSum(entries) / |leaves| as real
        && s.entropy == EntropySum(entries, |leaves|, log2)
    requires s.geometricMean == exp2(s.entropy) && s.disclosed == log2(|leaves| as real) - s.entropy
    requires s.singletons == SingletonSum(entries) && s.singletonFraction == s.singletons as real / |leaves| as real
    ensures AreMeans(s, leaves, log2, exp2)
  {
    hide Cells, SquareSum, EntropySum, SingletonSum, RecordSum, CellSum, Occurrences, OwnCellSize, OwnEntropy, Alone;
    SumForms(entries, leaves, log2);
    CellSumIsRecordSum(entries, leaves, OwnCellSize(leaves));
    CellSumIsRecordSum(entries, leaves, OwnEntropy(leaves, log2));
    CellSumIsRecordSum(entries, leaves, Alone(leaves));
    hide IsHistogram;
  }

  lemma MakeSpread(s: Spread, leaves: Matrix, log2: real -> real, exp2: real -> real)
    requires leaves != [] && s.records == |leaves|
    requires AreExtremes(leaves, MetricsOf(leaves).minimum, s.maximum) && AreMeans(s, leaves, log2, exp2)
    requires s.harmonicMean == |leaves| as real / MetricsOf(leaves).occupied as real
    requires s.worstSuccess == 1.0 / MetricsOf(leaves).minimum as real
    ensures IsSpread(s, leaves, log2, exp2)
  {
    hide AreExtremes, AreMeans, MetricsOf;
  }

  // ---- Entropy bounds --------------------------------------------------------------

  lemma {:induction false} RecordSumAtMost(leaves: Matrix, f: Row -> real, bound: real)
    requires forall row :: row in leaves ==> f(row) <= bound
    ensures RecordSum(leaves, f) <= Weighed(|leaves|, bound)
  {
    hide Weighed;
    WeighedNext(|leaves| - 1, bound);
    WeighedNext(0, bound);
    if leaves != [] {
      var init, last := leaves[..|leaves| - 1], leaves[|leaves| - 1];
      assert leaves == init + [last];
      RecordSumAtMost(init, f, bound);
    }
  }

  lemma {:induction false} OccursAtMost(leaves: Matrix, row: Row)
    ensures Occurrences(leaves, row) <= |leaves|
  {
    if leaves != [] {
      OccursAtMost(leaves[..|leaves| - 1], row);
    }
  }

  lemma WeighedShare(x: real, n: nat)
    requires n > 0
    ensures Weighed(n, x / n as real) == x
  {
  }

  /** For any logarithm that does not decrease, the disclosed bits are never negative. */
  lemma DisclosureIsNonNegative(s: Spread, leaves: Matrix, log2: real -> real, exp2: real -> real)
    requires leaves != [] && IsSpread(s, leaves, log2, exp2) && forall x, y :: 1.0 <= x <= y ==> log2(x) <= log2(y)
    ensures s.disclosed >= 0.0
  {
    var n := |leaves|;
    var bound := log2(n as real) / n as real;
    forall row | row in leaves ensures OwnEntropy(leaves, log2)(row) <= bound {
      var i :| 0 <= i < n && leaves[i] == row;
      PresentRow(leaves, i);
      OccursAtMost(leaves, row);
      QuotientOrder(log2(Occurrences(leaves, row) as real), log2(n as real), n as real);
    }
    hide Weighed, RecordSum, Occurrences, OwnEntropy, MetricsOf, AreExtremes;
    RecordSumAtMost(leaves, OwnEntropy(leaves, log2), bound);
    WeighedShare(log2(n as real), n);
  }

  /** The chance of naming a record from its cell: one over the size of the cell. */
  function OwnShare(leaves: Matrix): Row -> real {
    row => if Occurrences(leaves, row) > 0 then 1.0 / Occurrences(leaves, row) as real else 0.0
  }

  lemma {:induction false} SharesOfCells(entries: seq<Entry>, leaves: Matrix)
    requires CountsOccurrences(entries, leaves) && forall k :: 0 <= k < |entries| ==> entries[k].count > 0
    ensures CellSum(entries, OwnShare(leaves)) == |entries| as real
  {
    hide Occurrences, Weighed;
    if entries != [] {
      var last := entries[|entries| - 1];
      SharesOfCells(entries[..|entries| - 1], leaves);
      WholeCell(last.count);
    }
  }

  lemma WholeCell(count: int)
    requires count > 0
    ensures Weighed(count, 1.0 / count as real) == 1.0
  {
  }

  /** The records' chances of being named add up to the number of cells: the success is their mean, and the
      harmonic mean is that of the sizes of the records' own cells. */
  lemma SuccessIsMeanShare(leaves: Matrix)
    requires leaves != []
    ensures RecordSum(leaves, OwnShare(leaves)) == |Cells(leaves)| as real
    ensures MetricsOf(leaves).success == RecordSum(leaves, OwnShare(leaves)) / |leaves| as real
  {
    var entries := Histogram(leaves);
    HistogramIsHistogram(leaves);
    HistogramFacts(entries, leaves);
    CountsAreCellSizes(entries, leaves);
    CellSumIsRecordSum(entries, leaves, OwnShare(leaves));
    SharesOfCells(entries, leaves);
    hide RecordSum, CellSum, OwnShare, Histogram, Cells;
  }
}
