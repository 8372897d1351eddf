/** What the printed digest says about its sources: the figures and fields of the index, of the opening
    lines and of every table's heading, read off the lines themselves. */
module DigestFigures {
  import opened FiniteSets
  import opened TableText
  import opened TextLines
  import opened DisplayedTables
  import opened DigestRoundTrip
  import opened DigestText

  // ---- Reading ---------------------------------------------------------------------

  predicate IsDigits(s: string) {
    forall i :: 0 <= i < |s| ==> '0' <= s[i] <= '9'
  }

  /** The number that a row of digits stands for. */
  function ValueOf(s: string): nat
    requires IsDigits(s)
  {
    if s == "" then 0 else 10 * ValueOf(s[..|s| - 1]) + (s[|s| - 1] - '0') as nat
  }

  lemma DigitReadsBack(n: nat)
    requires n < 10
    ensures '0' <= Digit(n) <= '9' && (Digit(n) - '0') as nat == n
  {
  }

  /** A printed number reads back, and is printed without leading zeros. */
  lemma {:induction false} DecimalReadsBack(n: nat)
    ensures IsDigits(Decimal(n)) && Decimal(n) != "" && ValueOf(Decimal(n)) == n
    ensures n > 0 ==> Decimal(n)[0] != '0'
    ensures n < 10 ==> |Decimal(n)| == 1
  {
    DigitReadsBack(n % 10);
    if n >= 10 {
      DecimalReadsBack(n / 10);
      assert Decimal(n)[..|Decimal(n)| - 1] == Decimal(n / 10);
    } else {
      assert Decimal(n)[..0] == "";
    }
  }

  lemma {:induction false} LeadingZero(s: string)
    requires IsDigits(s)
    ensures IsDigits("0" + s) && ValueOf("0" + s) == ValueOf(s)
  {
    if s == "" {
      assert ("0" + s)[..0] == "";
    } else {
      LeadingZero(s[..|s| - 1]);
      assert ("0" + s)[..|s|] == "0" + s[..|s| - 1];
    }
  }

  lemma ThreeDigitsReadBack(n: nat)
    ensures IsDigits(ThreeDigits(n)) && |ThreeDigits(n)| >= 3 && ValueOf(ThreeDigits(n)) == n
  {
    DecimalReadsBack(n);
    hide Decimal;
    LeadingZero(Decimal(n));
    LeadingZero("0" + Decimal(n));
    assert "00" + Decimal(n) == "0" + ("0" + Decimal(n));
  }

  // ---- Counting --------------------------------------------------------------------

  /** The block lines beyond the first two of each table: table number and line number. */
  ghost function BodyLines(tables: seq<Table>): set<(int, int)> {
    set k: int, j: int | 0 <= k < |tables| && 2 <= j < |tables[k].block| :: (k, j)
  }

  lemma {:induction false} RowsAreBodyLines(tables: seq<Table>)
    ensures TotalRows(tables) == |BodyLines(tables)|
  {
    if tables == [] {
      assert BodyLines(tables) == {};
    } else {
      var init, last: int := tables[..|tables| - 1], |tables| - 1;
      RowsAreBodyLines(init);
      LinesOfSize(tables[last].block, last);
      BodyLinesGrow(tables);
    }
  }

  lemma BodyLinesGrow(tables: seq<Table>)
    requires tables != []
    ensures var last := |tables| - 1;
      |BodyLines(tables)| == |BodyLines(tables[..last])| + |LinesOf(tables[last].block, last)|
  {
    var init, last := tables[..|tables| - 1], |tables| - 1;
    var own := LinesOf(tables[last].block, last);
    assert BodyLines(tables) == BodyLines(init) + own;
    assert BodyLines(init) !! own;
  }

  ghost function LinesOf(block: seq<string>, k: int): set<(int, int)> {
    set j: int | 2 <= j < |block| :: (k, j)
  }

  lemma {:induction false} LinesOfSize(block: seq<string>, k: int)
    ensures |LinesOf(block, k)| == if |block| >= 2 then |block| - 2 else 0
  {
    if |block| > 2 {
      LinesOfSize(block[..|block| - 1], k);
      assert LinesOf(block, k) == LinesOf(block[..|block| - 1], k) + {(k, |block| - 1)};
    } else {
      assert LinesOf(block, k) == {};
    }
  }

  // ---- The index -------------------------------------------------------------------

  /** Five cells between bars. */
  function Row(a: string, b: string, c: string, d: string, e: string): string {
    "" + ['|'] + a + ['|'] + b + ['|'] + c + ['|'] + d + ['|'] + e + ['|'] + ""
  }

  lemma SplitRow(a: string, b: string, c: string, d: string, e: string)
    requires '|' !in a && '|' !in b && '|' !in c && '|' !in d && '|' !in e
    ensures SplitAt(Row(a, b, c, d, e), '|') == ["", a, b, c, d, e, ""]
  {
    var s1 := "" + ['|'] + a;
    var s2 := s1 + ['|'] + b;
    var s3 := s2 + ['|'] + c;
    var s4 := s3 + ['|'] + d;
    var s5 := s4 + ['|'] + e;
    SplitWhole("", '|');
    hide SplitAt;
    SplitLast("", a, '|');
    SplitLast(s1, b, '|');
    SplitLast(s2, c, '|');
    SplitLast(s3, d, '|');
    SplitLast(s4, e, '|');
    SplitLast(s5, "", '|');
  }

  /** The bars of a row are the six around its cells and those within them. */
  lemma RowBars(a: string, b: string, c: string, d: string, e: string)
    ensures multiset(Row(a, b, c, d, e))['|']
         == 6 + multiset(a)['|'] + multiset(b)['|'] + multiset(c)['|'] + multiset(d)['|'] + multiset(e)['|']
  {
  }

  /** The cells of the index row of a report, with their figures counted afresh. */
  function FamilyCell(d: Document): string {
    " " + d.family + " "
  }

  function LinkCell(d: Document): string {
    " [" + d.relative + "](" + ACADEMIC_URL + d.relative + ") "
  }

  function NumberCell(n: nat): string {
    " " + Decimal(n) + " "
  }

  function StatusCell(d: Document): string {
    " " + d.status + " "
  }

  lemma IndexRowIs(d: Document)
    ensures IndexRow(d) == Row(FamilyCell(d), LinkCell(d), NumberCell(|d.tables|), NumberCell(|BodyLines(d.tables)|),
                               StatusCell(d))
  {
    RowsAreBodyLines(d.tables);
    hide *;
    CellsAreRow(d.family, d.relative, ACADEMIC_URL, Decimal(|d.tables|), Decimal(|BodyLines(d.tables)|), d.status);
    IndexRowSpelled(d);
    CellsSpelled(d, |BodyLines(d.tables)|);
  }

  lemma IndexRowSpelled(d: Document)
    ensures IndexRow(d)
         == "| " + (d.family + " | [" + d.relative + "](" + ACADEMIC_URL + d.relative + ") | " + Decimal(|d.tables|)
                    + " | " + Decimal(TotalRows(d.tables)) + " | " + d.status) + " |"
  {
    hide Decimal, TotalRows, ACADEMIC_URL;
  }

  lemma CellsSpelled(d: Document, rows: nat)
    ensures FamilyCell(d) == " " + d.family + " " && StatusCell(d) == " " + d.status + " "
    ensures LinkCell(d) == " [" + d.relative + "](" + ACADEMIC_URL + d.relative + ") "
    ensures NumberCell(|d.tables|) == " " + Decimal(|d.tables|) + " " && NumberCell(rows) == " " + Decimal(rows) + " "
  {
    hide Decimal, ACADEMIC_URL;
  }

  lemma NextCell(head: string, x: string)
    ensures head + ['|'] + " " + x + " | " == head + ['|'] + (" " + x + " ") + ['|'] + " "
  {
    assert " | " == " " + ['|'] + " ";
  }

  lemma LinkEnds(head: string, x: string)
    ensures head + ['|'] + x + ") | " == head + ['|'] + (x + ") ") + ['|'] + " "
  {
    assert ") | " == ") " + ['|'] + " ";
  }

  lemma Regroup(a: string, b: string, c: string)
    ensures a + (b + c) == a + b + c
  {
  }

  lemma CellsAreRow(f: string, r: string, u: string, t: string, n: string, st: string)
    ensures "| " + (f + " | [" + r + "](" + u + r + ") | " + t + " | " + n + " | " + st) + " |"
         == Row(" " + f + " ", " [" + r + "](" + u + r + ") ", " " + t + " ", " " + n + " ", " " + st + " ")
  {
    var s1 := "" + ['|'] + (" " + f + " ");
    var link := " [" + r + "](" + u + r;
    var s2 := s1 + ['|'] + (link + ") ");
    var s3 := s2 + ['|'] + (" " + t + " ");
    var s4 := s3 + ['|'] + (" " + n + " ");
    var s5 := s4 + ['|'] + (" " + st + " ");
    var c5 := f + " | [" + r + "](" + u + r;
    var c6 := c5 + ") | ";
    var c8 := c6 + t + " | ";
    var c10 := c8 + n + " | ";
    OpensRow(f, r, u);
    assert "| " + c5 == s1 + ['|'] + link;
    Regroup("| ", c5, ") | ");
    LinkEnds(s1, link);
    assert "| " + c6 == s2 + ['|'] + " ";
    CellAdded("| ", c6, t, s2);
    assert "| " + c8 == s3 + ['|'] + " ";
    CellAdded("| ", c8, n, s3);
    assert "| " + c10 == s4 + ['|'] + " ";
    RowEnds("| ", c10, st, s4);
  }

  lemma OpensRow(f: string, r: string, u: string)
    ensures "| " + (f + " | [" + r + "](" + u + r) == "" + ['|'] + (" " + f + " ") + ['|'] + (" [" + r + "](" + u + r)
  {
    assert "| " == ['|'] + " " && " | [" == " " + ['|'] + " [";
  }

  lemma CellAdded(open: string, c: string, x: string, head: string)
    requires open + c == head + ['|'] + " "
    ensures open + (c + x + " | ") == head + ['|'] + (" " + x + " ") + ['|'] + " "
  {
    Regroup(open, c + x, " | ");
    Regroup(open, c, x);
    NextCell(head, x);
  }

  lemma RowEnds(open: string, c: string, x: string, head: string)
    requires open + c == head + ['|'] + " "
    ensures open + (c + x) + " |" == head + ['|'] + (" " + x + " ") + ['|'] + ""
  {
    Regroup(open, c, x);
    assert " |" == " " + ['|'];
  }

  predicate NoBars(d: Document) {
    '|' !in d.family && '|' !in d.relative && '|' !in d.status
  }

  lemma NumberHoldsNoBar(n: nat)
    ensures '|' !in NumberCell(n)
  {
    DecimalReadsBack(n);
    hide Decimal;
  }

  lemma UrlHoldsNoBar()
    ensures '|' !in ACADEMIC_URL
  {
    assert '|' !in "https://github.com/elmontu/" && '|' !in "AI_Model_Academic/blob/";
    assert '|' !in ACADEMIC_COMMIT;
  }

  lemma FieldBars(d: Document)
    ensures NoBars(d) <==> '|' !in FamilyCell(d) && '|' !in LinkCell(d) && '|' !in StatusCell(d)
  {
    UrlHoldsNoBar();
    hide ACADEMIC_URL;
    AroundHoldsNoBar(" ", d.family, " ");
    AroundHoldsNoBar(" ", d.status, " ");
    AroundHoldsNoBar(" [", d.relative, "](");
    AroundHoldsNoBar("", ACADEMIC_URL, d.relative);
    Regroup(" [" + d.relative + "](", ACADEMIC_URL, d.relative);
    AroundHoldsNoBar(" [" + d.relative + "](", ACADEMIC_URL + d.relative, ") ");
    assert "" + ACADEMIC_URL + d.relative == ACADEMIC_URL + d.relative;
  }

  lemma AroundHoldsNoBar(a: string, b: string, c: string)
    ensures '|' !in a + b + c <==> '|' !in a && '|' !in b && '|' !in c
  {
  }

  /** The index row splits at its bars into five cells exactly when no field holds a bar; the cells are then
      the family, the link, the number of tables, the number of their lines beyond the first two, and the
      status. */
  lemma IndexRowReadsBack(d: Document)
    ensures |SplitAt(IndexRow(d), '|')| == 7 <==> NoBars(d)
    ensures NoBars(d) ==>
      SplitAt(IndexRow(d), '|')
      == ["", " " + d.family + " ", " [" + d.relative + "](" + ACADEMIC_URL + d.relative + ") ",
          " " + Decimal(|d.tables|) + " ", " " + Decimal(|BodyLines(d.tables)|) + " ", " " + d.status + " ", ""]
  {
    IndexRowSplits(d);
    CellsSpelled(d, |BodyLines(d.tables)|);
    hide *;
  }

  lemma IndexRowSplits(d: Document)
    ensures |SplitAt(IndexRow(d), '|')| == 7 <==> NoBars(d)
    ensures NoBars(d) ==>
      SplitAt(IndexRow(d), '|') == ["", FamilyCell(d), LinkCell(d), NumberCell(|d.tables|),
                                    NumberCell(|BodyLines(d.tables)|), StatusCell(d), ""]
  {
    hide *;
    IndexRowIs(d);
    FieldBars(d);
    NumberHoldsNoBar(|d.tables|);
    NumberHoldsNoBar(|BodyLines(d.tables)|);
    RowSplits(IndexRow(d), FamilyCell(d), LinkCell(d), NumberCell(|d.tables|), NumberCell(|BodyLines(d.tables)|),
              StatusCell(d));
  }

  lemma RowSplits(row: string, a: string, b: string, c: string, d: string, e: string)
    requires row == Row(a, b, c, d, e) && '|' !in c && '|' !in d
    ensures |SplitAt(row, '|')| == 7 <==> '|' !in a && '|' !in b && '|' !in e
    ensures '|' !in a && '|' !in b && '|' !in e ==> SplitAt(row, '|') == ["", a, b, c, d, e, ""]
  {
    hide *;
    SplitCount(row, '|');
    RowBars(a, b, c, d, e);
    if '|' !in a && '|' !in b && '|' !in e {
      SplitRow(a, b, c, d, e);
    }
  }

  // ---- Totals ----------------------------------------------------------------------

  /** All tables: report number and table number. */
  ghost function TablePlaces(docs: seq<Document>): set<(int, int)> {
    set i: int, k: int | 0 <= i < |docs| && 0 <= k < |docs[i].tables| :: (i, k)
  }

  /** Their block lines beyond the first two: report number, table number and line number. */
  ghost function BodyPlaces(docs: seq<Document>): set<(int, int, int)> {
    set i: int, k: int, j: int |
      0 <= i < |docs| && 0 <= k < |docs[i].tables| && 2 <= j < |docs[i].tables[k].block| :: (i, k, j)
  }

  lemma {:induction false} TotalRowsAppend(a: seq<Table>, b: seq<Table>)
    ensures TotalRows(a + b) == TotalRows(a) + TotalRows(b)
  {
    if b == [] {
      assert a + b == a;
    } else {
      TotalRowsAppend(a, b[..|b| - 1]);
      assert (a + b)[..|a + b| - 1] == a + b[..|b| - 1];
    }
  }

  lemma {:induction false} TablesAreCounted(docs: seq<Document>)
    ensures |AllTables(docs)| == |TablePlaces(docs)| && TotalRows(AllTables(docs)) == |BodyPlaces(docs)|
  {
    if docs == [] {
      assert TablePlaces(docs) == {} && BodyPlaces(docs) == {};
    } else {
      var last := |docs| - 1;
      TablesAreCounted(docs[..last]);
      TotalRowsAppend(AllTables(docs[..last]), docs[last].tables);
      RowsAreBodyLines(docs[last].tables);
      hide TotalRows, TablePlaces, BodyPlaces, BodyLines;
      TablePlacesGrow(docs);
      BodyPlacesGrow(docs);
    }
  }

  lemma TablePlacesGrow(docs: seq<Document>)
    requires docs != []
    ensures |TablePlaces(docs)| == |TablePlaces(docs[..|docs| - 1])| + |docs[|docs| - 1].tables|
  {
    var init, last := docs[..|docs| - 1], |docs| - 1;
    var own := Slice(last, Below(|docs[last].tables|));
    SliceSize(last, Below(|docs[last].tables|));
    hide Below;
    assert TablePlaces(docs) == TablePlaces(init) + own;
    assert TablePlaces(init) !! own;
  }

  ghost function InReport(i: int, places: set<(int, int)>): set<(int, int, int)> {
    set p | p in places :: (i, p.0, p.1)
  }

  lemma {:induction false} InReportSize(i: int, places: set<(int, int)>)
    ensures |InReport(i, places)| == |places|
  {
    if |places| == 0 {
      assert InReport(i, places) == {};
    } else {
      var p := AnyOf(places);
      InReportSize(i, places - {p});
      assert InReport(i, places) == InReport(i, places - {p}) + {(i, p.0, p.1)};
    }
  }

  lemma BodyPlacesGrow(docs: seq<Document>)
    requires docs != []
    ensures |BodyPlaces(docs)| == |BodyPlaces(docs[..|docs| - 1])| + |BodyLines(docs[|docs| - 1].tables)|
  {
    var init, last := docs[..|docs| - 1], |docs| - 1;
    var own := InReport(last, BodyLines(docs[last].tables));
    InReportSize(last, BodyLines(docs[last].tables));
    BodyPlacesSplit(docs);
    assert BodyPlaces(init) !! own;
  }

  lemma BodyPlacesSplit(docs: seq<Document>)
    requires docs != []
    ensures BodyPlaces(docs)
         == BodyPlaces(docs[..|docs| - 1]) + InReport(|docs| - 1, BodyLines(docs[|docs| - 1].tables))
  {
    var init, last := docs[..|docs| - 1], |docs| - 1;
    forall i, k, j ensures (i, k, j) in BodyPlaces(docs)
                      <==> (i, k, j) in BodyPlaces(init) + InReport(last, BodyLines(docs[last].tables)) {
      assert (i, k, j) in InReport(last, BodyLines(docs[last].tables))
        <==> i == last && (k, j) in BodyLines(docs[last].tables);
    }
  }

  // ---- Where it is printed ---------------------------------------------------------

  /** The two lines that state the totals, and where they stand. */
  lemma TotalsArePrinted(w: Wording, docs: seq<Document>)
    ensures var lines, at := DigestLines(w, docs), 1 + |w.scope|;
      && at + 1 < |lines|
      && lines[at] == "**Compiled scope:** "
                      + (Decimal(|set i | 0 <= i < |docs| :: docs[i].family|) + " dated families, "
                         + Decimal(|docs|) + " source documents,")
      && lines[at + 1] == Decimal(|TablePlaces(docs)|)
                          + (" Markdown tables and " + Decimal(|BodyPlaces(docs)|) + " displayed data rows. A row is")
  {
    TablesAreCounted(docs);
    OpeningStarts(w, docs);
    hide AllTables, TotalRows, TablePlaces, BodyPlaces, Decimal, IndexBlock, Sections, Bridge, Opening;
  }

  lemma OpeningStarts(w: Wording, docs: seq<Document>)
    ensures var lines, at := Opening(w, docs), 1 + |w.scope|;
      && |lines| == |w.scope| + |w.provenance| + 3
      && lines[at] == ScopeLine(|Families(docs)|, |docs|)
      && lines[at + 1] == CountLine(|AllTables(docs)|, TotalRows(AllTables(docs)))
  {
    hide AllTables, TotalRows, Decimal, ScopeLine, CountLine, Families;
  }

  /** Where the index row of report i stands. */
  function RowPlace(w: Wording, i: nat): nat {
    |w.scope| + |w.provenance| + 5 + i
  }

  /** Every report has its index row, which reads back as its fields and figures. */
  lemma IndexIsPrinted(w: Wording, docs: seq<Document>, i: nat)
    requires i < |docs|
    ensures var lines, at, d := DigestLines(w, docs), RowPlace(w, i), docs[i];
      && at < |lines|
      && (|SplitAt(lines[at], '|')| == 7 <==> NoBars(d))
      && (NoBars(d) ==>
            SplitAt(lines[at], '|')
            == ["", " " + d.family + " ", " [" + d.relative + "](" + ACADEMIC_URL + d.relative + ") ",
                " " + Decimal(|d.tables|) + " ", " " + Decimal(|BodyLines(d.tables)|) + " ", " " + d.status + " ", ""])
  {
    RowStands(w, docs, i);
    IndexRowReadsBack(docs[i]);
    hide *;
  }

  lemma RowStands(w: Wording, docs: seq<Document>, i: nat)
    requires i < |docs|
    ensures RowPlace(w, i) < |DigestLines(w, docs)| && DigestLines(w, docs)[RowPlace(w, i)] == IndexRow(docs[i])
  {
    assert RowPlace(w, i) == |w.scope| + |w.provenance| + 5 + i;
    hide *;
    OpeningStarts(w, docs);
    RowOfBlock(docs, i);
    DigestParts(w, docs);
    InSecondPart(Opening(w, docs), IndexBlock(docs), Bridge(w), Sections(w, docs), 2 + i);
  }

  lemma RowOfBlock(docs: seq<Document>, i: nat)
    requires i < |docs|
    ensures 2 + i < |IndexBlock(docs)| && IndexBlock(docs)[2 + i] == IndexRow(docs[i])
  {
    hide IndexRow, INDEX_HEADER, INDEX_SEPARATOR;
  }

  lemma InSecondPart(a: seq<string>, b: seq<string>, c: seq<string>, d: seq<string>, k: nat)
    requires k < |b|
    ensures |a| + k < |a + b + c + d| && (a + b + c + d)[|a| + k] == b[k]
  {
  }

  /** Where the section of report i starts. */
  ghost function SectionPlace(w: Wording, docs: seq<Document>, i: nat): nat
    requires i <= |docs|
  {
    |Preface(w, docs)| + |Sections(w, docs[..i])|
  }

  /** The lines before the sections. */
  ghost function Preface(w: Wording, docs: seq<Document>): seq<string> {
    Opening(w, docs) + IndexBlock(docs) + Bridge(w)
  }

  lemma SectionsFollowPreface(w: Wording, docs: seq<Document>)
    ensures DigestLines(w, docs) == Preface(w, docs) + Sections(w, docs[..|docs|])
  {
    DigestParts(w, docs);
    assert docs[..|docs|] == docs;
    hide DigestLines, Sections;
  }

  lemma SectionPlaceIs(w: Wording, docs: seq<Document>, i: nat)
    requires i <= |docs|
    ensures SectionPlace(w, docs, i) == |Preface(w, docs)| + |Sections(w, docs[..i])|
  {
    hide Preface, Sections;
  }

  /** Part of a list from a place on. */
  predicate StandsAt(lines: seq<string>, at: nat, part: seq<string>) {
    at + |part| <= |lines| && forall k :: 0 <= k < |part| ==> lines[at + k] == part[k]
  }

  lemma StandsWithin(lines: seq<string>, at: nat, part: seq<string>, more: nat, inner: seq<string>)
    requires StandsAt(lines, at, part) && StandsAt(part, more, inner)
    ensures StandsAt(lines, at + more, inner)
  {
    forall k | 0 <= k < |inner| ensures lines[at + more + k] == inner[k] {
      assert lines[at + (more + k)] == part[more + k];
    }
  }

  lemma {:induction false} SectionStands(w: Wording, docs: seq<Document>, i: nat, n: nat)
    requires i < n <= |docs|
    ensures StandsAt(Sections(w, docs[..n]), |Sections(w, docs[..i])|, Section(w, docs[i], |AllTables(docs[..i])|))
    decreases n
  {
    hide Section;
    SectionsGrow(w, docs, n - 1);
    if i < n - 1 {
      SectionStands(w, docs, i, n - 1);
      StandsLonger(Sections(w, docs[..n - 1]), |Sections(w, docs[..i])|, Section(w, docs[i], |AllTables(docs[..i])|),
                   Section(w, docs[n - 1], |AllTables(docs[..n - 1])|));
    }
  }

  lemma StandsLonger(lines: seq<string>, at: nat, part: seq<string>, more: seq<string>)
    requires StandsAt(lines, at, part)
    ensures StandsAt(lines + more, at, part)
  {
  }

  lemma SectionStandsInDigest(w: Wording, docs: seq<Document>, i: nat)
    requires i < |docs|
    ensures StandsAt(DigestLines(w, docs), SectionPlace(w, docs, i), Section(w, docs[i], |AllTables(docs[..i])|))
  {
    hide *;
    SectionStands(w, docs, i, |docs|);
    SectionsFollowPreface(w, docs);
    SectionPlaceIs(w, docs, i);
    AfterPreface(Preface(w, docs), Sections(w, docs[..|docs|]), |Sections(w, docs[..i])|,
                 Section(w, docs[i], |AllTables(docs[..i])|));
  }

  lemma AfterPreface(preface: seq<string>, lines: seq<string>, at: nat, part: seq<string>)
    requires StandsAt(lines, at, part)
    ensures StandsAt(preface + lines, |preface| + at, part)
  {
    forall k | 0 <= k < |part| ensures (preface + lines)[|preface| + at + k] == part[k] {
      assert (preface + lines)[|preface| + (at + k)] == lines[at + k];
    }
  }

  /** Every report has its section: its title, its source, its digest and its status. */
  lemma SectionIsPrinted(w: Wording, docs: seq<Document>, i: nat)
    requires i < |docs|
    ensures var lines, at, d := DigestLines(w, docs), SectionPlace(w, docs, i), docs[i];
      && at + 5 <= |lines|
      && lines[at] == "### " + (d.family + ": " + BaseName(d.relative)) && lines[at + 1] == "" == lines[at + 4]
      && lines[at + 2] == "Curated source: [" + (d.relative + "](" + ACADEMIC_URL + d.relative + ") \U{B7}")
      && lines[at + 3] == "published SHA-256 `" + (d.sha + "` \U{B7} " + d.status + ".")
      && (d.tables == [] ==> at + 7 <= |lines| && lines[at + 5] == w.noTables && lines[at + 6] == "")
  {
    SectionStandsInDigest(w, docs, i);
    hide DigestLines, SectionPlace, AllTables, BaseName, ACADEMIC_URL, TableSections;
    var lines, at, d := DigestLines(w, docs), SectionPlace(w, docs, i), docs[i];
    var section := Section(w, d, |AllTables(docs[..i])|);
    HeadOfSection(w, d, |AllTables(docs[..i])|);
    hide Section;
    assert lines[at + 0] == section[0];
  }

  lemma HeadOfSection(w: Wording, d: Document, before: nat)
    ensures var section := Section(w, d, before);
      && |section| >= 5 && section[0] == SectionTitle(d) && section[1] == "" == section[4]
      && section[2] == CuratedLine(d) && section[3] == ShaLine(d)
      && (d.tables == [] ==> |section| == 7 && section[5] == w.noTables && section[6] == "")
  {
    hide TableSections, SectionTitle, CuratedLine, ShaLine;
  }

  /** The tables that come before table k of report i. */
  ghost function EarlierTables(docs: seq<Document>, i: nat, k: nat): set<(int, int)> {
    set a: int, b: int | 0 <= a < |docs| && 0 <= b < |docs[a].tables| && (a < i || (a == i && b < k)) :: (a, b)
  }

  lemma EarlierTablesAreCounted(docs: seq<Document>, i: nat, k: nat)
    requires i < |docs| && k <= |docs[i].tables|
    ensures |EarlierTables(docs, i, k)| == |AllTables(docs[..i])| + k
  {
    TablesAreCounted(docs[..i]);
    SliceSize(i as int, Below(k));
    EarlierTablesSplit(docs, i, k);
    hide Below, AllTables, EarlierTables;
    assert TablePlaces(docs[..i]) !! Slice(i as int, Below(k));
  }

  lemma EarlierTablesSplit(docs: seq<Document>, i: nat, k: nat)
    requires i < |docs| && k <= |docs[i].tables|
    ensures EarlierTables(docs, i, k) == TablePlaces(docs[..i]) + Slice(i as int, Below(k))
  {
    var before, own := TablePlaces(docs[..i]), Slice(i as int, Below(k));
    hide Below;
    forall a, b ensures (a, b) in EarlierTables(docs, i, k) <==> (a, b) in before || (a, b) in own {
      assert 0 <= a < i ==> docs[..i][a] == docs[a];
    }
  }

  /** Every table is printed under its number in the whole digest, its heading and its source line. */
  lemma TableIsPrinted(w: Wording, docs: seq<Document>, i: nat, k: nat) returns (at: nat)
    requires i < |docs| && k < |docs[i].tables|
    ensures var lines, d, t := DigestLines(w, docs), docs[i], docs[i].tables[k];
      && at + 5 + |t.block| <= |lines|
      && lines[at] == "#### " + ("T" + ThreeDigits(|EarlierTables(docs, i, k)| + 1) + ": " + t.heading)
      && lines[at + 1] == "" == lines[at + 3] && lines[at + 4 + |t.block|] == ""
      && lines[at + 2] == "Source: ["
                          + (d.relative + ":L" + Decimal(t.line) + "](" + ACADEMIC_URL + d.relative + "#L"
                             + Decimal(t.line) + ").")
      && lines[at + 4..at + 4 + |t.block|] == t.block
  {
    hide *;
    var d, number := docs[i], |AllTables(docs[..i])|;
    at := SectionPlace(w, docs, i) + 5 + |TableSections(d, k, number)|;
    SectionStandsInDigest(w, docs, i);
    TableStandsInSection(w, d, k, number);
    StandsWithin(DigestLines(w, docs), SectionPlace(w, docs, i), Section(w, d, number),
                 5 + |TableSections(d, k, number)|, TableLines(d, d.tables[k], number + k + 1));
    EarlierTablesAreCounted(docs, i, k);
    TableLinesStand(DigestLines(w, docs), at, d, d.tables[k], |EarlierTables(docs, i, k)| + 1);
  }

  lemma TableStandsInSection(w: Wording, d: Document, k: nat, number: nat)
    requires k < |d.tables|
    ensures StandsAt(Section(w, d, number), 5 + |TableSections(d, k, number)|,
                     TableLines(d, d.tables[k], number + k + 1))
  {
    hide *;
    TablesOfSection(w, d, number);
    TableStands(d, k, |d.tables|, number);
    StandsWithin(Section(w, d, number), 5, TableSections(d, |d.tables|, number), |TableSections(d, k, number)|,
                 TableLines(d, d.tables[k], number + k + 1));
  }

  lemma TableLinesStand(lines: seq<string>, at: nat, d: Document, t: Table, number: nat)
    requires StandsAt(lines, at, TableLines(d, t, number))
    ensures at + 5 + |t.block| <= |lines|
    ensures lines[at] == "#### " + ("T" + ThreeDigits(number) + ": " + t.heading)
    ensures lines[at + 1] == "" == lines[at + 3] && lines[at + 4 + |t.block|] == ""
    ensures lines[at + 2] == "Source: ["
                             + (d.relative + ":L" + Decimal(t.line) + "](" + ACADEMIC_URL + d.relative + "#L"
                                + Decimal(t.line) + ").")
    ensures lines[at + 4..at + 4 + |t.block|] == t.block
  {
    hide *;
    TableLinesAre(d, t, number);
    StandsWithin(lines, at, TableLines(d, t, number), 4, t.block);
    FirstFour(lines, at, TableLines(d, t, number), t.block);
  }

  lemma FirstFour(lines: seq<string>, at: nat, printed: seq<string>, block: seq<string>)
    requires StandsAt(lines, at, printed) && |printed| == 5 + |block| && StandsAt(lines, at + 4, block)
    ensures at + 5 + |block| <= |lines| && lines[at + 4..at + 4 + |block|] == block
    ensures lines[at] == printed[0] && lines[at + 1] == printed[1] && lines[at + 2] == printed[2]
    ensures lines[at + 3] == printed[3] && lines[at + 4 + |block|] == printed[4 + |block|]
  {
    assert lines[at + 0] == printed[0] && lines[at + (4 + |block|)] == printed[4 + |block|];
  }

  /** What is printed for one table. */
  ghost function TableLines(d: Document, t: Table, number: nat): seq<string> {
    TableHead(d, t, number) + t.block + [""]
  }

  lemma TableLinesAre(d: Document, t: Table, number: nat)
    ensures var printed := TableLines(d, t, number);
      && |printed| == 5 + |t.block| && StandsAt(printed, 4, t.block)
      && printed[0] == "#### " + ("T" + ThreeDigits(number) + ": " + t.heading)
      && printed[1] == "" == printed[3] && printed[4 + |t.block|] == ""
      && printed[2] == "Source: ["
                       + (d.relative + ":L" + Decimal(t.line) + "](" + ACADEMIC_URL + d.relative + "#L"
                          + Decimal(t.line) + ").")
  {
    hide ThreeDigits, Decimal, ACADEMIC_URL;
  }

  lemma TablesOfSection(w: Wording, d: Document, number: nat)
    requires d.tables != []
    ensures StandsAt(Section(w, d, number), 5, TableSections(d, |d.tables|, number))
  {
    hide TableSections, SectionTitle, CuratedLine, ShaLine;
  }

  lemma {:induction false} TableStands(d: Document, k: nat, n: nat, number: nat)
    requires k < n <= |d.tables|
    ensures StandsAt(TableSections(d, n, number), |TableSections(d, k, number)|,
                     TableLines(d, d.tables[k], number + k + 1))
    decreases n
  {
    hide TableHead;
    if k < n - 1 {
      TableStands(d, k, n - 1, number);
      StandsLonger(TableSections(d, n - 1, number), |TableSections(d, k, number)|,
                   TableLines(d, d.tables[k], number + k + 1), TableLines(d, d.tables[n - 1], number + n));
    }
  }

  // ---- In the text -----------------------------------------------------------------

  /** A line that does not end in white space is still there once the end is trimmed. */
  lemma {:induction false} TrimEndKeeps(lines: seq<string>, p: nat)
    requires p < |lines| && lines[p] != "" && !IsSpace(lines[p][|lines[p]| - 1])
    ensures p < |TrimEnd(lines)| && TrimEnd(lines)[p] == lines[p]
  {
    if p == |lines| - 1 {
      RStripOfStripped(lines[p]);
    } else if RStrip(lines[|lines| - 1]) == "" {
      TrimEndKeeps(lines[..|lines| - 1], p);
    }
  }

  /** Every printed line that does not end in white space is a line of the text, at its place. */
  lemma {:induction false} LineIsInText(w: Wording, sources: seq<Source>, p: nat)
    requires Mismatches(sources) == [] && forall i :: 0 <= i < |sources| ==> FieldsAreOneLine(sources[i])
    requires var lines := DigestLines(w, AllRendered(sources));
      p < |lines| && lines[p] != "" && !IsSpace(lines[p][|lines[p]| - 1])
    ensures p < |SplitLines(DigestOf(w, sources))|
    ensures SplitLines(DigestOf(w, sources))[p] == DigestLines(w, AllRendered(sources))[p]
  {
    hide DigestLines, SplitLines, TextOf, TrimEnd, IsLineByLine, FieldsAreOneLine, Rendered;
    forall i | 0 <= i < |sources| ensures IsLineByLine(AllRendered(sources)[i]) {
      RenderedIsLineByLine(sources, i);
    }
    DigestLinesAreOneLine(w, AllRendered(sources));
    SplitOfText(DigestLines(w, AllRendered(sources)));
    TrimEndKeeps(DigestLines(w, AllRendered(sources)), p);
  }

  /** The text of the digest states of every source its family, path and status, the number of its tables,
      and the number of their lines beyond the header and the separator. */
  lemma {:induction false} IndexIsInText(w: Wording, sources: seq<Source>, i: nat)
    requires Mismatches(sources) == [] && forall k :: 0 <= k < |sources| ==> FieldsAreOneLine(sources[k])
    requires i < |sources|
    ensures var lines, at, s := SplitLines(DigestOf(w, sources)), RowPlace(w, i), sources[i];
      var tables := Tables(SplitLines(s.text));
      && at < |lines|
      && (|SplitAt(lines[at], '|')| == 7 <==> '|' !in s.family && '|' !in s.relative && '|' !in s.status)
      && (|SplitAt(lines[at], '|')| == 7 ==>
            SplitAt(lines[at], '|')
            == ["", " " + s.family + " ", " [" + s.relative + "](" + ACADEMIC_URL + s.relative + ") ",
                " " + Decimal(|tables|) + " ", " " + Decimal(|BodyLines(tables)|) + " ", " " + s.status + " ", ""])
  {
    hide *;
    IndexIsPrinted(w, AllRendered(sources), i);
    RowEndsInBar(w, AllRendered(sources), i);
    LineIsInText(w, sources, RowPlace(w, i));
    RenderedFields(sources, i);
  }

  lemma RenderedFields(sources: seq<Source>, i: nat)
    requires i < |sources|
    ensures var d, s := AllRendered(sources)[i], sources[i];
      && d.family == s.family && d.relative == s.relative && d.status == s.status
      && d.tables == Tables(SplitLines(s.text))
      && (NoBars(d) <==> '|' !in s.family && '|' !in s.relative && '|' !in s.status)
  {
    hide Tables, SplitLines;
  }

  lemma RowEndsInBar(w: Wording, docs: seq<Document>, i: nat)
    requires i < |docs|
    ensures var lines, at := DigestLines(w, docs), RowPlace(w, i);
      at < |lines| && lines[at] != "" && !IsSpace(lines[at][|lines[at]| - 1])
  {
    RowStands(w, docs, i);
    hide DigestLines, IndexCells;
  }

  /** The bytes of a report have the published digest. */
  predicate IsPublished(s: Source) {
    s.actualSha == s.expectedSha
  }

  /** A digest is compiled exactly when the bytes of every report have the published digest; otherwise the
      first report that differs is the one refused. */
  lemma {:induction false} RefusedExactly(sources: seq<Source>)
    ensures Mismatches(sources) == [] <==> forall i :: 0 <= i < |sources| ==> IsPublished(sources[i])
    ensures Mismatches(sources) != [] ==>
      exists i :: 0 <= i < |sources| && !IsPublished(sources[i]) && Mismatches(sources)[0] == sources[i].relative
                  && forall j :: 0 <= j < i ==> IsPublished(sources[j])
  {
    if sources != [] {
      var init, last := sources[..|sources| - 1], sources[|sources| - 1];
      RefusedExactly(init);
      assert sources == init + [last] && sources[|sources| - 1] == last;
      if Mismatches(init) != [] {
        var i :| 0 <= i < |init| && !IsPublished(init[i]) && Mismatches(init)[0] == init[i].relative
                 && forall j :: 0 <= j < i ==> IsPublished(init[j]);
        assert sources[i] == init[i];
      }
    }
  }

  // ---- The name of a report --------------------------------------------------------

  /** A path component that `Path` drops. */
  predicate IsBlank(component: string) {
    component == "" || component == "."
  }

  /** The printed name is the last component of the path that is not dropped, if there is one. */
  lemma {:induction false} NameIsLastComponent(path: string)
    ensures IsLastName(SplitAt(path, '/'), BaseName(path))
    decreases |path|
  {
    var n := LastSlash(path);
    var component := path[n..];
    NameOf(path);
    if n == 0 {
      assert component == path;
      SplitWhole(path, '/');
      assert [] + [component] == [component];
      LastOf([], component, "", BaseName(path));
    } else {
      var before := path[..n - 1];
      assert path == before + ['/'] + component;
      SplitLast(before, component, '/');
      NameIsLastComponent(before);
      hide *;
      LastOf(SplitAt(before, '/'), component, BaseName(before), BaseName(path));
    }
  }

  lemma NameOf(path: string)
    ensures var n := LastSlash(path);
      var component := path[n..];
      && '/' !in component
      && BaseName(path) == if !IsBlank(component) then component else if n == 0 then "" else BaseName(path[..n - 1])
  {
  }

  /** The name is the last of the parts that is not dropped. */
  ghost predicate IsLastName(parts: seq<string>, name: string) {
    if forall i :: 0 <= i < |parts| ==> IsBlank(parts[i]) then name == ""
    else
      exists i :: 0 <= i < |parts| && parts[i] == name && !IsBlank(name)
                  && forall j :: i < j < |parts| ==> IsBlank(parts[j])
  }

  lemma LastOf(init: seq<string>, component: string, before: string, name: string)
    requires IsLastName(init, before) && name == if !IsBlank(component) then component else before
    ensures IsLastName(init + [component], name)
  {
    var parts := init + [component];
    hide IsBlank;
    if IsBlank(component) {
      if !(forall i :: 0 <= i < |init| ==> IsBlank(init[i])) {
        var i :| 0 <= i < |init| && init[i] == before && !IsBlank(before)
                 && forall j :: i < j < |init| ==> IsBlank(init[j]);
        assert parts[i] == name;
      }
    } else {
      assert parts[|init|] == name;
    }
  }
}
