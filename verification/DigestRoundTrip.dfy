/** The table digest that scripts/build_advisory_displayed_tables.py prints, line by line, and the
    proof that its own scanner reads those lines back as the index table and then exactly the
    source blocks.  The text that the lines are joined to is in `DigestText`. */
module DigestRoundTrip {
  import opened TableText
  import opened TextLines
  import opened DisplayedTables
  import opened TableFragments

  const ACADEMIC_COMMIT := "826b5e5fbda2cd50e6bb856a90be1b18619afc11"
  const ACADEMIC_URL := "https://github.com/elmontu/" + "AI_Model_Academic/blob/" + ACADEMIC_COMMIT + "/"
  // In two parts, because the scanner's reading of a heading depends on both of its ends.
  const TITLE := "Later experimental results" + ": displayed-table digest"

  /** One curated report, rendered. */
  datatype Document = Document(family: string, relative: string, sha: string, status: string, tables: seq<Table>)

  function LastSlash(path: string): (n: nat)
    ensures n <= |path| && forall i :: n <= i < |path| ==> path[i] != '/'
    ensures n > 0 ==> path[n - 1] == '/'
  {
    if path == "" || path[|path| - 1] == '/' then |path| else LastSlash(path[..|path| - 1])
  }

  /** `Path(path).name` of a POSIX path: its last component, empty and `.` components dropped. */
  function BaseName(path: string): (name: string)
    ensures forall c :: c in name ==> c in path
    decreases |path|
  {
    var n := LastSlash(path);
    var component := path[n..];
    if component != "" && component != "." then component
    else if n == 0 then ""
    else BaseName(path[..n - 1])
  }

  type Sentence = line: string | LooksPlain(line) && OneLine(line)

  /** The fixed sentences, which carry no data. */
  datatype Wording = Wording(scope: seq<Sentence>, provenance: seq<Sentence>, bridge: seq<Sentence>, noTables: Sentence)

  // ---- Printing --------------------------------------------------------------------

  function DataRows(t: Table): nat {
    if |t.block| >= 2 then |t.block| - 2 else 0
  }

  function TotalRows(tables: seq<Table>): nat {
    if tables == [] then 0 else TotalRows(tables[..|tables| - 1]) + DataRows(tables[|tables| - 1])
  }

  function AllTables(docs: seq<Document>): seq<Table> {
    if docs == [] then [] else AllTables(docs[..|docs| - 1]) + docs[|docs| - 1].tables
  }

  function Families(docs: seq<Document>): set<string> {
    set i | 0 <= i < |docs| :: docs[i].family
  }

  function ScopeLine(families: nat, documents: nat): Prose {
    "**Compiled scope:** " + (Decimal(families) + " dated families, " + Decimal(documents) + " source documents,")
  }

  function CountLine(tables: nat, rows: nat): Prose {
    DecimalOpensWithDigit(tables);
    Decimal(tables) + (" Markdown tables and " + Decimal(rows) + " displayed data rows. A row is")
  }

  function Opening(w: Wording, docs: seq<Document>): seq<string> {
    var tables := AllTables(docs);
    ["# " + TITLE]
    + (w.scope + [ScopeLine(|Families(docs)|, |docs|), CountLine(|tables|, TotalRows(tables))] + w.provenance)
  }

  lemma {:induction false} DecimalOpensWithDigit(n: nat)
    ensures Decimal(n) != [] && '0' <= Decimal(n)[0] <= '9'
  {
    if n >= 10 {
      DecimalOpensWithDigit(n / 10);
    }
  }

  const LEFT_TITLES := " Family | Curated report |"
  const RIGHT_TITLES := " Tables | Displayed rows | Status |"
  const INDEX_TITLES := LEFT_TITLES + RIGHT_TITLES
  const INDEX_HEADER := "|" + INDEX_TITLES
  const DASHES := " --- "
  const DASHES_RIGHT := " ---: "
  const INDEX_CELLS := DASHES + "|" + (DASHES + "|" + (DASHES_RIGHT + "|" + (DASHES_RIGHT + "|" + (DASHES + "|" + ""))))
  const INDEX_SEPARATOR := "|" + INDEX_CELLS

  function IndexCells(d: Document): string {
    d.family + " | [" + d.relative + "](" + ACADEMIC_URL + d.relative + ") | " + Decimal(|d.tables|) + " | "
    + Decimal(TotalRows(d.tables)) + " | " + d.status
  }

  function IndexRow(d: Document): string {
    "| " + IndexCells(d) + " |"
  }

  function IndexRows(docs: seq<Document>): seq<string> {
    seq(|docs|, i requires 0 <= i < |docs| => IndexRow(docs[i]))
  }

  function IndexBlock(docs: seq<Document>): seq<string> {
    [INDEX_HEADER, INDEX_SEPARATOR] + IndexRows(docs)
  }

  const SOURCES_MARK := "## Source tables"

  function Bridge(w: Wording): seq<string> {
    ["", SOURCES_MARK] + w.bridge
  }

  function Link(d: Document): string {
    d.relative + "](" + ACADEMIC_URL + d.relative
  }

  function CuratedLine(d: Document): Prose {
    "Curated source: [" + (Link(d) + ") \U{B7}")
  }

  function ShaLine(d: Document): Prose {
    "published SHA-256 `" + (d.sha + "` \U{B7} " + d.status + ".")
  }

  function SectionText(d: Document): (r: seq<Prose>)
    ensures r != []
  {
    ["", CuratedLine(d), ShaLine(d), ""]
  }

  function SectionTitle(d: Document): string {
    "### " + (d.family + ": " + BaseName(d.relative))
  }

  function SectionHead(d: Document): seq<string> {
    [SectionTitle(d)] + SectionText(d)
  }

  function Label(number: nat, heading: string): string {
    "T" + ThreeDigits(number) + ": " + heading
  }

  function SourceLine(d: Document, t: Table): Prose {
    "Source: ["
    + (d.relative + ":L" + Decimal(t.line) + "](" + ACADEMIC_URL + d.relative + "#L" + Decimal(t.line) + ").")
  }

  function SourceText(d: Document, t: Table): (r: seq<Prose>)
    ensures r != []
  {
    ["", SourceLine(d, t), ""]
  }

  function TableHead(d: Document, t: Table, number: nat): seq<string> {
    ["#### " + Label(number, t.heading)] + SourceText(d, t)
  }

  /** The first n tables of a document, numbered from `number` + 1. */
  function TableSections(d: Document, n: nat, number: nat): seq<string>
    requires n <= |d.tables|
  {
    if n == 0 then []
    else TableSections(d, n - 1, number) + (TableHead(d, d.tables[n - 1], number + n) + d.tables[n - 1].block + [""])
  }

  function Section(w: Wording, d: Document, number: nat): seq<string> {
    SectionHead(d) + if d.tables == [] then [w.noTables, ""] else TableSections(d, |d.tables|, number)
  }

  function Sections(w: Wording, docs: seq<Document>): seq<string> {
    if docs == [] then []
    else
      var before := docs[..|docs| - 1];
      Sections(w, before) + Section(w, docs[|docs| - 1], |AllTables(before)|)
  }

  function DigestLines(w: Wording, docs: seq<Document>): seq<string> {
    Opening(w, docs) + IndexBlock(docs) + Bridge(w) + Sections(w, docs)
  }

  /** The line-emitting part of `compile_digest`, with its running table number. */
  method PrintDigest(w: Wording, docs: seq<Document>) returns (out: seq<string>)
    ensures out == DigestLines(w, docs)
  {
    hide *;
    out := PrintIndex(w, docs);
    out := out + Bridge(w);
    ghost var preface := out;
    var tableNumber := 0;
    NoSections(w, docs);
    for i := 0 to |docs|
      invariant out == preface + Sections(w, docs[..i])
      invariant tableNumber == |AllTables(docs[..i])|
    {
      SectionsGrow(w, docs, i);
      var section;
      section, tableNumber := PrintSection(w, docs[i], tableNumber);
      out := out + section;
    }
    assert docs[..|docs|] == docs;
    DigestParts(w, docs);
  }

  lemma NoSections(w: Wording, docs: seq<Document>)
    ensures Sections(w, docs[..0]) == [] && AllTables(docs[..0]) == []
  {
    hide Section;
  }

  lemma SectionsGrow(w: Wording, docs: seq<Document>, i: nat)
    requires i < |docs|
    ensures Sections(w, docs[..i + 1]) == Sections(w, docs[..i]) + Section(w, docs[i], |AllTables(docs[..i])|)
    ensures AllTables(docs[..i + 1]) == AllTables(docs[..i]) + docs[i].tables
  {
    hide Section;
    assert docs[..i + 1][..i] == docs[..i];
  }

  lemma DigestParts(w: Wording, docs: seq<Document>)
    ensures DigestLines(w, docs) == Opening(w, docs) + IndexBlock(docs) + Bridge(w) + Sections(w, docs)
  {
    hide Opening, IndexBlock, Bridge, Sections;
  }

  method PrintIndex(w: Wording, docs: seq<Document>) returns (out: seq<string>)
    ensures out == Opening(w, docs) + IndexBlock(docs)
  {
    hide Opening, IndexRow;
    var opening := Opening(w, docs);
    var block := [INDEX_HEADER, INDEX_SEPARATOR];
    for i := 0 to |docs|
      invariant block == [INDEX_HEADER, INDEX_SEPARATOR] + IndexRows(docs)[..i]
    {
      block := block + [IndexRow(docs[i])];
      assert IndexRows(docs)[..i + 1] == IndexRows(docs)[..i] + [IndexRow(docs[i])];
    }
    assert IndexRows(docs)[..|docs|] == IndexRows(docs);
    out := opening + block;
  }

  method PrintSection(w: Wording, d: Document, before: nat) returns (out: seq<string>, tableNumber: nat)
    ensures out == Section(w, d, before) && tableNumber == before + |d.tables|
  {
    hide TableHead, SectionHead;
    out, tableNumber := SectionHead(d), before;
    if d.tables == [] {
      out := out + [w.noTables, ""];
      return;
    }
    ghost var head := out;
    for n := 0 to |d.tables|
      invariant tableNumber == before + n
      invariant out == head + TableSections(d, n, before)
    {
      tableNumber := tableNumber + 1;
      out := out + (TableHead(d, d.tables[n], tableNumber) + d.tables[n].block + [""]);
    }
  }

  // ---- The round trip --------------------------------------------------------------

  /** The tables as the digest presents them, with running numbers from `number` + 1. */
  function Reprinted(tables: seq<Table>, number: nat): seq<Entry> {
    seq(|tables|, i requires 0 <= i < |tables| => Entry(Label(number + i + 1, tables[i].heading), tables[i].block))
  }

  predicate AllPrintable(tables: seq<Table>) {
    forall i :: 0 <= i < |tables| ==> IsPrintable(tables[i])
  }

  lemma {:induction false} ReprintedGrows(s: seq<Table>, t: seq<Table>, number: nat)
    ensures Reprinted(s + t, number) == Reprinted(s, number) + Reprinted(t, number + |s|)
  {
    hide Label, Reprinted;
    NothingReprinted([], number + |s|);
    if t != [] {
      var init := t[..|t| - 1];
      ReprintedGrows(s, init, number);
      assert (s + t)[..|s + t| - 1] == s + init && (s + t)[..|s + t|] == s + t && t[..|t|] == t;
      ReprintedNext(s + t, |s + t| - 1, number);
      ReprintedNext(t, |t| - 1, number + |s|);
    } else {
      assert s + t == s;
    }
  }

  lemma ReadsTableHead(d: Document, t: Table, number: nat, start: string)
    requires EndsBare(t.heading)
    ensures Reads(TableHead(d, t, number), start, [], Label(number, t.heading)) && Closed(TableHead(d, t, number))
  {
    hide Decimal, Reads, Closed, SourceText, ThreeDigits;
    var text := Label(number, t.heading);
    assert EndsBare(text) && text[0] == 'T';
    ReadsHeading("#### ", text, start);
    ReadsProse(SourceText(d, t), text);
    ReadsInTurn(["#### " + text], SourceText(d, t), start, [], text, [], text);
    ClosedAppend(["#### " + text], SourceText(d, t));
    var none: seq<Entry> := [];
    assert none + none == none;
  }

  lemma ReadsTable(d: Document, t: Table, number: nat, start: string)
    requires IsPrintable(t)
    ensures var lines := TableHead(d, t, number) + t.block + [""];
      Reads(lines, start, [Entry(Label(number, t.heading), t.block)], Label(number, t.heading)) && Closed(lines)
  {
    hide Reads, Closed, TableHead, Label, IsTrimmedBlock;
    var head, text := TableHead(d, t, number), Label(number, t.heading);
    var entry := Entry(text, t.block);
    ReadsTableHead(d, t, number, start);
    ReadsBlock(t.block, text);
    ReadsInTurn(head, t.block, start, [], text, [entry], text);
    ReadsProse([""], text);
    ReadsInTurn(head + t.block, [""], start, [] + [entry], text, [], text);
    assert [] + [entry] + [] == [entry];
    ClosedEnds(head, t.block, [""]);
  }

  lemma {:induction false} ReadsTableSections(d: Document, n: nat, number: nat, start: string) returns (end: string)
    requires n <= |d.tables| && AllPrintable(d.tables)
    ensures Reads(TableSections(d, n, number), start, Reprinted(d.tables[..n], number), end)
    ensures n > 0 ==> Closed(TableSections(d, n, number))
  {
    hide Reads, Closed, TableHead, Label, IsPrintable, Reprinted;
    if n == 0 {
      end := start;
      ReadsProse([], start);
      assert Reprinted(d.tables[..0], number) == [] by {
        NothingReprinted(d.tables[..0], number);
      }
    } else {
      var between := ReadsTableSections(d, n - 1, number, start);
      var t := d.tables[n - 1];
      var before, lines := TableSections(d, n - 1, number), TableHead(d, t, number + n) + t.block + [""];
      end := Label(number + n, t.heading);
      ReadsTable(d, t, number + n, between);
      ReadsInTurn(before, lines, start, Reprinted(d.tables[..n - 1], number), between, [Entry(end, t.block)], end);
      ReprintedNext(d.tables, n - 1, number);
      if n > 1 {
        ClosedAppend(before, lines);
      } else {
        assert before + lines == lines;
      }
    }
  }

  lemma NothingReprinted(tables: seq<Table>, number: nat)
    requires tables == []
    ensures Reprinted(tables, number) == []
  {
  }

  lemma ReprintedNext(tables: seq<Table>, n: nat, number: nat)
    requires n < |tables|
    ensures Reprinted(tables[..n + 1], number)
         == Reprinted(tables[..n], number) + [Entry(Label(number + n + 1, tables[n].heading), tables[n].block)]
  {
    hide Label;
  }

  lemma ReadsSection(w: Wording, d: Document, number: nat, start: string) returns (end: string)
    requires AllPrintable(d.tables)
    ensures Reads(Section(w, d, number), start, Reprinted(d.tables, number), end) && Closed(Section(w, d, number))
  {
    hide Reads, Closed, SectionText, TableSections, AllPrintable, After;
    var title := [SectionTitle(d)];
    ReadsSomeHeading(title[0], start);
    var between := After(title, start);
    ReadsProse(SectionText(d), between);
    ReadsInTurn(title, SectionText(d), start, [], between, [], between);
    ClosedAppend(title, SectionText(d));
    assert SectionHead(d) == title + SectionText(d);
    hide SectionHead;
    if d.tables == [] {
      end := between;
      ReadsProse([w.noTables, ""], between);
      ReadsInTurn(SectionHead(d), [w.noTables, ""], start, [] + [], between, [], end);
      ClosedAppend(SectionHead(d), [w.noTables, ""]);
      NothingReprinted(d.tables, number);
      assert ([] + []) + [] == Reprinted(d.tables, number);
    } else {
      var body := TableSections(d, |d.tables|, number);
      end := ReadsTableSections(d, |d.tables|, number, between);
      assert d.tables[..|d.tables|] == d.tables;
      ReadsInTurn(SectionHead(d), body, start, [] + [], between, Reprinted(d.tables, number), end);
      ClosedAppend(SectionHead(d), body);
      assert ([] + []) + Reprinted(d.tables, number) == Reprinted(d.tables, number);
    }
  }

  lemma {:induction false} ReadsSections(w: Wording, docs: seq<Document>, start: string) returns (end: string)
    requires forall i :: 0 <= i < |docs| ==> AllPrintable(docs[i].tables)
    ensures Reads(Sections(w, docs), start, Reprinted(AllTables(docs), 0), end)
    ensures docs != [] ==> Closed(Sections(w, docs))
  {
    hide Reads, Closed, Section, AllPrintable, Reprinted;
    if docs == [] {
      end := start;
      ReadsProse([], start);
      NothingReprinted(AllTables(docs), 0);
    } else {
      var before, d := docs[..|docs| - 1], docs[|docs| - 1];
      var between := ReadsSections(w, before, start);
      var number := |AllTables(before)|;
      end := ReadsSection(w, d, number, between);
      ReadsInTurn(Sections(w, before), Section(w, d, number), start, Reprinted(AllTables(before), 0), between,
                  Reprinted(d.tables, number), end);
      ReprintedGrows(AllTables(before), d.tables, 0);
      if before != [] {
        ClosedAppend(Sections(w, before), Section(w, d, number));
      } else {
        assert Sections(w, before) == [];
        assert Sections(w, before) + Section(w, d, number) == Section(w, d, number);
      }
    }
  }

  lemma DashCells()
    ensures IsSeparatorCell(DASHES) && IsSeparatorCell(DASHES_RIGHT) && '|' !in DASHES && '|' !in DASHES_RIGHT
  {
    assert LStrip(DASHES) == "--- " && LStrip(DASHES_RIGHT) == "---: ";
    assert "--- "[..3] == "---" && "---: "[..4] == "---:";
    RStripOfStripped("---");
    RStripOfStripped("---:");
    assert "---:"[..3] == "---";
  }

  lemma SeparatorIsSeparator()
    ensures IsSeparator(INDEX_SEPARATOR)
  {
    DashCells();
    var one := DASHES + "|" + "";
    var two := DASHES_RIGHT + "|" + one;
    var three := DASHES_RIGHT + "|" + two;
    var four := DASHES + "|" + three;
    hide IsSeparatorCell, DASHES, DASHES_RIGHT, IsSeparatorCells;
    CellThenRest(DASHES, "");
    CellThenRest(DASHES_RIGHT, one);
    CellThenRest(DASHES_RIGHT, two);
    CellThenRest(DASHES, three);
    CellThenRest(DASHES, four);
    assert INDEX_CELLS == DASHES + "|" + four;
    BarRow(INDEX_CELLS);
    assert ("|" + INDEX_CELLS)[1..] == INDEX_CELLS;
  }

  /** A line between two bars is a trimmed table row. */
  lemma BarRow(rest: string)
    requires EndsBare(rest)
    ensures Strip("|" + rest) == "|" + rest && IsPipe("|" + rest) && RStrip("|" + rest) == "|" + rest
  {
    BareIsStripped("|" + rest);
    RStripOfStripped("|" + rest);
  }

  lemma IndexRowIsTrimmed(d: Document)
    ensures IsPipe(IndexRow(d)) && RStrip(IndexRow(d)) == IndexRow(d)
  {
    hide Strip, RStrip, IndexCells;
    var rest := " " + IndexCells(d) + " |";
    assert IndexRow(d) == "|" + rest;
    BarRow(rest);
  }

  lemma IndexHeadIsTrimmed()
    ensures IsPipe(INDEX_HEADER) && RStrip(INDEX_HEADER) == INDEX_HEADER
    ensures IsPipe(INDEX_SEPARATOR) && RStrip(INDEX_SEPARATOR) == INDEX_SEPARATOR
  {
    BarRow(INDEX_CELLS);
    BarRow(INDEX_TITLES);
  }

  lemma IndexIsTrimmedBlock(docs: seq<Document>)
    ensures IsTrimmedBlock(IndexBlock(docs))
  {
    hide *;
    SeparatorIsSeparator();
    IndexHeadIsTrimmed();
    forall d: Document ensures IsPipe(IndexRow(d)) && RStrip(IndexRow(d)) == IndexRow(d) {
      IndexRowIsTrimmed(d);
    }
    IndexFromRows(docs);
  }

  lemma IndexFromRows(docs: seq<Document>)
    requires IsSeparator(INDEX_SEPARATOR)
    requires IsPipe(INDEX_HEADER) && RStrip(INDEX_HEADER) == INDEX_HEADER
    requires IsPipe(INDEX_SEPARATOR) && RStrip(INDEX_SEPARATOR) == INDEX_SEPARATOR
    requires forall d: Document :: IsPipe(IndexRow(d)) && RStrip(IndexRow(d)) == IndexRow(d)
    ensures IsTrimmedBlock(IndexBlock(docs))
  {
    hide IsPipe, RStrip, IndexRow, INDEX_HEADER, INDEX_SEPARATOR, IsSeparator;
    var block := IndexBlock(docs);
    assert block[1] == INDEX_SEPARATOR;
    forall i | 0 <= i < |block| ensures IsPipe(block[i]) && RStrip(block[i]) == block[i] {
      if i >= 2 {
        assert block[i] == IndexRow(docs[i - 2]);
      }
    }
  }

  lemma TitleIsBare()
    ensures EndsBare(TITLE) && TITLE[0] == 'L'
  {
    assert |TITLE| == 50;
    assert TITLE[49] == 't';
  }

  lemma ReadsOpening(w: Wording, docs: seq<Document>)
    ensures Reads(Opening(w, docs), DEFAULT_HEADING, [], TITLE) && Closed(Opening(w, docs))
  {
    hide Reads, Closed, ScopeLine, CountLine, Families, AllTables, TITLE;
    var prose: seq<Prose> := w.scope
      + [ScopeLine(|Families(docs)|, |docs|), CountLine(|AllTables(docs)|, TotalRows(AllTables(docs)))]
      + w.provenance;
    TitleIsBare();
    ReadsHeading("# ", TITLE, DEFAULT_HEADING);
    ReadsProse(prose, TITLE);
    ReadsInTurn(["# " + TITLE], prose, DEFAULT_HEADING, [], TITLE, [], TITLE);
    ClosedAppend(["# " + TITLE], prose);
    assert Opening(w, docs) == ["# " + TITLE] + prose;
    var none: seq<Entry> := [];
    assert none + none == none;
  }

  lemma ReadsBridge(w: Wording, start: string) returns (end: string)
    ensures Reads(Bridge(w), start, [], end) && Closed(Bridge(w))
  {
    hide Reads, Closed, After;
    var head, mark: seq<string> := [""], [SOURCES_MARK];
    ReadsProse([""], start);
    ReadsSomeHeading(SOURCES_MARK, start);
    end := After(mark, start);
    hide SOURCES_MARK;
    ReadsInTurn(head, mark, start, [], start, [], end);
    ClosedAppend(head, mark);
    ReadsProse(w.bridge, end);
    ReadsInTurn(head + mark, w.bridge, start, [] + [], end, [], end);
    assert Bridge(w) == head + mark + w.bridge;
    var none: seq<Entry> := [];
    assert none + none + none == none;
    assert w.bridge == [] ==> head + mark + w.bridge == head + mark;
    if w.bridge != [] {
      ClosedAppend(head + mark, w.bridge);
    }
  }

  /** Scanning the digest of any scanned sources returns the index table and then every source
      block in order, under its running label. */
  lemma DigestReadsBack(w: Wording, docs: seq<Document>, sources: seq<seq<string>>)
    requires |sources| == |docs| && forall i :: 0 <= i < |docs| ==> docs[i].tables == Tables(sources[i])
    ensures EntriesOf(Tables(DigestLines(w, docs)))
         == [Entry(TITLE, IndexBlock(docs))] + Reprinted(AllTables(docs), 0)
  {
    hide Opening, IndexBlock, Bridge, Sections, AllTables, Reprinted, TablesAbove, EntriesOf, Closed, Reads,
      IsTrimmedBlock, IsPrintable;
    var opening, index, bridge, sections := Opening(w, docs), IndexBlock(docs), Bridge(w), Sections(w, docs);
    var entry := Entry(TITLE, index);
    SourcesArePrintable(docs, sources);
    ReadsOpening(w, docs);
    IndexIsTrimmedBlock(docs);
    ReadsBlock(index, TITLE);
    ReadsInTurn(opening, index, DEFAULT_HEADING, [], TITLE, [entry], TITLE);
    var between := ReadsBridge(w, TITLE);
    ReadsInTurn(opening + index, bridge, DEFAULT_HEADING, [] + [entry], TITLE, [], between);
    ClosedEnds(opening, index, bridge);
    var end := ReadsSections(w, docs, between);
    ReadsInTurn(opening + index + bridge, sections, DEFAULT_HEADING, [] + [entry] + [], between,
                Reprinted(AllTables(docs), 0), end);
    assert [] + [entry] + [] == [entry];
    assert Found(DigestLines(w, docs), DEFAULT_HEADING) == [entry] + Reprinted(AllTables(docs), 0) by {
      ReadsMeansFound(DigestLines(w, docs), DEFAULT_HEADING, [entry] + Reprinted(AllTables(docs), 0), end);
    }
  }

  lemma SourcesArePrintable(docs: seq<Document>, sources: seq<seq<string>>)
    requires |sources| == |docs| && forall i :: 0 <= i < |docs| ==> docs[i].tables == Tables(sources[i])
    ensures forall i :: 0 <= i < |docs| ==> AllPrintable(docs[i].tables)
  {
    hide TablesAbove, IsPrintable;
    assert EndsBare(DEFAULT_HEADING) by {
      assert |DEFAULT_HEADING| == 25 && DEFAULT_HEADING[24] == 'n';
    }
    hide EndsBare, DEFAULT_HEADING;
    forall i, k | 0 <= i < |docs| && 0 <= k < |docs[i].tables| ensures IsPrintable(docs[i].tables[k]) {
      FoundTablesArePrintable(sources[i], DEFAULT_HEADING, k);
    }
  }
}
