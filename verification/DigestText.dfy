/** `compile_digest` as a whole: published digests are verified, sources are split and scanned, and
    the printed lines are joined to a text.  Scanning that text again returns the index table and
    then exactly the source blocks if and only if no metadata field holds a line boundary. */
module DigestText {
  import opened Results
  import opened TableText
  import opened TextLines
  import opened DisplayedTables
  import opened TableFragments
  import opened DigestRoundTrip

  /** What `hexdigest` returns. */
  type HexDigest = s: string | |s| == 64 && forall c :: c in s ==> '0' <= c <= '9' || 'a' <= c <= 'f'
    witness seq(64, _ => '0')

  /** A curated report: its registration, its decoded text and the digest of its bytes. */
  datatype Source = Source(
    family: string, relative: string, status: string, expectedSha: string, text: string, actualSha: HexDigest)

  datatype DigestError = ShaMismatch(relative: string)

  function Rendered(s: Source): Document {
    Document(s.family, s.relative, s.expectedSha, s.status, Tables(SplitLines(s.text)))
  }

  function AllRendered(sources: seq<Source>): (docs: seq<Document>)
    ensures |docs| == |sources| && forall i :: 0 <= i < |sources| ==> docs[i] == Rendered(sources[i])
  {
    seq(|sources|, i requires 0 <= i < |sources| => Rendered(sources[i]))
  }

  /** The published digests that differ from the actual ones, in order. */
  function Mismatches(sources: seq<Source>): seq<string> {
    if sources == [] then []
    else
      var last := sources[|sources| - 1];
      Mismatches(sources[..|sources| - 1]) + if last.actualSha != last.expectedSha then [last.relative] else []
  }

  function DigestOf(w: Wording, sources: seq<Source>): string {
    TextOf(DigestLines(w, AllRendered(sources)))
  }

  /** `compile_digest`, from the registered documents on. */
  method CompileDigest(w: Wording, sources: seq<Source>) returns (r: Result<string, DigestError>)
    ensures r == if Mismatches(sources) != [] then Err(ShaMismatch(Mismatches(sources)[0]))
                 else Ok(DigestOf(w, sources))
  {
    hide TablesAbove, SplitLines, DigestLines, RStrip, Join;
    var docs: seq<Document> := [];
    for i := 0 to |sources|
      invariant docs == AllRendered(sources)[..i]
      invariant Mismatches(sources[..i]) == []
    {
      var source := sources[i];
      assert sources[..i + 1][..i] == sources[..i];
      if source.actualSha != source.expectedSha {
        FirstMismatch(sources, i);
        return Err(ShaMismatch(source.relative));
      }
      var tables := ScanTables(SplitLines(source.text));
      docs := docs + [Document(source.family, source.relative, source.expectedSha, source.status, tables)];
    }
    assert sources[..|sources|] == sources && docs == AllRendered(sources);
    var out := PrintDigest(w, docs);
    return Ok(RStrip(Join(out)) + "\n");
  }

  lemma {:induction false} MismatchesOfPrefix(sources: seq<Source>, n: nat)
    requires n <= |sources|
    ensures Mismatches(sources[..n]) <= Mismatches(sources)
  {
    if n < |sources| {
      MismatchesOfPrefix(sources[..|sources| - 1], n);
      assert sources[..|sources| - 1][..n] == sources[..n];
    } else {
      assert sources[..n] == sources;
    }
  }

  lemma FirstMismatch(sources: seq<Source>, i: nat)
    requires i < |sources| && Mismatches(sources[..i]) == [] && sources[i].actualSha != sources[i].expectedSha
    ensures Mismatches(sources) != [] && Mismatches(sources)[0] == sources[i].relative
  {
    assert sources[..i + 1][..i] == sources[..i];
    MismatchesOfPrefix(sources, i + 1);
    assert Mismatches(sources[..i + 1]) == [sources[i].relative];
  }

  lemma {:induction false} VerifiedDigests(sources: seq<Source>, i: nat)
    requires Mismatches(sources) == [] && i < |sources|
    ensures sources[i].expectedSha == sources[i].actualSha
  {
    if i < |sources| - 1 {
      VerifiedDigests(sources[..|sources| - 1], i);
    }
  }

  // ---- One line each ---------------------------------------------------------------

  /** The condition that a caller can check: no registered field holds a line boundary. */
  predicate FieldsAreOneLine(s: Source) {
    OneLine(s.family) && OneLine(s.relative) && OneLine(s.status)
  }

  lemma AllOneLineAppend(a: seq<string>, b: seq<string>)
    requires AllOneLine(a) && AllOneLine(b)
    ensures AllOneLine(a + b)
  {
    hide OneLine;
  }

  lemma {:induction false} DecimalIsOneLine(n: nat)
    ensures OneLine(Decimal(n))
  {
    if n >= 10 {
      DecimalIsOneLine(n / 10);
    }
  }

  lemma ThreeDigitsIsOneLine(n: nat)
    ensures OneLine(ThreeDigits(n))
  {
    DecimalIsOneLine(n);
  }

  lemma HexIsOneLine(s: HexDigest)
    ensures OneLine(s)
  {
  }

  predicate IsAscii(s: string) {
    forall i :: 0 <= i < |s| ==> ' ' <= s[i] <= '~'
  }

  lemma AsciiIsOneLine(s: string)
    requires IsAscii(s)
    ensures OneLine(s)
  {
  }

  lemma CommitIsOneLine()
    ensures OneLine(ACADEMIC_COMMIT)
  {
    assert IsAscii(ACADEMIC_COMMIT);
    hide ACADEMIC_COMMIT;
    AsciiIsOneLine(ACADEMIC_COMMIT);
  }

  lemma UrlIsOneLine()
    ensures OneLine(ACADEMIC_URL)
  {
    hide ACADEMIC_COMMIT;
    var host, repository := "https://github.com/elmontu/", "AI_Model_Academic/blob/";
    assert IsAscii(host) && IsAscii(repository) && IsAscii("/");
    hide IsAscii, OneLine;
    AsciiIsOneLine(host);
    AsciiIsOneLine(repository);
    AsciiIsOneLine("/");
    CommitIsOneLine();
    OneLineAppend(host, repository);
    OneLineAppend(host + repository, ACADEMIC_COMMIT);
    OneLineAppend(host + repository + ACADEMIC_COMMIT, "/");
  }

  /** An index row is one line exactly when the fields in it are. */
  lemma IndexRowExactly(d: Document)
    ensures OneLine(IndexRow(d)) <==> OneLine(d.family) && OneLine(d.relative) && OneLine(d.status)
  {
    UrlIsOneLine();
    DecimalIsOneLine(|d.tables|);
    DecimalIsOneLine(TotalRows(d.tables));
    hide Decimal, TotalRows, ACADEMIC_URL;
  }

  lemma SectionTitleIsOneLine(d: Document)
    requires OneLine(d.family) && OneLine(d.relative)
    ensures OneLine(SectionTitle(d))
  {
    OneLinePart(BaseName(d.relative), d.relative);
    hide BaseName;
  }

  lemma LinkIsOneLine(d: Document)
    requires OneLine(d.relative)
    ensures OneLine(Link(d))
  {
    UrlIsOneLine();
    hide ACADEMIC_URL;
  }

  lemma CuratedLineIsOneLine(d: Document)
    requires OneLine(d.relative)
    ensures OneLine(CuratedLine(d))
  {
    LinkIsOneLine(d);
    hide Link;
  }

  lemma ShaLineIsOneLine(d: Document)
    requires OneLine(d.sha) && OneLine(d.status)
    ensures OneLine(ShaLine(d))
  {
    var open, middle := "published SHA-256 `", "` \U{B7} ";
    assert OneLine(open) && OneLine(middle) && OneLine(".");
    hide OneLine;
    OneLineAppend(d.sha, middle);
    OneLineAppend(d.sha + middle, d.status);
    OneLineAppend(d.sha + middle + d.status, ".");
    OneLineAppend(open, d.sha + middle + d.status + ".");
  }

  lemma SourceLineIsOneLine(d: Document, t: Table)
    requires OneLine(d.relative)
    ensures OneLine(SourceLine(d, t))
  {
    UrlIsOneLine();
    DecimalIsOneLine(t.line);
    hide ACADEMIC_URL, Decimal;
  }

  lemma LabelIsOneLine(number: nat, heading: string)
    requires OneLine(heading)
    ensures OneLine("#### " + Label(number, heading))
  {
    ThreeDigitsIsOneLine(number);
    hide ThreeDigits;
  }

  /** Everything that a document puts on a line is one line. */
  predicate IsLineByLine(d: Document) {
    && OneLine(d.family) && OneLine(d.relative) && OneLine(d.status) && OneLine(d.sha)
    && forall k :: 0 <= k < |d.tables| ==> OneLine(d.tables[k].heading) && AllOneLine(d.tables[k].block)
  }

  lemma SectionHeadIsOneLine(d: Document)
    requires IsLineByLine(d)
    ensures AllOneLine(SectionHead(d))
  {
    SectionTitleIsOneLine(d);
    CuratedLineIsOneLine(d);
    ShaLineIsOneLine(d);
    hide SectionTitle, CuratedLine, ShaLine;
    assert OneLine("");
    hide OneLine;
  }

  lemma TableHeadIsOneLine(d: Document, t: Table, number: nat)
    requires OneLine(d.relative) && OneLine(t.heading)
    ensures AllOneLine(TableHead(d, t, number))
  {
    LabelIsOneLine(number, t.heading);
    SourceLineIsOneLine(d, t);
    hide Label, SourceLine;
    assert OneLine("");
    hide OneLine;
  }

  lemma {:induction false} TableSectionsAreOneLine(d: Document, n: nat, number: nat)
    requires IsLineByLine(d) && n <= |d.tables|
    ensures AllOneLine(TableSections(d, n, number))
  {
    if n > 0 {
      TableSectionsAreOneLine(d, n - 1, number);
      TableHeadIsOneLine(d, d.tables[n - 1], number + n);
      assert AllOneLine([""]);
      hide TableHead, OneLine;
      AllOneLineAppend(TableHead(d, d.tables[n - 1], number + n), d.tables[n - 1].block);
      AllOneLineAppend(TableHead(d, d.tables[n - 1], number + n) + d.tables[n - 1].block, [""]);
      hide AllOneLine;
      AllOneLineAppend(TableSections(d, n - 1, number),
                       TableHead(d, d.tables[n - 1], number + n) + d.tables[n - 1].block + [""]);
    }
  }

  lemma SectionIsOneLine(w: Wording, d: Document, number: nat)
    requires IsLineByLine(d)
    ensures AllOneLine(Section(w, d, number))
  {
    SectionHeadIsOneLine(d);
    TableSectionsAreOneLine(d, |d.tables|, number);
    assert AllOneLine([w.noTables, ""]);
    hide AllOneLine, SectionHead, TableSections, IsLineByLine;
    AllOneLineAppend(SectionHead(d), if d.tables == [] then [w.noTables, ""] else TableSections(d, |d.tables|, number));
  }

  lemma {:induction false} SectionsAreOneLine(w: Wording, docs: seq<Document>)
    requires forall i :: 0 <= i < |docs| ==> IsLineByLine(docs[i])
    ensures AllOneLine(Sections(w, docs))
  {
    hide IsLineByLine, Section, OneLine;
    if docs != [] {
      SectionsAreOneLine(w, docs[..|docs| - 1]);
      SectionIsOneLine(w, docs[|docs| - 1], |AllTables(docs[..|docs| - 1])|);
      AllOneLineAppend(Sections(w, docs[..|docs| - 1]), Section(w, docs[|docs| - 1], |AllTables(docs[..|docs| - 1])|));
    }
  }

  lemma ScopeLineIsOneLine(families: nat, documents: nat)
    ensures OneLine(ScopeLine(families, documents))
  {
    DecimalIsOneLine(families);
    DecimalIsOneLine(documents);
    var open, middle, close := "**Compiled scope:** ", " dated families, ", " source documents,";
    assert IsAscii(open) && IsAscii(middle) && IsAscii(close);
    hide IsAscii, Decimal, OneLine;
    AsciiIsOneLine(open);
    AsciiIsOneLine(middle);
    AsciiIsOneLine(close);
    OneLineAppend(Decimal(families), middle);
    OneLineAppend(Decimal(families) + middle, Decimal(documents));
    OneLineAppend(Decimal(families) + middle + Decimal(documents), close);
    OneLineAppend(open, Decimal(families) + middle + Decimal(documents) + close);
  }

  lemma CountLineIsOneLine(tables: nat, rows: nat)
    ensures OneLine(CountLine(tables, rows))
  {
    DecimalIsOneLine(tables);
    DecimalIsOneLine(rows);
    var middle, close := " Markdown tables and ", " displayed data rows. A row is";
    assert IsAscii(middle) && IsAscii(close);
    hide IsAscii, Decimal, OneLine;
    AsciiIsOneLine(middle);
    AsciiIsOneLine(close);
    OneLineAppend(middle, Decimal(rows));
    OneLineAppend(middle + Decimal(rows), close);
    OneLineAppend(Decimal(tables), middle + Decimal(rows) + close);
  }

  lemma TitleIsOneLine()
    ensures OneLine("# " + TITLE)
  {
    var first, second := "Later experimental results", ": displayed-table digest";
    assert IsAscii("# ") && IsAscii(first) && IsAscii(second);
    hide IsAscii, OneLine;
    AsciiIsOneLine("# ");
    AsciiIsOneLine(first);
    AsciiIsOneLine(second);
    OneLineAppend(first, second);
    OneLineAppend("# ", first + second);
  }

  lemma OpeningIsOneLine(w: Wording, docs: seq<Document>)
    ensures AllOneLine(Opening(w, docs))
  {
    ScopeLineIsOneLine(|Families(docs)|, |docs|);
    CountLineIsOneLine(|AllTables(docs)|, TotalRows(AllTables(docs)));
    TitleIsOneLine();
    hide ScopeLine, CountLine, Families, AllTables, TotalRows, TITLE;
    assert AllOneLine(w.scope) && AllOneLine(w.provenance);
    hide OneLine;
  }

  lemma BridgeIsOneLine(w: Wording)
    ensures AllOneLine(Bridge(w))
  {
    assert OneLine("") && OneLine(SOURCES_MARK);
    hide SOURCES_MARK;
    assert AllOneLine(w.bridge);
    hide OneLine;
  }

  lemma IndexBlockIsOneLine(docs: seq<Document>)
    requires forall i :: 0 <= i < |docs| ==>
      OneLine(docs[i].family) && OneLine(docs[i].relative) && OneLine(docs[i].status)
    ensures AllOneLine(IndexBlock(docs))
  {
    IndexHeadIsOneLine();
    hide IndexRow, INDEX_HEADER, INDEX_SEPARATOR;
    forall i | 0 <= i < |docs| ensures OneLine(IndexRow(docs[i])) {
      IndexRowExactly(docs[i]);
    }
    hide OneLine;
  }

  lemma IndexHeadIsOneLine()
    ensures OneLine(INDEX_HEADER) && OneLine(INDEX_SEPARATOR)
  {
    HeaderIsOneLine();
    assert IsAscii("|") && IsAscii(DASHES) && IsAscii(DASHES_RIGHT);
    hide IsAscii, DASHES, DASHES_RIGHT, INDEX_HEADER;
    AsciiIsOneLine("|");
    AsciiIsOneLine(DASHES);
    AsciiIsOneLine(DASHES_RIGHT);
    hide OneLine;
    SeparatorIsOneLine();
  }

  lemma HeaderIsOneLine()
    ensures OneLine(INDEX_HEADER)
  {
    LeftTitlesAreOneLine();
    RightTitlesAreOneLine();
    assert OneLine("|");
    hide OneLine;
    OneLineAppend(LEFT_TITLES, RIGHT_TITLES);
    OneLineAppend("|", INDEX_TITLES);
  }

  lemma LeftTitlesAreOneLine()
    ensures OneLine(LEFT_TITLES)
  {
    assert IsAscii(LEFT_TITLES);
    AsciiIsOneLine(LEFT_TITLES);
  }

  lemma RightTitlesAreOneLine()
    ensures OneLine(RIGHT_TITLES)
  {
    assert IsAscii(RIGHT_TITLES);
    AsciiIsOneLine(RIGHT_TITLES);
  }

  lemma SeparatorIsOneLine()
    requires OneLine("|") && OneLine(DASHES) && OneLine(DASHES_RIGHT)
    ensures OneLine(INDEX_SEPARATOR)
  {
    hide DASHES, DASHES_RIGHT;
  }

  lemma DigestLinesAreOneLine(w: Wording, docs: seq<Document>)
    requires forall i :: 0 <= i < |docs| ==> IsLineByLine(docs[i])
    ensures AllOneLine(DigestLines(w, docs))
  {
    OpeningIsOneLine(w, docs);
    IndexBlockIsOneLine(docs);
    BridgeIsOneLine(w);
    SectionsAreOneLine(w, docs);
    hide AllOneLine, Opening, IndexBlock, Bridge, Sections;
    AllOneLineAppend(Opening(w, docs), IndexBlock(docs));
    AllOneLineAppend(Opening(w, docs) + IndexBlock(docs), Bridge(w));
    AllOneLineAppend(Opening(w, docs) + IndexBlock(docs) + Bridge(w), Sections(w, docs));
  }

  // ---- What scanning can yield -----------------------------------------------------

  lemma {:induction false} RStripPart(s: string)
    ensures forall c :: c in RStrip(s) ==> c in s
  {
  }

  lemma {:induction false} LStripPart(s: string)
    ensures forall c :: c in LStrip(s) ==> c in s
  {
    if s != "" && IsSpace(s[0]) {
      LStripPart(s[1..]);
    }
  }

  lemma {:induction false} LStripHashPart(s: string)
    ensures forall c :: c in LStripHash(s) ==> c in s
  {
    if s != "" && (s[0] == '#' || s[0] == ' ') {
      LStripHashPart(s[1..]);
    }
  }

  lemma StripPart(s: string)
    ensures forall c :: c in Strip(s) ==> c in s
  {
    LStripPart(s);
    RStripPart(LStrip(s));
  }

  lemma HeadingTextIsOneLine(line: string)
    requires OneLine(line)
    ensures OneLine(HeadingText(line))
  {
    StripPart(line);
    LStripHashPart(Strip(line));
    StripPart(LStripHash(Strip(line)));
    hide Strip, LStripHash;
  }

  lemma {:induction false} HeadingsAreOneLine(lines: seq<string>, start: string, n: nat)
    requires AllOneLine(lines) && OneLine(start) && n <= |lines|
    ensures OneLine(HeadingAt(lines, start, n))
  {
    hide IsFence, IsHeading, HeadingText, InFence, OneLine;
    if n > 0 {
      HeadingsAreOneLine(lines, start, n - 1);
      HeadingTextIsOneLine(lines[n - 1]);
    }
  }

  lemma BlockIsOneLine(lines: seq<string>, i: nat)
    requires AllOneLine(lines) && i <= |lines|
    ensures AllOneLine(BlockAt(lines, i))
  {
    hide RunEnd, RStrip, OneLine;
    var run := lines[i..RunEnd(lines, i)];
    forall k | 0 <= k < |run| ensures OneLine(RStrip(run[k])) {
      RStripPart(run[k]);
      OneLinePart(RStrip(run[k]), run[k]);
    }
  }

  /** Whatever is scanned from single lines is made of single lines. */
  lemma ScannedIsOneLine(lines: seq<string>, k: nat)
    requires AllOneLine(lines) && k < |Tables(lines)|
    ensures OneLine(Tables(lines)[k].heading) && AllOneLine(Tables(lines)[k].block)
  {
    hide *;
    DefaultHeadingIsOneLine();
    TablesIs(lines);
    TableLinesBelow(lines, DEFAULT_HEADING, |lines|, k);
    var i := TablesAbove(lines, DEFAULT_HEADING, |lines|)[k].line - 1;
    StartIs(lines, DEFAULT_HEADING, i);
    HeadingsAreOneLine(lines, DEFAULT_HEADING, i);
    BlockIsOneLine(lines, i);
  }

  lemma DefaultHeadingIsOneLine()
    ensures OneLine(DEFAULT_HEADING)
  {
    assert IsAscii(DEFAULT_HEADING);
    AsciiIsOneLine(DEFAULT_HEADING);
  }

  lemma TablesIs(lines: seq<string>)
    ensures Tables(lines) == TablesAbove(lines, DEFAULT_HEADING, |lines|)
  {
    hide TablesAbove;
  }

  lemma {:induction false} RenderedIsLineByLine(sources: seq<Source>, i: nat)
    requires Mismatches(sources) == [] && i < |sources| && FieldsAreOneLine(sources[i])
    ensures IsLineByLine(Rendered(sources[i]))
  {
    VerifiedDigests(sources, i);
    HexIsOneLine(sources[i].actualSha);
    var tables := Tables(SplitLines(sources[i].text));
    hide SplitLines, Tables, OneLine, AllOneLine;
    forall k | 0 <= k < |tables| ensures OneLine(tables[k].heading) && AllOneLine(tables[k].block) {
      ScannedIsOneLine(SplitLines(sources[i].text), k);
    }
  }

  // ---- The round trip on the text --------------------------------------------------

  /** What scanning the digest is to return: the index table, then every source block in order under
      its running label. */
  function Expected(sources: seq<Source>): seq<Entry> {
    var docs := AllRendered(sources);
    [Entry(TITLE, IndexBlock(docs))] + Reprinted(AllTables(docs), 0)
  }

  function Scanned(text: string): seq<Entry> {
    EntriesOf(Tables(SplitLines(text)))
  }

  lemma {:induction false} OneLineFieldsReadBack(w: Wording, sources: seq<Source>)
    requires Mismatches(sources) == [] && forall i :: 0 <= i < |sources| ==> FieldsAreOneLine(sources[i])
    ensures Scanned(DigestOf(w, sources)) == Expected(sources)
  {
    var docs := AllRendered(sources);
    var texts := SourceLines(sources);
    hide *;
    forall i | 0 <= i < |docs| ensures IsLineByLine(docs[i]) {
      RenderedIsLineByLine(sources, i);
    }
    DigestLinesAreOneLine(w, docs);
    SplitOfText(DigestLines(w, docs));
    TablesOfTrimmedEnd(DigestLines(w, docs));
    RenderedTables(sources);
    DigestReadsBack(w, docs, texts);
    ReadsText(w, sources);
  }

  function SourceLines(sources: seq<Source>): (r: seq<seq<string>>)
    ensures |r| == |sources| && forall i :: 0 <= i < |sources| ==> r[i] == SplitLines(sources[i].text)
  {
    seq(|sources|, i requires 0 <= i < |sources| => SplitLines(sources[i].text))
  }

  lemma RenderedTables(sources: seq<Source>)
    ensures forall i :: 0 <= i < |sources| ==> AllRendered(sources)[i].tables == Tables(SourceLines(sources)[i])
  {
    hide Tables, SplitLines;
  }

  lemma ReadsText(w: Wording, sources: seq<Source>)
    ensures Scanned(DigestOf(w, sources)) == EntriesOf(Tables(SplitLines(TextOf(DigestLines(w, AllRendered(sources))))))
    ensures Expected(sources)
         == [Entry(TITLE, IndexBlock(AllRendered(sources)))] + Reprinted(AllTables(AllRendered(sources)), 0)
  {
    hide EntriesOf, Tables, SplitLines, TextOf, DigestLines, AllRendered, IndexBlock, Reprinted, AllTables;
  }

  /** A digest that reads back has an index of single lines, so every field in it is one. */
  lemma ReadBackFieldsAreOneLine(w: Wording, sources: seq<Source>, i: nat)
    requires Scanned(DigestOf(w, sources)) == Expected(sources) && i < |sources|
    ensures FieldsAreOneLine(sources[i])
  {
    var docs := AllRendered(sources);
    var lines := SplitLines(DigestOf(w, sources));
    hide *;
    IndexComesFirst(sources, DigestOf(w, sources));
    ScannedIsOneLine(lines, 0);
    IndexRowAt(docs, i);
    IndexRowExactly(docs[i]);
    assert OneLine(IndexRow(docs[i])) by {
      AllOneLineAt(IndexBlock(docs), i + 2);
    }
    FieldsFromRendered(sources, i);
  }

  lemma AllOneLineAt(lines: seq<string>, k: nat)
    requires AllOneLine(lines) && k < |lines|
    ensures OneLine(lines[k])
  {
  }

  lemma IndexComesFirst(sources: seq<Source>, text: string)
    requires Scanned(text) == Expected(sources)
    ensures |Tables(SplitLines(text))| > 0
    ensures Tables(SplitLines(text))[0].block == IndexBlock(AllRendered(sources))
  {
    hide Tables, SplitLines, AllRendered, IndexBlock, Reprinted, AllTables, TITLE;
    var tables := Tables(SplitLines(text));
    assert |EntriesOf(tables)| == |tables|;
    assert Expected(sources)[0].block == IndexBlock(AllRendered(sources));
    assert EntriesOf(tables)[0].block == tables[0].block;
  }

  lemma IndexRowAt(docs: seq<Document>, i: nat)
    requires i < |docs|
    ensures |IndexBlock(docs)| == |docs| + 2 && IndexBlock(docs)[i + 2] == IndexRow(docs[i])
  {
    hide IndexRow, INDEX_HEADER, INDEX_SEPARATOR;
  }

  lemma FieldsFromRendered(sources: seq<Source>, i: nat)
    requires i < |sources|
    requires OneLine(AllRendered(sources)[i].family) && OneLine(AllRendered(sources)[i].relative)
    requires OneLine(AllRendered(sources)[i].status)
    ensures FieldsAreOneLine(sources[i])
  {
    hide OneLine, Tables, SplitLines;
  }

  /** Scanning the digest of any registered sources returns the index table and then exactly the
      source blocks, in order, if and only if no family, path or status holds a line boundary. */
  lemma {:induction false} DigestReadsBackExactly(w: Wording, sources: seq<Source>)
    requires Mismatches(sources) == []
    ensures Scanned(DigestOf(w, sources)) == Expected(sources)
       <==> forall i :: 0 <= i < |sources| ==> FieldsAreOneLine(sources[i])
  {
    hide Scanned, DigestOf, Expected, FieldsAreOneLine, Mismatches;
    if Scanned(DigestOf(w, sources)) == Expected(sources) {
      forall i | 0 <= i < |sources| ensures FieldsAreOneLine(sources[i]) {
        ReadBackFieldsAreOneLine(w, sources, i);
      }
    }
    if forall i :: 0 <= i < |sources| ==> FieldsAreOneLine(sources[i]) {
      OneLineFieldsReadBack(w, sources);
    }
  }

  /** A report whose status holds a line break: the digest of it does not read back. */
  lemma BrokenStatusIsNotReadBack(w: Wording, sha: HexDigest)
    ensures var source := Source("gate-scaling-20260930", "notes/gates.md", "kept\nlate", sha, "", sha);
      Mismatches([source]) == [] && Scanned(DigestOf(w, [source])) != Expected([source])
  {
    var source := Source("gate-scaling-20260930", "notes/gates.md", "kept\nlate", sha, "", sha);
    assert Mismatches([source][..0]) == [];
    assert source.status[4] == '\n' && '\n' in source.status;
    assert !FieldsAreOneLine([source][0]);
    hide Scanned, DigestOf, Expected, FieldsAreOneLine;
    DigestReadsBackExactly(w, [source]);
  }
}
