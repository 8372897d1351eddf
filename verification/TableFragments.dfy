/** Scanning fragments of Markdown: what the scanner of `DisplayedTables` finds in a concatenation,
    in prose, under a heading and in a table block. */
module TableFragments {
  import opened TableText
  import opened DisplayedTables
  import opened TextLines

  /** Lines that open no fence, table row or heading, recognised by their first characters. */
  predicate LooksPlain(line: string) {
    line == "" || (!IsSpace(line[0]) && line[0] !in "|~#" && (line[0] == '`' && |line| > 1 ==> line[1] != '`'))
  }

  type Prose = line: string | LooksPlain(line)

  // ---- Scanning a concatenation ----------------------------------------------------

  /** A table without its line number. */
  datatype Entry = Entry(heading: string, block: seq<string>)

  function EntriesOf(tables: seq<Table>): seq<Entry> {
    seq(|tables|, i requires 0 <= i < |tables| => Entry(tables[i].heading, tables[i].block))
  }

  /** What the scanner finds in a fragment that it enters outside fences under `start`. */
  function Found(lines: seq<string>, start: string): seq<Entry> {
    EntriesOf(TablesAbove(lines, start, |lines|))
  }

  function After(lines: seq<string>, start: string): string {
    HeadingAt(lines, start, |lines|)
  }

  /** No fence is open at the end. */
  predicate Settled(lines: seq<string>) {
    !InFence(lines, |lines|)
  }

  predicate PipeFree(lines: seq<string>) {
    forall i :: 0 <= i < |lines| ==> !IsPipe(lines[i])
  }

  /** No run of pipe lines crosses the seam. */
  predicate CleanSeam(a: seq<string>, b: seq<string>) {
    a == [] || b == [] || !IsPipe(a[|a| - 1]) || !IsPipe(b[0])
  }

  lemma {:induction false} FenceInPrefix(a: seq<string>, b: seq<string>, i: nat)
    requires i <= |a|
    ensures InFence(a + b, i) == InFence(a, i)
  {
    hide IsFence;
    if i > 0 {
      FenceInPrefix(a, b, i - 1);
    }
  }

  lemma {:induction false} FenceInSuffix(a: seq<string>, b: seq<string>, j: nat)
    requires Settled(a) && j <= |b|
    ensures InFence(a + b, |a| + j) == InFence(b, j)
  {
    hide IsFence;
    if j == 0 {
      FenceInPrefix(a, b, |a|);
    } else {
      FenceInSuffix(a, b, j - 1);
      assert (a + b)[|a| + j - 1] == b[j - 1];
    }
  }

  lemma {:induction false} HeadingInPrefix(a: seq<string>, b: seq<string>, start: string, i: nat)
    requires i <= |a|
    ensures HeadingAt(a + b, start, i) == HeadingAt(a, start, i)
  {
    hide IsFence, IsHeading, HeadingText, InFence;
    if i > 0 {
      HeadingInPrefix(a, b, start, i - 1);
      FenceInPrefix(a, b, i - 1);
    }
  }

  lemma {:induction false} HeadingInSuffix(a: seq<string>, b: seq<string>, start: string, j: nat)
    requires Settled(a) && j <= |b|
    ensures HeadingAt(a + b, start, |a| + j) == HeadingAt(b, After(a, start), j)
  {
    hide IsFence, IsHeading, HeadingText, InFence, Settled;
    if j == 0 {
      HeadingInPrefix(a, b, start, |a|);
    } else {
      HeadingInSuffix(a, b, start, j - 1);
      FenceInSuffix(a, b, j - 1);
      assert (a + b)[|a| + j - 1] == b[j - 1];
    }
  }

  lemma {:induction false} RunEndInPrefix(a: seq<string>, b: seq<string>, i: nat)
    requires CleanSeam(a, b) && i < |a|
    ensures RunEnd(a + b, i) == RunEnd(a, i)
    decreases |a| - i
  {
    hide IsPipe;
    if IsPipe(a[i]) && i + 1 < |a| {
      RunEndInPrefix(a, b, i + 1);
    }
  }

  lemma {:induction false} RunEndInSuffix(a: seq<string>, b: seq<string>, j: nat)
    requires j <= |b|
    ensures RunEnd(a + b, |a| + j) == |a| + RunEnd(b, j)
    decreases |b| - j
  {
    hide IsPipe;
    if j < |b| {
      assert (a + b)[|a| + j] == b[j];
      if IsPipe(b[j]) {
        RunEndInSuffix(a, b, j + 1);
      }
    }
  }

  /** Positions in the first fragment look the same in the concatenation. */
  lemma StartInPrefix(a: seq<string>, b: seq<string>, start: string, i: nat)
    requires CleanSeam(a, b) && i < |a|
    ensures TableStartsAt(a + b, i) == TableStartsAt(a, i)
    ensures TableAt(a + b, start, i) == TableAt(a, start, i)
  {
    FenceInPrefix(a, b, i);
    RunEndInPrefix(a, b, i);
    HeadingInPrefix(a, b, start, i);
    hide InFence, HeadingAt, RunEnd, IsPipe, IsTableBlock;
    assert (a + b)[i..RunEnd(a, i)] == a[i..RunEnd(a, i)];
  }

  lemma StartInSuffix(a: seq<string>, b: seq<string>, start: string, j: nat)
    requires Settled(a) && CleanSeam(a, b) && j < |b|
    ensures TableStartsAt(a + b, |a| + j) == TableStartsAt(b, j)
    ensures TableAt(a + b, start, |a| + j) == TableAt(b, After(a, start), j).(line := |a| + j + 1)
  {
    hide *;
    BlockInSuffix(a, b, j);
    RunStartInSuffix(a, b, j);
    HeadingInSuffix(a, b, start, j);
    StartIs(a + b, start, |a| + j);
    StartIs(b, After(a, start), j);
  }

  lemma StartIs(lines: seq<string>, start: string, i: nat)
    requires i < |lines|
    ensures TableStartsAt(lines, i) == (RunStartsAt(lines, i) && IsTableBlock(BlockAt(lines, i)))
    ensures TableAt(lines, start, i) == Table(i + 1, HeadingAt(lines, start, i), BlockAt(lines, i))
  {
  }

  lemma BlockInSuffix(a: seq<string>, b: seq<string>, j: nat)
    requires j < |b|
    ensures BlockAt(a + b, |a| + j) == BlockAt(b, j)
  {
    RunEndInSuffix(a, b, j);
    hide RunEnd, IsPipe, RStrip;
    assert (a + b)[|a| + j..|a| + RunEnd(b, j)] == b[j..RunEnd(b, j)];
  }

  lemma RunStartInSuffix(a: seq<string>, b: seq<string>, j: nat)
    requires Settled(a) && CleanSeam(a, b) && j < |b|
    ensures RunStartsAt(a + b, |a| + j) == RunStartsAt(b, j)
  {
    FenceInSuffix(a, b, j);
    hide InFence, IsPipe;
    assert (a + b)[|a| + j] == b[j];
    assert j > 0 ==> (a + b)[|a| + j - 1] == b[j - 1];
    assert j == 0 && a != [] ==> (a + b)[|a| + j - 1] == a[|a| - 1];
  }

  lemma {:induction false} FoundInPrefix(a: seq<string>, b: seq<string>, start: string, i: nat)
    requires CleanSeam(a, b) && i <= |a|
    ensures TablesAbove(a + b, start, i) == TablesAbove(a, start, i)
  {
    hide TableStartsAt, TableAt, CleanSeam;
    if i > 0 {
      FoundInPrefix(a, b, start, i - 1);
      StartInPrefix(a, b, start, i - 1);
    }
  }

  lemma EntriesAppend(s: seq<Table>, t: seq<Table>)
    ensures EntriesOf(s + t) == EntriesOf(s) + EntriesOf(t)
  {
  }

  lemma {:induction false} FoundInSuffix(a: seq<string>, b: seq<string>, start: string, j: nat)
    requires Settled(a) && CleanSeam(a, b) && j <= |b|
    ensures EntriesOf(TablesAbove(a + b, start, |a| + j))
         == EntriesOf(TablesAbove(a, start, |a|)) + EntriesOf(TablesAbove(b, After(a, start), j))
  {
    hide TableStartsAt, TableAt, Settled, CleanSeam, After, EntriesOf;
    if j == 0 {
      FoundInPrefix(a, b, start, |a|);
      NoEntries();
    } else {
      FoundInSuffix(a, b, start, j - 1);
      StartInSuffix(a, b, start, j - 1);
      var before, more := TablesAbove(a + b, start, |a| + j - 1), TablesAbove(b, After(a, start), j - 1);
      TablesAboveNext(a + b, start, |a| + j - 1);
      TablesAboveNext(b, After(a, start), j - 1);
      hide TablesAbove;
      if TableStartsAt(b, j - 1) {
        var here, there := TableAt(a + b, start, |a| + j - 1), TableAt(b, After(a, start), j - 1);
        EntriesAppend(before, [here]);
        EntriesAppend(more, [there]);
        SameEntry(here, there);
        assert EntriesOf(before + [here]) == EntriesOf(TablesAbove(a, start, |a|)) + EntriesOf(more + [there]);
      } else {
        assert before + [] == before && more + [] == more;
      }
    }
  }

  lemma NoEntries()
    ensures EntriesOf([]) == []
  {
  }

  lemma SameEntry(s: Table, t: Table)
    requires s.heading == t.heading && s.block == t.block
    ensures EntriesOf([s]) == EntriesOf([t])
  {
  }

  /** Scanning a concatenation is scanning the parts in turn, when no fence is open at the end of the
      first and no run of pipe lines crosses the seam. */
  lemma FoundInConcatenation(a: seq<string>, b: seq<string>, start: string)
    requires Settled(a) && CleanSeam(a, b)
    ensures Found(a + b, start) == Found(a, start) + Found(b, After(a, start))
    ensures After(a + b, start) == After(b, After(a, start))
    ensures Settled(a + b) == Settled(b)
  {
    hide InFence, TablesAbove, HeadingAt, EntriesOf, CleanSeam;
    assert |a + b| == |a| + |b|;
    assert Settled(a + b) == Settled(b) by {
      FenceInSuffix(a, b, |b|);
    }
    assert After(a + b, start) == After(b, After(a, start)) by {
      HeadingInSuffix(a, b, start, |b|);
    }
    hide Settled, After;
    FoundInSuffix(a, b, start, |b|);
  }

  predicate FenceFree(lines: seq<string>) {
    forall i :: 0 <= i < |lines| ==> !IsFence(lines[i])
  }

  lemma {:induction false} NeverInFence(lines: seq<string>, i: nat)
    requires FenceFree(lines) && i <= |lines|
    ensures !InFence(lines, i)
  {
    hide IsFence;
    if i > 0 {
      NeverInFence(lines, i - 1);
    }
  }

  /** Prose yields no table. */
  lemma {:induction false} NothingInProse(lines: seq<string>, start: string, n: nat)
    requires PipeFree(lines) && n <= |lines|
    ensures TablesAbove(lines, start, n) == []
  {
    hide IsPipe, IsTableBlock, BlockAt, InFence;
    if n > 0 {
      NothingInProse(lines, start, n - 1);
    }
  }

  /** A trimmed table block yields itself under the current heading. */
  predicate IsTrimmedBlock(block: seq<string>) {
    && IsTableBlock(block)
    && forall i :: 0 <= i < |block| ==> IsPipe(block[i]) && RStrip(block[i]) == block[i]
  }

  lemma {:induction false} RunEndOfBlock(block: seq<string>, i: nat)
    requires i <= |block| && forall k :: 0 <= k < |block| ==> IsPipe(block[k])
    ensures RunEnd(block, i) == |block|
    decreases |block| - i
  {
    hide IsPipe;
    if i < |block| {
      RunEndOfBlock(block, i + 1);
    }
  }

  lemma BlockIsFenceFree(block: seq<string>)
    requires IsTrimmedBlock(block)
    ensures FenceFree(block)
  {
    hide IsSeparator, RStrip;
    forall i | 0 <= i < |block| ensures !IsFence(block[i]) {
      PipeIsNothingElse(block[i]);
    }
  }

  lemma FoundInBlock(block: seq<string>, start: string)
    requires IsTrimmedBlock(block)
    ensures Found(block, start) == [Entry(start, block)] && After(block, start) == start
  {
    hide IsSeparator, RStrip, IsFence, Strip;
    RunEndOfBlock(block, 0);
    ScanStart(block, start);
    InsideRun(block, start, 0, |block|);
    TablesAboveNext(block, start, 0);
    assert block[0..|block|] == block && Trimmed(block) == block;
    hide InFence, HeadingAt, TablesAbove, IsPipe;
  }

  // ---- Reading fragments -----------------------------------------------------------

  /** Scanning `lines` outside fences under `start` finds `entries` and ends under `heading`. */
  predicate Reads(lines: seq<string>, start: string, entries: seq<Entry>, heading: string) {
    Settled(lines) && Found(lines, start) == entries && After(lines, start) == heading
  }

  /** Neither end of the fragment is a pipe line. */
  predicate Closed(lines: seq<string>) {
    lines != [] && !IsPipe(lines[0]) && !IsPipe(lines[|lines| - 1])
  }

  lemma ReadsInTurn(a: seq<string>, b: seq<string>, start: string, s: seq<Entry>, between: string, t: seq<Entry>,
                    end: string)
    requires Reads(a, start, s, between) && Reads(b, between, t, end) && (Closed(a) || Closed(b))
    ensures Reads(a + b, start, s + t, end)
  {
    assert CleanSeam(a, b) by {
      hide IsPipe;
    }
    hide Settled, Found, After, IsPipe;
    FoundInConcatenation(a, b, start);
  }

  lemma PlainLineIsPlain(line: string)
    requires LooksPlain(line)
    ensures !IsFence(line) && !IsPipe(line) && !IsHeading(line)
  {
    if line != "" {
      StripKeepsFirst(line);
      hide Strip;
    }
  }

  lemma {:induction false} HeadingUnmoved(lines: seq<string>, start: string, n: nat)
    requires n <= |lines| && forall i :: 0 <= i < |lines| ==> !IsHeading(lines[i])
    ensures HeadingAt(lines, start, n) == start
  {
    hide IsHeading, IsFence, HeadingText, InFence;
    if n > 0 {
      HeadingUnmoved(lines, start, n - 1);
    }
  }

  lemma ReadsProse(lines: seq<Prose>, start: string)
    ensures Reads(lines, start, [], start)
    ensures lines != [] ==> Closed(lines)
  {
    forall i | 0 <= i < |lines| ensures !IsFence(lines[i]) && !IsPipe(lines[i]) && !IsHeading(lines[i]) {
      PlainLineIsPlain(lines[i]);
    }
    NeverInFence(lines, |lines|);
    NothingInProse(lines, start, |lines|);
    HeadingUnmoved(lines, start, |lines|);
    NoEntries();
    hide IsFence, IsPipe, IsHeading, TablesAbove, EntriesOf, HeadingAt;
  }

  lemma ReadsBlock(block: seq<string>, start: string)
    requires IsTrimmedBlock(block)
    ensures Reads(block, start, [Entry(start, block)], start)
  {
    BlockIsFenceFree(block);
    NeverInFence(block, |block|);
    FoundInBlock(block, start);
    hide InFence, Found, After, IsTrimmedBlock;
  }

  predicate EndsBare(s: string) {
    s != "" && !IsSpace(s[|s| - 1])
  }

  lemma {:induction false} HashesGo(marks: string, text: string)
    requires forall i :: 0 <= i < |marks| ==> marks[i] == '#' || marks[i] == ' '
    requires text != "" && text[0] != '#' && text[0] != ' '
    ensures LStripHash(marks + text) == text
  {
    if marks == "" {
      assert marks + text == text;
    } else {
      assert (marks + text)[1..] == marks[1..] + text;
      HashesGo(marks[1..], text);
    }
  }

  lemma BareIsStripped(s: string)
    requires EndsBare(s) && !IsSpace(s[0])
    ensures Strip(s) == s
  {
    assert LStrip(s) == s;
    RStripOfStripped(s);
  }

  /** A heading line sets the heading to its own text. */
  lemma ReadsHeading(marks: string, text: string, start: string)
    requires marks != "" && marks[0] == '#' && forall i :: 0 <= i < |marks| ==> marks[i] == '#' || marks[i] == ' '
    requires EndsBare(text) && !IsSpace(text[0]) && text[0] != '#'
    ensures Reads([marks + text], start, [], text) && Closed([marks + text])
  {
    var line := marks + text;
    BareIsStripped(line);
    BareIsStripped(text);
    HashesGo(marks, text);
    assert IsHeading(line) && !IsFence(line) && !IsPipe(line) && HeadingText(line) == text by {
      assert line[0] == '#';
      hide Strip, LStripHash;
    }
    hide IsFence, IsPipe, IsHeading, HeadingText;
    NothingInProse([line], start, 1);
    NoEntries();
    assert HeadingAt([line], start, 1) == text;
  }

  /** A heading line of any text yields no entry. */
  lemma ReadsSomeHeading(line: string, start: string)
    requires line != "" && line[0] == '#'
    ensures Reads([line], start, [], After([line], start)) && Closed([line])
  {
    StripKeepsFirst(line);
    assert !IsFence(line) && !IsPipe(line) by {
      hide Strip;
    }
    hide IsFence, IsPipe, After;
    NothingInProse([line], start, 1);
    NoEntries();
  }

  // ---- What the scanner can have found ---------------------------------------------

  predicate IsPrintable(t: Table) {
    IsTrimmedBlock(t.block) && EndsBare(t.heading)
  }

  lemma {:induction false} HeadingsEndBare(lines: seq<string>, start: string, n: nat)
    requires n <= |lines| && EndsBare(start)
    ensures EndsBare(HeadingAt(lines, start, n))
  {
    hide IsFence, IsHeading, LStrip, LStripHash, RStrip, InFence;
    if n > 0 {
      HeadingsEndBare(lines, start, n - 1);
    }
  }

  lemma TrimmedPipe(line: string)
    requires IsPipe(line)
    ensures IsPipe(RStrip(line)) && RStrip(RStrip(line)) == RStrip(line)
  {
    StripOfRStrip(line);
    RStripOfStripped(RStrip(line));
    hide Strip;
  }

  lemma FoundTablesArePrintable(lines: seq<string>, start: string, k: nat)
    requires EndsBare(start) && k < |TablesAbove(lines, start, |lines|)|
    ensures IsPrintable(TablesAbove(lines, start, |lines|)[k])
  {
    hide *;
    TableLinesBelow(lines, start, |lines|, k);
    var i := TablesAbove(lines, start, |lines|)[k].line - 1;
    HeadingsEndBare(lines, start, i);
    BlocksAreTrimmed(lines, i);
    StartIs(lines, start, i);
    hide TablesAbove;
    MakePrintable(TableAt(lines, start, i));
  }

  lemma MakePrintable(t: Table)
    requires IsTrimmedBlock(t.block) && EndsBare(t.heading)
    ensures IsPrintable(t)
  {
    hide IsTrimmedBlock;
  }

  lemma BlocksAreTrimmed(lines: seq<string>, i: nat)
    requires i < |lines| && TableStartsAt(lines, i)
    ensures IsTrimmedBlock(BlockAt(lines, i))
  {
    hide IsPipe, RStrip, InFence, IsSeparator;
    var run := lines[i..RunEnd(lines, i)];
    forall j | 0 <= j < |run| ensures IsPipe(Trimmed(run)[j]) && RStrip(Trimmed(run)[j]) == Trimmed(run)[j] {
      TrimmedPipe(run[j]);
    }
  }

  lemma ClosedAppend(a: seq<string>, b: seq<string>)
    requires Closed(a) && Closed(b)
    ensures Closed(a + b)
  {
    hide IsPipe;
  }

  lemma ClosedEnds(a: seq<string>, b: seq<string>, c: seq<string>)
    requires Closed(a) && Closed(c)
    ensures Closed(a + b + c)
  {
    hide IsPipe;
    var whole := a + b + c;
    assert whole[0] == a[0] && whole[|whole| - 1] == c[|c| - 1];
  }

  lemma ReadsMeansFound(lines: seq<string>, start: string, entries: seq<Entry>, end: string)
    requires Reads(lines, start, entries, end)
    ensures Found(lines, start) == entries
  {
  }

  // ---- Lines that differ in trailing white space -----------------------------------

  predicate SameUpToRStrip(a: seq<string>, b: seq<string>) {
    |a| == |b| && forall i :: 0 <= i < |a| ==> RStrip(a[i]) == RStrip(b[i])
  }

  /** The scanner reads a line only through its stripped text. */
  lemma SameLine(a: string, b: string)
    requires RStrip(a) == RStrip(b)
    ensures Strip(a) == Strip(b)
    ensures IsFence(a) == IsFence(b) && IsPipe(a) == IsPipe(b) && IsHeading(a) == IsHeading(b)
        && HeadingText(a) == HeadingText(b)
  {
    StripOfRStrip(a);
    StripOfRStrip(b);
    hide Strip, RStrip, LStripHash;
  }

  lemma {:induction false} SameStateAt(a: seq<string>, b: seq<string>, start: string, i: nat)
    requires SameUpToRStrip(a, b) && i <= |a|
    ensures InFence(a, i) == InFence(b, i) && HeadingAt(a, start, i) == HeadingAt(b, start, i)
  {
    hide IsFence, IsHeading, HeadingText, RStrip;
    if i > 0 {
      SameStateAt(a, b, start, i - 1);
      SameLine(a[i - 1], b[i - 1]);
    }
  }

  lemma {:induction false} SameRunEnd(a: seq<string>, b: seq<string>, i: nat)
    requires SameUpToRStrip(a, b) && i <= |a|
    ensures RunEnd(a, i) == RunEnd(b, i)
    decreases |a| - i
  {
    hide IsPipe, RStrip;
    if i < |a| {
      SameLine(a[i], b[i]);
      SameRunEnd(a, b, i + 1);
    }
  }

  lemma SameBlock(a: seq<string>, b: seq<string>, i: nat)
    requires SameUpToRStrip(a, b) && i <= |a|
    ensures BlockAt(a, i) == BlockAt(b, i)
  {
    SameRunEnd(a, b, i);
    hide RunEnd, RStrip;
    assert Trimmed(a[i..RunEnd(a, i)]) == Trimmed(b[i..RunEnd(b, i)]);
  }

  lemma SameStart(a: seq<string>, b: seq<string>, start: string, i: nat)
    requires SameUpToRStrip(a, b) && i < |a|
    ensures TableStartsAt(a, i) == TableStartsAt(b, i) && TableAt(a, start, i) == TableAt(b, start, i)
  {
    hide InFence, HeadingAt, BlockAt, IsPipe, IsTableBlock, RStrip;
    SameStateAt(a, b, start, i);
    SameBlock(a, b, i);
    SameLine(a[i], b[i]);
    if i > 0 {
      SameLine(a[i - 1], b[i - 1]);
    }
  }

  lemma {:induction false} SameTables(a: seq<string>, b: seq<string>, start: string, n: nat)
    requires SameUpToRStrip(a, b) && n <= |a|
    ensures TablesAbove(a, start, n) == TablesAbove(b, start, n)
  {
    hide TableStartsAt, TableAt, SameUpToRStrip;
    if n > 0 {
      SameTables(a, b, start, n - 1);
      SameStart(a, b, start, n - 1);
    }
  }

  /** A blank line opens no fence, table or heading. */
  lemma BlankIsPlain(line: string)
    requires RStrip(line) == ""
    ensures !IsPipe(line)
  {
    StripOfRStrip(line);
    assert Strip("") == "";
    hide Strip, RStrip;
  }

  lemma BlankAtEnd(init: seq<string>, blank: string)
    requires RStrip(blank) == ""
    ensures Tables(init + [blank]) == Tables(init)
  {
    BlankIsPlain(blank);
    hide IsPipe, RStrip, TablesAbove, InFence, IsTableBlock, BlockAt;
    FoundInPrefix(init, [blank], DEFAULT_HEADING, |init|);
    TablesAboveNext(init + [blank], DEFAULT_HEADING, |init|);
    assert (init + [blank])[|init|] == blank;
  }

  /** Trimming the end of a file neither loses nor changes a table. */
  lemma {:induction false} TablesOfTrimmedEnd(lines: seq<string>)
    ensures Tables(TrimEnd(lines)) == Tables(lines)
  {
    if lines == [] {
      BlankAtEnd([], "");
      assert [] + [""] == [""];
    } else {
      var init, last := lines[..|lines| - 1], lines[|lines| - 1];
      assert lines == init + [last];
      if RStrip(last) == "" {
        TablesOfTrimmedEnd(init);
        BlankAtEnd(init, last);
      } else {
        RStripOfStripped(RStrip(last));
        hide RStrip;
        SameTables(init + [RStrip(last)], lines, DEFAULT_HEADING, |lines|);
      }
    }
  }
}
