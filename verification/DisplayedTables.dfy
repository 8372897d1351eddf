/** The Markdown table scanner of scripts/build_advisory_displayed_tables.py.  The method
    scans with an index, a fence flag and a current heading; its specification picks the
    tables position by position from facts about the whole file. */
module DisplayedTables {
  import opened TableText

  datatype Table = Table(line: nat, heading: string, block: seq<string>)

  const DEFAULT_HEADING := "Unlabelled source section"

  // ---- Line classes ----------------------------------------------------------------

  predicate IsFence(line: string) {
    "```" <= Strip(line) || "~~~" <= Strip(line)
  }

  predicate IsPipe(line: string) {
    "|" <= Strip(line)
  }

  predicate IsHeading(line: string) {
    "#" <= Strip(line)
  }

  function HeadingText(line: string): string {
    Strip(LStripHash(Strip(line)))
  }

  lemma PipeIsNothingElse(line: string)
    requires IsPipe(line)
    ensures !IsFence(line) && !IsHeading(line)
  {
    assert Strip(line)[0] == '|';
  }

  lemma FenceIsNoPipe(line: string)
    requires IsFence(line)
    ensures !IsPipe(line)
  {
    assert Strip(line)[0] == '`' || Strip(line)[0] == '~';
  }

  // ---- Facts about a position ------------------------------------------------------

  /** An odd number of fence lines lies above position i. */
  predicate InFence(lines: seq<string>, i: nat)
    requires i <= |lines|
  {
    i > 0 && (InFence(lines, i - 1) != IsFence(lines[i - 1]))
  }

  /** The text of the last heading outside fences above position i, or `start`. */
  function HeadingAt(lines: seq<string>, start: string, i: nat): string
    requires i <= |lines|
  {
    if i == 0 then start
    else
      var above := HeadingAt(lines, start, i - 1);
      if !IsFence(lines[i - 1]) && !InFence(lines, i - 1) && IsHeading(lines[i - 1]) && HeadingText(lines[i - 1]) != ""
      then HeadingText(lines[i - 1]) else above
  }

  /** The end of the run of pipe lines that holds position i. */
  function RunEnd(lines: seq<string>, i: nat): (e: nat)
    requires i <= |lines|
    ensures i <= e <= |lines|
    ensures forall j :: i <= j < e ==> IsPipe(lines[j])
    ensures e < |lines| ==> !IsPipe(lines[e])
    decreases |lines| - i
  {
    if i < |lines| && IsPipe(lines[i]) then RunEnd(lines, i + 1) else i
  }

  /** A maximal run of pipe lines outside fences starts here. */
  predicate RunStartsAt(lines: seq<string>, i: nat)
    requires i < |lines|
  {
    IsPipe(lines[i]) && !InFence(lines, i) && (i == 0 || !IsPipe(lines[i - 1]))
  }

  function Trimmed(lines: seq<string>): (r: seq<string>)
    ensures |r| == |lines| && forall i :: 0 <= i < |lines| ==> r[i] == RStrip(lines[i])
  {
    seq(|lines|, i requires 0 <= i < |lines| => RStrip(lines[i]))
  }

  function BlockAt(lines: seq<string>, i: nat): seq<string>
    requires i <= |lines|
  {
    Trimmed(lines[i..RunEnd(lines, i)])
  }

  predicate IsTableBlock(block: seq<string>) {
    |block| >= 2 && IsSeparator(block[1])
  }

  predicate TableStartsAt(lines: seq<string>, i: nat)
    requires i < |lines|
  {
    RunStartsAt(lines, i) && IsTableBlock(BlockAt(lines, i))
  }

  function TableAt(lines: seq<string>, start: string, i: nat): Table
    requires i < |lines|
  {
    Table(i + 1, HeadingAt(lines, start, i), BlockAt(lines, i))
  }

  /** The tables that start above position n, in order. */
  function TablesAbove(lines: seq<string>, start: string, n: nat): seq<Table>
    requires n <= |lines|
  {
    if n == 0 then []
    else TablesAbove(lines, start, n - 1) + if TableStartsAt(lines, n - 1) then [TableAt(lines, start, n - 1)] else []
  }

  function Tables(lines: seq<string>): seq<Table> {
    TablesAbove(lines, DEFAULT_HEADING, |lines|)
  }

  // ---- The scan --------------------------------------------------------------------

  lemma TablesAboveNext(lines: seq<string>, start: string, i: nat)
    requires i < |lines|
    ensures TablesAbove(lines, start, i + 1)
         == TablesAbove(lines, start, i) + if TableStartsAt(lines, i) then [TableAt(lines, start, i)] else []
  {
    hide TableStartsAt, TableAt;
  }

  /** A pipe line moves neither the fence state nor the heading. */
  lemma PipeStep(lines: seq<string>, start: string, i: nat)
    requires i < |lines| && IsPipe(lines[i])
    ensures InFence(lines, i + 1) == InFence(lines, i)
    ensures HeadingAt(lines, start, i + 1) == HeadingAt(lines, start, i)
  {
    PipeIsNothingElse(lines[i]);
    hide IsFence, IsPipe, IsHeading, HeadingText;
  }

  lemma NoStartAfterPipe(lines: seq<string>, i: nat)
    requires 0 < i < |lines| && IsPipe(lines[i - 1])
    ensures !TableStartsAt(lines, i)
  {
    hide IsPipe, IsTableBlock, BlockAt;
  }

  /** Within a run neither the fence state nor the heading moves, and no table starts. */
  lemma {:induction false} InsideRun(lines: seq<string>, start: string, i: nat, j: nat)
    requires i < |lines| && i < j <= RunEnd(lines, i)
    ensures InFence(lines, j) == InFence(lines, i)
    ensures HeadingAt(lines, start, j) == HeadingAt(lines, start, i)
    ensures TablesAbove(lines, start, j) == TablesAbove(lines, start, i + 1)
    decreases j
  {
    hide *;
    PipeStep(lines, start, j - 1);
    if j > i + 1 {
      InsideRun(lines, start, i, j - 1);
      NoStartAfterPipe(lines, j - 1);
      TablesAboveNext(lines, start, j - 1);
    }
  }

  lemma FenceStep(lines: seq<string>, start: string, i: nat)
    requires i < |lines| && IsFence(lines[i])
    ensures InFence(lines, i + 1) == !InFence(lines, i)
    ensures HeadingAt(lines, start, i + 1) == HeadingAt(lines, start, i)
    ensures TablesAbove(lines, start, i + 1) == TablesAbove(lines, start, i)
  {
    FenceIsNoPipe(lines[i]);
    TablesAboveNext(lines, start, i);
    hide IsFence, IsPipe, IsHeading, HeadingText, TablesAbove;
  }

  lemma PlainStep(lines: seq<string>, start: string, i: nat)
    requires i < |lines| && !IsFence(lines[i]) && (InFence(lines, i) || !IsPipe(lines[i]))
    ensures InFence(lines, i + 1) == InFence(lines, i)
    ensures TablesAbove(lines, start, i + 1) == TablesAbove(lines, start, i)
  {
    TablesAboveNext(lines, start, i);
    hide IsFence, IsPipe, IsHeading, HeadingText, TablesAbove;
  }

  /** `displayed_tables`. */
  method ScanTables(lines: seq<string>) returns (found: seq<Table>)
    ensures found == Tables(lines)
  {
    found := [];
    var heading := DEFAULT_HEADING;
    var inFence := false;
    var i := 0;
    hide Strip, IsSeparator, LStripHash, InFence, HeadingAt, TablesAbove, RunEnd;
    assert !InFence(lines, 0) && HeadingAt(lines, DEFAULT_HEADING, 0) == DEFAULT_HEADING
      && TablesAbove(lines, DEFAULT_HEADING, 0) == [] by {
      ScanStart(lines, DEFAULT_HEADING);
    }
    while i < |lines|
      invariant 0 <= i <= |lines|
      invariant inFence == InFence(lines, i)
      invariant heading == HeadingAt(lines, DEFAULT_HEADING, i)
      invariant found == TablesAbove(lines, DEFAULT_HEADING, i)
      invariant 0 < i < |lines| && IsPipe(lines[i - 1]) ==> inFence || !IsPipe(lines[i])
    {
      var stripped := Strip(lines[i]);
      if "```" <= stripped || "~~~" <= stripped {
        FenceStep(lines, DEFAULT_HEADING, i);
        FenceIsNoPipe(lines[i]);
        inFence := !inFence;
        i := i + 1;
        continue;
      }
      ghost var above := heading;
      if !inFence && "#" <= stripped {
        var text := Strip(LStripHash(stripped));
        heading := if text != "" then text else heading;
      }
      if !inFence && "|" <= stripped {
        PipeIsNothingElse(lines[i]);
        var block, end := CollectRun(lines, i);
        InsideRun(lines, DEFAULT_HEADING, i, end);
        TablesAboveNext(lines, DEFAULT_HEADING, i);
        if |block| >= 2 && IsSeparator(block[1]) {
          found := found + [Table(i + 1, heading, block)];
        }
        i := end;
        continue;
      }
      PlainStep(lines, DEFAULT_HEADING, i);
      HeadingStep(lines, DEFAULT_HEADING, i);
      i := i + 1;
    }
  }

  lemma ScanStart(lines: seq<string>, start: string)
    ensures !InFence(lines, 0) && HeadingAt(lines, start, 0) == start && TablesAbove(lines, start, 0) == []
  {
  }

  lemma HeadingStep(lines: seq<string>, start: string, i: nat)
    requires i < |lines| && !IsFence(lines[i])
    ensures HeadingAt(lines, start, i + 1)
         == if !InFence(lines, i) && IsHeading(lines[i]) && HeadingText(lines[i]) != "" then HeadingText(lines[i])
            else HeadingAt(lines, start, i)
  {
    hide IsFence, IsPipe, IsHeading, HeadingText;
  }

  /** The inner loop: the run of pipe lines from position i, right-stripped. */
  method CollectRun(lines: seq<string>, start: nat) returns (block: seq<string>, end: nat)
    requires start < |lines| && IsPipe(lines[start])
    ensures end == RunEnd(lines, start) && block == BlockAt(lines, start) && start < end
    ensures end < |lines| ==> !IsPipe(lines[end])
  {
    hide Strip, RStrip;
    block := [];
    var i := start;
    while i < |lines| && "|" <= Strip(lines[i])
      invariant start <= i <= RunEnd(lines, start)
      invariant block == Trimmed(lines[start..i])
    {
      assert lines[start..i + 1] == lines[start..i] + [lines[i]];
      block := block + [RStrip(lines[i])];
      i := i + 1;
      assert block == Trimmed(lines[start..i]);
    }
    end := i;
  }

  // ---- What the result means -------------------------------------------------------

  /** Exactly the maximal pipe runs outside fences whose second line is a separator. */
  lemma {:induction false} TablesAreTheQualifyingRuns(lines: seq<string>, start: string, n: nat, t: Table)
    requires n <= |lines|
    ensures t in TablesAbove(lines, start, n)
       <==> exists i: nat :: i < n && TableStartsAt(lines, i) && t == TableAt(lines, start, i)
  {
    hide TableStartsAt, TableAt;
    if n > 0 {
      TablesAreTheQualifyingRuns(lines, start, n - 1, t);
      TablesAboveNext(lines, start, n - 1);
      hide TablesAbove;
    }
  }

  /** A run's start is recovered from the reported line number. */
  lemma {:induction false} TableLinesBelow(lines: seq<string>, start: string, n: nat, k: nat)
    requires n <= |lines| && k < |TablesAbove(lines, start, n)|
    ensures var t := TablesAbove(lines, start, n)[k];
      && 1 <= t.line <= n && TableStartsAt(lines, t.line - 1)
      && t == TableAt(lines, start, t.line - 1)
  {
    hide TableStartsAt, HeadingAt, BlockAt;
    var before := if n == 0 then [] else TablesAbove(lines, start, n - 1);
    if k < |before| {
      TableLinesBelow(lines, start, n - 1, k);
    }
  }

  /** The blocks come in file order and never touch: between two of them lies a line that
      belongs to neither. */
  lemma {:induction false} TablesAreOrderedAndDisjoint(lines: seq<string>, start: string, n: nat, j: nat, k: nat)
    requires n <= |lines| && j < k < |TablesAbove(lines, start, n)|
    ensures var found := TablesAbove(lines, start, n);
      found[j].line + |found[j].block| < found[k].line
  {
    hide *;
    TableLinesBelow(lines, start, n, j);
    TableLinesBelow(lines, start, n, k);
    TablesAscend(lines, start, n, j, k);
    var found := TablesAbove(lines, start, n);
    TablesApart(lines, start, found[j].line - 1, found[k].line - 1);
  }

  lemma TablesApart(lines: seq<string>, start: string, i: nat, j: nat)
    requires i < j < |lines| && TableStartsAt(lines, i) && TableStartsAt(lines, j)
    ensures i + |TableAt(lines, start, i).block| < j
  {
    hide IsTableBlock, HeadingAt;
    RunsApart(lines, i, j);
  }

  lemma {:induction false} TablesAscend(lines: seq<string>, start: string, n: nat, j: nat, k: nat)
    requires n <= |lines| && j < k < |TablesAbove(lines, start, n)|
    ensures TablesAbove(lines, start, n)[j].line < TablesAbove(lines, start, n)[k].line
  {
    hide TableStartsAt, HeadingAt, BlockAt;
    var before := TablesAbove(lines, start, n - 1);
    if k < |before| {
      TablesAscend(lines, start, n - 1, j, k);
    } else {
      TableLinesBelow(lines, start, n - 1, j);
    }
  }

  /** A run that starts later starts beyond the line that ended the earlier one. */
  lemma RunsApart(lines: seq<string>, i: nat, j: nat)
    requires i < j < |lines| && RunStartsAt(lines, i) && RunStartsAt(lines, j)
    ensures RunEnd(lines, i) < j
  {
    hide IsPipe, InFence;
    assert !IsPipe(lines[j - 1]);
  }
}
