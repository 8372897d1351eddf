/** Lines and text: `str.splitlines`, joining with newlines, and what stripping the end of a joined
    text does to its lines. */
module TextLines {
  import opened TableText

  /** The characters at which `str.splitlines` ends a line. */
  predicate IsBoundary(c: char) {
    '\n' <= c <= '\r' || '\U{1C}' <= c <= '\U{1E}' || c == '\U{85}' || c == '\U{2028}' || c == '\U{2029}'
  }

  predicate OneLine(s: string) {
    forall c :: c in s ==> !IsBoundary(c)
  }

  predicate AllOneLine(lines: seq<string>) {
    forall i :: 0 <= i < |lines| ==> OneLine(lines[i])
  }

  function FirstBoundary(s: string): (n: nat)
    ensures n <= |s| && OneLine(s[..n])
    ensures n < |s| ==> IsBoundary(s[n])
  {
    if s == "" || IsBoundary(s[0]) then 0
    else
      var n := FirstBoundary(s[1..]);
      assert s[..n + 1] == [s[0]] + s[1..][..n];
      n + 1
  }

  /** The end of the boundary at position n: a carriage return takes a following newline along. */
  function AfterBoundary(s: string, n: nat): (m: nat)
    requires n < |s|
    ensures n < m <= |s|
  {
    if s[n] == '\r' && n + 1 < |s| && s[n + 1] == '\n' then n + 2 else n + 1
  }

  /** `str.splitlines`. */
  function SplitLines(s: string): (lines: seq<string>)
    ensures AllOneLine(lines)
    decreases |s|
  {
    if s == "" then []
    else
      var n := FirstBoundary(s);
      if n == |s| then
        assert s[..n] == s;
        [s]
      else
        [s[..n]] + SplitLines(s[AfterBoundary(s, n)..])
  }

  /** `"\n".join(lines)`. */
  function Join(lines: seq<string>): string {
    if lines == [] then ""
    else if |lines| == 1 then lines[0]
    else lines[0] + "\n" + Join(lines[1..])
  }

  lemma OneLineAppend(a: string, b: string)
    ensures OneLine(a + b) <==> OneLine(a) && OneLine(b)
  {
    forall c ensures c in a + b <==> c in a || c in b {
    }
  }

  lemma OneLinePart(part: string, s: string)
    requires OneLine(s) && forall c :: c in part ==> c in s
    ensures OneLine(part)
  {
  }

  lemma {:induction false} FirstBoundaryIs(line: string, rest: string)
    requires OneLine(line) && rest != "" && IsBoundary(rest[0])
    ensures FirstBoundary(line + rest) == |line|
  {
    if line == "" {
      assert line + rest == rest;
    } else {
      assert (line + rest)[1..] == line[1..] + rest && line[0] in line;
      OneLinePart(line[1..], line);
      FirstBoundaryIs(line[1..], rest);
    }
  }

  lemma SplitFirstLine(line: string, rest: string)
    requires OneLine(line)
    ensures SplitLines(line + "\n" + rest) == [line] + SplitLines(rest)
  {
    var s := line + "\n" + rest;
    assert s == line + ("\n" + rest);
    FirstBoundaryIs(line, "\n" + rest);
    assert s[|line|] == '\n';
    assert s[..|line|] == line && s[|line| + 1..] == rest;
  }

  lemma NoLines()
    ensures SplitLines("") == []
  {
  }

  /** Splitting what was joined gives the lines back, if each is one line. */
  lemma {:induction false} SplitOfJoin(lines: seq<string>)
    requires AllOneLine(lines) && lines != []
    ensures SplitLines(Join(lines) + "\n") == lines
  {
    hide SplitLines, OneLine;
    if |lines| == 1 {
      assert lines[0] + "\n" + "" == Join(lines) + "\n";
      SplitFirstLine(lines[0], "");
      NoLines();
      assert lines == [lines[0]];
    } else {
      var rest := lines[1..];
      SplitOfJoin(rest);
      assert Join(lines) + "\n" == lines[0] + "\n" + (Join(rest) + "\n");
      SplitFirstLine(lines[0], Join(rest) + "\n");
      assert lines == [lines[0]] + rest;
    }
  }

  lemma {:induction false} JoinAppend(init: seq<string>, last: string)
    requires init != []
    ensures Join(init + [last]) == Join(init) + ("\n" + last)
  {
    if |init| == 1 {
      assert (init + [last])[1..] == [last];
    } else {
      assert (init + [last])[1..] == init[1..] + [last];
      JoinAppend(init[1..], last);
      assert init[0] + "\n" + (Join(init[1..]) + ("\n" + last)) == (init[0] + "\n" + Join(init[1..])) + ("\n" + last);
    }
  }

  // ---- Stripping the end -----------------------------------------------------------

  lemma {:induction false} RStripAppend(a: string, b: string)
    ensures RStrip(a + b) == if RStrip(b) == "" then RStrip(a) else a + RStrip(b)
  {
    if b == "" {
      assert a + b == a;
    } else {
      var init, last := b[..|b| - 1], b[|b| - 1];
      assert (a + b)[|a + b| - 1] == last && (a + b)[..|a + b| - 1] == a + init;
      if IsSpace(last) {
        RStripAppend(a, init);
      }
    }
  }

  /** Trailing blank lines dropped and the last line stripped on the right. */
  function TrimEnd(lines: seq<string>): (r: seq<string>)
    ensures r != []
    ensures AllOneLine(lines) ==> AllOneLine(r)
  {
    if lines == [] then [""]
    else
      var init, last := lines[..|lines| - 1], RStrip(lines[|lines| - 1]);
      if last == "" then
        assert AllOneLine(lines) ==> AllOneLine(init);
        TrimEnd(init)
      else
        assert AllOneLine(lines) ==> OneLine(last) by {
          if AllOneLine(lines) {
            OneLinePart(last, lines[|lines| - 1]);
          }
        }
        init + [last]
  }

  lemma {:induction false} RStripOfJoin(lines: seq<string>)
    ensures RStrip(Join(lines)) == Join(TrimEnd(lines))
  {
    if lines != [] {
      var init, last := lines[..|lines| - 1], lines[|lines| - 1];
      assert lines == init + [last];
      if init == [] {
        assert lines == [last];
        assert TrimEnd([]) == [""] && Join([""]) == "";
        assert RStrip(last) != "" ==> init + [RStrip(last)] == [RStrip(last)];
      } else {
        JoinAppend(init, last);
        RStripAppend("\n", last);
        RStripAppend(Join(init), "\n" + last);
        assert RStrip("\n") == "" by {
          assert "\n"[..0] == "";
        }
        if RStrip(last) == "" {
          RStripOfJoin(init);
        } else {
          JoinAppend(init, RStrip(last));
        }
      }
    }
  }

  /** `"\n".join(lines).rstrip() + "\n"`. */
  function TextOf(lines: seq<string>): string {
    RStrip(Join(lines)) + "\n"
  }

  /** Splitting the text gives the lines back, up to the trimmed end. */
  lemma SplitOfText(lines: seq<string>)
    requires AllOneLine(lines)
    ensures SplitLines(TextOf(lines)) == TrimEnd(lines)
  {
    RStripOfJoin(lines);
    SplitOfJoin(TrimEnd(lines));
  }
}
