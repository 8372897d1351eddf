/** What the scanner's notions mean in a file: which lines lie in a fence, which heading a table stands
    under, and which lines separate a header from its rows. */
module TableShapes {
  import opened FiniteSets
  import opened TableText
  import opened DisplayedTables

  // ---- Fences and headings ---------------------------------------------------------

  /** A line lies in a fence exactly when the fence lines above it are odd in number. */
  lemma {:induction false} FencesAreCounted(lines: seq<string>, i: nat)
    requires i <= |lines|
    ensures InFence(lines, i) <==> |Where(lines[..i], line => IsFence(line))| % 2 == 1
  {
    hide IsFence;
    if i > 0 {
      FencesAreCounted(lines, i - 1);
      WhereNext(lines[..i - 1], lines[i - 1], line => IsFence(line));
      assert lines[..i] == lines[..i - 1] + [lines[i - 1]];
    }
  }

  /** A line names a section: a heading with a text, outside every fence. */
  predicate NamesSection(lines: seq<string>, j: nat)
    requires j < |lines|
  {
    !IsFence(lines[j]) && !InFence(lines, j) && IsHeading(lines[j]) && HeadingText(lines[j]) != ""
  }

  /** The heading at a position is the text of the nearest line above it that names a section, or the given
      one where there is none. */
  lemma {:induction false} HeadingIsNearest(lines: seq<string>, start: string, i: nat)
    requires i <= |lines|
    ensures if forall j: nat :: j < i ==> !NamesSection(lines, j) then HeadingAt(lines, start, i) == start
            else exists j: nat :: j < i && NamesSection(lines, j)
                                  && HeadingAt(lines, start, i) == HeadingText(lines[j])
                                  && forall k: nat :: j < k < i ==> !NamesSection(lines, k)
  {
    hide IsFence, InFence, IsHeading, HeadingText;
    if i > 0 {
      HeadingIsNearest(lines, start, i - 1);
      if NamesSection(lines, i - 1) {
        assert HeadingAt(lines, start, i) == HeadingText(lines[i - 1]);
      } else if exists j: nat :: j < i - 1 && NamesSection(lines, j) {
        var j: nat :| j < i - 1 && NamesSection(lines, j)
                      && HeadingAt(lines, start, i - 1) == HeadingText(lines[j])
                      && forall k: nat :: j < k < i - 1 ==> !NamesSection(lines, k);
        assert HeadingAt(lines, start, i) == HeadingText(lines[j]);
      }
    }
  }

  // ---- Separators ------------------------------------------------------------------

  /** White space, perhaps a colon, three dashes or more, perhaps a colon, white space. */
  ghost predicate IsRule(cell: string) {
    exists left, open: string, dashes, close: string, right ::
      && cell == left + open + dashes + close + right
      && AllSpace(left) && AllSpace(right) && (open == "" || open == ":") && (close == "" || close == ":")
      && |dashes| >= 3 && AllDashes(dashes)
  }

  predicate AllSpace(s: string) {
    forall i :: 0 <= i < |s| ==> IsSpace(s[i])
  }

  lemma {:induction false} LStripSpaces(left: string, rest: string)
    requires AllSpace(left) && (rest == "" || !IsSpace(rest[0]))
    ensures LStrip(left + rest) == rest
  {
    if left == "" {
      assert left + rest == rest;
    } else {
      assert (left + rest)[1..] == left[1..] + rest;
      LStripSpaces(left[1..], rest);
    }
  }

  lemma {:induction false} RStripSpaces(rest: string, right: string)
    requires AllSpace(right) && (rest == "" || !IsSpace(rest[|rest| - 1]))
    ensures RStrip(rest + right) == rest
  {
    if right == "" {
      assert rest + right == rest;
    } else {
      var last := |right| - 1;
      assert (rest + right)[..|rest + right| - 1] == rest + right[..last];
      RStripSpaces(rest, right[..last]);
    }
  }

  lemma {:induction false} LStripTakes(s: string) returns (left: string)
    ensures AllSpace(left) && s == left + LStrip(s)
  {
    left := "";
    if s != "" && IsSpace(s[0]) {
      var rest := LStripTakes(s[1..]);
      left := [s[0]] + rest;
    }
  }

  lemma {:induction false} RStripTakes(s: string) returns (right: string)
    ensures AllSpace(right) && s == RStrip(s) + right
  {
    right := "";
    if s != "" && IsSpace(s[|s| - 1]) {
      var rest := RStripTakes(s[..|s| - 1]);
      right := rest + [s[|s| - 1]];
    }
  }

  /** The scanner's cell test is the pattern of a rule. */
  lemma CellIsRule(cell: string)
    ensures IsSeparatorCell(cell) <==> IsRule(cell)
  {
    if IsSeparatorCell(cell) {
      RuleOfCell(cell);
    }
    if IsRule(cell) {
      var left, open: string, dashes, close: string, right :|
        && cell == left + open + dashes + close + right
        && AllSpace(left) && AllSpace(right) && (open == "" || open == ":") && (close == "" || close == ":")
        && |dashes| >= 3 && AllDashes(dashes);
      CellOfRule(cell, left, open, dashes, close, right);
    }
  }

  lemma RuleOfCell(cell: string)
    requires IsSeparatorCell(cell)
    ensures IsRule(cell)
  {
    var left := LStripTakes(cell);
    var right := RStripTakes(LStrip(cell));
    var open, dashes, close := CoreOfCell(cell);
    hide *;
    Regrouped(cell, left, LStrip(cell), Strip(cell), open, dashes, close, right) by {
      StripIs(cell);
    }
    RuleFrom(cell, left, open, dashes, close, right);
  }

  lemma StripIs(s: string)
    ensures Strip(s) == RStrip(LStrip(s))
  {
  }

  lemma Regrouped(cell: string, left: string, rest: string, core: string, open: string, dashes: string,
                  close: string, right: string)
    requires cell == left + rest && rest == core + right && core == open + dashes + close
    ensures cell == left + open + dashes + close + right
  {
  }

  lemma RuleFrom(cell: string, left: string, open: string, dashes: string, close: string, right: string)
    requires cell == left + open + dashes + close + right
    requires AllSpace(left) && AllSpace(right) && (open == "" || open == ":") && (close == "" || close == ":")
    requires |dashes| >= 3 && AllDashes(dashes)
    ensures IsRule(cell)
  {
  }

  lemma CoreOfCell(cell: string) returns (open: string, dashes: string, close: string)
    requires IsSeparatorCell(cell)
    ensures Strip(cell) == open + dashes + close
    ensures (open == "" || open == ":") && (close == "" || close == ":") && |dashes| >= 3 && AllDashes(dashes)
  {
    hide Strip;
    OpenedBy(Strip(cell));
    ClosedBy(DropOpen(Strip(cell)));
    hide DropOpen, DropClose;
    dashes := DropClose(DropOpen(Strip(cell)));
    open := Strip(cell)[..|Strip(cell)| - |DropOpen(Strip(cell))|];
    close := DropOpen(Strip(cell))[|dashes|..];
  }

  lemma OpenedBy(t: string)
    ensures var u := DropOpen(t);
      |u| <= |t| && (t[..|t| - |u|] == "" || t[..|t| - |u|] == ":") && t == t[..|t| - |u|] + u
  {
  }

  lemma ClosedBy(u: string)
    ensures var v := DropClose(u);
      |v| <= |u| && (u[|v|..] == "" || u[|v|..] == ":") && u == v + u[|v|..]
  {
  }

  lemma CellOfRule(cell: string, left: string, open: string, dashes: string, close: string, right: string)
    requires cell == left + open + dashes + close + right
    requires AllSpace(left) && AllSpace(right) && (open == "" || open == ":") && (close == "" || close == ":")
    requires |dashes| >= 3 && AllDashes(dashes)
    ensures IsSeparatorCell(cell)
  {
    var t := open + dashes + close;
    assert cell == left + (t + right);
    EndsAreSolid(open, dashes, close);
    StripOf(cell, left, t, right);
    DropsToDashes(open, dashes, close);
    hide Strip, DropOpen, DropClose;
  }

  lemma EndsAreSolid(open: string, dashes: string, close: string)
    requires (open == "" || open == ":") && (close == "" || close == ":") && |dashes| >= 3 && AllDashes(dashes)
    ensures var t := open + dashes + close;
      t != "" && !IsSpace(t[0]) && !IsSpace(t[|t| - 1])
  {
  }

  lemma StripOf(cell: string, left: string, t: string, right: string)
    requires cell == left + (t + right) && AllSpace(left) && AllSpace(right)
    requires t != "" && !IsSpace(t[0]) && !IsSpace(t[|t| - 1])
    ensures Strip(cell) == t
  {
    assert (t + right)[0] == t[0];
    hide IsSpace, AllSpace;
    LStripSpaces(left, t + right);
    RStripSpaces(t, right);
  }

  lemma DropsToDashes(open: string, dashes: string, close: string)
    requires (open == "" || open == ":") && (close == "" || close == ":") && |dashes| >= 3 && AllDashes(dashes)
    ensures DropClose(DropOpen(open + dashes + close)) == dashes
  {
    var u := dashes + close;
    assert open + dashes + close == open + u && u[0] == dashes[0] == '-';
    assert DropOpen(open + u) == u;
    assert dashes[|dashes| - 1] == '-';
    assert DropClose(u) == dashes;
  }

  lemma {:induction false} SplitFirst(a: string, b: string, c: char)
    requires c !in a
    ensures SplitAt(a + [c] + b, c) == [a] + SplitAt(b, c)
  {
    var s := a + [c] + b;
    if b == "" {
      assert s[..|s| - 1] == a;
      SplitWhole(a, c);
    } else {
      var before, last := SplitAt(b[..|b| - 1], c), b[|b| - 1];
      assert s[..|s| - 1] == a + [c] + b[..|b| - 1] && s[|s| - 1] == last;
      SplitFirst(a, b[..|b| - 1], c);
      PrependedParts(a, before, last);
    }
  }

  lemma PrependedParts(a: string, parts: seq<string>, last: char)
    requires parts != []
    ensures var all := [a] + parts;
      && all[|all| - 1] == parts[|parts| - 1]
      && all[..|all| - 1] + [all[|all| - 1] + [last]]
         == [a] + (parts[..|parts| - 1] + [parts[|parts| - 1] + [last]])
      && all + [""] == [a] + (parts + [""])
  {
  }

  lemma {:induction false} NoBarBefore(s: string)
    ensures '|' !in s[..BarPosition(s)] && (BarPosition(s) == |s| ==> '|' !in s)
  {
    if s != "" && s[0] != '|' {
      NoBarBefore(s[1..]);
      assert s == [s[0]] + s[1..];
      assert s[..BarPosition(s)] == [s[0]] + s[1..][..BarPosition(s[1..])];
    }
  }

  /** Parts of which all but the last, which is empty, are rules; and there are two or more. */
  ghost predicate AreRules(parts: seq<string>) {
    |parts| >= 2 && parts[|parts| - 1] == "" && forall i :: 0 <= i < |parts| - 1 ==> IsRule(parts[i])
  }

  lemma {:induction false} CellsAreRules(t: string)
    ensures IsSeparatorCells(t) <==> AreRules(SplitAt(t, '|'))
    decreases |t|
  {
    hide IsSeparatorCell, IsRule;
    NoBarBefore(t);
    var n := BarPosition(t);
    if n == |t| {
      SplitWhole(t, '|');
    } else {
      var cell, rest := t[..n], t[n + 1..];
      assert t == cell + ['|'] + rest;
      SplitFirst(cell, rest, '|');
      CellIsRule(cell);
      CellsAreRules(rest);
      RulesNext(cell, SplitAt(rest, '|'));
      if rest == "" {
        assert SplitAt(rest, '|') == [""];
      } else {
        OnlyEmptySplits(rest);
      }
    }
  }

  lemma RulesNext(cell: string, parts: seq<string>)
    requires parts != []
    ensures AreRules([cell] + parts) <==> IsRule(cell) && (AreRules(parts) || parts == [""])
  {
    hide IsRule;
    var all := [cell] + parts;
    assert all[0] == cell && all[|all| - 1] == parts[|parts| - 1];
    assert |parts| == 1 ==> parts == [parts[0]];
    if IsRule(cell) && (AreRules(parts) || parts == [""]) {
      forall i | 0 <= i < |all| - 1 ensures IsRule(all[i]) {
        assert i > 0 ==> all[i] == parts[i - 1];
      }
    }
    if AreRules(all) {
      forall i | 0 <= i < |parts| - 1 ensures IsRule(parts[i]) {
        assert parts[i] == all[i + 1];
      }
    }
  }

  lemma OnlyEmptySplits(s: string)
    requires s != ""
    ensures SplitAt(s, '|') != [""]
  {
    if '|' in s {
      SplitCount(s, '|');
      assert '|' in multiset(s);
    } else {
      SplitWhole(s, '|');
      assert SplitAt(s, '|')[0] == s;
    }
  }

  /** A separator is, between white space, two bars or more with a rule between each and the next. */
  lemma SeparatorExactly(line: string)
    ensures IsSeparator(line)
       <==> var parts := SplitAt(Strip(line), '|');
            && |parts| >= 3 && parts[0] == "" && parts[|parts| - 1] == ""
            && forall i :: 0 < i < |parts| - 1 ==> IsRule(parts[i])
  {
    var t := Strip(line);
    hide Strip, IsRule, IsSeparatorCells;
    if t != [] && t[0] == '|' {
      assert t == "" + ['|'] + t[1..];
      SplitFirst("", t[1..], '|');
      CellsAreRules(t[1..]);
      var parts, rest := SplitAt(t, '|'), SplitAt(t[1..], '|');
      assert parts == [""] + rest;
      assert forall i :: 0 <= i < |rest| ==> rest[i] == parts[i + 1];
      assert forall i :: 0 < i < |parts| ==> parts[i] == rest[i - 1];
    } else {
      FirstPart(t);
    }
  }

  /** A text that does not open with a bar has a first part, unless it is empty. */
  lemma FirstPart(t: string)
    requires t == "" || t[0] != '|'
    ensures |SplitAt(t, '|')| >= 3 ==> SplitAt(t, '|')[0] != ""
  {
    NoBarBefore(t);
    var n := BarPosition(t);
    if n == |t| {
      SplitWhole(t, '|');
    } else {
      assert t == t[..n] + ['|'] + t[n + 1..];
      SplitFirst(t[..n], t[n + 1..], '|');
      assert t[..n] != "";
    }
  }
}
