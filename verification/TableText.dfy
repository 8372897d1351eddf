/** The string operations used by scripts/build_advisory_displayed_tables.py: stripping,
    prefixes, the separator pattern and decimal formatting. */
module TableText {

  /** Python's `str.isspace` characters. */
  predicate IsSpace(c: char) {
    || c == ' ' || '\t' <= c <= '\r' || '\U{1C}' <= c <= '\U{1F}' || c == '\U{85}' || c == '\U{A0}'
    || c == '\U{1680}' || '\U{2000}' <= c <= '\U{200A}' || c == '\U{2028}' || c == '\U{2029}'
    || c == '\U{202F}' || c == '\U{205F}' || c == '\U{3000}'
  }

  function LStrip(s: string): string {
    if s != [] && IsSpace(s[0]) then LStrip(s[1..]) else s
  }

  function RStrip(s: string): (r: string)
    ensures r <= s
    ensures r == [] || !IsSpace(r[|r| - 1])
  {
    if s != [] && IsSpace(s[|s| - 1]) then RStrip(s[..|s| - 1]) else s
  }

  function Strip(s: string): string {
    RStrip(LStrip(s))
  }

  /** `lstrip("# ")`. */
  function LStripHash(s: string): string {
    if s != [] && (s[0] == '#' || s[0] == ' ') then LStripHash(s[1..]) else s
  }

  lemma RStripOfStripped(s: string)
    requires s == [] || !IsSpace(s[|s| - 1])
    ensures RStrip(s) == s
  {
  }

  lemma {:induction false} RStripKeepsFirst(s: string)
    requires s != [] && !IsSpace(s[0])
    ensures RStrip(s) != [] && RStrip(s)[0] == s[0]
  {
    if IsSpace(s[|s| - 1]) {
      RStripKeepsFirst(s[..|s| - 1]);
    }
  }

  /** A line that does not open with white space keeps its first character. */
  lemma StripKeepsFirst(s: string)
    requires s != [] && !IsSpace(s[0])
    ensures Strip(s) != [] && Strip(s)[0] == s[0] && Strip(s) <= s
  {
    RStripKeepsFirst(s);
  }

  lemma {:induction false} LStripOfRStrip(s: string)
    ensures LStrip(RStrip(s)) == RStrip(LStrip(s))
    decreases |s|
  {
    if s == [] {
    } else if IsSpace(s[|s| - 1]) {
      var init := s[..|s| - 1];
      LStripOfRStrip(init);
      LStripAppendSpace(init, s[|s| - 1]);
      assert s == init + [s[|s| - 1]];
    } else {
      LStripKeepsLast(s);
    }
  }

  lemma {:induction false} LStripKeepsLast(s: string)
    requires s != [] && !IsSpace(s[|s| - 1])
    ensures LStrip(s) != [] && LStrip(s)[|LStrip(s)| - 1] == s[|s| - 1]
  {
    if IsSpace(s[0]) {
      LStripKeepsLast(s[1..]);
    }
  }

  lemma {:induction false} LStripAppendSpace(s: string, c: char)
    requires IsSpace(c)
    ensures RStrip(LStrip(s + [c])) == RStrip(LStrip(s))
  {
    if s == [] {
      assert s + [c] == [c];
      assert LStrip([c][1..]) == [];
    } else if IsSpace(s[0]) {
      assert (s + [c])[1..] == s[1..] + [c];
      LStripAppendSpace(s[1..], c);
    } else {
      assert (s + [c])[..|s|] == s;
    }
  }

  /** Stripping the right end first changes nothing about the stripped line. */
  lemma StripOfRStrip(s: string)
    ensures Strip(RStrip(s)) == Strip(s)
  {
    LStripOfRStrip(s);
    RStripOfStripped(RStrip(LStrip(s)));
  }

  // ---- Splitting -------------------------------------------------------------------

  /** `str.split(c)`. */
  function SplitAt(s: string, c: char): (parts: seq<string>)
    ensures parts != []
  {
    if s == "" then [""]
    else
      var before, last := SplitAt(s[..|s| - 1], c), s[|s| - 1];
      if last == c then before + [""]
      else before[..|before| - 1] + [before[|before| - 1] + [last]]
  }

  lemma {:induction false} SplitWhole(s: string, c: char)
    requires c !in s
    ensures SplitAt(s, c) == [s]
  {
    if s != "" {
      SplitWhole(s[..|s| - 1], c);
      assert s == s[..|s| - 1] + [s[|s| - 1]] && s[|s| - 1] in s;
    }
  }

  lemma {:induction false} SplitLast(a: string, b: string, c: char)
    requires c !in b
    ensures SplitAt(a + [c] + b, c) == SplitAt(a, c) + [b]
  {
    var s := a + [c] + b;
    if b == "" {
      assert s[..|s| - 1] == a;
    } else {
      assert s[..|s| - 1] == a + [c] + b[..|b| - 1];
      SplitLast(a, b[..|b| - 1], c);
      assert b == b[..|b| - 1] + [b[|b| - 1]] && b[|b| - 1] in b;
    }
  }

  /** One part more than there are separators. */
  lemma {:induction false} SplitCount(s: string, c: char)
    ensures |SplitAt(s, c)| == 1 + multiset(s)[c]
  {
    if s != "" {
      SplitCount(s[..|s| - 1], c);
      assert s == s[..|s| - 1] + [s[|s| - 1]];
    }
  }

  // ---- The separator pattern -------------------------------------------------------

  predicate AllDashes(s: string) {
    forall i :: 0 <= i < |s| ==> s[i] == '-'
  }

  /** Without the colon it may open with. */
  function DropOpen(t: string): string {
    if t != [] && t[0] == ':' then t[1..] else t
  }

  /** Without the colon it may close with. */
  function DropClose(u: string): string {
    if u != [] && u[|u| - 1] == ':' then u[..|u| - 1] else u
  }

  /** One cell: `\s*:?-{3,}:?\s*`. */
  predicate IsSeparatorCell(s: string) {
    var v := DropClose(DropOpen(Strip(s)));
    |v| >= 3 && AllDashes(v)
  }

  function BarPosition(s: string): (n: nat)
    ensures n <= |s| && (n < |s| ==> s[n] == '|')
  {
    if s == [] || s[0] == '|' then 0 else BarPosition(s[1..]) + 1
  }

  /** One or more cells, each closed by a bar. */
  predicate IsSeparatorCells(s: string)
    decreases |s|
  {
    var n := BarPosition(s);
    n < |s| && IsSeparatorCell(s[..n]) && (s[n + 1..] == [] || IsSeparatorCells(s[n + 1..]))
  }

  /** SEPARATOR.fullmatch. */
  predicate IsSeparator(line: string) {
    var t := Strip(line);
    t != [] && t[0] == '|' && IsSeparatorCells(t[1..])
  }

  lemma {:induction false} BarAfter(cell: string, rest: string)
    requires '|' !in cell
    ensures BarPosition(cell + ['|'] + rest) == |cell|
  {
    if cell == [] {
      assert cell + ['|'] + rest == ['|'] + rest;
    } else {
      assert (cell + ['|'] + rest)[1..] == cell[1..] + ['|'] + rest;
      BarAfter(cell[1..], rest);
    }
  }

  lemma CellThenRest(cell: string, rest: string)
    requires '|' !in cell && IsSeparatorCell(cell) && (rest == [] || IsSeparatorCells(rest))
    ensures IsSeparatorCells(cell + ['|'] + rest)
  {
    BarAfter(cell, rest);
    var whole := cell + ['|'] + rest;
    assert whole[..|cell|] == cell && whole[|cell| + 1..] == rest;
  }

  // ---- Numbers ---------------------------------------------------------------------

  function Digit(n: nat): char
    requires n < 10
  {
    "0123456789"[n]
  }

  function Decimal(n: nat): string {
    if n < 10 then [Digit(n)] else Decimal(n / 10) + [Digit(n % 10)]
  }

  /** `f"{n:03d}"`. */
  function ThreeDigits(n: nat): string {
    var d := Decimal(n);
    if |d| == 1 then "00" + d else if |d| == 2 then "0" + d else d
  }
}
