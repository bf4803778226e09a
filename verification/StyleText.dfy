/**
 Text as utils/check-style-clang-format.py handles it: Python's reading of lines, `strip` and
 `expandtabs`.
 */
module StyleText {

  // ---------- lines of a file ----------

  /** Reading in text mode: "\r\n" and "\r" become "\n". */
  function UniversalNewlines(s: string): (t: string)
    ensures '\r' !in t
  {
    if s == "" then ""
    else if s[0] == '\r' then
      "\n" + UniversalNewlines(if |s| > 1 && s[1] == '\n' then s[2..] else s[1..])
    else [s[0]] + UniversalNewlines(s[1..])
  }

  lemma {:induction false} NewlinesTranslated(s: string)
    requires '\r' !in s
    ensures UniversalNewlines(s) == s
  {
    if s != "" {
      assert s[0] in s;
      NewlinesTranslated(s[1..]);
    }
  }

  /** The three line breaks; a lone "\r" is not followed by "\n". */
  predicate IsBreak(newline: string, rest: string) {
    newline == "\n" || newline == "\r\n" || (newline == "\r" && (rest == "" || rest[0] != '\n'))
  }

  /** Reading turns every line break behind a text without one into a newline, and keeps the text; there is no
      other case. */
  lemma {:induction false} NewlinesRead(text: string, newline: string, rest: string)
    requires '\n' !in text && '\r' !in text && IsBreak(newline, rest)
    ensures UniversalNewlines(text + newline + rest) == text + "\n" + UniversalNewlines(rest)
  {
    if text == "" {
      assert text + newline + rest == newline + rest;
      BreakRead(newline, rest);
    } else {
      assert text[0] in text;
      NewlinesRead(text[1..], newline, rest);
      NextCharacter(text, newline, rest);
      PutFirst(text, "\n", UniversalNewlines(rest));
    }
  }

  lemma PutFirst(text: string, newline: string, rest: string)
    requires text != ""
    ensures [text[0]] + (text[1..] + newline + rest) == text + newline + rest
  {
  }

  lemma BreakRead(newline: string, rest: string)
    requires IsBreak(newline, rest)
    ensures UniversalNewlines(newline + rest) == "\n" + UniversalNewlines(rest)
  {
    var s := newline + rest;
    if newline == "\r\n" {
      assert s[0] == '\r' && s[1] == '\n' && s[2..] == rest;
    } else {
      assert s[1..] == rest && (|s| > 1 ==> s[1] == rest[0]);
    }
  }

  lemma NextCharacter(text: string, newline: string, rest: string)
    requires text != "" && text[0] != '\r'
    ensures UniversalNewlines(text + newline + rest) == [text[0]] + UniversalNewlines(text[1..] + newline + rest)
  {
    assert (text + newline + rest)[1..] == text[1..] + newline + rest;
  }

  /** The length of the first line, its newline included. */
  function FirstLine(s: string): (n: nat)
    requires s != ""
    ensures 0 < n <= |s|
    ensures '\n' !in s[..n - 1]
    ensures n < |s| ==> s[n - 1] == '\n'
  {
    if s[0] == '\n' || |s| == 1 then 1
    else
      var n := FirstLine(s[1..]);
      assert s[..n] == [s[0]] + s[1..][..n - 1];
      n + 1
  }

  /** `readlines`: every line keeps its newline. */
  function ReadLines(s: string): seq<string> {
    if s == "" then [] else [s[..FirstLine(s)]] + ReadLines(s[FirstLine(s)..])
  }

  /** `writelines`. */
  function Join(lines: seq<string>): string {
    if lines == [] then "" else lines[0] + Join(lines[1..])
  }

  predicate Ended(line: string) {
    line != "" && line[|line| - 1] == '\n'
  }

  predicate IsLine(line: string) {
    line != "" && '\n' !in line[..|line| - 1] && '\r' !in line
  }

  /** What `readlines` can return: only the last line may lack a newline. */
  ghost predicate AreLines(lines: seq<string>) {
    && (forall i :: 0 <= i < |lines| ==> IsLine(lines[i]))
    && (forall i :: 0 <= i < |lines| - 1 ==> Ended(lines[i]))
  }

  lemma {:induction false} ReadLinesAreLines(s: string)
    requires '\r' !in s
    ensures AreLines(ReadLines(s))
  {
    if s != "" {
      var n := FirstLine(s);
      var line, rest := s[..n], s[n..];
      assert line[..n - 1] == s[..n - 1];
      assert forall i :: 0 <= i < |line| ==> line[i] in s;
      assert forall i :: 0 <= i < |rest| ==> rest[i] in s;
      ReadLinesAreLines(rest);
      AreLinesCons(line, ReadLines(rest));
    }
  }

  lemma AreLinesCons(line: string, lines: seq<string>)
    requires IsLine(line) && AreLines(lines) && (lines != [] ==> Ended(line))
    ensures AreLines([line] + lines)
  {
  }

  lemma FirstLineOf(line: string, rest: string)
    requires IsLine(line) && (rest != "" ==> Ended(line))
    ensures FirstLine(line + rest) == |line|
  {
    var s := line + rest;
    var n := FirstLine(s);
    assert forall k :: 0 <= k < |line| - 1 ==> s[k] == line[..|line| - 1][k] && s[k] != '\n';
    assert forall k :: 0 <= k < n - 1 ==> s[k] == s[..n - 1][k] && s[k] != '\n';
    assert n < |s| ==> s[n - 1] == '\n';
    assert n >= |line|;
    assert rest != "" ==> s[|line| - 1] == '\n';
  }

  /** Reading back what was written gives the same lines. */
  lemma {:induction false} ReadLinesOfJoin(lines: seq<string>)
    requires AreLines(lines)
    ensures ReadLines(Join(lines)) == lines
    ensures '\r' !in Join(lines)
  {
    if lines != [] {
      var rest := Join(lines[1..]);
      ReadLinesOfJoin(lines[1..]);
      FirstLineOf(lines[0], rest);
      assert (lines[0] + rest)[..|lines[0]|] == lines[0];
      assert (lines[0] + rest)[|lines[0]|..] == rest;
    }
  }

  // ---------- strip ----------

  /** The characters Python's `str.isspace` accepts. */
  predicate IsSpace(c: char) {
    var u := c as int;
    || 0x09 <= u <= 0x0D || 0x1C <= u <= 0x20 || u == 0x85 || u == 0xA0
    || u == 0x1680 || 0x2000 <= u <= 0x200A || u == 0x2028 || u == 0x2029
    || u == 0x202F || u == 0x205F || u == 0x3000
  }

  function RStrip(s: string): string {
    if s != "" && IsSpace(s[|s| - 1]) then RStrip(s[..|s| - 1]) else s
  }

  function LStrip(s: string): string {
    if s != "" && IsSpace(s[0]) then LStrip(s[1..]) else s
  }

  function Strip(s: string): string {
    LStrip(RStrip(s))
  }

  predicate AllSpace(s: string) {
    forall i :: 0 <= i < |s| ==> IsSpace(s[i])
  }

  predicate Trimmed(s: string) {
    s != "" ==> !IsSpace(s[0]) && !IsSpace(s[|s| - 1])
  }

  lemma {:induction false} RStripSplits(s: string) returns (w: string)
    ensures s == RStrip(s) + w && AllSpace(w)
    ensures RStrip(s) != "" ==> !IsSpace(RStrip(s)[|RStrip(s)| - 1])
  {
    if s != "" && IsSpace(s[|s| - 1]) {
      w := RStripSplits(s[..|s| - 1]);
      w := w + [s[|s| - 1]];
    } else {
      w := "";
    }
  }

  lemma {:induction false} LStripSplits(s: string) returns (w: string)
    ensures s == w + LStrip(s) && AllSpace(w)
    ensures LStrip(s) != "" ==> !IsSpace(LStrip(s)[0])
  {
    if s != "" && IsSpace(s[0]) {
      w := LStripSplits(s[1..]);
      w := [s[0]] + w;
    } else {
      w := "";
    }
  }

  /** What `strip` removes: white space at both ends, and all of it. */
  lemma StripSplits(s: string) returns (left: string, right: string)
    ensures s == left + Strip(s) + right && AllSpace(left) && AllSpace(right)
    ensures Trimmed(Strip(s))
  {
    right := RStripSplits(s);
    left := LStripSplits(RStrip(s));
    if Strip(s) != "" {
      assert Strip(s)[|Strip(s)| - 1] == RStrip(s)[|RStrip(s)| - 1];
    }
  }

  lemma {:induction false} RStripOf(s: string, w: string)
    requires AllSpace(w)
    ensures RStrip(s + w) == RStrip(s)
  {
    if w == "" {
      assert s + w == s;
    } else {
      RStripOf(s, w[..|w| - 1]);
      assert (s + w)[..|s + w| - 1] == s + w[..|w| - 1];
    }
  }

  lemma {:induction false} LStripOf(w: string, s: string)
    requires AllSpace(w)
    ensures LStrip(w + s) == LStrip(s)
  {
    if w == "" {
      assert w + s == s;
    } else {
      LStripOf(w[1..], s);
      assert (w + s)[1..] == w[1..] + s;
    }
  }

  /** `strip` is determined by what it does. */
  lemma StripOf(left: string, core: string, right: string)
    requires AllSpace(left) && AllSpace(right) && Trimmed(core)
    ensures Strip(left + core + right) == core
  {
    RStripOf(left + core, right);
    if core == "" {
      assert left + core == "" + left;
      RStripOf("", left);
    } else {
      assert (left + core)[|left + core| - 1] == core[|core| - 1];
      LStripOf(left, core);
    }
  }

  // ---------- expandtabs ----------

  const TAB_SIZE: nat := 4

  function Spaces(n: nat): (s: string)
    ensures |s| == n && forall i :: 0 <= i < n ==> s[i] == ' '
  {
    seq(n, _ => ' ')
  }

  /** The column reached after `s`, starting from column `col`. */
  function ColumnAfter(s: string, col: nat): nat {
    if s == "" then col
    else if s[0] == '\t' then ColumnAfter(s[1..], col + TAB_SIZE - col % TAB_SIZE)
    else if s[0] == '\n' || s[0] == '\r' then ColumnAfter(s[1..], 0)
    else ColumnAfter(s[1..], col + 1)
  }

  function ExpandTabs(s: string, col: nat): string {
    if s == "" then ""
    else if s[0] == '\t' then
      Spaces(TAB_SIZE - col % TAB_SIZE) + ExpandTabs(s[1..], col + TAB_SIZE - col % TAB_SIZE)
    else [s[0]] + ExpandTabs(s[1..], ColumnAfter([s[0]], col))
  }

  lemma {:induction false} ExpandTabsConcat(a: string, b: string, col: nat)
    ensures ExpandTabs(a + b, col) == ExpandTabs(a, col) + ExpandTabs(b, ColumnAfter(a, col))
    decreases |a|
  {
    if a == "" {
      assert a + b == b;
    } else {
      assert (a + b)[1..] == a[1..] + b;
      assert ColumnAfter([a[0]], col) == if a[0] == '\t' then col + TAB_SIZE - col % TAB_SIZE
                                         else if a[0] == '\n' || a[0] == '\r' then 0 else col + 1;
      ExpandTabsConcat(a[1..], b, ColumnAfter([a[0]], col));
    }
  }

  /** Expansion only ever turns a tab into spaces: what each character of the result can be. */
  lemma {:induction false} ExpandedCharacters(s: string, col: nat)
    ensures forall i :: 0 <= i < |ExpandTabs(s, col)| ==>
              var c := ExpandTabs(s, col)[i]; c != '\t' && (c in s || (c == ' ' && '\t' in s))
    ensures |s| <= |ExpandTabs(s, col)|
    decreases |s|
  {
    if s != "" {
      var next := if s[0] == '\t' then col + TAB_SIZE - col % TAB_SIZE else ColumnAfter([s[0]], col);
      ExpandedCharacters(s[1..], next);
      var e, f := ExpandTabs(s, col), ExpandTabs(s[1..], next);
      var k := |e| - |f|;
      forall i | 0 <= i < |e|
        ensures e[i] != '\t' && (e[i] in s || (e[i] == ' ' && '\t' in s))
      {
        if i >= k {
          assert e[i] == f[i - k];
        } else if s[0] == '\t' {
          assert e[i] == ' ';
        } else {
          assert e[i] == s[0];
        }
      }
    }
  }

  lemma {:induction false} NothingToExpand(s: string, col: nat)
    requires '\t' !in s
    ensures ExpandTabs(s, col) == s
    decreases |s|
  {
    if s != "" {
      assert s[0] in s;
      NothingToExpand(s[1..], ColumnAfter([s[0]], col));
    }
  }

  lemma ExpandedSpace(w: string, col: nat)
    requires AllSpace(w)
    ensures AllSpace(ExpandTabs(w, col))
  {
    ExpandedCharacters(w, col);
    var e := ExpandTabs(w, col);
    forall i | 0 <= i < |e|
      ensures IsSpace(e[i])
    {
      if e[i] in w {
        var k :| 0 <= k < |w| && w[k] == e[i];
      }
    }
  }

  /** A line whose stripped text has no tab keeps that text. */
  lemma ExpansionKeepsStripped(s: string)
    requires '\t' !in Strip(s)
    ensures Strip(ExpandTabs(s, 0)) == Strip(s)
  {
    var left, right := StripSplits(s);
    var core := Strip(s);
    ExpandTabsConcat(left + core, right, 0);
    ExpandTabsConcat(left, core, 0);
    NothingToExpand(core, ColumnAfter(left, 0));
    ExpandedSpace(left, 0);
    ExpandedSpace(right, ColumnAfter(left + core, 0));
    StripOf(ExpandTabs(left, 0), core, ExpandTabs(right, ColumnAfter(left + core, 0)));
  }

  lemma {:induction false} ExpandedLength(s: string, col: nat)
    requires '\n' !in s && '\r' !in s
    ensures col + |ExpandTabs(s, col)| == ColumnAfter(s, col)
    decreases |s|
  {
    if s != "" {
      assert s[0] in s;
      assert ColumnAfter([s[0]], col) == if s[0] == '\t' then col + TAB_SIZE - col % TAB_SIZE else col + 1;
      ExpandedLength(s[1..], if s[0] == '\t' then col + TAB_SIZE - col % TAB_SIZE else col + 1);
    }
  }

  /** Expansion goes character by character: a tab fills up to the next column that is a multiple of four, and
      everything else stays. */
  lemma ExpandedNext(text: string, c: char) returns (n: nat)
    requires '\n' !in text && '\r' !in text
    ensures ExpandTabs("", 0) == ""
    ensures c != '\t' ==> ExpandTabs(text + [c], 0) == ExpandTabs(text, 0) + [c]
    ensures 1 <= n <= 4 && (|ExpandTabs(text, 0)| + n) % 4 == 0
    ensures c == '\t' ==> ExpandTabs(text + [c], 0) == ExpandTabs(text, 0) + Spaces(n)
  {
    var col := ColumnAfter(text, 0);
    ExpandedLength(text, 0);
    ExpandTabsConcat(text, [c], 0);
    n := 4 - col % 4;
    OneCharacter(c, col);
  }

  lemma OneCharacter(c: char, col: nat)
    ensures ExpandTabs([c], col) == if c == '\t' then Spaces(4 - col % 4) else [c]
  {
    assert [c][1..] == "";
    if c == '\t' {
      assert ExpandTabs("", col + 4 - col % 4) == "";
    } else {
      assert ExpandTabs("", ColumnAfter([c], col)) == "";
    }
  }

  /** The ASCII characters that count as white space. */
  lemma AsciiSpace(c: char)
    requires c < 128 as char
    ensures IsSpace(c) <==> c as int in {9, 10, 11, 12, 13, 28, 29, 30, 31, 32}
  {
  }
}
