/**
 The line fixer `check_manually_file` of utils/check-style-clang-format.py with its tabs and
 trailing-whitespace checks.

 The fixer reads its on/off state from the very lines it rewrites, and rewriting can turn a line into
 a format guard (`FixCanCreateGuard`). `FixThenCheckPasses` proves that a second pass is satisfied all
 the same: whatever the second pass looks at, the first pass had looked at (`EnabledSimulation`).
 */
module StyleFixer {
  import opened StyleText

  /** The lines that switch formatting on and off. */
  datatype Guards = Guards(on: seq<string>, off: seq<string>) {
    predicate Has(stripped: string) {
      stripped in on + off
    }
  }

  const FORMAT_GUARDS := Guards(["// clang-format on", "# cmake-format: on", "# fmt: on"],
                                ["// clang-format off", "# cmake-format: off", "# fmt: off"])

  datatype LineResult = LineResult(compliant: bool, fixed: string)

  type LineCheck = string -> LineResult

  function CheckTabsLine(line: string): LineResult {
    if '\t' in line then LineResult(false, ExpandTabs(line, 0)) else LineResult(true, line)
  }

  function CheckWhitespaceLine(line: string): LineResult {
    var fixed := RStrip(line) + "\n";
    LineResult(fixed == line, fixed)
  }

  /** One entry of the table of checks. */
  datatype Pass = Pass(check: LineCheck, respectGuards: bool, guards: Guards)

  const WHITESPACE := Pass(CheckWhitespaceLine, false, FORMAT_GUARDS)

  const TABS := Pass(CheckTabsLine, true, FORMAT_GUARDS)

  // ---------- what a pass does to the lines ----------

  /** What one line does to the on/off state. */
  predicate Switch(guards: Guards, enabled: bool, line: string) {
    if Strip(line) in guards.on then true
    else if Strip(line) in guards.off then false
    else enabled
  }

  /** The on/off state once the guards among the first `n` lines have been read. */
  ghost predicate EnabledAfter(guards: Guards, lines: seq<string>, n: nat)
    requires n <= |lines|
  {
    n == 0 || Switch(guards, EnabledAfter(guards, lines, n - 1), lines[n - 1])
  }

  /** Lines between an "off" guard and the next "on" guard are not looked at; the guards are. */
  ghost predicate LookedAt(p: Pass, lines: seq<string>, i: nat)
    requires i < |lines|
  {
    p.respectGuards ==> EnabledAfter(p.guards, lines, i + 1) || p.guards.Has(Strip(lines[i]))
  }

  ghost predicate Offends(p: Pass, lines: seq<string>, i: nat)
    requires i < |lines|
  {
    LookedAt(p, lines, i) && !p.check(lines[i]).compliant
  }

  ghost predicate Compliant(p: Pass, lines: seq<string>) {
    forall i :: 0 <= i < |lines| ==> !Offends(p, lines, i)
  }

  ghost function FixedLines(p: Pass, lines: seq<string>): (r: seq<string>)
    ensures |r| == |lines|
    ensures forall i :: 0 <= i < |lines| ==>
              r[i] == if Offends(p, lines, i) then p.check(lines[i]).fixed else lines[i]
  {
    seq(|lines|, i requires 0 <= i < |lines| =>
      if Offends(p, lines, i) then p.check(lines[i]).fixed else lines[i])
  }

  /** The offending lines among the first `n`. */
  ghost function Offending(p: Pass, lines: seq<string>, n: nat): seq<nat>
    requires n <= |lines|
  {
    if n == 0 then []
    else
      Offending(p, lines, n - 1)
      + if Offends(p, lines, n - 1) then [n - 1] else []
  }

  ghost function LinesOf(content: string): seq<string> {
    ReadLines(UniversalNewlines(content))
  }

  /** The file after a fix pass: rewritten only when something offended. */
  ghost function FixedContent(p: Pass, content: string): string {
    if Compliant(p, LinesOf(content)) then content
    else Join(FixedLines(p, LinesOf(content)))
  }

  // ---------- the code ----------

  /** The loop over the lines; `reported` are the line numbers of the verbose messages. */
  method CheckLines(fileLines: array<string>, fix: bool, verbose: bool, p: Pass)
    returns (compliant: bool, reported: seq<nat>)
    modifies fileLines
    ensures compliant == Compliant(p, old(fileLines[..]))
    ensures fix ==> fileLines[..] == FixedLines(p, old(fileLines[..]))
    ensures compliant <==> reported == []
    ensures fix || verbose ==> reported == Offending(p, old(fileLines[..]), fileLines.Length)
  {
    compliant, reported := true, [];
    var enabled := true;
    ghost var lines := fileLines[..];
    ghost var fixed := FixedLines(p, lines);
    for i := 0 to fileLines.Length
      invariant enabled == (p.respectGuards ==> EnabledAfter(p.guards, lines, i))
      invariant forall k :: i <= k < |lines| ==> fileLines[k] == lines[k]
      invariant forall k :: 0 <= k < i ==> fileLines[k] == fixed[k]
      invariant reported == Offending(p, lines, i)
      invariant compliant <==> reported == []
    {
      var line := fileLines[i];
      if p.respectGuards {
        var stripped := Strip(line);
        if stripped in p.guards.on {
          enabled := true;
        } else if stripped in p.guards.off {
          enabled := false;
        }
        if !enabled && !p.guards.Has(stripped) {
          continue;
        }
      }
      var result := p.check(line);
      if !result.compliant {
        compliant := false;
        fileLines[i] := result.fixed;
        reported := reported + [i];
        assert Offends(p, lines, i);
        if !fix && !verbose {
          break;
        }
      }
    }
    OffendingMembers(p, lines, |lines|);
  }

  lemma {:induction false} OffendingMembers(p: Pass, lines: seq<string>, n: nat)
    requires n <= |lines|
    ensures Offending(p, lines, n) == [] <==> forall i :: 0 <= i < n ==> !Offends(p, lines, i)
  {
    if n > 0 {
      OffendingMembers(p, lines, n - 1);
    }
  }

  /** How a file is checked: line by line here, or by a tool that this model does not look into. */
  datatype Checker =
    | ByLine(p: Pass)
    | ByTool(accepts: string -> bool, repairs: string -> string)

  ghost predicate FileCompliant(c: Checker, content: string) {
    match c
    case ByLine(p) => Compliant(p, LinesOf(content))
    case ByTool(accepts, _) => accepts(content)
  }

  /** The file after a fix: a tool repairs what it does not accept. */
  ghost function FileFixed(c: Checker, content: string): string {
    match c
    case ByLine(p) => FixedContent(p, content)
    case ByTool(accepts, repairs) => if accepts(content) then content else repairs(content)
  }

  /** One entry of the table of checks, with the files it applies to. */
  datatype Check = Check(checker: Checker, names: seq<string>)

  /** The files after the fixes of one check. */
  ghost function FilesFixed(c: Checker, names: seq<string>, files: map<string, string>): (r: map<string, string>)
    requires forall name :: name in names ==> name in files
    ensures r.Keys == files.Keys
  {
    if names == [] then files
    else
      var front, last := names[..|names| - 1], names[|names| - 1];
      assert last in names && forall name :: name in front ==> name in names;
      var before := FilesFixed(c, front, files);
      before[last := FileFixed(c, before[last])]
  }

  ghost predicate FilesCompliant(c: Checker, names: seq<string>, files: map<string, string>)
    requires forall name :: name in names ==> name in files
  {
    forall name :: name in names ==> FileCompliant(c, files[name])
  }

  ghost predicate FilesExist(checks: seq<Check>, files: map<string, string>) {
    forall i, name :: 0 <= i < |checks| && name in checks[i].names ==> name in files
  }

  ghost predicate StylePasses(checks: seq<Check>, files: map<string, string>)
    requires FilesExist(checks, files)
  {
    forall i :: 0 <= i < |checks| ==> FilesCompliant(checks[i].checker, checks[i].names, files)
  }

  /** The files after the fixes of all checks, one check after the other. */
  ghost function StyleFixed(checks: seq<Check>, files: map<string, string>): (r: map<string, string>)
    requires FilesExist(checks, files)
    ensures r.Keys == files.Keys
  {
    if checks == [] then files
    else
      var last := checks[|checks| - 1];
      FilesFixed(last.checker, last.names, StyleFixed(checks[..|checks| - 1], files))
  }

  /** The list holds exactly the offending lines, in order. */
  lemma {:induction false} OffendingList(p: Pass, lines: seq<string>, n: nat)
    requires n <= |lines|
    ensures forall i :: i in Offending(p, lines, n) <==> 0 <= i < n && Offends(p, lines, i)
    ensures forall j, k :: 0 <= j < k < |Offending(p, lines, n)| ==> Offending(p, lines, n)[j] < Offending(p, lines, n)[k]
  {
    if n > 0 {
      OffendingList(p, lines, n - 1);
      var before := Offending(p, lines, n - 1);
      assert forall j :: 0 <= j < |before| ==> before[j] in before;
    }
  }

  class Directory {
    var files: map<string, string>

    constructor (files: map<string, string>)
      ensures this.files == files
    {
      this.files := files;
    }

    /** Read, check line by line, and in fix mode write what was changed. */
    method CheckManuallyFile(name: string, fix: bool, verbose: bool, p: Pass) returns (compliant: bool, reported: seq<nat>)
      requires name in files
      modifies this
      ensures compliant == Compliant(p, LinesOf(old(files)[name]))
      ensures files == if fix then old(files)[name := FixedContent(p, old(files)[name])] else old(files)
      ensures compliant <==> reported == []
      ensures fix || verbose ==> reported == Offending(p, LinesOf(old(files)[name]), |LinesOf(old(files)[name])|)
    {
      var lines := ReadLines(UniversalNewlines(files[name]));
      var fileLines := new string[|lines|](i requires 0 <= i < |lines| => lines[i]);
      assert fileLines[..] == lines;
      compliant, reported := CheckLines(fileLines, fix, verbose, p);
      if fix && !compliant {
        files := files[name := Join(fileLines[..])];
      }
    }

    /** One file, one check. */
    method CheckFile(name: string, fix: bool, c: Checker) returns (compliant: bool)
      requires name in files
      modifies this
      ensures compliant == FileCompliant(c, old(files)[name])
      ensures files == if fix then old(files)[name := FileFixed(c, old(files)[name])] else old(files)
    {
      if c.ByLine? {
        var reported;
        compliant, reported := CheckManuallyFile(name, fix, false, c.p);
      } else {
        compliant := c.accepts(files[name]);
        if fix && !compliant {
          files := files[name := c.repairs(files[name])];
        }
      }
    }

    /** `check_style_files`: in fix mode the files that were fixed count as compliant. */
    method CheckStyleFiles(c: Checker, names: seq<string>, fix: bool) returns (successful: bool)
      requires forall name :: name in names ==> name in files
      modifies this
      ensures files == if fix then FilesFixed(c, names, old(files)) else old(files)
      ensures successful == (fix || FilesCompliant(c, names, old(files)))
    {
      var allCompliant := true;
      for i := 0 to |names|
        invariant forall name :: name in names[..i] ==> name in old(files)
        invariant files == if fix then FilesFixed(c, names[..i], old(files)) else old(files)
        invariant !fix ==> allCompliant == FilesCompliant(c, names[..i], old(files))
      {
        assert names[..i + 1][..i] == names[..i] && names[..i + 1] == names[..i] + [names[i]];
        var compliant := CheckFile(names[i], fix, c);
        allCompliant := allCompliant && compliant;
      }
      assert names[..|names|] == names;
      successful := allCompliant || fix;
    }

    /** The loop of `check_style_clang_format` over the enabled checks. */
    method CheckStyle(checks: seq<Check>, fix: bool) returns (successful: bool)
      requires FilesExist(checks, files)
      modifies this
      ensures files == if fix then StyleFixed(checks, old(files)) else old(files)
      ensures successful == (fix || StylePasses(checks, old(files)))
    {
      successful := true;
      for i := 0 to |checks|
        invariant FilesExist(checks[..i], old(files))
        invariant files == if fix then StyleFixed(checks[..i], old(files)) else old(files)
        invariant successful == (fix || StylePasses(checks[..i], old(files)))
      {
        NextCheck(checks, i, old(files));
        var ok := CheckStyleFiles(checks[i].checker, checks[i].names, fix);
        successful := successful && ok;
      }
      assert checks[..|checks|] == checks;
    }
  }

  lemma NextCheck(checks: seq<Check>, i: nat, files: map<string, string>)
    requires FilesExist(checks, files) && i < |checks|
    ensures FilesExist(checks[..i + 1], files) && FilesExist(checks[..i], files)
    ensures forall name :: name in checks[i].names ==> name in files
    ensures StyleFixed(checks[..i + 1], files)
         == FilesFixed(checks[i].checker, checks[i].names, StyleFixed(checks[..i], files))
    ensures StylePasses(checks[..i + 1], files)
       <==> StylePasses(checks[..i], files) && FilesCompliant(checks[i].checker, checks[i].names, files)
  {
    var next, here := checks[..i + 1], checks[..i];
    assert next[..i] == here && next[i] == checks[i];
    if StylePasses(next, files) {
      assert FilesCompliant(next[i].checker, next[i].names, files);
      forall k | 0 <= k < i
        ensures FilesCompliant(here[k].checker, here[k].names, files)
      {
        assert FilesCompliant(next[k].checker, next[k].names, files);
      }
    }
  }

  // ---------- what the line checks promise ----------

  /** A fixed line is compliant. */
  ghost predicate Settles(check: LineCheck, line: string) {
    check(check(line).fixed).compliant
  }

  /** A guard line stays the same guard. */
  ghost predicate KeepsGuard(p: Pass, line: string) {
    p.guards.Has(Strip(line)) ==> Strip(p.check(line).fixed) == Strip(line)
  }

  /** A fixed line is still one line. */
  ghost predicate KeepsLine(check: LineCheck, line: string) {
    IsLine(line) ==> IsLine(check(line).fixed) && (Ended(line) ==> Ended(check(line).fixed))
  }

  /** A line is rejected iff fixing it changes it. */
  ghost predicate RejectsWhatItChanges(check: LineCheck, line: string) {
    check(line).compliant <==> check(line).fixed == line
  }

  ghost predicate SoundOn(p: Pass, line: string) {
    && Settles(p.check, line) && KeepsGuard(p, line)
    && KeepsLine(p.check, line) && RejectsWhatItChanges(p.check, line)
  }

  ghost predicate Sound(p: Pass) {
    forall line :: SoundOn(p, line)
  }

  lemma ExpandedLine(line: string)
    requires IsLine(line)
    ensures IsLine(ExpandTabs(line, 0))
    ensures Ended(line) ==> Ended(ExpandTabs(line, 0))
  {
    var front, last := line[..|line| - 1], line[|line| - 1];
    assert line == front + [last];
    var col := ColumnAfter(front, 0);
    ExpandTabsConcat(front, [last], 0);
    ExpandedCharacters(front, 0);
    ExpandedCharacters([last], col);
    var e, f := ExpandTabs(front, 0), ExpandTabs([last], col);
    forall i | 0 <= i < |e|
      ensures e[i] != '\n' && e[i] != '\r'
    {
      assert e[i] in front || e[i] == ' ';
      assert forall c :: c in front ==> c in line;
    }
    if last == '\t' {
      assert ExpandTabs([last][1..], col + TAB_SIZE - col % TAB_SIZE) == "";
      assert f == Spaces(TAB_SIZE - col % TAB_SIZE);
    } else {
      assert ExpandTabs([last][1..], ColumnAfter([last], col)) == "";
      assert f == [last];
    }
  }

  lemma GuardsHaveNoTab(stripped: string)
    requires FORMAT_GUARDS.Has(stripped)
    ensures '\t' !in stripped && |stripped| > 1
  {
  }

  lemma TabsSound()
    ensures Sound(TABS)
  {
    forall line
      ensures SoundOn(TABS, line)
    {
      ExpandedCharacters(line, 0);
      if FORMAT_GUARDS.Has(Strip(line)) {
        GuardsHaveNoTab(Strip(line));
        ExpansionKeepsStripped(line);
      }
      if IsLine(line) {
        ExpandedLine(line);
      }
    }
  }

  lemma NewlineStripped(s: string)
    ensures RStrip(s + "\n") == RStrip(s)
    ensures RStrip(RStrip(s)) == RStrip(s)
  {
    RStripOf(s, "\n");
    var w := RStripSplits(s);
  }

  lemma TrimmedLine(line: string)
    requires IsLine(line)
    ensures IsLine(RStrip(line) + "\n")
  {
    var w := RStripSplits(line);
    var fixed := RStrip(line) + "\n";
    assert fixed[..|fixed| - 1] == RStrip(line);
    forall k | 0 <= k < |RStrip(line)|
      ensures RStrip(line)[k] != '\n' && RStrip(line)[k] != '\r'
    {
      assert line[k] == RStrip(line)[k] && line[k] in line && IsSpace('\n');
      if k < |line| - 1 {
        assert line[k] == line[..|line| - 1][k];
      }
    }
  }

  lemma WhitespaceSound()
    ensures Sound(WHITESPACE)
  {
    forall line
      ensures SoundOn(WHITESPACE, line)
    {
      NewlineStripped(line);
      NewlineStripped(RStrip(line));
      if IsLine(line) {
        TrimmedLine(line);
      }
    }
  }

  // ---------- two passes ----------

  lemma SwitchSimulation(p: Pass, line: string, fixed: string, enabled: bool, enabled': bool)
    requires SoundOn(p, line) && (enabled' ==> enabled)
    requires fixed == line || fixed == p.check(line).fixed
    requires !Switch(p.guards, enabled, line) && !p.guards.Has(Strip(line)) ==> fixed == line
    ensures Switch(p.guards, enabled', fixed) ==> Switch(p.guards, enabled, line)
  {
  }

  /** Where the second pass is switched on, the first one was. */
  lemma {:induction false} EnabledSimulation(p: Pass, lines: seq<string>, n: nat)
    requires p.respectGuards && Sound(p) && n <= |lines|
    ensures EnabledAfter(p.guards, FixedLines(p, lines), n) ==> EnabledAfter(p.guards, lines, n)
  {
    if n > 0 {
      EnabledSimulation(p, lines, n - 1);
      var line, fixed := lines[n - 1], FixedLines(p, lines)[n - 1];
      assert SoundOn(p, line);
      assert LookedAt(p, lines, n - 1) || fixed == line;
      SwitchSimulation(p, line, fixed, EnabledAfter(p.guards, lines, n - 1),
                       EnabledAfter(p.guards, FixedLines(p, lines), n - 1));
    }
  }

  /** A second pass over the fixed lines finds nothing. */
  lemma FixedLinesCompliant(p: Pass, lines: seq<string>)
    requires Sound(p)
    ensures Compliant(p, FixedLines(p, lines))
  {
    var fixed := FixedLines(p, lines);
    forall i | 0 <= i < |lines|
      ensures !Offends(p, fixed, i)
    {
      if p.respectGuards {
        EnabledSimulation(p, lines, i + 1);
      }
      assert SoundOn(p, lines[i]);
    }
  }

  lemma FixedLinesAreLines(p: Pass, lines: seq<string>)
    requires Sound(p) && AreLines(lines)
    ensures AreLines(FixedLines(p, lines))
  {
    forall i | 0 <= i < |lines|
      ensures var fixed := FixedLines(p, lines)[i];
              IsLine(fixed) && (Ended(lines[i]) ==> Ended(fixed))
    {
      assert SoundOn(p, lines[i]);
    }
  }

  lemma LinesOfAreLines(content: string)
    ensures AreLines(LinesOf(content))
  {
    ReadLinesAreLines(UniversalNewlines(content));
  }

  lemma LinesOfJoin(lines: seq<string>)
    requires AreLines(lines)
    ensures LinesOf(Join(lines)) == lines
  {
    ReadLinesOfJoin(lines);
    NewlinesTranslated(Join(lines));
  }

  /** The lines of the rewritten file are the fixed lines. */
  lemma LinesOfFixed(p: Pass, content: string)
    requires Sound(p)
    ensures LinesOf(FixedContent(p, content)) == FixedLines(p, LinesOf(content))
    ensures AreLines(FixedLines(p, LinesOf(content)))
  {
    var lines := LinesOf(content);
    LinesOfAreLines(content);
    FixedLinesAreLines(p, lines);
    LinesOfJoin(FixedLines(p, lines));
    if Compliant(p, lines) {
      assert FixedLines(p, lines) == lines;
    }
  }

  /** Fixing a file and checking it again reports it compliant, guards or not. */
  lemma FixThenCheckPasses(p: Pass, content: string)
    requires Sound(p)
    ensures Compliant(p, LinesOf(FixedContent(p, content)))
  {
    LinesOfFixed(p, content);
    LinesOfAreLines(content);
    FixedLinesCompliant(p, LinesOf(content));
  }

  /** A file is reported compliant iff a fix pass would leave its lines, or its content, alone. */
  lemma CompliantIffUnchanged(p: Pass, content: string)
    requires Sound(p)
    ensures Compliant(p, LinesOf(content)) <==> LinesOf(FixedContent(p, content)) == LinesOf(content)
    ensures Compliant(p, LinesOf(content)) <==> FixedContent(p, content) == content
  {
    LinesOfFixed(p, content);
    var lines := LinesOf(content);
    var fixed := FixedLines(p, lines);
    if fixed == lines {
      forall i | 0 <= i < |lines|
        ensures !Offends(p, lines, i)
      {
        assert fixed[i] == lines[i] && SoundOn(p, lines[i]);
      }
    } else {
      var i :| 0 <= i < |lines| && fixed[i] != lines[i];
      assert Offends(p, lines, i);
    }
  }

  // ---------- tabs after whitespace ----------

  /** Expanding tabs leaves no trailing white space where there was none. */
  lemma ExpansionKeepsWhitespace(line: string)
    requires CheckWhitespaceLine(line).compliant
    ensures CheckWhitespaceLine(ExpandTabs(line, 0)).compliant
  {
    var text := RStrip(line);
    var w := RStripSplits(line);
    var col := ColumnAfter(text, 0);
    ExpandTabsConcat(text, "\n", 0);
    NothingToExpand("\n", col);
    var e := ExpandTabs(text, 0);
    if text != "" {
      var front, last := text[..|text| - 1], text[|text| - 1];
      assert text == front + [last] && last != '\t';
      ExpandTabsConcat(front, [last], 0);
      NothingToExpand([last], ColumnAfter(front, 0));
      assert e[|e| - 1] == last;
    }
    assert RStrip(e) == e;
    NewlineStripped(e);
  }

  // ---------- several checks on several files ----------

  /** A file fixed by the check is accepted by it. */
  ghost predicate SettlesFiles(c: Checker) {
    forall content :: FileCompliant(c, FileFixed(c, content))
  }

  /** A fix with `later` leaves nothing for `earlier` to find. */
  ghost predicate Keeps(later: Checker, earlier: Checker) {
    forall content :: FileCompliant(earlier, content) ==> FileCompliant(earlier, FileFixed(later, content))
  }

  lemma SoundSettles(p: Pass)
    requires Sound(p)
    ensures SettlesFiles(ByLine(p))
  {
    forall content
      ensures FileCompliant(ByLine(p), FileFixed(ByLine(p), content))
    {
      FixThenCheckPasses(p, content);
    }
  }

  /** What the fixes of one check do to one file. */
  lemma {:induction false} FileAfterFixes(c: Checker, names: seq<string>, files: map<string, string>, name: string, e: Checker)
    requires name in files && forall n :: n in names ==> n in files
    ensures SettlesFiles(c) && name in names ==> FileCompliant(c, FilesFixed(c, names, files)[name])
    ensures Keeps(c, e) && FileCompliant(e, files[name]) ==> FileCompliant(e, FilesFixed(c, names, files)[name])
  {
    if names != [] {
      var front, last := names[..|names| - 1], names[|names| - 1];
      assert names == front + [last];
      FileAfterFixes(c, front, files, name, e);
    }
  }

  /** After one run in fix mode a run in check mode succeeds on all files, provided that every check settles
      its files and leaves alone what the checks before it have settled. */
  lemma {:induction false} StyleFixedPasses(checks: seq<Check>, files: map<string, string>)
    requires FilesExist(checks, files)
    requires forall i :: 0 <= i < |checks| ==> SettlesFiles(checks[i].checker)
    requires forall i, j :: 0 <= i < j < |checks| ==> Keeps(checks[j].checker, checks[i].checker)
    ensures FilesExist(checks, StyleFixed(checks, files)) && StylePasses(checks, StyleFixed(checks, files))
  {
    if checks != [] {
      var front, last := checks[..|checks| - 1], checks[|checks| - 1];
      var before := StyleFixed(front, files);
      StyleFixedPasses(front, files);
      forall i, name | 0 <= i < |checks| && name in checks[i].names
        ensures FileCompliant(checks[i].checker, StyleFixed(checks, files)[name])
      {
        FileAfterFixes(last.checker, last.names, before, name, checks[i].checker);
        if i < |front| {
          assert FilesCompliant(front[i].checker, front[i].names, before);
        }
      }
    }
  }

  lemma TabsPassKeepsWhitespace(p: Pass)
    requires p.check == CheckTabsLine && Sound(p)
    ensures Keeps(ByLine(p), ByLine(WHITESPACE))
  {
    forall content | Compliant(WHITESPACE, LinesOf(content))
      ensures Compliant(WHITESPACE, LinesOf(FixedContent(p, content)))
    {
      LinesOfFixed(p, content);
      FixedLinesKeepWhitespace(p, LinesOf(content));
    }
  }

  lemma FixedLinesKeepWhitespace(p: Pass, lines: seq<string>)
    requires p.check == CheckTabsLine && Compliant(WHITESPACE, lines)
    ensures Compliant(WHITESPACE, FixedLines(p, lines))
  {
    var fixed := FixedLines(p, lines);
    forall i | 0 <= i < |lines|
      ensures !Offends(WHITESPACE, fixed, i)
    {
      assert !Offends(WHITESPACE, lines, i);
      ExpansionKeepsWhitespace(lines[i]);
    }
  }

  /** The whitespace and tabs checks, in the order of the code, each on its own files. */
  lemma WhitespaceThenTabsPasses(whitespace: seq<string>, tabs: seq<string>, files: map<string, string>)
    requires FilesExist([Check(ByLine(WHITESPACE), whitespace), Check(ByLine(TABS), tabs)], files)
    ensures var checks := [Check(ByLine(WHITESPACE), whitespace), Check(ByLine(TABS), tabs)];
            FilesExist(checks, StyleFixed(checks, files)) && StylePasses(checks, StyleFixed(checks, files))
  {
    WhitespaceSound();
    TabsSound();
    SoundSettles(WHITESPACE);
    SoundSettles(TABS);
    TabsPassKeepsWhitespace(TABS);
    StyleFixedPasses([Check(ByLine(WHITESPACE), whitespace), Check(ByLine(TABS), tabs)], files);
  }

  // ---------- lines hidden by a fix ----------

  ghost predicate IsGuard(guards: Guards, line: string) {
    guards.Has(Strip(line))
  }

  ghost predicate IsOff(guards: Guards, line: string) {
    IsGuard(guards, line) && !Switch(guards, true, line)
  }

  /** Fixing the line made it a guard that switches formatting off. */
  ghost predicate BecomesOff(guards: Guards, line: string, fixed: string) {
    !IsGuard(guards, line) && IsOff(guards, fixed)
  }

  ghost predicate NoGuardIn(guards: Guards, lines: seq<string>, from: nat, to: nat)
    requires to <= |lines|
  {
    forall k :: from <= k < to ==> !IsGuard(guards, lines[k])
  }

  /** The fixed line `i` became an off guard, and no guard follows it up to line `j`. */
  ghost predicate HidBy(guards: Guards, lines: seq<string>, fixed: seq<string>, i: nat, j: nat)
    requires j < |lines| == |fixed|
  {
    i < j && BecomesOff(guards, lines[i], fixed[i]) && NoGuardIn(guards, fixed, i + 1, j + 1)
  }

  ghost predicate GuardKept(guards: Guards, line: string, fixed: string) {
    IsGuard(guards, line) ==> Strip(fixed) == Strip(line)
  }

  ghost predicate GuardsKept(guards: Guards, lines: seq<string>, fixed: seq<string>) {
    |fixed| == |lines| && forall k :: 0 <= k < |lines| ==> GuardKept(guards, lines[k], fixed[k])
  }

  lemma SwitchByGuard(guards: Guards, enabled: bool, line: string)
    ensures Switch(guards, enabled, line) == if IsGuard(guards, line) then !IsOff(guards, line) else enabled
  {
  }

  /** The state behind an off guard lasts until the next guard. */
  lemma {:induction false} OffLasts(guards: Guards, lines: seq<string>, i: nat, n: nat)
    requires i < n <= |lines| && IsOff(guards, lines[i]) && NoGuardIn(guards, lines, i + 1, n)
    ensures !EnabledAfter(guards, lines, n)
    decreases n
  {
    SwitchByGuard(guards, EnabledAfter(guards, lines, n - 1), lines[n - 1]);
    if i + 1 < n {
      OffLasts(guards, lines, i, n - 1);
    }
  }

  /** Lines that end up as no guards were no guards. */
  lemma {:induction false} OnLasts(guards: Guards, lines: seq<string>, fixed: seq<string>, m: nat, n: nat)
    requires GuardsKept(guards, lines, fixed) && m <= n <= |lines|
    requires EnabledAfter(guards, lines, m) && NoGuardIn(guards, fixed, m, n)
    ensures EnabledAfter(guards, lines, n)
    decreases n
  {
    if m < n {
      OnLasts(guards, lines, fixed, m, n - 1);
      SwitchByGuard(guards, true, lines[n - 1]);
      assert GuardKept(guards, lines[n - 1], fixed[n - 1]);
    }
  }

  /** Formatting is enabled before the fix and disabled after it only behind a line that became an off guard. */
  lemma {:induction false} DisabledByFix(guards: Guards, lines: seq<string>, fixed: seq<string>, n: nat) returns (i: nat)
    requires GuardsKept(guards, lines, fixed) && n <= |lines|
    requires EnabledAfter(guards, lines, n) && !EnabledAfter(guards, fixed, n)
    ensures i < n && BecomesOff(guards, lines[i], fixed[i]) && NoGuardIn(guards, fixed, i + 1, n)
  {
    SwitchByGuard(guards, EnabledAfter(guards, lines, n - 1), lines[n - 1]);
    SwitchByGuard(guards, EnabledAfter(guards, fixed, n - 1), fixed[n - 1]);
    assert GuardKept(guards, lines[n - 1], fixed[n - 1]);
    if IsGuard(guards, fixed[n - 1]) {
      i := n - 1;
    } else {
      i := DisabledByFix(guards, lines, fixed, n - 1);
    }
  }

  // ---------- what a pass does to one line ----------

  /** An off guard precedes the line, and no guard stands between it and the line, which is none itself. */
  ghost predicate BehindOff(guards: Guards, lines: seq<string>, i: nat)
    requires i < |lines|
  {
    exists j: nat :: j < i && OffAndNoGuard(guards, lines, j, i)
  }

  ghost predicate OffAndNoGuard(guards: Guards, lines: seq<string>, j: nat, i: nat)
    requires j < i < |lines|
  {
    && Strip(lines[j]) in guards.off && Strip(lines[j]) !in guards.on
    && forall k :: j < k <= i ==> Strip(lines[k]) !in guards.off && Strip(lines[k]) !in guards.on
  }

  lemma {:induction false} OffBefore(guards: Guards, lines: seq<string>, n: nat) returns (j: nat)
    requires n <= |lines| && !EnabledAfter(guards, lines, n)
    ensures j < n && Strip(lines[j]) in guards.off && Strip(lines[j]) !in guards.on
    ensures forall k :: j < k < n ==> Strip(lines[k]) !in guards.off && Strip(lines[k]) !in guards.on
  {
    var stripped := Strip(lines[n - 1]);
    if stripped in guards.off {
      j := n - 1;
    } else {
      j := OffBefore(guards, lines, n - 1);
    }
  }

  lemma {:induction false} OffSince(guards: Guards, lines: seq<string>, j: nat, n: nat)
    requires j < n <= |lines| && Strip(lines[j]) in guards.off && Strip(lines[j]) !in guards.on
    requires forall k :: j < k < n ==> Strip(lines[k]) !in guards.off && Strip(lines[k]) !in guards.on
    ensures !EnabledAfter(guards, lines, n)
    decreases n
  {
    if j + 1 < n {
      OffSince(guards, lines, j, n - 1);
    }
  }

  /** A pass that respects the guards leaves out exactly the lines behind an off guard. */
  lemma LookedAtIff(p: Pass, lines: seq<string>, i: nat)
    requires i < |lines|
    ensures LookedAt(p, lines, i) <==> !p.respectGuards || !BehindOff(p.guards, lines, i)
  {
    if !LookedAt(p, lines, i) {
      var j := OffBefore(p.guards, lines, i + 1);
      NoGuardHere(p.guards, Strip(lines[i]));
      assert OffAndNoGuard(p.guards, lines, j, i);
    }
    if j: nat :| j < i && OffAndNoGuard(p.guards, lines, j, i) {
      OffSince(p.guards, lines, j, i + 1);
      NoGuardHere(p.guards, Strip(lines[i]));
    }
  }

  lemma NoGuardHere(guards: Guards, stripped: string)
    ensures guards.Has(stripped) <==> stripped in guards.on || stripped in guards.off
  {
  }

  /** Every other line is replaced by what the check makes of it, and these lines decide the verdict. */
  lemma LineTreated(p: Pass, lines: seq<string>, i: nat)
    requires i < |lines|
    ensures FixedLines(p, lines)[i]
         == if (p.respectGuards && BehindOff(p.guards, lines, i)) || p.check(lines[i]).compliant then lines[i]
            else p.check(lines[i]).fixed
    ensures Compliant(p, lines) ==> (p.respectGuards && BehindOff(p.guards, lines, i)) || p.check(lines[i]).compliant
  {
    LookedAtIff(p, lines, i);
  }

  lemma CompliantByLine(p: Pass, lines: seq<string>)
    ensures Compliant(p, lines)
       <==> forall i :: 0 <= i < |lines| ==>
              (p.respectGuards && BehindOff(p.guards, lines, i)) || p.check(lines[i]).compliant
  {
    forall i | 0 <= i < |lines|
      ensures Offends(p, lines, i)
         <==> !(p.respectGuards && BehindOff(p.guards, lines, i)) && !p.check(lines[i]).compliant
    {
      LookedAtIff(p, lines, i);
    }
  }

  /** The six guards. */
  lemma FormatGuards(stripped: string)
    ensures stripped in FORMAT_GUARDS.on
       <==> stripped == "// clang-format on" || stripped == "# cmake-format: on" || stripped == "# fmt: on"
    ensures stripped in FORMAT_GUARDS.off
       <==> stripped == "// clang-format off" || stripped == "# cmake-format: off" || stripped == "# fmt: off"
  {
  }

  /** What the whitespace check makes of a line: its text without the white space at the end, and a newline. */
  lemma WhitespaceLine(line: string) returns (text: string, w: string)
    ensures line == text + w && AllSpace(w) && (text != "" ==> !IsSpace(text[|text| - 1]))
    ensures CheckWhitespaceLine(line).fixed == text + "\n"
    ensures CheckWhitespaceLine(line).compliant <==> w == "\n"
  {
    text := RStrip(line);
    w := RStripSplits(line);
    if text + "\n" == line {
      assert w == line[|text|..];
    }
  }

  /** What the tabs check makes of a line, whose expansion `StyleText.ExpandedNext` describes. */
  lemma TabsLine(line: string)
    ensures CheckTabsLine(line).compliant <==> '\t' !in line
    ensures CheckTabsLine(line).fixed == ExpandTabs(line, 0) && '\t' !in ExpandTabs(line, 0)
  {
    ExpandedCharacters(line, 0);
    if '\t' !in line {
      NothingToExpand(line, 0);
    }
  }

  /** A line that ends in a newline with no white space before it. */
  ghost predicate EndsCleanly(line: string) {
    line != "" && line[|line| - 1] == '\n' && (|line| > 1 ==> !IsSpace(line[|line| - 2]))
  }

  /** The two checks on a file, in plain terms. */
  lemma CleanFile(content: string)
    ensures Compliant(WHITESPACE, LinesOf(content)) <==> forall line :: line in LinesOf(content) ==> EndsCleanly(line)
    ensures Compliant(TABS, LinesOf(content))
       <==> forall i :: 0 <= i < |LinesOf(content)| ==>
              BehindOff(FORMAT_GUARDS, LinesOf(content), i) || '\t' !in LinesOf(content)[i]
  {
    CompliantByLine(WHITESPACE, LinesOf(content));
    CompliantByLine(TABS, LinesOf(content));
    forall line
      ensures CheckWhitespaceLine(line).compliant <==> EndsCleanly(line)
    {
      CleanEnd(line);
    }
  }

  lemma CleanEnd(line: string)
    ensures CheckWhitespaceLine(line).compliant <==> EndsCleanly(line)
  {
    var text, w := WhitespaceLine(line);
  }

  /** A run in fix mode leaves all other files alone. */
  lemma {:induction false} OtherFilesKept(checks: seq<Check>, files: map<string, string>, name: string)
    requires FilesExist(checks, files) && name in files
    requires forall i :: 0 <= i < |checks| ==> name !in checks[i].names
    ensures StyleFixed(checks, files)[name] == files[name]
  {
    if checks != [] {
      var last := checks[|checks| - 1];
      OtherFilesKept(checks[..|checks| - 1], files, name);
      NotNamed(last.checker, last.names, StyleFixed(checks[..|checks| - 1], files), name);
    }
  }

  lemma {:induction false} NotNamed(c: Checker, names: seq<string>, files: map<string, string>, name: string)
    requires name in files && name !in names && forall n :: n in names ==> n in files
    ensures FilesFixed(c, names, files)[name] == files[name]
  {
    if names != [] {
      assert names[|names| - 1] in names;
      NotNamed(c, names[..|names| - 1], files, name);
    }
  }

  lemma FixKeepsGuards(p: Pass, lines: seq<string>)
    requires Sound(p)
    ensures GuardsKept(p.guards, lines, FixedLines(p, lines))
  {
    forall k | 0 <= k < |lines|
      ensures GuardKept(p.guards, lines[k], FixedLines(p, lines)[k])
    {
      assert SoundOn(p, lines[k]);
    }
  }

  /** Which lines a fix hides from the next pass: those behind a line that it turned into an off guard,
      up to the next guard. */
  lemma HiddenIff(p: Pass, lines: seq<string>, j: nat)
    requires p.respectGuards && Sound(p) && j < |lines|
    ensures LookedAt(p, lines, j) && !LookedAt(p, FixedLines(p, lines), j)
       <==> exists i: nat :: HidBy(p.guards, lines, FixedLines(p, lines), i, j)
  {
    var fixed := FixedLines(p, lines);
    FixKeepsGuards(p, lines);
    if LookedAt(p, lines, j) && !LookedAt(p, fixed, j) {
      assert GuardKept(p.guards, lines[j], fixed[j]);
      var i := DisabledByFix(p.guards, lines, fixed, j + 1);
      assert i != j;
      assert HidBy(p.guards, lines, fixed, i, j);
    }
    if i: nat :| HidBy(p.guards, lines, fixed, i, j) {
      HiddenBehind(p, lines, i, j);
    }
  }

  lemma HiddenBehind(p: Pass, lines: seq<string>, i: nat, j: nat)
    requires p.respectGuards && Sound(p) && j < |lines| && HidBy(p.guards, lines, FixedLines(p, lines), i, j)
    ensures LookedAt(p, lines, j) && !LookedAt(p, FixedLines(p, lines), j)
  {
    FixKeepsGuards(p, lines);
    ChangedWhileEnabled(p, lines, i);
    StatesBehind(p.guards, lines, FixedLines(p, lines), i, j);
  }

  lemma ChangedWhileEnabled(p: Pass, lines: seq<string>, i: nat)
    requires p.respectGuards && i < |lines| && BecomesOff(p.guards, lines[i], FixedLines(p, lines)[i])
    ensures EnabledAfter(p.guards, lines, i + 1)
  {
    assert FixedLines(p, lines)[i] != lines[i];
  }

  lemma StatesBehind(guards: Guards, lines: seq<string>, fixed: seq<string>, i: nat, j: nat)
    requires GuardsKept(guards, lines, fixed) && j < |lines| && HidBy(guards, lines, fixed, i, j)
    requires EnabledAfter(guards, lines, i + 1)
    ensures EnabledAfter(guards, lines, j + 1) && !EnabledAfter(guards, fixed, j + 1) && !IsGuard(guards, fixed[j])
  {
    OffLasts(guards, fixed, i, j + 1);
    OnLasts(guards, lines, fixed, i + 1, j + 1);
  }

  lemma ExpandsToGuard()
    ensures ExpandTabs("  #" + "\t" + "fmt: off\n", 0) == "  # fmt: off\n"
  {
    ExpandTabsConcat("  #" + "\t", "fmt: off\n", 0);
    ExpandTabsConcat("  #", "\t", 0);
    NothingToExpand("  #", 0);
    NothingToExpand("fmt: off\n", ColumnAfter("  #" + "\t", 0));
    assert ColumnAfter("  #", 0) == 3;
    assert ExpandTabs("\t", 3) == " " + ExpandTabs("", 4);
  }

  lemma PlainLine(left: string, core: string)
    requires AllSpace(left) && Trimmed(core) && ('\t' in core || |core| <= 1)
    ensures !FORMAT_GUARDS.Has(Strip(left + core + "\n"))
  {
    StripOf(left, core, "\n");
    if FORMAT_GUARDS.Has(core) {
      GuardsHaveNoTab(core);
    }
  }

  lemma GuardAppears(first: string, expanded: string, second: string)
    requires '\t' in first && expanded == ExpandTabs(first, 0)
    requires !FORMAT_GUARDS.Has(Strip(first)) && !FORMAT_GUARDS.Has(Strip(second))
    requires Strip(expanded) in FORMAT_GUARDS.off && Strip(expanded) !in FORMAT_GUARDS.on
    requires '\t' !in second
    ensures LookedAt(TABS, [first, second], 1)
    ensures FixedLines(TABS, [first, second]) == [expanded, second]
    ensures !LookedAt(TABS, [expanded, second], 1)
  {
    var lines, fixed := [first, second], [expanded, second];
    assert EnabledAfter(FORMAT_GUARDS, lines, 1) && EnabledAfter(FORMAT_GUARDS, lines, 2);
    assert !EnabledAfter(FORMAT_GUARDS, fixed, 1) && !EnabledAfter(FORMAT_GUARDS, fixed, 2);
  }

  /** The first pass looks at the second line; the next pass does not, as the first line has become a guard. */
  lemma FixCanCreateGuard() returns (lines: seq<string>)
    ensures |lines| == 2 && LookedAt(TABS, lines, 1) && !LookedAt(TABS, FixedLines(TABS, lines), 1)
  {
    var first, second, expanded := "  #" + "\t" + "fmt: off\n", "x\n", "  # fmt: off\n";
    ExpandsToGuard();
    assert first[3] == '\t';
    assert first == "  " + "#\tfmt: off" + "\n" && second == "" + "x" + "\n" && expanded == "  " + "# fmt: off" + "\n";
    assert "#\tfmt: off"[1] == '\t';
    PlainLine("  ", "#\tfmt: off");
    PlainLine("", "x");
    StripOf("  ", "# fmt: off", "\n");
    assert FORMAT_GUARDS.off[2] == "# fmt: off";
    GuardAppears(first, expanded, second);
    lines := [first, second];
  }
}
