/** What fixing a line does to clang-format guards and to line breaks. */
module StyleLines {
  import opened Common
  import opened StyleText
  import opened StyleChecks

  // ----- an off guard stays an off guard

  /** The three off guards: short, without tabs, and not a comment token that Doxygen knows. */
  lemma OffGuards(g: string)
    requires g in GUARDS_OFF
    ensures 10 <= |g| <= 20 && '\t' !in g && 'y' !in g && g[1] != 'i'
    ensures g[0] != '*' && g[..3] != "/**" && g[..3] != "///"
  {
    assert g == "// clang-format off" || g == "# cmake-format: off" || g == "# fmt: off";
    CppGuard();
    CmakeGuard();
    PythonGuard();
    NotAToken(g);
  }

  lemma CppGuard()
    ensures var g := "// clang-format off";
            |g| == 19 && '\t' !in g && 'y' !in g && g[0] == '/' && g[1] == '/' && g[2] == ' '
  {
  }

  lemma CmakeGuard()
    ensures var g := "# cmake-format: off"; |g| == 19 && '\t' !in g && 'y' !in g && g[0] == '#' && g[1] == ' '
  {
  }

  lemma PythonGuard()
    ensures var g := "# fmt: off"; |g| == 10 && '\t' !in g && 'y' !in g && g[0] == '#' && g[1] == ' '
  {
  }

  lemma NotAToken(g: string)
    requires |g| >= 3 && (g[0] == '#' || g[2] == ' ')
    ensures g[..3] != "/**" && g[..3] != "///"
  {
    assert "/**"[2] == '*' && "///"[2] == '/' && "/**"[0] == '/' && "///"[0] == '/';
    assert g[..3][2] == g[2] && g[..3][0] == g[0];
  }

  lemma ContainsCharacter(s: string, sub: string, k: nat)
    requires Contains(s, sub) && k < |sub|
    ensures sub[k] in s
  {
    var i: nat :| i <= |s| && OccursAt(s, sub, i);
    assert s[i..i + |sub|][k] == s[i + k];
  }

  lemma EmacsSkipsGuard(line: string)
    requires IsOff(line)
    ensures FixEmacs(line).compliant
  {
    var g := Trim(IsSpace, line);
    OffGuards(g);
    assert "c-file-style:"[9] == 'y' && "py-indent-offset:"[1] == 'y';
    if Contains(g, "c-file-style:") {
      ContainsCharacter(g, "c-file-style:", 9);
    }
    if Contains(g, "py-indent-offset:") {
      ContainsCharacter(g, "py-indent-offset:", 1);
    }
  }

  lemma ShortIsNotGpl(core: string)
    requires |core| <= 20
    ensures !IsGpl(core)
  {
  }

  lemma LicenseSkipsGuard(line: string)
    requires IsOff(line)
    ensures FixLicense(line).compliant
  {
    OffGuards(Trim(IsSpace, line));
    TrimShorter(IsComment, Trim(IsSpace, line));
    TrimShorter(IsSpace, Trim(IsComment, Trim(IsSpace, line)));
    ShortIsNotGpl(LicenseCore(line));
  }

  lemma TrimKeepsStart(line: string)
    requires |line| > 1 && !IsSpace(line[0]) && !IsSpace(line[1])
    ensures |Trim(IsSpace, line)| > 1 && Trim(IsSpace, line)[1] == line[1]
  {
    TrimRightTail(IsSpace, line);
  }

  lemma IncludeSkipsGuard(line: string)
    requires IsOff(line)
    ensures FixInclude(line).compliant
  {
    OffGuards(Trim(IsSpace, line));
    assert INCLUDE[0] == '#' && INCLUDE[1] == 'i';
    if INCLUDE <= line {
      TrimKeepsStart(line);
    }
  }

  lemma {:induction false} SkipRun(run: string, s: string, i: nat)
    requires All(IsSpace, run) && s != [] && !IsSpace(s[0]) && i <= |run|
    ensures SkipSpaces(run + s, i) == |run|
    decreases |run| - i
  {
    if i < |run| {
      assert (run + s)[i] == run[i];
      SkipRun(run, s, i + 1);
    }
  }

  lemma DoxygenSkipsGuard(isWord: char -> bool, line: string)
    requires IsOff(line)
    ensures FixDoxygen(isWord, line).compliant
  {
    var g := Trim(IsSpace, line);
    OffGuards(g);
    var before, after := TrimSplit(IsSpace, line);
    TrimRuns(IsSpace, before, g, after);
    var stripped := before + g;
    SkipRun(before, g, 0);
    assert stripped[|before|..|before| + 3] == g[..3];
    assert CommentEnd(stripped) == None;
  }

  lemma TabsKeepGuard(line: string)
    requires IsOff(line)
    ensures IsOff(Expand(line, 0))
  {
    var g := Trim(IsSpace, line);
    OffGuards(g);
    var before, after := TrimSplit(IsSpace, line);
    ExpandConcat(before + g, after, 0);
    ExpandConcat(before, g, 0);
    ExpandPlain(g, ColumnAfter(before, 0));
    ExpandCharacters(before, 0);
    ExpandCharacters(after, ColumnAfter(before + g, 0));
    TrimRuns(IsSpace, Expand(before, 0), g, Expand(after, ColumnAfter(before + g, 0)));
  }

  /** If a fixer changes a line that switches checking off, the new line still switches it off. */
  lemma OffGuardStays(c: Check, line: string)
    requires IsOff(line) && !FixLine(c, line).compliant
    ensures IsOff(FixLine(c, line).fixed)
  {
    match c
    case IncludeQuotes => IncludeSkipsGuard(line);
    case DoxygenTags(isWord) => DoxygenSkipsGuard(isWord, line);
    case License => LicenseSkipsGuard(line);
    case Emacs => EmacsSkipsGuard(line);
    case Whitespace => WhitespaceFixed(line);
    case Tabs => TabsKeepGuard(line);
  }

  // ----- a line stays one line

  /** At most one line break, at the end. */
  predicate LineShape(line: string) {
    forall i :: 0 <= i < |line| - 1 ==> line[i] != '\n'
  }

  predicate Ends(line: string) {
    line != "" && line[|line| - 1] == '\n'
  }

  lemma WhitespaceShape(line: string)
    requires LineShape(line)
    ensures LineShape(FixWhitespace(line).fixed) && Ends(FixWhitespace(line).fixed)
  {
    TrimRightSplit(IsSpace, line);
  }

  lemma TabsShape(line: string)
    requires LineShape(line) && line != ""
    ensures LineShape(Expand(line, 0)) && (Ends(line) ==> Ends(Expand(line, 0))) && Expand(line, 0) != ""
  {
    var n := |line| - 1;
    ExpandCharacters(line, 0);
    if Ends(line) {
      assert line == line[..n] + "\n";
      ExpandConcat(line[..n], "\n", 0);
      ExpandCharacters(line[..n], 0);
      ExpandPlain("\n", ColumnAfter(line[..n], 0));
    }
  }

  lemma SpdxIsOneLine()
    ensures '\n' !in SPDX
  {
  }

  lemma LicenseShape(line: string)
    requires LineShape(line) && LicenseCore(line) == GPL_FIRST
    ensures LineShape(FixLicense(line).fixed) && (Ends(line) ==> Ends(FixLicense(line).fixed))
  {
    Letters();
    SpdxIsOneLine();
    var before, after := CoreReplaced(line, GPL_FIRST, SPDX);
    CoreShape(before, GPL_FIRST, SPDX, after);
  }

  lemma CoreShape(before: string, core: string, other: string, after: string)
    requires LineShape(before + core + after) && core != [] && core[|core| - 1] != '\n'
    requires '\n' !in other
    ensures LineShape(before + other + after)
    ensures Ends(before + core + after) ==> Ends(before + other + after)
  {
    var s, t := before + core + after, before + other + after;
    forall i | 0 <= i < |t| - 1 ensures t[i] != '\n' {
      if i < |before| {
        assert t[i] == s[i];
      } else if i < |before| + |other| {
        assert t[i] == other[i - |before|];
      } else {
        assert t[i] == s[i - |other| + |core|];
      }
    }
  }

  lemma DoxygenShape(isWord: char -> bool, line: string)
    requires LineShape(line) && !FixDoxygen(isWord, line).compliant
    ensures LineShape(FixDoxygen(isWord, line).fixed)
    ensures Ends(line) ==> Ends(FixDoxygen(isWord, line).fixed)
  {
    var stripped := TrimRight(IsSpace, line);
    TagHasNoBreak(isWord, stripped);
    hide TagRange;
    var (a, b) := TagRange(isWord, stripped).value;
    var tag := stripped[a..b];
    ReplaceKeepsBreaks(line, tag, "@" + tag[1..]);
  }

  lemma TagHasNoBreak(isWord: char -> bool, s: string)
    ensures TagRange(isWord, s).Some? ==>
              '\n' !in s[TagRange(isWord, s).value.0..TagRange(isWord, s).value.1]
  {
    assert IsSpace('\n');
  }

  /** A fixed line is deleted or still one line, and keeps its line break. */
  lemma FixedShape(c: Check, line: string)
    requires LineShape(line) && line != "" && !FixLine(c, line).compliant
    ensures FixLine(c, line).fixed == "" ||
            (LineShape(FixLine(c, line).fixed) && (Ends(line) ==> Ends(FixLine(c, line).fixed)))
  {
    match c
    case IncludeQuotes =>
    case DoxygenTags(isWord) => DoxygenShape(isWord, line);
    case License =>
      if LicenseCore(line) == GPL_FIRST {
        LicenseShape(line);
      }
    case Emacs =>
    case Whitespace => WhitespaceShape(line);
    case Tabs => TabsShape(line);
  }
}
