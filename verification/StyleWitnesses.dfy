/** Two lines that show what the tab fixer can do to other checks. */
module StyleWitnesses {
  import opened Common
  import opened StyleText
  import opened StyleChecks
  import opened StyleLines
  import opened StyleFiles
  import opened StylePairs
  import opened StylePipeline

  /** A comment line of two words with a character between them. */
  function Comment(a: string, c: char, b: string): string {
    "* " + (a + [c] + b) + "\n"
  }

  /** Ordinary words: no white space but blanks, no dash, letters at both ends. */
  predicate Words(a: string, b: string) {
    && a != "" && b != "" && Letter(a[0]) && Letter(b[|b| - 1]) && a[0] != '\\'
    && (forall i :: 0 <= i < |a| ==> a[i] !in "\t\n\r-") && (forall i :: 0 <= i < |b| ==> b[i] !in "\t\n\r-")
  }

  lemma CommentCore(a: string, c: char, b: string)
    requires Words(a, b)
    ensures LicenseCore(Comment(a, c, b)) == a + [c] + b
    ensures TrimRight(IsSpace, Comment(a, c, b)) == "* " + (a + [c] + b)
  {
    var core := a + [c] + b;
    assert core[0] == a[0] && core[|core| - 1] == b[|b| - 1];
    assert Comment(a, c, b) == "" + ("*" + (" " + core)) + "\n";
    var stripped := "*" + (" " + core);
    assert stripped[0] == '*' && stripped[|stripped| - 1] == core[|core| - 1];
    hide TrimRight, TrimLeft, Trim;
    TrimRuns(IsSpace, "", stripped, "\n");
    assert "" + stripped == stripped == "* " + core;
    CommentInside(core);
  }

  lemma CommentInside(core: string)
    requires core != "" && Letter(core[0]) && Letter(core[|core| - 1])
    ensures Trim(IsSpace, Trim(IsComment, "*" + (" " + core))) == core
  {
    hide TrimRight, TrimLeft, Trim;
    var inner := " " + core;
    assert inner[|inner| - 1] == core[|core| - 1];
    assert "*" + inner + "" == "*" + inner && " " + core + "" == inner;
    TrimRuns(IsComment, "*", inner, "");
    TrimRuns(IsSpace, " ", core, "");
  }

  lemma CommentIsLine(a: string, c: char, b: string)
    requires Words(a, b) && c != '\n'
    ensures LineShape(Comment(a, c, b)) && ReadLines(Comment(a, c, b)) == [Comment(a, c, b)]
  {
    var line := Comment(a, c, b);
    var inner := "* " + (a + [c] + b);
    assert forall i :: 0 <= i < |inner| ==> line[i] == inner[i] && inner[i] != '\n';
    ReadLine(line, "");
    assert line + "" == line && ReadLines("") == [];
  }

  /** Apart from its licence text, such a line passes the five checks before the tab check. */
  lemma CommentPasses(isWord: char -> bool, a: string, c: char, b: string)
    requires Words(a, b) && c != '\n' && c != '-'
    ensures var line := Comment(a, c, b);
            && FixInclude(line).compliant && FixDoxygen(isWord, line).compliant && FixEmacs(line).compliant
            && FixWhitespace(line).compliant
  {
    var line := Comment(a, c, b);
    CommentCore(a, c, b);
    assert line[0] == '*' && INCLUDE[0] == '#';
    CommentHasNoTag(isWord, a + [c] + b);
    hide TrimRight, TagRange, IsAngleInclude, Contains, Trim;
    CommentIsNotEmacs(a, c, b);
  }

  lemma CommentHasNoTag(isWord: char -> bool, core: string)
    requires core != "" && Letter(core[0]) && core[0] != '\\'
    ensures TagRange(isWord, "* " + core) == None
  {
    var s := "* " + core;
    assert s[0] == '*' && s[1] == ' ' && s[2] == core[0];
    SkipSpacesTo(s, 0, 0);
    SkipSpacesTo(s, 1, 2);
  }

  lemma CommentIsNotEmacs(a: string, c: char, b: string)
    requires Words(a, b) && c != '-'
    ensures FixEmacs(Comment(a, c, b)).compliant
  {
    var line := Comment(a, c, b);
    var t := Trim(IsSpace, line);
    var before, after := TrimSplit(IsSpace, line);
    hide Trim, Contains;
    NoDash(a, c, b);
    assert forall i :: 0 <= i < |t| ==> t[i] == line[|before| + i];
    assert "c-file-style:"[1] == '-' && "py-indent-offset:"[2] == '-';
    if Contains(t, "c-file-style:") {
      ContainsCharacter(t, "c-file-style:", 1);
    }
    if Contains(t, "py-indent-offset:") {
      ContainsCharacter(t, "py-indent-offset:", 2);
    }
  }

  lemma NoDash(a: string, c: char, b: string)
    requires Words(a, b) && c != '-'
    ensures '-' !in Comment(a, c, b)
  {
    assert '-' !in "* " && '-' !in "\n" && '-' !in a && '-' !in b;
  }

  lemma ThirdColumn(n: nat)
    requires n % 4 == 1
    ensures TabWidth(2 + n) == 1
  {
  }

  /** At a column before a multiple of four the tab becomes one blank. */
  lemma CommentExpands(a: string, b: string)
    requires Words(a, b) && |a| % 4 == 1
    ensures Expand(Comment(a, '\t', b), 0) == Comment(a, ' ', b)
  {
    var x, y := "* " + a, b + "\n";
    assert Comment(a, '\t', b) == x + ("\t" + y) && Comment(a, ' ', b) == x + (" " + y);
    ThirdColumn(|a|);
    ExpandBetween(x, y);
  }

  lemma ExpandBetween(x: string, y: string)
    requires '\t' !in x && '\n' !in x && '\r' !in x && '\t' !in y && TabWidth(|x|) == 1
    ensures Expand(x + ("\t" + y), 0) == x + (" " + y)
  {
    hide Expand, ColumnAfter, TabWidth;
    var rest := "\t" + y;
    ExpandConcat(x, rest, 0);
    ExpandPlain(x, 0);
    ColumnPlain(x, 0);
    var head := ExpandHead(rest, |x|);
    assert head == " " && rest[1..] == y;
    ExpandPlain(y, NextColumn(|x|, '\t'));
  }

  lemma OneLineFile(c: Check, line: string)
    requires ReadLines(line) == [line]
    ensures Passes(c, line) <==> FixLine(c, line).compliant
    ensures !FixLine(c, line).compliant && FixLine(c, line).fixed != "" ==> Fixed(c, line) == FixLine(c, line).fixed
  {
    var rest: seq<string> := [line][1..];
    assert rest == [] && [line][0] == line;
    assert Looks(Respects(c), true, line);
    hide FixLine, Looks, ReadLines;
    assert Compliant(c, Respects(c), true, [line]) <==> FixLine(c, line).compliant;
    if !FixLine(c, line).compliant {
      assert FixAll(c, Respects(c), true, [line]) == [FixLine(c, line).fixed];
      var fixed := [FixLine(c, line).fixed];
      assert fixed[1..] == [] && WriteLines(fixed) == fixed[0];
    }
  }

  // ----- licence text

  const PUBLISHED := "published"
  const BY := "by the Free Software Foundation;"

  lemma GplWords()
    ensures Words(PUBLISHED, BY) && |PUBLISHED| == 9 && |BY| == 32
  {
    assert PUBLISHED[0] == 'p' && BY[31] == ';';
    assert forall i :: 0 <= i < 9 ==> PUBLISHED[i] != '\t' && PUBLISHED[i] != '\n' && PUBLISHED[i] != '\r' && PUBLISHED[i] != '-';
    assert forall i :: 0 <= i < 32 ==> BY[i] != '\t' && BY[i] != '\n' && BY[i] != '\r' && BY[i] != '-';
  }

  lemma GplText()
    ensures PUBLISHED + [' '] + BY == GPL_OTHERS[1]
  {
    TwoWords();
    assert GPL_OTHERS[1] == "published by the Free Software Foundation;";
  }

  lemma TwoWords()
    ensures PUBLISHED + [' '] + BY == "published by the Free Software Foundation;"
  {
    hide GPL_OTHERS;
  }

  lemma TabIsNotGpl()
    ensures !IsGpl(PUBLISHED + ['\t'] + BY) && IsGpl(PUBLISHED + [' '] + BY)
  {
    GplWords();
    GplText();
    var core := PUBLISHED + ['\t'] + BY;
    assert core[9] == '\t';
    assert (PUBLISHED + [' '] + BY)[9] == ' ';
    assert |GPL_FIRST| == 68;
    OtherLengths(core);
  }

  lemma OtherLengths(core: string)
    requires |core| == 42
    ensures core in GPL_OTHERS ==> core == GPL_OTHERS[1]
  {
    assert |GPL_OTHERS[0]| == 65 && |GPL_OTHERS[2]| == 63 && |GPL_OTHERS[3]| == 62 && |GPL_OTHERS[4]| == 61;
    assert |GPL_OTHERS[5]| == 44 && |GPL_OTHERS[6]| == 65 && |GPL_OTHERS[7]| == 59 && |GPL_OTHERS[8]| == 73;
  }

  /** A comment line with a tab in it that passes the five other checks. The pipeline only puts a blank
      for the tab, and then the licence check, which comes before the tab check, does not pass. */
  lemma TabMakesLicenceText(isWord: char -> bool) returns (line: string)
    ensures Passes(IncludeQuotes, line) && Passes(DoxygenTags(isWord), line) && Passes(License, line)
    ensures Passes(Emacs, line) && Passes(Whitespace, line)
    ensures Pipeline(isWord, line) == "* " + GPL_OTHERS[1] + "\n" && !Passes(License, Pipeline(isWord, line))
  {
    GplWords();
    GplText();
    TabIsNotGpl();
    line := Comment(PUBLISHED, '\t', BY);
    var done := Comment(PUBLISHED, ' ', BY);
    assert done == "* " + GPL_OTHERS[1] + "\n";
    TabAndBlank(isWord, PUBLISHED, BY);
  }

  lemma TabAndBlank(isWord: char -> bool, a: string, b: string)
    requires Words(a, b) && |a| % 4 == 1 && !IsGpl(a + ['\t'] + b) && IsGpl(a + [' '] + b)
    ensures var line := Comment(a, '\t', b);
            && Passes(IncludeQuotes, line) && Passes(DoxygenTags(isWord), line) && Passes(License, line)
            && Passes(Emacs, line) && Passes(Whitespace, line)
            && Pipeline(isWord, line) == Comment(a, ' ', b) && !Passes(License, Comment(a, ' ', b))
  {
    var line, done := Comment(a, '\t', b), Comment(a, ' ', b);
    CommentIsLine(a, '\t', b);
    CommentIsLine(a, ' ', b);
    CommentPasses(isWord, a, '\t', b);
    CommentCore(a, '\t', b);
    CommentCore(a, ' ', b);
    LicenceIff(line);
    LicenceIff(done);
    CommentExpands(a, b);
    TabIn(a, b);
    TabResult(line, done);
    hide FixInclude, FixDoxygen, FixLicense, FixEmacs, FixWhitespace, FixTabs, ReadLines, Passes, Fixed, Comment, Expand,
         IsGpl, LicenseCore;
    OneLineFile(License, done);
    OneLineFile(Tabs, line);
    LineFivePass(isWord, line);
  }

  lemma LineFivePass(isWord: char -> bool, line: string)
    requires ReadLines(line) == [line]
    requires FixInclude(line).compliant && FixDoxygen(isWord, line).compliant && FixEmacs(line).compliant
    requires FixWhitespace(line).compliant && FixLine(License, line).compliant
    ensures Passes(IncludeQuotes, line) && Passes(DoxygenTags(isWord), line) && Passes(License, line)
    ensures Passes(Emacs, line) && Passes(Whitespace, line) && Pipeline(isWord, line) == Fixed(Tabs, line)
  {
    hide FixInclude, FixDoxygen, FixLicense, FixEmacs, FixWhitespace, ReadLines, Passes, Fixed;
    OneLineFile(IncludeQuotes, line);
    OneLineFile(DoxygenTags(isWord), line);
    OneLineFile(License, line);
    OneLineFile(Emacs, line);
    OneLineFile(Whitespace, line);
    FivePass(isWord, line);
  }

  lemma TabIn(a: string, b: string)
    ensures '\t' in Comment(a, '\t', b) && Comment(a, ' ', b) != ""
  {
    assert Comment(a, '\t', b)[2 + |a|] == '\t';
  }

  lemma TabResult(line: string, done: string)
    requires '\t' in line && Expand(line, 0) == done
    ensures FixLine(Tabs, line) == LineResult(false, done)
  {
  }

  lemma FivePass(isWord: char -> bool, content: string)
    requires Passes(IncludeQuotes, content) && Passes(DoxygenTags(isWord), content) && Passes(License, content)
    requires Passes(Emacs, content) && Passes(Whitespace, content)
    ensures Pipeline(isWord, content) == Fixed(Tabs, content)
  {
    hide Passes, Fixed;
    Untouched(IncludeQuotes, content);
    Untouched(DoxygenTags(isWord), content);
    Untouched(License, content);
    Untouched(Emacs, content);
    Untouched(Whitespace, content);
  }

  // ----- a guard

  /** An ordinary line that the tab fixer makes a guard that switches checking off. */
  lemma TabMakesGuard() returns (line: string)
    ensures !IsOn(line) && !IsOff(line)
    ensures !FixLine(Tabs, line).compliant && IsOff(FixLine(Tabs, line).fixed)
  {
    var rest := "clang-format off";
    line := " " + ("//\t" + rest);
    hide Expand, Trim, IsSpace;
    GuardWord();
    GuardTrim("//\t" + rest);
    GuardTrim("// " + rest);
    NotAGuard("//\t" + rest);
    GuardExpands(rest);
    assert line[3] == '\t';
    assert GUARDS_OFF[0] == "// " + rest;
  }

  lemma GuardWord()
    ensures |"clang-format off"| == 16 && "clang-format off"[15] == 'f' && '\t' !in "clang-format off"
  {
  }

  lemma GuardTrim(g: string)
    requires |g| == 19 && g[0] == '/' && g[18] == 'f'
    ensures Trim(IsSpace, " " + g) == g
  {
    hide TrimRight, TrimLeft, Trim;
    assert " " + g + "" == " " + g;
    TrimRuns(IsSpace, " ", g, "");
  }

  lemma NotAGuard(g: string)
    requires |g| == 19 && g[2] == '\t'
    ensures g !in GUARDS_ON && g !in GUARDS_OFF
  {
    assert |GUARDS_ON[0]| == 18 && |GUARDS_ON[1]| == 18 && |GUARDS_ON[2]| == 9;
    assert GUARDS_OFF[0][2] == ' ' && GUARDS_OFF[1][2] == 'c' && |GUARDS_OFF[2]| == 10;
  }

  lemma GuardExpands(rest: string)
    requires '\t' !in rest
    ensures Expand(" " + ("//\t" + rest), 0) == " " + ("// " + rest)
  {
    assert " " + ("//\t" + rest) == " //" + ("\t" + rest) && " " + ("// " + rest) == " //" + (" " + rest);
    ExpandBetween(" //", rest);
  }
}
