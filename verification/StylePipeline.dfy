/** All six fixers one after the other, in the order of `CHECKS`, and what the checks say afterwards. */
module StylePipeline {
  import opened StyleText
  import opened StyleChecks
  import opened StyleLines
  import opened StyleFiles
  import opened StylePairs

  /** Only the white space check ignores the clang-format guards. */
  predicate Respects(c: Check) {
    !c.Whitespace?
  }

  function Fixed(c: Check, content: string): string {
    FixedFile(c, Respects(c), content)
  }

  predicate Passes(c: Check, content: string) {
    FileComplies(c, Respects(c), content)
  }

  function BeforeTabs(isWord: char -> bool, content: string): string {
    var a := Fixed(License, Fixed(DoxygenTags(isWord), Fixed(IncludeQuotes, content)));
    Fixed(Whitespace, Fixed(Emacs, a))
  }

  function Pipeline(isWord: char -> bool, content: string): string {
    Fixed(Tabs, BeforeTabs(isWord, content))
  }

  // ----- one fixer and another check, over whole files

  /** The fixer neither deletes a line nor makes or breaks a guard. */
  predicate GuardNeutralAt(c: Check, line: string) {
    var fixed := FixLine(c, line).fixed;
    !FixLine(c, line).compliant ==>
      fixed != "" && (IsOn(fixed) <==> IsOn(line)) && (IsOff(fixed) <==> IsOff(line))
  }

  ghost predicate GuardNeutral(c: Check) {
    forall line :: GuardNeutralAt(c, line)
  }

  lemma WhitespaceIsNeutral()
    ensures GuardNeutral(Whitespace)
  {
    hide IsOn, IsOff, FixWhitespace;
    forall line ensures GuardNeutralAt(Whitespace, line) {
      WhitespaceUnseenByGuards(line);
    }
  }

  lemma WhitespaceUnseenByGuards(line: string)
    ensures var fixed := FixWhitespace(line).fixed;
            fixed != "" && (IsOn(fixed) <==> IsOn(line)) && (IsOff(fixed) <==> IsOff(line))
  {
    var fixed := FixWhitespace(line).fixed;
    WhitespaceFixed(line);
    assert fixed != "";
    hide TrimRight, TrimLeft, FixWhitespace;
    assert Trim(IsSpace, fixed) == Trim(IsSpace, line);
  }

  /** What check `d` knows before one line in the fixed file, where it is enabled if `second`, and in the
      file before, where it was enabled if `first`. */
  lemma OneLineKept(c: Check, respectC: bool, enabledC: bool, d: Check, respectD: bool,
                    first: bool, second: bool, line: string)
    requires KeepsLine(c, d, line) && (second ==> first)
    requires (respectC && (respectD ==> enabledC == first)) || !respectD || GuardNeutralAt(c, line)
    requires Looks(respectD, first, line) ==> FixLine(d, line).compliant
    ensures var fixed := FixOne(c, respectC, enabledC, line);
            && (fixed != "" && Looks(respectD, second, fixed) ==> FixLine(d, fixed).compliant)
            && (fixed != "" && Enabled(respectD, second, fixed) ==> Enabled(respectD, first, line))
            && (fixed == "" && line != "" && second ==> Enabled(respectD, first, line))
  {
    hide FixLine, IsOn, IsOff;
    if respectC && respectD {
      EnabledOnlyIfBefore(c, true, first, second, line);
    }
  }

  lemma {:induction false} LinesKept(c: Check, respectC: bool, enabledC: bool, d: Check, respectD: bool,
                                     first: bool, second: bool, lines: seq<string>)
    requires Keeps(c, d) && (second ==> first)
    requires (respectC && (respectD ==> enabledC == first)) || !respectD || GuardNeutral(c)
    requires forall i :: 0 <= i < |lines| ==> lines[i] != ""
    requires Compliant(d, respectD, first, lines)
    ensures Compliant(d, respectD, second, NonEmpty(FixAll(c, respectC, enabledC, lines)))
    decreases |lines|
  {
    if lines != [] {
      var line, rest := lines[0], lines[1..];
      assert KeepsLine(c, d, line) && (GuardNeutral(c) ==> GuardNeutralAt(c, line));
      OneLineKept(c, respectC, enabledC, d, respectD, first, second, line);
      var fixed := FixOne(c, respectC, enabledC, line);
      var nextC, next := Enabled(respectC, enabledC, line), Enabled(respectD, first, line);
      var next2 := if fixed == "" then second else Enabled(respectD, second, fixed);
      hide FixOne, FixLine, Looks, KeepsLine, Keeps, GuardNeutral, GuardNeutralAt;
      LinesKept(c, respectC, nextC, d, respectD, next, next2, rest);
      FixAllStep(c, respectC, enabledC, lines);
    }
  }

  lemma FixAllStep(c: Check, respect: bool, enabled: bool, lines: seq<string>)
    requires lines != []
    ensures var fixed := FixOne(c, respect, enabled, lines[0]);
            var more := FixAll(c, respect, Enabled(respect, enabled, lines[0]), lines[1..]);
            NonEmpty(FixAll(c, respect, enabled, lines)) == (if fixed == "" then [] else [fixed]) + NonEmpty(more)
  {
    hide FixOne, Enabled;
    var fixed := FixOne(c, respect, enabled, lines[0]);
    var more := FixAll(c, respect, Enabled(respect, enabled, lines[0]), lines[1..]);
    assert ([fixed] + more)[1..] == more;
  }

  /** If no line loses check `d` to fixer `c`, no file does, whatever the guards do: a guard may appear,
      and a line that was never looked at may be seen, but only where `d` was enabled before. */
  lemma FixKeeps(c: Check, respectC: bool, d: Check, respectD: bool, content: string)
    requires Keeps(c, d) && (respectC || !respectD || GuardNeutral(c))
    requires FileComplies(d, respectD, content)
    ensures FileComplies(d, respectD, FixedFile(c, respectC, content))
  {
    ReadIsWell(content);
    FixedFileLines(c, respectC, content);
    LinesKept(c, respectC, true, d, respectD, true, true, ReadLines(content));
  }

  lemma Later(c: Check, d: Check, content: string)
    requires Keeps(c, d) && Passes(d, content)
    ensures Passes(d, Fixed(c, content))
  {
    WhitespaceIsNeutral();
    FixKeeps(c, Respects(c), d, Respects(d), content);
  }

  /** After a run of the white space fixer and then of the tab fixer the file passes both checks. */
  lemma WhitespaceThenTabs(content: string)
    ensures var done := Fixed(Tabs, Fixed(Whitespace, content)); Passes(Whitespace, done) && Passes(Tabs, done)
  {
    FixThenCheckPasses(Whitespace, false, content);
    FixThenCheckPasses(Tabs, true, Fixed(Whitespace, content));
    TabsKeep(c => false);
    Later(Tabs, Whitespace, Fixed(Whitespace, content));
  }

  // ----- the licence check after the tab fixer

  /** No expanded line that the licence check looks at becomes licence text. */
  predicate NoLicenceAppears(first: bool, second: bool, lines: seq<string>) {
    forall i :: 0 <= i < |lines| && '\t' in lines[i]
                && EnabledAfter(true, second, FixAll(Tabs, true, first, lines)[..i]) ==>
      !IsGpl(LicenseCore(Expand(lines[i], 0)))
  }

  lemma LicenceIff(line: string)
    ensures FixLine(License, line).compliant <==> !IsGpl(LicenseCore(line))
    ensures IsOn(line) || IsOff(line) ==> !IsGpl(LicenseCore(line))
  {
    hide IsGpl, LicenseCore;
    if IsOn(line) || IsOff(line) {
      GuardCore(line);
      ShortIsNotGpl(LicenseCore(line));
    }
  }

  lemma GuardCore(line: string)
    requires IsOn(line) || IsOff(line)
    ensures |LicenseCore(line)| <= 20
  {
    assert |GUARDS_ON[0]| == 18 && |GUARDS_ON[1]| == 18 && |GUARDS_ON[2]| == 9;
    assert |GUARDS_OFF[0]| == 19 && |GUARDS_OFF[1]| == 19 && |GUARDS_OFF[2]| == 10;
    assert |Trim(IsSpace, line)| <= 20;
    TrimShorter(IsComment, Trim(IsSpace, line));
    TrimShorter(IsSpace, Trim(IsComment, Trim(IsSpace, line)));
  }

  lemma TabsOne(first: bool, line: string)
    ensures FixOne(Tabs, true, first, line)
         == if Looks(true, first, line) && '\t' in line then Expand(line, 0) else line
  {
    hide Looks, Expand;
  }

  lemma TabLine(first: bool, second: bool, line: string)
    requires second ==> first
    requires Looks(true, first, line) ==> FixLine(License, line).compliant
    ensures var fixed := FixOne(Tabs, true, first, line);
            (Looks(true, second, fixed) ==> FixLine(License, fixed).compliant) <==>
            ('\t' in line && second ==> !IsGpl(LicenseCore(Expand(line, 0))))
  {
    hide FixOne, FixLine, IsGpl, LicenseCore, IsOn, IsOff, Expand;
    TabsOne(first, line);
    LicenceIff(FixOne(Tabs, true, first, line));
    LicenceIff(Expand(line, 0));
    if IsOff(line) {
      TabsKeepGuard(line);
    }
  }

  lemma {:induction false} LicenceAfterTabs(first: bool, second: bool, lines: seq<string>)
    requires (second ==> first) && Compliant(License, true, first, lines)
    ensures Compliant(License, true, second, FixAll(Tabs, true, first, lines)) <==> NoLicenceAppears(first, second, lines)
    decreases |lines|
  {
    if lines != [] {
      var line := lines[0];
      var fixed, next := FixOne(Tabs, true, first, line), Enabled(true, first, line);
      TabLine(first, second, line);
      EnabledOnlyIfBefore(Tabs, true, first, second, line);
      hide FixOne, Enabled, Looks, FixLine, NoLicenceAppears;
      LicenceAfterTabs(next, Enabled(true, second, fixed), lines[1..]);
      AppearsStep(first, second, lines);
      CompliantStep(second, fixed, FixAll(Tabs, true, next, lines[1..]));
    }
  }

  lemma CompliantStep(second: bool, fixed: string, more: seq<string>)
    ensures Compliant(License, true, second, [fixed] + more) <==>
            (Looks(true, second, fixed) ==> FixLine(License, fixed).compliant) &&
            Compliant(License, true, Enabled(true, second, fixed), more)
  {
    hide Looks, FixLine, Enabled;
    assert ([fixed] + more)[1..] == more;
  }

  lemma AppearsStep(first: bool, second: bool, lines: seq<string>)
    requires lines != []
    ensures var fixed := FixOne(Tabs, true, first, lines[0]);
            NoLicenceAppears(first, second, lines) <==>
            ('\t' in lines[0] && second ==> !IsGpl(LicenseCore(Expand(lines[0], 0)))) &&
            NoLicenceAppears(Enabled(true, first, lines[0]), Enabled(true, second, fixed), lines[1..])
  {
    var fixed, next := FixOne(Tabs, true, first, lines[0]), Enabled(true, first, lines[0]);
    var all, more := FixAll(Tabs, true, first, lines), FixAll(Tabs, true, next, lines[1..]);
    assert all == [fixed] + more;
    hide FixOne, Enabled, FixAll, IsGpl, LicenseCore, Expand;
    assert EnabledAfter(true, second, all[..0]) == second;
    forall i | 0 < i < |lines|
      ensures EnabledAfter(true, second, all[..i])
           == EnabledAfter(true, Enabled(true, second, fixed), more[..i - 1]) && lines[i] == lines[1..][i - 1]
    {
      assert all[..i] == [fixed] + more[..i - 1];
      assert all[..i][1..] == more[..i - 1];
    }
    var rest := lines[1..];
    if NoLicenceAppears(first, second, lines) {
      forall i | 0 <= i < |rest| && '\t' in rest[i] && EnabledAfter(true, Enabled(true, second, fixed), more[..i])
        ensures !IsGpl(LicenseCore(Expand(rest[i], 0)))
      {
        assert rest[i] == lines[i + 1];
      }
    }
  }

  lemma {:induction false} NoneEmpty(lines: seq<string>)
    requires forall i :: 0 <= i < |lines| ==> lines[i] != ""
    ensures NonEmpty(lines) == lines
    decreases |lines|
  {
    if lines != [] {
      NoneEmpty(lines[1..]);
    }
  }

  /** The tab fixer deletes no line. */
  lemma {:induction false} TabsDeleteNothing(enabled: bool, lines: seq<string>)
    requires forall i :: 0 <= i < |lines| ==> lines[i] != ""
    ensures forall i :: 0 <= i < |lines| ==> FixAll(Tabs, true, enabled, lines)[i] != ""
    decreases |lines|
  {
    if lines != [] {
      ExpandCharacters(lines[0], 0);
      var next := Enabled(true, enabled, lines[0]);
      hide Enabled, Looks, Expand;
      TabsDeleteNothing(next, lines[1..]);
    }
  }

  lemma {:induction false} CompliantUnchanged(c: Check, respect: bool, enabled: bool, lines: seq<string>)
    requires Compliant(c, respect, enabled, lines)
    ensures FixAll(c, respect, enabled, lines) == lines
    decreases |lines|
  {
    if lines != [] {
      CompliantUnchanged(c, respect, Enabled(respect, enabled, lines[0]), lines[1..]);
    }
  }

  /** A file that passes the licence check passes it after the tab fixer exactly when no tab stands
      where blanks make licence text. */
  lemma TabsKeepLicenceIff(content: string)
    requires Passes(License, content)
    ensures Passes(License, Fixed(Tabs, content)) <==> NoLicenceAppears(true, true, ReadLines(content))
  {
    var lines := ReadLines(content);
    ReadIsWell(content);
    FixedFileLines(Tabs, true, content);
    TabsDeleteNothing(true, lines);
    NoneEmpty(FixAll(Tabs, true, true, lines));
    LicenceAfterTabs(true, true, lines);
    if Passes(Tabs, content) {
      CompliantUnchanged(Tabs, true, true, lines);
    }
  }

  // ----- the whole pipeline

  lemma BeforeTabsPasses(isWord: char -> bool, content: string)
    ensures var b := BeforeTabs(isWord, content);
            && Passes(IncludeQuotes, b) && Passes(DoxygenTags(isWord), b) && Passes(License, b)
            && Passes(Emacs, b) && Passes(Whitespace, b)
  {
    hide FixedFile, FileComplies, Keeps, Fixed, Passes;
    LaterKeepsEarlier(isWord);
    var i := Fixed(IncludeQuotes, content);
    var d := Fixed(DoxygenTags(isWord), i);
    var l := Fixed(License, d);
    var e := Fixed(Emacs, l);
    FixPasses(IncludeQuotes, content);
    FixPasses(DoxygenTags(isWord), i);
    Later(DoxygenTags(isWord), IncludeQuotes, i);
    FixPasses(License, d);
    Later(License, IncludeQuotes, d);
    Later(License, DoxygenTags(isWord), d);
    FixPasses(Emacs, l);
    Later(Emacs, IncludeQuotes, l);
    Later(Emacs, DoxygenTags(isWord), l);
    Later(Emacs, License, l);
    FixPasses(Whitespace, e);
    Later(Whitespace, IncludeQuotes, e);
    Later(Whitespace, DoxygenTags(isWord), e);
    Later(Whitespace, License, e);
    Later(Whitespace, Emacs, e);
  }

  lemma FixPasses(c: Check, content: string)
    ensures Passes(c, Fixed(c, content))
  {
    FixThenCheckPasses(c, Respects(c), content);
  }

  /** After one run of all fixers five checks pass, and the licence check passes exactly when no tab of
      the file that the tab fixer reads stands where blanks make licence text. */
  lemma PipelinePasses(isWord: char -> bool, content: string)
    ensures var done := Pipeline(isWord, content);
            && Passes(IncludeQuotes, done) && Passes(DoxygenTags(isWord), done)
            && Passes(Emacs, done) && Passes(Whitespace, done) && Passes(Tabs, done)
            && (Passes(License, done) <==> NoLicenceAppears(true, true, ReadLines(BeforeTabs(isWord, content))))
  {
    var b := BeforeTabs(isWord, content);
    BeforeTabsPasses(isWord, content);
    hide FixedFile, FileComplies, Keeps, Fixed, Passes, BeforeTabs, NoLicenceAppears;
    LaterKeepsEarlier(isWord);
    FixPasses(Tabs, b);
    Later(Tabs, IncludeQuotes, b);
    Later(Tabs, DoxygenTags(isWord), b);
    Later(Tabs, Emacs, b);
    Later(Tabs, Whitespace, b);
    TabsKeepLicenceIff(b);
  }

  predicate PassesAll(isWord: char -> bool, content: string) {
    && Passes(IncludeQuotes, content) && Passes(DoxygenTags(isWord), content) && Passes(License, content)
    && Passes(Emacs, content) && Passes(Whitespace, content) && Passes(Tabs, content)
  }

  lemma Untouched(c: Check, content: string)
    requires Passes(c, content)
    ensures Fixed(c, content) == content
  {
  }

  lemma PassingStays(isWord: char -> bool, content: string)
    requires PassesAll(isWord, content)
    ensures Pipeline(isWord, content) == content
  {
  }

  /** Where one run can fail, a second one repairs: after two runs all six checks pass, and a third run
      changes nothing. */
  lemma TwoRunsSuffice(isWord: char -> bool, content: string)
    ensures var done := Pipeline(isWord, Pipeline(isWord, content));
            PassesAll(isWord, done) && Pipeline(isWord, done) == done
  {
    var a := Pipeline(isWord, content);
    PipelinePasses(isWord, content);
    hide FixedFile, FileComplies, Keeps, Fixed, Passes, NoLicenceAppears;
    Untouched(IncludeQuotes, a);
    Untouched(DoxygenTags(isWord), a);
    var l := Fixed(License, a);
    LaterKeepsEarlier(isWord);
    LicenseKeeps(isWord);
    FixPasses(License, a);
    Later(License, IncludeQuotes, a);
    Later(License, DoxygenTags(isWord), a);
    Later(License, Emacs, a);
    Later(License, Whitespace, a);
    Later(License, Tabs, a);
    Untouched(Emacs, l);
    Untouched(Whitespace, l);
    Untouched(Tabs, l);
    PassingStays(isWord, l);
  }
}
