/** What each check asks of a line and what its fixer changes, said of the whole line: without the order in
    which the line is stripped, cut and replaced. */
module StyleRules {
  import opened Common
  import opened StyleText
  import opened StyleChecks
  import opened StylePairs

  /** In an `#include` line every angle bracket becomes a quote and nothing else changes. */
  lemma IncludeChanges(line: string, i: nat)
    requires IsAngleInclude(line) && i < |line|
    ensures !FixInclude(line).compliant && |FixInclude(line).fixed| == |line|
    ensures FixInclude(line).fixed[i] == if line[i] == '<' || line[i] == '>' then '"' else line[i]
  {
    hide IsAngleInclude;
  }

  /** Every occurrence of the tag gets an at sign for its backslash, wherever it stands in the line, and
      nothing else changes. */
  lemma DoxygenChanges(isWord: char -> bool, line: string, i: nat)
    requires !FixDoxygen(isWord, line).compliant && !isWord('\\') && i < |line|
    ensures TagRange(isWord, TrimRight(IsSpace, line)).Some?
    ensures var s := TrimRight(IsSpace, line);
            var (a, b) := TagRange(isWord, s).value;
            && |FixDoxygen(isWord, line).fixed| == |line|
            && FixDoxygen(isWord, line).fixed[i] == if OccursAt(line, s[a..b], i) then '@' else line[i]
  {
    var s := TrimRight(IsSpace, line);
    var (a, b) := TagRange(isWord, s).value;
    TagRangeIff(isWord, s, a, b);
    TagHead(isWord, s, a, b);
    var tag := s[a..b];
    hide TagRange, TrimRight, OccursAt, Replace;
    assert tag == ['\\'] + tag[1..] && "@" + tag[1..] == ['@'] + tag[1..];
    ReplaceHead(line, '\\', '@', tag[1..], i);
  }

  lemma TagHead(isWord: char -> bool, s: string, a: nat, b: nat)
    requires TagRange(isWord, s) == Some((a, b)) && !isWord('\\')
    ensures a + 4 <= b <= |s| && s[a..b][0] == '\\' && '\\' !in s[a..b][1..]
  {
    TagRangeIff(isWord, s, a, b);
    hide TagRange;
    var n: nat, m: nat :| Matches(isWord, s, n, m, a, b);
    assert forall k :: 0 <= k < b - a - 1 ==> s[a..b][1..][k] == s[a + 1 + k];
  }

  /** White space, comment characters and white space, on both sides of a text. The inner white space is
      counted to the outer one where there is no comment character. */
  predicate Around(line: string, b1: string, b2: string, b3: string, text: string, a3: string, a2: string, a1: string) {
    && line == b1 + (b2 + (b3 + text + a3) + a2) + a1
    && All(IsSpace, b1) && All(IsSpace, b3) && All(IsSpace, a3) && All(IsSpace, a1)
    && (forall i :: 0 <= i < |b2| ==> b2[i] == '*' || b2[i] == '#' || b2[i] == '/')
    && (forall i :: 0 <= i < |a2| ==> a2[i] == '*' || a2[i] == '#' || a2[i] == '/')
    && (b2 == "" ==> b3 == "") && (a2 == "" ==> a3 == "")
  }

  ghost predicate Wraps(line: string, text: string) {
    exists b1, b2, b3, a3, a2, a1 :: Around(line, b1, b2, b3, text, a3, a2, a1)
  }

  lemma WrappedIsCore(line: string, b1: string, b2: string, b3: string, text: string, a3: string, a2: string, a1: string)
    requires Around(line, b1, b2, b3, text, a3, a2, a1)
    requires text != "" && Letter(text[0]) && Letter(text[|text| - 1])
    ensures LicenseCore(line) == text
  {
    var inner := b3 + text + a3;
    EndsOf(b3, text, a3);
    EndsOf(b2, inner, a2);
    hide Trim, TrimLeft, TrimRight;
    TrimRuns(IsSpace, b1, b2 + inner + a2, a1);
    TrimRuns(IsComment, b2, inner, a2);
    TrimRuns(IsSpace, b3, text, a3);
  }

  lemma EndsOf(before: string, text: string, after: string)
    requires text != ""
    ensures (before + text + after)[0] == (if before == "" then text[0] else before[0])
    ensures (before + text + after)[|before + text + after| - 1]
         == (if after == "" then text[|text| - 1] else after[|after| - 1])
  {
  }

  lemma CoreIsWrapped(line: string)
    requires LicenseCore(line) != ""
    ensures Wraps(line, LicenseCore(line))
  {
    var b1, b2, b3, a3, a2, a1 := LicenseSplit(line);
    var core := LicenseCore(line);
    hide LicenseCore, Trim, TrimLeft, TrimRight;
    var inner := b3 + core + a3;
    EndsOf(b3, core, a3);
    EndsOf(b2, inner, a2);
    assert Around(line, b1, b2, b3, core, a3, a2, a1);
  }

  lemma GplFirstLetters()
    ensures |GPL_FIRST| == 68 && Letter(GPL_FIRST[0]) && Letter(GPL_FIRST[67])
  {
    Letters();
    assert GPL_FIRST[67] == 'y';
  }

  lemma GplOtherLetters(g: string)
    requires g in GPL_OTHERS
    ensures g != "" && Letter(g[0]) && Letter(g[|g| - 1])
  {
    assert |GPL_OTHERS| == 9;
    OtherStarts();
    OtherEnds();
    var i :| 0 <= i < 9 && GPL_OTHERS[i] == g;
    hide GPL_OTHERS;
  }

  lemma OtherStarts()
    ensures forall i :: 0 <= i < 9 ==> GPL_OTHERS[i] != "" && Letter(GPL_OTHERS[i][0])
  {
    FirstStarts();
    LastStarts();
  }

  lemma FirstStarts()
    ensures forall i :: 0 <= i < 5 ==> GPL_OTHERS[i] != "" && Letter(GPL_OTHERS[i][0])
  {
    assert GPL_OTHERS[0][0] == 'i' && GPL_OTHERS[1][0] == 'p' && GPL_OTHERS[2][0] == 'T';
    assert GPL_OTHERS[3][0] == 'b' && GPL_OTHERS[4][0] == 'M';
  }

  lemma LastStarts()
    ensures forall i :: 5 <= i < 9 ==> GPL_OTHERS[i] != "" && Letter(GPL_OTHERS[i][0])
  {
    assert GPL_OTHERS[5][0] == 'G' && GPL_OTHERS[6][0] == 'Y' && GPL_OTHERS[7][0] == 'a' && GPL_OTHERS[8][0] == 'F';
  }

  lemma OtherEnds()
    ensures forall i :: 0 <= i < 9 ==> GPL_OTHERS[i] != "" && Letter(GPL_OTHERS[i][|GPL_OTHERS[i]| - 1])
  {
  }

  lemma FirstIsNoOther(g: string)
    requires g in GPL_OTHERS
    ensures g != GPL_FIRST
  {
    assert |GPL_FIRST| == 68;
    assert |GPL_OTHERS[0]| == 65 && |GPL_OTHERS[1]| == 42 && |GPL_OTHERS[2]| == 63 && |GPL_OTHERS[3]| == 62;
    assert |GPL_OTHERS[4]| == 61 && |GPL_OTHERS[5]| == 44 && |GPL_OTHERS[6]| == 65 && |GPL_OTHERS[7]| == 59;
    assert |GPL_OTHERS[8]| == 73;
  }

  lemma WrappedGpl(line: string, g: string)
    requires IsGpl(g) && Wraps(line, g)
    ensures LicenseCore(line) == g
  {
    GplFirstLetters();
    if g in GPL_OTHERS {
      GplOtherLetters(g);
    }
    hide LicenseCore, GPL_OTHERS, IsSpace;
    var b1, b2, b3, a3, a2, a1 :| Around(line, b1, b2, b3, g, a3, a2, a1);
    WrappedIsCore(line, b1, b2, b3, g, a3, a2, a1);
  }

  lemma LicenceCases(line: string)
    ensures var core, r := LicenseCore(line), FixLicense(line);
            && (r.compliant <==> core != GPL_FIRST && core !in GPL_OTHERS)
            && (core in GPL_OTHERS ==> r.fixed == "")
            && (core == GPL_FIRST ==> r.fixed != "")
  {
    if LicenseCore(line) == GPL_FIRST {
      var before, after := LicenseReplaced(line);
      assert (before + SPDX + after)[|before|] == SPDX[0];
    }
    hide LicenseCore;
    if LicenseCore(line) in GPL_OTHERS {
      FirstIsNoOther(LicenseCore(line));
    }
  }

  /** The licence check finds exactly the lines that hold one line of the licence text, with nothing but
      white space, comment characters and white space around it. The first line of the text is replaced,
      the others are deleted. */
  lemma LicenceTextIff(line: string)
    ensures !FixLicense(line).compliant <==> Wraps(line, GPL_FIRST) || exists g :: g in GPL_OTHERS && Wraps(line, g)
    ensures !FixLicense(line).compliant && FixLicense(line).fixed == "" <==> exists g :: g in GPL_OTHERS && Wraps(line, g)
  {
    var core := LicenseCore(line);
    hide LicenseCore, FixLicense, Wraps;
    GplFirstLetters();
    LicenceCases(line);
    if core == GPL_FIRST || core in GPL_OTHERS {
      if core in GPL_OTHERS {
        GplOtherLetters(core);
      }
      CoreIsWrapped(line);
    }
    if Wraps(line, GPL_FIRST) {
      WrappedGpl(line, GPL_FIRST);
    }
    hide GPL_OTHERS;
    if g :| g in GPL_OTHERS && Wraps(line, g) {
      WrappedGpl(line, g);
      FirstIsNoOther(g);
    }
  }

  /** The emacs check finds the two patterns anywhere in the line. */
  lemma EmacsIff(line: string)
    ensures FixEmacs(line).compliant <==> !Contains(line, "c-file-style:") && !Contains(line, "py-indent-offset:")
    ensures !FixEmacs(line).compliant ==> FixEmacs(line).fixed == ""
  {
    hide Contains, Trim;
    TrimContains(line, "c-file-style:");
    TrimContains(line, "py-indent-offset:");
  }

  /** The tab check finds exactly the lines that expanding changes. */
  lemma TabsIff(line: string)
    ensures FixTabs(line).compliant <==> Expand(line, 0) == line
  {
    ExpandCharacters(line, 0);
    if '\t' !in line {
      ExpandPlain(line, 0);
    }
  }
}
