/** The line checks of check-style-clang-format.py that need nothing but the line. */
module StyleChecks {
  import opened Common
  import opened StyleText

  /** `isWord` says which characters match `\w`. */
  datatype Check = IncludeQuotes | DoxygenTags(isWord: char -> bool) | License | Emacs | Whitespace | Tabs

  /** Whether the line complies, and the line to put in its place if it does not. */
  datatype LineResult = LineResult(compliant: bool, fixed: string)

  // ----- clang-format guards

  const GUARDS_ON := ["// clang-format on", "# cmake-format: on", "# fmt: on"]
  const GUARDS_OFF := ["// clang-format off", "# cmake-format: off", "# fmt: off"]

  predicate IsOn(line: string) {
    Trim(IsSpace, line) in GUARDS_ON
  }

  predicate IsOff(line: string) {
    Trim(IsSpace, line) in GUARDS_OFF
  }

  // ----- include quotes

  const INCLUDE := "#include <ns3/"

  /** The regular expression `^#include <ns3/.*\.h>`. */
  predicate IsAngleInclude(line: string) {
    INCLUDE <= line &&
    exists k :: |INCLUDE| <= k <= |line| && OccursAt(line, ".h>", k) && '\n' !in line[|INCLUDE|..k]
  }

  function FixInclude(line: string): LineResult {
    if IsAngleInclude(line) then LineResult(false, ReplaceChar(ReplaceChar(line, '<', '"'), '>', '"'))
    else LineResult(true, line)
  }

  // ----- Doxygen tags

  const IGNORED_WORDS := ["\\dots", "\\langle", "\\quad"]

  function SkipSpaces(s: string, i: nat): (j: nat)
    requires i <= |s|
    ensures i <= j <= |s| && (j < |s| ==> !IsSpace(s[j])) && forall k :: i <= k < j ==> IsSpace(s[k])
    decreases |s| - i
  {
    if i < |s| && IsSpace(s[i]) then SkipSpaces(s, i + 1) else i
  }

  function SkipWord(isWord: char -> bool, s: string, i: nat): (j: nat)
    requires i <= |s|
    ensures i <= j <= |s| && (forall k :: i <= k < j ==> isWord(s[k]) && !IsSpace(s[k]))
    decreases |s| - i
  {
    if i < |s| && isWord(s[i]) && !IsSpace(s[i]) then SkipWord(isWord, s, i + 1) else i
  }

  // The end of the comment token that the line starts with: a star, a slash and two stars, or three slashes.
  function CommentEnd(s: string): (r: Option<nat>)
    ensures r.Some? ==> r.value <= |s| && forall k :: 0 <= k < r.value ==> IsSpace(s[k]) || s[k] in "*/"
  {
    var i := SkipSpaces(s, 0);
    if i < |s| && s[i] == '*' then Some(i + 1)
    else if i + 3 <= |s| && (s[i..i + 3] == "/**" || s[i..i + 3] == "///") then
      assert s[i..i + 3][0] in "*/" && s[i..i + 3][1] in "*/" && s[i..i + 3][2] in "*/";
      Some(i + 3)
    else None
  }

  /** Where the tag begins and ends: after the token a backslash and at least three word characters,
      and then white space or the end. */
  function TagRange(isWord: char -> bool, s: string): (r: Option<(nat, nat)>)
    ensures r.Some? ==> r.value.0 + 4 <= r.value.1 <= |s| && s[r.value.0] == '\\'
    ensures r.Some? ==> forall k :: 0 <= k < r.value.0 ==> IsSpace(s[k]) || s[k] in "*/"
    ensures r.Some? ==> forall k :: r.value.0 <= k < r.value.1 ==> !IsSpace(s[k])
  {
    match CommentEnd(s)
    case None => None
    case Some(token) =>
      var i := SkipSpaces(s, token);
      if i < |s| && s[i] == '\\' then
        var j := SkipWord(isWord, s, i + 1);
        if j >= i + 4 && (j == |s| || IsSpace(s[j])) then Some((i, j)) else None
      else None
  }

  /** The regular expression itself: white space up to `a`, a comment token up to `b`, white space up to
      `i`, there a backslash, at least three word characters up to `j`, and white space or the end. */
  predicate Matches(isWord: char -> bool, s: string, a: nat, b: nat, i: nat, j: nat) {
    && a < b <= i && i + 4 <= j <= |s|
    && (forall k :: 0 <= k < a ==> IsSpace(s[k]))
    && ((b == a + 1 && s[a] == '*') || (b == a + 3 && (s[a..b] == "/**" || s[a..b] == "///")))
    && (forall k :: b <= k < i ==> IsSpace(s[k])) && s[i] == '\\'
    && (forall k :: i < k < j ==> isWord(s[k]) && !IsSpace(s[k]))
    && (j == |s| || IsSpace(s[j]))
  }

  lemma {:induction false} SkipSpacesTo(s: string, from: nat, i: nat)
    requires from <= i < |s| && !IsSpace(s[i]) && forall k :: from <= k < i ==> IsSpace(s[k])
    ensures SkipSpaces(s, from) == i
    decreases i - from
  {
    if from < i {
      SkipSpacesTo(s, from + 1, i);
    }
  }

  lemma {:induction false} SkipWordTo(isWord: char -> bool, s: string, from: nat, j: nat)
    requires from <= j <= |s| && (j == |s| || IsSpace(s[j]))
    requires forall k :: from <= k < j ==> isWord(s[k]) && !IsSpace(s[k])
    ensures SkipWord(isWord, s, from) == j
    decreases j - from
  {
    if from < j {
      SkipWordTo(isWord, s, from + 1, j);
    }
  }

  lemma TokenFound(isWord: char -> bool, s: string, a: nat, b: nat, i: nat, j: nat)
    requires Matches(isWord, s, a, b, i, j)
    ensures CommentEnd(s) == Some(b)
  {
    assert s[a..b][0] == s[a];
    assert "/**"[0] == '/' && "///"[0] == '/' && !IsSpace('/') && !IsSpace('*');
    SkipSpacesTo(s, 0, a);
  }

  lemma MatchFound(isWord: char -> bool, s: string, a: nat, b: nat, i: nat, j: nat)
    requires Matches(isWord, s, a, b, i, j)
    ensures TagRange(isWord, s) == Some((i, j))
  {
    TokenFound(isWord, s, a, b, i, j);
    hide CommentEnd;
    assert !IsSpace('\\');
    SkipSpacesTo(s, b, i);
    SkipWordTo(isWord, s, i + 1, j);
  }

  /** The scanner finds exactly what the regular expression matches. */
  lemma TagRangeIff(isWord: char -> bool, s: string, i: nat, j: nat)
    ensures TagRange(isWord, s) == Some((i, j)) <==> exists a: nat, b: nat :: Matches(isWord, s, a, b, i, j)
  {
    if TagRange(isWord, s) == Some((i, j)) {
      assert Matches(isWord, s, SkipSpaces(s, 0), CommentEnd(s).value, i, j);
    }
    hide Matches, TagRange;
    if a: nat, b: nat :| Matches(isWord, s, a, b, i, j) {
      MatchFound(isWord, s, a, b, i, j);
    }
  }

  function FixDoxygen(isWord: char -> bool, line: string): LineResult {
    var stripped := TrimRight(IsSpace, line);
    match TagRange(isWord, stripped)
    case None => LineResult(true, line)
    case Some((i, j)) =>
      var tag := stripped[i..j];
      if tag in IGNORED_WORDS then LineResult(true, line)
      else LineResult(false, Replace(line, tag, "@" + tag[1..]))
  }

  // ----- license

  const GPL_FIRST := "This program is free software; " + "you can redistribute it and/or modify"

  const GPL_OTHERS := [
    "it under the terms of the GNU " + "General Public License version 2 as",
    "published by the Free Software Foundation;",
    "This program is distributed " + "in the hope that it will be useful,",
    "but WITHOUT ANY WARRANTY; " + "without even the implied warranty of",
    "MERCHANTABILITY or FITNESS FOR " + "A PARTICULAR PURPOSE.  See the",
    "GNU General Public License for more details.",
    "You should have received a copy " + "of the GNU General Public License",
    "along with this program; if not, " + "write to the Free Software",
    "Foundation, Inc., 59 Temple Place, " + "Suite 330, Boston, MA  02111-1307  USA"
  ]

  const SPDX := "SPDX-License-Identifier: GPL-2.0-only"

  predicate IsComment(c: char) {
    c == '*' || c == '#' || c == '/'
  }

  /** The line without white space and without comment characters around it. */
  function LicenseCore(line: string): string {
    Trim(IsSpace, Trim(IsComment, Trim(IsSpace, line)))
  }

  predicate IsGpl(core: string) {
    core == GPL_FIRST || core in GPL_OTHERS
  }

  function FixLicense(line: string): LineResult {
    var core := LicenseCore(line);
    if !IsGpl(core) then LineResult(true, line)
    else if core == GPL_FIRST then LineResult(false, Replace(line, core, SPDX))
    else LineResult(false, "")
  }

  // ----- emacs, white space, tabs

  function FixEmacs(line: string): LineResult {
    var stripped := Trim(IsSpace, line);
    if Contains(stripped, "c-file-style:") || Contains(stripped, "py-indent-offset:") then LineResult(false, "")
    else LineResult(true, line)
  }

  function FixWhitespace(line: string): LineResult {
    var fixed := TrimRight(IsSpace, line) + "\n";
    LineResult(fixed == line, fixed)
  }

  function FixTabs(line: string): LineResult {
    if '\t' in line then LineResult(false, Expand(line, 0)) else LineResult(true, line)
  }

  function FixLine(c: Check, line: string): LineResult {
    match c
    case IncludeQuotes => FixInclude(line)
    case DoxygenTags(isWord) => FixDoxygen(isWord, line)
    case License => FixLicense(line)
    case Emacs => FixEmacs(line)
    case Whitespace => FixWhitespace(line)
    case Tabs => FixTabs(line)
  }

  // ----- a fixed line complies

  /** A line complies with the white space check exactly when it ends with a line break that no white
      space comes before. */
  lemma WhitespaceIff(line: string)
    ensures FixWhitespace(line).compliant <==>
            line != "" && line[|line| - 1] == '\n' && TightRight(IsSpace, line[..|line| - 1])
  {
    TrimRightSplit(IsSpace, line);
    if line != "" && line[|line| - 1] == '\n' && TightRight(IsSpace, line[..|line| - 1]) {
      assert line == line[..|line| - 1] + "\n";
      TrimRightRun(IsSpace, line[..|line| - 1], "\n");
    }
  }

  lemma WhitespaceFixed(line: string)
    ensures TrimRight(IsSpace, FixWhitespace(line).fixed) == TrimRight(IsSpace, line)
    ensures FixLine(Whitespace, FixWhitespace(line).fixed).compliant
  {
    TrimRightSplit(IsSpace, line);
    TrimRightRun(IsSpace, TrimRight(IsSpace, line), "\n");
  }

  lemma IncludeFixed(line: string)
    requires IsAngleInclude(line)
    ensures FixLine(IncludeQuotes, FixInclude(line).fixed).compliant
  {
    assert line[9] == INCLUDE[9] == '<';
    assert FixInclude(line).fixed[9] == '"';
  }

  /** The token and the white space after it end at the same index in both texts. */
  lemma SameStart(isWord: char -> bool, s: string, t: string, i: nat)
    requires TagRange(isWord, s).Some? && TagRange(isWord, s).value.0 == i
    requires i < |t| && t[..i] == s[..i] && t[i] == '@'
    ensures TagRange(isWord, t) == None
  {
    var token := CommentEnd(s).value;
    assert forall k :: 0 <= k < i ==> t[k] == s[k];
    SkipSpacesSame(s, t, 0, i);
    var start := SkipSpaces(s, 0);
    if s[start] != '*' {
      assert s[start..start + 3] == t[start..start + 3];
    }
    assert CommentEnd(t) == Some(token);
    SkipSpacesSame(s, t, token, i);
  }

  lemma {:induction false} SkipSpacesSame(s: string, t: string, from: nat, i: nat)
    requires from <= i < |s| && i < |t| && (forall k :: 0 <= k < i ==> t[k] == s[k])
    requires !IsSpace(s[i]) && !IsSpace(t[i])
    ensures SkipSpaces(t, from) == SkipSpaces(s, from) <= i
    decreases i - from
  {
    if from < i && IsSpace(s[from]) {
      SkipSpacesSame(s, t, from + 1, i);
    }
  }

  /** The fixed line keeps everything before the tag. */
  lemma DoxygenFixedStart(isWord: char -> bool, line: string) returns (i: nat)
    requires !FixDoxygen(isWord, line).compliant
    ensures TagRange(isWord, TrimRight(IsSpace, line)).Some?
    ensures i == TagRange(isWord, TrimRight(IsSpace, line)).value.0
    ensures i < |line| && i < |FixDoxygen(isWord, line).fixed|
    ensures FixDoxygen(isWord, line).fixed[..i] == line[..i] && FixDoxygen(isWord, line).fixed[i] == '@'
  {
    var stripped := TrimRight(IsSpace, line);
    TrimRightSplit(IsSpace, line);
    var (a, b) := TagRange(isWord, stripped).value;
    i := a;
    TagReplaced(line, a, b);
    assert stripped[a..b] == line[a..b];
  }

  lemma TagReplaced(line: string, a: nat, b: nat)
    requires a < b <= |line| && forall k :: 0 <= k < a ==> line[k] != line[a]
    ensures var fixed := Replace(line, line[a..b], "@" + line[a..b][1..]);
            a < |fixed| && fixed[..a] == line[..a] && fixed[a] == '@'
  {
    var tag := line[a..b];
    assert line == line[..a] + tag + line[b..];
    ReplaceFirst(line[..a], tag, line[b..], "@" + tag[1..]);
  }

  lemma DoxygenFixed(isWord: char -> bool, line: string)
    requires !FixDoxygen(isWord, line).compliant
    ensures FixLine(DoxygenTags(isWord), FixDoxygen(isWord, line).fixed).compliant
  {
    var i := DoxygenFixedStart(isWord, line);
    var fixed := FixDoxygen(isWord, line).fixed;
    var s, t := TrimRight(IsSpace, line), TrimRight(IsSpace, fixed);
    TrimRightSplit(IsSpace, line);
    TrimRightTail(IsSpace, fixed);
    hide TrimRight;
    assert !IsSpace('@');
    assert t[..i] == fixed[..i] == line[..i] == s[..i];
    SameStart(isWord, s, t, i);
  }

  /** The core with what the three strips take off: white space, comment characters, white space. */
  lemma LicenseSplit(line: string) returns (b1: string, b2: string, b3: string, a3: string, a2: string, a1: string)
    ensures line == b1 + (b2 + (b3 + LicenseCore(line) + a3) + a2) + a1
    ensures All(IsSpace, b1) && All(IsSpace, a1) && All(IsComment, b2) && All(IsComment, a2)
    ensures All(IsSpace, b3) && All(IsSpace, a3)
    ensures TightLeft(IsSpace, b2 + (b3 + LicenseCore(line) + a3) + a2)
    ensures TightRight(IsSpace, b2 + (b3 + LicenseCore(line) + a3) + a2)
    ensures TightLeft(IsComment, b3 + LicenseCore(line) + a3) && TightRight(IsComment, b3 + LicenseCore(line) + a3)
  {
    hide Trim;
    b1, a1 := TrimSplit(IsSpace, line);
    b2, a2 := TrimSplit(IsComment, Trim(IsSpace, line));
    b3, a3 := TrimSplit(IsSpace, Trim(IsComment, Trim(IsSpace, line)));
  }

  predicate Letter(c: char) {
    !IsSpace(c) && !IsComment(c)
  }

  lemma Letters()
    ensures |GPL_FIRST| == 68 && GPL_FIRST[67] == 'y'
    ensures Letter(GPL_FIRST[0]) && Letter(SPDX[0]) && Letter(SPDX[|SPDX| - 1]) && !IsGpl(SPDX)
  {
    assert GPL_FIRST[0] == 'T' && SPDX[0] == 'S' && SPDX[|SPDX| - 1] == 'y';
    assert |SPDX| == 37;
  }

  /** A tight text stays tight when another core, of letters at both ends, takes the place of the old
      one, which had letters at both ends or was closed off by the runs. */
  lemma TightWithLetters(p: char -> bool, before: string, core: string, after: string, other: string)
    requires core != [] && other != [] && !p(other[0]) && !p(other[|other| - 1])
    requires TightLeft(p, before + core + after) && TightRight(p, before + core + after)
    ensures TightLeft(p, before + other + after) && TightRight(p, before + other + after)
  {
    var s, t := before + core + after, before + other + after;
    if before != [] {
      assert s[0] == before[0] == t[0];
    }
    if after != [] {
      assert s[|s| - 1] == after[|after| - 1] == t[|t| - 1];
    } else {
      assert t[|t| - 1] == other[|other| - 1];
    }
  }

  lemma LicenseRebuilt(b1: string, b2: string, b3: string, core: string, other: string, a3: string, a2: string, a1: string)
    requires All(IsSpace, b1) && All(IsSpace, a1) && All(IsComment, b2) && All(IsComment, a2)
    requires All(IsSpace, b3) && All(IsSpace, a3) && core != [] && other != []
    requires Letter(other[0]) && Letter(other[|other| - 1])
    requires TightLeft(IsSpace, b2 + (b3 + core + a3) + a2) && TightRight(IsSpace, b2 + (b3 + core + a3) + a2)
    requires TightLeft(IsComment, b3 + core + a3) && TightRight(IsComment, b3 + core + a3)
    ensures LicenseCore(b1 + (b2 + (b3 + other + a3) + a2) + a1) == other
  {
    hide Trim;
    var inner := b3 + other + a3;
    assert b2 + (b3 + core + a3) + a2 == (b2 + b3) + core + (a3 + a2);
    assert b2 + inner + a2 == (b2 + b3) + other + (a3 + a2);
    TightWithLetters(IsSpace, b2 + b3, core, a3 + a2, other);
    TightWithLetters(IsComment, b3, core, a3, other);
    TrimRuns(IsSpace, b1, b2 + inner + a2, a1);
    TrimRuns(IsComment, b2, inner, a2);
    TrimRuns(IsSpace, b3, other, a3);
  }

  /** Replacing the core of a line keeps the white space and comment characters around it. */
  lemma CoreReplaced(line: string, core: string, other: string) returns (before: string, after: string)
    requires LicenseCore(line) == core && core != [] && other != []
    requires Letter(core[0]) && Letter(other[0]) && Letter(other[|other| - 1])
    ensures line == before + core + after && Replace(line, core, other) == before + other + after
    ensures LicenseCore(before + other + after) == other
    ensures forall i :: 0 <= i < |before| ==> !Letter(before[i])
    ensures forall i :: 0 <= i < |after| ==> !Letter(after[i])
  {
    var b1, b2, b3, a3, a2, a1 := LicenseSplit(line);
    hide LicenseCore, Replace;
    before, after := b1 + b2 + b3, a3 + a2 + a1;
    NoLetters(b1, b2, b3);
    NoLetters(a1, a2, a3);
    assert line == before + core + after;
    ReplaceFirst(before, core, after, other);
    ReplaceNothing(after, core, other);
    assert before + other + after == b1 + (b2 + (b3 + other + a3) + a2) + a1;
    LicenseRebuilt(b1, b2, b3, core, other, a3, a2, a1);
  }

  lemma NoLetters(outer: string, middle: string, inner: string)
    requires All(IsSpace, outer) && All(IsComment, middle) && All(IsSpace, inner)
    ensures forall i :: 0 <= i < |outer + middle + inner| ==> !Letter((outer + middle + inner)[i])
    ensures forall i :: 0 <= i < |inner + middle + outer| ==> !Letter((inner + middle + outer)[i])
  {
  }

  lemma LicenseFixed(line: string)
    requires LicenseCore(line) == GPL_FIRST
    ensures LicenseCore(FixLicense(line).fixed) == SPDX
    ensures FixLine(License, FixLicense(line).fixed).compliant
  {
    Letters();
    var before, after := CoreReplaced(line, GPL_FIRST, SPDX);
  }

  /** Every fixer is done after one application: its result is deleted or complies. */
  lemma FixedLineComplies(c: Check, line: string)
    requires !FixLine(c, line).compliant
    ensures FixLine(c, line).fixed == "" || FixLine(c, FixLine(c, line).fixed).compliant
  {
    match c
    case IncludeQuotes => IncludeFixed(line);
    case DoxygenTags(isWord) => DoxygenFixed(isWord, line);
    case License =>
      if LicenseCore(line) == GPL_FIRST {
        LicenseFixed(line);
      }
    case Emacs =>
    case Whitespace => WhitespaceFixed(line);
    case Tabs => ExpandCharacters(line, 0);
  }
}
