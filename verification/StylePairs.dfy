/** What fixing a line for one check does to another check that the line passes. */
module StylePairs {
  import opened Common
  import opened StyleText
  import opened StyleChecks
  import opened StyleLines

  /** If the line passes `d`, fixing it for `c` deletes it or leaves it passing `d`. */
  predicate KeepsLine(c: Check, d: Check, line: string) {
    FixLine(d, line).compliant && !FixLine(c, line).compliant ==>
      FixLine(c, line).fixed == "" || FixLine(d, FixLine(c, line).fixed).compliant
  }

  ghost predicate Keeps(c: Check, d: Check) {
    forall line :: KeepsLine(c, d, line)
  }

  // ----- after the Doxygen fixer

  lemma DoxygenKeepsInclude(isWord: char -> bool, line: string)
    requires !FixDoxygen(isWord, line).compliant
    ensures FixInclude(FixDoxygen(isWord, line).fixed).compliant
  {
    var i := DoxygenFixedStart(isWord, line);
    var s, fixed := TrimRight(IsSpace, line), FixDoxygen(isWord, line).fixed;
    TrimRightSplit(IsSpace, line);
    assert INCLUDE[0] == '#' && "*/"[0] == '*' && "*/"[1] == '/';
    if i > 0 {
      assert fixed[0] == fixed[..i][0] == line[..i][0] == s[0];
    }
  }

  // ----- after the licence fixer

  /** What stands before the new text and after it has no letters. */
  lemma LicenseReplaced(line: string) returns (before: string, after: string)
    requires LicenseCore(line) == GPL_FIRST
    ensures line == before + GPL_FIRST + after && FixLicense(line).fixed == before + SPDX + after
    ensures forall i :: 0 <= i < |before| ==> !Letter(before[i])
    ensures forall i :: 0 <= i < |after| ==> !Letter(after[i])
  {
    Letters();
    before, after := CoreReplaced(line, GPL_FIRST, SPDX);
  }

  lemma LicenseKeepsInclude(line: string)
    requires LicenseCore(line) == GPL_FIRST
    ensures FixInclude(FixLicense(line).fixed).compliant
  {
    var before, after := LicenseReplaced(line);
    hide FixLicense, LicenseCore;
    var fixed := before + SPDX + after;
    assert INCLUDE[0] == '#' && INCLUDE[1] == 'i' && SPDX[0] == 'S' && Letter('i');
    assert fixed[|before|] == SPDX[0];
    if |before| > 1 {
      assert fixed[1] == before[1];
    }
  }

  lemma LicenseKeepsDoxygen(isWord: char -> bool, line: string)
    requires LicenseCore(line) == GPL_FIRST
    ensures FixDoxygen(isWord, FixLicense(line).fixed).compliant
  {
    var before, after := LicenseReplaced(line);
    hide FixLicense, LicenseCore;
    var fixed := before + SPDX + after;
    var s := TrimRight(IsSpace, fixed);
    TrimRightSplit(IsSpace, fixed);
    assert SPDX[0] == 'S' && fixed[|before|] == SPDX[0];
    assert forall i :: 0 <= i < |before| ==> fixed[i] == before[i] && !Letter(fixed[i]);
    assert forall i :: 0 <= i < |s| ==> s[i] == fixed[i];
    hide TagRange;
    NoTag(isWord, s, |before|);
  }

  lemma NoTag(isWord: char -> bool, s: string, n: nat)
    requires forall i :: 0 <= i < n && i < |s| ==> !Letter(s[i])
    requires n < |s| ==> s[n] == 'S'
    ensures TagRange(isWord, s) == None
  {
    hide CommentEnd, SkipWord;
    assert Letter('\\') && !IsSpace('S') && 'S' !in "*/";
  }

  lemma SpdxIsNotEmacs(i: nat)
    requires i < |SPDX|
    ensures SPDX[i] != 'p'
    ensures SPDX[i] == 'c' ==> i + 1 < |SPDX| && SPDX[i + 1] == 'e'
  {
  }

  /** Neither pattern can start with a letter of the new text, nor with a character around it. */
  lemma LicenseKeepsEmacs(line: string)
    requires LicenseCore(line) == GPL_FIRST
    ensures FixEmacs(FixLicense(line).fixed).compliant
  {
    var before, after := LicenseReplaced(line);
    hide FixLicense, LicenseCore;
    assert "c-file-style:"[0] == 'c' && "c-file-style:"[1] == '-' && "py-indent-offset:"[0] == 'p';
    var before0, after0 := TrimSplit(IsSpace, before + SPDX + after);
    var t := Trim(IsSpace, before + SPDX + after);
    hide Trim;
    forall i: nat | i <= |t| ensures !OccursAt(t, "c-file-style:", i) && !OccursAt(t, "py-indent-offset:", i) {
      NotEmacsAt(before, after, before0, t, after0, i);
    }
  }

  lemma OccursStart(s: string, sub: string, i: nat)
    requires |sub| >= 2
    ensures OccursAt(s, sub, i) ==> i + |sub| <= |s| && s[i] == sub[0] && s[i + 1] == sub[1]
  {
    if OccursAt(s, sub, i) {
      assert s[i] == s[i..i + |sub|][0] && s[i + 1] == s[i..i + |sub|][1];
    }
  }

  lemma NotEmacsAt(before: string, after: string, before0: string, t: string, after0: string, i: nat)
    requires forall i :: 0 <= i < |before| ==> !Letter(before[i])
    requires forall i :: 0 <= i < |after| ==> !Letter(after[i])
    requires before + SPDX + after == before0 + t + after0 && i <= |t|
    ensures !OccursAt(t, "c-file-style:", i) && !OccursAt(t, "py-indent-offset:", i)
  {
    assert |"c-file-style:"| == 13 && |"py-indent-offset:"| == 17;
    if i + 2 <= |t| {
      TwoCharacters(before, after, before0, t, after0, i);
      OccursStart(t, "c-file-style:", i);
      OccursStart(t, "py-indent-offset:", i);
      hide OccursAt, SPDX;
      assert "c-file-style:"[0] == 'c' && "c-file-style:"[1] == '-' && "py-indent-offset:"[0] == 'p';
    }
  }

  lemma TwoCharacters(before: string, after: string, before0: string, t: string, after0: string, i: nat)
    requires forall i :: 0 <= i < |before| ==> !Letter(before[i])
    requires forall i :: 0 <= i < |after| ==> !Letter(after[i])
    requires before + SPDX + after == before0 + t + after0 && i + 2 <= |t|
    ensures t[i] != 'p' && (t[i] == 'c' ==> t[i + 1] != '-')
  {
    var k := |before0| + i;
    assert t[i] == (before0 + t + after0)[k] && t[i + 1] == (before0 + t + after0)[k + 1];
    if t[i] == 'c' || t[i] == 'p' {
      InsideNewText(before, after, k);
      SpdxIsNotEmacs(k - |before|);
    }
  }

  lemma InsideNewText(before: string, after: string, k: nat)
    requires forall i :: 0 <= i < |before| ==> !Letter(before[i])
    requires forall i :: 0 <= i < |after| ==> !Letter(after[i])
    requires k < |before + SPDX + after| && Letter((before + SPDX + after)[k])
    ensures |before| <= k < |before| + |SPDX| && (before + SPDX + after)[k] == SPDX[k - |before|]
    ensures k + 1 < |before| + |SPDX| ==> (before + SPDX + after)[k + 1] == SPDX[k + 1 - |before|]
  {
    var fixed := before + SPDX + after;
    assert forall i :: 0 <= i < |before| ==> fixed[i] == before[i];
    assert forall i :: |before| + |SPDX| <= i < |fixed| ==> fixed[i] == after[i - |before| - |SPDX|];
  }

  lemma LicenseKeepsWhitespace(line: string)
    requires LicenseCore(line) == GPL_FIRST && FixWhitespace(line).compliant
    ensures FixWhitespace(FixLicense(line).fixed).compliant
  {
    var before, after := LicenseReplaced(line);
    var fixed := before + SPDX + after;
    WhitespaceIff(line);
    WhitespaceIff(fixed);
    hide FixLicense, LicenseCore, FixWhitespace;
    Letters();
    assert line[|before| + 67] == GPL_FIRST[67] == 'y';
    assert line[|line| - 1] == after[|after| - 1] == fixed[|fixed| - 1];
    if |after| > 1 {
      assert line[|line| - 2] == after[|after| - 2] == fixed[|fixed| - 2];
    } else {
      assert fixed[|fixed| - 2] == SPDX[|SPDX| - 1];
    }
  }

  lemma LicenseKeepsTabs(line: string)
    requires LicenseCore(line) == GPL_FIRST && '\t' !in line
    ensures '\t' !in FixLicense(line).fixed
  {
    var before, after := LicenseReplaced(line);
    hide FixLicense, LicenseCore;
    var fixed := before + SPDX + after;
    assert forall i :: 0 <= i < |before| ==> line[i] == before[i];
    assert forall i :: 0 <= i < |after| ==> line[|before| + |GPL_FIRST| + i] == after[i];
    assert '\t' !in SPDX;
  }

  // ----- after the white space fixer

  lemma WhitespaceKeepsInclude(line: string)
    requires IsAngleInclude(FixWhitespace(line).fixed)
    ensures IsAngleInclude(line)
  {
    var r := TrimRight(IsSpace, line);
    TrimRightSplit(IsSpace, line);
    hide TrimRight, IsSpace;
    DropBreak(r);
    assert line == r + line[|r|..];
    IncludeLonger(r, line[|r|..]);
  }

  lemma DropBreak(r: string)
    requires IsAngleInclude(r + "\n")
    ensures IsAngleInclude(r)
  {
    var s := r + "\n";
    var k :| |INCLUDE| <= k <= |s| && OccursAt(s, ".h>", k) && '\n' !in s[|INCLUDE|..k];
    assert s[k + 2] == s[k..k + 3][2] == ".h>"[2] == '>';
    assert s[..|r|] == r && r[k..k + 3] == s[k..k + 3] && r[|INCLUDE|..k] == s[|INCLUDE|..k];
    assert OccursAt(r, ".h>", k);
  }

  lemma IncludeLonger(r: string, more: string)
    requires IsAngleInclude(r)
    ensures IsAngleInclude(r + more)
  {
    var s := r + more;
    var k :| |INCLUDE| <= k <= |r| && OccursAt(r, ".h>", k) && '\n' !in r[|INCLUDE|..k];
    assert s[k..k + 3] == r[k..k + 3] && s[|INCLUDE|..k] == r[|INCLUDE|..k];
    assert OccursAt(s, ".h>", k);
  }

  // ----- after the tab fixer

  /** Expanding tabs in a line without trailing white space creates none. */
  lemma TabsKeepWhitespaceOk(line: string)
    requires FixWhitespace(line).compliant
    ensures FixWhitespace(Expand(line, 0)).compliant
  {
    var r := TrimRight(IsSpace, line);
    TrimRightSplit(IsSpace, line);
    assert line == r + "\n";
    ExpandConcat(r, "\n", 0);
    ExpandPlain("\n", ColumnAfter(r, 0));
    ExpandStaysTight(r);
    TrimRightRun(IsSpace, Expand(r, 0), "\n");
  }

  lemma ExpandStaysTight(r: string)
    requires TightRight(IsSpace, r)
    ensures TightRight(IsSpace, Expand(r, 0))
  {
    if r != [] {
      var n := |r| - 1;
      assert r == r[..n] + [r[n]];
      ExpandConcat(r[..n], [r[n]], 0);
      ExpandPlain([r[n]], ColumnAfter(r[..n], 0));
    }
  }

  /** `rstrip` and expanding tabs can change places. */
  lemma ExpandTrimRight(line: string)
    ensures TrimRight(IsSpace, Expand(line, 0)) == Expand(TrimRight(IsSpace, line), 0)
  {
    var r := TrimRight(IsSpace, line);
    TrimRightSplit(IsSpace, line);
    assert line == r + line[|r|..];
    ExpandConcat(r, line[|r|..], 0);
    ExpandCharacters(line[|r|..], ColumnAfter(r, 0));
    ExpandStaysTight(r);
    TrimRightRun(IsSpace, Expand(r, 0), Expand(line[|r|..], ColumnAfter(r, 0)));
  }

  /** What the first character expands to. */
  lemma ExpandHead(s: string, column: nat) returns (head: string)
    requires s != []
    ensures Expand(s, column) == head + Expand(s[1..], NextColumn(column, s[0])) && head != []
    ensures s[0] != '\t' ==> head == [s[0]]
    ensures if IsSpace(s[0]) then All(IsSpace, head) else head == [s[0]]
    ensures s[0] == '\t' ==> |head| == TabWidth(column) && forall i :: 0 <= i < |head| ==> head[i] == ' '
  {
    head := if s[0] == '\t' then Spaces(TabWidth(column)) else [s[0]];
  }

  /** A text without blanks at the start of the expanded line is at the start of the line itself. */
  lemma {:induction false} ExpandPrefix(x: string, s: string, column: nat)
    requires x <= Expand(s, column) && ' ' !in x
    ensures x <= s && Expand(s, column)[|x|..] == Expand(s[|x|..], ColumnAfter(x, column))
    decreases |x|
  {
    if x != [] {
      var next := NextColumn(column, s[0]);
      var head := ExpandHead(s, column);
      assert head[0] == x[0];
      assert Expand(s, column)[1..] == Expand(s[1..], next);
      ExpandPrefix(x[1..], s[1..], next);
      assert s[1..][|x| - 1..] == s[|x|..];
      assert Expand(s, column)[1..][|x| - 1..] == Expand(s, column)[|x|..];
    }
  }

  /** The white space before column `a` of the expanded text comes from white space. */
  lemma {:induction false} ExpandSkip(s: string, column: nat, a: nat) returns (k: nat)
    requires a <= |Expand(s, column)| && All(IsSpace, Expand(s, column)[..a])
    requires a == |Expand(s, column)| || !IsSpace(Expand(s, column)[a])
    ensures k <= |s| && All(IsSpace, s[..k])
    ensures Expand(s, column)[a..] == Expand(s[k..], ColumnAfter(s[..k], column))
    decreases |s|
  {
    hide IsSpace;
    if s == [] || !IsSpace(s[0]) {
      NothingToSkip(s, column, a);
      k := 0;
    } else {
      hide Expand, ColumnAfter;
      var head := ExpandHead(s, column);
      var next := NextColumn(column, s[0]);
      SkipHead(head, Expand(s[1..], next), a);
      var j := ExpandSkip(s[1..], next, a - |head|);
      k := j + 1;
      SkipOne(s, column, j);
    }
  }

  lemma NothingToSkip(s: string, column: nat, a: nat)
    requires s == [] || !IsSpace(s[0])
    requires a <= |Expand(s, column)| && All(IsSpace, Expand(s, column)[..a])
    ensures a == 0 && Expand(s, column)[a..] == Expand(s[0..], ColumnAfter(s[..0], column))
  {
    hide IsSpace;
    assert s[0..] == s && s[..0] == [];
    if s != [] {
      var head := ExpandHead(s, column);
      assert Expand(s, column)[0] == s[0];
    }
  }

  lemma SkipOne(s: string, column: nat, j: nat)
    requires s != [] && j <= |s| - 1 && IsSpace(s[0]) && All(IsSpace, s[1..][..j])
    ensures All(IsSpace, s[..j + 1]) && s[1..][j..] == s[j + 1..]
    ensures ColumnAfter(s[1..][..j], NextColumn(column, s[0])) == ColumnAfter(s[..j + 1], column)
  {
    hide IsSpace;
    assert s[..j + 1] == [s[0]] + s[1..][..j];
    ColumnStep(s, column, j + 1);
  }

  lemma SkipHead(head: string, tail: string, a: nat)
    requires a <= |head + tail| && All(IsSpace, (head + tail)[..a]) && All(IsSpace, head)
    requires a == |head + tail| || !IsSpace((head + tail)[a])
    ensures a >= |head| && All(IsSpace, tail[..a - |head|]) && (head + tail)[a..] == tail[a - |head|..]
    ensures a - |head| == |tail| || !IsSpace(tail[a - |head|])
  {
    assert forall i :: 0 <= i < |head| ==> (head + tail)[i] == head[i];
    assert tail[..a - |head|] == (head + tail)[..a][|head|..];
  }

  /** An occurrence of a text without blanks in the expanded line comes from one in the line. */
  lemma {:induction false} ExpandOccurs(s: string, column: nat, p: string, i: nat) returns (k: nat)
    requires p != [] && ' ' !in p && OccursAt(Expand(s, column), p, i)
    ensures OccursAt(s, p, k) && ('\n' !in Expand(s, column)[..i] ==> '\n' !in s[..k])
    decreases |s|
  {
    if i == 0 {
      ExpandPrefix(p, s, column);
      k := 0;
    } else {
      var next := NextColumn(column, s[0]);
      var head := ExpandHead(s, column);
      var tail := Expand(s[1..], next);
      hide Expand;
      OccursBehind(head, tail, p, i);
      var j := ExpandOccurs(s[1..], next, p, i - |head|);
      k := j + 1;
      OccursLater(s, p, j);
      assert (head + tail)[..i] == head + tail[..i - |head|];
    }
  }

  lemma OccursLater(s: string, p: string, j: nat)
    requires s != [] && OccursAt(s[1..], p, j)
    ensures OccursAt(s, p, j + 1) && s[..j + 1] == [s[0]] + s[1..][..j]
  {
    assert s[j + 1..j + 1 + |p|] == s[1..][j..j + |p|];
  }

  lemma OccursBehind(head: string, tail: string, p: string, i: nat)
    requires p != [] && ' ' !in p && OccursAt(head + tail, p, i) && i > 0
    requires |head| == 1 || forall n :: 0 <= n < |head| ==> head[n] == ' '
    ensures i >= |head| && OccursAt(tail, p, i - |head|)
  {
    var e := head + tail;
    assert e[i] == e[i..i + |p|][0] == p[0];
    assert forall n :: 0 <= n < |head| ==> e[n] == head[n];
    assert tail[i - |head|..i - |head| + |p|] == e[i..i + |p|];
  }

  lemma {:induction false} ColumnPlain(s: string, column: nat)
    requires '\t' !in s && '\n' !in s && '\r' !in s
    ensures ColumnAfter(s, column) == column + |s|
    decreases |s|
  {
    if s != [] {
      ColumnPlain(s[1..], column + 1);
    }
  }

  /** A tab at column 8 would put four blanks behind `#include`, so the expanded line has the directive
      only if the line has it. */
  lemma ExpandInclude(line: string)
    requires INCLUDE <= Expand(line, 0)
    ensures INCLUDE <= line && Expand(line, 0)[14..] == Expand(line[14..], 14)
  {
    hide Expand, ColumnAfter;
    var e := Expand(line, 0);
    IncludeParts(e);
    ExpandDirective(line);
    var rest := line[9..];
    ExpandStartsWith("<ns3/", rest, 9);
    IncludeWhole(line);
    assert rest[5..] == line[14..] && e[9..][5..] == e[14..];
  }

  lemma ExpandDirective(line: string)
    requires |Expand(line, 0)| >= 10 && "#include" <= Expand(line, 0)
    requires Expand(line, 0)[8] == ' ' && Expand(line, 0)[9] != ' '
    ensures |line| > 8 && "#include" <= line && line[8] == ' ' && Expand(line, 0)[9..] == Expand(line[9..], 9)
  {
    hide Expand;
    var e := Expand(line, 0);
    ExpandStartsWith("#include", line, 0);
    OneBlank(line[8..]);
    assert e[8..][1..] == e[9..] && line[8..][1..] == line[9..];
  }

  lemma ExpandStartsWith(x: string, s: string, column: nat)
    requires x <= Expand(s, column) && ' ' !in x && '\t' !in x && '\n' !in x && '\r' !in x
    ensures x <= s && Expand(s, column)[|x|..] == Expand(s[|x|..], column + |x|)
  {
    ExpandPrefix(x, s, column);
    ColumnPlain(x, column);
  }

  lemma IncludeParts(e: string)
    requires INCLUDE <= e
    ensures "#include" <= e && e[8] == ' ' && e[9] == '<' && "<ns3/" <= e[9..] && |e| >= 14
  {
    assert INCLUDE == "#include" + (" " + "<ns3/");
    assert e == "#include" + (" " + ("<ns3/" + e[14..]));
    assert "<ns3/"[0] == '<';
  }

  lemma IncludeWhole(line: string)
    requires |line| > 8 && "#include" <= line && line[8] == ' ' && "<ns3/" <= line[9..]
    ensures INCLUDE <= line
  {
    assert line == "#include" + (" " + ("<ns3/" + line[14..]));
    assert INCLUDE == "#include" + (" " + "<ns3/");
  }

  lemma OneBlank(rest: string)
    requires |Expand(rest, 8)| >= 2 && Expand(rest, 8)[0] == ' ' && Expand(rest, 8)[1] != ' '
    ensures rest != [] && rest[0] == ' ' && Expand(rest, 8)[1..] == Expand(rest[1..], 9)
  {
    var head := ExpandHead(rest, 8);
    assert forall i :: 0 <= i < |head| ==> Expand(rest, 8)[i] == head[i];
  }

  lemma TabsKeepInclude(line: string)
    requires IsAngleInclude(Expand(line, 0))
    ensures IsAngleInclude(line)
  {
    ExpandInclude(line);
    assert |INCLUDE| == 14;
    hide Expand;
    var e := Expand(line, 0);
    var k :| 14 <= k <= |e| && OccursAt(e, ".h>", k) && '\n' !in e[14..k];
    SliceOccurs(e, 14, k, ".h>");
    var j := ExpandOccurs(line[14..], 14, ".h>", k - 14);
    SliceOccurs(line, 14, 14 + j, ".h>");
    assert OccursAt(line, ".h>", 14 + j);
  }

  lemma SliceOccurs(s: string, n: nat, k: nat, p: string)
    requires n <= k && k + |p| <= |s|
    ensures OccursAt(s, p, k) <==> OccursAt(s[n..], p, k - n)
    ensures s[n..][..k - n] == s[n..k]
  {
    assert s[n..][k - n..k - n + |p|] == s[k..k + |p|];
  }

  lemma ExpandStart(s: string, column: nat)
    ensures s == [] <==> Expand(s, column) == []
    ensures s != [] ==> (IsSpace(s[0]) <==> IsSpace(Expand(s, column)[0]))
  {
  }

  /** White space up to `a` and a word without blanks up to `b` come from white space and that word. */
  lemma ExpandWord(s: string, column: nat, a: nat, b: nat) returns (k: nat, after: nat)
    requires a < b <= |Expand(s, column)| && All(IsSpace, Expand(s, column)[..a])
    requires !IsSpace(Expand(s, column)[a]) && ' ' !in Expand(s, column)[a..b]
    ensures k + (b - a) <= |s| && All(IsSpace, s[..k]) && s[k..k + (b - a)] == Expand(s, column)[a..b]
    ensures Expand(s, column)[b..] == Expand(s[k + (b - a)..], after)
  {
    k := ExpandSkip(s, column, a);
    var e := Expand(s, column);
    var word, next := e[a..b], ColumnAfter(s[..k], column);
    hide Expand, ColumnAfter;
    assert e[a..][..b - a] == word;
    ExpandPrefix(word, s[k..], next);
    after := ColumnAfter(word, next);
    assert e[a..][b - a..] == e[b..] && s[k..][b - a..] == s[k + (b - a)..];
    assert s[k..][..b - a] == s[k..k + (b - a)];
  }

  /** A tag in the expanded text comes from the same tag in the text. */
  lemma ExpandTag(isWord: char -> bool, s: string, a: nat, b: nat, i: nat, j: nat) returns (m: nat)
    requires Matches(isWord, Expand(s, 0), a, b, i, j)
    ensures m + (j - i) <= |s| && s[m..m + (j - i)] == Expand(s, 0)[i..j]
    ensures TagRange(isWord, s) == Some((m, m + (j - i)))
  {
    var e := Expand(s, 0);
    TokenHasNoBlank(isWord, e, a, b, i, j);
    hide Expand;
    var p, next := ExpandWord(s, 0, a, b);
    BehindToken(isWord, e, a, b, i, j);
    m := ExpandTagWord(s, e, b, i, j, p + (b - a), next);
    TagAt(isWord, e, a, b, i, j, s, p, m);
  }

  lemma ExpandTagWord(s: string, e: string, b: nat, i: nat, j: nat, n: nat, next: nat) returns (m: nat)
    requires b <= i < j <= |e| && n <= |s| && Expand(s[n..], next) == e[b..]
    requires All(IsSpace, e[b..][..i - b]) && !IsSpace(e[b..][i - b]) && ' ' !in e[b..][i - b..j - b]
    requires e[b..][i - b..j - b] == e[i..j] && (e[j..] == [] || IsSpace(e[j..][0]))
    ensures n <= m && m + (j - i) <= |s| && All(IsSpace, s[n..m]) && s[m..m + (j - i)] == e[i..j]
    ensures m + (j - i) == |s| || IsSpace(s[m + (j - i)])
  {
    hide Expand, IsSpace;
    var s2 := s[n..];
    var q, last := ExpandWord(s2, next, i - b, j - b);
    assert e[j..] == e[b..][j - b..];
    ExpandStart(s2[q + (j - i)..], last);
    m := n + q;
    assert s2[q + (j - i)..] == s[m + (j - i)..] && s2[q..q + (j - i)] == s[m..m + (j - i)];
    assert s[n..m] == s2[..q];
  }

  lemma BehindToken(isWord: char -> bool, e: string, a: nat, b: nat, i: nat, j: nat)
    requires Matches(isWord, e, a, b, i, j)
    ensures All(IsSpace, e[b..][..i - b]) && e[b..][i - b] == e[i] && e[b..][i - b..j - b] == e[i..j]
    ensures e[j..] == [] || IsSpace(e[j..][0])
  {
    assert e[b..][..i - b] == e[b..i];
    assert forall k :: 0 <= k < i - b ==> e[b..i][k] == e[b + k];
  }

  lemma TokenHasNoBlank(isWord: char -> bool, e: string, a: nat, b: nat, i: nat, j: nat)
    requires Matches(isWord, e, a, b, i, j)
    ensures ' ' !in e[a..b] && ' ' !in e[i..j] && !IsSpace(e[a]) && !IsSpace(e[i]) && All(IsSpace, e[..a])
  {
    assert IsSpace(' ') && !IsSpace('\\') && !IsSpace('/') && !IsSpace('*');
    assert forall k :: 0 <= k < j - i ==> e[i..j][k] == e[i + k];
    assert e[a..b][0] == e[a];
    assert ' ' !in "/**" && ' ' !in "///" && "/**"[0] == '/' && "///"[0] == '/';
  }

  /** The same token and the same tag at other places, with white space before them. */
  lemma TagAt(isWord: char -> bool, e: string, a: nat, b: nat, i: nat, j: nat, s: string, p: nat, m: nat)
    requires Matches(isWord, e, a, b, i, j)
    requires p + (b - a) <= m && m + (j - i) <= |s|
    requires All(IsSpace, s[..p]) && s[p..p + (b - a)] == e[a..b]
    requires All(IsSpace, s[p + (b - a)..m]) && s[m..m + (j - i)] == e[i..j]
    requires m + (j - i) == |s| || IsSpace(s[m + (j - i)])
    ensures TagRange(isWord, s) == Some((m, m + (j - i)))
  {
    var n := p + (b - a);
    assert forall k :: 0 <= k < p ==> s[k] == s[..p][k];
    assert forall k :: n <= k < m ==> s[k] == s[n..m][k - n];
    assert forall k :: m <= k < m + (j - i) ==> s[k] == s[m..m + (j - i)][k - m] == e[i..j][k - m] == e[k - m + i];
    assert s[p] == s[p..n][0] == e[a..b][0] == e[a];
    assert Matches(isWord, s, p, n, m, m + (j - i));
    hide Matches, TagRange;
    MatchFound(isWord, s, p, n, m, m + (j - i));
  }

  /** A line is changed for a tag that is not one of the ignored words. */
  predicate TaggedWith(isWord: char -> bool, s: string, tag: string) {
    TagRange(isWord, s).Some? && tag == s[TagRange(isWord, s).value.0..TagRange(isWord, s).value.1]
    && tag !in IGNORED_WORDS
  }

  lemma TagOf(isWord: char -> bool, line: string) returns (tag: string)
    requires !FixDoxygen(isWord, line).compliant
    ensures TaggedWith(isWord, TrimRight(IsSpace, line), tag)
  {
    var s := TrimRight(IsSpace, line);
    hide TagRange;
    var (i, j) := TagRange(isWord, s).value;
    tag := s[i..j];
  }

  lemma TaggedIsChanged(isWord: char -> bool, line: string, tag: string)
    requires TaggedWith(isWord, TrimRight(IsSpace, line), tag)
    ensures !FixDoxygen(isWord, line).compliant
  {
    var s := TrimRight(IsSpace, line);
    hide TagRange;
    var (i, j) := TagRange(isWord, s).value;
    assert tag == s[i..j];
  }

  lemma TabsKeepDoxygen(isWord: char -> bool, line: string)
    requires !FixDoxygen(isWord, Expand(line, 0)).compliant
    ensures !FixDoxygen(isWord, line).compliant
  {
    hide FixDoxygen, TaggedWith, Expand;
    var tag := TagOf(isWord, Expand(line, 0));
    ExpandTrimRight(line);
    SameTag(isWord, TrimRight(IsSpace, line), tag);
    TaggedIsChanged(isWord, line, tag);
  }

  lemma SameTag(isWord: char -> bool, r: string, tag: string)
    requires TaggedWith(isWord, Expand(r, 0), tag)
    ensures TaggedWith(isWord, r, tag)
  {
    var e := Expand(r, 0);
    var (i, j) := TagRange(isWord, e).value;
    TagRangeIff(isWord, e, i, j);
    hide TagRange, Expand, Matches;
    var a: nat, b: nat :| Matches(isWord, e, a, b, i, j);
    var m := ExpandTag(isWord, r, a, b, i, j);
  }

  /** Stripping neither adds nor removes an occurrence of a text without white space. */
  lemma TrimContains(s: string, p: string)
    requires p != [] && forall i :: 0 <= i < |p| ==> !IsSpace(p[i])
    ensures Contains(Trim(IsSpace, s), p) <==> Contains(s, p)
  {
    var before, after := TrimSplit(IsSpace, s);
    var t := Trim(IsSpace, s);
    hide Trim, OccursAt, IsSpace;
    if i: nat :| i <= |t| && OccursAt(t, p, i) {
      OccursBetween(before, t, after, p, i);
      assert OccursAt(s, p, |before| + i);
    }
    if i: nat :| i <= |s| && OccursAt(s, p, i) {
      OccursInside(before, t, after, p, i);
      assert OccursAt(t, p, i - |before|);
    }
  }

  lemma OccursBetween(before: string, t: string, after: string, p: string, i: nat)
    requires OccursAt(t, p, i)
    ensures OccursAt(before + t + after, p, |before| + i)
  {
    assert (before + t + after)[|before| + i..|before| + i + |p|] == t[i..i + |p|];
  }

  lemma OccursInside(before: string, t: string, after: string, p: string, i: nat)
    requires p != [] && (forall k :: 0 <= k < |p| ==> !IsSpace(p[k])) && All(IsSpace, before) && All(IsSpace, after)
    requires OccursAt(before + t + after, p, i)
    ensures |before| <= i <= |before| + |t| && OccursAt(t, p, i - |before|)
  {
    hide IsSpace;
    var s, n := before + t + after, |before| + |t|;
    assert s[i] == s[i..i + |p|][0] == p[0];
    assert s[i + |p| - 1] == s[i..i + |p|][|p| - 1] == p[|p| - 1];
    assert forall k :: 0 <= k < |before| ==> s[k] == before[k] && IsSpace(s[k]);
    assert forall k :: n <= k < |s| ==> s[k] == after[k - n] && IsSpace(s[k]);
    assert t[i - |before|..i - |before| + |p|] == s[i..i + |p|];
  }

  lemma TabsKeepPattern(line: string, p: string)
    requires p != [] && forall i :: 0 <= i < |p| ==> !IsSpace(p[i])
    requires Contains(Trim(IsSpace, Expand(line, 0)), p)
    ensures Contains(Trim(IsSpace, line), p)
  {
    TrimContains(Expand(line, 0), p);
    TrimContains(line, p);
    assert IsSpace(' ');
    hide Trim, Expand;
    var i: nat :| i <= |Expand(line, 0)| && OccursAt(Expand(line, 0), p, i);
    var k := ExpandOccurs(line, 0, p, i);
    assert OccursAt(line, p, k);
  }

  lemma TabsKeepEmacs(line: string)
    requires !FixEmacs(Expand(line, 0)).compliant
    ensures !FixEmacs(line).compliant
  {
    hide Trim, Expand;
    if Contains(Trim(IsSpace, Expand(line, 0)), "c-file-style:") {
      TabsKeepPattern(line, "c-file-style:");
    } else {
      TabsKeepPattern(line, "py-indent-offset:");
    }
  }

  // ----- all pairs

  /** In the order of the checks no fixer undoes an earlier one, except the tab fixer the licence fixer. */
  lemma LaterKeepsEarlier(isWord: char -> bool)
    ensures Keeps(DoxygenTags(isWord), IncludeQuotes)
    ensures Keeps(License, IncludeQuotes) && Keeps(License, DoxygenTags(isWord))
    ensures Keeps(Emacs, IncludeQuotes) && Keeps(Emacs, DoxygenTags(isWord)) && Keeps(Emacs, License)
    ensures Keeps(Whitespace, IncludeQuotes) && Keeps(Whitespace, DoxygenTags(isWord))
    ensures Keeps(Whitespace, License) && Keeps(Whitespace, Emacs)
    ensures Keeps(Tabs, IncludeQuotes) && Keeps(Tabs, DoxygenTags(isWord))
    ensures Keeps(Tabs, Emacs) && Keeps(Tabs, Whitespace)
  {
    DoxygenKeeps(isWord);
    LicenseKeeps(isWord);
    WhitespaceKeeps(isWord);
    TabsKeep(isWord);
    hide FixLine;
    EmacsKeeps(IncludeQuotes);
    EmacsKeeps(DoxygenTags(isWord));
    EmacsKeeps(License);
  }

  lemma DoxygenKeeps(isWord: char -> bool)
    ensures Keeps(DoxygenTags(isWord), IncludeQuotes)
  {
    hide FixInclude, FixDoxygen;
    forall line ensures KeepsLine(DoxygenTags(isWord), IncludeQuotes, line) {
      if !FixDoxygen(isWord, line).compliant {
        DoxygenKeepsInclude(isWord, line);
      }
    }
  }

  /** The licence fixer undoes no other check at all. */
  lemma LicenseKeeps(isWord: char -> bool)
    ensures Keeps(License, IncludeQuotes) && Keeps(License, DoxygenTags(isWord))
    ensures Keeps(License, Emacs) && Keeps(License, Whitespace) && Keeps(License, Tabs)
  {
    hide FixInclude, FixDoxygen, FixLicense, FixEmacs, FixWhitespace, FixTabs, LicenseCore;
    forall line
      ensures KeepsLine(License, IncludeQuotes, line) && KeepsLine(License, DoxygenTags(isWord), line)
      ensures KeepsLine(License, Emacs, line) && KeepsLine(License, Whitespace, line) && KeepsLine(License, Tabs, line)
    {
      LicenseCases(line);
      if LicenseCore(line) == GPL_FIRST {
        LicenseKeepsRest(isWord, line);
      }
    }
  }

  lemma LicenseCases(line: string)
    ensures FixLicense(line).compliant || FixLicense(line).fixed == "" || LicenseCore(line) == GPL_FIRST
  {
    hide LicenseCore, IsGpl;
  }

  lemma LicenseKeepsRest(isWord: char -> bool, line: string)
    requires LicenseCore(line) == GPL_FIRST
    ensures var fixed := FixLicense(line).fixed;
            && FixInclude(fixed).compliant && FixDoxygen(isWord, fixed).compliant && FixEmacs(fixed).compliant
            && (FixWhitespace(line).compliant ==> FixWhitespace(fixed).compliant)
            && (FixTabs(line).compliant ==> FixTabs(fixed).compliant)
  {
    hide FixInclude, FixDoxygen, FixLicense, FixEmacs, FixWhitespace, LicenseCore;
    LicenseKeepsInclude(line);
    LicenseKeepsDoxygen(isWord, line);
    LicenseKeepsEmacs(line);
    if FixWhitespace(line).compliant {
      LicenseKeepsWhitespace(line);
    }
    if '\t' !in line {
      LicenseKeepsTabs(line);
    }
  }

  lemma EmacsKeeps(d: Check)
    ensures Keeps(Emacs, d)
  {
    forall line ensures KeepsLine(Emacs, d, line) {
      assert !FixLine(Emacs, line).compliant ==> FixLine(Emacs, line).fixed == "";
    }
  }

  /** The other checks that strip a line do not see what the white space fixer changes. */
  lemma WhitespaceKeeps(isWord: char -> bool)
    ensures Keeps(Whitespace, IncludeQuotes) && Keeps(Whitespace, DoxygenTags(isWord))
    ensures Keeps(Whitespace, License) && Keeps(Whitespace, Emacs)
  {
    hide FixWhitespace, FixInclude, FixDoxygen, FixLicense, FixEmacs;
    forall line
      ensures KeepsLine(Whitespace, IncludeQuotes, line) && KeepsLine(Whitespace, DoxygenTags(isWord), line)
      ensures KeepsLine(Whitespace, License, line) && KeepsLine(Whitespace, Emacs, line)
    {
      WhitespaceUnseen(isWord, line);
    }
  }

  lemma WhitespaceUnseen(isWord: char -> bool, line: string)
    ensures var fixed := FixWhitespace(line).fixed;
            && (FixInclude(line).compliant ==> FixInclude(fixed).compliant)
            && FixDoxygen(isWord, fixed).compliant == FixDoxygen(isWord, line).compliant
            && FixLicense(fixed).compliant == FixLicense(line).compliant
            && FixEmacs(fixed).compliant == FixEmacs(line).compliant
  {
    var fixed := FixWhitespace(line).fixed;
    WhitespaceFixed(line);
    hide FixWhitespace;
    SameTrimmed(isWord, fixed, line);
    hide FixDoxygen, FixLicense, FixEmacs, IsAngleInclude;
    if IsAngleInclude(fixed) {
      WhitespaceKeepsInclude(line);
    }
  }

  lemma SameTrimmed(isWord: char -> bool, s: string, t: string)
    requires TrimRight(IsSpace, s) == TrimRight(IsSpace, t)
    ensures FixDoxygen(isWord, s).compliant == FixDoxygen(isWord, t).compliant
    ensures FixLicense(s).compliant == FixLicense(t).compliant
    ensures FixEmacs(s).compliant == FixEmacs(t).compliant
  {
    hide TagRange, IsGpl, Contains, TrimLeft, TrimRight;
    assert Trim(IsSpace, s) == Trim(IsSpace, t);
    assert LicenseCore(s) == LicenseCore(t);
  }

  lemma TabsKeep(isWord: char -> bool)
    ensures Keeps(Tabs, IncludeQuotes) && Keeps(Tabs, DoxygenTags(isWord))
    ensures Keeps(Tabs, Emacs) && Keeps(Tabs, Whitespace)
  {
    hide FixInclude, FixDoxygen, FixEmacs, FixWhitespace, Expand;
    forall line
      ensures KeepsLine(Tabs, IncludeQuotes, line) && KeepsLine(Tabs, DoxygenTags(isWord), line)
      ensures KeepsLine(Tabs, Emacs, line) && KeepsLine(Tabs, Whitespace, line)
    {
      TabsKeepLine(isWord, line);
    }
  }

  lemma TabsKeepLine(isWord: char -> bool, line: string)
    ensures var fixed := Expand(line, 0);
            && (FixInclude(line).compliant ==> FixInclude(fixed).compliant)
            && (FixDoxygen(isWord, line).compliant ==> FixDoxygen(isWord, fixed).compliant)
            && (FixEmacs(line).compliant ==> FixEmacs(fixed).compliant)
            && (FixWhitespace(line).compliant ==> FixWhitespace(fixed).compliant)
  {
    hide FixDoxygen, FixEmacs, FixWhitespace, IsAngleInclude, Expand;
    if IsAngleInclude(Expand(line, 0)) {
      TabsKeepInclude(line);
    }
    if !FixDoxygen(isWord, Expand(line, 0)).compliant {
      TabsKeepDoxygen(isWord, line);
    }
    if !FixEmacs(Expand(line, 0)).compliant {
      TabsKeepEmacs(line);
    }
    if FixWhitespace(line).compliant {
      TabsKeepWhitespaceOk(line);
    }
  }
}
