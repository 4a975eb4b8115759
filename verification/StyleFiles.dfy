/** `check_manually_file`: one check over all lines of a file, in check mode or in fix mode, with the
    guards that switch it off and on. */
module StyleFiles {
  import opened StyleText
  import opened StyleChecks
  import opened StyleLines

  // ----- reading and writing

  function BreakAt(s: string, i: nat): nat
    requires i <= |s|
    ensures i <= BreakAt(s, i) <= |s|
    ensures forall k :: i <= k < BreakAt(s, i) ==> s[k] != '\n'
    ensures BreakAt(s, i) < |s| ==> s[BreakAt(s, i)] == '\n'
    decreases |s| - i
  {
    if i == |s| || s[i] == '\n' then i else BreakAt(s, i + 1)
  }

  /** `readlines`: each line with its line break; the last one may have none. */
  function ReadLines(content: string): seq<string>
    decreases |content|
  {
    if content == "" then []
    else
      var k := BreakAt(content, 0);
      if k == |content| then [content] else [content[..k + 1]] + ReadLines(content[k + 1..])
  }

  /** `writelines`. */
  function WriteLines(lines: seq<string>): string {
    if lines == [] then "" else lines[0] + WriteLines(lines[1..])
  }

  function NonEmpty(lines: seq<string>): seq<string> {
    if lines == [] then []
    else if lines[0] == "" then NonEmpty(lines[1..])
    else [lines[0]] + NonEmpty(lines[1..])
  }

  /** Lines of which only the last can lack a line break, up to deleted ones. */
  predicate Well(lines: seq<string>) {
    && (forall i :: 0 <= i < |lines| ==> LineShape(lines[i]))
    && (forall i :: 0 <= i < |lines| - 1 ==> lines[i] == "" || Ends(lines[i]))
  }

  lemma {:induction false} ReadIsWell(content: string)
    ensures Well(ReadLines(content)) && WriteLines(ReadLines(content)) == content
    ensures forall i :: 0 <= i < |ReadLines(content)| ==> ReadLines(content)[i] != ""
    decreases |content|
  {
    if content != "" {
      var k := BreakAt(content, 0);
      if k < |content| {
        ReadIsWell(content[k + 1..]);
        FirstLine(content, k);
        WellCons(content[..k + 1], ReadLines(content[k + 1..]));
      } else {
        assert WriteLines([content]) == content + "" == content;
      }
    }
  }

  lemma FirstLine(content: string, k: nat)
    requires k < |content| && content[k] == '\n' && forall i :: 0 <= i < k ==> content[i] != '\n'
    ensures LineShape(content[..k + 1]) && Ends(content[..k + 1]) && content == content[..k + 1] + content[k + 1..]
  {
  }

  lemma WellCons(line: string, rest: seq<string>)
    requires Well(rest) && LineShape(line) && (rest == [] || line == "" || Ends(line))
    ensures Well([line] + rest) && WriteLines([line] + rest) == line + WriteLines(rest)
  {
    forall i | 0 <= i < |[line] + rest| - 1 ensures ([line] + rest)[i] == "" || Ends(([line] + rest)[i]) {
      if i > 0 {
        assert ([line] + rest)[i] == rest[i - 1];
      }
    }
  }

  lemma BreakOfLine(line: string, rest: string)
    requires LineShape(line) && line != "" && (rest == "" || Ends(line))
    ensures BreakAt(line + rest, 0) == if Ends(line) then |line| - 1 else |line|
  {
    var s, k := line + rest, BreakAt(line + rest, 0);
    assert forall i :: 0 <= i < |line| ==> s[i] == line[i];
    if !Ends(line) {
      assert s == line;
    }
  }

  /** A line and what comes behind it. */
  lemma ReadLine(line: string, rest: string)
    requires LineShape(line) && line != "" && (rest == "" || Ends(line))
    ensures ReadLines(line + rest) == [line] + ReadLines(rest)
  {
    BreakOfLine(line, rest);
    if Ends(line) {
      assert (line + rest)[..|line|] == line && (line + rest)[|line|..] == rest;
    } else {
      assert line + rest == line;
    }
  }

  /** Reading what was written gives the lines back, without the deleted ones. */
  lemma {:induction false} ReadWhatWasWritten(lines: seq<string>)
    requires Well(lines)
    ensures ReadLines(WriteLines(lines)) == NonEmpty(lines)
    decreases |lines|
  {
    if lines != [] {
      var line, rest := lines[0], WriteLines(lines[1..]);
      WellTail(lines);
      ReadWhatWasWritten(lines[1..]);
      assert lines[1..] == [] ==> rest == "";
      hide ReadLines, BreakAt;
      if line == "" {
        assert line + rest == rest;
      } else {
        ReadLine(line, rest);
      }
    }
  }

  lemma WellTail(lines: seq<string>)
    requires Well(lines) && lines != []
    ensures Well(lines[1..])
  {
    forall i | 0 <= i < |lines[1..]| - 1 ensures lines[1..][i] == "" || Ends(lines[1..][i]) {
      assert lines[1..][i] == lines[i + 1];
    }
  }

  // ----- the pass over the lines

  /** `clang_format_enabled` after looking at a line; it never changes when guards are not respected. */
  function Enabled(respect: bool, enabled: bool, line: string): bool {
    if !respect then enabled
    else if IsOn(line) then true
    else if IsOff(line) then false
    else enabled
  }

  /** Guards themselves are always checked. */
  predicate Looks(respect: bool, enabled: bool, line: string) {
    !respect || Enabled(respect, enabled, line) || IsOn(line) || IsOff(line)
  }

  function FixOne(c: Check, respect: bool, enabled: bool, line: string): string {
    if Looks(respect, enabled, line) && !FixLine(c, line).compliant then FixLine(c, line).fixed else line
  }

  function FixAll(c: Check, respect: bool, enabled: bool, lines: seq<string>): (fixed: seq<string>)
    ensures |fixed| == |lines|
    decreases |lines|
  {
    if lines == [] then []
    else [FixOne(c, respect, enabled, lines[0])]
         + FixAll(c, respect, Enabled(respect, enabled, lines[0]), lines[1..])
  }

  predicate Compliant(c: Check, respect: bool, enabled: bool, lines: seq<string>)
    decreases |lines|
  {
    lines == [] ||
    ((Looks(respect, enabled, lines[0]) ==> FixLine(c, lines[0]).compliant) &&
     Compliant(c, respect, Enabled(respect, enabled, lines[0]), lines[1..]))
  }

  /** The file after a run in fix mode. */
  function FixedFile(c: Check, respect: bool, content: string): string {
    if Compliant(c, respect, true, ReadLines(content)) then content
    else WriteLines(FixAll(c, respect, true, ReadLines(content)))
  }

  predicate FileComplies(c: Check, respect: bool, content: string) {
    Compliant(c, respect, true, ReadLines(content))
  }

  /** The body of the loop for one line. */
  method CheckLine(c: Check, respect: bool, was: bool, line: string)
    returns (enabled: bool, isLineCompliant: bool, lineFixed: string)
    ensures enabled == Enabled(respect, was, line)
    ensures isLineCompliant <==> (Looks(respect, was, line) ==> FixLine(c, line).compliant)
    ensures (if isLineCompliant then line else lineFixed) == FixOne(c, respect, was, line)
  {
    enabled := was;
    if respect {
      var stripped := Trim(IsSpace, line);
      if stripped in GUARDS_ON {
        enabled := true;
      } else if stripped in GUARDS_OFF {
        enabled := false;
      }
      if !enabled && stripped !in GUARDS_ON + GUARDS_OFF {
        return enabled, true, line;
      }
    }
    var result := FixLine(c, line);
    return enabled, result.compliant, result.fixed;
  }

  lemma Associates(a: seq<string>, b: seq<string>, c: seq<string>)
    ensures a + (b + c) == a + b + c
  {
  }

  lemma PassStep(c: Check, respect: bool, enabled: bool, done: seq<string>, rest: seq<string>)
    requires rest != []
    ensures done + FixAll(c, respect, enabled, rest)
         == done + [FixOne(c, respect, enabled, rest[0])]
            + FixAll(c, respect, Enabled(respect, enabled, rest[0]), rest[1..])
    ensures Compliant(c, respect, enabled, rest) <==>
            (Looks(respect, enabled, rest[0]) ==> FixLine(c, rest[0]).compliant) &&
            Compliant(c, respect, Enabled(respect, enabled, rest[0]), rest[1..])
  {
    hide FixOne, Looks, Enabled, FixLine;
    var fixed, more := FixOne(c, respect, enabled, rest[0]), FixAll(c, respect, Enabled(respect, enabled, rest[0]), rest[1..]);
    assert FixAll(c, respect, enabled, rest) == [fixed] + more;
    Associates(done, [fixed], more);
  }

  lemma EmptyPass(c: Check, respect: bool)
    ensures forall e :: FixAll(c, respect, e, []) == [] && Compliant(c, respect, e, [])
  {
  }

  /** Putting a line back, or another in its place. */
  lemma Advance(file: seq<string>, done: seq<string>, rest: seq<string>)
    requires file == done + rest && rest != []
    ensures file[|done|] == rest[0] && file == done + [rest[0]] + rest[1..]
    ensures forall fixed :: file[|done| := fixed] == done + [fixed] + rest[1..]
  {
  }

  /** Returns the verdict and the content of the file afterwards. Outside verbose mode the first
      violation ends a run that is not to fix anything. */
  method CheckManuallyFile(content: string, fix: bool, verbose: bool, respect: bool, c: Check)
    returns (isFileCompliant: bool, after: string)
    ensures isFileCompliant == FileComplies(c, respect, content) == AllComply(c, respect, ReadLines(content))
    ensures after == if fix then FixedFile(c, respect, content) else content
    ensures after == if fix && !isFileCompliant then WriteLines(Corrected(c, respect, ReadLines(content))) else content
  {
    FileCompliesIff(c, respect, content);
    isFileCompliant := true;
    var enabled := true;
    var fileLines := ReadLines(content);
    ghost var lines := fileLines;
    ghost var done, rest: seq<string> := [], fileLines;
    EmptyPass(c, respect);
    hide FixOne, Looks, Enabled, FixLine, ReadLines, FixAll, Compliant, AllComply, Corrected;
    for i := 0 to |fileLines|
      invariant |done| == i && i + |rest| == |lines| && fileLines == done + rest
      invariant FixAll(c, respect, true, lines) == done + FixAll(c, respect, enabled, rest)
      invariant Compliant(c, respect, true, lines)
            <==> isFileCompliant && Compliant(c, respect, enabled, rest)
    {
      PassStep(c, respect, enabled, done, rest);
      Advance(fileLines, done, rest);
      ghost var fixed := FixOne(c, respect, enabled, rest[0]);
      var isLineCompliant, lineFixed;
      enabled, isLineCompliant, lineFixed := CheckLine(c, respect, enabled, fileLines[i]);
      if !isLineCompliant {
        isFileCompliant := false;
        fileLines := fileLines[i := lineFixed];
        if !fix && !verbose {
          break;
        }
      }
      done, rest := done + [fixed], rest[1..];
    }
    after := content;
    if fix && !isFileCompliant {
      assert fileLines == FixAll(c, respect, true, lines);
      after := WriteLines(fileLines);
    }
  }

  // ----- fix, then check

  /** What is enabled in the second pass was enabled in the first: a fixed line can become a guard, but
      only an on guard where checking is on already, and no off guard is lost. */
  lemma EnabledOnlyIfBefore(c: Check, respect: bool, first: bool, second: bool, line: string)
    requires second ==> first
    ensures var fixed := FixOne(c, respect, first, line);
            Enabled(respect, second, fixed) ==> Enabled(respect, first, line)
    ensures FixOne(c, respect, first, line) == "" ==> (second ==> Enabled(respect, first, line)) || line == ""
  {
    if Looks(respect, first, line) && !FixLine(c, line).compliant && IsOff(line) {
      OffGuardStays(c, line);
      assert Trim(IsSpace, "") == "" && |GUARDS_OFF[0]| > 0 && |GUARDS_OFF[1]| > 0 && |GUARDS_OFF[2]| > 0;
    }
    OnIsNotOff(line);
    OnIsNotOff(FixOne(c, respect, first, line));
  }

  lemma OnIsNotOff(line: string)
    ensures !(IsOn(line) && IsOff(line))
  {
    assert |GUARDS_ON[0]| == 18 && |GUARDS_ON[1]| == 18 && |GUARDS_ON[2]| == 9;
    assert |GUARDS_OFF[0]| == 19 && |GUARDS_OFF[1]| == 19 && |GUARDS_OFF[2]| == 10;
  }

  /** A surviving line that the second pass looks at complies. */
  lemma SurvivorComplies(c: Check, respect: bool, first: bool, second: bool, line: string)
    requires second ==> first
    requires FixOne(c, respect, first, line) != ""
    requires Looks(respect, second, FixOne(c, respect, first, line))
    ensures FixLine(c, FixOne(c, respect, first, line)).compliant
  {
    if !FixLine(c, line).compliant {
      FixedLineComplies(c, line);
    }
  }

  lemma {:induction false} FixedLinesComply(c: Check, respect: bool, first: bool, second: bool, lines: seq<string>)
    requires second ==> first
    requires forall i :: 0 <= i < |lines| ==> lines[i] != ""
    ensures Compliant(c, respect, second, NonEmpty(FixAll(c, respect, first, lines)))
    decreases |lines|
  {
    if lines != [] {
      var line := lines[0];
      var fixed := FixOne(c, respect, first, line);
      var all := FixAll(c, respect, first, lines);
      assert all[0] == fixed && all[1..] == FixAll(c, respect, Enabled(respect, first, line), lines[1..]);
      EnabledOnlyIfBefore(c, respect, first, second, line);
      if fixed == "" {
        FixedLinesComply(c, respect, Enabled(respect, first, line), second, lines[1..]);
      } else {
        FixedLinesComply(c, respect, Enabled(respect, first, line), Enabled(respect, second, fixed), lines[1..]);
        if Looks(respect, second, fixed) {
          SurvivorComplies(c, respect, first, second, line);
        }
      }
    }
  }

  lemma {:induction false} FixedLinesAreWell(c: Check, respect: bool, enabled: bool, lines: seq<string>)
    requires Well(lines) && forall i :: 0 <= i < |lines| ==> lines[i] != ""
    ensures Well(FixAll(c, respect, enabled, lines))
    decreases |lines|
  {
    if lines != [] {
      WellTail(lines);
      var rest := FixAll(c, respect, Enabled(respect, enabled, lines[0]), lines[1..]);
      FixedLinesAreWell(c, respect, Enabled(respect, enabled, lines[0]), lines[1..]);
      if !FixLine(c, lines[0]).compliant {
        FixedShape(c, lines[0]);
      }
      var fixed := FixOne(c, respect, enabled, lines[0]);
      hide FixAll, FixLine, Enabled;
      WellCons(fixed, rest);
    }
  }

  lemma FixedFileLines(c: Check, respect: bool, content: string)
    ensures !FileComplies(c, respect, content) ==>
              ReadLines(FixedFile(c, respect, content))
              == NonEmpty(FixAll(c, respect, true, ReadLines(content)))
  {
    ReadIsWell(content);
    FixedLinesAreWell(c, respect, true, ReadLines(content));
    ReadWhatWasWritten(FixAll(c, respect, true, ReadLines(content)));
  }

  /** Every check, with or without guards: the file that a run in fix mode leaves passes the same check,
      so a second run in fix mode changes nothing. */
  lemma FixThenCheckPasses(c: Check, respect: bool, content: string)
    ensures FileComplies(c, respect, FixedFile(c, respect, content))
    ensures FixedFile(c, respect, FixedFile(c, respect, content)) == FixedFile(c, respect, content)
  {
    ReadIsWell(content);
    FixedFileLines(c, respect, content);
    FixedLinesComply(c, respect, true, true, ReadLines(content));
  }

  // ----- regions that are switched off

  function EnabledAfter(respect: bool, enabled: bool, lines: seq<string>): bool
    decreases |lines|
  {
    if lines == [] then enabled else EnabledAfter(respect, Enabled(respect, enabled, lines[0]), lines[1..])
  }

  /** A line in a region that is switched off stays as it is. */
  lemma OffRegionUnchanged(c: Check, enabled: bool, lines: seq<string>, i: nat)
    requires i < |lines| && !IsOn(lines[i]) && !IsOff(lines[i])
    requires !EnabledAfter(true, enabled, lines[..i])
    ensures i < |FixAll(c, true, enabled, lines)| && FixAll(c, true, enabled, lines)[i] == lines[i]
  {
    PassAt(c, true, enabled, lines, i);
    hide IsOn, IsOff, FixAll, EnabledAfter, FixLine;
  }

  // ----- the guards by line number

  /** Between two lines there is a guard that switches checking on. */
  predicate OnBetween(lines: seq<string>, i: nat, n: nat) {
    exists j :: i < j < n && j < |lines| && IsOn(lines[j])
  }

  /** Every off guard before line `n` has an on guard behind it and before line `n`. */
  predicate SwitchedOn(lines: seq<string>, n: nat) {
    forall i :: 0 <= i < n && i < |lines| && IsOff(lines[i]) ==> OnBetween(lines, i, n)
  }

  lemma {:induction false} EnabledSnoc(respect: bool, enabled: bool, lines: seq<string>, line: string)
    ensures EnabledAfter(respect, enabled, lines + [line])
         == Enabled(respect, EnabledAfter(respect, enabled, lines), line)
    decreases |lines|
  {
    hide Enabled;
    if lines == [] {
      assert [line][1..] == [] && lines + [line] == [line];
    } else {
      assert (lines + [line])[1..] == lines[1..] + [line];
      EnabledSnoc(respect, Enabled(respect, enabled, lines[0]), lines[1..], line);
    }
  }

  /** Checking is on before line `n` exactly when every off guard above has an on guard behind it. */
  lemma {:induction false} EnabledIff(lines: seq<string>, n: nat)
    requires n <= |lines|
    ensures EnabledAfter(true, true, lines[..n]) <==> SwitchedOn(lines, n)
    decreases n
  {
    if n == 0 {
      assert lines[..0] == [];
    } else {
      assert lines[..n] == lines[..n - 1] + [lines[n - 1]];
      EnabledSnoc(true, true, lines[..n - 1], lines[n - 1]);
      EnabledIff(lines, n - 1);
      OnIsNotOff(lines[n - 1]);
      hide IsOn, IsOff, EnabledAfter, SwitchedOn;
      SwitchedOnSnoc(lines, n);
    }
  }

  lemma SwitchedOnSnoc(lines: seq<string>, n: nat)
    requires 0 < n <= |lines| && !(IsOn(lines[n - 1]) && IsOff(lines[n - 1]))
    ensures SwitchedOn(lines, n) <==>
            IsOn(lines[n - 1]) || (!IsOff(lines[n - 1]) && SwitchedOn(lines, n - 1))
  {
    hide IsOn, IsOff;
    var last := lines[n - 1];
    if IsOn(last) {
      forall i | 0 <= i < n && IsOff(lines[i]) ensures OnBetween(lines, i, n) {
        assert i < n - 1 < n && IsOn(lines[n - 1]);
      }
    } else {
      forall i | 0 <= i < n ensures OnBetween(lines, i, n) <==> OnBetween(lines, i, n - 1) {
        if j :| i < j < n && IsOn(lines[j]) {
          assert j < n - 1;
        }
      }
      assert !OnBetween(lines, n - 1, n);
    }
  }

  /** The lines a check concerns: all of them if it ignores the guards, and otherwise the guards
      themselves and the lines where checking is on. */
  predicate Concerned(respect: bool, lines: seq<string>, i: nat)
    requires i < |lines|
  {
    !respect || IsOn(lines[i]) || IsOff(lines[i]) || SwitchedOn(lines, i)
  }

  /** Each concerned line that does not comply is replaced, and nothing else. */
  function Corrected(c: Check, respect: bool, lines: seq<string>): seq<string> {
    seq(|lines|, i requires 0 <= i < |lines| =>
      if Concerned(respect, lines, i) && !FixLine(c, lines[i]).compliant then FixLine(c, lines[i]).fixed else lines[i])
  }

  predicate AllComply(c: Check, respect: bool, lines: seq<string>) {
    forall i :: 0 <= i < |lines| && Concerned(respect, lines, i) ==> FixLine(c, lines[i]).compliant
  }

  /** What the pass does at line `i` depends on whether checking is on before that line. */
  lemma {:induction false} PassAt(c: Check, respect: bool, enabled: bool, lines: seq<string>, i: nat)
    requires i < |lines|
    ensures FixAll(c, respect, enabled, lines)[i]
         == FixOne(c, respect, EnabledAfter(respect, enabled, lines[..i]), lines[i])
    decreases |lines|
  {
    hide FixOne, Enabled;
    if i > 0 {
      assert lines[..i][1..] == lines[1..][..i - 1];
      PassAt(c, respect, Enabled(respect, enabled, lines[0]), lines[1..], i - 1);
    }
  }

  predicate LooksAt(respect: bool, enabled: bool, lines: seq<string>, i: nat)
    requires i < |lines|
  {
    Looks(respect, EnabledAfter(respect, enabled, lines[..i]), lines[i])
  }

  lemma LooksAtStep(respect: bool, enabled: bool, lines: seq<string>, i: nat)
    requires 0 < i < |lines|
    ensures LooksAt(respect, enabled, lines, i) <==>
            LooksAt(respect, Enabled(respect, enabled, lines[0]), lines[1..], i - 1)
  {
    hide Looks, Enabled;
    assert lines[..i][1..] == lines[1..][..i - 1];
  }

  lemma {:induction false} CompliantIff(c: Check, respect: bool, enabled: bool, lines: seq<string>)
    ensures Compliant(c, respect, enabled, lines) <==>
            forall i :: 0 <= i < |lines| && LooksAt(respect, enabled, lines, i) ==> FixLine(c, lines[i]).compliant
    decreases |lines|
  {
    if lines != [] {
      var next := Enabled(respect, enabled, lines[0]);
      CompliantIff(c, respect, next, lines[1..]);
      assert LooksAt(respect, enabled, lines, 0) <==> Looks(respect, enabled, lines[0]) by {
        assert lines[..0] == [];
      }
      forall i | 0 < i < |lines|
        ensures LooksAt(respect, enabled, lines, i) <==> LooksAt(respect, next, lines[1..], i - 1)
        ensures lines[i] == lines[1..][i - 1]
      {
        LooksAtStep(respect, enabled, lines, i);
      }
      hide Looks, Enabled, FixLine, LooksAt;
      CompliantParts(c, respect, enabled, next, lines);
    }
  }

  lemma CompliantParts(c: Check, respect: bool, enabled: bool, next: bool, lines: seq<string>)
    requires lines != []
    requires forall i :: 0 < i < |lines| ==>
               (LooksAt(respect, enabled, lines, i) <==> LooksAt(respect, next, lines[1..], i - 1))
    ensures (forall i :: 0 <= i < |lines| && LooksAt(respect, enabled, lines, i) ==> FixLine(c, lines[i]).compliant) <==>
            (LooksAt(respect, enabled, lines, 0) ==> FixLine(c, lines[0]).compliant) &&
            (forall i :: 0 <= i < |lines[1..]| && LooksAt(respect, next, lines[1..], i) ==>
               FixLine(c, lines[1..][i]).compliant)
  {
    hide LooksAt, FixLine;
    var rest := lines[1..];
    if forall i :: 0 <= i < |lines| && LooksAt(respect, enabled, lines, i) ==> FixLine(c, lines[i]).compliant {
      forall i | 0 <= i < |rest| && LooksAt(respect, next, rest, i) ensures FixLine(c, rest[i]).compliant {
        assert rest[i] == lines[i + 1] && LooksAt(respect, enabled, lines, i + 1);
      }
    }
    if forall i :: 0 <= i < |rest| && LooksAt(respect, next, rest, i) ==> FixLine(c, rest[i]).compliant {
      forall i | 0 < i < |lines| && LooksAt(respect, enabled, lines, i) ensures FixLine(c, lines[i]).compliant {
        assert rest[i - 1] == lines[i] && LooksAt(respect, next, rest, i - 1);
      }
    }
  }

  lemma {:induction false} EnabledConstant(enabled: bool, lines: seq<string>)
    ensures EnabledAfter(false, enabled, lines) == enabled
    decreases |lines|
  {
    if lines != [] {
      EnabledConstant(enabled, lines[1..]);
    }
  }

  lemma LooksIff(respect: bool, lines: seq<string>, i: nat)
    requires i < |lines|
    ensures LooksAt(respect, true, lines, i) <==> Concerned(respect, lines, i)
  {
    hide IsOn, IsOff, SwitchedOn, EnabledAfter;
    EnabledIff(lines, i);
    OnIsNotOff(lines[i]);
  }

  /** Verdict and fixed lines of a whole file, line by line and without following the guards: with guards
      respected a line counts if it is a guard, or if every off guard above it is followed by an on guard
      above it. */
  lemma PassIsByLine(c: Check, respect: bool, lines: seq<string>)
    ensures Compliant(c, respect, true, lines) <==> AllComply(c, respect, lines)
    ensures FixAll(c, respect, true, lines) == Corrected(c, respect, lines)
  {
    forall i | 0 <= i < |lines|
      ensures LooksAt(respect, true, lines, i) <==> Concerned(respect, lines, i)
      ensures FixAll(c, respect, true, lines)[i] == Corrected(c, respect, lines)[i]
    {
      LooksIff(respect, lines, i);
      FixedAt(c, respect, lines, i);
    }
    hide Concerned, LooksAt, FixLine, FixAll, Compliant, Corrected;
    CompliantIff(c, respect, true, lines);
    SameLength(c, respect, lines);
  }

  lemma SameLength(c: Check, respect: bool, lines: seq<string>)
    ensures |Corrected(c, respect, lines)| == |lines|
  {
  }

  lemma FixedAt(c: Check, respect: bool, lines: seq<string>, i: nat)
    requires i < |lines|
    ensures FixAll(c, respect, true, lines)[i] == Corrected(c, respect, lines)[i]
  {
    PassAt(c, respect, true, lines, i);
    LooksIff(respect, lines, i);
    hide Concerned, Looks, FixLine, EnabledAfter, FixAll;
  }

  /** The file complies exactly when every concerned line does. */
  lemma FileCompliesIff(c: Check, respect: bool, content: string)
    ensures FileComplies(c, respect, content) <==> AllComply(c, respect, ReadLines(content))
    ensures !FileComplies(c, respect, content) ==>
              FixedFile(c, respect, content) == WriteLines(Corrected(c, respect, ReadLines(content)))
  {
    PassIsByLine(c, respect, ReadLines(content));
    hide AllComply, Corrected, Compliant, FixAll, ReadLines, WriteLines;
  }
}
