/** The Python string operations that the style checker uses, on sequences of characters. */
module StyleText {

  /** The characters that `str.strip()` and `\s` treat as white space. */
  predicate IsSpace(c: char) {
    var n := c as int;
    (9 <= n <= 13) || (28 <= n <= 32) || n == 0x85 || n == 0xa0 || n == 0x1680 || (0x2000 <= n <= 0x200a)
    || n == 0x2028 || n == 0x2029 || n == 0x202f || n == 0x205f || n == 0x3000
  }

  // ----- strip

  function TrimRight(p: char -> bool, s: string): string {
    if s != [] && p(s[|s| - 1]) then TrimRight(p, s[..|s| - 1]) else s
  }

  function TrimLeft(p: char -> bool, s: string): string {
    if s != [] && p(s[0]) then TrimLeft(p, s[1..]) else s
  }

  function Trim(p: char -> bool, s: string): string {
    TrimLeft(p, TrimRight(p, s))
  }

  predicate All(p: char -> bool, s: string) {
    forall i :: 0 <= i < |s| ==> p(s[i])
  }

  predicate TightRight(p: char -> bool, s: string) {
    s == [] || !p(s[|s| - 1])
  }

  predicate TightLeft(p: char -> bool, s: string) {
    s == [] || !p(s[0])
  }

  /** What `rstrip` takes off is a run at the end. */
  lemma {:induction false} TrimRightSplit(p: char -> bool, s: string)
    ensures TrimRight(p, s) <= s && All(p, s[|TrimRight(p, s)|..]) && TightRight(p, TrimRight(p, s))
    decreases |s|
  {
    if s != [] && p(s[|s| - 1]) {
      var n := |s| - 1;
      TrimRightSplit(p, s[..n]);
      var k := |TrimRight(p, s)|;
      forall i | 0 <= i < |s[k..]| ensures p(s[k..][i]) {
        if i < n - k {
          assert s[k..][i] == s[..n][k..][i];
        }
      }
    }
  }

  lemma TrimRightTail(p: char -> bool, s: string)
    ensures TrimRight(p, s) <= s && forall k :: |TrimRight(p, s)| <= k < |s| ==> p(s[k])
  {
    var n := |TrimRight(p, s)|;
    TrimRightSplit(p, s);
    hide TrimRight;
    forall k | n <= k < |s| ensures p(s[k]) {
      assert s[k] == s[n..][k - n];
    }
  }

  lemma {:induction false} TrimLeftSplit(p: char -> bool, s: string)
    ensures |TrimLeft(p, s)| <= |s| && TrimLeft(p, s) == s[|s| - |TrimLeft(p, s)|..]
    ensures All(p, s[..|s| - |TrimLeft(p, s)|]) && TightLeft(p, TrimLeft(p, s))
    decreases |s|
  {
    if s != [] && p(s[0]) {
      TrimLeftSplit(p, s[1..]);
      var k := |s| - |TrimLeft(p, s)|;
      forall i | 0 <= i < k ensures p(s[..k][i]) {
        if i > 0 {
          assert s[i] == s[1..][..k - 1][i - 1];
        }
      }
    }
  }

  lemma {:induction false} TrimRightRun(p: char -> bool, s: string, run: string)
    requires TightRight(p, s) && All(p, run)
    ensures TrimRight(p, s + run) == s
    decreases |run|
  {
    if run == [] {
      assert s + run == s;
    } else {
      var n := |run| - 1;
      assert (s + run)[..|s + run| - 1] == s + run[..n];
      assert (s + run)[|s + run| - 1] == run[n];
      TrimRightRun(p, s, run[..n]);
    }
  }

  lemma {:induction false} TrimLeftRun(p: char -> bool, run: string, s: string)
    requires TightLeft(p, s) && All(p, run)
    ensures TrimLeft(p, run + s) == s
    decreases |run|
  {
    if run == [] {
      assert run + s == s;
    } else {
      assert (run + s)[1..] == run[1..] + s;
      TrimLeftRun(p, run[1..], s);
    }
  }

  /** Runs around a core that starts and ends with other characters are what `strip` removes. */
  lemma TrimRuns(p: char -> bool, before: string, core: string, after: string)
    requires All(p, before) && All(p, after) && core != [] && TightLeft(p, core) && TightRight(p, core)
    ensures TrimRight(p, before + core + after) == before + core
    ensures Trim(p, before + core + after) == core
  {
    var s := before + core;
    assert s[|s| - 1] == core[|core| - 1];
    TrimRightRun(p, s, after);
    TrimLeftRun(p, before, core);
  }

  /** Every text is its stripped core between two runs. */
  lemma TrimSplit(p: char -> bool, s: string) returns (before: string, after: string)
    ensures s == before + Trim(p, s) + after && All(p, before) && All(p, after)
    ensures TightLeft(p, Trim(p, s)) && TightRight(p, Trim(p, s))
  {
    TrimRightSplit(p, s);
    var r := TrimRight(p, s);
    TrimLeftSplit(p, r);
    var k := |r| - |Trim(p, s)|;
    before, after := r[..k], s[|r|..];
    assert s == r + after && r == before + r[k..];
    if Trim(p, s) != [] {
      assert Trim(p, s)[|Trim(p, s)| - 1] == r[|r| - 1];
    }
  }

  lemma {:induction false} TrimShorter(p: char -> bool, s: string)
    ensures |Trim(p, s)| <= |s|
  {
    TrimRightSplit(p, s);
    TrimLeftSplit(p, TrimRight(p, s));
  }

  // ----- find and replace

  predicate OccursAt(s: string, sub: string, i: nat) {
    i + |sub| <= |s| && s[i..i + |sub|] == sub
  }

  predicate Contains(s: string, sub: string) {
    exists i: nat :: i <= |s| && OccursAt(s, sub, i)
  }

  /** `str.replace`: all occurrences, from left to right, not overlapping. */
  function Replace(s: string, a: string, b: string): string
    requires a != []
    decreases |s|
  {
    if |s| < |a| then s
    else if s[..|a|] == a then b + Replace(s[|a|..], a, b)
    else [s[0]] + Replace(s[1..], a, b)
  }

  /** Up to its first occurrence the text is copied. */
  lemma {:induction false} ReplaceFirst(before: string, a: string, after: string, b: string)
    requires a != [] && forall i :: 0 <= i < |before| ==> before[i] != a[0]
    ensures Replace(before + a + after, a, b) == before + b + Replace(after, a, b)
    decreases |before|
  {
    var s := before + a + after;
    if before == [] {
      assert s[..|a|] == a && s[|a|..] == after;
    } else {
      assert s[..|a|][0] == before[0];
      assert s[1..] == before[1..] + a + after;
      ReplaceFirst(before[1..], a, after, b);
      assert [s[0]] + (before[1..] + b + Replace(after, a, b)) == before + b + Replace(after, a, b);
    }
  }

  lemma {:induction false} ReplaceNothing(s: string, a: string, b: string)
    requires a != [] && a[0] !in s
    ensures Replace(s, a, b) == s
    decreases |s|
  {
    if |s| >= |a| {
      assert s[..|a|][0] == s[0];
      ReplaceNothing(s[1..], a, b);
    }
  }

  /** A replacement of the same length leaves the line breaks where they are. */
  lemma {:induction false} ReplaceKeepsBreaks(s: string, a: string, b: string)
    requires a != [] && |a| == |b| && '\n' !in a && '\n' !in b
    ensures |Replace(s, a, b)| == |s|
    ensures forall i :: 0 <= i < |s| ==> (Replace(s, a, b)[i] == '\n' <==> s[i] == '\n')
    decreases |s|
  {
    if |s| >= |a| {
      if s[..|a|] == a {
        ReplaceKeepsBreaks(s[|a|..], a, b);
        forall i | 0 <= i < |s| ensures Replace(s, a, b)[i] == '\n' <==> s[i] == '\n' {
          if i < |a| {
            assert s[i] == a[i] && Replace(s, a, b)[i] == b[i];
          } else {
            assert s[i] == s[|a|..][i - |a|];
          }
        }
      } else {
        ReplaceKeepsBreaks(s[1..], a, b);
      }
    }
  }

  /** Replacing a first character that does not come again: every occurrence, wherever it stands, and
      nothing else. */
  lemma {:induction false} ReplaceHead(s: string, x: char, y: char, w: string, i: nat)
    requires x != y && x !in w && i < |s|
    ensures var r := Replace(s, [x] + w, [y] + w);
            |r| == |s| && r[i] == if OccursAt(s, [x] + w, i) then y else s[i]
    decreases |s|
  {
    var a, b := [x] + w, [y] + w;
    if |s| >= |a| {
      if s[..|a|] == a {
        ReplaceLength(s[|a|..], a, b);
        if i >= |a| {
          ReplaceHead(s[|a|..], x, y, w, i - |a|);
          OccursSlice(s, a, |a|, i);
        } else if i > 0 {
          assert s[i] == a[i] == w[i - 1];
          NotAtOther(s, a, i);
        }
      } else {
        ReplaceLength(s[1..], a, b);
        if i > 0 {
          ReplaceHead(s[1..], x, y, w, i - 1);
          OccursSlice(s, a, 1, i);
        }
      }
    }
  }

  lemma OccursSlice(s: string, a: string, n: nat, i: nat)
    requires n <= i < |s|
    ensures OccursAt(s, a, i) <==> OccursAt(s[n..], a, i - n)
  {
    if i + |a| <= |s| {
      assert s[n..][i - n..i - n + |a|] == s[i..i + |a|];
    }
  }

  lemma NotAtOther(s: string, a: string, i: nat)
    requires a != [] && i < |s| && s[i] != a[0]
    ensures !OccursAt(s, a, i)
  {
    if i + |a| <= |s| {
      assert s[i..i + |a|][0] == s[i];
    }
  }

  lemma {:induction false} ReplaceLength(s: string, a: string, b: string)
    requires a != [] && |a| == |b|
    ensures |Replace(s, a, b)| == |s|
    decreases |s|
  {
    if |s| >= |a| {
      if s[..|a|] == a {
        ReplaceLength(s[|a|..], a, b);
      } else {
        ReplaceLength(s[1..], a, b);
      }
    }
  }

  function ReplaceChar(s: string, a: char, b: char): string {
    seq(|s|, i requires 0 <= i < |s| => if s[i] == a then b else s[i])
  }

  // ----- expandtabs

  const TAB_SIZE := 4

  function Spaces(n: nat): string {
    seq(n, _ => ' ')
  }

  function TabWidth(column: nat): nat {
    TAB_SIZE - column % TAB_SIZE
  }

  /** The column after a character; a line break starts again at 0. */
  function NextColumn(column: nat, c: char): nat {
    if c == '\t' then column + TabWidth(column)
    else if c == '\n' || c == '\r' then 0
    else column + 1
  }

  function ColumnAfter(s: string, column: nat): nat {
    if s == [] then column else ColumnAfter(s[1..], NextColumn(column, s[0]))
  }

  function Expand(s: string, column: nat): string {
    if s == [] then []
    else (if s[0] == '\t' then Spaces(TabWidth(column)) else [s[0]]) + Expand(s[1..], NextColumn(column, s[0]))
  }

  lemma {:induction false} ExpandConcat(a: string, b: string, column: nat)
    ensures Expand(a + b, column) == Expand(a, column) + Expand(b, ColumnAfter(a, column))
    decreases |a|
  {
    if a == [] {
      assert a + b == b;
    } else {
      assert (a + b)[1..] == a[1..] + b;
      ExpandConcat(a[1..], b, NextColumn(column, a[0]));
    }
  }

  /** Text without tabs is left as it is. */
  lemma {:induction false} ExpandPlain(s: string, column: nat)
    requires '\t' !in s
    ensures Expand(s, column) == s
    decreases |s|
  {
    if s != [] {
      ExpandPlain(s[1..], NextColumn(column, s[0]));
    }
  }

  /** Expanding removes every tab, adds no line break, and turns white space into white space. */
  lemma {:induction false} ExpandCharacters(s: string, column: nat)
    ensures '\t' !in Expand(s, column)
    ensures '\n' !in s ==> '\n' !in Expand(s, column)
    ensures All(IsSpace, s) ==> All(IsSpace, Expand(s, column))
    ensures s != [] ==> Expand(s, column) != []
    decreases |s|
  {
    if s != [] {
      ExpandCharacters(s[1..], NextColumn(column, s[0]));
      if All(IsSpace, s) {
        assert IsSpace(s[0]);
      }
    }
  }

  predicate OneLine(s: string) {
    '\n' !in s && '\r' !in s
  }

  lemma ColumnStep(s: string, column: nat, i: nat)
    requires 0 < i <= |s|
    ensures ColumnAfter(s[..i], column) == ColumnAfter(s[1..][..i - 1], NextColumn(column, s[0]))
  {
    assert s[..i][1..] == s[1..][..i - 1];
  }

  /** Expanding one line gives a text as wide as the column it reaches. */
  lemma {:induction false} ExpandWidth(s: string, column: nat)
    requires OneLine(s)
    ensures |Expand(s, column)| == ColumnAfter(s, column) - column
    decreases |s|
  {
    if s != [] {
      ExpandWidth(s[1..], NextColumn(column, s[0]));
    }
  }

  /** Every character that is not a tab is found at its visual column. */
  lemma {:induction false} ExpandKeepsColumn(s: string, column: nat, i: nat)
    requires OneLine(s) && i < |s| && s[i] != '\t'
    ensures column <= ColumnAfter(s[..i], column) < column + |Expand(s, column)|
    ensures Expand(s, column)[ColumnAfter(s[..i], column) - column] == s[i]
    decreases |s|
  {
    if i > 0 {
      ExpandKeepsColumn(s[1..], NextColumn(column, s[0]), i - 1);
      ColumnStep(s, column, i);
    }
  }

  /** At every other column there is a blank. */
  lemma {:induction false} ExpandFillsWithBlanks(s: string, column: nat, k: nat) returns (i: nat)
    requires OneLine(s) && k < |Expand(s, column)| && Expand(s, column)[k] != ' '
    ensures i < |s| && s[i] != '\t' && ColumnAfter(s[..i], column) == column + k
    decreases |s|
  {
    var next := NextColumn(column, s[0]);
    if k < next - column {
      i := 0;
    } else {
      var j := ExpandFillsWithBlanks(s[1..], next, k - (next - column));
      i := j + 1;
      ColumnStep(s, column, i);
    }
  }

  // ----- tab stops

  lemma {:induction false} ColumnConcat(a: string, b: string, column: nat)
    ensures ColumnAfter(a + b, column) == ColumnAfter(b, ColumnAfter(a, column))
    decreases |a|
  {
    if a == [] {
      assert a + b == b;
    } else {
      assert (a + b)[1..] == a[1..] + b;
      ColumnConcat(a[1..], b, NextColumn(column, a[0]));
    }
  }

  lemma ColumnSnoc(s: string, x: char, column: nat)
    ensures ColumnAfter(s + [x], column) == NextColumn(ColumnAfter(s, column), x)
  {
    ColumnConcat(s, [x], column);
    assert [x][1..] == [];
    hide NextColumn;
  }

  /** A tab goes on to the next multiple of four, which is the only one within four columns; any other
      character of the line goes on by one, and a line break back to 0. */
  lemma TabStop(s: string, x: char, column: nat)
    ensures var before, after := ColumnAfter(s, column), ColumnAfter(s + [x], column);
            && (x == '\t' ==> before < after <= before + 4 && after % 4 == 0)
            && (x == '\t' ==> forall stop :: before < stop <= before + 4 && stop % 4 == 0 ==> stop == after)
            && (x != '\t' && x != '\n' && x != '\r' ==> after == before + 1)
            && (x == '\n' || x == '\r' ==> after == 0)
  {
    ColumnSnoc(s, x, column);
    OneStop(ColumnAfter(s, column));
    hide ColumnAfter;
  }

  lemma OneStop(column: nat)
    ensures var after := NextColumn(column, '\t');
            column < after <= column + 4 && after % 4 == 0 &&
            forall stop :: column < stop <= column + 4 && stop % 4 == 0 ==> stop == after
  {
  }

  /** In the text: a tab fills the line with blanks up to the next multiple of four. */
  lemma TabFillsToStop(s: string) returns (fill: string)
    requires OneLine(s)
    ensures Expand(s + "\t", 0) == Expand(s, 0) + fill
    ensures 1 <= |fill| <= 4 && |Expand(s, 0) + fill| % 4 == 0 && forall i :: 0 <= i < |fill| ==> fill[i] == ' '
  {
    var column := ColumnAfter(s, 0);
    fill := Spaces(TabWidth(column));
    ExpandConcat(s, "\t", 0);
    ExpandWidth(s, 0);
    OneStop(column);
    assert "\t"[1..] == [];
  }
}
