/** The congestion window and slow start threshold tracers of tcp-variants-comparison.cc, which write
    to each other's streams, and the parser for the context that names the node. */
module CwndTracers {
  import opened Common

  // ----- the context

  /** `find_first_of('/', from)`. */
  function FindSlash(s: string, from: nat): (r: Option<nat>)
    ensures r.Some? ==> from <= r.value < |s| && s[r.value] == '/' && forall k :: from <= k < r.value ==> s[k] != '/'
    ensures r.None? ==> forall k :: from <= k < |s| ==> s[k] != '/'
    decreases |s| - from
  {
    if from >= |s| then None
    else if s[from] == '/' then Some(from)
    else FindSlash(s, from + 1)
  }

  /** The text between the second slash and the next one. `npos + 1` is 0, and a length that wraps
      around reaches to the end. */
  function NodeField(context: string): string {
    var start := match FindSlash(context, 1) case None => 0 case Some(n1) => n1 + 1;
    match FindSlash(context, start)
    case None => if start <= |context| then context[start..] else ""
    case Some(n2) => context[start..n2]
  }

  predicate IsDigit(c: char) {
    '0' <= c <= '9'
  }

  function DigitValue(c: char): nat
    requires IsDigit(c)
  {
    c as int - '0' as int
  }

  predicate AllDigits(s: string) {
    forall i :: 0 <= i < |s| ==> IsDigit(s[i])
  }

  function Value(s: string): nat
    requires AllDigits(s)
  {
    if s == [] then 0 else Value(s[..|s| - 1]) * 10 + DigitValue(s[|s| - 1])
  }

  function LeadingDigits(s: string): (d: string)
    ensures AllDigits(d) && d <= s
  {
    if s != [] && IsDigit(s[0]) then [s[0]] + LeadingDigits(s[1..]) else []
  }

  predicate IsBlank(c: char) {
    c == ' ' || '\t' <= c <= '\r'
  }

  function SkipBlanks(s: string): string {
    if s != [] && IsBlank(s[0]) then SkipBlanks(s[1..]) else s
  }

  const ULONG := 0x1_0000_0000_0000_0000
  const UINT32 := 0x1_0000_0000

  function SignOf(t: string): (sign: string)
    ensures sign <= t && (sign == "" || sign == "+" || sign == "-")
  {
    if t != "" && t[0] == '-' then "-" else if t != "" && t[0] == '+' then "+" else ""
  }

  /** The number that a sign and digits stand for. */
  function Signed(sign: string, digits: string): nat
    requires AllDigits(digits) && Value(digits) < ULONG
  {
    if sign == "-" then (ULONG - Value(digits)) % ULONG else Value(digits)
  }

  /** `std::stoul`: none stands for the exception it throws. */
  function Stoul(s: string): Option<nat> {
    var t := SkipBlanks(s);
    var sign := SignOf(t);
    var digits := LeadingDigits(t[|sign|..]);
    if digits == [] || Value(digits) >= ULONG then None else Some(Signed(sign, digits))
  }

  function GetNodeIdFromContext(context: string): Option<nat> {
    match Stoul(NodeField(context))
    case None => None
    case Some(id) => Some(id % UINT32)
  }

  /** `std::to_string`. */
  function Decimal(n: nat): (s: string)
    ensures s != []
  {
    if n < 10 then [(n + '0' as int) as char] else Decimal(n / 10) + [(n % 10 + '0' as int) as char]
  }

  lemma {:induction false} DecimalValue(n: nat)
    ensures AllDigits(Decimal(n)) && Value(Decimal(n)) == n
    decreases n
  {
    if n >= 10 {
      DecimalValue(n / 10);
      var s := Decimal(n);
      assert s[..|s| - 1] == Decimal(n / 10);
    }
  }

  lemma {:induction false} LeadingAll(s: string)
    requires AllDigits(s)
    ensures LeadingDigits(s) == s
    decreases |s|
  {
    if s != [] {
      LeadingAll(s[1..]);
    }
  }

  lemma SlashAt(s: string, from: nat, i: nat)
    requires from <= i < |s| && s[i] == '/' && forall k :: from <= k < i ==> s[k] != '/'
    ensures FindSlash(s, from) == Some(i)
  {
  }

  lemma StoulDecimal(id: nat)
    ensures Stoul(Decimal(id)) == (if id < ULONG then Some(id) else None) && AllDigits(Decimal(id))
  {
    var d := Decimal(id);
    DecimalValue(id);
    LeadingAll(d);
    assert IsDigit(d[0]);
    hide Decimal, Value, LeadingDigits;
    assert SkipBlanks(d) == d && SignOf(d) == "" && d[0..] == d;
  }

  /** The parser gives back the node of every context for a node in the node list: a number that fits in
      64 bits is cut to 32, and one that does not makes it throw. */
  lemma NodeIdRoundTrip(id: nat, after: string)
    requires after == "" || after[0] == '/'
    ensures GetNodeIdFromContext("/NodeList/" + Decimal(id) + after) == if id < ULONG then Some(id % UINT32) else None
    ensures id < UINT32 ==> GetNodeIdFromContext("/NodeList/" + Decimal(id) + after) == Some(id)
  {
    StoulDecimal(id);
    var d := Decimal(id);
    FieldOf(d, after);
    ParsedField("/NodeList/" + d + after, d, id);
  }

  lemma ParsedField(context: string, field: string, id: nat)
    requires NodeField(context) == field && Stoul(field) == if id < ULONG then Some(id) else None
    ensures GetNodeIdFromContext(context) == if id < ULONG then Some(id % UINT32) else None
    ensures id < UINT32 ==> GetNodeIdFromContext(context) == Some(id)
  {
    hide Stoul, NodeField;
  }

  /** The field is what stands behind the second slash, up to the next one. */
  lemma NodeFieldIs(first: char, part: string, field: string, after: string)
    requires '/' !in part && '/' !in field && (after == "" || after[0] == '/')
    ensures NodeField([first] + part + "/" + field + after) == field
  {
    var context := [first] + part + "/" + field + after;
    var n := 1 + |part|;
    assert forall k :: 1 <= k < n ==> context[k] == part[k - 1];
    assert forall k :: n + 1 <= k < n + 1 + |field| ==> context[k] == field[k - n - 1];
    SlashAt(context, 1, n);
    if after != "" {
      SlashAt(context, n + 1, n + 1 + |field|);
      assert context[n + 1..n + 1 + |field|] == field;
    } else {
      assert context[n + 1..] == field;
    }
  }

  lemma FieldOf(d: string, after: string)
    requires AllDigits(d) && (after == "" || after[0] == '/')
    ensures NodeField("/NodeList/" + d + after) == d
  {
    assert "/NodeList/" + d + after == ['/'] + "NodeList" + "/" + d + after;
    assert '/' !in "NodeList";
    NodeFieldIs('/', "NodeList", d, after);
  }

  /** White space, a sign or none, at least one digit, and then anything but a digit. */
  predicate Reads(s: string, blanks: string, sign: string, digits: string, rest: string) {
    && s == blanks + (sign + (digits + rest)) && (forall i :: 0 <= i < |blanks| ==> IsBlank(blanks[i]))
    && (sign == "" || sign == "+" || sign == "-") && digits != "" && AllDigits(digits)
    && (rest == "" || !IsDigit(rest[0]))
  }

  lemma {:induction false} BlanksSkipped(blanks: string, s: string)
    requires (forall i :: 0 <= i < |blanks| ==> IsBlank(blanks[i])) && (s == "" || !IsBlank(s[0]))
    ensures SkipBlanks(blanks + s) == s
    decreases |blanks|
  {
    if blanks == "" {
      assert blanks + s == s;
    } else {
      assert (blanks + s)[1..] == blanks[1..] + s;
      BlanksSkipped(blanks[1..], s);
    }
  }

  lemma {:induction false} BlanksSplit(s: string) returns (blanks: string)
    ensures s == blanks + SkipBlanks(s) && forall i :: 0 <= i < |blanks| ==> IsBlank(blanks[i])
    ensures SkipBlanks(s) == "" || !IsBlank(SkipBlanks(s)[0])
    decreases |s|
  {
    if s != "" && IsBlank(s[0]) {
      var more := BlanksSplit(s[1..]);
      blanks := [s[0]] + more;
    } else {
      blanks := "";
    }
  }

  lemma {:induction false} DigitsThenRest(digits: string, rest: string)
    requires AllDigits(digits) && (rest == "" || !IsDigit(rest[0]))
    ensures LeadingDigits(digits + rest) == digits
    decreases |digits|
  {
    if digits == "" {
      assert digits + rest == rest;
    } else {
      assert (digits + rest)[1..] == digits[1..] + rest;
      DigitsThenRest(digits[1..], rest);
    }
  }

  lemma {:induction false} DigitsSplit(s: string)
    ensures var n := |LeadingDigits(s)|; n == |s| || !IsDigit(s[n])
    decreases |s|
  {
    if s != "" && IsDigit(s[0]) {
      DigitsSplit(s[1..]);
    }
  }

  lemma SignThenDigit(sign: string, u: string)
    requires (sign == "" || sign == "+" || sign == "-") && u != "" && IsDigit(u[0])
    ensures SignOf(sign + u) == sign && !IsBlank((sign + u)[0]) && (sign + u)[|sign|..] == u
  {
    assert sign != "" ==> (sign + u)[0] == sign[0];
  }

  lemma ReadGives(s: string, blanks: string, sign: string, digits: string, rest: string)
    requires Reads(s, blanks, sign, digits, rest)
    ensures Stoul(s) == if Value(digits) < ULONG then Some(Signed(sign, digits)) else None
  {
    hide SkipBlanks, LeadingDigits, Value, SignOf, Signed;
    var u := digits + rest;
    assert u[0] == digits[0];
    SignThenDigit(sign, u);
    BlanksSkipped(blanks, sign + u);
    DigitsThenRest(digits, rest);
  }

  lemma ReadParts(s: string, v: nat) returns (blanks: string, sign: string, digits: string, rest: string)
    requires Stoul(s) == Some(v)
    ensures Reads(s, blanks, sign, digits, rest) && Value(digits) < ULONG && v == Signed(sign, digits)
  {
    hide SkipBlanks, LeadingDigits, Value, SignOf, Signed;
    var t := SkipBlanks(s);
    blanks := BlanksSplit(s);
    sign := SignOf(t);
    var u := t[|sign|..];
    digits := LeadingDigits(u);
    DigitsSplit(u);
    rest := u[|digits|..];
    assert t == sign + u && u == digits + rest;
  }

  /** `stoul` gives a number exactly for a text of that form whose digits fit in 64 bits. */
  lemma StoulIff(s: string, v: nat)
    ensures Stoul(s) == Some(v) <==>
            exists blanks, sign, digits, rest ::
              Reads(s, blanks, sign, digits, rest) && Value(digits) < ULONG && v == Signed(sign, digits)
  {
    hide Stoul, Signed, Value;
    if Stoul(s) == Some(v) {
      var blanks, sign, digits, rest := ReadParts(s, v);
    }
    if blanks, sign, digits, rest :| Reads(s, blanks, sign, digits, rest) && Value(digits) < ULONG
                                     && v == Signed(sign, digits) {
      ReadGives(s, blanks, sign, digits, rest);
    }
  }

  // ----- what the streams should hold

  datatype Line = Line(time: real, value: nat)

  /** A trace event of one node: a change of cwnd, or of ssthresh. */
  datatype Change = Change(cwnd: bool, time: real, oldval: nat, newval: nat)

  /** The variable has changed at least once. */
  predicate Fired(changes: seq<Change>, cwnd: bool) {
    exists i :: 0 <= i < |changes| && changes[i].cwnd == cwnd
  }

  /** The current value of the variable; a map entry that was never set is 0. */
  function Current(changes: seq<Change>, cwnd: bool): nat {
    if changes == [] then 0
    else
      var n := |changes| - 1;
      if changes[n].cwnd == cwnd then changes[n].newval else Current(changes[..n], cwnd)
  }

  /** The index of the variable's first change, or the number of changes if there is none. */
  function FirstChange(changes: seq<Change>, cwnd: bool): (f: nat)
    ensures f <= |changes|
    ensures forall i :: 0 <= i < f ==> changes[i].cwnd != cwnd
    ensures f < |changes| ==> changes[f].cwnd == cwnd
  {
    if changes == [] then 0
    else
      var n := |changes| - 1;
      var f := FirstChange(changes[..n], cwnd);
      if f < n || changes[n].cwnd == cwnd then f else n + 1
  }

  /** The line for change `k`: its time, and the variable's value after it. */
  function LineAt(changes: seq<Change>, k: nat, cwnd: bool): Line
    requires k < |changes|
  {
    Line(changes[k].time, Current(changes[..k + 1], cwnd))
  }

  function LinesFrom(changes: seq<Change>, f: nat, cwnd: bool): seq<Line>
    requires f <= |changes|
  {
    seq(|changes| - f, i requires 0 <= i < |changes| - f => LineAt(changes, f + i, cwnd))
  }

  /** The stream of a variable: the old value of its first change at time 0.0, and then, from that
      change on, the variable's value at every change of either variable. */
  function Expected(changes: seq<Change>, cwnd: bool): seq<Line> {
    var f := FirstChange(changes, cwnd);
    if f == |changes| then [] else [Line(0.0, changes[f].oldval)] + LinesFrom(changes, f, cwnd)
  }

  /** What one more change appends to the stream of a variable. */
  function Appended(changes: seq<Change>, c: Change, cwnd: bool): seq<Line> {
    if c.cwnd == cwnd then
      (if Fired(changes, cwnd) then [] else [Line(0.0, c.oldval)]) + [Line(c.time, c.newval)]
    else if Fired(changes, cwnd) then [Line(c.time, Current(changes, cwnd))]
    else []
  }

  lemma FiredIff(changes: seq<Change>, cwnd: bool)
    ensures Fired(changes, cwnd) <==> FirstChange(changes, cwnd) < |changes|
  {
  }

  lemma FirstChangeSnoc(changes: seq<Change>, c: Change, cwnd: bool)
    ensures FirstChange(changes + [c], cwnd)
         == if Fired(changes, cwnd) then FirstChange(changes, cwnd)
            else if c.cwnd == cwnd then |changes| else |changes| + 1
  {
    FiredIff(changes, cwnd);
    assert (changes + [c])[..|changes|] == changes;
  }

  lemma LinesFromSnoc(changes: seq<Change>, c: Change, f: nat, cwnd: bool)
    requires f <= |changes|
    ensures LinesFrom(changes + [c], f, cwnd)
         == LinesFrom(changes, f, cwnd) + [LineAt(changes + [c], |changes|, cwnd)]
  {
    var all := changes + [c];
    forall k | 0 <= k < |changes| ensures LineAt(all, k, cwnd) == LineAt(changes, k, cwnd) {
      assert all[..k + 1] == changes[..k + 1];
    }
    hide LineAt;
  }

  lemma CurrentSnoc(changes: seq<Change>, c: Change, cwnd: bool)
    ensures Current(changes + [c], cwnd) == if c.cwnd == cwnd then c.newval else Current(changes, cwnd)
    ensures LineAt(changes + [c], |changes|, cwnd) == Line(c.time, Current(changes + [c], cwnd))
  {
    var all := changes + [c];
    assert all[..|changes|] == changes && all[..|changes| + 1] == all;
  }

  lemma ExpectedSnoc(changes: seq<Change>, c: Change, cwnd: bool)
    ensures Expected(changes + [c], cwnd) == Expected(changes, cwnd) + Appended(changes, c, cwnd)
  {
    FirstChangeSnoc(changes, c, cwnd);
    FiredIff(changes, cwnd);
    CurrentSnoc(changes, c, cwnd);
    LinesFromSnoc(changes, c, FirstChange(changes, cwnd), cwnd);
    assert LinesFrom(changes, |changes|, cwnd) == [];
    hide Fired, Current, LineAt, LinesFrom, FirstChange;
  }

  /** The stream without the running values: nothing before the variable's first change `f`; then the
      old value of that change at time 0.0, and one line for each change from `f` on, of either variable,
      with its time and the new value of the variable's latest change `m`. */
  lemma StreamIs(changes: seq<Change>, cwnd: bool, f: nat, k: nat, m: nat)
    requires f < |changes| && changes[f].cwnd == cwnd && forall i :: 0 <= i < f ==> changes[i].cwnd != cwnd
    requires f <= m <= k < |changes| && changes[m].cwnd == cwnd && forall i :: m < i <= k ==> changes[i].cwnd != cwnd
    ensures var stream := Expected(changes, cwnd);
            && |stream| == 1 + |changes| - f && stream[0] == Line(0.0, changes[f].oldval)
            && stream[1 + k - f] == Line(changes[k].time, changes[m].newval)
  {
    assert FirstChange(changes, cwnd) == f;
    LatestIs(changes, cwnd, k, m);
    assert LinesFrom(changes, f, cwnd)[k - f] == LineAt(changes, f + (k - f), cwnd);
    hide FirstChange, Current;
  }

  lemma {:induction false} LatestIs(changes: seq<Change>, cwnd: bool, k: nat, m: nat)
    requires m <= k < |changes| && changes[m].cwnd == cwnd && forall i :: m < i <= k ==> changes[i].cwnd != cwnd
    ensures Current(changes[..k + 1], cwnd) == changes[m].newval
    decreases k
  {
    assert changes[..k + 1][..k] == changes[..k];
    if m < k {
      LatestIs(changes, cwnd, k - 1, m);
    }
  }

  lemma NoStream(changes: seq<Change>, cwnd: bool)
    requires forall i :: 0 <= i < |changes| ==> changes[i].cwnd != cwnd
    ensures Expected(changes, cwnd) == []
  {
    hide LinesFrom;
    assert FirstChange(changes, cwnd) == |changes|;
  }

  /** Once both variables have changed, both streams get one line with the same time for each further
      change. */
  lemma MirroredTail(changes: seq<Change>, k: nat)
    requires k < |changes| && Fired(changes[..k], true) && Fired(changes[..k], false)
    ensures var a, b := Expected(changes, true), Expected(changes, false);
            var back := |changes| - k;
            && back <= |a| && back <= |b|
            && a[|a| - back].time == b[|b| - back].time == changes[k].time
            && a[|a| - back].value == Current(changes[..k + 1], true)
            && b[|b| - back].value == Current(changes[..k + 1], false)
  {
    TailLine(changes, k, true);
    TailLine(changes, k, false);
  }

  lemma TailLine(changes: seq<Change>, k: nat, cwnd: bool)
    requires k < |changes| && Fired(changes[..k], cwnd)
    ensures var a := Expected(changes, cwnd);
            |changes| - k <= |a| &&
            a[|a| - (|changes| - k)] == Line(changes[k].time, Current(changes[..k + 1], cwnd))
  {
    var i :| 0 <= i < k && changes[..k][i].cwnd == cwnd;
    var f := FirstChange(changes, cwnd);
    assert changes[i].cwnd == cwnd && f <= i;
    var lines := LinesFrom(changes, f, cwnd);
    assert lines[k - f] == LineAt(changes, f + (k - f), cwnd);
    hide FirstChange, Current, Fired;
  }

  // ----- the tracers

  type NodeId = nat

  class Tracers {
    var firstCwnd: map<NodeId, bool>
    var firstSshThr: map<NodeId, bool>
    var cWndValue: map<NodeId, nat>
    var ssThreshValue: map<NodeId, nat>
    var cWndStream: map<NodeId, seq<Line>>
    var ssThreshStream: map<NodeId, seq<Line>>
    ghost var history: map<NodeId, seq<Change>>

    /** The set-up of `main` for the traced nodes. */
    constructor (nodes: set<NodeId>)
      ensures Valid() && history.Keys == nodes && forall n :: n in nodes ==> history[n] == []
    {
      firstCwnd := map n | n in nodes :: true;
      firstSshThr := map n | n in nodes :: true;
      cWndValue, ssThreshValue := map[], map[];
      cWndStream := map n | n in nodes :: [];
      ssThreshStream := map n | n in nodes :: [];
      history := map n | n in nodes :: [];
    }

    static function Lookup<V>(m: map<NodeId, V>, n: NodeId, otherwise: V): V {
      if n in m then m[n] else otherwise
    }

    /** Flag, value and stream of the window of a node after the changes it has seen. */
    ghost predicate CwndAgrees(n: NodeId, changes: seq<Change>)
      reads `firstCwnd, `cWndValue, `cWndStream
    {
      n in cWndStream && Agrees(Lookup(firstCwnd, n, false), Lookup(cWndValue, n, 0), cWndStream[n], changes, true)
    }

    /** The same for the threshold. */
    ghost predicate SsThreshAgrees(n: NodeId, changes: seq<Change>)
      reads `firstSshThr, `ssThreshValue, `ssThreshStream
    {
      n in ssThreshStream &&
      Agrees(Lookup(firstSshThr, n, false), Lookup(ssThreshValue, n, 0), ssThreshStream[n], changes, false)
    }

    ghost predicate Valid()
      reads this
    {
      forall n :: n in history ==> CwndAgrees(n, history[n]) && SsThreshAgrees(n, history[n])
    }

    /** The tracer's lines for its own variable. */
    method RecordCwnd(nodeId: NodeId, now: real, oldval: nat, newval: nat, ghost changes: seq<Change>)
      requires CwndAgrees(nodeId, changes)
      modifies `firstCwnd, `cWndValue, `cWndStream
      ensures CwndAgrees(nodeId, changes + [Change(true, now, oldval, newval)])
      ensures forall n, other {:trigger CwndAgrees(n, other)} ::
                n != nodeId && old(CwndAgrees(n, other)) ==> CwndAgrees(n, other)
    {
      hide Agrees;
      OwnChange(Lookup(firstCwnd, nodeId, false), Lookup(cWndValue, nodeId, 0), cWndStream[nodeId], changes,
                Change(true, now, oldval, newval));
      if Lookup(firstCwnd, nodeId, false) {
        cWndStream := cWndStream[nodeId := cWndStream[nodeId] + [Line(0.0, oldval)]];
        firstCwnd := firstCwnd[nodeId := false];
      }
      cWndStream := cWndStream[nodeId := cWndStream[nodeId] + [Line(now, newval)]];
      cWndValue := cWndValue[nodeId := newval];
    }

    /** The line that the other tracer adds once this variable has changed. */
    method MirrorSsThresh(nodeId: NodeId, now: real, ghost changes: seq<Change>, ghost change: Change)
      requires SsThreshAgrees(nodeId, changes) && change.cwnd == true && change.time == now
      modifies `ssThreshStream
      ensures SsThreshAgrees(nodeId, changes + [change])
      ensures forall n, other {:trigger SsThreshAgrees(n, other)} ::
                n != nodeId && old(SsThreshAgrees(n, other)) ==> SsThreshAgrees(n, other)
    {
      hide Agrees;
      OtherChange(Lookup(firstSshThr, nodeId, false), Lookup(ssThreshValue, nodeId, 0), ssThreshStream[nodeId], changes, change);
      if !Lookup(firstSshThr, nodeId, false) {
        ssThreshStream := ssThreshStream[nodeId := ssThreshStream[nodeId] + [Line(now, Lookup(ssThreshValue, nodeId, 0))]];
      }
    }

    method CwndTracer(context: string, now: real, oldval: nat, newval: nat)
      requires Valid() && GetNodeIdFromContext(context).Some? && GetNodeIdFromContext(context).value in history
      modifies this
      ensures Valid()
      ensures var n := GetNodeIdFromContext(context).value;
              history == old(history)[n := old(history)[n] + [Change(true, now, oldval, newval)]]
    {
      hide GetNodeIdFromContext, CwndAgrees, SsThreshAgrees;
      var nodeId := GetNodeIdFromContext(context).value;
      ghost var changes, change := history[nodeId], Change(true, now, oldval, newval);
      RecordCwnd(nodeId, now, oldval, newval, changes);
      MirrorSsThresh(nodeId, now, changes, change);
      history := history[nodeId := changes + [change]];
    }

    /** The tracer's lines for its own variable. */
    method RecordSsThresh(nodeId: NodeId, now: real, oldval: nat, newval: nat, ghost changes: seq<Change>)
      requires SsThreshAgrees(nodeId, changes)
      modifies `firstSshThr, `ssThreshValue, `ssThreshStream
      ensures SsThreshAgrees(nodeId, changes + [Change(false, now, oldval, newval)])
      ensures forall n, other {:trigger SsThreshAgrees(n, other)} ::
                n != nodeId && old(SsThreshAgrees(n, other)) ==> SsThreshAgrees(n, other)
    {
      hide Agrees;
      OwnChange(Lookup(firstSshThr, nodeId, false), Lookup(ssThreshValue, nodeId, 0), ssThreshStream[nodeId], changes,
                Change(false, now, oldval, newval));
      if Lookup(firstSshThr, nodeId, false) {
        ssThreshStream := ssThreshStream[nodeId := ssThreshStream[nodeId] + [Line(0.0, oldval)]];
        firstSshThr := firstSshThr[nodeId := false];
      }
      ssThreshStream := ssThreshStream[nodeId := ssThreshStream[nodeId] + [Line(now, newval)]];
      ssThreshValue := ssThreshValue[nodeId := newval];
    }

    /** The line that the other tracer adds once this variable has changed. */
    method MirrorCwnd(nodeId: NodeId, now: real, ghost changes: seq<Change>, ghost change: Change)
      requires CwndAgrees(nodeId, changes) && change.cwnd == false && change.time == now
      modifies `cWndStream
      ensures CwndAgrees(nodeId, changes + [change])
      ensures forall n, other {:trigger CwndAgrees(n, other)} ::
                n != nodeId && old(CwndAgrees(n, other)) ==> CwndAgrees(n, other)
    {
      hide Agrees;
      OtherChange(Lookup(firstCwnd, nodeId, false), Lookup(cWndValue, nodeId, 0), cWndStream[nodeId], changes, change);
      if !Lookup(firstCwnd, nodeId, false) {
        cWndStream := cWndStream[nodeId := cWndStream[nodeId] + [Line(now, Lookup(cWndValue, nodeId, 0))]];
      }
    }

    method SsThreshTracer(context: string, now: real, oldval: nat, newval: nat)
      requires Valid() && GetNodeIdFromContext(context).Some? && GetNodeIdFromContext(context).value in history
      modifies this
      ensures Valid()
      ensures var n := GetNodeIdFromContext(context).value;
              history == old(history)[n := old(history)[n] + [Change(false, now, oldval, newval)]]
    {
      hide GetNodeIdFromContext, CwndAgrees, SsThreshAgrees;
      var nodeId := GetNodeIdFromContext(context).value;
      ghost var changes, change := history[nodeId], Change(false, now, oldval, newval);
      RecordSsThresh(nodeId, now, oldval, newval, changes);
      MirrorCwnd(nodeId, now, changes, change);
      history := history[nodeId := changes + [change]];
    }
  }

  /** Flag, value and stream of one variable of one node. */
  predicate Agrees(first: bool, value: nat, stream: seq<Line>, changes: seq<Change>, cwnd: bool) {
    first == !Fired(changes, cwnd) && value == Current(changes, cwnd) && stream == Expected(changes, cwnd)
  }

  lemma FiredSnoc(changes: seq<Change>, c: Change, cwnd: bool)
    ensures Fired(changes + [c], cwnd) <==> Fired(changes, cwnd) || c.cwnd == cwnd
  {
    var all := changes + [c];
    assert all[|changes|] == c;
    if Fired(changes, cwnd) {
      var i :| 0 <= i < |changes| && changes[i].cwnd == cwnd;
      assert all[i].cwnd == cwnd;
    }
  }

  /** A change of the variable itself. */
  lemma OwnChange(first: bool, value: nat, stream: seq<Line>, changes: seq<Change>, c: Change)
    requires Agrees(first, value, stream, changes, c.cwnd)
    ensures first ==> Agrees(false, c.newval, stream + [Line(0.0, c.oldval)] + [Line(c.time, c.newval)], changes + [c], c.cwnd)
    ensures !first ==> Agrees(false, c.newval, stream + [Line(c.time, c.newval)], changes + [c], c.cwnd)
  {
    FiredSnoc(changes, c, c.cwnd);
    CurrentSnoc(changes, c, c.cwnd);
    ExpectedSnoc(changes, c, c.cwnd);
    hide Fired, Current, Expected;
    assert stream + ([Line(0.0, c.oldval)] + [Line(c.time, c.newval)])
        == stream + [Line(0.0, c.oldval)] + [Line(c.time, c.newval)];
    assert stream + ([] + [Line(c.time, c.newval)]) == stream + [Line(c.time, c.newval)];
  }

  /** A change of the other variable. */
  lemma OtherChange(first: bool, value: nat, stream: seq<Line>, changes: seq<Change>, c: Change)
    requires Agrees(first, value, stream, changes, !c.cwnd)
    ensures first ==> Agrees(first, value, stream, changes + [c], !c.cwnd)
    ensures !first ==> Agrees(first, value, stream + [Line(c.time, value)], changes + [c], !c.cwnd)
  {
    FiredSnoc(changes, c, !c.cwnd);
    CurrentSnoc(changes, c, !c.cwnd);
    ExpectedSnoc(changes, c, !c.cwnd);
    hide Fired, Current, Expected;
    assert stream + [] == stream;
  }
}
