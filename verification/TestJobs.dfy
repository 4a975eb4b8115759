/** The unit of work of test.py, the outcome a worker sends back for it, and the counters the
    main thread keeps over the outcomes. */
module TestJobs {

  datatype Kind = TestSuite | Example | PyExample

  /** What the collection loop finds when it opens and parses the file a test suite wrote. */
  datatype XmlFile = Missing | Unparsable | Parsed(result: string)

  /** `returnCode` and `xml` are what the child process gives if it is ever started. */
  datatype Job = Job(kind: Kind, name: string, isSkip: bool, returnCode: int, xml: XmlFile)

  /** `Interrupted` is the worker's re-labelling of a job as `is_break` on the output queue. */
  datatype Outcome = Interrupted | Skipped | Ran(returnCode: int)

  datatype Report = Report(id: nat, outcome: Outcome)

  datatype Status = PASS | SKIP | FAIL | VALGR | CRASH | BREAK

  /** The status the collection loop gives an outcome; BREAK marks the reports it ignores. */
  function StatusOf(outcome: Outcome): Status {
    match outcome
    case Interrupted => BREAK
    case Skipped => SKIP
    case Ran(code) =>
      if code == 0 then PASS
      else if code == 1 then FAIL
      else if code == 2 then VALGR
      else CRASH
  }

  /** How many of the reports have the given status: the counter kept for it. */
  function Count(reports: seq<Report>, status: Status): nat {
    if reports == [] then 0
    else
      var n := |reports| - 1;
      Count(reports[..n], status) + if StatusOf(reports[n].outcome) == status then 1 else 0
  }

  /** The value `run_tests` returns. */
  function ExitCode(passed: nat, skipped: nat, totalTests: nat): int {
    if passed + skipped == totalTests then 0 else 1
  }

  lemma CountAppend(reports: seq<Report>, r: Report, status: Status)
    ensures Count(reports + [r], status)
         == Count(reports, status) + if StatusOf(r.outcome) == status then 1 else 0
  {
    assert (reports + [r])[..|reports|] == reports;
  }

  lemma {:induction false} CountConcat(a: seq<Report>, b: seq<Report>, status: Status)
    ensures Count(a + b, status) == Count(a, status) + Count(b, status)
    decreases |b|
  {
    if b == [] {
      assert a + b == a;
    } else {
      var n := |b| - 1;
      CountConcat(a, b[..n], status);
      assert a + b == (a + b[..n]) + [b[n]];
      CountAppend(a + b[..n], b[n], status);
    }
  }

  /** Every collected report increments exactly one counter. */
  lemma {:induction false} CountsSum(reports: seq<Report>)
    ensures Count(reports, PASS) + Count(reports, SKIP) + Count(reports, FAIL) + Count(reports, VALGR)
          + Count(reports, CRASH) + Count(reports, BREAK) == |reports|
    decreases |reports|
  {
    if reports != [] {
      CountsSum(reports[..|reports| - 1]);
    }
  }

  /** Taking one report out takes one off its counter. */
  lemma CountRemove(reports: seq<Report>, k: nat, status: Status)
    requires k < |reports|
    ensures Count(reports, status) == Count(reports[..k] + reports[k + 1..], status)
                                      + if StatusOf(reports[k].outcome) == status then 1 else 0
  {
    assert reports == (reports[..k] + [reports[k]]) + reports[k + 1..];
    CountConcat(reports[..k] + [reports[k]], reports[k + 1..], status);
    CountAppend(reports[..k], reports[k], status);
    CountConcat(reports[..k], reports[k + 1..], status);
  }

  /** The run returns 0 exactly when every collected job passed or was skipped. */
  lemma {:induction false} ExitCodeMeaning(reports: seq<Report>)
    ensures Count(reports, PASS) + Count(reports, SKIP) <= |reports|
    ensures ExitCode(Count(reports, PASS), Count(reports, SKIP), |reports|) == 0
       <==> forall i :: 0 <= i < |reports| ==> StatusOf(reports[i].outcome) in {PASS, SKIP}
    decreases |reports|
  {
    if reports != [] {
      ExitCodeMeaning(reports[..|reports| - 1]);
    }
  }

  // ----- the counters by return code

  /** The reports of child processes that returned this code. */
  function RanWith(reports: seq<Report>, code: int): set<nat> {
    set i: nat | i < |reports| && reports[i].outcome == Ran(code)
  }

  /** ... and of those that returned none of the three codes a test program chooses itself. */
  function RanWithOther(reports: seq<Report>): set<nat> {
    set i: nat | i < |reports| && reports[i].outcome.Ran? && reports[i].outcome.returnCode !in {0, 1, 2}
  }

  function SkippedReports(reports: seq<Report>): set<nat> {
    set i: nat | i < |reports| && reports[i].outcome == Skipped
  }

  function WithStatus(reports: seq<Report>, status: Status): set<nat> {
    set i: nat | i < |reports| && StatusOf(reports[i].outcome) == status
  }

  /** A counter is the number of reports with its status. */
  lemma {:induction false} CountIsNumber(reports: seq<Report>, status: Status)
    ensures Count(reports, status) == |WithStatus(reports, status)|
    decreases |reports|
  {
    if reports == [] {
      assert WithStatus(reports, status) == {};
    } else {
      var n := |reports| - 1;
      CountIsNumber(reports[..n], status);
      CountAppend(reports[..n], reports[n], status);
      assert reports[..n] + [reports[n]] == reports;
      var before := WithStatus(reports[..n], status);
      hide StatusOf, Count;
      if StatusOf(reports[n].outcome) == status {
        assert WithStatus(reports, status) == before + {n};
      } else {
        assert WithStatus(reports, status) == before;
      }
    }
  }

  /** Which return code is which failure. */
  lemma CountsByCode(reports: seq<Report>)
    ensures Count(reports, PASS) == |RanWith(reports, 0)| && Count(reports, FAIL) == |RanWith(reports, 1)|
    ensures Count(reports, VALGR) == |RanWith(reports, 2)| && Count(reports, CRASH) == |RanWithOther(reports)|
    ensures Count(reports, SKIP) == |SkippedReports(reports)|
  {
    CountIsNumber(reports, PASS);
    CountIsNumber(reports, FAIL);
    CountIsNumber(reports, VALGR);
    CountIsNumber(reports, CRASH);
    CountIsNumber(reports, SKIP);
    hide Count;
    assert WithStatus(reports, PASS) == RanWith(reports, 0) && WithStatus(reports, FAIL) == RanWith(reports, 1);
    assert WithStatus(reports, VALGR) == RanWith(reports, 2) && WithStatus(reports, CRASH) == RanWithOther(reports);
    assert WithStatus(reports, SKIP) == SkippedReports(reports);
  }
}
