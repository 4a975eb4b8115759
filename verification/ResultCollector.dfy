/** The collection loop of `run_tests`: counters, the `failed_jobs` list that is pushed and popped
    while a report is looked at, and the records appended to the XML results file. */
module ResultCollector {
  import opened TestJobs
  import opened WorkerPool
  import opened WorkerPoolRuns

  /** One `<Test>` (suite) or `<Example>` element of the results file. */
  datatype Record = Record(suite: bool, name: string, result: string)

  function StatusText(status: Status): string {
    match status
    case PASS => "PASS"
    case SKIP => "SKIP"
    case FAIL => "FAIL"
    case VALGR => "VALGR"
    case CRASH => "CRASH"
    case BREAK => ""
  }

  predicate GoodText(result: string) {
    result == "PASS" || result == "SKIP"
  }

  /** A suite whose return code promises a result file that is not there: opening it raises an
      exception that `run_tests` does not catch. */
  predicate Raises(job: Job, outcome: Outcome) {
    job.kind == TestSuite && outcome.Ran? && outcome.returnCode in {0, 1, 2} && job.xml == Missing
  }

  /** How many times a report leaves its job in `failed_jobs`: once for a non-zero return code, and
      once more for a suite unless its result file parses to PASS or SKIP. */
  function Entries(job: Job, outcome: Outcome): nat {
    if !outcome.Ran? then 0
    else
      (if outcome.returnCode == 0 then 0 else 1)
      + (if job.kind != TestSuite then 0
         else if outcome.returnCode in {0, 1, 2} && job.xml.Parsed? && GoodText(job.xml.result) then 0
         else 1)
  }

  function Repeat(id: nat, n: nat): seq<nat> {
    seq(n, _ => id)
  }

  predicate Known(jobs: seq<Job>, reports: seq<Report>) {
    forall i :: 0 <= i < |reports| ==> reports[i].id < |jobs|
  }

  function FailedJobs(jobs: seq<Job>, reports: seq<Report>): seq<nat>
    requires Known(jobs, reports)
  {
    if reports == [] then []
    else
      var n := |reports| - 1;
      FailedJobs(jobs, reports[..n]) + Repeat(reports[n].id, Entries(jobs[reports[n].id], reports[n].outcome))
  }

  /** The element written for one report. A file that does not parse leaves no usable element. */
  function RecordsOf(job: Job, outcome: Outcome): seq<Record> {
    match outcome
    case Interrupted => []
    case Skipped => [Record(job.kind == TestSuite, job.name, "SKIP")]
    case Ran(code) =>
      if job.kind != TestSuite then [Record(false, job.name, StatusText(StatusOf(outcome)))]
      else if code !in {0, 1, 2} then [Record(true, job.name, "CRASH")]
      else if !job.xml.Parsed? then []
      else [Record(true, job.name, if code == 2 then "VALGR" else job.xml.result)]
  }

  function Results(jobs: seq<Job>, reports: seq<Report>): seq<Record>
    requires Known(jobs, reports)
  {
    if reports == [] then []
    else
      var n := |reports| - 1;
      Results(jobs, reports[..n]) + RecordsOf(jobs[reports[n].id], reports[n].outcome)
  }

  /** What one more report adds. */
  lemma OneMore(jobs: seq<Job>, seen: seq<Report>, r: Report)
    requires Known(jobs, seen) && r.id < |jobs|
    ensures Known(jobs, seen + [r])
    ensures FailedJobs(jobs, seen + [r]) == FailedJobs(jobs, seen) + Repeat(r.id, Entries(jobs[r.id], r.outcome))
    ensures Results(jobs, seen + [r]) == Results(jobs, seen) + RecordsOf(jobs[r.id], r.outcome)
  {
    hide Entries, RecordsOf, Repeat;
    assert (seen + [r])[..|seen|] == seen;
  }

  /** One more report raises the counter of its return code. */
  lemma OneMoreCounted(seen: seq<Report>, r: Report)
    ensures Count(seen + [r], PASS) == Count(seen, PASS) + (if r.outcome == Ran(0) then 1 else 0)
    ensures Count(seen + [r], FAIL) == Count(seen, FAIL) + (if r.outcome == Ran(1) then 1 else 0)
    ensures Count(seen + [r], VALGR) == Count(seen, VALGR) + (if r.outcome == Ran(2) then 1 else 0)
    ensures Count(seen + [r], CRASH)
         == Count(seen, CRASH) + (if r.outcome.Ran? && r.outcome.returnCode !in {0, 1, 2} then 1 else 0)
    ensures Count(seen + [r], SKIP) == Count(seen, SKIP) + (if r.outcome == Skipped then 1 else 0)
  {
    StatusByCode(r.outcome);
    hide StatusOf, Count;
    CountAppend(seen, r, PASS);
    CountAppend(seen, r, FAIL);
    CountAppend(seen, r, VALGR);
    CountAppend(seen, r, CRASH);
    CountAppend(seen, r, SKIP);
  }

  lemma BreakAddsNothing(job: Job, id: nat)
    ensures Repeat(id, Entries(job, Interrupted)) == [] && RecordsOf(job, Interrupted) == []
    ensures StatusOf(Interrupted) == BREAK && !Raises(job, Interrupted)
  {
  }

  /** The entries in `failed_jobs` are those of the return code and those of the result file. */
  lemma TwoHalves(job: Job, r: Report)
    requires r.outcome != Interrupted
    ensures var n := Entries(job, r.outcome);
            var first := if StatusOf(r.outcome) in {PASS, SKIP} then [] else [r.id];
            Repeat(r.id, n) == first + if n > |first| then [r.id] else []
  {
    assert Entries(job, r.outcome) <= 2;
    assert Repeat(r.id, 0) == [] && Repeat(r.id, 1) == [r.id] && Repeat(r.id, 2) == [r.id, r.id];
    hide Repeat;
  }

  /** Looking at report `i` raises. */
  predicate RaisesAt(jobs: seq<Job>, reports: seq<Report>, i: nat) {
    i < |reports| && reports[i].id < |jobs| && Raises(jobs[reports[i].id], reports[i].outcome)
  }

  ghost predicate NoneRaises(jobs: seq<Job>, reports: seq<Report>) {
    forall i: nat :: !RaisesAt(jobs, reports, i)
  }

  /** The last report raises and no other. */
  ghost predicate RaisesLast(jobs: seq<Job>, reports: seq<Report>) {
    reports != [] && forall i: nat :: RaisesAt(jobs, reports, i) <==> i == |reports| - 1
  }

  lemma OneMoreReport(jobs: seq<Job>, seen: seq<Report>, r: Report)
    requires NoneRaises(jobs, seen) && r.id < |jobs|
    ensures if Raises(jobs[r.id], r.outcome) then RaisesLast(jobs, seen + [r]) else NoneRaises(jobs, seen + [r])
  {
    hide Raises;
    forall i: nat | i < |seen| ensures !RaisesAt(jobs, seen + [r], i) {
      assert !RaisesAt(jobs, seen, i);
    }
  }

  lemma RaisingStays(jobs: seq<Job>, reports: seq<Report>, n: nat)
    requires n <= |reports| && RaisesLast(jobs, reports[..n])
    ensures !NoneRaises(jobs, reports)
  {
    hide Raises;
    var i: nat := n - 1;
    assert RaisesAt(jobs, reports[..n], i) ==> RaisesAt(jobs, reports, i);
  }

  /** What is printed in the results file for an example. */
  function ResultText(outcome: Outcome): string {
    match outcome
    case Interrupted => ""
    case Skipped => "SKIP"
    case Ran(0) => "PASS"
    case Ran(1) => "FAIL"
    case Ran(2) => "VALGR"
    case Ran(_) => "CRASH"
  }

  /** ... and for a suite: its own file's verdict for the codes 0 and 1, if the file parses. */
  function SuiteRecord(job: Job, outcome: Outcome): seq<Record> {
    if outcome == Skipped then [Record(true, job.name, "SKIP")]
    else if outcome.Ran? && outcome.returnCode !in {0, 1, 2} then [Record(true, job.name, "CRASH")]
    else if !job.xml.Parsed? then []
    else [Record(true, job.name, if outcome == Ran(2) then "VALGR" else job.xml.result)]
  }

  lemma StatusByCode(outcome: Outcome)
    ensures StatusOf(outcome) == PASS <==> outcome == Ran(0)
    ensures StatusOf(outcome) == FAIL <==> outcome == Ran(1)
    ensures StatusOf(outcome) == VALGR <==> outcome == Ran(2)
    ensures StatusOf(outcome) == CRASH <==> outcome.Ran? && outcome.returnCode !in {0, 1, 2}
    ensures StatusOf(outcome) == SKIP <==> outcome == Skipped
  {
  }

  lemma RecordByCode(job: Job, outcome: Outcome)
    requires outcome != Interrupted
    ensures job.kind != TestSuite ==> RecordsOf(job, outcome) == [Record(false, job.name, ResultText(outcome))]
    ensures job.kind == TestSuite ==> RecordsOf(job, outcome) == SuiteRecord(job, outcome)
    ensures Raises(job, outcome) <==>
            job.kind == TestSuite && job.xml == Missing && outcome in {Ran(0), Ran(1), Ran(2)}
  {
  }

  class Collector {
    var passedTests: nat
    var skippedTests: nat
    var failedTests: nat
    var crashedTests: nat
    var valgrindErrors: nat
    var failedJobs: seq<nat>
    var results: seq<Record>

    constructor ()
      ensures passedTests == skippedTests == failedTests == crashedTests == valgrindErrors == 0
      ensures failedJobs == [] && results == []
    {
      passedTests, skippedTests, failedTests, crashedTests, valgrindErrors := 0, 0, 0, 0, 0;
      failedJobs, results := [], [];
    }

    /** The collector's fields are what the specification says of the reports seen so far. */
    ghost predicate Reflects(jobs: seq<Job>, reports: seq<Report>)
      requires Known(jobs, reports)
      reads this
    {
      && passedTests == Count(reports, PASS) && skippedTests == Count(reports, SKIP)
      && failedTests == Count(reports, FAIL) && crashedTests == Count(reports, CRASH)
      && valgrindErrors == Count(reports, VALGR)
      && failedJobs == FailedJobs(jobs, reports) && results == Results(jobs, reports)
    }

    /** The first half of the loop body: the status of a report that is not a break, and its counter. */
    method CountStatus(r: Report) returns (status: Status)
      requires r.outcome != Interrupted
      modifies `passedTests, `skippedTests, `failedTests, `crashedTests, `valgrindErrors, `failedJobs
      ensures status == StatusOf(r.outcome)
      ensures passedTests == old(passedTests) + (if status == PASS then 1 else 0)
      ensures skippedTests == old(skippedTests) + (if status == SKIP then 1 else 0)
      ensures failedTests == old(failedTests) + (if status == FAIL then 1 else 0)
      ensures crashedTests == old(crashedTests) + (if status == CRASH then 1 else 0)
      ensures valgrindErrors == old(valgrindErrors) + (if status == VALGR then 1 else 0)
      ensures failedJobs == old(failedJobs) + if status in {PASS, SKIP} then [] else [r.id]
    {
      if r.outcome.Skipped? {
        status := SKIP;
        skippedTests := skippedTests + 1;
      } else {
        failedJobs := failedJobs + [r.id];
        if r.outcome.returnCode == 0 {
          status := PASS;
          passedTests := passedTests + 1;
          failedJobs := failedJobs[..|failedJobs| - 1];
        } else if r.outcome.returnCode == 1 {
          failedTests := failedTests + 1;
          status := FAIL;
        } else if r.outcome.returnCode == 2 {
          valgrindErrors := valgrindErrors + 1;
          status := VALGR;
        } else {
          crashedTests := crashedTests + 1;
          status := CRASH;
        }
      }
    }

    /** The second half: the element for the results file and, for a suite, what its own file says.
        False stands for the exception raised when that file is missing. */
    method WriteResult(job: Job, r: Report, status: Status) returns (ok: bool)
      requires r.outcome != Interrupted && status == StatusOf(r.outcome)
      modifies `failedJobs, `results
      ensures ok == !Raises(job, r.outcome)
      ensures ok ==> results == old(results) + RecordsOf(job, r.outcome)
      ensures ok ==> failedJobs == old(failedJobs)
                                   + if Entries(job, r.outcome) > (if status in {PASS, SKIP} then 0 else 1) then [r.id]
                                     else []
    {
      ok := true;
      if job.kind == Example || job.kind == PyExample {
        results := results + [Record(false, job.name, StatusText(status))];
      } else if r.outcome.Skipped? {
        results := results + [Record(true, job.name, "SKIP")];
      } else {
        failedJobs := failedJobs + [r.id];
        if r.outcome.returnCode == 0 || r.outcome.returnCode == 1 || r.outcome.returnCode == 2 {
          match job.xml
          case Missing => return false;
          case Unparsable =>
          case Parsed(result) =>
            results := results + [Record(true, job.name, if status == VALGR then "VALGR" else result)];
            if result == "PASS" || result == "SKIP" {
              failedJobs := failedJobs[..|failedJobs| - 1];
            }
        } else {
          results := results + [Record(true, job.name, "CRASH")];
        }
      }
    }

    /** The body of the loop for one report that is not a break. */
    method Look(job: Job, r: Report) returns (ok: bool)
      requires r.outcome != Interrupted
      modifies this
      ensures ok == !Raises(job, r.outcome)
      ensures ok <==> !(job.kind == TestSuite && job.xml == Missing && r.outcome in {Ran(0), Ran(1), Ran(2)})
      ensures ok ==> failedJobs == old(failedJobs) + Repeat(r.id, Entries(job, r.outcome))
      ensures ok ==> results == old(results) + RecordsOf(job, r.outcome)
      ensures ok && job.kind != TestSuite ==> results == old(results) + [Record(false, job.name, ResultText(r.outcome))]
      ensures ok && job.kind == TestSuite ==> results == old(results) + SuiteRecord(job, r.outcome)
      ensures passedTests == old(passedTests) + (if r.outcome == Ran(0) then 1 else 0)
      ensures failedTests == old(failedTests) + (if r.outcome == Ran(1) then 1 else 0)
      ensures valgrindErrors == old(valgrindErrors) + (if r.outcome == Ran(2) then 1 else 0)
      ensures crashedTests == old(crashedTests)
                              + (if r.outcome.Ran? && r.outcome.returnCode !in {0, 1, 2} then 1 else 0)
      ensures skippedTests == old(skippedTests) + (if r.outcome == Skipped then 1 else 0)
    {
      TwoHalves(job, r);
      StatusByCode(r.outcome);
      RecordByCode(job, r.outcome);
      hide RecordsOf, Raises, Entries, Repeat, StatusOf, SuiteRecord, ResultText;
      var status := CountStatus(r);
      ok := WriteResult(job, r, status);
    }

    /** The body of the loop: a break is passed over. */
    method Collect(jobs: seq<Job>, ghost seen: seq<Report>, r: Report) returns (ok: bool)
      requires Known(jobs, seen) && r.id < |jobs| && Reflects(jobs, seen)
      modifies this
      ensures ok == !Raises(jobs[r.id], r.outcome)
      ensures ok ==> Known(jobs, seen + [r]) && Reflects(jobs, seen + [r])
    {
      OneMore(jobs, seen, r);
      OneMoreCounted(seen, r);
      BreakAddsNothing(jobs[r.id], r.id);
      hide RecordsOf, Raises, Entries, Repeat, StatusOf, FailedJobs, Results, Count, SuiteRecord, ResultText;
      if r.outcome == Interrupted {
        return true;
      }
      ok := Look(jobs[r.id], r);
    }

    /** `for i in range(jobs)`: takes the reports in the order in which they reach the output queue. */
    method CollectAll(jobs: seq<Job>, reports: seq<Report>) returns (ok: bool)
      requires Known(jobs, reports) && |reports| == |jobs|
      requires passedTests == skippedTests == failedTests == crashedTests == valgrindErrors == 0
      requires failedJobs == [] && results == []
      modifies this
      ensures ok <==> NoneRaises(jobs, reports)
      ensures ok ==> Reflects(jobs, reports)
      ensures ok ==> passedTests == |RanWith(reports, 0)| && failedTests == |RanWith(reports, 1)|
      ensures ok ==> valgrindErrors == |RanWith(reports, 2)| && crashedTests == |RanWithOther(reports)|
      ensures ok ==> skippedTests == |SkippedReports(reports)|
    {
      assert reports[..0] == [];
      assert Reflects(jobs, reports[..0]);
      hide Raises, Reflects, NoneRaises, RaisesLast;
      for i := 0 to |jobs|
        invariant Reflects(jobs, reports[..i]) && NoneRaises(jobs, reports[..i])
      {
        ok := Collect(jobs, reports[..i], reports[i]);
        OneMoreReport(jobs, reports[..i], reports[i]);
        assert reports[..i + 1] == reports[..i] + [reports[i]];
        if !ok {
          RaisingStays(jobs, reports, i + 1);
          return;
        }
      }
      assert reports[..|jobs|] == reports;
      CountsOf(jobs, reports);
      ok := true;
    }

    /** The counters by return code. */
    lemma CountsOf(jobs: seq<Job>, reports: seq<Report>)
      requires Known(jobs, reports) && Reflects(jobs, reports)
      ensures passedTests == |RanWith(reports, 0)| && failedTests == |RanWith(reports, 1)|
      ensures valgrindErrors == |RanWith(reports, 2)| && crashedTests == |RanWithOther(reports)|
      ensures skippedTests == |SkippedReports(reports)|
    {
      CountsByCode(reports);
    }

    /** The value `run_tests` returns. */
    method Result(totalTests: nat) returns (code: int)
      ensures code == ExitCode(passedTests, skippedTests, totalTests)
    {
      if passedTests + skippedTests == totalTests {
        code := 0;
      } else {
        code := 1;
      }
    }
  }

  // ----- failed_jobs

  function Occurrences(s: seq<nat>, id: nat): nat {
    if s == [] then 0 else Occurrences(s[..|s| - 1], id) + if s[|s| - 1] == id then 1 else 0
  }

  lemma {:induction false} OccurrencesRepeat(s: seq<nat>, x: nat, n: nat, id: nat)
    ensures Occurrences(s + Repeat(x, n), id) == Occurrences(s, id) + if x == id then n else 0
    decreases n
  {
    if n == 0 {
      assert s + Repeat(x, 0) == s;
    } else {
      OccurrencesRepeat(s, x, n - 1, id);
      var t := s + Repeat(x, n);
      assert t[..|t| - 1] == s + Repeat(x, n - 1);
    }
  }

  lemma {:induction false} FailedJobsOfOthers(jobs: seq<Job>, reports: seq<Report>, id: nat)
    requires Known(jobs, reports) && Reported(reports, id) == 0
    ensures Occurrences(FailedJobs(jobs, reports), id) == 0
    decreases |reports|
  {
    if reports != [] {
      var n := |reports| - 1;
      FailedJobsOfOthers(jobs, reports[..n], id);
      OccurrencesRepeat(FailedJobs(jobs, reports[..n]), reports[n].id,
                        Entries(jobs[reports[n].id], reports[n].outcome), id);
    }
  }

  lemma {:induction false} NotReportedElsewhere(reports: seq<Report>, id: nat, i: nat)
    requires i < |reports| && reports[i].id == id && Reported(reports, id) <= 1
    ensures Reported(reports[..i], id) == 0
    decreases |reports|
  {
    var n := |reports| - 1;
    if i < n {
      NotReportedElsewhere(reports[..n], id, i);
      assert reports[..n][..i] == reports[..i];
    }
  }

  /** A job that is collected once ends up in `failed_jobs` as often as `Entries` says. */
  lemma {:induction false} FailedJobsCount(jobs: seq<Job>, reports: seq<Report>, i: nat)
    requires Known(jobs, reports) && i < |reports| && Reported(reports, reports[i].id) == 1
    ensures Occurrences(FailedJobs(jobs, reports), reports[i].id)
         == Entries(jobs[reports[i].id], reports[i].outcome)
    decreases |reports|
  {
    var n := |reports| - 1;
    var id := reports[i].id;
    OccurrencesRepeat(FailedJobs(jobs, reports[..n]), reports[n].id,
                      Entries(jobs[reports[n].id], reports[n].outcome), id);
    if i == n {
      NotReportedElsewhere(reports, id, n);
      FailedJobsOfOthers(jobs, reports[..n], id);
    } else {
      NotReportedElsewhere(reports, id, i);
      if reports[n].id == id {
        NotReportedElsewhere(reports, id, n);
        ReportedPositive(reports[..n], i);
      }
      FailedJobsCount(jobs, reports[..n], i);
    }
  }

  lemma CollectedKnown(cfg: Config, s: State)
    requires Inv(cfg, s)
    ensures Known(cfg.jobs, s.collected)
  {
    forall k | 0 <= k < |s.collected| ensures s.collected[k].id < |cfg.jobs| {
      assert Honest(cfg, s.threadExit, s.collected[k]);
    }
  }

  /** `failed_jobs` after any complete run of the pool: interrupted and skipped jobs are never in it;
      a job with a non-zero return code always is; one with return code 0 is there exactly when it is
      a suite whose file does not say PASS or SKIP. A suite that fails and says so is listed twice. */
  lemma FailedJobsOfRun(cfg: Config, s: State, i: nat)
    requires Inv(cfg, s) && Final(cfg, s) && i < |s.collected|
    ensures Known(cfg.jobs, s.collected)
    ensures var r := s.collected[i];
            var job := cfg.jobs[r.id];
            var entries := Occurrences(FailedJobs(cfg.jobs, s.collected), r.id);
            && (r.outcome == Interrupted || job.isSkip ==> entries == 0)
            && (r.outcome.Ran? && job.returnCode != 0 ==> entries >= 1)
            && (r.outcome.Ran? && job.returnCode == 0 ==>
                entries == if job.kind == TestSuite && !(job.xml.Parsed? && GoodText(job.xml.result)) then 1 else 0)
            && (r.outcome.Ran? && job.kind == TestSuite && job.returnCode != 0 ==>
                (entries == 2 <==> job.returnCode !in {1, 2} || !(job.xml.Parsed? && GoodText(job.xml.result))))
  {
    FinalState(cfg, s);
    CollectedKnown(cfg, s);
    assert Honest(cfg, s.threadExit, s.collected[i]);
    FailedJobsCount(cfg.jobs, s.collected, i);
  }
}
