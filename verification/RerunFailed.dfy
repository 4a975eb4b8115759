/** `--rerun-failed`: the jobs of a run are chosen from the results file of the previous one. */
module RerunFailed {
  import opened TestJobs
  import opened WorkerPool
  import opened WorkerPoolRuns
  import opened ResultCollector

  /** A suite or example the script considers in every run; `alwaysSkip` stands for the skips that do
      not depend on earlier runs (valgrind, fullness, missing bindings). */
  datatype Entry = Entry(kind: Kind, name: string, alwaysSkip: bool)

  /** The names `load_previously_successful_tests` returns for one kind of element. */
  function SuccessfulNames(records: seq<Record>, suite: bool): seq<string> {
    if records == [] then []
    else
      var r := records[0];
      (if r.suite == suite && r.result in ["PASS", "SKIP"] then [r.name] else [])
      + SuccessfulNames(records[1..], suite)
  }

  /** Python examples never consult the list. */
  predicate SkippedNext(entry: Entry, records: seq<Record>) {
    entry.alwaysSkip
    || (entry.kind == TestSuite && entry.name in SuccessfulNames(records, true))
    || (entry.kind == Example && entry.name in SuccessfulNames(records, false))
  }

  /** The jobs dispatched for `plan` with `--rerun-failed` after a run that left `records`. */
  predicate Follows(plan: seq<Entry>, records: seq<Record>, jobs: seq<Job>) {
    Planned(plan, jobs) &&
    forall id :: 0 <= id < |plan| ==> (jobs[id].isSkip <==> SkippedNext(plan[id], records))
  }

  predicate Planned(plan: seq<Entry>, jobs: seq<Job>) {
    |jobs| == |plan| &&
    forall id :: 0 <= id < |plan| ==>
      jobs[id].kind == plan[id].kind && jobs[id].name == plan[id].name && (plan[id].alwaysSkip ==> jobs[id].isSkip)
  }

  /** Suites have distinct names, and so have the examples of both kinds. */
  predicate DistinctNames(plan: seq<Entry>) {
    forall i, j :: 0 <= i < j < |plan| && (plan[i].kind == TestSuite <==> plan[j].kind == TestSuite) ==>
      plan[i].name != plan[j].name
  }

  /** The result file that the return code of a suite promises is there and parses. Otherwise
      `run_tests` raises, or what it copies makes the whole results file unreadable, and there is no
      next run to speak of. */
  predicate Readable(job: Job, outcome: Outcome) {
    job.kind == TestSuite && outcome.Ran? && outcome.returnCode in {0, 1, 2} ==> job.xml.Parsed?
  }

  /** The child process of job `id` was run and its result collected. */
  predicate Executed(s: State, id: nat) {
    exists i :: 0 <= i < |s.collected| && s.collected[i].id == id && s.collected[i].outcome.Ran?
  }

  /** A run of the script that came to its end. */
  datatype Run = Run(cfg: Config, end: State)
  {
    ghost predicate Complete(plan: seq<Entry>) {
      Inv(cfg, end) && Final(cfg, end) && Planned(plan, cfg.jobs) &&
      forall i :: 0 <= i < |end.collected| && end.collected[i].id < |cfg.jobs| ==>
        Readable(cfg.jobs[end.collected[i].id], end.collected[i].outcome)
    }

    ghost function Records(): seq<Record>
      requires Inv(cfg, end)
    {
      CollectedKnown(cfg, end);
      Results(cfg.jobs, end.collected)
    }
  }

  // ----- what the previous run recorded

  lemma {:induction false} SuccessfulIff(records: seq<Record>, suite: bool, name: string)
    ensures name in SuccessfulNames(records, suite)
       <==> exists k :: 0 <= k < |records| && records[k].suite == suite && records[k].name == name
                        && GoodText(records[k].result)
    decreases |records|
  {
    if records != [] {
      SuccessfulIff(records[1..], suite, name);
      forall k | 0 <= k < |records| - 1 ensures records[1..][k] == records[k + 1] {
      }
      if name in SuccessfulNames(records[1..], suite) {
        var k :| 0 <= k < |records| - 1 && records[1..][k].suite == suite && records[1..][k].name == name
                 && GoodText(records[1..][k].result);
        assert records[k + 1].name == name;
      }
      if k :| 0 <= k < |records| && records[k].suite == suite && records[k].name == name
              && GoodText(records[k].result) && k > 0 {
        assert records[1..][k - 1] == records[k];
      }
    }
  }

  /** Each element of the results file comes from one report. */
  lemma {:induction false} ResultFrom(jobs: seq<Job>, reports: seq<Report>, record: Record) returns (i: nat)
    requires Known(jobs, reports) && record in Results(jobs, reports)
    ensures i < |reports| && record in RecordsOf(jobs[reports[i].id], reports[i].outcome)
    decreases |reports|
  {
    var n := |reports| - 1;
    if record in RecordsOf(jobs[reports[n].id], reports[n].outcome) {
      i := n;
    } else {
      i := ResultFrom(jobs, reports[..n], record);
    }
  }

  /** Each report's element is in the results file. */
  lemma {:induction false} ResultOf(jobs: seq<Job>, reports: seq<Report>, i: nat, record: Record)
    requires Known(jobs, reports) && i < |reports|
    requires record in RecordsOf(jobs[reports[i].id], reports[i].outcome)
    ensures record in Results(jobs, reports)
    decreases |reports|
  {
    hide RecordsOf;
    var n := |reports| - 1;
    if i < n {
      ResultOf(jobs, reports[..n], i, record);
    }
  }

  /** The report of job `id` put an element with PASS or SKIP into the results file. */
  predicate RecordedGood(job: Job, outcome: Outcome) {
    |RecordsOf(job, outcome)| == 1 && GoodText(RecordsOf(job, outcome)[0].result)
  }

  /** A suite that ran is recorded by what its file says, unless the return code speaks of valgrind or
      of a crash; everything else by its return code. */
  lemma RecordedGoodIff(job: Job, outcome: Outcome)
    ensures RecordedGood(job, outcome) <==>
            outcome.Skipped? ||
            (outcome.Ran? && if job.kind == TestSuite
                             then outcome.returnCode in {0, 1} && job.xml.Parsed? && GoodText(job.xml.result)
                             else outcome.returnCode == 0)
    ensures forall r :: r in RecordsOf(job, outcome) ==> r.suite == (job.kind == TestSuite) && r.name == job.name
  {
    assert "FAIL"[0] == 'F' && "VALGR"[0] == 'V' && "CRASH"[0] == 'C' && "PASS"[0] == 'P' && "SKIP"[0] == 'S';
  }

  /** The file of a suite that ran says PASS or SKIP although the return code is 1, or neither although
      it is 0. */
  predicate Disagrees(job: Job, outcome: Outcome) {
    job.kind == TestSuite && outcome.Ran? && outcome.returnCode in {0, 1} && job.xml.Parsed? &&
    (GoodText(job.xml.result) <==> outcome.returnCode == 1)
  }

  lemma CollectedReport(run: Run, plan: seq<Entry>, i: nat)
    requires run.Complete(plan) && i < |run.end.collected|
    ensures run.end.collected[i].id < |plan|
    ensures run.end.collected[i] == Expected(run.cfg, run.end.collected[i].id)
            || run.end.collected[i].outcome == Interrupted
    ensures forall k :: 0 <= k < |run.end.collected| && run.end.collected[k].id == run.end.collected[i].id ==> k == i
  {
    var c := run.end.collected;
    assert Honest(run.cfg, run.end.threadExit, c[i]);
    FinalState(run.cfg, run.end);
    forall k | 0 <= k < |c| && c[k].id == c[i].id ensures k == i {
      var lo, hi := if k < i then k else i, if k < i then i else k;
      if lo < hi {
        NotReportedElsewhere(c, c[i].id, hi);
        assert c[..hi][lo] == c[lo];
        ReportedPositive(c[..hi], lo);
      }
    }
  }

  /** A suite or C++ example is skipped by the next run exactly when it is skipped anyway or this run
      recorded PASS or SKIP for it. */
  lemma NextSkipIff(run: Run, plan: seq<Entry>, i: nat)
    requires run.Complete(plan) && DistinctNames(plan) && i < |run.end.collected|
    requires run.end.collected[i].id < |plan| && plan[run.end.collected[i].id].kind != PyExample
    ensures var r := run.end.collected[i];
            SkippedNext(plan[r.id], run.Records()) <==>
            plan[r.id].alwaysSkip || RecordedGood(run.cfg.jobs[r.id], r.outcome)
  {
    hide Results, SuccessfulNames, RecordsOf;
    CollectedKnown(run.cfg, run.end);
    var jobs, c := run.cfg.jobs, run.end.collected;
    var entry := plan[c[i].id];
    var suite := entry.kind == TestSuite;
    var records := run.Records();
    SuccessfulIff(records, suite, entry.name);
    RecordedGoodIff(jobs[c[i].id], c[i].outcome);
    if RecordedGood(jobs[c[i].id], c[i].outcome) {
      var record := RecordsOf(jobs[c[i].id], c[i].outcome)[0];
      ResultOf(jobs, c, i, record);
      var k :| 0 <= k < |records| && records[k] == record;
    }
    if entry.name in SuccessfulNames(records, suite) {
      var k :| 0 <= k < |records| && records[k].suite == suite && records[k].name == entry.name
               && GoodText(records[k].result);
      GoodRecordIsOwn(run, plan, i, records[k]);
    }
  }

  /** An element with the name and kind of a report's job comes from that report. */
  lemma GoodRecordIsOwn(run: Run, plan: seq<Entry>, i: nat, record: Record)
    requires run.Complete(plan) && DistinctNames(plan) && i < |run.end.collected|
    requires run.end.collected[i].id < |plan| && record in run.Records() && GoodText(record.result)
    requires var entry := plan[run.end.collected[i].id];
             record.name == entry.name && record.suite == (entry.kind == TestSuite)
    ensures RecordedGood(run.cfg.jobs[run.end.collected[i].id], run.end.collected[i].outcome)
  {
    hide Results;
    CollectedKnown(run.cfg, run.end);
    var jobs, c := run.cfg.jobs, run.end.collected;
    var m := ResultFrom(jobs, c, record);
    CollectedReport(run, plan, m);
    AtMostOne(jobs[c[m].id], c[m].outcome);
    RecordedGoodIff(jobs[c[m].id], c[m].outcome);
    hide RecordsOf;
    assert c[m].id == c[i].id;
  }

  lemma AtMostOne(job: Job, outcome: Outcome)
    ensures |RecordsOf(job, outcome)| <= 1
  {
  }

  /** The next run follows the return code except for a suite whose file disagrees with it: one that
      failed is skipped, or one that passed is executed again, exactly in these cases. */
  lemma SkipFollowsStatusIff(run: Run, plan: seq<Entry>, i: nat)
    requires run.Complete(plan) && DistinctNames(plan) && i < |run.end.collected|
    requires run.end.collected[i].id < |plan| && plan[run.end.collected[i].id].kind != PyExample
    ensures var r := run.end.collected[i];
            (SkippedNext(plan[r.id], run.Records()) <==> StatusOf(r.outcome) in {PASS, SKIP}) <==>
            !Disagrees(run.cfg.jobs[r.id], r.outcome) && !(plan[r.id].alwaysSkip && r.outcome == Interrupted)
  {
    NextSkipIff(run, plan, i);
    var r := run.end.collected[i];
    assert Honest(run.cfg, run.end.threadExit, r);
    hide SkippedNext, RecordedGood;
    RecordedGoodIff(run.cfg.jobs[r.id], r.outcome);
  }

  lemma ReportOf(run: Run, plan: seq<Entry>, id: nat) returns (i: nat)
    requires run.Complete(plan) && id < |plan|
    ensures i < |run.end.collected| && run.end.collected[i].id == id
    ensures Executed(run.end, id) <==> run.end.collected[i].outcome.Ran?
    ensures !run.end.threadExit ==> run.end.collected[i] == Expected(run.cfg, id)
  {
    FinalState(run.cfg, run.end);
    assert Reported(run.end.collected, id) == 1;
    i := ReportedSomewhere(run.end.collected, id);
    CollectedReport(run, plan, i);
    assert Honest(run.cfg, run.end.threadExit, run.end.collected[i]);
  }

  /** An uninterrupted run and the uninterrupted rerun after it. */
  ghost predicate Rerun(plan: seq<Entry>, first: Run, second: Run) {
    && first.Complete(plan) && !first.end.threadExit && second.Complete(plan) && !second.end.threadExit
    && Follows(plan, first.Records(), second.cfg.jobs)
  }

  /** The job was executed and is not recorded as PASS or SKIP. */
  predicate ExecutedBadly(run: Run, id: nat) {
    Executed(run.end, id) && id < |run.cfg.jobs| &&
    !RecordedGood(run.cfg.jobs[id], Ran(run.cfg.jobs[id].returnCode))
  }

  /** Unless its file disagrees, that is a job with a non-zero return code. */
  lemma ExecutedBadlyIff(run: Run, plan: seq<Entry>, id: nat)
    requires run.Complete(plan) && id < |plan| && !Disagrees(run.cfg.jobs[id], Ran(run.cfg.jobs[id].returnCode))
    ensures ExecutedBadly(run, id) <==> Executed(run.end, id) && run.cfg.jobs[id].returnCode != 0
  {
    RecordedGoodIff(run.cfg.jobs[id], Ran(run.cfg.jobs[id].returnCode));
    if Executed(run.end, id) {
      var i :| 0 <= i < |run.end.collected| && run.end.collected[i].id == id && run.end.collected[i].outcome.Ran?;
      assert Honest(run.cfg, run.end.threadExit, run.end.collected[i]);
    }
    hide RecordedGood;
  }

  /** The rerun executes exactly the suites and C++ examples that were executed and did not pass, and
      the Python examples that are not skipped for another reason. */
  lemma RerunExecutes(plan: seq<Entry>, first: Run, second: Run, id: nat)
    requires DistinctNames(plan) && Rerun(plan, first, second) && id < |plan|
    ensures plan[id].kind != PyExample ==> (Executed(second.end, id) <==> ExecutedBadly(first, id))
    ensures plan[id].kind == PyExample ==> (Executed(second.end, id) <==> !plan[id].alwaysSkip)
  {
    var i := ReportOf(first, plan, id);
    var j := ReportOf(second, plan, id);
    if plan[id].kind != PyExample {
      NextSkipIff(first, plan, i);
    }
    RecordedGoodIff(first.cfg.jobs[id], first.end.collected[i].outcome);
    hide RecordedGood, SkippedNext;
  }

  /** An interruption makes the script forget: a job interrupted in one run is executed in the next,
      even if the run before had recorded it as passed. */
  lemma PassedJobRunsAgainIff(plan: seq<Entry>, first: Run, second: Run, third: Run, id: nat)
    requires DistinctNames(plan) && id < |plan| && plan[id].kind != PyExample && !plan[id].alwaysSkip
    requires first.Complete(plan) && second.Complete(plan) && third.Complete(plan)
    requires Follows(plan, first.Records(), second.cfg.jobs) && Follows(plan, second.Records(), third.cfg.jobs)
    requires !first.end.threadExit && !third.end.threadExit
    requires RecordedGood(first.cfg.jobs[id], Expected(first.cfg, id).outcome)
    ensures Executed(third.end, id) <==> Report(id, Interrupted) in second.end.collected
  {
    hide Results, SuccessfulNames;
    var i := ReportOf(first, plan, id);
    var j := ReportOf(second, plan, id);
    var k := ReportOf(third, plan, id);
    NextSkipIff(first, plan, i);
    NextSkipIff(second, plan, j);
    RecordedGoodIff(second.cfg.jobs[id], second.end.collected[j].outcome);
    hide RecordedGood, SkippedNext;
    CollectedReport(second, plan, j);
    assert Report(id, Interrupted) in second.end.collected <==> second.end.collected[j].outcome == Interrupted;
  }

  // ----- three runs in which that happens

  lemma Then(cfg: Config, s: State, a: Action, rest: seq<Action>)
    requires Enabled(cfg, s, a) && Valid(cfg, Apply(cfg, s, a), rest)
    ensures Valid(cfg, s, [a] + rest) && After(cfg, s, [a] + rest) == After(cfg, Apply(cfg, s, a), rest)
  {
    assert ([a] + rest)[1..] == rest;
  }

  function OneJob(isSkip: bool): Config {
    Config([Job(Example, "tcp-large-transfer", isSkip, 0, Missing)], 1, 0)
  }

  /** The one job is back with the main thread: it is collected, the worker returns and is joined. */
  lemma LastSteps(cfg: Config, report: Report, threadExit: bool) returns (schedule: seq<Action>)
    requires |cfg.jobs| == cfg.Threads() == 1
    ensures var s := State(1, 1, [Stop], [Ready(report)], [], [], 0, threadExit);
            Valid(cfg, s, schedule) &&
            After(cfg, s, schedule) == State(1, 1, [], [Returned], [], [report], 1, threadExit)
  {
    var s0 := State(1, 1, [Stop], [Ready(report)], [], [], 0, threadExit);
    var s1 := Apply(cfg, s0, Put(0));
    var s2 := Apply(cfg, s1, Collect);
    var s3 := Apply(cfg, s2, Take(0));
    var s4 := Apply(cfg, s3, Check(0));
    var s5 := Apply(cfg, s4, Join);
    assert s5 == State(1, 1, [], [Returned], [], [report], 1, threadExit);
    Then(cfg, s4, Join, []);
    Then(cfg, s3, Check(0), [Join]);
    Then(cfg, s2, Take(0), [Check(0)] + [Join]);
    Then(cfg, s1, Collect, [Take(0)] + ([Check(0)] + [Join]));
    Then(cfg, s0, Put(0), [Collect] + ([Take(0)] + ([Check(0)] + [Join])));
    schedule := [Put(0)] + ([Collect] + ([Take(0)] + ([Check(0)] + [Join])));
  }

  /** Nobody interrupts: the job runs and returns 0. */
  lemma PassingRun() returns (schedule: seq<Action>)
    ensures var cfg := OneJob(false);
            Valid(cfg, Init(cfg, false), schedule) &&
            After(cfg, Init(cfg, false), schedule)
            == State(1, 1, [], [Returned], [], [Report(0, Ran(0))], 1, false)
  {
    var cfg := OneJob(false);
    var s0 := Init(cfg, false);
    var s1 := Apply(cfg, s0, Dispatch);
    var s2 := Apply(cfg, s1, PutStop);
    var s3 := Apply(cfg, s2, Take(0));
    var s4 := Apply(cfg, s3, Check(0));
    var s5 := Apply(cfg, s4, Finish(0));
    assert s5 == State(1, 1, [Stop], [Ready(Report(0, Ran(0)))], [], [], 0, false);
    var rest := LastSteps(cfg, Report(0, Ran(0)), false);
    Then(cfg, s4, Finish(0), rest);
    Then(cfg, s3, Check(0), [Finish(0)] + rest);
    Then(cfg, s2, Take(0), [Check(0)] + ([Finish(0)] + rest));
    Then(cfg, s1, PutStop, [Take(0)] + ([Check(0)] + ([Finish(0)] + rest)));
    Then(cfg, s0, Dispatch, [PutStop] + ([Take(0)] + ([Check(0)] + ([Finish(0)] + rest))));
    schedule := [Dispatch] + ([PutStop] + ([Take(0)] + ([Check(0)] + ([Finish(0)] + rest))));
  }

  /** The job is to be skipped, but SIGINT comes before the worker looks at it. */
  lemma InterruptedRun() returns (schedule: seq<Action>)
    ensures var cfg := OneJob(true);
            Valid(cfg, Init(cfg, false), schedule) &&
            After(cfg, Init(cfg, false), schedule)
            == State(1, 1, [], [Returned], [], [Report(0, Interrupted)], 1, true)
  {
    var cfg := OneJob(true);
    var s0 := Init(cfg, false);
    var s1 := Apply(cfg, s0, Dispatch);
    var s2 := Apply(cfg, s1, PutStop);
    var s3 := Apply(cfg, s2, Take(0));
    var s4 := Apply(cfg, s3, Interrupt);
    var s5 := Apply(cfg, s4, Check(0));
    assert s5 == State(1, 1, [Stop], [Ready(Report(0, Interrupted))], [], [], 0, true);
    var rest := LastSteps(cfg, Report(0, Interrupted), true);
    Then(cfg, s4, Check(0), rest);
    Then(cfg, s3, Interrupt, [Check(0)] + rest);
    Then(cfg, s2, Take(0), [Interrupt] + ([Check(0)] + rest));
    Then(cfg, s1, PutStop, [Take(0)] + ([Interrupt] + ([Check(0)] + rest)));
    Then(cfg, s0, Dispatch, [PutStop] + ([Take(0)] + ([Interrupt] + ([Check(0)] + rest))));
    schedule := [Dispatch] + ([PutStop] + ([Take(0)] + ([Interrupt] + ([Check(0)] + rest))));
  }

  /** The run that follows the schedule from the start. */
  ghost predicate Follow(run: Run, schedule: seq<Action>) {
    Valid(run.cfg, Init(run.cfg, false), schedule) && run.end == After(run.cfg, Init(run.cfg, false), schedule)
  }

  lemma FollowedIsComplete(run: Run, schedule: seq<Action>, plan: seq<Entry>)
    requires Follow(run, schedule) && Final(run.cfg, run.end) && Planned(plan, run.cfg.jobs)
    requires forall id :: 0 <= id < |run.cfg.jobs| ==> run.cfg.jobs[id].kind == Example
    ensures run.Complete(plan)
  {
    InitInv(run.cfg, false);
    RunInv(run.cfg, Init(run.cfg, false), schedule);
    hide Inv, Valid, After, Init;
  }

  const PLAN := [Entry(Example, "tcp-large-transfer", false)]

  function PassedRun(): Run {
    Run(OneJob(false), State(1, 1, [], [Returned], [], [Report(0, Ran(0))], 1, false))
  }

  function GivenUpRun(): Run {
    Run(OneJob(true), State(1, 1, [], [Returned], [], [Report(0, Interrupted)], 1, true))
  }

  /** The first run makes the second skip the example, the second makes the third execute it. */
  lemma WhatFollows()
    requires PassedRun().Complete(PLAN) && GivenUpRun().Complete(PLAN)
    ensures Follows(PLAN, PassedRun().Records(), OneJob(true).jobs)
    ensures Follows(PLAN, GivenUpRun().Records(), OneJob(false).jobs)
  {
    hide Inv, SkippedNext, RecordedGood, RecordsOf, Results, SuccessfulNames;
    NextSkipIff(PassedRun(), PLAN, 0);
    NextSkipIff(GivenUpRun(), PLAN, 0);
    RecordedGoodIff(OneJob(false).jobs[0], Ran(0));
    RecordedGoodIff(OneJob(true).jobs[0], Interrupted);
  }

  /** An example passes, its rerun is interrupted before the worker gets to it, and the rerun after that
      executes it again: all that `PassedJobRunsAgainIff` asks for, with the interleavings. */
  lemma PassedJobRunsAgain() returns (passing: seq<Action>, interrupted: seq<Action>)
    ensures Follow(PassedRun(), passing) && PassedRun().Complete(PLAN)
    ensures Follow(GivenUpRun(), interrupted) && GivenUpRun().Complete(PLAN)
    ensures Follows(PLAN, PassedRun().Records(), GivenUpRun().cfg.jobs)
    ensures Follows(PLAN, GivenUpRun().Records(), PassedRun().cfg.jobs)
    ensures RecordedGood(PassedRun().cfg.jobs[0], Ran(0)) && Report(0, Interrupted) in GivenUpRun().end.collected
    ensures Executed(PassedRun().end, 0)
  {
    passing := PassingRun();
    interrupted := InterruptedRun();
    hide Valid, After, Init, Inv, SkippedNext, RecordsOf, Results, SuccessfulNames, RecordedGood, Follows;
    FollowedIsComplete(PassedRun(), passing, PLAN);
    FollowedIsComplete(GivenUpRun(), interrupted, PLAN);
    WhatFollows();
    RecordedGoodIff(OneJob(false).jobs[0], Ran(0));
    assert PassedRun().end.collected[0] == Report(0, Ran(0));
  }

  // ----- chains of runs

  /** The rerun executes, of the suites and C++ examples, exactly those that did not pass before. */
  ghost predicate Narrows(plan: seq<Entry>, first: Run, second: Run) {
    forall id: nat :: id < |plan| && plan[id].kind != PyExample ==>
      (Executed(second.end, id) <==> ExecutedBadly(first, id))
  }

  lemma RerunNarrows(plan: seq<Entry>, first: Run, second: Run)
    requires DistinctNames(plan) && Rerun(plan, first, second)
    ensures Narrows(plan, first, second)
  {
    forall id: nat | id < |plan| && plan[id].kind != PyExample
      ensures Executed(second.end, id) <==> ExecutedBadly(first, id)
    {
      RerunExecutes(plan, first, second, id);
    }
  }

  lemma {:induction false} NarrowingChain(plan: seq<Entry>, runs: seq<Run>, j: nat, k: nat, id: nat)
    requires forall i :: 0 <= i < |runs| - 1 ==> Narrows(plan, runs[i], runs[i + 1])
    requires j < k < |runs| && id < |plan| && plan[id].kind != PyExample && Executed(runs[k].end, id)
    ensures ExecutedBadly(runs[j], id)
    decreases k
  {
    assert Narrows(plan, runs[k - 1], runs[k - 1 + 1]);
    if j < k - 1 {
      NarrowingChain(plan, runs, j, k - 1, id);
    }
  }

  /** Along a chain of uninterrupted reruns the executed suites and C++ examples only get fewer: one
      executed in run `k` was executed, and did not pass, in every run before. */
  lemma ExecutedSetsShrink(plan: seq<Entry>, runs: seq<Run>, j: nat, k: nat, id: nat)
    requires DistinctNames(plan) && forall i :: 0 <= i < |runs| - 1 ==> Rerun(plan, runs[i], runs[i + 1])
    requires j < k < |runs| && id < |plan| && plan[id].kind != PyExample && Executed(runs[k].end, id)
    ensures ExecutedBadly(runs[j], id)
  {
    forall i | 0 <= i < |runs| - 1 ensures Narrows(plan, runs[i], runs[i + 1]) {
      RerunNarrows(plan, runs[i], runs[i + 1]);
    }
    NarrowingChain(plan, runs, j, k, id);
  }
}
