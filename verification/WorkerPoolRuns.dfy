/** What holds over every interleaving of the worker pool: no job is lost or doubled, every run ends,
    it ends with all jobs collected, and the totals do not depend on the interleaving. */
module WorkerPoolRuns {
  import opened TestJobs
  import opened WorkerPool

  // ----- conservation

  /** Stop markers in a queue. */
  function Markers(input: seq<Item>): nat {
    if input == [] then 0
    else Markers(input[..|input| - 1]) + if input[|input| - 1] == Stop then 1 else 0
  }

  lemma {:induction false} BacklogCounts(taken: nat, dispatched: nat, marks: nat, id: nat)
    requires taken <= dispatched
    ensures Queued(Backlog(taken, dispatched, marks), id) == if taken <= id < dispatched then 1 else 0
    ensures Markers(Backlog(taken, dispatched, marks)) == marks
    decreases dispatched, marks
  {
    var b := Backlog(taken, dispatched, marks);
    if marks > 0 {
      BacklogCounts(taken, dispatched, marks - 1, id);
      assert b[..|b| - 1] == Backlog(taken, dispatched, marks - 1);
    } else if taken < dispatched {
      BacklogCounts(taken, dispatched - 1, 0, id);
      assert b[..|b| - 1] == Backlog(taken, dispatched - 1, 0);
    }
  }

  /** In every interleaving a dispatched job is in exactly one of the input queue, one worker's
      hands, the output queue and the collected reports; other jobs are nowhere. */
  lemma Conservation(cfg: Config, threadExit: bool, schedule: seq<Action>, id: nat)
    requires Valid(cfg, Init(cfg, threadExit), schedule)
    ensures var s := After(cfg, Init(cfg, threadExit), schedule);
            Queued(s.input, id) + Held(s.workers, id) + Reported(s.output, id) + Reported(s.collected, id)
            == if id < s.dispatched then 1 else 0
  {
    var s := After(cfg, Init(cfg, threadExit), schedule);
    InitInv(cfg, threadExit);
    RunInv(cfg, Init(cfg, threadExit), schedule);
    BacklogCounts(Taken(s), s.dispatched, s.stops - Left(s.workers), id);
    assert InFlight(s, id) == if id < Taken(s) then 1 else 0;
  }

  lemma {:induction false} SomeLeft(workers: seq<Worker>, i: nat)
    requires i < |workers|
    ensures Left(workers) >= Leaving(workers[i])
    decreases |workers|
  {
    var n := |workers| - 1;
    if i < n {
      SomeLeft(workers[..n], i);
    }
  }

  /** Each stop marker put is in the input queue or was consumed by one worker, and a worker only
      returns when every job has been dispatched and taken. */
  lemma StopMarkers(cfg: Config, threadExit: bool, schedule: seq<Action>)
    requires Valid(cfg, Init(cfg, threadExit), schedule)
    ensures var s := After(cfg, Init(cfg, threadExit), schedule);
            Markers(s.input) + Left(s.workers) == s.stops <= cfg.Threads()
    ensures var s := After(cfg, Init(cfg, threadExit), schedule);
            forall w :: 0 <= w < |s.workers| && s.workers[w].Returned? ==>
              s.dispatched == |cfg.jobs| && forall i :: 0 <= i < |s.input| ==> s.input[i] == Stop
  {
    var s := After(cfg, Init(cfg, threadExit), schedule);
    InitInv(cfg, threadExit);
    RunInv(cfg, Init(cfg, threadExit), schedule);
    BacklogCounts(Taken(s), s.dispatched, s.stops - Left(s.workers), 0);
    forall w | 0 <= w < |s.workers| && s.workers[w].Returned?
      ensures s.dispatched == |cfg.jobs| && Taken(s) == s.dispatched
    {
      SomeLeft(s.workers, w);
    }
  }

  // ----- the order of the reports

  /** The reports that the workers put into the output queue, in the order in which they do so. */
  function PutReports(cfg: Config, s: State, schedule: seq<Action>): seq<Report>
    requires Valid(cfg, s, schedule)
    decreases |schedule|
  {
    if schedule == [] then []
    else
      (match schedule[0] case Put(w) => [s.workers[w].report] case _ => [])
      + PutReports(cfg, Apply(cfg, s, schedule[0]), schedule[1..])
  }

  /** The main thread collects the reports in the order in which the workers put them. */
  lemma {:induction false} CollectedInOrder(cfg: Config, s: State, schedule: seq<Action>)
    requires Valid(cfg, s, schedule)
    ensures var end := After(cfg, s, schedule);
            end.collected + end.output == s.collected + s.output + PutReports(cfg, s, schedule)
    decreases |schedule|
  {
    if schedule == [] {
      assert s.collected + s.output + [] == s.collected + s.output;
    } else {
      var a := schedule[0];
      var t := Apply(cfg, s, a);
      var first := match a case Put(w) => [s.workers[w].report] case _ => [];
      assert t.collected + t.output == s.collected + s.output + first;
      hide Apply, Enabled;
      CollectedInOrder(cfg, t, schedule[1..]);
      Associates(s.collected + s.output, first, PutReports(cfg, t, schedule[1..]));
    }
  }

  lemma Associates(a: seq<Report>, b: seq<Report>, c: seq<Report>)
    ensures a + b + c == a + (b + c)
  {
  }

  // ----- every run ends

  function Weight(w: Worker): nat {
    match w
    case Took(Work(_)) => 4
    case Running(_) => 3
    case Ready(_) => 2
    case Took(Stop) => 1
    case _ => 0
  }

  function Potential(workers: seq<Worker>): nat {
    if workers == [] then 0 else Potential(workers[..|workers| - 1]) + Weight(workers[|workers| - 1])
  }

  /** The steps still possible: six for a job not yet dispatched, five for one in the input queue, and
      so on down to one for a report waiting to be collected; three for a stop marker not yet put. */
  function Measure(cfg: Config, s: State): int {
    6 * (|cfg.jobs| - s.dispatched) + 5 * (s.dispatched - Taken(s)) + Potential(s.workers) + |s.output|
    + 3 * (cfg.Threads() - s.stops) + 2 * (s.stops - Left(s.workers)) + (cfg.Threads() - s.joined)
    + if s.threadExit then 0 else 1
  }

  lemma {:induction false} PotentialUpdate(workers: seq<Worker>, i: nat, w: Worker)
    requires i < |workers|
    ensures Potential(workers[i := w]) + Weight(workers[i]) == Potential(workers) + Weight(w)
    decreases |workers|
  {
    var n := |workers| - 1;
    if i < n {
      PotentialUpdate(workers[..n], i, w);
      assert workers[i := w][..n] == workers[..n][i := w];
    } else {
      assert workers[i := w][..n] == workers[..n];
    }
  }

  lemma {:induction false} IdlePotential(workers: seq<Worker>)
    requires forall i :: 0 <= i < |workers| ==> workers[i] == Idle
    ensures Potential(workers) == 0
    decreases |workers|
  {
    if workers != [] {
      IdlePotential(workers[..|workers| - 1]);
    }
  }

  lemma TakeDecreases(cfg: Config, s: State, w: nat)
    requires MainThread(cfg, s) && Queue(cfg, s) && Enabled(cfg, s, Take(w))
    ensures Measure(cfg, Apply(cfg, s, Take(w))) < Measure(cfg, s)
  {
    TakeFront(cfg, s);
    CountsUpdate(s.workers, w, Took(s.input[0]));
    PotentialUpdate(s.workers, w, Took(s.input[0]));
    hide Backlog, Busy, Left, Potential;
  }

  lemma MoveDecreases(cfg: Config, s: State, a: Action)
    requires Enabled(cfg, s, a) && (a.Check? || a.Finish? || a.Put? || a.Collect?)
    ensures Measure(cfg, Apply(cfg, s, a)) < Measure(cfg, s)
  {
    hide Busy, Left, Potential, Taken;
    MoveKeepsCounts(cfg, s, a);
    var t := Apply(cfg, s, a);
    if !a.Collect? {
      PotentialUpdate(s.workers, a.w, t.workers[a.w]);
    }
  }

  lemma StepDecreases(cfg: Config, s: State, a: Action)
    requires MainThread(cfg, s) && Queue(cfg, s) && Enabled(cfg, s, a)
    ensures Measure(cfg, Apply(cfg, s, a)) < Measure(cfg, s)
  {
    hide Backlog, Busy, Left, Potential;
    if a.Take? {
      TakeDecreases(cfg, s, a.w);
    } else if a.Check? || a.Finish? || a.Put? || a.Collect? {
      MoveDecreases(cfg, s, a);
    }
  }

  lemma {:induction false} RunDecreases(cfg: Config, s: State, schedule: seq<Action>)
    requires Inv(cfg, s) && Valid(cfg, s, schedule)
    ensures Measure(cfg, After(cfg, s, schedule)) + |schedule| <= Measure(cfg, s)
    decreases |schedule|
  {
    if schedule != [] {
      StepInv(cfg, s, schedule[0]);
      StepDecreases(cfg, s, schedule[0]);
      RunDecreases(cfg, Apply(cfg, s, schedule[0]), schedule[1..]);
    }
  }

  // ----- no deadlock

  /** Some thread of the program can move; a signal is not something to wait for. */
  ghost predicate Live(cfg: Config, s: State) {
    exists a: Action :: a != Interrupt && Enabled(cfg, s, a)
  }

  lemma {:induction false} QuietWorkers(workers: seq<Worker>)
    requires forall i :: 0 <= i < |workers| ==> workers[i] in {Idle, Returned}
    ensures Busy(workers) == 0 && Left(workers) <= |workers|
    ensures (exists i :: 0 <= i < |workers| && workers[i] == Returned) ==> Left(workers) > 0
    ensures (exists i :: 0 <= i < |workers| && workers[i] == Idle) ==> Left(workers) < |workers|
    decreases |workers|
  {
    if workers != [] {
      QuietWorkers(workers[..|workers| - 1]);
    }
  }

  lemma QuietAllReturned(cfg: Config, s: State)
    requires MainThread(cfg, s) && Queue(cfg, s) && cfg.Threads() >= 1
    requires s.dispatched == |cfg.jobs| && s.stops == cfg.Threads()
    requires forall i :: 0 <= i < |s.workers| ==> s.workers[i] in {Idle, Returned}
    requires s.input == [] || forall i :: 0 <= i < |s.workers| ==> s.workers[i] != Idle
    ensures Taken(s) == |cfg.jobs| && Busy(s.workers) == 0
    ensures forall i :: 0 <= i < |s.workers| ==> s.workers[i] == Returned
  {
    QuietWorkers(s.workers);
    assert |s.input| == s.dispatched - Taken(s) + s.stops - Left(s.workers);
    if s.input != [] {
      assert s.workers[0] == Returned;
    }
  }

  /** As long as a run with at least one thread is not past the joins, some thread can move. */
  lemma NoDeadlock(cfg: Config, s: State)
    requires MainThread(cfg, s) && Queue(cfg, s) && HonestState(cfg, s)
    requires cfg.Threads() >= 1 && !Final(cfg, s)
    ensures Live(cfg, s)
  {
    if s.dispatched < |cfg.jobs| {
      assert Enabled(cfg, s, Dispatch);
    } else if s.stops < cfg.Threads() {
      assert Enabled(cfg, s, PutStop);
    } else if w: nat :| w < |s.workers| && s.workers[w] !in {Idle, Returned} {
      assert HonestWorker(cfg, s.threadExit, s.workers[w]);
      assert Enabled(cfg, s, Check(w)) || Enabled(cfg, s, Finish(w)) || Enabled(cfg, s, Put(w));
    } else if w: nat :| w < |s.workers| && s.workers[w] == Idle && s.input != [] {
      assert Enabled(cfg, s, Take(w));
    } else {
      QuietAllReturned(cfg, s);
      assert Enabled(cfg, s, if |s.collected| < |cfg.jobs| then Collect else Join);
    }
  }

  lemma {:induction false} AllReturned(workers: seq<Worker>)
    requires forall i :: 0 <= i < |workers| ==> workers[i] == Returned
    ensures Left(workers) == |workers| && Busy(workers) == 0
    decreases |workers|
  {
    if workers != [] {
      AllReturned(workers[..|workers| - 1]);
    }
  }

  /** Past the joins both queues are empty, every thread has returned and each job has been
      collected exactly once. */
  lemma FinalState(cfg: Config, s: State)
    requires Inv(cfg, s) && Final(cfg, s)
    ensures s.input == [] && s.output == [] && forall w :: 0 <= w < |s.workers| ==> s.workers[w] == Returned
    ensures forall id: nat :: Reported(s.collected, id) == if id < |cfg.jobs| then 1 else 0
  {
    AllReturned(s.workers);
    assert |s.input| == s.dispatched - Taken(s) + s.stops - Left(s.workers);
    forall id: nat ensures Reported(s.collected, id) == if id < |cfg.jobs| then 1 else 0 {
      assert InFlight(s, id) == if id < Taken(s) then 1 else 0;
      ReturnedHoldNothing(s.workers, id);
    }
  }

  lemma {:induction false} ReturnedHoldNothing(workers: seq<Worker>, id: nat)
    requires forall i :: 0 <= i < |workers| ==> workers[i] == Returned
    ensures Held(workers, id) == 0
    decreases |workers|
  {
    if workers != [] {
      ReturnedHoldNothing(workers[..|workers| - 1], id);
    }
  }

  /** Every interleaving, with or without SIGINT, is finite, and one that no thread can continue is
      past the joins with one report collected for each job. */
  lemma EveryRunCompletes(cfg: Config, threadExit: bool, schedule: seq<Action>)
    requires cfg.Threads() >= 1
    requires Valid(cfg, Init(cfg, threadExit), schedule)
    ensures |schedule| <= 6 * |cfg.jobs| + 4 * cfg.Threads() + 1
    ensures var s := After(cfg, Init(cfg, threadExit), schedule);
            Final(cfg, s) || Live(cfg, s)
    ensures var s := After(cfg, Init(cfg, threadExit), schedule);
            Final(cfg, s) ==> s.input == [] && s.output == [] &&
                              (forall w :: 0 <= w < |s.workers| ==> s.workers[w] == Returned) &&
                              forall id: nat :: Reported(s.collected, id) == if id < |cfg.jobs| then 1 else 0
  {
    var init := Init(cfg, threadExit);
    var s := After(cfg, init, schedule);
    InitInv(cfg, threadExit);
    RunInv(cfg, init, schedule);
    RunDecreases(cfg, init, schedule);
    IdleCounts(init.workers, 0);
    IdlePotential(init.workers);
    MeasureNonNegative(cfg, s);
    if Final(cfg, s) {
      FinalState(cfg, s);
    } else {
      NoDeadlock(cfg, s);
    }
  }

  lemma MeasureNonNegative(cfg: Config, s: State)
    requires MainThread(cfg, s) && Queue(cfg, s)
    ensures Measure(cfg, s) >= 0
  {
  }

  /** The run without signals that always picks a thread that can move. */
  lemma {:induction false} SomeRunFinishes(cfg: Config, s: State) returns (schedule: seq<Action>)
    requires Inv(cfg, s) && cfg.Threads() >= 1
    ensures Valid(cfg, s, schedule) && Final(cfg, After(cfg, s, schedule))
    decreases Measure(cfg, s)
  {
    if Final(cfg, s) {
      schedule := [];
    } else {
      NoDeadlock(cfg, s);
      var a: Action :| a != Interrupt && Enabled(cfg, s, a);
      StepInv(cfg, s, a);
      StepDecreases(cfg, s, a);
      MeasureNonNegative(cfg, Apply(cfg, s, a));
      var rest := SomeRunFinishes(cfg, Apply(cfg, s, a));
      schedule := [a] + rest;
      assert schedule[1..] == rest;
    }
  }

  lemma {:induction false} NoThreadsNoReports(cfg: Config, s: State, schedule: seq<Action>)
    requires s.workers == [] && s.output == [] && s.collected == [] && Valid(cfg, s, schedule)
    ensures After(cfg, s, schedule).collected == []
    decreases |schedule|
  {
    if schedule != [] {
      NoThreadsNoReports(cfg, Apply(cfg, s, schedule[0]), schedule[1..]);
    }
  }

  ghost predicate Completes(cfg: Config, schedule: seq<Action>) {
    Valid(cfg, Init(cfg, false), schedule) && Final(cfg, After(cfg, Init(cfg, false), schedule))
  }

  /** test.py can finish exactly when it started a thread or has no job. */
  lemma CanFinishIff(cfg: Config)
    ensures (exists schedule :: Completes(cfg, schedule)) <==> cfg.Threads() >= 1 || cfg.jobs == []
  {
    var init := Init(cfg, false);
    if cfg.Threads() >= 1 {
      InitInv(cfg, false);
      var schedule := SomeRunFinishes(cfg, init);
      assert Completes(cfg, schedule);
    } else if cfg.jobs == [] {
      assert Completes(cfg, []);
    } else {
      forall schedule ensures !Completes(cfg, schedule) {
        if Valid(cfg, init, schedule) {
          NoThreadsNoReports(cfg, init, schedule);
        }
      }
    }
  }

  /** The number of threads: a positive limit is kept but never raises the number of processors, 0 is no
      limit, and a negative limit leaves no thread. */
  lemma ThreadsAre(cfg: Config)
    ensures cfg.processLimit > 0 ==> cfg.Threads() <= cfg.processLimit && cfg.Threads() <= cfg.cpus
    ensures cfg.processLimit > 0 ==> cfg.Threads() == cfg.processLimit || cfg.Threads() == cfg.cpus
    ensures cfg.processLimit == 0 ==> cfg.Threads() == cfg.cpus
    ensures cfg.processLimit < 0 ==> cfg.Threads() == 0
  {
  }

  /** On a machine with a processor the pool is empty only for a negative `--jobs`, which nothing in
      the script rejects. */
  lemma NoThreadsIff(cfg: Config)
    requires cfg.cpus >= 1
    ensures cfg.Threads() == 0 <==> cfg.processLimit < 0
    ensures cfg.Threads() <= cfg.cpus
  {
  }

  // ----- totals

  function ExpectedReports(cfg: Config): seq<Report> {
    seq(|cfg.jobs|, id requires 0 <= id < |cfg.jobs| => Expected(cfg, id))
  }

  lemma {:induction false} ReportedConcat(a: seq<Report>, b: seq<Report>, id: nat)
    ensures Reported(a + b, id) == Reported(a, id) + Reported(b, id)
    decreases |b|
  {
    if b == [] {
      assert a + b == a;
    } else {
      var n := |b| - 1;
      ReportedConcat(a, b[..n], id);
      assert a + b == (a + b[..n]) + [b[n]];
      ReportedAppend(a + b[..n], b[n], id);
    }
  }

  lemma ReportedRemove(reports: seq<Report>, k: nat, id: nat)
    requires k < |reports|
    ensures Reported(reports, id)
         == Reported(reports[..k] + reports[k + 1..], id) + if reports[k].id == id then 1 else 0
  {
    assert reports == (reports[..k] + [reports[k]]) + reports[k + 1..];
    ReportedConcat(reports[..k] + [reports[k]], reports[k + 1..], id);
    ReportedAppend(reports[..k], reports[k], id);
    ReportedConcat(reports[..k], reports[k + 1..], id);
  }

  lemma {:induction false} ReportedPositive(reports: seq<Report>, i: nat)
    requires i < |reports|
    ensures Reported(reports, reports[i].id) > 0
    decreases |reports|
  {
    var n := |reports| - 1;
    if i < n {
      ReportedPositive(reports[..n], i);
    }
  }

  /** In whatever order the expected reports of the first `n` jobs come, they give the same counters. */
  lemma {:induction false} CountsAreDetermined(cfg: Config, reports: seq<Report>, n: nat, status: Status)
    requires n <= |cfg.jobs|
    requires forall id: nat :: Reported(reports, id) == if id < n then 1 else 0
    requires forall i :: 0 <= i < |reports| ==>
               reports[i].id < |cfg.jobs| && reports[i] == Expected(cfg, reports[i].id)
    ensures Count(reports, status) == Count(ExpectedReports(cfg)[..n], status)
    decreases n
  {
    hide Reported, Expected, StatusOf;
    if n == 0 {
      if reports != [] {
        ReportedPositive(reports, 0);
        assert false;
      }
    } else {
      assert Reported(reports, n - 1) == 1;
      var k := ReportedSomewhere(reports, n - 1);
      var rest := reports[..k] + reports[k + 1..];
      forall id: nat ensures Reported(rest, id) == if id < n - 1 then 1 else 0 {
        ReportedRemove(reports, k, id);
        assert Reported(reports, id) == if id < n then 1 else 0;
      }
      CountsAreDetermined(cfg, rest, n - 1, status);
      CountRemove(reports, k, status);
      assert ExpectedReports(cfg)[..n] == ExpectedReports(cfg)[..n - 1] + [reports[k]];
      CountAppend(ExpectedReports(cfg)[..n - 1], reports[k], status);
    }
  }

  lemma {:induction false} ReportedSomewhere(reports: seq<Report>, id: nat) returns (i: nat)
    requires Reported(reports, id) > 0
    ensures i < |reports| && reports[i].id == id
    decreases |reports|
  {
    var n := |reports| - 1;
    if reports[n].id == id {
      i := n;
    } else {
      i := ReportedSomewhere(reports[..n], id);
    }
  }

  /** A complete run without SIGINT gives the counters that the jobs determine. */
  lemma UninterruptedCounts(cfg: Config, s: State, status: Status)
    requires Inv(cfg, s) && Final(cfg, s) && !s.threadExit
    ensures Count(s.collected, status) == Count(ExpectedReports(cfg), status)
  {
    FinalState(cfg, s);
    forall i | 0 <= i < |s.collected|
      ensures s.collected[i].id < |cfg.jobs| && s.collected[i] == Expected(cfg, s.collected[i].id)
    {
      assert Honest(cfg, s.threadExit, s.collected[i]);
    }
    CountsAreDetermined(cfg, s.collected, |cfg.jobs|, status);
    assert ExpectedReports(cfg)[..|cfg.jobs|] == ExpectedReports(cfg);
  }

  /** The jobs that are run and return this code. */
  function JobsReturning(jobs: seq<Job>, code: int): set<nat> {
    set id: nat | id < |jobs| && !jobs[id].isSkip && jobs[id].returnCode == code
  }

  function JobsReturningOther(jobs: seq<Job>): set<nat> {
    set id: nat | id < |jobs| && !jobs[id].isSkip && jobs[id].returnCode !in {0, 1, 2}
  }

  function JobsToSkip(jobs: seq<Job>): set<nat> {
    set id: nat | id < |jobs| && jobs[id].isSkip
  }

  /** The five counters of a complete run without SIGINT, as numbers of jobs by return code. */
  lemma UninterruptedTotals(cfg: Config, s: State)
    requires Inv(cfg, s) && Final(cfg, s) && !s.threadExit
    ensures Count(s.collected, PASS) == |JobsReturning(cfg.jobs, 0)|
    ensures Count(s.collected, FAIL) == |JobsReturning(cfg.jobs, 1)|
    ensures Count(s.collected, VALGR) == |JobsReturning(cfg.jobs, 2)|
    ensures Count(s.collected, CRASH) == |JobsReturningOther(cfg.jobs)|
    ensures Count(s.collected, SKIP) == |JobsToSkip(cfg.jobs)|
  {
    UninterruptedCounts(cfg, s, PASS);
    UninterruptedCounts(cfg, s, FAIL);
    UninterruptedCounts(cfg, s, VALGR);
    UninterruptedCounts(cfg, s, CRASH);
    UninterruptedCounts(cfg, s, SKIP);
    hide Inv, Final, Count;
    var reports := ExpectedReports(cfg);
    CountsByCode(reports);
    assert RanWith(reports, 0) == JobsReturning(cfg.jobs, 0) && RanWith(reports, 1) == JobsReturning(cfg.jobs, 1);
    assert RanWith(reports, 2) == JobsReturning(cfg.jobs, 2) && RanWithOther(reports) == JobsReturningOther(cfg.jobs);
    assert SkippedReports(reports) == JobsToSkip(cfg.jobs);
  }

  /** Two complete runs without SIGINT over the same jobs, whatever the interleaving and the number
      of threads, give the same counters and the same return value. */
  lemma TotalsDoNotDependOnSchedule(cfg1: Config, cfg2: Config, schedule1: seq<Action>, schedule2: seq<Action>,
                                    status: Status)
    requires cfg1.jobs == cfg2.jobs
    requires Valid(cfg1, Init(cfg1, false), schedule1) && Valid(cfg2, Init(cfg2, false), schedule2)
    requires var s1 := After(cfg1, Init(cfg1, false), schedule1);
             Final(cfg1, s1) && !s1.threadExit
    requires var s2 := After(cfg2, Init(cfg2, false), schedule2);
             Final(cfg2, s2) && !s2.threadExit
    ensures var s1 := After(cfg1, Init(cfg1, false), schedule1);
            var s2 := After(cfg2, Init(cfg2, false), schedule2);
            && Count(s1.collected, status) == Count(s2.collected, status)
            && Count(s1.collected, status) == Count(ExpectedReports(cfg1), status)
  {
    var s1 := After(cfg1, Init(cfg1, false), schedule1);
    var s2 := After(cfg2, Init(cfg2, false), schedule2);
    InitInv(cfg1, false);
    InitInv(cfg2, false);
    RunInv(cfg1, Init(cfg1, false), schedule1);
    RunInv(cfg2, Init(cfg2, false), schedule2);
    UninterruptedCounts(cfg1, s1, status);
    UninterruptedCounts(cfg2, s2, status);
    assert ExpectedReports(cfg1) == ExpectedReports(cfg2);
  }

  /** In every complete run the six counters add up to the number of jobs, and the value returned is
      0 exactly when no report was interrupted and every job is one that passes or is skipped. */
  lemma ExitCodeOfRun(cfg: Config, threadExit: bool, schedule: seq<Action>)
    requires Valid(cfg, Init(cfg, threadExit), schedule)
    requires Final(cfg, After(cfg, Init(cfg, threadExit), schedule))
    ensures var c := After(cfg, Init(cfg, threadExit), schedule).collected;
            && Count(c, PASS) + Count(c, SKIP) + Count(c, FAIL) + Count(c, VALGR) + Count(c, CRASH)
               + Count(c, BREAK) == |cfg.jobs|
            && (ExitCode(Count(c, PASS), Count(c, SKIP), |cfg.jobs|) == 0 <==>
                (forall i :: 0 <= i < |c| ==> c[i].outcome != Interrupted) &&
                (forall id :: 0 <= id < |cfg.jobs| ==> StatusOf(Expected(cfg, id).outcome) in {PASS, SKIP}))
  {
    var s := After(cfg, Init(cfg, threadExit), schedule);
    var c := s.collected;
    InitInv(cfg, threadExit);
    RunInv(cfg, Init(cfg, threadExit), schedule);
    FinalState(cfg, s);
    CountsSum(c);
    ExitCodeMeaning(c);
    if forall i :: 0 <= i < |c| ==> StatusOf(c[i].outcome) in {PASS, SKIP} {
      forall id | 0 <= id < |cfg.jobs| ensures StatusOf(Expected(cfg, id).outcome) in {PASS, SKIP} {
        assert Reported(c, id) == 1;
        var i := ReportedSomewhere(c, id);
        assert Honest(cfg, s.threadExit, c[i]);
      }
    }
    if (forall i :: 0 <= i < |c| ==> c[i].outcome != Interrupted) &&
       (forall id :: 0 <= id < |cfg.jobs| ==> StatusOf(Expected(cfg, id).outcome) in {PASS, SKIP}) {
      forall i | 0 <= i < |c| ensures StatusOf(c[i].outcome) in {PASS, SKIP} {
        assert Honest(cfg, s.threadExit, c[i]);
      }
    }
  }

  // ----- SIGINT

  predicate HandledBy(w: Worker, id: nat) {
    w == Running(id) || (w.Ready? && w.report.id == id && w.report.outcome != Interrupted)
  }

  predicate HandledIn(reports: seq<Report>, id: nat) {
    exists i :: 0 <= i < |reports| && reports[i].id == id && reports[i].outcome != Interrupted
  }

  /** A worker has decided to run or to skip the job. */
  predicate Handled(s: State, id: nat) {
    (exists w :: 0 <= w < |s.workers| && HandledBy(s.workers[w], id)) || HandledIn(s.output, id) || HandledIn(s.collected, id)
  }

  lemma InterruptedStep(cfg: Config, s: State, a: Action, id: nat)
    requires s.threadExit && Enabled(cfg, s, a)
    ensures Apply(cfg, s, a).threadExit
    ensures Handled(Apply(cfg, s, a), id) <==> Handled(s, id)
  {
    var t := Apply(cfg, s, a);
    if Handled(s, id) {
      HandledKept(cfg, s, a, id);
    }
    if Handled(t, id) {
      if w :| 0 <= w < |t.workers| && HandledBy(t.workers[w], id) {
        assert HandledBy(s.workers[w], id);
      }
    }
  }

  lemma HandledKept(cfg: Config, s: State, a: Action, id: nat)
    requires Enabled(cfg, s, a) && Handled(s, id)
    ensures Handled(Apply(cfg, s, a), id)
  {
    var t := Apply(cfg, s, a);
    if w :| 0 <= w < |s.workers| && HandledBy(s.workers[w], id) {
      if a == Put(w) {
        assert t.output[|s.output|] == s.workers[w].report;
      } else {
        assert HandledBy(t.workers[w], id);
      }
    } else if i :| 0 <= i < |s.output| && s.output[i].id == id && s.output[i].outcome != Interrupted {
      if a == Collect && i == 0 {
        assert t.collected[|s.collected|] == s.output[0];
      } else if a == Collect {
        assert t.output[i - 1] == s.output[i];
      } else {
        assert t.output[i] == s.output[i];
      }
    } else {
      var i :| 0 <= i < |s.collected| && s.collected[i].id == id && s.collected[i].outcome != Interrupted;
      assert t.collected[i] == s.collected[i];
    }
  }

  /** After SIGINT the jobs that are run or skipped are exactly those a worker had decided about
      before; every other job is given up, even one that would have been skipped. */
  lemma {:induction false} InterruptGivesUpTheRest(cfg: Config, s: State, schedule: seq<Action>, id: nat)
    requires s.threadExit && Valid(cfg, s, schedule)
    ensures Handled(After(cfg, s, schedule), id) <==> Handled(s, id)
    decreases |schedule|
  {
    if schedule != [] {
      InterruptedStep(cfg, s, schedule[0], id);
      InterruptGivesUpTheRest(cfg, Apply(cfg, s, schedule[0]), schedule[1..], id);
    }
  }
}
