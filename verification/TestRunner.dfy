/** test.py's main thread and workers as an object with its two queues, driven by a schedule that
    says which thread moves next. */
module TestRunner {
  import opened TestJobs
  import opened WorkerPool
  import opened WorkerPoolRuns
  import opened ResultCollector

  ghost predicate SomeRaises(jobs: seq<Job>, reports: seq<Report>) {
    exists i: nat :: RaisesAt(jobs, reports, i)
  }

  lemma OutputKnown(cfg: Config, s: State)
    requires Inv(cfg, s) && s.output != []
    ensures s.output[0].id < |cfg.jobs|
  {
    assert Honest(cfg, s.threadExit, s.output[0]);
  }

  lemma {:induction false} AfterSnoc(cfg: Config, s: State, schedule: seq<Action>, a: Action)
    requires Valid(cfg, s, schedule) && Enabled(cfg, After(cfg, s, schedule), a)
    ensures Valid(cfg, s, schedule + [a])
    ensures After(cfg, s, schedule + [a]) == Apply(cfg, After(cfg, s, schedule), a)
    decreases |schedule|
  {
    hide Enabled, Apply;
    if schedule == [] {
      assert [a][1..] == [] && schedule + [a] == [a];
    } else {
      AfterSnoc(cfg, Apply(cfg, s, schedule[0]), schedule[1..], a);
      assert (schedule + [a])[1..] == schedule[1..] + [a];
    }
  }

  /** The first `i` actions lead from `start` to `s`, and the others on to the same end. */
  ghost predicate Follows(cfg: Config, start: State, s: State, schedule: seq<Action>, i: nat) {
    && i <= |schedule| && Valid(cfg, start, schedule) && Valid(cfg, start, schedule[..i])
    && s == After(cfg, start, schedule[..i])
    && Valid(cfg, s, schedule[i..]) && After(cfg, s, schedule[i..]) == After(cfg, start, schedule)
  }

  /** One action further in a schedule. */
  lemma SplitAt(cfg: Config, start: State, s: State, schedule: seq<Action>, i: nat)
    requires i < |schedule| && Follows(cfg, start, s, schedule, i)
    ensures Enabled(cfg, s, schedule[i]) && Follows(cfg, start, Apply(cfg, s, schedule[i]), schedule, i + 1)
  {
    hide Enabled, Apply;
    assert schedule[i..][0] == schedule[i] && schedule[i..][1..] == schedule[i + 1..];
    assert schedule[..i + 1] == schedule[..i] + [schedule[i]];
    AfterSnoc(cfg, start, schedule[..i], schedule[i]);
  }

  lemma RaisedIsFinal(cfg: Config, start: State, s: State, schedule: seq<Action>, i: nat)
    requires Follows(cfg, start, s, schedule, i) && RaisesLast(cfg.jobs, s.collected)
    ensures SomeRaises(cfg.jobs, After(cfg, start, schedule).collected)
  {
    CollectedGrows(cfg, s, schedule[i..]);
    hide Valid, After;
    var n: nat := |s.collected| - 1;
    assert RaisesAt(cfg.jobs, s.collected, n);
    assert RaisesAt(cfg.jobs, After(cfg, start, schedule).collected, n);
  }

  /** Reports are only ever appended to the collected ones. */
  lemma {:induction false} CollectedGrows(cfg: Config, s: State, schedule: seq<Action>)
    requires Valid(cfg, s, schedule)
    ensures s.collected <= After(cfg, s, schedule).collected
    decreases |schedule|
  {
    if schedule != [] {
      assert s.collected <= Apply(cfg, s, schedule[0]).collected;
      hide Enabled, Apply;
      CollectedGrows(cfg, Apply(cfg, s, schedule[0]), schedule[1..]);
    }
  }

  class Runner {
    const cfg: Config
    var dispatched: nat
    var stops: nat
    var inputQueue: seq<Item>
    var workers: seq<Worker>
    var outputQueue: seq<Report>
    var collected: seq<Report>
    var joined: nat
    var threadExit: bool

    ghost function View(): State
      reads this
    {
      State(dispatched, stops, inputQueue, workers, outputQueue, collected, joined, threadExit)
    }

    /** Starts the worker threads, all waiting on the empty input queue. */
    constructor (cfg: Config, threadExit: bool)
      ensures this.cfg == cfg && View() == Init(cfg, threadExit)
    {
      this.cfg := cfg;
      this.threadExit := threadExit;
      dispatched, stops, joined := 0, 0, 0;
      inputQueue, outputQueue, collected := [], [], [];
      workers := seq(cfg.Threads(), _ => Idle);
    }

    method PutOnInput(item: Item)
      modifies this`inputQueue
      ensures inputQueue == old(inputQueue) + [item]
    {
      inputQueue := inputQueue + [item];
    }

    /** One step of `worker_thread.run` in thread `w`. */
    method StepWorker(w: nat)
      requires w < |workers|
      requires Enabled(cfg, View(), Take(w)) || Enabled(cfg, View(), Check(w)) || Enabled(cfg, View(), Finish(w))
            || Enabled(cfg, View(), Put(w))
      modifies this`inputQueue, this`workers, this`outputQueue
      ensures View() == Apply(cfg, old(View()), match old(workers[w])
                                                case Idle => Take(w)
                                                case Took(_) => Check(w)
                                                case Running(_) => Finish(w)
                                                case _ => Put(w))
    {
      match workers[w]
      case Idle =>
        var item := inputQueue[0];
        inputQueue := inputQueue[1..];
        workers := workers[w := Took(item)];
      case Took(item) =>
        match item {
          case Stop =>
            workers := workers[w := Returned];
          case Work(id) =>
            if threadExit {
              workers := workers[w := Ready(Report(id, Interrupted))];
            } else if cfg.jobs[id].isSkip {
              workers := workers[w := Ready(Report(id, Skipped))];
            } else {
              workers := workers[w := Running(id)];
            }
        }
      case Running(id) =>
        workers := workers[w := Ready(Report(id, Ran(cfg.jobs[id].returnCode)))];
      case Ready(report) =>
        outputQueue := outputQueue + [report];
        workers := workers[w := Idle];
      case Returned => assert false;
    }

    /** Whichever thread `a` names moves. */
    method Step(a: Action)
      requires Enabled(cfg, View(), a)
      modifies this
      ensures View() == Apply(cfg, old(View()), a)
    {
      match a
      case Dispatch =>
        PutOnInput(Work(dispatched));
        dispatched := dispatched + 1;
      case PutStop =>
        PutOnInput(Stop);
        stops := stops + 1;
      case Collect =>
        var report := outputQueue[0];
        outputQueue := outputQueue[1..];
        collected := collected + [report];
      case Join => joined := joined + 1;
      case Interrupt => threadExit := true;
      case Take(w) => StepWorker(w);
      case Check(w) => StepWorker(w);
      case Finish(w) => StepWorker(w);
      case Put(w) => StepWorker(w);
    }

    /** What has been collected so far has been looked at, without an exception. */
    ghost predicate LookedAt(collector: Collector)
      reads this, collector
    {
      Known(cfg.jobs, collected) && collector.Reflects(cfg.jobs, collected) && NoneRaises(cfg.jobs, collected)
    }

    /** The main thread takes a report and looks at it at once. */
    method CollectOne(collector: Collector) returns (ok: bool)
      requires Enabled(cfg, View(), Action.Collect) && outputQueue[0].id < |cfg.jobs| && LookedAt(collector)
      modifies this, collector
      ensures View() == Apply(cfg, old(View()), Action.Collect) && Known(cfg.jobs, collected)
      ensures if ok then LookedAt(collector) else RaisesLast(cfg.jobs, collected)
    {
      ghost var seen := collected;
      var report := outputQueue[0];
      Step(Action.Collect);
      assert collected == seen + [report];
      hide Raises;
      ok := collector.Collect(cfg.jobs, seen, report);
      OneMoreReport(cfg.jobs, seen, report);
    }

    /** Whichever thread `a` names moves; a collected report is looked at. */
    method Advance(collector: Collector, a: Action) returns (ok: bool)
      requires Enabled(cfg, View(), a) && Inv(cfg, View()) && LookedAt(collector)
      modifies this, collector
      ensures View() == Apply(cfg, old(View()), a) && Inv(cfg, View()) && Known(cfg.jobs, collected)
      ensures if ok then LookedAt(collector) else a == Action.Collect && RaisesLast(cfg.jobs, collected)
    {
      StepInv(cfg, View(), a);
      ok := true;
      if a == Action.Collect {
        OutputKnown(cfg, View());
        hide Inv, LookedAt;
        ok := CollectOne(collector);
      } else {
        hide Inv, NoneRaises;
        Step(a);
      }
    }

    /** Follows a schedule to the joins, or until the main thread raises on a missing result file, which
        ends the run after `steps` actions: nothing is collected or joined after it. */
    method Drive(collector: Collector, schedule: seq<Action>) returns (raised: bool, ghost steps: nat)
      requires View() == Init(cfg, threadExit) && LookedAt(collector)
      requires Valid(cfg, View(), schedule)
      modifies this, collector
      ensures steps <= |schedule| && Valid(cfg, old(View()), schedule[..steps])
      ensures View() == After(cfg, old(View()), schedule[..steps])
      ensures raised ==> SomeRaises(cfg.jobs, After(cfg, old(View()), schedule).collected)
      ensures if raised then steps > 0 && schedule[steps - 1] == Action.Collect && RaisesLast(cfg.jobs, collected)
              else steps == |schedule| && LookedAt(collector)
    {
      ghost var start := View();
      InitInv(cfg, threadExit);
      assert schedule[..0] == [] && schedule[0..] == schedule;
      hide Inv, LookedAt, SomeRaises, RaisesLast, Init;
      for i := 0 to |schedule|
        invariant Inv(cfg, View()) && LookedAt(collector) && Follows(cfg, start, View(), schedule, i)
      {
        SplitAt(cfg, start, View(), schedule, i);
        var ok := Advance(collector, schedule[i]);
        if !ok {
          RaisedIsFinal(cfg, start, View(), schedule, i + 1);
          raised, steps := true, i + 1;
          return;
        }
      }
      raised, steps := false, |schedule|;
    }

    /** What `run_tests` returns after the loop. */
    method ReturnValue(collector: Collector) returns (code: int)
      requires LookedAt(collector)
      ensures code == ExitCode(Count(collected, PASS), Count(collected, SKIP), |cfg.jobs|)
      ensures NoneRaises(cfg.jobs, collected) && !SomeRaises(cfg.jobs, collected)
    {
      code := collector.Result(|cfg.jobs|);
    }

    /** The whole run. `code` is what `run_tests` returns unless it raises: 0 exactly when no job was
        interrupted and all of them pass or are skipped. */
    method RunTests(schedule: seq<Action>) returns (raised: bool, code: int, ghost steps: nat)
      requires View() == Init(cfg, threadExit)
      requires Valid(cfg, View(), schedule) && Final(cfg, After(cfg, View(), schedule))
      modifies this
      ensures steps <= |schedule| && Valid(cfg, old(View()), schedule[..steps])
      ensures View() == After(cfg, old(View()), schedule[..steps])
      ensures raised <==> SomeRaises(cfg.jobs, After(cfg, old(View()), schedule).collected)
      ensures if raised then steps > 0 && schedule[steps - 1] == Action.Collect && RaisesLast(cfg.jobs, collected)
              else steps == |schedule| && NoneRaises(cfg.jobs, collected)
      ensures !raised ==>
                (code == 0 <==> (forall i :: 0 <= i < |collected| ==> collected[i].outcome != Interrupted) &&
                                (forall id :: 0 <= id < |cfg.jobs| ==>
                                   StatusOf(Expected(cfg, id).outcome) in {PASS, SKIP}))
    {
      ghost var start, exit := View(), threadExit;
      var collector := new Collector();
      assert LookedAt(collector);
      hide LookedAt, NoneRaises, SomeRaises, RaisesLast, Valid, After, Init, Expected;
      raised, steps := Drive(collector, schedule);
      code := 1;
      if !raised {
        assert schedule[..|schedule|] == schedule;
        code := ReturnValue(collector);
        ExitCodeOfRun(cfg, exit, schedule);
      }
    }
  }
}
