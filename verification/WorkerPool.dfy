/** The worker pool of test.py as a transition system: the main thread dispatches jobs and stop
    markers, the workers take, check, run and put them back, SIGINT sets `thread_exit`, and the main
    thread collects one report for each job and joins the threads. Every action is one step that
    any other thread can come between. */
module WorkerPool {
  import opened TestJobs

  datatype Config = Config(jobs: seq<Job>, cpus: nat, processLimit: int)
  {
    /** `--jobs` can only lower the number of processors; 0 means no limit was given. */
    function Processors(): int {
      if processLimit != 0 && !(cpus < processLimit) then processLimit else cpus
    }

    /** `range(processors)` starts no thread when the number is negative. */
    function Threads(): nat {
      if Processors() < 0 then 0 else Processors()
    }
  }

  datatype Item = Work(id: nat) | Stop

  /** A worker between two of its steps: waiting in `get`, holding an item it has just taken, inside
      the child process, holding a report it is about to put, or returned from `run`. */
  datatype Worker = Idle | Took(item: Item) | Running(id: nat) | Ready(report: Report) | Returned

  datatype State = State(dispatched: nat, stops: nat, input: seq<Item>, workers: seq<Worker>,
                         output: seq<Report>, collected: seq<Report>, joined: nat, threadExit: bool)

  datatype Action = Dispatch | PutStop | Take(w: nat) | Check(w: nat) | Finish(w: nat) | Put(w: nat)
                  | Interrupt | Collect | Join

  function Init(cfg: Config, threadExit: bool): State {
    State(0, 0, [], seq(cfg.Threads(), _ => Idle), [], [], 0, threadExit)
  }

  predicate Enabled(cfg: Config, s: State, a: Action) {
    match a
    case Dispatch => s.dispatched < |cfg.jobs|
    case PutStop => s.dispatched == |cfg.jobs| && s.stops < cfg.Threads()
    case Take(w) => w < |s.workers| && s.workers[w].Idle? && s.input != []
    case Check(w) => w < |s.workers| && s.workers[w].Took? &&
                     (s.workers[w].item.Work? ==> s.workers[w].item.id < |cfg.jobs|)
    case Finish(w) => w < |s.workers| && s.workers[w].Running? && s.workers[w].id < |cfg.jobs|
    case Put(w) => w < |s.workers| && s.workers[w].Ready?
    case Interrupt => !s.threadExit
    case Collect => s.dispatched == |cfg.jobs| && s.stops == cfg.Threads()
                    && |s.collected| < |cfg.jobs| && s.output != []
    case Join => s.dispatched == |cfg.jobs| && s.stops == cfg.Threads() && |s.collected| == |cfg.jobs|
                 && s.joined < |s.workers| && s.workers[s.joined].Returned?
  }

  /** What `worker_thread.run` does with the item it has taken; `thread_exit` is tested before
      `is_skip`. */
  function Checked(cfg: Config, item: Item, threadExit: bool): Worker
    requires item.Work? ==> item.id < |cfg.jobs|
  {
    match item
    case Stop => Returned
    case Work(id) =>
      if threadExit then Ready(Report(id, Interrupted))
      else if cfg.jobs[id].isSkip then Ready(Report(id, Skipped))
      else Running(id)
  }

  function Apply(cfg: Config, s: State, a: Action): State
    requires Enabled(cfg, s, a)
  {
    match a
    case Dispatch => s.(dispatched := s.dispatched + 1, input := s.input + [Work(s.dispatched)])
    case PutStop => s.(stops := s.stops + 1, input := s.input + [Stop])
    case Take(w) => s.(input := s.input[1..], workers := s.workers[w := Took(s.input[0])])
    case Check(w) => s.(workers := s.workers[w := Checked(cfg, s.workers[w].item, s.threadExit)])
    case Finish(w) =>
      var id := s.workers[w].id;
      s.(workers := s.workers[w := Ready(Report(id, Ran(cfg.jobs[id].returnCode)))])
    case Put(w) => s.(workers := s.workers[w := Idle], output := s.output + [s.workers[w].report])
    case Interrupt => s.(threadExit := true)
    case Collect => s.(output := s.output[1..], collected := s.collected + [s.output[0]])
    case Join => s.(joined := s.joined + 1)
  }

  /** A schedule is one interleaving of the threads. */
  predicate Valid(cfg: Config, s: State, schedule: seq<Action>)
    decreases |schedule|
  {
    schedule == [] ||
    (Enabled(cfg, s, schedule[0]) && Valid(cfg, Apply(cfg, s, schedule[0]), schedule[1..]))
  }

  function After(cfg: Config, s: State, schedule: seq<Action>): State
    requires Valid(cfg, s, schedule)
    decreases |schedule|
  {
    if schedule == [] then s else After(cfg, Apply(cfg, s, schedule[0]), schedule[1..])
  }

  /** `run_tests` is past the joins. */
  predicate Final(cfg: Config, s: State) {
    s.dispatched == |cfg.jobs| && s.stops == cfg.Threads() && |s.collected| == |cfg.jobs|
    && s.joined == cfg.Threads()
  }

  // ----- where the jobs are

  function Holds(w: Worker, id: nat): nat {
    match w
    case Took(Work(i)) => if i == id then 1 else 0
    case Running(i) => if i == id then 1 else 0
    case Ready(report) => if report.id == id then 1 else 0
    case _ => 0
  }

  /** How many workers have job `id` in their hands. */
  function Held(workers: seq<Worker>, id: nat): nat {
    if workers == [] then 0
    else Held(workers[..|workers| - 1], id) + Holds(workers[|workers| - 1], id)
  }

  /** How often job `id` is reported. */
  function Reported(reports: seq<Report>, id: nat): nat {
    if reports == [] then 0
    else Reported(reports[..|reports| - 1], id) + if reports[|reports| - 1].id == id then 1 else 0
  }

  /** How often job `id` is in the input queue. */
  function Queued(input: seq<Item>, id: nat): nat {
    if input == [] then 0
    else Queued(input[..|input| - 1], id) + if input[|input| - 1] == Work(id) then 1 else 0
  }

  /** How often job `id` is found outside the input queue. */
  function InFlight(s: State, id: nat): nat {
    Held(s.workers, id) + Reported(s.output, id) + Reported(s.collected, id)
  }

  function Holding(w: Worker): nat {
    if w.Running? || w.Ready? || (w.Took? && w.item.Work?) then 1 else 0
  }

  function Leaving(w: Worker): nat {
    if w == Took(Stop) || w == Returned then 1 else 0
  }

  /** Workers with a job in their hands. */
  function Busy(workers: seq<Worker>): nat {
    if workers == [] then 0 else Busy(workers[..|workers| - 1]) + Holding(workers[|workers| - 1])
  }

  /** Workers that have consumed their stop marker. */
  function Left(workers: seq<Worker>): nat {
    if workers == [] then 0 else Left(workers[..|workers| - 1]) + Leaving(workers[|workers| - 1])
  }

  /** Jobs that some worker has taken from the input queue. */
  function Taken(s: State): nat {
    Busy(s.workers) + |s.output| + |s.collected|
  }

  /** Jobs `taken..dispatched` in dispatch order, then stop markers. */
  function Backlog(taken: nat, dispatched: nat, marks: nat): seq<Item>
    requires taken <= dispatched
  {
    seq(dispatched - taken, i requires 0 <= i < dispatched - taken => Work(taken + i)) + seq(marks, _ => Stop)
  }

  // ----- the invariant

  /** The report a job gets when nobody interrupts. */
  function Expected(cfg: Config, id: nat): Report
    requires id < |cfg.jobs|
  {
    Report(id, if cfg.jobs[id].isSkip then Skipped else Ran(cfg.jobs[id].returnCode))
  }

  predicate Honest(cfg: Config, threadExit: bool, r: Report) {
    r.id < |cfg.jobs| && (r == Expected(cfg, r.id) || (threadExit && r.outcome == Interrupted))
  }

  predicate HonestWorker(cfg: Config, threadExit: bool, w: Worker) {
    match w
    case Took(Work(id)) => id < |cfg.jobs|
    case Running(id) => id < |cfg.jobs| && !cfg.jobs[id].isSkip
    case Ready(report) => Honest(cfg, threadExit, report)
    case _ => true
  }

  ghost predicate HonestState(cfg: Config, s: State) {
    && (forall i :: 0 <= i < |s.workers| ==> HonestWorker(cfg, s.threadExit, s.workers[i]))
    && (forall i :: 0 <= i < |s.output| ==> Honest(cfg, s.threadExit, s.output[i]))
    && (forall i :: 0 <= i < |s.collected| ==> Honest(cfg, s.threadExit, s.collected[i]))
  }

  /** How far the main thread is. */
  predicate MainThread(cfg: Config, s: State) {
    && s.dispatched <= |cfg.jobs| && s.stops <= cfg.Threads() == |s.workers|
    && (s.stops > 0 ==> s.dispatched == |cfg.jobs|)
    && |s.collected| <= |cfg.jobs|
    && (s.collected != [] ==> s.dispatched == |cfg.jobs| && s.stops == cfg.Threads())
    && (s.joined > 0 ==> |s.collected| == |cfg.jobs| && s.dispatched == |cfg.jobs| && s.stops == cfg.Threads())
    && s.joined <= |s.workers| && (forall i :: 0 <= i < s.joined ==> s.workers[i] == Returned)
  }

  /** The input queue holds exactly what has not been taken, in order, and stop markers are only
      taken after every job has been. */
  predicate Queue(cfg: Config, s: State) {
    && Taken(s) <= s.dispatched && Left(s.workers) <= s.stops
    && s.input == Backlog(Taken(s), s.dispatched, s.stops - Left(s.workers))
    && (Left(s.workers) > 0 ==> Taken(s) == |cfg.jobs|)
  }

  /** A job that has been taken is in exactly one place. */
  ghost predicate OnePlace(s: State) {
    forall id: nat :: InFlight(s, id) == if id < Taken(s) then 1 else 0
  }

  ghost predicate Inv(cfg: Config, s: State) {
    MainThread(cfg, s) && Queue(cfg, s) && OnePlace(s) && HonestState(cfg, s)
  }

  // ----- one worker changes

  lemma {:induction false} HeldUpdate(workers: seq<Worker>, i: nat, w: Worker, id: nat)
    requires i < |workers|
    ensures Held(workers[i := w], id) + Holds(workers[i], id) == Held(workers, id) + Holds(w, id)
    decreases |workers|
  {
    var n := |workers| - 1;
    if i < n {
      HeldUpdate(workers[..n], i, w, id);
      assert workers[i := w][..n] == workers[..n][i := w];
    } else {
      assert workers[i := w][..n] == workers[..n];
    }
  }

  lemma {:induction false} CountsUpdate(workers: seq<Worker>, i: nat, w: Worker)
    requires i < |workers|
    ensures Busy(workers[i := w]) + Holding(workers[i]) == Busy(workers) + Holding(w)
    ensures Left(workers[i := w]) + Leaving(workers[i]) == Left(workers) + Leaving(w)
    decreases |workers|
  {
    var n := |workers| - 1;
    if i < n {
      CountsUpdate(workers[..n], i, w);
      assert workers[i := w][..n] == workers[..n][i := w];
    } else {
      assert workers[i := w][..n] == workers[..n];
    }
  }

  lemma {:induction false} IdleCounts(workers: seq<Worker>, id: nat)
    requires forall i :: 0 <= i < |workers| ==> workers[i] == Idle
    ensures Held(workers, id) == 0 && Busy(workers) == 0 && Left(workers) == 0
    decreases |workers|
  {
    if workers != [] {
      IdleCounts(workers[..|workers| - 1], id);
    }
  }

  lemma ReportedAppend(reports: seq<Report>, r: Report, id: nat)
    ensures Reported(reports + [r], id) == Reported(reports, id) + if r.id == id then 1 else 0
  {
    assert (reports + [r])[..|reports|] == reports;
  }

  lemma {:induction false} ReportedTail(reports: seq<Report>, id: nat)
    requires reports != []
    ensures Reported(reports, id) == Reported(reports[1..], id) + if reports[0].id == id then 1 else 0
    decreases |reports|
  {
    var n := |reports| - 1;
    if n > 0 {
      ReportedTail(reports[..n], id);
      assert reports[..n][1..] == reports[1..][..n - 1];
    }
  }

  // ----- preservation

  lemma InitInv(cfg: Config, threadExit: bool)
    ensures Inv(cfg, Init(cfg, threadExit))
  {
    var s := Init(cfg, threadExit);
    forall id: nat ensures InFlight(s, id) == 0 {
      IdleCounts(s.workers, id);
    }
    IdleCounts(s.workers, 0);
  }

  lemma MainThreadStep(cfg: Config, s: State, a: Action)
    requires MainThread(cfg, s) && Enabled(cfg, s, a)
    ensures MainThread(cfg, Apply(cfg, s, a))
  {
  }

  lemma HonestStep(cfg: Config, s: State, a: Action)
    requires MainThread(cfg, s) && Queue(cfg, s) && HonestState(cfg, s) && Enabled(cfg, s, a)
    ensures HonestState(cfg, Apply(cfg, s, a))
  {
    hide Taken, Left;
    if a.Take? {
      assert s.input[0] == Stop || s.input[0].id < |cfg.jobs|;
    }
  }

  /** Checking, running and putting back keep the job in the same hands or hand it to the output;
      collecting moves it on. */
  lemma MoveKeepsPlace(cfg: Config, s: State, a: Action, id: nat)
    requires Enabled(cfg, s, a) && (a.Check? || a.Finish? || a.Put? || a.Collect?)
    ensures InFlight(Apply(cfg, s, a), id) == InFlight(s, id)
  {
    var t := Apply(cfg, s, a);
    if a.Collect? {
      ReportedAppend(s.collected, s.output[0], id);
      ReportedTail(s.output, id);
    } else {
      HeldUpdate(s.workers, a.w, t.workers[a.w], id);
      if a.Put? {
        ReportedAppend(s.output, s.workers[a.w].report, id);
      }
    }
  }

  lemma MoveKeepsCounts(cfg: Config, s: State, a: Action)
    requires Enabled(cfg, s, a) && (a.Check? || a.Finish? || a.Put? || a.Collect?)
    ensures Taken(Apply(cfg, s, a)) == Taken(s)
    ensures Left(Apply(cfg, s, a).workers) == Left(s.workers)
  {
    hide Busy, Left;
    var t := Apply(cfg, s, a);
    if !a.Collect? {
      CountsUpdate(s.workers, a.w, t.workers[a.w]);
    }
  }

  lemma MoveStep(cfg: Config, s: State, a: Action)
    requires Queue(cfg, s) && OnePlace(s) && Enabled(cfg, s, a)
    requires a.Check? || a.Finish? || a.Put? || a.Collect?
    ensures Queue(cfg, Apply(cfg, s, a)) && OnePlace(Apply(cfg, s, a))
  {
    hide Backlog, Held, Reported, Busy, Left;
    MoveKeepsCounts(cfg, s, a);
    forall id: nat ensures InFlight(Apply(cfg, s, a), id) == if id < Taken(s) then 1 else 0 {
      MoveKeepsPlace(cfg, s, a, id);
      assert InFlight(s, id) == if id < Taken(s) then 1 else 0;
    }
  }

  /** `get` hands out the front of the queue: the next job in dispatch order, or, once every job
      has been taken, a stop marker. */
  lemma TakeFront(cfg: Config, s: State)
    requires Queue(cfg, s) && s.dispatched <= |cfg.jobs| && s.input != []
    requires s.stops > 0 ==> s.dispatched == |cfg.jobs|
    ensures s.input[0] == (if Taken(s) < s.dispatched then Work(Taken(s)) else Stop)
    ensures s.input[0] == Stop ==> Taken(s) == |cfg.jobs| && Left(s.workers) < s.stops
    ensures Taken(s) < s.dispatched ==>
              s.input[1..] == Backlog(Taken(s) + 1, s.dispatched, s.stops - Left(s.workers))
    ensures Taken(s) == s.dispatched && Left(s.workers) < s.stops ==>
              s.input[1..] == Backlog(Taken(s), s.dispatched, s.stops - Left(s.workers) - 1)
  {
  }

  lemma TakeStep(cfg: Config, s: State, w: nat)
    requires MainThread(cfg, s) && Queue(cfg, s) && OnePlace(s) && Enabled(cfg, s, Take(w))
    ensures Queue(cfg, Apply(cfg, s, Take(w))) && OnePlace(Apply(cfg, s, Take(w)))
  {
    hide Backlog, Held, Reported, Busy, Left;
    var t := Apply(cfg, s, Take(w));
    TakeFront(cfg, s);
    CountsUpdate(s.workers, w, Took(s.input[0]));
    forall id: nat ensures InFlight(t, id) == if id < Taken(t) then 1 else 0 {
      HeldUpdate(s.workers, w, Took(s.input[0]), id);
      assert InFlight(s, id) == if id < Taken(s) then 1 else 0;
    }
  }

  lemma BacklogAppend(taken: nat, dispatched: nat, marks: nat)
    requires taken <= dispatched
    ensures Backlog(taken, dispatched, marks) + [Stop] == Backlog(taken, dispatched, marks + 1)
    ensures Backlog(taken, dispatched, 0) + [Work(dispatched)] == Backlog(taken, dispatched + 1, 0)
  {
  }

  lemma QuietStep(cfg: Config, s: State, a: Action)
    requires MainThread(cfg, s) && Queue(cfg, s) && OnePlace(s) && Enabled(cfg, s, a)
    requires a.Dispatch? || a.PutStop? || a.Interrupt? || a.Join?
    ensures Queue(cfg, Apply(cfg, s, a)) && OnePlace(Apply(cfg, s, a))
  {
    var t := Apply(cfg, s, a);
    BacklogAppend(Taken(s), s.dispatched, s.stops - Left(s.workers));
    hide Backlog, Held, Reported, Busy, Left;
    forall id: nat ensures InFlight(t, id) == if id < Taken(s) then 1 else 0 {
      assert InFlight(s, id) == if id < Taken(s) then 1 else 0;
    }
  }

  lemma StepInv(cfg: Config, s: State, a: Action)
    requires Inv(cfg, s) && Enabled(cfg, s, a)
    ensures Inv(cfg, Apply(cfg, s, a))
  {
    MainThreadStep(cfg, s, a);
    HonestStep(cfg, s, a);
    match a
    case Take(w) => TakeStep(cfg, s, w);
    case Collect => MoveStep(cfg, s, a);
    case Check(_) => MoveStep(cfg, s, a);
    case Finish(_) => MoveStep(cfg, s, a);
    case Put(_) => MoveStep(cfg, s, a);
    case _ => QuietStep(cfg, s, a);
  }

  lemma {:induction false} RunInv(cfg: Config, s: State, schedule: seq<Action>)
    requires Inv(cfg, s) && Valid(cfg, s, schedule)
    ensures Inv(cfg, After(cfg, s, schedule))
    decreases |schedule|
  {
    if schedule != [] {
      StepInv(cfg, s, schedule[0]);
      RunInv(cfg, Apply(cfg, s, schedule[0]), schedule[1..]);
    }
  }
}
