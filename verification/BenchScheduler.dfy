/** `Bench::Run` and its event function `Bench::Cb`: a population of events kept constant by an event
    that schedules its successor. */
module BenchScheduler {

  /** The key of a scheduled event. */
  datatype Event = Event(ts: nat, uid: nat)

  predicate Before(a: Event, b: Event) {
    a.ts < b.ts || (a.ts == b.ts && a.uid < b.uid)
  }

  predicate First(e: Event, events: set<Event>) {
    e in events && forall f :: f in events ==> f == e || Before(e, f)
  }

  predicate UniqueUids(events: set<Event>) {
    forall a, b :: a in events && b in events && a.uid == b.uid ==> a == b
  }

  lemma {:induction false} FirstExists(events: set<Event>) returns (e: Event)
    requires events != {} && UniqueUids(events)
    ensures First(e, events)
    decreases |events|
  {
    var some :| some in events;
    var rest := events - {some};
    if rest == {} {
      assert events == {some};
      e := some;
    } else {
      assert |rest| < |events|;
      var first := FirstExists(rest);
      e := if Before(some, first) then some else first;
      forall f | f in events ensures f == e || Before(e, f) {
        assert f == some || f in rest;
      }
    }
  }

  /** The events fired, in the order of their keys: the clock never goes back, and events of the same
      time fire in the order in which they were scheduled. */
  predicate InOrder(fired: seq<Event>) {
    forall i, j :: 0 <= i < j < |fired| ==> Before(fired[i], fired[j])
  }

  /** Keys are unique, none is in the past, and none fires before one that has fired. */
  ghost predicate Queue(events: set<Event>, now: nat, nextUid: nat, fired: seq<Event>) {
    && UniqueUids(events) && InOrder(fired)
    && (forall e :: e in events ==> e.uid < nextUid && now <= e.ts)
    && (forall i, e :: 0 <= i < |fired| && e in events ==> Before(fired[i], e))
    && (forall i :: 0 <= i < |fired| ==> fired[i].ts <= now && fired[i].uid < nextUid)
  }

  lemma EmptyQueue(nextUid: nat)
    ensures Queue({}, 0, nextUid, [])
  {
  }

  lemma QueueInOrder(events: set<Event>, now: nat, nextUid: nat, fired: seq<Event>)
    requires Queue(events, now, nextUid, fired)
    ensures InOrder(fired)
  {
  }

  /** A new event is not in the past and has a new key. */
  lemma Scheduled(events: set<Event>, now: nat, nextUid: nat, fired: seq<Event>, delay: nat)
    requires Queue(events, now, nextUid, fired)
    ensures Event(now + delay, nextUid) !in events
    ensures |events + {Event(now + delay, nextUid)}| == |events| + 1
    ensures Queue(events + {Event(now + delay, nextUid)}, now, nextUid + 1, fired)
  {
    var e := Event(now + delay, nextUid);
    assert e !in events;
    forall a, b | a in events + {e} && b in events + {e} && a.uid == b.uid ensures a == b {
      assert a in events && b in events ==> a == b;
    }
  }

  /** Firing the first event keeps the order. */
  lemma Fired(events: set<Event>, now: nat, nextUid: nat, fired: seq<Event>, e: Event)
    requires Queue(events, now, nextUid, fired) && First(e, events)
    ensures now <= e.ts && |events - {e}| == |events| - 1
    ensures Queue(events - {e}, e.ts, nextUid, fired + [e])
  {
    var more := fired + [e];
    forall i, j | 0 <= i < j < |more| ensures Before(more[i], more[j]) {
      assert j < |fired| ==> Before(fired[i], fired[j]);
    }
    forall i, f | 0 <= i < |more| && f in events - {e} ensures Before(more[i], f) {
      assert i < |fired| ==> Before(fired[i], f);
    }
  }

  /** `EventId::UID::VALID`. */
  const FIRST_UID := 4

  class Bench {
    const delays: nat -> nat
    const m_population: nat
    const m_total: nat
    const defaultScheduler: string  // the global value `SchedulerType`
    var m_count: nat
    var drawn: nat
    var scheduler: string
    var events: set<Event>
    var now: nat
    var nextUid: nat
    var stop: bool
    ghost var fired: seq<Event>
    ghost var pending: seq<nat>  // how many events were scheduled after each callback

    constructor (population: nat, total: nat, delays: nat -> nat, defaultScheduler: string)
      ensures m_population == population && m_total == total && this.delays == delays
      ensures this.defaultScheduler == defaultScheduler && drawn == 0 && NewSimulator()
    {
      m_population, m_total, this.delays, this.defaultScheduler := population, total, delays, defaultScheduler;
      m_count, drawn, stop := 0, 0, false;
      events, now, nextUid, scheduler := {}, 0, FIRST_UID, defaultScheduler;
      fired, pending := [], [];
    }

    ghost predicate Valid()
      reads this
    {
      Queue(events, now, nextUid, fired)
    }

    /** Nothing is scheduled and the clock is at 0. */
    predicate Empty()
      reads this`events, this`now, this`nextUid
    {
      events == {} && now == 0 && nextUid == FIRST_UID
    }

    /** A simulator as `Simulator::GetImpl` makes it when there is none. */
    predicate NewSimulator()
      reads this`events, this`now, this`nextUid, this`scheduler
    {
      Empty() && scheduler == defaultScheduler
    }

    /** `Simulator::SetScheduler`: the scheduler of the simulator there is now. */
    method SetScheduler(factory: string)
      modifies this`scheduler
      ensures scheduler == factory
    {
      scheduler := factory;
    }

    /** `Simulator::Destroy`: the next call makes a new simulator. */
    method Destroy()
      modifies this`events, this`now, this`nextUid, this`scheduler
      ensures NewSimulator()
    {
      events, now, nextUid, scheduler := {}, 0, FIRST_UID, defaultScheduler;
    }

    /** `Simulator::Schedule` with the next delay of the stream. */
    method ScheduleNext()
      requires Valid()
      modifies this`events, this`drawn, this`nextUid
      ensures Valid() && |events| == |old(events)| + 1 && drawn == old(drawn) + 1 && nextUid == old(nextUid) + 1
      ensures events == old(events) + {Event(now + delays(old(drawn)), old(nextUid))}
    {
      hide Queue;
      var e := Event(now + delays(drawn), nextUid);
      Scheduled(events, now, nextUid, fired, delays(drawn));
      events := events + {e};
      drawn := drawn + 1;
      nextUid := nextUid + 1;
    }

    /** The event function: it schedules its successor at the next delay of the stream from now, or stops
        the run once `m_total` were counted. */
    method Cb()
      requires Valid()
      modifies this`events, this`drawn, this`nextUid, this`m_count, this`stop
      ensures Valid()
      ensures old(m_count) < m_total ==>
                m_count == old(m_count) + 1 && drawn == old(drawn) + 1 && stop == old(stop) &&
                events == old(events) + {Event(now + delays(old(drawn)), old(nextUid))} &&
                |events| == |old(events)| + 1
      ensures old(m_count) >= m_total ==>
                m_count == old(m_count) && drawn == old(drawn) && events == old(events) && stop
    {
      hide Queue;
      if m_count >= m_total {
        stop := true;
        return;
      }
      ScheduleNext();
      m_count := m_count + 1;
    }

    /** Takes the first event off the queue and advances the clock to it. */
    method RemoveNext()
      requires Valid() && events != {}
      modifies this`events, this`now, this`fired
      ensures Valid() && |events| == |old(events)| - 1 && now >= old(now)
      ensures exists e :: First(e, old(events)) && events == old(events) - {e} && fired == old(fired) + [e]
    {
      ghost var first := FirstExists(events);
      var next: Event :| First(next, events);
      Fired(events, now, nextUid, fired, next);
      hide Queue;
      events := events - {next};
      now := next.ts;
      fired := fired + [next];
    }

    /** Callbacks that found `m_count < m_total` left a whole population behind. */
    ghost predicate Steady()
      reads this`pending, this`fired
    {
      |pending| == |fired| && forall k :: 0 <= k < |pending| && k < m_total ==> pending[k] == m_population
    }

    /** `DefaultSimulatorImpl::ProcessOneEvent`. */
    method ProcessOneEvent()
      requires Valid() && Steady() && events != {} && |events| == m_population && |fired| == m_count <= m_total
      modifies this`events, this`drawn, this`nextUid, this`m_count, this`stop, this`now, this`fired, this`pending
      ensures Valid() && Steady() && |fired| == old(|fired|) + 1 && now >= old(now)
      ensures |pending| > 0 && pending[|pending| - 1] == |events|
      ensures drawn - old(drawn) == m_count - old(m_count)
      ensures old(m_count) < m_total ==>
                m_count == old(m_count) + 1 && |events| == m_population && stop == old(stop)
      ensures old(m_count) == m_total ==> m_count == m_total && |events| == m_population - 1 && stop
    {
      hide Queue, First;
      RemoveNext();
      Cb();
      pending := pending + [|events|];
    }

    /** `Simulator::Run`. */
    method Simulate()
      requires Valid() && Steady() && |events| == m_population && fired == [] && m_count == 0
      modifies this`events, this`drawn, this`nextUid, this`m_count, this`stop, this`now, this`fired, this`pending
      ensures Valid() && Steady() && drawn == old(drawn) + m_count
      ensures m_population > 0 ==> m_count == m_total && |fired| == |pending| == m_total + 1 && stop
      ensures m_population > 0 ==> pending[m_total] == |events| == m_population - 1
      ensures m_population == 0 ==> m_count == 0 && fired == []
    {
      assert |pending| == |fired|;
      hide Queue, First;
      stop := false;
      while events != {} && !stop
        invariant Valid() && Steady() && m_count <= m_total && (m_population == 0 ==> fired == [] && m_count == 0)
        invariant drawn == old(drawn) + m_count && |pending| == |fired|
        invariant pending != [] ==> pending[|pending| - 1] == |events|
        invariant !stop ==> |events| == m_population && |fired| == m_count
        invariant stop ==> m_population > 0 && |events| == m_population - 1 && m_count == m_total && |fired| == m_total + 1
        decreases m_total - m_count, if stop then 0 else 1
      {
        ProcessOneEvent();
      }
    }

    /** The first `n` events, scheduled at time 0 with the delays of the stream from `start` on. */
    ghost predicate InitialEvents(initial: set<Event>, start: nat, n: nat) {
      forall e :: e in initial <==> FIRST_UID <= e.uid < FIRST_UID + n && e.ts == delays(start + (e.uid - FIRST_UID))
    }

    lemma NoInitial(start: nat)
      ensures InitialEvents({}, start, 0)
    {
    }

    lemma OneMoreInitial(initial: set<Event>, start: nat, n: nat)
      requires InitialEvents(initial, start, n)
      ensures InitialEvents(initial + {Event(delays(start + n), FIRST_UID + n)}, start, n + 1)
    {
    }

    /** The initial events, each at the next delay of the stream from time 0. */
    method Populate()
      requires Empty()
      modifies this`events, this`drawn, this`nextUid, this`fired, this`pending
      ensures Valid() && Steady() && |events| == m_population && fired == [] && drawn == old(drawn) + m_population
      ensures InitialEvents(events, old(drawn), m_population)
    {
      hide Queue, InitialEvents;
      fired, pending := [], [];
      EmptyQueue(nextUid);
      NoInitial(drawn);
      for i := 0 to m_population
        invariant Valid() && |events| == i && drawn == old(drawn) + i && fired == [] && pending == []
        invariant nextUid == FIRST_UID + i && InitialEvents(events, old(drawn), i)
      {
        OneMoreInitial(events, old(drawn), i);
        ScheduleNext();
      }
    }

    /** The population is whole again after every callback but the last, events fire in the order of
        their keys, and the run counts `m_total` events if there is a population at all. It leaves no
        event behind, so that it can be repeated, but no scheduler either. */
    method Run() returns (executed: nat)
      requires Empty()
      modifies this
      ensures NewSimulator()
      ensures executed == if m_population > 0 then m_total else 0
      ensures drawn == old(drawn) + m_population + executed
      ensures |fired| == |pending| == if m_population > 0 then m_total + 1 else 0
      ensures forall k :: 0 <= k < |pending| && k < m_total ==> pending[k] == m_population
      ensures m_population > 0 ==> pending[m_total] == m_population - 1
      ensures InOrder(fired)
    {
      hide Queue, First;
      m_count := 0;
      Populate();
      Simulate();
      QueueInOrder(events, now, nextUid, fired);
      executed := m_count;
      Destroy();
    }

    /** The runs of one suite: `SetScheduler` is called once, before the priming run, and the `Destroy` at
        the end of each run forgets it. All data runs count the same number of events, and all of them
        use the default scheduler, whichever was asked for. */
    method Suite(factory: string, runs: nat) returns (prime: nat, results: seq<nat>, ghost primed: string,
                                                      ghost used: seq<string>)
      requires Empty()
      modifies this
      ensures NewSimulator() && primed == factory && |results| == |used| == runs
      ensures prime == if m_population > 0 then m_total else 0
      ensures forall i :: 0 <= i < runs ==> results[i] == prime && used[i] == defaultScheduler
      ensures drawn == old(drawn) + (runs + 1) * (m_population + prime)
    {
      SetScheduler(factory);
      primed := scheduler;
      prime := Run();
      results, used := [], [];
      for i := 0 to runs
        invariant NewSimulator() && |results| == |used| == i
        invariant forall k :: 0 <= k < i ==> results[k] == prime && used[k] == defaultScheduler
        invariant drawn == old(drawn) + (i + 1) * (m_population + prime)
      {
        used := used + [scheduler];
        var executed := Run();
        results := results + [executed];
        OneMoreTime(i, m_population + prime);
      }
      Destroy();
    }
  }

  lemma OneMoreTime(i: nat, n: nat)
    ensures (i + 2) * n == (i + 1) * n + n
  {
  }
}
