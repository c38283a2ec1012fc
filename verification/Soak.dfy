/** The soak run: a registry of 24 cases sent one after another at a fixed pace, which any number of
    processes may carry on after a crash. */
module Soak {
  import opened Basics
  import opened RunTrace

  const CASES: nat := 24

  /** The one case that sends a second request while its first is being served. */
  const BUSY: nat := 15

  datatype State = Running | BlockedReconciliation | Blocked | FailedService | Pass | Fail

  /** How one attempt at a case ends: the process died, left with an exit code, or goes on. */
  datatype Step = Died | Leave(code: nat) | GoOn

  /** What the service answers during one process: whether it is ready or busy when a case is due, whether
      the case passes, whether the health probes between the two requests of the busy case are answered, so
      that the second one is reached, and whether all is well at the end. */
  datatype World = World(ready: nat -> bool, busy: nat -> bool, passed: nat -> bool, second: bool, healthy: bool)

  /** A probe that is not answered ends the busy case as failed, after its first request alone. */
  function Verdict(w: World, i: nat): Status {
    if w.passed(i) && (i == BUSY ==> w.second) then Complete else Failed
  }

  /** Nothing is begun or sent against the answers of the service, and outcomes are as observed. */
  predicate Obeys(e: Event, w: World) {
    match e
    case Began(i) => w.ready(i) && !w.busy(i)
    case Sent(i, _) => w.ready(i) && !w.busy(i)
    case SentAgain(i) => i == BUSY && w.second && w.ready(i) && !w.busy(i)
    case TaskSaved(_) => false
    case Ended(i, s) => s == Verdict(w, i)
  }

  ghost function Obeyed(w: World): Event -> bool {
    e => Obeys(e, w)
  }

  /** What every event from position n on is like. */
  lemma ObeyedMeans(trace: seq<Event>, n: nat, w: World)
    ensures AllFrom(trace, n, Obeyed(w)) <==>
            forall k :: n <= k < |trace| ==>
              match trace[k]
              case Began(i) => w.ready(i) && !w.busy(i)
              case Sent(i, _) => w.ready(i) && !w.busy(i)
              case SentAgain(i) => i == 15 && w.second && w.ready(i) && !w.busy(i)
              case TaskSaved(_) => false
              case Ended(i, s) => s == if w.passed(i) && (i == 15 ==> w.second) then Complete else Failed
  {
  }

  predicate Bounded(trace: seq<Event>) {
    forall k :: 0 <= k < |trace| ==> trace[k].id < CASES
  }

  /** No case is sent before its place in the schedule. */
  predicate Paced(trace: seq<Event>, start: real, interval: real) {
    forall k :: 0 <= k < |trace| && trace[k].Sent? ==> trace[k].at >= start + trace[k].id as real * interval
  }

  ghost predicate AllComplete(trace: seq<Event>) {
    forall i: nat :: i < CASES ==> EndedAs(PhaseOf(trace, i), Complete)
  }

  /** Only the busy case sends a second request, and it does so before it completes. */
  predicate DoubledAt(trace: seq<Event>, k: nat)
    requires k < |trace|
  {
    (trace[k].SentAgain? ==> trace[k].id == BUSY) &&
    (trace[k] == Ended(BUSY, Complete) ==> PhaseOf(trace[..k], BUSY) == AskedAgain)
  }

  predicate Doubled(trace: seq<Event>) {
    forall k :: 0 <= k < |trace| ==> DoubledAt(trace, k)
  }

  lemma DoubledStep(trace: seq<Event>, e: Event)
    requires Doubled(trace) && (e.SentAgain? ==> e.id == BUSY)
    requires e == Ended(BUSY, Complete) ==> PhaseOf(trace, BUSY) == AskedAgain
    ensures Doubled(trace + [e])
  {
    hide PhaseOf;
    var t := trace + [e];
    assert t[..|trace|] == trace;
    forall k | 0 <= k < |t| ensures DoubledAt(t, k) {
      if k < |trace| {
        assert t[..k] == trace[..k] && t[k] == trace[k] && DoubledAt(trace, k);
      }
    }
  }

  predicate Scheduled(trace: seq<Event>, start: real, interval: real) {
    Bounded(trace) && Paced(trace, start, interval) && Doubled(trace)
  }

  lemma ScheduledStep(trace: seq<Event>, e: Event, start: real, interval: real)
    requires Scheduled(trace, start, interval) && e.id < CASES
    requires e.Sent? ==> e.at >= start + e.id as real * interval
    requires e.SentAgain? ==> e.id == BUSY
    requires e == Ended(BUSY, Complete) ==> PhaseOf(trace, BUSY) == AskedAgain
    ensures Scheduled(trace + [e], start, interval)
  {
    hide Doubled;
    DoubledStep(trace, e);
  }

  // -------------------------------------------------------- counting the completed cases

  function Completed(records: map<nat, Record>): set<nat> {
    set id | id in records && records[id].status == Complete
  }

  lemma {:induction false} AllOfRange(s: set<nat>, n: nat)
    requires forall x :: x in s ==> x < n
    ensures |s| <= n
    ensures |s| == n ==> forall x: nat :: x < n ==> x in s
  {
    if n == 0 {
      assert s == {};
    } else {
      AllOfRange(s - {n - 1}, n - 1);
      assert n - 1 !in s ==> s - {n - 1} == s;
    }
  }

  /** Counting 24 completed records is the same as finding every case complete. */
  lemma CountMeansAll(records: map<nat, Record>, trace: seq<Event>)
    requires InOrder(trace, false) && Bounded(trace)
    requires forall id: nat :: Lookup(records, id) == RecordOf(PhaseOf(trace, id))
    ensures |Completed(records)| >= CASES <==> AllComplete(trace)
    ensures |set id | id in records && records[id].status == Complete| >= 24 <==> AllComplete(trace)
  {
    hide PhaseOf, InOrder;
    assert Completed(records) == set id | id in records && records[id].status == Complete;
    var f := LastFrontier(trace, false);
    forall id | id in Completed(records) ensures id < CASES && EndedAs(PhaseOf(trace, id), Complete) {
      assert Lookup(records, id) == RecordOf(PhaseOf(trace, id));
    }
    forall id: nat | EndedAs(PhaseOf(trace, id), Complete) ensures id in Completed(records) {
      assert Lookup(records, id) == RecordOf(PhaseOf(trace, id));
    }
    AllOfRange(Completed(records), CASES);
    if AllComplete(trace) {
      RangeFits(Completed(records), CASES);
    }
  }

  lemma {:induction false} RangeFits(s: set<nat>, n: nat)
    requires forall x: nat :: x < n ==> x in s
    ensures |s| >= n
  {
    if n > 0 {
      RangeFits(s - {n - 1}, n - 1);
    }
  }

  // -------------------------------------------------------- the registry and its runs

  /** Case i is next: all earlier ones have ended. */
  ghost predicate Reached(trace: seq<Event>, i: nat) {
    i < 24 && SettledBelow(trace, i, false)
  }

  /** e is the last event, and one of those from position n on. */
  predicate EndsWith(trace: seq<Event>, n: nat, e: Event) {
    n < |trace| && trace[|trace| - 1] == e
  }

  /** Some case is in flight. */
  ghost predicate Stuck(trace: seq<Event>) {
    exists j: nat :: Pending(PhaseOf(trace, j))
  }

  class Registry {
    const disk: Disk
    const start: real
    const minimum: real
    var state: State

    constructor (minimum: real, now: real)
      ensures Valid() && fresh(disk) && disk.trace == [] && this.minimum == minimum && start == now
    {
      this.minimum, start, state := minimum, now, Running;
      disk := new Disk(false, now);
    }

    function Interval(): real {
      minimum / (CASES - 1) as real
    }

    ghost predicate Valid()
      reads this, disk
    {
      disk.Valid() && !disk.retry && InOrder(disk.trace, false) && Scheduled(disk.trace, start, Interval())
      && (state == Pass ==> AllComplete(disk.trace) && disk.clock >= start + minimum)
    }

    method Save(next: State) returns (alive: bool)
      requires Valid()
      requires next == Pass ==> AllComplete(disk.trace) && disk.clock >= start + minimum
      modifies `state, disk`lives
      ensures Valid() && state == if alive then next else old(state)
      ensures (alive <==> old(disk.lives) > 0) && disk.lives == if alive then old(disk.lives) - 1 else 0
    {
      hide disk.Valid, InOrder, Scheduled, AllComplete;
      alive := disk.Tick();
      if alive {
        state := next;
      }
    }

    /** One event of the case at the frontier. */
    method Log(e: Event) returns (alive: bool)
      requires Valid() && e.id < CASES && Frontier(disk.trace, e.id, false)
      requires Allowed(PhaseOf(disk.trace, e.id), e, false)
      requires e.Sent? ==> e.at == disk.clock && e.at >= start + e.id as real * Interval()
      requires e.SentAgain? ==> e.id == BUSY
      requires e == Ended(BUSY, Complete) ==> PhaseOf(disk.trace, BUSY) == AskedAgain
      modifies disk
      ensures Valid() && disk.clock >= old(disk.clock) && Frontier(disk.trace, e.id, false)
      ensures disk.trace == if alive then old(disk.trace) + [e] else old(disk.trace)
      ensures alive ==> PhaseOf(disk.trace, e.id) == Advance(old(PhaseOf(disk.trace, e.id)), e)
      ensures (alive <==> old(disk.lives) > 0) && disk.lives == if alive then old(disk.lives) - 1 else 0
    {
      hide disk.Valid, InOrder, Scheduled, Frontier, Allowed, PhaseOf, AllComplete;
      ghost var before := disk.trace;
      alive := disk.LogNext(e, false);
      ScheduledStep(before, e, start, Interval());
      NotAllComplete(before, e.id, e);
    }

    /** Records the case as in flight, sends it, the busy case a second time when the probes after its first
        request are answered, and records how it ended. */
    method Execute(i: nat, w: World) returns (alive: bool)
      requires Valid() && i < CASES && Frontier(disk.trace, i, false) && PhaseOf(disk.trace, i) == Fresh
      requires disk.clock >= start + i as real * Interval() && w.ready(i) && !w.busy(i)
      modifies disk
      ensures Valid() && old(disk.trace) <= disk.trace && Frontier(disk.trace, i, false)
      ensures AllFrom(disk.trace, |old(disk.trace)|, Obeyed(w)) && (!alive ==> disk.lives == 0)
      ensures old(disk.lives) >= 4 ==> alive && disk.lives >= old(disk.lives) - 4
      ensures alive ==> EndedAs(PhaseOf(disk.trace, i), Verdict(w, i))
      ensures alive ==>
                var status := if w.passed(i) && (i == 15 ==> w.second) then Complete else Failed;
                exists at: real ::
                  at >= old(disk.clock) && disk.trace == old(disk.trace) + [Began(i), Sent(i, at)]
                                                          + (if i == 15 && w.second then [SentAgain(i)] else [])
                                                          + [Ended(i, status)]
                  && EndsWith(disk.trace, |old(disk.trace)|, Ended(i, status))
    {
      hide disk.Valid, InOrder, Scheduled, Frontier, PhaseOf, AllComplete;
      ghost var before := disk.trace;
      alive := Log(Began(i));
      if !alive {
        return;
      }
      ghost var at := disk.clock;
      alive := Log(Sent(i, disk.clock));
      if alive && i == BUSY && w.second {
        alive := Log(SentAgain(i));
      }
      if alive {
        alive := Log(Ended(i, Verdict(w, i)));
      }
      ghost var again := if i == BUSY && w.second then [SentAgain(i)] else [];
      assert alive ==> disk.trace == before + [Began(i), Sent(i, at)] + again + [Ended(i, Verdict(w, i))];
    }

    /** Waits for the case's turn, checks the service, and executes the case. */
    method RunCase(i: nat, w: World) returns (step: Step)
      requires Valid() && i < CASES && Frontier(disk.trace, i, false) && PhaseOf(disk.trace, i) == Fresh
      modifies this, disk
      ensures Valid() && old(disk.trace) <= disk.trace && Frontier(disk.trace, i, false)
      ensures AllFrom(disk.trace, |old(disk.trace)|, Obeyed(w)) && (step == Died ==> disk.lives == 0)
      ensures old(disk.lives) >= 5 ==> step != Died && disk.lives >= old(disk.lives) - 5
      ensures !w.ready(i) || w.busy(i) ==> disk.trace == old(disk.trace) && step != GoOn
      ensures step == GoOn ==> w.passed(i) && (i == 15 ==> w.second) && EndedAs(PhaseOf(disk.trace, i), Complete)
      ensures step.Leave? ==> step.code in {4, 5, 6} && (step.code == 4 <==> !w.ready(i))
                              && (step.code == 5 <==> w.ready(i) && w.busy(i))
                              && (step.code == 6 ==> !(w.passed(i) && (i == 15 ==> w.second)))
      ensures step.Leave? ==> if step.code == 6 then state == FailedService && EndedAs(PhaseOf(disk.trace, i), Failed)
                              else state == State.Blocked
      ensures step == Leave(6) ==> EndsWith(disk.trace, |old(disk.trace)|, Ended(i, Failed))
    {
      hide disk.Valid, InOrder, Scheduled, Frontier, PhaseOf, AllComplete;
      var turn := start + i as real * Interval();
      disk.Wait(turn);
      if !w.ready(i) {
        var saved := Save(State.Blocked);
        return if saved then Leave(4) else Died;
      }
      if w.busy(i) {
        var saved := Save(State.Blocked);
        return if saved then Leave(5) else Died;
      }
      var alive := Execute(i, w);
      if !alive {
        return Died;
      }
      if Verdict(w, i) == Complete {
        return GoOn;
      }
      var saved := Save(FailedService);
      return if saved then Leave(6) else Died;
    }

    /** One process: goes through the cases in order, skips the finished ones, stops at one in flight,
        and closes the registry. */
    method Run(w: World) returns (code: Option<nat>)
      requires Valid()
      modifies this, disk
      ensures Valid() && old(disk.trace) <= disk.trace
      ensures old(Stuck(disk.trace)) ==> disk.trace == old(disk.trace) && (code == None || code == Some(3))
      ensures code == Some(3) ==> state == BlockedReconciliation && exists j: nat :: Pending(PhaseOf(disk.trace, j))
      ensures code == Some(3) <==> old(exists j: nat :: Pending(PhaseOf(disk.trace, j))) && code != None
      ensures code == Some(0) ==> SettledBelow(disk.trace, CASES, false)
      ensures code == Some(0) ==>
                (state == Pass || state == Fail) && disk.clock >= start + minimum &&
                (state == Pass <==> w.healthy && forall j: nat :: j < 24 ==> EndedAs(PhaseOf(disk.trace, j), Complete))
      ensures AllFrom(disk.trace, |old(disk.trace)|, Obeyed(w)) && (code == None ==> disk.lives == 0)
      ensures old(disk.lives) >= 24 * 5 + 1 ==> code != None
      ensures code == Some(4) ==>
                exists i: nat :: i < 24 && SettledBelow(disk.trace, i, false) && PhaseOf(disk.trace, i) == Fresh
                                 && !w.ready(i)
      ensures code == Some(5) ==>
                exists i: nat :: i < 24 && SettledBelow(disk.trace, i, false) && PhaseOf(disk.trace, i) == Fresh
                                 && w.ready(i) && w.busy(i)
      ensures code == Some(6) ==>
                exists i: nat :: i < 24 && SettledBelow(disk.trace, i, false)
                                 && |old(disk.trace)| < |disk.trace|
                                 && disk.trace[|disk.trace| - 1] == Ended(i, Failed)
                                 && !(w.passed(i) && (i == 15 ==> w.second))
      ensures code == None || code.value in {0, 3, 4, 5, 6}
    {
      hide disk.Valid, InOrder, Scheduled, Frontier, PhaseOf, AllComplete;
      ghost var stuck := Stuck(disk.trace);
      var i := 0;
      while i < CASES
        invariant Valid() && old(disk.trace) <= disk.trace && i <= CASES
        invariant SettledBelow(disk.trace, i, false)
        invariant stuck ==> disk.trace == old(disk.trace)
        invariant AllFrom(disk.trace, |old(disk.trace)|, Obeyed(w))
        invariant disk.lives >= old(disk.lives) - 5 * i
        invariant disk.trace == old(disk.trace) || forall j: nat :: j >= i ==> PhaseOf(disk.trace, j) == Fresh
      {
        Standing(i);
        if i in disk.records && disk.records[i].status != InFlight {
          i := i + 1;
          continue;
        }
        if i in disk.records {
          var saved := Save(BlockedReconciliation);
          return if saved then Some(3) else None;
        }
        ghost var before := disk.trace;
        var step := RunCase(i, w);
        AllFromJoin(before, disk.trace, |old(disk.trace)|, Obeyed(w));
        FrontierBelow(disk.trace, i, false);
        assert Reached(disk.trace, i);
        match step {
          case Died => return None;
          case Leave(c) => return Some(c);
          case GoOn =>
            SettledThrough(disk.trace, i, false);
            i := i + 1;
        }
      }
      disk.Wait(start + minimum);
      Closing();
      var saved := Save(if w.healthy && |Completed(disk.records)| >= CASES then Pass else Fail);
      return if saved then Some(0) else None;
    }

    /** What the record of case i says once all earlier cases are settled. */
    lemma Standing(i: nat)
      requires Valid() && SettledBelow(disk.trace, i, false)
      ensures i in disk.records && disk.records[i].status != InFlight ==> Settled(PhaseOf(disk.trace, i), false)
      ensures i in disk.records && disk.records[i].status == InFlight ==> Pending(PhaseOf(disk.trace, i))
      ensures i !in disk.records ==> PhaseOf(disk.trace, i) == Fresh && Frontier(disk.trace, i, false)
                                     && forall j: nat :: !Pending(PhaseOf(disk.trace, j))
    {
      hide PhaseOf, InOrder, Legal;
      disk.RecordShows(i);
      if i !in disk.records {
        FrontierHere(disk.trace, i, false);
        NothingInFlight(disk.trace, i, false);
      }
    }

    /** When every case is settled nothing is in flight, and the count tells whether all completed. */
    lemma Closing()
      requires Valid() && SettledBelow(disk.trace, CASES, false)
      ensures |Completed(disk.records)| >= CASES <==> AllComplete(disk.trace)
      ensures AllComplete(disk.trace) <==> forall j: nat :: j < 24 ==> EndedAs(PhaseOf(disk.trace, j), Complete)
      ensures forall j: nat :: !Pending(PhaseOf(disk.trace, j))
    {
      hide PhaseOf, InOrder, Legal, Paced;
      CountMeansAll(disk.records, disk.trace);
      var f := LastFrontier(disk.trace, false);
      NothingInFlight(disk.trace, f, false);
    }

    /** Any number of processes, each dying at any point; a case left in flight ends all progress. */
    method Processes(runs: nat)
      requires Valid()
      modifies this, disk
      ensures Valid() && old(disk.trace) <= disk.trace
      ensures old(Stuck(disk.trace)) ==> disk.trace == old(disk.trace)
    {
      hide disk.Valid, InOrder, Scheduled, AllComplete, Stuck;
      ghost var stuck := Stuck(disk.trace);
      for n := 0 to runs
        invariant Valid() && old(disk.trace) <= disk.trace
        invariant stuck ==> disk.trace == old(disk.trace)
      {
        var w: World := *;
        disk.Start();
        var code := Run(w);
      }
    }

    /** Cases are sent in list order, each at most once and none early; whenever one is sent, all earlier
        ones have ended and no later one has begun. */
    lemma SentInTurn(a: nat, b: nat)
      requires Valid() && a <= b < |disk.trace| && disk.trace[a].Sent? && disk.trace[b].Sent?
      ensures a < b ==> disk.trace[a].id < disk.trace[b].id
      ensures (disk.trace[b].at - start) * 23.0 >= disk.trace[b].id as real * minimum
      ensures forall j: nat :: j < disk.trace[b].id ==> PhaseOf(disk.trace[..b], j).Done?
      ensures forall j: nat :: j > disk.trace[b].id ==> PhaseOf(disk.trace[..b], j) == Fresh
    {
      hide PhaseOf, Legal;
      if a < b {
        SendsAscend(disk.trace, false, false, a, b);
      }
      assert Frontier(disk.trace[..b], disk.trace[b].id, false);
      assert SettledBelow(disk.trace[..b], disk.trace[b].id, false);
      ShareOfTime(disk.trace[b].at - start, disk.trace[b].id, minimum);
    }

    /** A second request belongs to the busy case, once at most, after its send; a busy case that completed
        has made it. */
    lemma SecondRequest(k: nat) returns (a: nat, c: nat)
      requires Valid() && k < |disk.trace|
      requires disk.trace[k].SentAgain? || disk.trace[k] == Ended(15, Complete)
      ensures a < c <= k && disk.trace[a].Sent? && disk.trace[a].id == disk.trace[k].id == 15
      ensures disk.trace[c] == SentAgain(15)
      ensures forall j :: 0 <= j < |disk.trace| && disk.trace[j].SentAgain? ==> j == c
    {
      hide PhaseOf, InOrder, Legal, Paced, Bounded;
      var trace := disk.trace;
      assert DoubledAt(trace, k);
      if trace[k].SentAgain? {
        SecondBefore(trace, k);
        a := WasSent(trace, false, BUSY, k);
        c := k;
      } else {
        a, c := WasSentAgain(trace, BUSY, k);
      }
      forall j | 0 <= j < |trace| && trace[j].SentAgain? ensures j == c {
        assert DoubledAt(trace, j);
        if j < c { SentAgainAtMostOnce(trace, j, c); }
        if c < j { SentAgainAtMostOnce(trace, c, j); }
      }
    }

    /** A registry in state PASS has every one of the 24 cases sent exactly once, not early, and completed exactly
        once, and the whole run has taken its minimum time. */
    lemma PassMeansExactlyOnce(i: nat) returns (a: nat, b: nat)
      requires Valid() && state == Pass && i < 24
      ensures disk.clock - start >= minimum
      ensures a < b < |disk.trace| && disk.trace[a].Sent? && disk.trace[a].id == i
      ensures disk.trace[b] == Ended(i, Complete) && (disk.trace[a].at - start) * 23.0 >= i as real * minimum
      ensures forall k :: 0 <= k < |disk.trace| && disk.trace[k].Sent? && disk.trace[k].id == i ==> k == a
      ensures forall k :: 0 <= k < |disk.trace| && disk.trace[k].Ended? && disk.trace[k].id == i ==> k == b
    {
      hide PhaseOf, InOrder, Legal, EndedAs;
      a, b := CompletedOnce(disk.trace, i);
      ShareOfTime(disk.trace[a].at - start, i, minimum);
    }
  }

  lemma ShareOfTime(t: real, i: nat, minimum: real)
    requires t >= i as real * (minimum / (CASES - 1) as real)
    ensures t * 23.0 >= i as real * minimum
  {
    assert (i as real * (minimum / 23.0)) * 23.0 == i as real * minimum;
  }

  lemma SecondBefore(trace: seq<Event>, k: nat)
    requires Legal(trace, false) && k < |trace| && trace[k].SentAgain?
    ensures PhaseOf(trace[..k], trace[k].id) == Asked
  {
    assert Allowed(PhaseOf(trace[..k], trace[k].id), trace[k], false);
  }

  /** A case still to be settled rules out that all are complete. */
  lemma NotAllComplete(trace: seq<Event>, id: nat, e: Event)
    requires id < CASES && e.id == id && Allowed(PhaseOf(trace, id), e, false)
    ensures !AllComplete(trace)
  {
    assert !EndedAs(PhaseOf(trace, id), Complete);
  }
}
