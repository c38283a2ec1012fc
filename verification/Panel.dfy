/** The context panel: prompts of growing size, each sent only when all smaller ones have passed. */
module Panel {
  import opened Basics
  import opened RunTrace

  /** The cases in the order they are sent: kind, size and repetition. */
  const CASES: seq<(string, string, nat)> := [
    ("code", "2k", 1), ("code", "4k", 1), ("code", "8k", 1), ("code", "8k", 2), ("code", "8k", 3), ("docs", "8k", 1),
    ("code", "16k", 1), ("code", "32k", 1), ("code", "32k", 2), ("code", "32k", 3), ("docs", "32k", 1),
    ("code", "64k", 1), ("docs", "64k", 1)]

  /** The cases sent whatever the later ones need; the 64k cases follow when every 32k case passed. */
  const UNCONDITIONAL: nat := 11

  /** What happens during one process: whether the service is live when a case is due, whether the
      collector and then the validator of the case succeed. */
  datatype World = World(live: nat -> bool, collected: nat -> bool, valid: nat -> bool)

  function Verdict(w: World, i: nat): Status {
    if w.collected(i) && w.valid(i) then Complete else Failed
  }

  /** Nothing is begun or sent unless the service is live, and outcomes are as observed. */
  predicate Obeys(e: Event, w: World) {
    match e
    case Began(i) => w.live(i)
    case Sent(i, _) => w.live(i)
    case SentAgain(_) => false
    case TaskSaved(_) => false
    case Ended(i, s) => s == Verdict(w, i)
  }

  ghost function Obeyed(w: World): Event -> bool {
    e => Obeys(e, w)
  }

  /** What every event from position n on is like. */
  lemma ObeyedMeans(trace: seq<Event>, n: nat, w: World)
    ensures AllFrom(trace, n, Obeyed(w)) <==>
            forall k :: n <= k < |trace| ==>
              match trace[k]
              case Began(i) => w.live(i)
              case Sent(i, _) => w.live(i)
              case SentAgain(_) => false
              case TaskSaved(_) => false
              case Ended(i, s) => s == if w.collected(i) && w.valid(i) then Complete else Failed
  {
  }

  ghost predicate NoneBlocked(trace: seq<Event>) {
    forall j: nat :: !EndedAs(PhaseOf(trace, j), Blocked)
  }

  datatype Outcome = Passed | Stopped | Broken

  function SizeOf(size: string): nat {
    if size == "2k" then 2 else if size == "4k" then 4 else if size == "8k" then 8 else if size == "16k" then 16
    else if size == "32k" then 32 else if size == "64k" then 64 else 0
  }

  /** Thirteen different cases in order of size; the two of 64k come last. */
  lemma SizesAscend(i: nat, j: nat)
    requires i < j < 13
    ensures |CASES| == 13 && CASES[i] != CASES[j] && 0 < SizeOf(CASES[i].1) <= SizeOf(CASES[j].1)
    ensures SizeOf(CASES[j].1) == 64 <==> j >= 11
  {
  }

  predicate Named(i: nat, kind: string, size: string)
    requires i < |CASES|
  {
    CASES[i].0 == kind && CASES[i].1 == size
  }

  ghost predicate AllComplete(trace: seq<Event>, kind: string, size: string) {
    forall i: nat :: i < |CASES| && Named(i, kind, size) ==> EndedAs(PhaseOf(trace, i), Complete)
  }

  /** The cases below i completed and i failed. */
  ghost predicate FailedAt(trace: seq<Event>, i: nat) {
    SettledBelow(trace, i, true) && EndedAs(PhaseOf(trace, i), Failed)
  }

  /** Case i is next, not complete, and cannot go on: the service is not live or the case is in flight. */
  ghost predicate Halted(trace: seq<Event>, i: nat, w: World) {
    SettledBelow(trace, i, true) && !EndedAs(PhaseOf(trace, i), Complete) && (!w.live(i) || Pending(PhaseOf(trace, i)))
  }

  /** Some case of the range is in flight. */
  ghost predicate Stuck(trace: seq<Event>, from: nat, to: nat) {
    exists j: nat :: from <= j < to && Pending(PhaseOf(trace, j))
  }

  /** With a case in flight, the next case to look at is that one or an earlier, completed one. */
  lemma StuckHere(trace: seq<Event>, from: nat, i: nat, to: nat)
    requires InOrder(trace, true) && SettledBelow(trace, i, true) && Stuck(trace, from, to)
    ensures Pending(PhaseOf(trace, i)) || EndedAs(PhaseOf(trace, i), Complete)
  {
    hide PhaseOf, InOrder;
    var f := LastFrontier(trace, true);
    var j: nat :| from <= j < to && Pending(PhaseOf(trace, j));
    assert Pending(PhaseOf(trace, j)) ==> j <= f;
    assert j < f ==> Settled(PhaseOf(trace, j), true);
    assert i < f ==> Settled(PhaseOf(trace, i), true);
  }

  /** A case in flight is either among the unconditional ones or stands behind all of them. */
  lemma StuckWhere(trace: seq<Event>)
    requires InOrder(trace, true) && Stuck(trace, 0, |CASES|)
    ensures Stuck(trace, 0, UNCONDITIONAL)
            || (SettledBelow(trace, UNCONDITIONAL, true) && Stuck(trace, UNCONDITIONAL, |CASES|))
  {
    hide PhaseOf, InOrder;
    var f := LastFrontier(trace, true);
    var j: nat :| 0 <= j < |CASES| && Pending(PhaseOf(trace, j));
    assert Pending(PhaseOf(trace, j)) ==> j <= f;
    assert j < f ==> Settled(PhaseOf(trace, j), true);
    if UNCONDITIONAL <= j {
      FrontierBelow(trace, f, true);
    }
  }

  /** Every 32k case is among the unconditional ones. */
  lemma GateOpen(trace: seq<Event>)
    requires SettledBelow(trace, UNCONDITIONAL, true)
    ensures AllComplete(trace, "code", "32k") && AllComplete(trace, "docs", "32k")
  {
    hide PhaseOf;
    forall i: nat, kind | i < |CASES| && Named(i, kind, "32k") ensures i < UNCONDITIONAL {
      assert CASES[i].1 == "32k";
    }
  }

  class Campaign {
    const disk: Disk

    constructor (now: real)
      ensures Valid() && fresh(disk) && disk.trace == []
    {
      disk := new Disk(true, now);
    }

    ghost predicate Valid()
      reads this, disk
    {
      disk.Valid() && disk.retry && InOrder(disk.trace, true) && NoneBlocked(disk.trace)
    }

    /** One record write or send of a case all of whose predecessors are complete. */
    method Log(e: Event) returns (alive: bool)
      requires Valid() && Frontier(disk.trace, e.id, true)
      requires Allowed(PhaseOf(disk.trace, e.id), e, true) && (e.Ended? ==> e.status != Blocked)
      requires e.Sent? ==> e.at == disk.clock
      modifies disk
      ensures Valid() && Frontier(disk.trace, e.id, true)
      ensures disk.trace == if alive then old(disk.trace) + [e] else old(disk.trace)
      ensures alive ==> PhaseOf(disk.trace, e.id) == Advance(old(PhaseOf(disk.trace, e.id)), e)
      ensures (alive <==> old(disk.lives) > 0) && disk.lives == if alive then old(disk.lives) - 1 else 0
    {
      hide disk.Valid, InOrder, Frontier, Allowed, PhaseOf;
      alive := disk.LogNext(e, true);
    }

    /** Answers from a complete record, refuses one in flight, and otherwise, so also after a failure,
        records the case as in flight and sends it. None is an exception or the death of the process. */
    method RunOne(i: nat, w: World) returns (status: Option<Status>)
      requires Valid() && SettledBelow(disk.trace, i, true)
      modifies disk
      ensures Valid() && old(disk.trace) <= disk.trace && SettledBelow(disk.trace, i, true)
      ensures status.Some? ==> status.value != InFlight && EndedAs(PhaseOf(disk.trace, i), status.value)
      ensures old(EndedAs(PhaseOf(disk.trace, i), Complete))
              ==> disk.trace == old(disk.trace) && status == Some(Complete)
      ensures old(Pending(PhaseOf(disk.trace, i))) ==> disk.trace == old(disk.trace) && status == None
      ensures old(!EndedAs(PhaseOf(disk.trace, i), Complete)) && status.Some? ==>
                status.value == (if w.collected(i) && w.valid(i) then Complete else Failed) && w.live(i) &&
                exists at: real :: disk.trace == old(disk.trace) + [Began(i), Sent(i, at), Ended(i, status.value)]
      ensures status == None ==> disk.lives == 0 || !w.live(i) || old(Pending(PhaseOf(disk.trace, i)))
      ensures old(disk.lives) >= 3 ==> disk.lives >= old(disk.lives) - 3
      ensures old(disk.lives) >= 3 && w.live(i) && !old(Pending(PhaseOf(disk.trace, i))) ==> status.Some?
      ensures status == None && (disk.lives > 0 || old(disk.lives) >= 3) ==> disk.trace == old(disk.trace)
      ensures AllFrom(disk.trace, |old(disk.trace)|, Obeyed(w))
    {
      hide disk.Valid, InOrder, Frontier, PhaseOf;
      disk.RecordShows(i);
      if i in disk.records {
        if disk.records[i].status == Complete {
          return Some(Complete);
        }
        if disk.records[i].status == InFlight {
          return None;
        }
      }
      FrontierHere(disk.trace, i, true);
      if !w.live(i) {
        return None;
      }
      ghost var before := disk.trace;
      var alive := Log(Began(i));
      ghost var at := disk.clock;
      if alive {
        alive := Log(Sent(i, disk.clock));
      }
      if alive {
        status := Some(Verdict(w, i));
        alive := Log(Ended(i, status.value));
      }
      FrontierBelow(disk.trace, i, true);
      assert alive ==> disk.trace == before + [Began(i), Sent(i, at), Ended(i, status.value)];
      return if alive then status else None;
    }

    /** Whether the records of every repetition of one kind and size say complete. */
    method AllPass(kind: string, size: string) returns (pass: bool)
      requires Valid()
      ensures pass <==> AllComplete(disk.trace, kind, size)
      ensures pass <==> forall i: nat :: i < |CASES| && CASES[i].0 == kind && CASES[i].1 == size
                                         ==> EndedAs(PhaseOf(disk.trace, i), Complete)
    {
      hide PhaseOf, InOrder;
      pass := true;
      for j := 0 to |CASES|
        invariant pass <==> forall k: nat :: k < j && Named(k, kind, size) ==> EndedAs(PhaseOf(disk.trace, k), Complete)
      {
        disk.RecordShows(j);
        if Named(j, kind, size) {
          pass := pass && j in disk.records && disk.records[j].status == Complete;
        }
      }
    }

    /** Runs the cases from i up to to, stopping at the first that does not complete. */
    method RunThrough(from: nat, to: nat, w: World) returns (outcome: Outcome)
      requires Valid() && SettledBelow(disk.trace, from, true) && from <= to
      modifies disk
      ensures Valid() && old(disk.trace) <= disk.trace
      ensures outcome == Passed ==> SettledBelow(disk.trace, to, true)
      ensures outcome == Stopped ==> exists i: nat :: from <= i < to && FailedAt(disk.trace, i)
      ensures old(SettledBelow(disk.trace, to, true)) ==> outcome == Passed && disk.trace == old(disk.trace)
      ensures old(Stuck(disk.trace, from, to)) ==> outcome == Broken && disk.trace == old(disk.trace)
      ensures outcome == Broken ==>
                disk.lives == 0 || exists i: nat :: from <= i < to && Halted(disk.trace, i, w)
      ensures to <= 13 && old(disk.lives) >= 39 - 3 * from ==>
                disk.lives >= 39 - 3 * to &&
                (outcome == Broken ==> exists i: nat :: from <= i < to && Halted(disk.trace, i, w))
      ensures AllFrom(disk.trace, |old(disk.trace)|, Obeyed(w))
    {
      hide disk.Valid, InOrder, PhaseOf;
      ghost var start, lives := disk.trace, disk.lives;
      for i := from to to
        invariant Valid() && start <= disk.trace && SettledBelow(disk.trace, i, true)
        invariant SettledBelow(start, to, true) ==> disk.trace == start
        invariant Stuck(start, from, to) ==> disk.trace == start
        invariant AllFrom(disk.trace, |start|, Obeyed(w))
        invariant to <= 13 && lives >= 39 - 3 * from ==> disk.lives >= 39 - 3 * i
      {
        ghost var before := disk.trace;
        if Stuck(before, from, to) {
          StuckHere(before, from, i, to);
        }
        var status := RunOne(i, w);
        AllFromJoin(before, disk.trace, |start|, Obeyed(w));
        if status == None {
          assert disk.lives > 0 || (to <= 13 && lives >= 39 - 3 * from) ==> Halted(disk.trace, i, w);
          return Broken;
        }
        if status.value != Complete {
          assert FailedAt(disk.trace, i);
          return Stopped;
        }
      }
      return Passed;
    }

    /** One process. It exits with 0 exactly when all cases completed, because the gate in front of the
        64k cases never refuses once the earlier ones have run through. */
    method RunAll(w: World) returns (code: Option<nat>)
      requires Valid()
      modifies disk
      ensures Valid() && old(disk.trace) <= disk.trace
      ensures code == Some(0) ==> forall i: nat :: i < 13 ==> EndedAs(PhaseOf(disk.trace, i), Complete)
      ensures code == Some(2) ==>
                exists i: nat :: i < 11 && SettledBelow(disk.trace, i, true) && EndedAs(PhaseOf(disk.trace, i), Failed)
      ensures code == Some(3) ==>
                exists i: nat :: 11 <= i < 13 && SettledBelow(disk.trace, i, true)
                                 && EndedAs(PhaseOf(disk.trace, i), Failed)
      ensures code == None || code.value in {0, 2, 3}
      ensures old(SettledBelow(disk.trace, |CASES|, true)) ==> code == Some(0) && disk.trace == old(disk.trace)
      ensures old(Stuck(disk.trace, 0, |CASES|)) ==> code == None && disk.trace == old(disk.trace)
      ensures code == None && (disk.lives > 0 || old(disk.lives) >= 39) ==>
                exists i: nat :: i < 13 && SettledBelow(disk.trace, i, true) &&
                                 !EndedAs(PhaseOf(disk.trace, i), Complete) &&
                                 (!w.live(i) || Pending(PhaseOf(disk.trace, i)))
      ensures AllFrom(disk.trace, |old(disk.trace)|, Obeyed(w))
    {
      hide disk.Valid, InOrder, PhaseOf;
      if Stuck(disk.trace, 0, |CASES|) {
        StuckWhere(disk.trace);
      }
      var outcome := RunThrough(0, UNCONDITIONAL, w);
      if outcome != Passed {
        return if outcome == Stopped then Some(2) else None;
      }
      GateOpen(disk.trace);
      var code32k := AllPass("code", "32k");
      var docs32k := AllPass("docs", "32k");
      if code32k && docs32k {
        ghost var before := disk.trace;
        outcome := RunThrough(UNCONDITIONAL, |CASES|, w);
        AllFromJoin(before, disk.trace, |old(disk.trace)|, Obeyed(w));
        if outcome != Passed {
          return if outcome == Stopped then Some(3) else None;
        }
      }
      return Some(0);
    }

    /** Any number of processes, each dying at any point; a case left in flight ends all progress. */
    method Processes(runs: nat)
      requires Valid()
      modifies disk
      ensures Valid() && old(disk.trace) <= disk.trace
      ensures old(Stuck(disk.trace, 0, |CASES|)) ==> disk.trace == old(disk.trace)
    {
      hide disk.Valid, InOrder, PhaseOf, NoneBlocked, Stuck;
      ghost var stuck := Stuck(disk.trace, 0, |CASES|);
      for n := 0 to runs
        invariant Valid() && old(disk.trace) <= disk.trace
        invariant stuck ==> disk.trace == old(disk.trace)
      {
        var w: World := *;
        disk.Start();
        var code := RunAll(w);
      }
    }

    /** When a case was sent every smaller one had completed, and if it was sent before, that send
        ended in a recorded failure. */
    lemma SentWhenAllowed(b: nat)
      requires Valid() && b < |disk.trace| && disk.trace[b].Sent?
      ensures SettledBelow(disk.trace[..b], disk.trace[b].id, true)
      ensures forall a :: 0 <= a < b && disk.trace[a].Sent? && disk.trace[a].id == disk.trace[b].id
                          ==> exists c :: a < c < b && disk.trace[c] == Ended(disk.trace[b].id, Failed)
      ensures forall a :: 0 <= a < b && disk.trace[a] == Ended(disk.trace[a].id, Complete)
                          ==> disk.trace[a].id != disk.trace[b].id
    {
      hide PhaseOf, Legal, Frontier;
      var trace := disk.trace;
      FrontierBelow(trace[..b], trace[b].id, true);
      forall a | 0 <= a < b && trace[a].Sent? && trace[a].id == trace[b].id
        ensures exists c :: a < c < b && trace[c] == Ended(trace[b].id, Failed)
      {
        SendsSeparated(trace, true, a, b);
      }
      forall a | 0 <= a < b && trace[a] == Ended(trace[a].id, Complete) ensures trace[a].id != trace[b].id {
        NothingAfterComplete(trace, true, a, b);
      }
    }
  }
}
