/** Acquisition of coding tasks: each task is submitted once, its identifier is saved, and it is polled
    until the gateway reports an outcome. */
module Acquire {
  import opened RunTrace

  const NAMES: seq<string> := ["c-frame-stream", "c-ring-wrap", "go-session-state", "go-snapshot-feature"]

  // -------------------------------------------------------- what a gateway reply means

  /** A reply of the gateway; absent fields are empty. */
  datatype Reply = Reply(status: string, error: string, final: string)

  function Upper(s: string): string {
    seq(|s|, i requires 0 <= i < |s| => if 'a' <= s[i] <= 'z' then s[i] - 'a' + 'A' else s[i])
  }

  predicate ContainsAt(s: string, part: string, i: nat) {
    i <= |s| - |part| && s[i..i + |part|] == part
  }

  predicate Contains(s: string, part: string) {
    exists i: nat :: i <= |s| && ContainsAt(s, part, i)
  }

  predicate Running(r: Reply) {
    r.status in ["queued", "running", "draining", "applying"]
  }

  predicate SystemBlocked(r: Reply) {
    Contains(r.error, "sandbox infrastructure") || Upper(r.status) == "BLOCKED"
  }

  /** Upper-casing letter by letter. */
  lemma UpperMeans(s: string)
    ensures |Upper(s)| == |s|
    ensures forall i :: 0 <= i < |s| ==>
              Upper(s)[i] as int == s[i] as int - (if 'a' <= s[i] <= 'z' then 32 else 0)
  {
  }

  /** The error mentions the sandbox infrastructure. */
  lemma SystemBlockedMeans(r: Reply)
    ensures SystemBlocked(r) <==>
            Upper(r.status) == "BLOCKED" ||
            exists a, b :: r.error == a + "sandbox infrastructure" + b
  {
    var part := "sandbox infrastructure";
    if i: nat :| i <= |r.error| && ContainsAt(r.error, part, i) {
      assert r.error == r.error[..i] + part + r.error[i + |part|..];
    }
    if a, b :| r.error == a + part + b {
      assert ContainsAt(r.error, part, |a|);
    }
  }

  function Classify(r: Reply): (result: (Status, string))
    ensures result.0 == InFlight <==> r.status in ["queued", "running", "draining", "applying"]
    ensures result.0 == Blocked <==> result.0 != InFlight && SystemBlocked(r)
    ensures result.0 == Complete <==> result.0 != InFlight && result.0 != Blocked && r.final != ""
    ensures result.0 == Failed <==> result.0 != InFlight && result.0 != Blocked && r.final == ""
    ensures result.0 == InFlight ==> result.1 == "PENDING"
    ensures result.0 == Blocked ==>
              result.1 == if r.final != "" then "MODEL_OUTPUT_ACQUIRED_TEST_BLOCKED_SYSTEM"
                          else "BLOCKED_SYSTEM_NO_FINAL"
    ensures result.0 == Complete ==>
              result.1 == if Upper(r.status) in ["DONE", "PASS", "COMPLETE", "SUCCEEDED"] then "PASS"
                          else "MODEL_OUTPUT_ACQUIRED_TEST_NOT_PASS"
    ensures result.0 == Failed && Upper(r.status) == "INCOMPLETE" ==> result.1 == "INCOMPLETE_NO_FINAL"
    ensures result.0 == Failed && Upper(r.status) != "INCOMPLETE" ==>
              result.1 == if r.status == "" then "UNKNOWN" else r.status
  {
    if Running(r) then (InFlight, "PENDING")
    else if r.final != "" then
      if SystemBlocked(r) then (Blocked, "MODEL_OUTPUT_ACQUIRED_TEST_BLOCKED_SYSTEM")
      else if Upper(r.status) in ["DONE", "PASS", "COMPLETE", "SUCCEEDED"] then (Complete, "PASS")
      else (Complete, "MODEL_OUTPUT_ACQUIRED_TEST_NOT_PASS")
    else if SystemBlocked(r) then (Blocked, "BLOCKED_SYSTEM_NO_FINAL")
    else if Upper(r.status) == "INCOMPLETE" then (Failed, "INCOMPLETE_NO_FINAL")
    else (Failed, if r.status == "" then "UNKNOWN" else r.status)
  }

  // -------------------------------------------------------- the runner

  /** What the gateway answers during one process: whether it is live before a name is looked at, and then
      poll by poll whether it is live and what it replies. */
  datatype World = World(live: nat -> bool, polled: (nat, nat) -> bool, reply: (nat, nat) -> Reply)

  /** Reply n about name i is the first that is not pending. */
  ghost predicate First(w: World, i: nat, n: nat) {
    Classify(w.reply(i, n)).0 != InFlight && forall m :: 0 <= m < n ==> Classify(w.reply(i, m)).0 == InFlight
  }

  /** The first reply whose status is none of the four running states. */
  lemma FirstMeans(w: World, i: nat, n: nat)
    ensures First(w, i, n) <==>
            w.reply(i, n).status !in ["queued", "running", "draining", "applying"] &&
            forall m :: 0 <= m < n ==> w.reply(i, m).status in ["queued", "running", "draining", "applying"]
  {
    hide Running;
  }

  /** Reply n settles the task, and the gateway is live up to it. */
  ghost predicate Answered(w: World, i: nat, n: nat) {
    First(w, i, n) && forall m :: 0 <= m <= n ==> w.polled(i, m)
  }

  /** Nothing is begun or posted unless the gateway is live, and the outcome is that of the first reply
      that is not pending. */
  ghost predicate Obeys(e: Event, w: World) {
    match e
    case Began(i) => w.live(i)
    case Sent(i, _) => w.live(i)
    case SentAgain(_) => false
    case TaskSaved(i) => w.live(i)
    case Ended(i, s) => exists n: nat :: First(w, i, n) && s == Classify(w.reply(i, n)).0
  }

  ghost function Obeyed(w: World): Event -> bool {
    e => Obeys(e, w)
  }

  /** What every event from position n on is like. */
  lemma ObeyedMeans(trace: seq<Event>, n: nat, w: World)
    ensures AllFrom(trace, n, Obeyed(w)) <==>
            forall k :: n <= k < |trace| ==>
              match trace[k]
              case Began(i) => w.live(i)
              case Sent(i, _) => w.live(i)
              case SentAgain(_) => false
              case TaskSaved(i) => w.live(i)
              case Ended(i, s) => exists n: nat :: First(w, i, n) && s == Classify(w.reply(i, n)).0
  {
  }

  /** Some check found the gateway not live. */
  ghost predicate Interrupted(w: World, i: nat) {
    !w.live(i) || exists n: nat :: !w.polled(i, n)
  }

  /** Every task that ended was known by its identifier. */
  ghost predicate EndsTracked(trace: seq<Event>) {
    forall j: nat :: PhaseOf(trace, j).Done? ==> PhaseOf(trace, j).task
  }

  /** A submission was recorded, but no identifier came back. */
  ghost predicate Lost(trace: seq<Event>, i: nat) {
    Pending(PhaseOf(trace, i)) && PhaseOf(trace, i) != Tracked
  }

  ghost predicate SomeLost(trace: seq<Event>) {
    exists i: nat :: i < |NAMES| && Lost(trace, i)
  }

  lemma EndObeys(trace: seq<Event>, w: World, i: nat, n: nat)
    requires First(w, i, n)
    ensures AllFrom(trace + [Ended(i, Classify(w.reply(i, n)).0)], |trace|, Obeyed(w))
  {
  }

  class Acquisition {
    const disk: Disk

    constructor (now: real)
      ensures Valid() && fresh(disk) && disk.trace == []
    {
      disk := new Disk(false, now);
    }

    ghost predicate Valid()
      reads this, disk
    {
      disk.Valid() && !disk.retry && InOrder(disk.trace, false) && EndsTracked(disk.trace)
    }

    method Log(e: Event) returns (alive: bool)
      requires Valid() && Frontier(disk.trace, e.id, false) && Allowed(PhaseOf(disk.trace, e.id), e, false)
      requires e.Sent? ==> e.at == disk.clock
      requires e.Ended? ==> PhaseOf(disk.trace, e.id) == Tracked
      modifies disk
      ensures Valid() && Frontier(disk.trace, e.id, false)
      ensures (alive <==> old(disk.lives) > 0) && disk.lives == if alive then old(disk.lives) - 1 else 0
      ensures disk.trace == if alive then old(disk.trace) + [e] else old(disk.trace)
      ensures alive ==> PhaseOf(disk.trace, e.id) == Advance(old(PhaseOf(disk.trace, e.id)), e)
    {
      hide disk.Valid, InOrder, Frontier, Allowed, PhaseOf;
      alive := disk.LogNext(e, false);
    }

    /** Asks again until the reply is no longer pending; n counts the replies that were. */
    method Await(i: nat, w: World) returns (answered: bool, n: nat)
      requires disk.Valid()
      modifies disk`lives
      ensures disk.Valid() && disk.lives <= old(disk.lives)
      ensures answered ==> First(w, i, n) && w.polled(i, n) && disk.lives == old(disk.lives) - n - 1
      ensures !answered ==> disk.lives == 0 || Interrupted(w, i)
      ensures forall k: nat :: Answered(w, i, k) && old(disk.lives) > k ==> answered
    {
      hide disk.Valid, Classify, Running;
      n := 0;
      while true
        invariant disk.Valid() && n <= old(disk.lives) && disk.lives == old(disk.lives) - n
        invariant forall m :: 0 <= m < n ==> Classify(w.reply(i, m)).0 == InFlight && w.polled(i, m)
        decreases disk.lives
      {
        var alive := disk.Tick();
        if !alive || !w.polled(i, n) {
          return false, n;
        }
        if Classify(w.reply(i, n)).0 != InFlight {
          return true, n;
        }
        n := n + 1;
      }
    }

    /** Records the outcome of the first reply that is not pending. */
    method Poll(i: nat, w: World) returns (done: bool)
      requires Valid() && Frontier(disk.trace, i, false) && PhaseOf(disk.trace, i) == Tracked
      modifies disk
      ensures Valid() && old(disk.trace) <= disk.trace && Frontier(disk.trace, i, false)
      ensures done ==> Settled(PhaseOf(disk.trace, i), false)
      ensures !done ==> disk.trace == old(disk.trace) && (disk.lives == 0 || Interrupted(w, i))
      ensures done ==> exists n: nat :: First(w, i, n) && w.polled(i, n)
                                        && disk.trace == old(disk.trace) + [Ended(i, Classify(w.reply(i, n)).0)]
      ensures forall n: nat :: Answered(w, i, n) && old(disk.lives) >= n + 2 ==> done
      ensures AllFrom(disk.trace, |old(disk.trace)|, Obeyed(w))
    {
      hide disk.Valid, InOrder, Frontier, PhaseOf, Classify, Running, Obeys;
      var answered, n := Await(i, w);
      if !answered {
        return false;
      }
      EndObeys(disk.trace, w, i, n);
      assert forall k: nat :: Answered(w, i, k) ==> k == n;
      done := Log(Ended(i, Classify(w.reply(i, n)).0));
    }

    /** Records the submission, posts it, and records the identifier that comes back. */
    method Submit(i: nat, w: World) returns (alive: bool)
      requires Valid() && Frontier(disk.trace, i, false) && PhaseOf(disk.trace, i) == Fresh && w.live(i)
      modifies disk
      ensures Valid() && old(disk.trace) <= disk.trace && Frontier(disk.trace, i, false)
      ensures AllFrom(disk.trace, |old(disk.trace)|, Obeyed(w))
      ensures alive ==> PhaseOf(disk.trace, i) == Tracked && disk.lives == old(disk.lives) - 3
      ensures alive ==> exists at: real :: disk.trace == old(disk.trace) + [Began(i), Sent(i, at), TaskSaved(i)]
      ensures !alive ==> disk.lives == 0 && old(disk.lives) < 3 && !Settled(PhaseOf(disk.trace, i), false)
    {
      hide disk.Valid, InOrder, Frontier, PhaseOf;
      ghost var before := disk.trace;
      alive := Log(Began(i));
      ghost var at := disk.clock;
      if alive {
        alive := Log(Sent(i, disk.clock));
      }
      if alive {
        alive := Log(TaskSaved(i));
      }
      assert alive ==> disk.trace == before + [Began(i), Sent(i, at), TaskSaved(i)];
    }

    /** One task: reuses a finished record, otherwise submits it, or takes up a submission whose
        identifier was saved. */
    method AcquireOne(i: nat, w: World) returns (done: bool)
      requires Valid() && SettledBelow(disk.trace, i, false)
      modifies disk
      ensures Valid() && old(disk.trace) <= disk.trace && SettledBelow(disk.trace, i, false)
      ensures done <==> Settled(PhaseOf(disk.trace, i), false)
      ensures old(Settled(PhaseOf(disk.trace, i), false)) ==> done && disk.trace == old(disk.trace)
      ensures old(Lost(disk.trace, i)) ==> !done && disk.trace == old(disk.trace)
      ensures !done ==> disk.lives == 0 || Interrupted(w, i) || old(Lost(disk.trace, i))
      ensures !done && disk.lives > 0 ==> disk.trace == old(disk.trace) || Tracked == PhaseOf(disk.trace, i)
      ensures done && old(PhaseOf(disk.trace, i)) == Fresh ==>
                exists at: real, n: nat ::
                  First(w, i, n) && disk.trace == old(disk.trace) + [Began(i), Sent(i, at), TaskSaved(i),
                                                                     Ended(i, Classify(w.reply(i, n)).0)]
      ensures done && old(PhaseOf(disk.trace, i)) == Tracked ==>
                exists n: nat ::
                  First(w, i, n) && disk.trace == old(disk.trace) + [Ended(i, Classify(w.reply(i, n)).0)]
      ensures forall n: nat :: Answered(w, i, n) && w.live(i) && old(disk.lives) >= n + 5 ==>
                old(Lost(disk.trace, i)) || done
      ensures AllFrom(disk.trace, |old(disk.trace)|, Obeyed(w))
    {
      hide disk.Valid, InOrder, Frontier, PhaseOf;
      disk.RecordShows(i);
      if i in disk.records {
        var record := disk.records[i];
        if record.status == Complete || record.status == Blocked || (record.status == Failed && record.task) {
          return true;
        }
      }
      FrontierHere(disk.trace, i, false);
      ghost var first, at := disk.trace, disk.clock;
      if !w.live(i) {
        return false;
      }
      if i in disk.records && disk.records[i].status == InFlight {
        if !disk.records[i].task {
          return false;
        }
      } else {
        var alive := Submit(i, w);
        if !alive {
          FrontierBelow(disk.trace, i, false);
          return false;
        }
        at :| disk.trace == first + [Began(i), Sent(i, at), TaskSaved(i)];
      }
      ghost var before := disk.trace;
      done := Poll(i, w);
      if done {
        ghost var n: nat :| First(w, i, n) && disk.trace == before + [Ended(i, Classify(w.reply(i, n)).0)];
        assert before == first + [Began(i), Sent(i, at), TaskSaved(i)] ==>
            disk.trace == first + [Began(i), Sent(i, at), TaskSaved(i), Ended(i, Classify(w.reply(i, n)).0)];
      }
      FrontierBelow(disk.trace, i, false);
      AllFromJoin(before, disk.trace, |old(disk.trace)|, Obeyed(w));
    }

    /** One process: the names in order, each settled before the next is looked at. */
    method Run(w: World) returns (done: bool)
      requires Valid()
      modifies disk
      ensures Valid() && old(disk.trace) <= disk.trace
      ensures done ==> SettledBelow(disk.trace, 4, false)
      ensures old(SomeLost(disk.trace)) ==> !done && disk.trace == old(disk.trace)
      ensures !done ==>
                exists i: nat :: i < 4 && SettledBelow(disk.trace, i, false) && !Settled(PhaseOf(disk.trace, i), false)
                                 && (disk.lives == 0 || !w.live(i) || (exists n: nat :: !w.polled(i, n))
                                     || PhaseOf(disk.trace, i) in {Begun, Asked, AskedAgain})
      ensures AllFrom(disk.trace, |old(disk.trace)|, Obeyed(w))
    {
      hide disk.Valid, InOrder, PhaseOf;
      ghost var lost := SomeLost(disk.trace);
      for i := 0 to |NAMES|
        invariant Valid() && old(disk.trace) <= disk.trace && SettledBelow(disk.trace, i, false)
        invariant lost ==> disk.trace == old(disk.trace)
        invariant AllFrom(disk.trace, |old(disk.trace)|, Obeyed(w))
      {
        if lost {
          LostHere(disk.trace, i);
        }
        ghost var before := disk.trace;
        done := AcquireOne(i, w);
        AllFromJoin(before, disk.trace, |old(disk.trace)|, Obeyed(w));
        if !done {
          return;
        }
      }
      return true;
    }

    /** Any number of processes, each dying at any point; a lost submission ends all progress. */
    method Processes(runs: nat)
      requires Valid()
      modifies disk
      ensures Valid() && old(disk.trace) <= disk.trace
      ensures old(SomeLost(disk.trace)) ==> disk.trace == old(disk.trace)
    {
      hide disk.Valid, InOrder, PhaseOf, EndsTracked, SomeLost;
      ghost var lost := SomeLost(disk.trace);
      for n := 0 to runs
        invariant Valid() && old(disk.trace) <= disk.trace
        invariant lost ==> disk.trace == old(disk.trace)
      {
        var w: World := *;
        disk.Start();
        var done := Run(w);
      }
    }

    /** Each task is posted at most once, and only after all earlier tasks have ended. */
    lemma PostedAtMostOnce(a: nat, b: nat)
      requires Valid() && a < b < |disk.trace| && disk.trace[a].Sent? && disk.trace[b].Sent?
      ensures disk.trace[a].id < disk.trace[b].id && SettledBelow(disk.trace[..b], disk.trace[b].id, false)
    {
      hide PhaseOf, Legal, Frontier;
      SendsAscend(disk.trace, false, false, a, b);
      FrontierBelow(disk.trace[..b], disk.trace[b].id, false);
    }
  }

  /** With a submission lost, the next task to look at is that one or an earlier, settled one. */
  lemma LostHere(trace: seq<Event>, i: nat)
    requires InOrder(trace, false) && SettledBelow(trace, i, false)
    requires SomeLost(trace)
    ensures Lost(trace, i) || Settled(PhaseOf(trace, i), false)
  {
    hide PhaseOf, InOrder;
    var f := LastFrontier(trace, false);
    var j: nat :| j < |NAMES| && Lost(trace, j);
    assert Lost(trace, j) ==> j <= f;
    assert j < f ==> Settled(PhaseOf(trace, j), false);
    assert i < f ==> Settled(PhaseOf(trace, i), false);
  }
}
