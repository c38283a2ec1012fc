/** Durable records around requests that must not be repeated: the trace of record writes and sends,
    which traces are disciplined, and a disk on which a process may die between any two actions. */
module RunTrace {
  import opened Basics

  datatype Status = InFlight | Complete | Failed | Blocked

  /** The durable record of one case; task says that it holds the identifier the server returned. */
  datatype Record = Record(status: Status, task: bool)

  datatype Event =
    | Began(id: nat)
    | Sent(id: nat, at: real)
    | SentAgain(id: nat)
    | TaskSaved(id: nat)
    | Ended(id: nat, status: Status)

  /** What a trace says about one case. */
  datatype Phase = Fresh | Begun | Asked | AskedAgain | Tracked | Done(status: Status, task: bool)

  function Advance(p: Phase, e: Event): Phase {
    match e
    case Began(_) => Begun
    case Sent(_, _) => Asked
    case SentAgain(_) => AskedAgain
    case TaskSaved(_) => Tracked
    case Ended(_, s) => Done(s, p == Tracked)
  }

  function PhaseOf(trace: seq<Event>, id: nat): Phase {
    if trace == [] then Fresh else
      var e, before := trace[|trace| - 1], PhaseOf(trace[..|trace| - 1], id);
      if e.id == id then Advance(before, e) else before
  }

  /** The order in which a case goes through its phases, with at most one further request per send; with
      retry a failed case may begin anew. */
  predicate Allowed(p: Phase, e: Event, retry: bool) {
    match e
    case Began(_) => p == Fresh || (retry && p.Done? && p.status == Failed)
    case Sent(_, _) => p == Begun
    case SentAgain(_) => p == Asked
    case TaskSaved(_) => p == Asked
    case Ended(_, s) => (p == Asked || p == AskedAgain || p == Tracked) && s != InFlight
  }

  predicate Legal(trace: seq<Event>, retry: bool) {
    forall k :: 0 <= k < |trace| ==> Allowed(PhaseOf(trace[..k], trace[k].id), trace[k], retry)
  }

  function After(p: Phase, id: nat, e: Event): Phase {
    if e.id == id then Advance(p, e) else p
  }

  lemma PhaseStep(trace: seq<Event>, e: Event, id: nat)
    ensures PhaseOf(trace + [e], id) == After(PhaseOf(trace, id), id, e)
  {
    assert (trace + [e])[..|trace|] == trace;
  }

  lemma LegalStep(trace: seq<Event>, e: Event, retry: bool)
    requires Legal(trace, retry) && Allowed(PhaseOf(trace, e.id), e, retry)
    ensures Legal(trace + [e], retry)
  {
    hide Allowed, PhaseOf;
    var t := trace + [e];
    assert t[..|trace|] == trace;
    forall k | 0 <= k < |t| ensures Allowed(PhaseOf(t[..k], t[k].id), t[k], retry) {
      if k < |trace| {
        assert t[..k] == trace[..k] && t[k] == trace[k];
      }
    }
  }

  /** Every event from position n on is as ok says. */
  ghost predicate AllFrom(trace: seq<Event>, n: nat, ok: Event -> bool) {
    forall k :: n <= k < |trace| ==> ok(trace[k])
  }

  lemma AllFromJoin(before: seq<Event>, after: seq<Event>, n: nat, ok: Event -> bool)
    requires n <= |before| && before <= after && AllFrom(before, n, ok) && AllFrom(after, |before|, ok)
    ensures AllFrom(after, n, ok)
  {
    forall k | n <= k < |after| ensures ok(after[k]) {
      assert k < |before| ==> after[k] == before[k];
    }
  }

  // -------------------------------------------------------- what a disciplined trace guarantees

  predicate Spent(p: Phase) {
    p == Asked || p == AskedAgain || p == Tracked || (p.Done? && p.status != Failed)
  }

  /** After a send the case can be sent again only once a failure has been recorded. */
  lemma {:induction false} SpentUntilFailed(trace: seq<Event>, retry: bool, id: nat, a: nat, k: nat)
    requires Legal(trace, retry) && a < k <= |trace| && trace[a].Sent? && trace[a].id == id
    requires forall c :: a < c < k ==> trace[c] != Ended(id, Failed)
    ensures Spent(PhaseOf(trace[..k], id))
    decreases k
  {
    assert trace[..k][..k - 1] == trace[..k - 1];
    assert Allowed(PhaseOf(trace[..k - 1], trace[k - 1].id), trace[k - 1], retry);
    if a < k - 1 {
      SpentUntilFailed(trace, retry, id, a, k - 1);
    }
  }

  /** Any two sends of one case have a durable failure record between them. */
  lemma SendsSeparated(trace: seq<Event>, retry: bool, a: nat, b: nat)
    requires Legal(trace, retry) && a < b < |trace| && trace[a].Sent? && trace[b].Sent? && trace[a].id == trace[b].id
    ensures exists c :: a < c < b && trace[c] == Ended(trace[a].id, Failed)
  {
    assert Allowed(PhaseOf(trace[..b], trace[b].id), trace[b], retry);
    if forall c :: a < c < b ==> trace[c] != Ended(trace[a].id, Failed) {
      SpentUntilFailed(trace, retry, trace[a].id, a, b);
    }
  }

  predicate EndedAs(p: Phase, s: Status) {
    p.Done? && p.status == s
  }

  /** A case that ended stays as it ended unless it may be begun anew. */
  lemma {:induction false} EndedStays(trace: seq<Event>, retry: bool, id: nat, s: Status, a: nat, k: nat)
    requires Legal(trace, retry) && a <= k <= |trace| && EndedAs(PhaseOf(trace[..a], id), s)
    requires !retry || s != Failed
    ensures EndedAs(PhaseOf(trace[..k], id), s)
    decreases k
  {
    if a < k {
      assert trace[..k][..k - 1] == trace[..k - 1];
      EndedStays(trace, retry, id, s, a, k - 1);
      assert Allowed(PhaseOf(trace[..k - 1], trace[k - 1].id), trace[k - 1], retry);
    }
  }

  /** Nothing is begun, sent or ended again after a case has completed. */
  lemma NothingAfterComplete(trace: seq<Event>, retry: bool, a: nat, b: nat)
    requires Legal(trace, retry) && a < b < |trace| && trace[a] == Ended(trace[a].id, Complete)
    ensures trace[b].id != trace[a].id
  {
    EndedStays(trace, retry, trace[a].id, Complete, a + 1, b);
    assert Allowed(PhaseOf(trace[..b], trace[b].id), trace[b], retry);
  }

  /** Without retries a case never comes back to before its send. */
  lemma {:induction false} PastSend(trace: seq<Event>, id: nat, a: nat, k: nat)
    requires Legal(trace, false) && a < k <= |trace| && trace[a].Sent? && trace[a].id == id
    ensures PhaseOf(trace[..k], id) != Begun && PhaseOf(trace[..k], id) != Fresh
    decreases k
  {
    assert trace[..k][..k - 1] == trace[..k - 1];
    assert Allowed(PhaseOf(trace[..k - 1], trace[k - 1].id), trace[k - 1], false);
    if a < k - 1 {
      PastSend(trace, id, a, k - 1);
    }
  }

  /** Without retries every case is sent at most once. */
  lemma SentAtMostOnce(trace: seq<Event>, a: nat, b: nat)
    requires Legal(trace, false) && a < b < |trace| && trace[a].Sent? && trace[b].Sent?
    ensures trace[a].id != trace[b].id
  {
    assert Allowed(PhaseOf(trace[..b], trace[b].id), trace[b], false);
    if trace[a].id == trace[b].id {
      hide PhaseOf, Legal;
      PastSend(trace, trace[a].id, a, b);
    }
  }

  /** A case that is past its send was sent. */
  lemma {:induction false} WasSent(trace: seq<Event>, retry: bool, id: nat, k: nat) returns (a: nat)
    requires Legal(trace, retry) && k <= |trace|
    requires var p := PhaseOf(trace[..k], id); p == Asked || p == AskedAgain || p == Tracked || p.Done?
    ensures a < k && trace[a].Sent? && trace[a].id == id
    decreases k
  {
    assert trace[..k][..k - 1] == trace[..k - 1];
    assert Allowed(PhaseOf(trace[..k - 1], trace[k - 1].id), trace[k - 1], retry);
    if trace[k - 1].Sent? && trace[k - 1].id == id {
      a := k - 1;
    } else {
      a := WasSent(trace, retry, id, k - 1);
    }
  }

  /** A case whose trace ends in success was sent, and ended, exactly once; a and b say when. */
  lemma {:induction false} CompletedOnce(trace: seq<Event>, id: nat) returns (a: nat, b: nat)
    requires Legal(trace, false) && EndedAs(PhaseOf(trace, id), Complete)
    ensures a < b < |trace| && trace[a].Sent? && trace[a].id == id && trace[b] == Ended(id, Complete)
    ensures forall k :: 0 <= k < |trace| && trace[k].Sent? && trace[k].id == id ==> k == a
    ensures forall k :: 0 <= k < |trace| && trace[k].Ended? && trace[k].id == id ==> k == b
  {
    assert trace[..|trace|] == trace;
    b := WasEnded(trace, id, Complete, |trace|);
    assert Allowed(PhaseOf(trace[..b], id), trace[b], false);
    a := WasSent(trace, false, id, b);
    forall k | 0 <= k < |trace| && trace[k].Sent? && trace[k].id == id ensures k == a {
      OnlySend(trace, a, k);
    }
    forall k | 0 <= k < |trace| && trace[k].Ended? && trace[k].id == id ensures k == b {
      if k < b {
        EndedAtMostOnce(trace, k, b);
      } else if b < k {
        EndedAtMostOnce(trace, b, k);
      }
    }
  }

  lemma {:induction false} WasEnded(trace: seq<Event>, id: nat, s: Status, k: nat) returns (b: nat)
    requires k <= |trace| && EndedAs(PhaseOf(trace[..k], id), s)
    ensures b < k && trace[b] == Ended(id, s)
    decreases k
  {
    assert trace[..k][..k - 1] == trace[..k - 1];
    if trace[k - 1].id == id {
      b := k - 1;
    } else {
      b := WasEnded(trace, id, s, k - 1);
    }
  }

  lemma EndsAreFinal(trace: seq<Event>, retry: bool, id: nat)
    requires Legal(trace, retry)
    ensures !EndedAs(PhaseOf(trace, id), InFlight)
  {
    assert trace[..|trace|] == trace;
    if EndedAs(PhaseOf(trace, id), InFlight) {
      var b := WasEnded(trace, id, InFlight, |trace|);
    }
  }

  lemma OnlySend(trace: seq<Event>, a: nat, b: nat)
    requires Legal(trace, false) && a < |trace| && b < |trace|
    requires trace[a].Sent? && trace[b].Sent? && trace[a].id == trace[b].id
    ensures a == b
  {
    hide Legal;
    if a < b {
      SentAtMostOnce(trace, a, b);
    } else if b < a {
      SentAtMostOnce(trace, b, a);
    }
  }

  lemma EndedAtMostOnce(trace: seq<Event>, a: nat, b: nat)
    requires Legal(trace, false) && a < b < |trace| && trace[a].Ended? && trace[b].Ended?
    ensures trace[a].id != trace[b].id
  {
    assert Allowed(PhaseOf(trace[..b], trace[b].id), trace[b], false);
    if trace[a].id == trace[b].id {
      EndedStays(trace, false, trace[a].id, trace[a].status, a + 1, b);
    }
  }

  /** After its second request a case asks for nothing more. */
  lemma {:induction false} PastSecond(trace: seq<Event>, id: nat, a: nat, k: nat)
    requires Legal(trace, false) && a < k <= |trace| && trace[a].SentAgain? && trace[a].id == id
    ensures PhaseOf(trace[..k], id) == AskedAgain || PhaseOf(trace[..k], id).Done?
    decreases k
  {
    assert trace[..k][..k - 1] == trace[..k - 1];
    assert Allowed(PhaseOf(trace[..k - 1], trace[k - 1].id), trace[k - 1], false);
    if a < k - 1 {
      PastSecond(trace, id, a, k - 1);
    }
  }

  lemma SentAgainAtMostOnce(trace: seq<Event>, a: nat, b: nat)
    requires Legal(trace, false) && a < b < |trace| && trace[a].SentAgain? && trace[b].SentAgain?
    ensures trace[a].id != trace[b].id
  {
    assert Allowed(PhaseOf(trace[..b], trace[b].id), trace[b], false);
    if trace[a].id == trace[b].id {
      PastSecond(trace, trace[a].id, a, b);
    }
  }

  /** A case at its second request made it after its send. */
  lemma {:induction false} WasSentAgain(trace: seq<Event>, id: nat, k: nat) returns (a: nat, c: nat)
    requires Legal(trace, false) && k <= |trace| && PhaseOf(trace[..k], id) == AskedAgain
    ensures a < c < k && trace[a].Sent? && trace[a].id == id && trace[c] == SentAgain(id)
    decreases k
  {
    assert trace[..k][..k - 1] == trace[..k - 1];
    assert Allowed(PhaseOf(trace[..k - 1], trace[k - 1].id), trace[k - 1], false);
    if trace[k - 1] == SentAgain(id) {
      c := k - 1;
      a := WasSent(trace, false, id, k - 1);
    } else {
      a, c := WasSentAgain(trace, id, k - 1);
    }
  }

  // -------------------------------------------------------- runners that go through a list in order

  /** An earlier case that lets the runner go on: ended, and with strict also successful. */
  predicate Settled(p: Phase, strict: bool) {
    p.Done? && (strict ==> p.status == Complete)
  }

  ghost predicate SettledBelow(trace: seq<Event>, id: nat, strict: bool) {
    forall j: nat :: j < id ==> Settled(PhaseOf(trace, j), strict)
  }

  /** Case id is where the trace stands: earlier cases are settled and later ones not begun. */
  ghost predicate Frontier(trace: seq<Event>, id: nat, strict: bool) {
    SettledBelow(trace, id, strict) && (forall j: nat :: j > id ==> PhaseOf(trace, j) == Fresh)
  }

  /** Every event concerned the case at the frontier. */
  ghost predicate InOrder(trace: seq<Event>, strict: bool) {
    forall k :: 0 <= k < |trace| ==> Frontier(trace[..k], trace[k].id, strict)
  }

  lemma InOrderStep(trace: seq<Event>, e: Event, strict: bool)
    requires InOrder(trace, strict) && Frontier(trace, e.id, strict)
    ensures InOrder(trace + [e], strict)
  {
    hide Frontier;
    var t := trace + [e];
    assert t[..|trace|] == trace;
    forall k | 0 <= k < |t| ensures Frontier(t[..k], t[k].id, strict) {
      if k < |trace| {
        assert t[..k] == trace[..k] && t[k] == trace[k];
      }
    }
  }

  lemma FrontierStep(trace: seq<Event>, e: Event, strict: bool)
    requires Frontier(trace, e.id, strict)
    ensures Frontier(trace + [e], e.id, strict)
  {
    hide PhaseOf;
    forall j: nat ensures PhaseOf(trace + [e], j) == After(PhaseOf(trace, j), j, e) {
      PhaseStep(trace, e, j);
    }
  }

  lemma FrontierBelow(trace: seq<Event>, id: nat, strict: bool)
    requires Frontier(trace, id, strict)
    ensures SettledBelow(trace, id, strict) && forall j: nat :: j > id ==> PhaseOf(trace, j) == Fresh
  {
  }

  /** A trace in order stands at the case of its last event. */
  lemma LastFrontier(trace: seq<Event>, strict: bool) returns (f: nat)
    requires InOrder(trace, strict)
    ensures Frontier(trace, f, strict) && (trace == [] ==> f == 0)
    ensures trace != [] ==> f == trace[|trace| - 1].id
  {
    if trace == [] {
      f := 0;
    } else {
      var n := |trace| - 1;
      f := trace[n].id;
      FrontierStep(trace[..n], trace[n], strict);
      assert trace[..n] + [trace[n]] == trace;
    }
  }

  lemma InOrderPrefix(trace: seq<Event>, strict: bool, k: nat)
    requires InOrder(trace, strict) && k <= |trace|
    ensures InOrder(trace[..k], strict)
  {
    hide Frontier;
    forall j | 0 <= j < k ensures Frontier(trace[..k][..j], trace[..k][j].id, strict) {
      assert trace[..k][..j] == trace[..j];
    }
  }

  /** When all cases before id are settled and id is not, the trace stands at id. */
  lemma FrontierHere(trace: seq<Event>, id: nat, strict: bool)
    requires InOrder(trace, strict)
    requires SettledBelow(trace, id, strict) && !Settled(PhaseOf(trace, id), strict)
    ensures Frontier(trace, id, strict)
  {
    hide PhaseOf;
    var f := LastFrontier(trace, strict);
    assert f > id ==> Settled(PhaseOf(trace, id), strict);
    assert f < id ==> PhaseOf(trace, id) == Fresh;
  }

  predicate Pending(p: Phase) {
    p == Begun || p == Asked || p == AskedAgain || p == Tracked
  }

  /** At every moment at most one case is in flight. */
  lemma OneInFlight(trace: seq<Event>, strict: bool, k: nat, i: nat, j: nat)
    requires InOrder(trace, strict) && k <= |trace|
    requires Pending(PhaseOf(trace[..k], i)) && Pending(PhaseOf(trace[..k], j))
    ensures i == j
  {
    hide PhaseOf;
    InOrderPrefix(trace, strict, k);
    var f := LastFrontier(trace[..k], strict);
    assert forall c: nat :: Pending(PhaseOf(trace[..k], c)) ==> c == f;
  }

  /** Sends never go back in the list; without retries they go strictly forward. */
  lemma SendsAscend(trace: seq<Event>, retry: bool, strict: bool, a: nat, b: nat)
    requires Legal(trace, retry) && InOrder(trace, strict) && a < b < |trace| && trace[a].Sent? && trace[b].Sent?
    ensures trace[a].id <= trace[b].id && (!retry ==> trace[a].id < trace[b].id)
  {
    if !retry {
      SentAtMostOnce(trace, a, b);
    }
    NotFreshAgain(trace, retry, trace[a].id, a, b);
    assert Frontier(trace[..b], trace[b].id, strict);
  }

  lemma SettledThrough(trace: seq<Event>, id: nat, strict: bool)
    requires Frontier(trace, id, strict) && Settled(PhaseOf(trace, id), strict)
    ensures SettledBelow(trace, id + 1, strict)
  {
    hide PhaseOf;
  }

  /** A case that waits at the frontier unbegun leaves nothing in flight. */
  lemma NothingInFlight(trace: seq<Event>, id: nat, strict: bool)
    requires Frontier(trace, id, strict) && !Pending(PhaseOf(trace, id))
    ensures forall j: nat :: !Pending(PhaseOf(trace, j))
  {
    hide PhaseOf;
    forall j: nat ensures !Pending(PhaseOf(trace, j)) {
      assert j < id ==> Settled(PhaseOf(trace, j), strict);
      assert j > id ==> PhaseOf(trace, j) == Fresh;
    }
  }

  lemma {:induction false} NotFreshAgain(trace: seq<Event>, retry: bool, id: nat, a: nat, k: nat)
    requires Legal(trace, retry) && a < k <= |trace| && trace[a].id == id
    ensures PhaseOf(trace[..k], id) != Fresh
    decreases k
  {
    assert trace[..k][..k - 1] == trace[..k - 1];
    if a < k - 1 {
      NotFreshAgain(trace, retry, id, a, k - 1);
    }
  }

  // -------------------------------------------------------- a disk that survives crashes

  /** The record a phase leaves on disk. */
  function RecordOf(p: Phase): Option<Record> {
    match p
    case Fresh => None
    case Begun => Some(Record(InFlight, false))
    case Asked => Some(Record(InFlight, false))
    case AskedAgain => Some(Record(InFlight, false))
    case Tracked => Some(Record(InFlight, true))
    case Done(s, task) => Some(Record(s, task))
  }

  function Lookup(records: map<nat, Record>, id: nat): Option<Record> {
    if id in records then Some(records[id]) else None
  }

  /** records is what reached the disk, trace everything that happened. lives is the number of actions
      until the running process dies; an action of a dead process has no effect. */
  class Disk {
    const retry: bool
    var records: map<nat, Record>
    var trace: seq<Event>
    var clock: real
    var lives: nat

    constructor (retry: bool, clock: real)
      ensures Valid() && records == map[] && trace == [] && this.retry == retry && this.clock == clock
    {
      this.retry, this.clock, records, trace, lives := retry, clock, map[], [], 0;
    }

    ghost predicate Valid()
      reads this
    {
      Legal(trace, retry) && forall id: nat :: Lookup(records, id) == RecordOf(PhaseOf(trace, id))
    }

    /** A new process starts, with any number of actions ahead of it. */
    method Start()
      requires Valid()
      modifies `lives
      ensures Valid()
    {
      lives := *;
    }

    /** Time passes, at least until target. */
    method Wait(target: real)
      requires Valid()
      modifies `clock
      ensures Valid() && clock >= old(clock) && clock >= target
    {
      var later: real := *;
      clock := if later < clock then clock else later;
      clock := if clock < target then target else clock;
    }

    /** The process does something that leaves no record. */
    method Tick() returns (alive: bool)
      requires Valid()
      modifies `lives
      ensures Valid() && (alive <==> old(lives) > 0) && lives == if alive then old(lives) - 1 else 0
    {
      alive := lives != 0;
      lives := if alive then lives - 1 else 0;
    }

    /** One durable record write or one send; alive says whether it happened. */
    method Act(e: Event) returns (alive: bool)
      requires Valid() && Allowed(PhaseOf(trace, e.id), e, retry) && (e.Sent? ==> e.at == clock)
      modifies `records, `trace, `lives, `clock
      ensures Valid() && clock >= old(clock)
      ensures trace == if alive then old(trace) + [e] else old(trace)
      ensures !alive ==> records == old(records)
      ensures (alive <==> old(lives) > 0) && lives == if alive then old(lives) - 1 else 0
    {
      hide Legal, Allowed, PhaseOf;
      Wait(clock);
      if lives == 0 {
        return false;
      }
      lives := lives - 1;
      ghost var before := trace;
      LegalStep(trace, e, retry);
      trace := trace + [e];
      records := match e
        case Began(id) => records[id := Record(InFlight, false)]
        case Sent(_, _) => records
        case SentAgain(_) => records
        case TaskSaved(id) => records[id := Record(InFlight, true)]
        case Ended(id, s) => records[id := Record(s, id in records && records[id].task)];
      forall id: nat ensures Lookup(records, id) == RecordOf(PhaseOf(trace, id)) {
        PhaseStep(before, e, id);
        AllowedRecord(PhaseOf(before, e.id), e, retry);
      }
      return true;
    }

    /** An action, and what it does to the phase of every case. */
    method Log(e: Event) returns (alive: bool)
      requires Valid() && Allowed(PhaseOf(trace, e.id), e, retry) && (e.Sent? ==> e.at == clock)
      modifies `records, `trace, `lives, `clock
      ensures Valid() && clock >= old(clock)
      ensures (alive <==> old(lives) > 0) && lives == if alive then old(lives) - 1 else 0
      ensures trace == if alive then old(trace) + [e] else old(trace)
      ensures forall j: nat :: PhaseOf(trace, j) ==
                               if alive then After(old(PhaseOf(trace, j)), j, e) else old(PhaseOf(trace, j))
    {
      hide Valid, Allowed, PhaseOf;
      ghost var before := trace;
      alive := Act(e);
      forall j: nat ensures PhaseOf(before + [e], j) == After(PhaseOf(before, j), j, e) {
        PhaseStep(before, e, j);
      }
    }

    /** An action of the case at the frontier of an ordered list. */
    method LogNext(e: Event, strict: bool) returns (alive: bool)
      requires Valid() && Allowed(PhaseOf(trace, e.id), e, retry) && (e.Sent? ==> e.at == clock)
      requires InOrder(trace, strict) && Frontier(trace, e.id, strict)
      modifies `records, `trace, `lives, `clock
      ensures Valid() && clock >= old(clock)
      ensures (alive <==> old(lives) > 0) && lives == if alive then old(lives) - 1 else 0
      ensures InOrder(trace, strict) && Frontier(trace, e.id, strict)
      ensures trace == if alive then old(trace) + [e] else old(trace)
      ensures forall j: nat :: PhaseOf(trace, j) ==
                               if alive then After(old(PhaseOf(trace, j)), j, e) else old(PhaseOf(trace, j))
    {
      hide Valid, Allowed, PhaseOf, InOrder, Frontier;
      ghost var before := trace;
      alive := Log(e);
      InOrderStep(before, e, strict);
      FrontierStep(before, e, strict);
    }

    /** What the record of a case says about its phase. */
    lemma RecordShows(id: nat)
      requires Valid()
      ensures id !in records <==> PhaseOf(trace, id) == Fresh
      ensures id in records && records[id].status == InFlight
              ==> Pending(PhaseOf(trace, id)) && (records[id].task <==> PhaseOf(trace, id) == Tracked)
      ensures id in records && records[id].status != InFlight
              ==> PhaseOf(trace, id) == Done(records[id].status, records[id].task)
    {
      hide PhaseOf, Legal;
      assert Lookup(records, id) == RecordOf(PhaseOf(trace, id));
      EndsAreFinal(trace, retry, id);
    }
  }

  /** How each event changes the record of its case. */
  lemma AllowedRecord(p: Phase, e: Event, retry: bool)
    requires Allowed(p, e, retry)
    ensures e.Sent? || e.SentAgain? ==> RecordOf(Advance(p, e)) == RecordOf(p)
    ensures e.Began? ==> RecordOf(Advance(p, e)) == Some(Record(InFlight, false))
    ensures e.TaskSaved? ==> RecordOf(Advance(p, e)) == Some(Record(InFlight, true))
    ensures e.Ended? ==> RecordOf(p).Some? && RecordOf(Advance(p, e)) == Some(Record(e.status, RecordOf(p).value.task))
  {
  }
}
