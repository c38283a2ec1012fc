/** Single requests behind a replay guard. */
module UsableRequest {
  import opened Basics
  import opened RunTrace

  /** Refuses when the identifier has a record; otherwise records it as in flight, sends it, and records
      success or a transport failure. ok says whether the transport gets through. */
  method Request(disk: Disk, id: nat, ok: bool) returns (code: Option<nat>)
    requires disk.Valid() && !disk.retry
    modifies disk
    ensures disk.Valid() && old(disk.trace) <= disk.trace
    ensures old(PhaseOf(disk.trace, id)) != Fresh ==> disk.trace == old(disk.trace) && code == Some(1)
    ensures old(PhaseOf(disk.trace, id)) == Fresh && code.Some? ==>
              code == Some(if ok then 0 else 1) && exists at: real ::
                disk.trace == old(disk.trace) + [Began(id), Sent(id, at), Ended(id, if ok then Complete else Failed)]
    ensures code == None ==> disk.lives == 0 && old(disk.lives) < 3
    ensures forall j: nat :: j != id ==> PhaseOf(disk.trace, j) == old(PhaseOf(disk.trace, j))
  {
    hide disk.Valid, PhaseOf;
    disk.RecordShows(id);
    if id in disk.records {
      return Some(1);
    }
    var alive := disk.Log(Began(id));
    if alive {
      alive := disk.Log(Sent(id, disk.clock));
    }
    if alive {
      alive := disk.Log(Ended(id, if ok then Complete else Failed));
    }
    return if !alive then None else if ok then Some(0) else Some(1);
  }

  /** Any number of invocations with any identifiers, each dying at any point: no identifier is ever
      sent twice. */
  method Requests(ids: seq<nat>) returns (disk: Disk)
    ensures fresh(disk) && disk.Valid()
    ensures forall a, b :: 0 <= a < b < |disk.trace| && disk.trace[a].Sent? && disk.trace[b].Sent?
                           ==> disk.trace[a].id != disk.trace[b].id
  {
    hide disk.Valid, PhaseOf;
    disk := new Disk(false, 0.0);
    for n := 0 to |ids|
      invariant fresh(disk) && disk.Valid() && !disk.retry
    {
      disk.Start();
      var ok: bool := *;
      var code := Request(disk, ids[n], ok);
    }
    NoneTwice(disk);
  }

  lemma NoneTwice(disk: Disk)
    requires disk.Valid() && !disk.retry
    ensures forall a, b :: 0 <= a < b < |disk.trace| && disk.trace[a].Sent? && disk.trace[b].Sent?
                           ==> disk.trace[a].id != disk.trace[b].id
  {
    hide PhaseOf, Legal;
    forall a, b | 0 <= a < b < |disk.trace| && disk.trace[a].Sent? && disk.trace[b].Sent?
      ensures disk.trace[a].id != disk.trace[b].id
    {
      SentAtMostOnce(disk.trace, a, b);
    }
  }
}
