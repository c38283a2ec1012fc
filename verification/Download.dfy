/** Resumable download of one byte range into a file, over a connection that may refuse,
    truncate or break any response. */
module Download {
  import opened Basics
  import opened Bytes

  /** What the client can observe of one response. total is Unknown for a "*" complete length. */
  datatype Total = Known(size: nat) | Unknown

  datatype Reply =
    | NoResponse
    | Response(status: int, first: nat, last: nat, total: Total, length: int, chunks: seq<seq<byte>>, broken: bool)

  /** The strict acceptance rule: partial content, exactly the requested range, known total,
      matching length. */
  predicate Accepted(r: Reply, start: int, end: int) {
    r.Response? && 0 <= start <= end && r.status == 206 && r.total.Known? &&
    r.first == start && r.last == end && r.length == end - start + 1
  }

  /** The pinned source, with all replies it has given. A response whose headers claim a
      range carries a prefix of exactly that range; anything else may happen freely. */
  class Server {
    const source: seq<byte>
    ghost var replies: seq<Reply>

    constructor (source: seq<byte>)
      ensures this.source == source && replies == []
    {
      this.source, replies := source, [];
    }

    method Get(start: int, end: int) returns (r: Reply)
      modifies this
      ensures replies == old(replies) + [r]
      ensures Accepted(r, start, end) ==> end < |source| && Concat(r.chunks) <= source[start..end + 1]
    {
      r := NoResponse;
      if * {
        r :| Accepted(r, start, end) ==> end < |source| && Concat(r.chunks) <= source[start..end + 1];
      }
      replies := replies + [r];
    }
  }

  datatype Content = Absent | Present(data: seq<byte>)

  function Size(c: Content): nat {
    if c.Absent? then 0 else |c.data|
  }

  class RangeFile {
    var content: Content

    constructor (content: Content)
      ensures this.content == content
    {
      this.content := content;
    }

    /** Opens for append when something is there already, otherwise creates or truncates, then
        writes the non-empty chunks. */
    method Store(chunks: seq<seq<byte>>) returns (wrote: nat)
      modifies this
      ensures content == Present((if Size(old(content)) > 0 then old(content).data else []) + Concat(chunks))
      ensures wrote == |Concat(chunks)|
    {
      var base := if Size(content) > 0 then content.data else [];
      content := Present(base);
      wrote := 0;
      for i := 0 to |chunks|
        invariant content == Present(base + Concat(chunks[..i])) && wrote == |Concat(chunks[..i])|
      {
        assert chunks[..i + 1][..i] == chunks[..i];
        if chunks[i] != [] {
          content := Present(content.data + chunks[i]);
          wrote := wrote + |chunks[i]|;
        }
        assert base + (Concat(chunks[..i]) + chunks[i]) == base + Concat(chunks[..i + 1]);
      }
      assert chunks[..|chunks|] == chunks;
    }
  }

  /** What is on disk is a prefix of the source from start on. */
  ghost predicate Faithful(c: Content, source: seq<byte>, start: nat) {
    c.Present? && c.data != [] ==> start + |c.data| <= |source| && c.data == source[start..start + |c.data|]
  }

  datatype Outcome = Complete(nbytes: nat, attempts: nat) | Oversized | Exhausted | NoFile

  function Limit(maxAttempts: int): nat {
    if maxAttempts < 0 then 0 else maxAttempts
  }

  lemma AppendFaithful(c: Content, source: seq<byte>, start: nat, end: nat, more: seq<byte>)
    requires Faithful(c, source, start) && start + Size(c) <= end < |source|
    requires more <= source[start + Size(c)..end + 1]
    ensures Faithful(Present((if Size(c) > 0 then c.data else []) + more), source, start)
  {
    var n := Size(c);
    var held := if n > 0 then c.data else [];
    assert more == source[start + n..end + 1][..|more|] == source[start + n..start + n + |more|];
    assert held == source[start..start + n];
    assert held + more == source[start..start + n + |more|];
  }

  /** A reply that counts as a success: accepted, not broken off and not empty. */
  predicate Usable(r: Reply, from: int, end: int) {
    Accepted(r, from, end) && !r.broken && Concat(r.chunks) != []
  }

  /** What the file holds after a reply: the chunks of an accepted one are added even if it breaks off. */
  function Received(c: Content, r: Reply, start: nat, end: int): Content {
    if Accepted(r, start + Size(c), end) then Present((if Size(c) > 0 then c.data else []) + Concat(r.chunks)) else c
  }

  /** One request and what reaches the file: all chunks of a 206 response with exactly the requested range, a known
      total and the right length. It failed when the response is not such a one, breaks off or is empty. */
  method Attempt(net: Server, f: RangeFile, start: nat, end: nat) returns (failed: bool)
    requires Faithful(f.content, net.source, start) && start + Size(f.content) <= end
    modifies net, f
    ensures Faithful(f.content, net.source, start)
    ensures Size(old(f.content)) <= Size(f.content) <= end + 1 - start
    ensures exists r ::
              net.replies == old(net.replies) + [r] &&
              var from := start + Size(old(f.content));
              var partial := r.Response? && r.status == 206 && r.first == from && r.last == end && r.total.Known?
                             && r.length == end - from + 1;
              (failed <==> !partial || r.broken || Concat(r.chunks) == []) &&
              f.content == (if partial then
                              Present((if from > start then old(f.content).data else []) + Concat(r.chunks))
                            else old(f.content))
    ensures exists r ::
              net.replies == old(net.replies) + [r] && (failed <==> !Usable(r, start + Size(old(f.content)), end)) &&
              f.content == Received(old(f.content), r, start, end)
  {
    var cur := Size(f.content);
    var r := net.Get(start + cur, end);
    if !Accepted(r, start + cur, end) {
      return true;
    }
    AppendFaithful(f.content, net.source, start, end, Concat(r.chunks));
    var wrote := f.Store(r.chunks);
    return r.broken || wrote == 0;
  }

  /** held[i] is what the file holds before reply i of this call: the replies decide how it goes. */
  ghost predicate Follows(held: seq<Content>, replies: seq<Reply>, start: nat, end: int) {
    |held| == |replies| + 1 &&
    forall i :: 0 <= i < |replies| ==> held[i + 1] == Received(held[i], replies[i], start, end)
  }

  /** Reply i is the first to bring the file to its full size, and it does not fail. */
  ghost predicate Completes(held: seq<Content>, replies: seq<Reply>, i: nat, start: nat, endExclusive: int)
    requires i < |replies| && |held| == |replies| + 1
  {
    Usable(replies[i], start + Size(held[i]), endExclusive - 1) && Size(held[i + 1]) == endExclusive - start
  }

  /** The state of a download that began with a file of content first: every reply so far found it unfinished. */
  ghost predicate Going(held: seq<Content>, replies: seq<Reply>, first: Content, c: Content, start: nat,
                        endExclusive: int)
  {
    Follows(held, replies, start, endExclusive - 1) && held[0] == first && held[|replies|] == c
    && forall i :: 0 <= i < |replies| ==> Size(held[i]) < endExclusive - start
  }

  lemma GoingStarts(c: Content, start: nat, endExclusive: int)
    ensures Going([c], [], c, c, start, endExclusive)
  {
  }

  lemma GoingOn(held: seq<Content>, replies: seq<Reply>, first: Content, c: Content, start: nat, endExclusive: int,
                r: Reply, next: Content)
    requires Going(held, replies, first, c, start, endExclusive) && Size(c) < endExclusive - start
    requires next == Received(c, r, start, endExclusive - 1)
    ensures Going(held + [next], replies + [r], first, next, start, endExclusive)
  {
    hide Received;
  }

  /** Once full the file gets no further request. */
  lemma OnlyLast(held: seq<Content>, replies: seq<Reply>, first: Content, c: Content, start: nat, endExclusive: int)
    requires Going(held, replies, first, c, start, endExclusive)
    ensures |held| == |replies| + 1 && held[0] == first && held[|replies|] == c
    ensures forall i :: 0 <= i < |replies| ==>
              Size(held[i]) < endExclusive - start
              && held[i + 1] == Received(held[i], replies[i], start, endExclusive - 1)
    ensures forall i :: 0 <= i < |replies| && Completes(held, replies, i, start, endExclusive) ==>
              i == |replies| - 1 && Size(c) == endExclusive - start &&
              Usable(replies[|replies| - 1], start + Size(held[|replies| - 1]), endExclusive - 1)
  {
    hide Usable, Received;
  }

  lemma LastBefore(held: seq<Content>, replies: seq<Reply>, first: Content, c: Content, start: nat,
                   endExclusive: int, r: Reply, next: Content)
    requires Going(held, replies, first, c, start, endExclusive)
    ensures |held| == |replies| + 1 && (held + [next])[|replies|] == c && (replies + [r])[|replies|] == r
  {
  }

  lemma WholeSlice(c: Content, source: seq<byte>, start: nat, endExclusive: int)
    requires Faithful(c, source, start)
    ensures c.Present? && start < endExclusive && |c.data| == endExclusive - start ==>
              endExclusive <= |source| && c.data == source[start..endExclusive]
  {
  }

  /** One more request of a download. */
  method Again(net: Server, f: RangeFile, start: nat, endExclusive: int, ghost first: Content,
               ghost held: seq<Content>, ghost got: seq<Reply>)
    returns (failed: bool, ghost nowHeld: seq<Content>, ghost nowGot: seq<Reply>)
    requires Going(held, got, first, f.content, start, endExclusive) && Size(f.content) < endExclusive - start
    requires Faithful(f.content, net.source, start)
    modifies net, f
    ensures Going(nowHeld, nowGot, first, f.content, start, endExclusive)
    ensures |nowGot| == |got| + 1 && |nowHeld| == |nowGot| + 1 && nowHeld[|got|] == old(f.content)
    ensures net.replies == old(net.replies) + nowGot[|got|..] && nowGot[..|got|] == got
    ensures failed <==> !Usable(nowGot[|got|], start + Size(old(f.content)), endExclusive - 1)
    ensures Faithful(f.content, net.source, start)
    ensures Size(old(f.content)) <= Size(f.content) <= endExclusive - start
  {
    hide Accepted, Usable, Received, Going, Faithful;
    ghost var before, c := net.replies, f.content;
    failed := Attempt(net, f, start, endExclusive - 1);
    ghost var r :| net.replies == before + [r] && (failed <==> !Usable(r, start + Size(c), endExclusive - 1))
                   && f.content == Received(c, r, start, endExclusive - 1);
    GoingOn(held, got, first, c, start, endExclusive, r, f.content);
    LastBefore(held, got, first, c, start, endExclusive, r, f.content);
    nowHeld, nowGot := held + [f.content], got + [r];
  }

  method DownloadOne(net: Server, f: RangeFile, start: nat, endExclusive: int, maxAttempts: int)
    returns (out: Outcome, ghost held: seq<Content>, ghost got: seq<Reply>)
    requires Faithful(f.content, net.source, start)
    modifies net, f
    ensures net.replies == old(net.replies) + got && |got| <= Limit(maxAttempts)
    ensures |held| == |got| + 1 && held[0] == old(f.content) && held[|got|] == f.content
    ensures forall i :: 0 <= i < |got| ==>
              Size(held[i]) < endExclusive - start && held[i + 1] == Received(held[i], got[i], start, endExclusive - 1)
    ensures Faithful(f.content, net.source, start) && Size(old(f.content)) <= Size(f.content)
    ensures forall i :: 0 <= i < |got| && Completes(held, got, i, start, endExclusive) ==>
              out == Complete(endExclusive - start, i + 1)
    ensures out.Complete? ==>
              f.content.Present? && |f.content.data| == out.nbytes == endExclusive - start && out.attempts == |got|
    ensures out.Complete? && start < endExclusive ==>
              endExclusive <= |net.source| && f.content.data == net.source[start..endExclusive]
    ensures out.Exhausted? ==> |got| == Limit(maxAttempts)
    ensures out.Exhausted? && got != [] ==>
              Size(f.content) < endExclusive - start ||
              !Usable(got[|got| - 1], start + Size(held[|got| - 1]), endExclusive - 1)
    ensures old(f.content).Present? && Size(old(f.content)) == endExclusive - start ==>
              out == Complete(endExclusive - start, 0)
    ensures out.Oversized? <==> old(f.content).Present? && Size(old(f.content)) > endExclusive - start
    ensures out.NoFile? <==> old(f.content).Absent? && endExclusive <= start
  {
    hide Accepted, Usable, Received, Going, Completes, Faithful;
    var expected := endExclusive - start;
    held, got := [f.content], [];
    GoingStarts(f.content, start, endExclusive);
    if f.content.Present? && Size(f.content) > expected {
      OnlyLast(held, got, old(f.content), f.content, start, endExclusive);
      return Oversized, held, got;
    }
    var attempts := 0;
    while Size(f.content) < expected
      invariant 0 <= attempts <= Limit(maxAttempts) && |got| == attempts && net.replies == old(net.replies) + got
      invariant Going(held, got, old(f.content), f.content, start, endExclusive)
      invariant Faithful(f.content, net.source, start) && Size(old(f.content)) <= Size(f.content)
      invariant f.content.Present? ==> |f.content.data| <= expected
      invariant expected <= 0 ==> f.content == old(f.content)
      invariant Size(old(f.content)) == expected ==> attempts == 0
      decreases Limit(maxAttempts) - attempts
    {
      if attempts + 1 > maxAttempts {
        OnlyLast(held, got, old(f.content), f.content, start, endExclusive);
        return Exhausted, held, got;
      }
      attempts := attempts + 1;
      ghost var before := got;
      var failed;
      failed, held, got := Again(net, f, start, endExclusive, old(f.content), held, got);
      assert got == before + got[|before|..];
      if failed && attempts >= maxAttempts {
        OnlyLast(held, got, old(f.content), f.content, start, endExclusive);
        return Exhausted, held, got;
      }
    }
    OnlyLast(held, got, old(f.content), f.content, start, endExclusive);
    WholeSlice(f.content, net.source, start, endExclusive);
    if f.content.Absent? {
      return NoFile, held, got;
    }
    return Complete(expected, attempts), held, got;
  }
}
