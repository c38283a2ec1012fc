/** Positional writes into a set of files: interrupted and repeated sequences of them,
    sequences of adjacent ones, and disjoint ones in any order. */
module FileWrites {
  import opened Basics
  import opened Bytes
  import opened PatchHash

  // ------------------------------------------------------------ positional writes

  type Files = map<string, seq<byte>>

  datatype Write = Write(shard: string, off: nat, blob: seq<byte>)

  predicate Fits(files: Files, w: Write) {
    w.shard in files && w.off + |w.blob| <= |files[w.shard]|
  }

  ghost predicate SameShape(f: Files, g: Files) {
    f.Keys == g.Keys && forall shard :: shard in f ==> |f[shard]| == |g[shard]|
  }

  function Splice(s: seq<byte>, off: nat, blob: seq<byte>): (t: seq<byte>)
    requires off + |blob| <= |s|
    ensures |t| == |s|
    ensures forall p :: 0 <= p < |s| ==> t[p] == (if off <= p < off + |blob| then blob[p - off] else s[p])
  {
    s[..off] + blob + s[off + |blob|..]
  }

  function Apply(files: Files, w: Write): (g: Files)
    requires Fits(files, w)
    ensures SameShape(files, g)
  {
    files[w.shard := Splice(files[w.shard], w.off, w.blob)]
  }

  /** A write changes the bytes it covers and no others. */
  lemma ApplyMeans(files: Files, w: Write, shard: string, p: nat)
    requires Fits(files, w) && shard in files && p < |files[shard]|
    ensures shard in Apply(files, w) && |Apply(files, w)[shard]| == |files[shard]|
    ensures Apply(files, w)[shard][p] ==
            if shard == w.shard && w.off <= p < w.off + |w.blob| then w.blob[p - w.off] else files[shard][p]
  {
  }

  ghost predicate AllFit(files: Files, ws: seq<Write>) {
    forall i :: 0 <= i < |ws| ==> Fits(files, ws[i])
  }

  ghost function ApplyAll(files: Files, ws: seq<Write>): (g: Files)
    requires AllFit(files, ws)
    ensures SameShape(files, g)
    decreases |ws|
  {
    if ws == [] then files else ApplyAll(Apply(files, ws[0]), ws[1..])
  }

  predicate Covers(w: Write, shard: string, pos: int) {
    w.shard == shard && w.off <= pos < w.off + |w.blob|
  }

  ghost predicate AnyCovers(ws: seq<Write>, shard: string, pos: int) {
    exists i :: 0 <= i < |ws| && Covers(ws[i], shard, pos)
  }

  lemma {:induction false} ApplyAppend(files: Files, a: seq<Write>, b: seq<Write>)
    requires AllFit(files, a) && AllFit(files, b)
    ensures AllFit(files, a + b) && AllFit(ApplyAll(files, a), b)
    ensures ApplyAll(files, a + b) == ApplyAll(ApplyAll(files, a), b)
    decreases |a|
  {
    hide Apply;
    if a == [] {
      assert a + b == b;
    } else {
      ApplyAppend(Apply(files, a[0]), a[1..], b);
      assert (a + b)[1..] == a[1..] + b && (a + b)[0] == a[0];
    }
  }

  // --------------------------------------- interrupted and repeated write sequences

  /** Same files up to the bytes that ws is going to overwrite. */
  ghost predicate AgreeOff(f: Files, g: Files, ws: seq<Write>) {
    SameShape(f, g) &&
    forall shard, p :: shard in f && 0 <= p < |f[shard]| && !AnyCovers(ws, shard, p) ==> f[shard][p] == g[shard][p]
  }

  /** What a write sequence leaves behind depends on the start only off the written bytes. */
  lemma {:induction false} WritesForget(f: Files, g: Files, ws: seq<Write>)
    requires AgreeOff(f, g, ws) && AllFit(f, ws)
    ensures AllFit(g, ws) && ApplyAll(f, ws) == ApplyAll(g, ws)
    decreases |ws|
  {
    if ws == [] {
      forall shard | shard in f ensures f[shard] == g[shard] {
        assert forall p :: 0 <= p < |f[shard]| ==> !AnyCovers(ws, shard, p);
        assert forall p :: 0 <= p < |f[shard]| ==> f[shard][p] == g[shard][p];
      }
      assert f == g;
    } else {
      WritesForget(Apply(f, ws[0]), Apply(g, ws[0]), ws[1..]);
    }
  }

  lemma {:induction false} OnlyWrittenChange(f: Files, ws: seq<Write>)
    requires AllFit(f, ws)
    ensures AgreeOff(f, ApplyAll(f, ws), ws)
    decreases |ws|
  {
    if ws != [] {
      var f1, g := Apply(f, ws[0]), ApplyAll(f, ws);
      OnlyWrittenChange(f1, ws[1..]);
      forall shard, p | shard in f && 0 <= p < |f[shard]| && !AnyCovers(ws, shard, p)
        ensures f[shard][p] == g[shard][p]
      {
      }
    }
  }

  function Truncated(w: Write, t: nat): Write
    requires t <= |w.blob|
  {
    w.(blob := w.blob[..t])
  }

  /** Whether a sequence of writes stopped between two of them or inside one. */
  datatype Tear = Clean | Inside(bytes: nat)

  ghost predicate TornAt(ws: seq<Write>, n: nat, tear: Tear) {
    n <= |ws| && (tear.Inside? ==> n < |ws| && tear.bytes <= |ws[n].blob|)
  }

  /** The first n writes and, if torn, the first bytes of the next one. */
  ghost function Torn(ws: seq<Write>, n: nat, tear: Tear): seq<Write>
    requires TornAt(ws, n, tear)
  {
    if tear.Clean? then ws[..n] else ws[..n] + [Truncated(ws[n], tear.bytes)]
  }

  lemma TornMeans(ws: seq<Write>, n: nat, k: nat)
    requires n < |ws| && k <= |ws[n].blob|
    ensures TornAt(ws, n, Clean) && Torn(ws, n, Clean) == ws[..n]
    ensures TornAt(ws, |ws|, Clean) && Torn(ws, |ws|, Clean) == ws
    ensures TornAt(ws, n, Inside(k))
            && Torn(ws, n, Inside(k)) == ws[..n] + [Write(ws[n].shard, ws[n].off, ws[n].blob[..k])]
  {
  }

  /** Dying after any number of writes, even inside one, and then running in full gives the
      files of one clean run. */
  lemma InterruptedThenRerun(files: Files, ws: seq<Write>, n: nat, tear: Tear)
    requires AllFit(files, ws) && TornAt(ws, n, tear)
    ensures AllFit(files, Torn(ws, n, tear)) && AllFit(ApplyAll(files, Torn(ws, n, tear)), ws)
    ensures ApplyAll(ApplyAll(files, Torn(ws, n, tear)), ws) == ApplyAll(files, ws)
  {
    var torn := Torn(ws, n, tear);
    assert AllFit(files, torn);
    var g := ApplyAll(files, torn);
    OnlyWrittenChange(files, torn);
    forall shard, p | shard in files && 0 <= p < |files[shard]| && !AnyCovers(ws, shard, p)
      ensures files[shard][p] == g[shard][p]
    {
    }
    WritesForget(files, g, ws);
  }

  lemma SpliceAdjacent(s: seq<byte>, off: nat, a: seq<byte>, b: seq<byte>)
    requires off + |a| + |b| <= |s|
    ensures Splice(Splice(s, off, a), off + |a|, b) == Splice(s, off, a + b)
  {
  }

  /** Two writes side by side are one longer write. */
  lemma AdjacentWrites(files: Files, shard: string, off: nat, a: seq<byte>, b: seq<byte>)
    requires Fits(files, Write(shard, off, a + b))
    ensures Fits(files, Write(shard, off, a)) && Fits(Apply(files, Write(shard, off, a)), Write(shard, off + |a|, b))
    ensures Apply(Apply(files, Write(shard, off, a)), Write(shard, off + |a|, b))
            == Apply(files, Write(shard, off, a + b))
  {
    SpliceAdjacent(files[shard], off, a, b);
  }

  lemma EmptyWrite(files: Files, w: Write)
    requires Fits(files, w) && w.blob == []
    ensures Apply(files, w) == files
  {
    assert Splice(files[w.shard], w.off, []) == files[w.shard];
  }

  lemma SameShapeFits(files: Files, g: Files, w: Write)
    requires SameShape(files, g) && Fits(files, w)
    ensures Fits(g, w)
  {
  }

  lemma OneWrite(files: Files, w: Write)
    requires Fits(files, w)
    ensures AllFit(files, [w]) && ApplyAll(files, [w]) == Apply(files, w)
  {
    hide Apply;
    assert [w][1..] == [];
  }

  // ------------------------------------------------------- adjacent chunks of one payload

  /** One write per chunk, each where the previous one ends. */
  function ChunkWrites(shard: string, off: nat, blobs: seq<seq<byte>>): seq<Write>
    decreases |blobs|
  {
    if blobs == [] then [] else
      [Write(shard, off, blobs[0])] + ChunkWrites(shard, off + |blobs[0]|, blobs[1..])
  }

  lemma NothingJoined()
    ensures Concat<byte>([]) == []
  {
  }

  /** The chunks tile: together they are exactly one write of the whole payload. */
  lemma {:induction false} ChunksTile(files: Files, shard: string, off: nat, blobs: seq<seq<byte>>)
    requires Fits(files, Write(shard, off, Concat(blobs)))
    ensures AllFit(files, ChunkWrites(shard, off, blobs))
    ensures ApplyAll(files, ChunkWrites(shard, off, blobs)) == Apply(files, Write(shard, off, Concat(blobs)))
    decreases |blobs|
  {
    hide Apply, Concat;
    if blobs == [] {
      NothingJoined();
      EmptyWrite(files, Write(shard, off, []));
    } else {
      var first, rest := Write(shard, off, blobs[0]), Concat(blobs[1..]);
      ConcatFront(blobs);
      AdjacentWrites(files, shard, off, blobs[0], rest);
      ChunksTile(Apply(files, first), shard, off + |blobs[0]|, blobs[1..]);
    }
  }

  // ---------------------------------------------------- files written one call at a time

  /** The shard files of the copied artifact, patched in place; log is what was written. */
  class Artifact {
    const initial: Files
    const accepts: nat -> nat
    var files: Files
    var writes: nat
    ghost var log: seq<Write>

    ghost predicate Valid()
      reads this
    {
      AllFit(initial, log) && files == ApplyAll(initial, log) && writes == |log|
    }

    constructor (initial: Files, accepts: nat -> nat)
      ensures Valid() && this.initial == initial && this.accepts == accepts && log == []
    {
      this.initial, this.accepts, files, writes, log := initial, accepts, initial, 0, [];
    }

    /** A positional write may stop short: the system takes at most accepts(k) bytes of the k-th. */
    method PWrite(w: Write) returns (n: nat)
      requires Valid() && Fits(initial, w)
      modifies this
      ensures Valid() && n == Min(|w.blob|, accepts(|old(log)|)) && log == old(log) + [Truncated(w, n)]
    {
      n := Min(|w.blob|, accepts(writes));
      ApplyAppend(initial, log, [Truncated(w, n)]);
      assert [Truncated(w, n)][1..] == [];
      files := Apply(files, Truncated(w, n));
      writes := writes + 1;
      log := log + [Truncated(w, n)];
    }
  }

  /** log continues before by the first n writes of the plan and the torn part of the next. */
  ghost predicate Progress(before: seq<Write>, plan: seq<Write>, n: nat, tear: Tear, log: seq<Write>) {
    TornAt(plan, n, tear) && log == before + Torn(plan, n, tear)
  }

  lemma ProgressLength(before: seq<Write>, plan: seq<Write>, n: nat, log: seq<Write>)
    requires Progress(before, plan, n, Clean, log)
    ensures |log| == |before| + n
  {
  }

  lemma ProgressStep(before: seq<Write>, plan: seq<Write>, n: nat, log: seq<Write>, t: nat)
    requires n < |plan| && t <= |plan[n].blob| && Progress(before, plan, n, Clean, log)
    ensures Progress(before, plan, n, Inside(t), log + [Truncated(plan[n], t)])
    ensures t == |plan[n].blob| ==> Progress(before, plan, n + 1, Clean, log + [Truncated(plan[n], t)])
  {
    var w := Truncated(plan[n], t);
    assert (before + plan[..n]) + [w] == before + (plan[..n] + [w]);
    if t == |plan[n].blob| {
      assert w == plan[n];
      assert plan[..n + 1] == plan[..n] + [plan[n]];
    }
  }

  lemma ProgressInSequence(before: seq<Write>, plan: seq<Write>, next: seq<Write>, mid: seq<Write>,
                           n: nat, tear: Tear, log: seq<Write>)
    requires Progress(before, plan, |plan|, Clean, mid) && Progress(mid, next, n, tear, log)
    ensures Progress(before, plan + next, |plan| + n, tear, log)
  {
    assert plan[..|plan|] == plan;
    assert (plan + next)[..|plan| + n] == plan + next[..n];
    assert Torn(plan + next, |plan| + n, tear) == plan + Torn(next, n, tear);
    assert (before + plan) + Torn(next, n, tear) == before + (plan + Torn(next, n, tear));
  }

  lemma ProgressInLonger(before: seq<Write>, plan: seq<Write>, whole: seq<Write>, n: nat, tear: Tear, log: seq<Write>)
    requires plan <= whole && Progress(before, plan, n, tear, log)
    ensures Progress(before, whole, n, tear, log)
  {
    assert whole[..n] == plan[..n];
  }

  // ----------------------------------------------------------------- disjoint writes

  /** No byte position belongs to two writes. */
  ghost predicate Exclusive(ws: seq<Write>) {
    forall i, j, p :: 0 <= i < j < |ws| && Covers(ws[i], ws[j].shard, p) ==> !Covers(ws[j], ws[j].shard, p)
  }

  /** Two writes to one shard are apart when one is empty or ends before the other begins. */
  predicate SeparateAt(ws: seq<Write>, i: nat, j: nat)
    requires i < |ws| && j < |ws|
  {
    ws[i].shard == ws[j].shard ==>
      |ws[i].blob| == 0 || |ws[j].blob| == 0
      || ws[i].off + |ws[i].blob| <= ws[j].off || ws[j].off + |ws[j].blob| <= ws[i].off
  }

  lemma SeparateMeans(ws: seq<Write>)
    ensures Exclusive(ws) <==> forall i, j :: 0 <= i < j < |ws| ==> SeparateAt(ws, i, j)
  {
    hide Covers;
    if Exclusive(ws) {
      forall i, j | 0 <= i < j < |ws| ensures SeparateAt(ws, i, j) {
        var p := CommonByte(ws[i], ws[j]);
        assert Covers(ws[i], ws[j].shard, p) ==> !Covers(ws[j], ws[j].shard, p);
      }
    } else {
      var i, j, p :| 0 <= i < j < |ws| && Covers(ws[i], ws[j].shard, p) && Covers(ws[j], ws[j].shard, p);
      NoCommonByte(ws[i], ws[j], p);
      assert !SeparateAt(ws, i, j);
    }
  }

  lemma CommonByte(a: Write, b: Write) returns (p: nat)
    ensures a.shard == b.shard && a.blob != [] && b.blob != [] && b.off < a.off + |a.blob| && a.off < b.off + |b.blob|
            ==> Covers(a, b.shard, p) && Covers(b, b.shard, p)
  {
    p := if a.off <= b.off then b.off else a.off;
  }

  lemma NoCommonByte(a: Write, b: Write, p: int)
    requires Covers(a, b.shard, p) && Covers(b, b.shard, p)
    ensures a.shard == b.shard && |a.blob| > 0 && |b.blob| > 0 && b.off < a.off + |a.blob| && a.off < b.off + |b.blob|
  {
  }

  lemma {:induction false} LastWriter(files: Files, ws: seq<Write>, i: nat, p: nat)
    requires AllFit(files, ws) && Exclusive(ws) && i < |ws| && Covers(ws[i], ws[i].shard, p)
    ensures ApplyAll(files, ws)[ws[i].shard][p] == ws[i].blob[p - ws[i].off]
    decreases |ws|
  {
    var w, rest := ws[0], ws[1..];
    var g := Apply(files, w);
    if i == 0 {
      OnlyWrittenChange(g, rest);
    } else {
      LastWriter(g, rest, i - 1, p);
    }
  }

  lemma WrittenSlice(files: Files, ws: seq<Write>, i: nat, a: nat, n: nat)
    requires AllFit(files, ws) && Exclusive(ws) && i < |ws| && a + n <= |ws[i].blob|
    ensures var g, at := ApplyAll(files, ws), ws[i].off + a;
            at + n <= |g[ws[i].shard]| && g[ws[i].shard][at..at + n] == ws[i].blob[a..a + n]
  {
    var g, at := ApplyAll(files, ws)[ws[i].shard], ws[i].off + a;
    assert Fits(files, ws[i]);
    forall p | at <= p < at + n ensures g[p] == ws[i].blob[p - ws[i].off] {
      LastWriter(files, ws, i, p);
    }
    var got, want := g[at..at + n], ws[i].blob[a..a + n];
    forall q | 0 <= q < n ensures got[q] == want[q] {
      assert got[q] == g[at + q];
    }
    assert got == want;
  }

  /** The order of disjoint writes does not matter. */
  lemma OrderIrrelevant(files: Files, a: seq<Write>, b: seq<Write>)
    requires AllFit(files, a) && AllFit(files, b) && Exclusive(a) && Exclusive(b)
    requires forall w :: w in a <==> w in b
    ensures ApplyAll(files, a) == ApplyAll(files, b)
  {
    var f, g := ApplyAll(files, a), ApplyAll(files, b);
    forall shard | shard in files ensures f[shard] == g[shard] {
      forall p | 0 <= p < |files[shard]| ensures f[shard][p] == g[shard][p] {
        SameByte(files, a, b, shard, p);
      }
    }
    assert f == g;
  }

  lemma SameByte(files: Files, a: seq<Write>, b: seq<Write>, shard: string, p: nat)
    requires AllFit(files, a) && AllFit(files, b) && Exclusive(a) && Exclusive(b)
    requires forall w :: w in a <==> w in b
    requires shard in files && p < |files[shard]|
    ensures ApplyAll(files, a)[shard][p] == ApplyAll(files, b)[shard][p]
  {
    if i :| 0 <= i < |a| && Covers(a[i], shard, p) {
      assert a[i] in a;
      var j :| 0 <= j < |b| && b[j] == a[i];
      LastWriter(files, a, i, p);
      LastWriter(files, b, j, p);
    } else {
      forall j | 0 <= j < |b| ensures !Covers(b[j], shard, p) {
        assert b[j] in b;
      }
      OnlyWrittenChange(files, a);
      OnlyWrittenChange(files, b);
    }
  }

  /** Writes located at distinct slots of interval tables that are free of overlap never share a byte. */
  lemma CheckedIsExclusive(ws: seq<Write>, table: map<string, seq<Interval>>, slot: seq<nat>)
    requires |slot| == |ws| && forall shard :: shard in table ==> Disjoint(table[shard])
    requires forall i :: 0 <= i < |ws| ==>
               ws[i].shard in table && slot[i] < |table[ws[i].shard]| &&
               table[ws[i].shard][slot[i]] == Interval(ws[i].off, ws[i].off + |ws[i].blob|)
    requires forall i, j :: 0 <= i < j < |ws| && ws[i].shard == ws[j].shard ==> slot[i] != slot[j]
    ensures Exclusive(ws)
  {
    forall i, j, p | 0 <= i < j < |ws| && Covers(ws[i], ws[j].shard, p) ensures !Covers(ws[j], ws[j].shard, p) {
      var ivs := table[ws[i].shard];
      assert slot[i] != slot[j];
      assert Clear(ivs[slot[i]], ivs[slot[j]]) || Clear(ivs[slot[j]], ivs[slot[i]]);
    }
  }
}
