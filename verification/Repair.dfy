/** In-place repair of the listed BF16 tensors inside copied shard files, in blocks of
    32 rows, with a crash possible between any two writes and inside each of them. */
module Repair {
  import opened Basics
  import opened Bytes
  import opened FileWrites
  import Bf16
  import PatchHash

  /** How a weight code and a scale code become the two bytes of one element, and which pairs
      of codes have a finite value. */
  datatype Conversion = Conversion(encode: (byte, byte) -> (byte, byte), finite: (byte, byte) -> bool)

  /** A tensor to repair: m x k weight codes and one scale code per 32 x 32 tile, both read
      from memory-mapped matrices. */
  datatype Entry = Entry(shard: string, offset: nat, m: nat, k: nat,
                         w: (nat, nat) -> byte, s: (nat, nat) -> byte, conv: Conversion)
  {
    /** The bytes of element (r, c), with the scale of its own tile. */
    function Element(r: nat, c: nat): (byte, byte) {
      conv.encode(w(r, c), s(r / 32, c / 32))
    }

    /** Number of 32-row blocks. */
    function Tiles(): (t: nat)
      ensures 32 * (t - 1) < m <= 32 * t
    {
      (m + 31) / 32
    }
  }

  // ------------------------------------------------------------ payload of a tensor

  /** The first n elements of row r, scaled with tile row t. */
  function RowBytes(e: Entry, r: nat, t: nat, n: nat): (b: seq<byte>)
    ensures |b| == 2 * n
  {
    if n == 0 then [] else
      var bytes := e.conv.encode(e.w(r, n - 1), e.s(t, (n - 1) / 32));
      RowBytes(e, r, t, n - 1) + [bytes.0, bytes.1]
  }

  /** The repaired rows a, ..., b - 1. */
  function Rows(e: Entry, a: nat, b: nat): seq<byte>
    decreases b - a
  {
    if a >= b then [] else Rows(e, a, b - 1) + RowBytes(e, b - 1, (b - 1) / 32, e.k)
  }

  lemma {:induction false} RowsLength(e: Entry, a: nat, b: nat)
    requires a <= b
    ensures |Rows(e, a, b)| == 2 * e.k * (b - a)
    decreases b - a
  {
    if a < b {
      RowsLength(e, a, b - 1);
      assert 2 * e.k * (b - a) == 2 * e.k * (b - 1 - a) + 2 * e.k;
    }
  }

  lemma {:induction false} RowsJoin(e: Entry, a: nat, b: nat, c: nat)
    requires a <= b <= c
    ensures Rows(e, a, b) + Rows(e, b, c) == Rows(e, a, c)
    decreases c - b
  {
    if b == c {
      assert Rows(e, a, b) + [] == Rows(e, a, b);
    } else {
      RowsJoin(e, a, b, c - 1);
    }
  }

  /** The whole repaired payload as one write. */
  function PayloadWrite(e: Entry): Write {
    Write(e.shard, e.offset, Rows(e, 0, e.m))
  }

  lemma {:induction false} ElementInRow(e: Entry, r: nat, t: nat, n: nat, c: nat)
    requires c < n
    ensures var bytes := e.conv.encode(e.w(r, c), e.s(t, c / 32));
            RowBytes(e, r, t, n)[2 * c..2 * c + 2] == [bytes.0, bytes.1]
    decreases n
  {
    var front := RowBytes(e, r, t, n - 1);
    if c < n - 1 {
      ElementInRow(e, r, t, n - 1, c);
      assert RowBytes(e, r, t, n)[2 * c..2 * c + 2] == front[2 * c..2 * c + 2];
    }
  }

  lemma RowInPayload(e: Entry, r: nat, at: nat)
    requires r < e.m && at == 2 * e.k * r
    ensures at + 2 * e.k <= |Rows(e, 0, e.m)|
    ensures Rows(e, 0, e.m)[at..at + 2 * e.k] == RowBytes(e, r, r / 32, e.k)
  {
    var before, row, after := Rows(e, 0, r), RowBytes(e, r, r / 32, e.k), Rows(e, r + 1, e.m);
    RowsJoin(e, 0, r + 1, e.m);
    RowsLength(e, 0, r);
    assert Rows(e, 0, r + 1) == before + row;
    assert Rows(e, 0, e.m) == (before + row) + after;
  }

  /** Element (r, c) stands at its row-major place in the payload. */
  lemma ElementInPayload(e: Entry, r: nat, c: nat, start: nat, at: nat)
    requires r < e.m && c < e.k && start == 2 * e.k * r && at == start + 2 * c
    ensures at + 2 <= |Rows(e, 0, e.m)|
    ensures Rows(e, 0, e.m)[at..at + 2] == [e.Element(r, c).0, e.Element(r, c).1]
  {
    hide Rows, RowBytes;
    RowInPayload(e, r, start);
    ElementInRow(e, r, r / 32, e.k, c);
    SliceOfSlice(Rows(e, 0, e.m), start, 2 * e.k, 2 * c, 2 * c + 2);
  }

  // ---------------------------------------------------------- blocks of 32 rows

  /** Past the last row of block t. */
  function BlockEnd(e: Entry, t: nat): nat {
    Min(e.m, 32 * t + 32)
  }

  /** Rows 32 t, ..., r1 - 1, all with tile row t, as the loop computes them. */
  function BlockBytes(e: Entry, t: nat, r1: nat): seq<byte>
    decreases r1
  {
    if r1 <= 32 * t then [] else BlockBytes(e, t, r1 - 1) + RowBytes(e, r1 - 1, t, e.k)
  }

  lemma {:induction false} BlockIsRows(e: Entry, t: nat, r1: nat)
    requires 32 * t <= r1 <= 32 * t + 32
    ensures BlockBytes(e, t, r1) == Rows(e, 32 * t, r1)
    decreases r1
  {
    if 32 * t < r1 {
      BlockIsRows(e, t, r1 - 1);
      assert (r1 - 1) / 32 == t;
    }
  }

  /** The pwrite of block t: at row 32 t of the payload. */
  function BlockWrite(e: Entry, t: nat): Write {
    Write(e.shard, e.offset + 2 * e.k * (32 * t), BlockBytes(e, t, BlockEnd(e, t)))
  }

  /** The block writes of one entry from block t on. */
  ghost function BlocksFrom(e: Entry, t: nat): seq<Write>
    decreases e.Tiles() - t
  {
    if t >= e.Tiles() then [] else [BlockWrite(e, t)] + BlocksFrom(e, t + 1)
  }

  ghost function BlobsFrom(e: Entry, t: nat): seq<seq<byte>>
    decreases e.Tiles() - t
  {
    if t >= e.Tiles() then [] else [BlockBytes(e, t, BlockEnd(e, t))] + BlobsFrom(e, t + 1)
  }

  ghost function Plan(e: Entry): seq<Write> {
    BlocksFrom(e, 0)
  }

  ghost function AllBlocks(es: seq<Entry>): seq<Write> {
    if es == [] then [] else AllBlocks(es[..|es| - 1]) + Plan(es[|es| - 1])
  }

  ghost function Payloads(es: seq<Entry>): (ws: seq<Write>)
    ensures |ws| == |es| && forall i :: 0 <= i < |es| ==> ws[i] == PayloadWrite(es[i])
  {
    if es == [] then [] else Payloads(es[..|es| - 1]) + [PayloadWrite(es[|es| - 1])]
  }

  lemma BlockLength(e: Entry, t: nat)
    requires t + 1 < e.Tiles()
    ensures |BlockBytes(e, t, BlockEnd(e, t))| == 2 * e.k * 32
  {
    assert BlockEnd(e, t) == 32 * t + 32;
    BlockIsRows(e, t, BlockEnd(e, t));
    RowsLength(e, 32 * t, BlockEnd(e, t));
  }

  /** Each block starts where the one before it ends. */
  lemma {:induction false} BlocksAreChunks(e: Entry, t: nat, off: nat)
    requires off == e.offset + 2 * e.k * (32 * t)
    ensures BlocksFrom(e, t) == ChunkWrites(e.shard, off, BlobsFrom(e, t))
    decreases e.Tiles() - t
  {
    if t + 1 < e.Tiles() {
      BlockLength(e, t);
      RowSpan(e.k, 32 * t, 32, 2 * e.k * (32 * t), 2 * e.k * 32);
      BlocksAreChunks(e, t + 1, off + 2 * e.k * 32);
    }
  }

  lemma RowSpan(k: nat, r: nat, rows: nat, a: nat, n: nat)
    requires a == 2 * k * r && n == 2 * k * rows
    ensures a + n == 2 * k * (r + rows)
  {
  }

  /** The blocks joined are the rows, none missing and none twice. */
  lemma {:induction false} BlobsJoin(e: Entry, t: nat)
    requires t < e.Tiles()
    ensures Concat(BlobsFrom(e, t)) == Rows(e, 32 * t, e.m)
    decreases e.Tiles() - t
  {
    var r1 := BlockEnd(e, t);
    var first := BlockBytes(e, t, r1);
    BlockIsRows(e, t, r1);
    assert BlobsFrom(e, t)[1..] == BlobsFrom(e, t + 1);
    ConcatFront(BlobsFrom(e, t));
    if t + 1 < e.Tiles() {
      assert r1 == 32 * (t + 1);
      BlobsJoin(e, t + 1);
      RowsJoin(e, 32 * t, r1, e.m);
    } else {
      assert r1 == e.m;
      assert first + [] == first;
    }
  }

  /** The 32-row blocks tile the interval: together they are exactly one write of the payload. */
  lemma BlocksTile(e: Entry, files: Files)
    requires Fits(files, PayloadWrite(e))
    ensures AllFit(files, Plan(e)) && ApplyAll(files, Plan(e)) == Apply(files, PayloadWrite(e))
  {
    BlocksAreChunks(e, 0, e.offset);
    if e.Tiles() > 0 {
      BlobsJoin(e, 0);
    }
    ChunksTile(files, e.shard, e.offset, BlobsFrom(e, 0));
  }

  /** All blocks of all entries amount to one payload write per entry. */
  lemma {:induction false} AllBlocksTile(es: seq<Entry>, files: Files)
    requires AllFit(files, Payloads(es))
    ensures AllFit(files, AllBlocks(es)) && ApplyAll(files, AllBlocks(es)) == ApplyAll(files, Payloads(es))
    decreases |es|
  {
    hide Apply, ApplyAll, PayloadWrite, Plan, Fits;
    if es == [] {
      assert AllBlocks(es) == [] && Payloads(es) == [];
    } else {
      var n := |es| - 1;
      var e, front := es[n], es[..n];
      forall i | 0 <= i < n ensures Fits(files, Payloads(front)[i]) {
        assert Payloads(es)[i] == Payloads(front)[i];
      }
      AllBlocksTile(front, files);
      var g := ApplyAll(files, Payloads(front));
      assert Fits(files, Payloads(es)[n]);
      BlocksTile(e, files);
      SameShapeFits(files, g, PayloadWrite(e));
      BlocksTile(e, g);
      ApplyAppend(files, AllBlocks(front), Plan(e));
      OneWrite(files, PayloadWrite(e));
      OneWrite(g, PayloadWrite(e));
      ApplyAppend(files, Payloads(front), [PayloadWrite(e)]);
    }
  }

  // -------------------------------------------------------------- the repair run

  ghost predicate RowFinite(e: Entry, r: nat) {
    forall c :: 0 <= c < e.k ==> e.conv.finite(e.w(r, c), e.s(r / 32, c / 32))
  }

  /** No NaN, infinite or overflowing product in rows a, ..., b - 1. */
  ghost predicate RowsFinite(e: Entry, a: nat, b: nat) {
    forall r :: a <= r < b && r < e.m ==> RowFinite(e, r)
  }

  ghost predicate BlockIsFinite(e: Entry, t: nat) {
    RowsFinite(e, 32 * t, 32 * t + 32)
  }

  datatype Outcome = Done | NonFinite(row: nat) | ShortWrite(bytes: nat) | Crashed

  /** The non-finite count of a block, with the tile row of the block. */
  method BlockFinite(e: Entry, t: nat) returns (ok: bool)
    requires t < e.Tiles()
    ensures ok <==> BlockIsFinite(e, t)
  {
    for r := 32 * t to BlockEnd(e, t)
      invariant RowsFinite(e, 32 * t, r)
    {
      assert r / 32 == t;
      for c := 0 to e.k
        invariant forall j :: 0 <= j < c ==> e.conv.finite(e.w(r, j), e.s(t, j / 32))
      {
        if !e.conv.finite(e.w(r, c), e.s(t, c / 32)) {
          assert !RowFinite(e, r);
          return false;
        }
      }
    }
    return true;
  }

  function TearOf(outcome: Outcome): Tear {
    if outcome.ShortWrite? then Inside(outcome.bytes) else Clean
  }

  lemma {:induction false} BlockAt(e: Entry, t0: nat, t: nat)
    requires t0 + t < e.Tiles()
    ensures t < |BlocksFrom(e, t0)| && BlocksFrom(e, t0)[t] == BlockWrite(e, t0 + t)
    decreases t
  {
    if t > 0 {
      BlockAt(e, t0 + 1, t - 1);
    }
  }

  lemma {:induction false} BlockCount(e: Entry, t0: nat)
    requires t0 <= e.Tiles()
    ensures |BlocksFrom(e, t0)| == e.Tiles() - t0
    decreases e.Tiles() - t0
  {
    if t0 < e.Tiles() {
      BlockCount(e, t0 + 1);
    }
  }

  lemma NextWrite(e: Entry, t: nat, files: Files)
    requires t < e.Tiles() && Fits(files, PayloadWrite(e))
    ensures t < |Plan(e)| && Plan(e)[t] == BlockWrite(e, t) && Fits(files, BlockWrite(e, t))
  {
    hide Rows, ApplyAll, Apply, BlocksFrom, BlockWrite, Fits;
    BlockAt(e, 0, t);
    BlocksTile(e, files);
    assert Fits(files, Plan(e)[t]);
  }

  /** One pass of the loop: block t, which is write number t of the entry's plan. Done means
      the block is in the file. */
  method RepairBlock(art: Artifact, out: PatchHash.Digest, e: Entry, t: nat, budget: nat, ghost before: seq<Write>)
    returns (outcome: Outcome)
    requires t < e.Tiles() && art.Valid() && Fits(art.initial, PayloadWrite(e))
    requires Progress(before, Plan(e), t, Clean, art.log)
    modifies art, out
    ensures art.Valid()
    ensures outcome.Done? ==> out.fed == old(out.fed) + BlockBytes(e, t, BlockEnd(e, t))
    ensures Progress(before, Plan(e), if outcome.Done? then t + 1 else t, TearOf(outcome), art.log)
    ensures outcome.Done? ==> t != budget && BlockIsFinite(e, t)
    ensures outcome.NonFinite? ==> outcome.row == 32 * t && !BlockIsFinite(e, t)
    ensures outcome.Done? ==> art.accepts(|old(art.log)|) >= |BlockBytes(e, t, BlockEnd(e, t))|
    ensures outcome.Crashed? ==> t == budget
    ensures outcome.ShortWrite? ==>
              outcome.bytes == art.accepts(|old(art.log)|) < |BlockBytes(e, t, BlockEnd(e, t))| && t != budget
  {
    hide art.Valid, Progress, RowsFinite, BlockBytes, BlocksFrom;
    var ok := BlockFinite(e, t);
    if !ok {
      return NonFinite(32 * t);
    }
    if t == budget {
      return Crashed;
    }
    NextWrite(e, t, art.initial);
    var w := BlockWrite(e, t);
    var n := art.PWrite(w);
    ProgressStep(before, Plan(e), t, old(art.log), n);
    if n != |w.blob| {
      return ShortWrite(n);
    }
    out.Update(w.blob);
    return Done;
  }

  /** The blocks hashed so far and the next one. */
  lemma HashedSoFar(e: Entry, t: nat)
    requires t < e.Tiles()
    ensures 32 * t <= BlockEnd(e, t) == Min(e.m, 32 * (t + 1))
    ensures Rows(e, 0, 32 * t) + BlockBytes(e, t, BlockEnd(e, t)) == Rows(e, 0, BlockEnd(e, t))
  {
    hide Rows, BlockBytes;
    BlockIsRows(e, t, BlockEnd(e, t));
    RowsJoin(e, 0, 32 * t, BlockEnd(e, t));
  }

  /** Repairs one entry. budget writes are left before the process dies. The digest of what it wrote is
      recorded when it is done. */
  method RepairEntry(art: Artifact, e: Entry, budget: nat) returns (outcome: Outcome, written: nat, payload: seq<byte>)
    requires art.Valid() && Fits(art.initial, PayloadWrite(e))
    modifies art
    ensures art.Valid() && Progress(old(art.log), Plan(e), written, TearOf(outcome), art.log)
    ensures written <= budget && (outcome.Crashed? ==> written == budget < e.Tiles())
    ensures outcome.Done? ==> written == |Plan(e)| && RowsFinite(e, 0, e.m)
    ensures outcome.NonFinite? ==> RowsFinite(e, 0, outcome.row) && !RowsFinite(e, 0, e.m)
    ensures outcome.ShortWrite? ==>
              written < e.Tiles()
              && outcome.bytes == art.accepts(|old(art.log)| + written) < |BlockBytes(e, written, BlockEnd(e, written))|
    ensures outcome.Done? ==> payload == Rows(e, 0, e.m)
  {
    hide art.Valid, RowFinite, BlocksFrom, Rows, BlockBytes;
    ghost var before := art.log;
    var out := new PatchHash.Digest();
    NoRows(e);
    written, payload := 0, [];
    assert before + Plan(e)[..0] == before;
    while written < e.Tiles()
      invariant written <= e.Tiles() && written <= budget && art.Valid()
      invariant Progress(before, Plan(e), written, Clean, art.log)
      invariant RowsFinite(e, 0, 32 * written)
      invariant fresh(out) && out.fed == Rows(e, 0, Min(e.m, 32 * written))
    {
      outcome := RepairBlock(art, out, e, written, budget, before);
      HashedSoFar(e, written);
      if !outcome.Done? {
        return;
      }
      written := written + 1;
    }
    BlockCount(e, 0);
    outcome, payload := Done, out.fed;
  }

  lemma NoRows(e: Entry)
    ensures Rows(e, 0, 0) == []
  {
  }

  ghost predicate Repairable(files: Files, es: seq<Entry>) {
    AllFit(files, Payloads(es))
  }

  lemma {:induction false} PlanGrows(es: seq<Entry>, i: nat)
    requires i <= |es|
    ensures AllBlocks(es[..i]) <= AllBlocks(es)
    decreases |es| - i
  {
    if i < |es| {
      PlanGrows(es, i + 1);
      assert es[..i + 1][..i] == es[..i];
    } else {
      assert es[..i] == es;
    }
  }

  lemma PlanStep(es: seq<Entry>, i: nat)
    requires i < |es|
    ensures AllBlocks(es[..i + 1]) == AllBlocks(es[..i]) + Plan(es[i])
  {
    assert es[..i + 1][..i] == es[..i];
  }

  /** The plan of entry i lies within the whole plan. */
  lemma PlanFits(es: seq<Entry>, i: nat)
    requires i < |es|
    ensures |AllBlocks(es[..i])| + es[i].Tiles() <= |AllBlocks(es)|
  {
    hide BlocksFrom;
    PlanStep(es, i);
    PlanGrows(es, i + 1);
    BlockCount(es[i], 0);
  }

  /** The plan of the first at entries, then n writes of the next one. */
  lemma EntryProgress(before: seq<Write>, es: seq<Entry>, at: nat, mid: seq<Write>, n: nat, tear: Tear, log: seq<Write>)
    requires at < |es| && Progress(before, AllBlocks(es[..at]), |AllBlocks(es[..at])|, Clean, mid)
    requires Progress(mid, Plan(es[at]), n, tear, log)
    ensures Progress(before, AllBlocks(es[..at + 1]), |AllBlocks(es[..at])| + n, tear, log)
    ensures Progress(before, AllBlocks(es), |AllBlocks(es[..at])| + n, tear, log)
  {
    hide Progress, Plan;
    ProgressInSequence(before, AllBlocks(es[..at]), Plan(es[at]), mid, n, tear, log);
    PlanStep(es, at);
    PlanGrows(es, at + 1);
    ProgressInLonger(before, AllBlocks(es[..at + 1]), AllBlocks(es), |AllBlocks(es[..at])| + n, tear, log);
  }

  lemma NoProgress(before: seq<Write>, es: seq<Entry>)
    ensures AllBlocks(es[..0]) == [] && Progress(before, AllBlocks(es[..0]), 0, Clean, before)
  {
    assert es[..0] == [] && before + [] == before;
  }

  lemma EntryFits(files: Files, es: seq<Entry>, i: nat)
    requires Repairable(files, es) && i < |es|
    ensures Fits(files, PayloadWrite(es[i]))
  {
    assert Fits(files, Payloads(es)[i]);
  }

  ghost predicate EntryFinite(e: Entry) {
    RowsFinite(e, 0, e.m)
  }

  /** Finite: every element of the rows in question has a finite product with the scale of its own tile. */
  lemma FiniteMeans(e: Entry, t: nat)
    ensures EntryFinite(e) <==>
            forall r, c :: 0 <= r < e.m && 0 <= c < e.k ==> e.conv.finite(e.w(r, c), e.s(r / 32, c / 32))
    ensures BlockIsFinite(e, t) <==>
            forall r, c :: 32 * t <= r < 32 * (t + 1) && r < e.m && 0 <= c < e.k ==>
              e.conv.finite(e.w(r, c), e.s(r / 32, c / 32))
  {
    RowsFiniteMean(e, 0, e.m);
    RowsFiniteMean(e, 32 * t, 32 * t + 32);
  }

  lemma RowsFiniteMean(e: Entry, a: nat, b: nat)
    ensures RowsFinite(e, a, b) <==>
            forall r, c :: a <= r < b && r < e.m && 0 <= c < e.k ==> e.conv.finite(e.w(r, c), e.s(r / 32, c / 32))
  {
    if forall r, c :: a <= r < b && r < e.m && 0 <= c < e.k ==> e.conv.finite(e.w(r, c), e.s(r / 32, c / 32)) {
      forall r | a <= r < b && r < e.m ensures RowFinite(e, r) {
      }
    }
    if RowsFinite(e, a, b) {
      forall r, c | a <= r < b && r < e.m && 0 <= c < e.k ensures e.conv.finite(e.w(r, c), e.s(r / 32, c / 32)) {
        assert RowFinite(e, r);
      }
    }
  }

  /** The whole repair. Whatever ends it, what was written is a prefix of the planned writes,
      the last one possibly torn; a finished run wrote exactly the plan. */
  method RepairAll(art: Artifact, es: seq<Entry>, budget: nat)
    returns (outcome: Outcome, at: nat, written: nat, payloads: seq<seq<byte>>)
    requires art.Valid() && Repairable(art.initial, es)
    modifies art
    ensures art.Valid() && Progress(old(art.log), AllBlocks(es), written, TearOf(outcome), art.log)
    ensures at <= |es| && forall i :: 0 <= i < at ==> EntryFinite(es[i])
    ensures outcome.Done? ==> at == |es| && written == |AllBlocks(es)|
    ensures outcome.NonFinite? ==> at < |es| && !EntryFinite(es[at])
    ensures outcome.Crashed? ==> written == budget < |AllBlocks(es)|
    ensures outcome.ShortWrite? ==>
              outcome.bytes == art.accepts(|old(art.log)| + written) &&
              at < |es| && exists t: nat :: t < es[at].Tiles() && written == |AllBlocks(es[..at])| + t
                                            && outcome.bytes < |BlockBytes(es[at], t, BlockEnd(es[at], t))|
    ensures |payloads| == at && forall i :: 0 <= i < at ==> payloads[i] == Rows(es[i], 0, es[i].m)
    ensures outcome.Done? && Exclusive(Payloads(es)) ==> AllDecoded(art.files, es)
  {
    hide art.Valid, Plan, RowsFinite, AllBlocks, Payloads, Progress, Exclusive, AllDecoded, Rows;
    ghost var before := art.log;
    written, at, payloads := 0, 0, [];
    NoProgress(before, es);
    while at < |es|
      invariant at <= |es| && written <= budget && written == |AllBlocks(es[..at])| && art.Valid()
      invariant Progress(before, AllBlocks(es[..at]), written, Clean, art.log)
      invariant forall i :: 0 <= i < at ==> EntryFinite(es[i])
      invariant |payloads| == at && forall i :: 0 <= i < at ==> payloads[i] == Rows(es[i], 0, es[i].m)
    {
      ghost var mid := art.log;
      EntryFits(art.initial, es, at);
      ProgressLength(before, AllBlocks(es[..at]), written, mid);
      PlanFits(es, at);
      var n, payload;
      outcome, n, payload := RepairEntry(art, es[at], budget - written);
      EntryProgress(before, es, at, mid, n, TearOf(outcome), art.log);
      PlanStep(es, at);
      written := written + n;
      if !outcome.Done? {
        return;
      }
      at, payloads := at + 1, payloads + [payload];
    }
    assert es[..|es|] == es;
    outcome := Done;
    if Exclusive(Payloads(es)) {
      FinishedDecodes(art, before, es);
    }
  }

  /** The entries fit when each ends inside its shard. */
  lemma RepairableMeans(files: Files, es: seq<Entry>)
    ensures Repairable(files, es) <==>
            forall i :: 0 <= i < |es| ==>
              es[i].shard in files && es[i].offset + 2 * es[i].k * es[i].m <= |files[es[i].shard]|
  {
    hide Rows;
    forall i | 0 <= i < |es|
      ensures Fits(files, Payloads(es)[i]) <==>
              es[i].shard in files && es[i].offset + 2 * es[i].k * es[i].m <= |files[es[i].shard]|
    {
      RowsLength(es[i], 0, es[i].m);
    }
  }

  /** A payload is one write of two bytes per element at the offset of its entry. */
  lemma PayloadSize(e: Entry)
    ensures PayloadWrite(e).shard == e.shard && PayloadWrite(e).off == e.offset
    ensures |PayloadWrite(e).blob| == 2 * e.k * e.m
  {
    RowsLength(e, 0, e.m);
  }

  // ------------------------------------------------- what the finished files hold

  /** A finished repair of disjoint entries has every element at its place. */
  lemma RepairedElement(files: Files, es: seq<Entry>, i: nat, r: nat, c: nat, at: nat)
    requires Repairable(files, es) && Exclusive(Payloads(es))
    requires i < |es| && r < es[i].m && c < es[i].k && at == es[i].offset + (2 * es[i].k * r + 2 * c)
    ensures AllFit(files, AllBlocks(es))
    ensures var g := ApplyAll(files, AllBlocks(es));
            var bytes := es[i].conv.encode(es[i].w(r, c), es[i].s(r / 32, c / 32));
            at + 2 <= |g[es[i].shard]| && g[es[i].shard][at..at + 2] == [bytes.0, bytes.1]
  {
    hide Exclusive, AllBlocks, ApplyAll, Rows;
    AllBlocksTile(es, files);
    ElementInPayload(es[i], r, c, 2 * es[i].k * r, at - es[i].offset);
    WrittenSlice(files, Payloads(es), i, at - es[i].offset, 2);
  }

  /** No byte outside the patched intervals differs from the copied file. */
  lemma RepairedElsewhere(files: Files, es: seq<Entry>)
    requires Repairable(files, es)
    ensures AllFit(files, AllBlocks(es)) && AgreeOff(files, ApplyAll(files, AllBlocks(es)), Payloads(es))
  {
    AllBlocksTile(es, files);
    OnlyWrittenChange(files, Payloads(es));
  }

  /** In plain terms: a byte at a position that belongs to no entry of its shard is as it was. */
  lemma ElsewhereMeans(files: Files, es: seq<Entry>, shard: string, p: nat)
    requires Repairable(files, es) && shard in files && p < |files[shard]|
    requires forall i :: 0 <= i < |es| && es[i].shard == shard ==>
               !(es[i].offset <= p < es[i].offset + 2 * es[i].k * es[i].m)
    ensures AllFit(files, AllBlocks(es)) && shard in ApplyAll(files, AllBlocks(es))
    ensures |ApplyAll(files, AllBlocks(es))[shard]| == |files[shard]|
    ensures ApplyAll(files, AllBlocks(es))[shard][p] == files[shard][p]
  {
    hide AllBlocks, ApplyAll, Rows;
    RepairedElsewhere(files, es);
    forall i | 0 <= i < |es| ensures !Covers(Payloads(es)[i], shard, p) {
      PayloadSize(es[i]);
    }
  }

  /** A run that died anywhere, then a full run: the files of one clean run. */
  lemma RepairRestarts(files: Files, es: seq<Entry>, n: nat, tear: Tear)
    requires Repairable(files, es) && TornAt(AllBlocks(es), n, tear)
    ensures AllFit(files, Torn(AllBlocks(es), n, tear))
    ensures AllFit(ApplyAll(files, Torn(AllBlocks(es), n, tear)), AllBlocks(es))
    ensures ApplyAll(ApplyAll(files, Torn(AllBlocks(es), n, tear)), AllBlocks(es)) == ApplyAll(files, Payloads(es))
  {
    hide AllBlocks, Torn, Payloads;
    AllBlocksTile(es, files);
    InterruptedThenRerun(files, AllBlocks(es), n, tear);
  }

  /** Disjoint entries may be repaired in any order. */
  lemma EntryOrderIrrelevant(files: Files, es: seq<Entry>, fs: seq<Entry>)
    requires Repairable(files, es) && Repairable(files, fs)
    requires Exclusive(Payloads(es)) && Exclusive(Payloads(fs))
    requires forall e: Entry :: e in es <==> e in fs
    ensures AllFit(files, AllBlocks(es)) && AllFit(files, AllBlocks(fs))
    ensures ApplyAll(files, AllBlocks(es)) == ApplyAll(files, AllBlocks(fs))
  {
    hide Exclusive, AllBlocks, ApplyAll;
    forall w | w in Payloads(es) ensures w in Payloads(fs) {
      PayloadMoves(es, fs, w);
    }
    forall w | w in Payloads(fs) ensures w in Payloads(es) {
      PayloadMoves(fs, es, w);
    }
    AllBlocksTile(es, files);
    AllBlocksTile(fs, files);
    OrderIrrelevant(files, Payloads(es), Payloads(fs));
  }

  lemma PayloadMoves(es: seq<Entry>, fs: seq<Entry>, w: Write)
    requires (forall e: Entry :: e in es ==> e in fs) && w in Payloads(es)
    ensures w in Payloads(fs)
  {
    hide PayloadWrite;
    var i :| 0 <= i < |es| && Payloads(es)[i] == w;
    assert es[i] in es;
    var j :| 0 <= j < |fs| && fs[j] == es[i];
    assert Payloads(fs)[j] == w;
  }

  /** End to end: with the payloads listed as patch intervals, a repaired shard has the same
      outside digest as the copied one, so the validator's check accepts it. */
  lemma RepairPassesValidation(files: Files, es: seq<Entry>, shard: string, ivs: seq<PatchHash.Interval>)
    requires Repairable(files, es) && shard in files
    requires forall i :: 0 <= i < |es| && es[i].shard == shard ==>
               PatchHash.Interval(es[i].offset, es[i].offset + |PayloadWrite(es[i]).blob|) in ivs
    ensures AllFit(files, AllBlocks(es))
    ensures PatchHash.Outside(ApplyAll(files, AllBlocks(es))[shard], 0, ivs) == PatchHash.Outside(files[shard], 0, ivs)
  {
    hide AllBlocks, ApplyAll, Rows, PatchHash.Outside;
    RepairedElsewhere(files, es);
    var s, t := files[shard], ApplyAll(files, AllBlocks(es))[shard];
    forall p | 0 <= p < |s| && !PatchHash.Covered(p, ivs) ensures s[p] == t[p] {
    }
    PatchHash.EqualWhenAgreeing(s, t, ivs);
  }

  // --------------------------------------------------------- the DenseFix conversion

  function LowHigh(code: nat): (byte, byte) {
    (code % 256, code / 256 % 256)
  }

  /** The conversion of the repair: E4M3FN weight times E8M0 scale to little-endian BF16. */
  function DenseFix(): Conversion {
    Conversion((w: byte, s: byte) => LowHigh(Bf16.Element(w, s)), (w: byte, s: byte) => Bf16.ProductFinite(w, s))
  }

  lemma LowHighDecodes(code: nat)
    requires code < 0x1_0000
    ensures FromLittleEndian([LowHigh(code).0, LowHigh(code).1]) == code
  {
    var lo, hi := LowHigh(code).0, LowHigh(code).1;
    assert [lo, hi][1..] == [hi] && [hi][1..] == [];
    assert FromLittleEndian([hi]) == hi + 256 * FromLittleEndian([hi][1..]);
  }

  /** The two bytes of an element decode to the one BF16 word nearest to the exact product of weight and
      scale, ties to even, with the sign of the weight. */
  lemma RepairedValue(w: byte, s: byte, code: nat)
    requires DenseFix().finite(w, s)
    requires code == FromLittleEndian([DenseFix().encode(w, s).0, DenseFix().encode(w, s).1])
    ensures Bf16.Rounds(w, s, code)
  {
    Bf16.ElementNearest(w, s);
    LowHighDecodes(Bf16.Element(w, s));
  }

  function Place(e: Entry, r: nat, c: nat): nat {
    e.offset + (2 * e.k * r + 2 * c)
  }

  /** The two bytes at the place of element (r, c) are the rounded product. */
  ghost predicate DecodesAt(file: seq<byte>, e: Entry, r: nat, c: nat) {
    Place(e, r, c) + 2 <= |file| &&
    Bf16.Rounds(e.w(r, c), e.s(r / 32, c / 32), FromLittleEndian(file[Place(e, r, c)..Place(e, r, c) + 2]))
  }

  ghost predicate Decoded(file: seq<byte>, e: Entry) {
    forall r: nat, c: nat :: r < e.m && c < e.k ==> DecodesAt(file, e, r, c)
  }

  /** Every element of every DenseFix entry is in place and correctly rounded. */
  ghost predicate AllDecoded(files: Files, es: seq<Entry>) {
    forall i :: 0 <= i < |es| && es[i].conv == DenseFix() ==> es[i].shard in files && Decoded(files[es[i].shard], es[i])
  }

  lemma DecodedElement(files: Files, es: seq<Entry>, i: nat, r: nat, c: nat)
    requires Repairable(files, es) && Exclusive(Payloads(es)) && i < |es|
    requires es[i].conv == DenseFix() && EntryFinite(es[i]) && r < es[i].m && c < es[i].k
    ensures AllFit(files, AllBlocks(es)) && es[i].shard in files
    ensures DecodesAt(ApplyAll(files, AllBlocks(es))[es[i].shard], es[i], r, c)
  {
    hide Exclusive, AllBlocks, ApplyAll, AllFit, Repairable, Bf16.Rounds;
    EntryFits(files, es, i);
    RepairedElement(files, es, i, r, c, Place(es[i], r, c));
    assert RowFinite(es[i], r);
    RepairedValue(es[i].w(r, c), es[i].s(r / 32, c / 32),
                  FromLittleEndian([es[i].Element(r, c).0, es[i].Element(r, c).1]));
  }

  lemma RepairDecodes(files: Files, es: seq<Entry>)
    requires Repairable(files, es) && Exclusive(Payloads(es)) && forall i :: 0 <= i < |es| ==> EntryFinite(es[i])
    ensures AllFit(files, AllBlocks(es)) && AllDecoded(ApplyAll(files, AllBlocks(es)), es)
  {
    hide Exclusive, ApplyAll, EntryFinite, DecodesAt, DenseFix;
    AllBlocksTile(es, files);
    forall i | 0 <= i < |es| && es[i].conv == DenseFix()
      ensures es[i].shard in files && Decoded(ApplyAll(files, AllBlocks(es))[es[i].shard], es[i])
    {
      EntryFits(files, es, i);
      forall r: nat, c: nat | r < es[i].m && c < es[i].k
        ensures DecodesAt(ApplyAll(files, AllBlocks(es))[es[i].shard], es[i], r, c)
      {
        DecodedElement(files, es, i, r, c);
      }
    }
  }

  lemma StillRepairable(files: Files, ws: seq<Write>, es: seq<Entry>)
    requires AllFit(files, ws) && Repairable(files, es)
    ensures Repairable(ApplyAll(files, ws), es)
  {
    hide Payloads, ApplyAll;
  }

  lemma FitPrefix(files: Files, a: seq<Write>, b: seq<Write>)
    requires AllFit(files, a + b)
    ensures AllFit(files, a) && AllFit(files, b)
  {
    forall i | 0 <= i < |a| ensures Fits(files, a[i]) {
      assert (a + b)[i] == a[i];
    }
    forall i | 0 <= i < |b| ensures Fits(files, b[i]) {
      assert (a + b)[|a| + i] == b[i];
    }
  }

  /** When a repair is done, whatever was written before it, every element of every entry decodes to its
      rounded product. */
  lemma FinishedDecodes(art: Artifact, before: seq<Write>, es: seq<Entry>)
    requires art.Valid() && Repairable(art.initial, es) && Exclusive(Payloads(es))
    requires forall i :: 0 <= i < |es| ==> EntryFinite(es[i])
    requires Progress(before, AllBlocks(es), |AllBlocks(es)|, Clean, art.log)
    ensures AllDecoded(art.files, es)
  {
    hide Exclusive, ApplyAll, AllBlocks, Repairable, AllFit, EntryFinite, AllDecoded;
    var plan := AllBlocks(es);
    assert art.log == before + plan by {
      assert plan[..|plan|] == plan && plan + [] == plan;
    }
    FitPrefix(art.initial, before, plan);
    StillRepairable(art.initial, before, es);
    ApplyAppend(art.initial, before, plan);
    RepairDecodes(ApplyAll(art.initial, before), es);
  }
}
