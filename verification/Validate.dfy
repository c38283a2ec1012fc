/** The validator of a repaired artifact: every repaired element against an independent conversion, and
    every byte outside the patch intervals against the digest of the copied file. */
module Validate {
  import opened Basics
  import opened Bytes
  import opened FileWrites
  import Bf16
  import PatchHash
  import opened Repair

  // ------------------------------------------------------------ one repaired tensor

  /** How many of the first n two-byte elements differ. */
  function DifferingTo(a: seq<byte>, b: seq<byte>, n: nat): (count: nat)
    requires 2 * n <= |a| && 2 * n <= |b|
  {
    if n == 0 then 0 else
      DifferingTo(a, b, n - 1) + (if a[2 * n - 2] == b[2 * n - 2] && a[2 * n - 1] == b[2 * n - 1] then 0 else 1)
  }

  /** How many two-byte elements differ. */
  function Differing(a: seq<byte>, b: seq<byte>): (count: nat) {
    DifferingTo(a, b, Min(|a|, |b|) / 2)
  }

  /** The positions below n at which a and b hold different two-byte elements. */
  ghost function Wrong(a: seq<byte>, b: seq<byte>, n: nat): set<nat>
    requires 2 * n <= |a| && 2 * n <= |b|
  {
    set i: nat | i < n && (a[2 * i] != b[2 * i] || a[2 * i + 1] != b[2 * i + 1])
  }

  lemma {:induction false} DifferingCounts(a: seq<byte>, b: seq<byte>, n: nat)
    requires 2 * n <= |a| && 2 * n <= |b|
    ensures DifferingTo(a, b, n) == |Wrong(a, b, n)|
  {
    if n > 0 {
      DifferingCounts(a, b, n - 1);
      var same := a[2 * n - 2] == b[2 * n - 2] && a[2 * n - 1] == b[2 * n - 1];
      assert Wrong(a, b, n) == Wrong(a, b, n - 1) + (if same then {} else {n - 1});
    }
  }

  lemma {:induction false} DifferingFront(a: seq<byte>, b: seq<byte>, c: seq<byte>, d: seq<byte>, n: nat)
    requires 2 * n <= |a| == |b|
    ensures DifferingTo(a + c, b + d, n) == DifferingTo(a, b, n)
  {
    if n > 0 {
      DifferingFront(a, b, c, d, n - 1);
    }
  }

  lemma {:induction false} DifferingBehind(a: seq<byte>, b: seq<byte>, c: seq<byte>, d: seq<byte>, h: nat, n: nat)
    requires |a| == |b| == 2 * h && 2 * n <= |c| == |d|
    ensures DifferingTo(a + c, b + d, h + n) == DifferingTo(a, b, h) + DifferingTo(c, d, n)
  {
    if n == 0 {
      DifferingFront(a, b, c, d, h);
    } else {
      DifferingBehind(a, b, c, d, h, n - 1);
    }
  }

  lemma DifferingJoin(a: seq<byte>, b: seq<byte>, c: seq<byte>, d: seq<byte>)
    requires |a| == |b| && |a| % 2 == 0 && |c| == |d| && |c| % 2 == 0
    ensures Differing(a + c, b + d) == Differing(a, b) + Differing(c, d)
  {
    DifferingBehind(a, b, c, d, |a| / 2, |c| / 2);
  }

  lemma {:induction false} NoneTo(a: seq<byte>, b: seq<byte>, n: nat)
    requires 2 * n <= |a| && 2 * n <= |b|
    ensures DifferingTo(a, b, n) == 0 <==> forall i :: 0 <= i < 2 * n ==> a[i] == b[i]
  {
    if n > 0 {
      NoneTo(a, b, n - 1);
    }
  }

  lemma NoneDiffering(a: seq<byte>, b: seq<byte>)
    requires |a| == |b| && |a| % 2 == 0
    ensures Differing(a, b) == 0 <==> a == b
  {
    NoneTo(a, b, |a| / 2);
  }

  datatype Compared = Mismatches(count: nat) | ShortRead | NonFiniteSource

  /** The tensor's place in the file holds exactly its repaired rows. */
  ghost predicate Holds(file: seq<byte>, e: Entry) {
    PRead(file, |Rows(e, 0, e.m)|, e.offset) == Rows(e, 0, e.m)
  }

  /** The first n rows are in place. */
  ghost predicate HoldsRows(file: seq<byte>, e: Entry, n: nat) {
    PRead(file, 2 * e.k * n, e.offset) == Rows(e, 0, n)
  }

  /** The file reaches to the end of the first n rows. */
  ghost predicate ReadThrough(file: seq<byte>, e: Entry, n: nat) {
    |PRead(file, 2 * e.k * n, e.offset)| == 2 * e.k * n
  }

  /** Reads of adjacent spans join; a short read stays short in any longer one. */
  lemma JoinReads(file: seq<byte>, at: nat, a: nat, n: nat, rest: nat)
    requires |PRead(file, a, at)| == a
    ensures |PRead(file, n, at + a)| == n ==> PRead(file, a + n, at) == PRead(file, a, at) + PRead(file, n, at + a)
    ensures |PRead(file, n, at + a)| != n ==> |PRead(file, a + n + rest, at)| != a + n + rest
  {
    if |PRead(file, n, at + a)| == n && n > 0 {
      ReadExtend(file, at, a, n);
    }
  }

  /** Elements of the first n rows that are not as repaired. */
  ghost function Amiss(file: seq<byte>, e: Entry, n: nat): nat {
    Differing(PRead(file, 2 * e.k * n, e.offset), Rows(e, 0, n))
  }

  lemma SplitEqual(a: seq<byte>, b: seq<byte>, c: seq<byte>, d: seq<byte>)
    requires |a| == |c|
    ensures a + b == c + d <==> a == c && b == d
  {
    assert (a + b)[..|a|] == a && (a + b)[|a|..] == b;
    assert (c + d)[..|c|] == c && (c + d)[|c|..] == d;
  }

  lemma ShortRefutes(file: seq<byte>, e: Entry, a: nat, n: nat, rest: nat)
    requires |PRead(file, a, e.offset)| == a && |PRead(file, n, e.offset + a)| != n && a + n + rest == |Rows(e, 0, e.m)|
    ensures !Holds(file, e)
  {
    hide Rows, PRead;
    JoinReads(file, e.offset, a, n, rest);
  }

  lemma ReadExtends(file: seq<byte>, e: Entry, r0: nat, r1: nat, a: nat, n: nat, blob: seq<byte>)
    requires r0 <= r1 && a == 2 * e.k * r0 && a + n == 2 * e.k * r1
    requires |PRead(file, a, e.offset)| == a && blob == PRead(file, n, e.offset + a) && |blob| == n
    ensures ReadThrough(file, e, r1)
    ensures HoldsRows(file, e, r1) <==> HoldsRows(file, e, r0) && blob == Rows(e, r0, r1)
    ensures Amiss(file, e, r1) == Amiss(file, e, r0) + Differing(blob, Rows(e, r0, r1))
  {
    hide Rows, PRead, Differing;
    JoinReads(file, e.offset, a, n, 0);
    RowsExtend(e, r0, r1, a, n);
    SplitEqual(PRead(file, a, e.offset), blob, Rows(e, 0, r0), Rows(e, r0, r1));
    DifferingJoin(PRead(file, a, e.offset), Rows(e, 0, r0), blob, Rows(e, r0, r1));
  }

  lemma RowsExtend(e: Entry, r0: nat, r1: nat, a: nat, n: nat)
    requires r0 <= r1 && a == 2 * e.k * r0 && a + n == 2 * e.k * r1
    ensures Rows(e, 0, r1) == Rows(e, 0, r0) + Rows(e, r0, r1)
    ensures |Rows(e, 0, r0)| == a && |Rows(e, r0, r1)| == n && a % 2 == 0 && n % 2 == 0
  {
    hide Rows;
    FirstRows(e, r0, a);
    FirstRows(e, r1, a + n);
    RowsJoin(e, 0, r0, r1);
  }

  lemma FirstRows(e: Entry, r: nat, n: nat)
    requires n == 2 * e.k * r
    ensures |Rows(e, 0, r)| == n && n % 2 == 0
  {
    hide Rows;
    RowsLength(e, 0, r);
    TwiceIsEven(e.k, r);
  }

  /** What one block read says about the rows read so far. */
  lemma BlockExtends(file: seq<byte>, e: Entry, t: nat, r1: nat, n: nat, blob: seq<byte>)
    requires 32 * t <= r1 <= e.m && r1 <= 32 * t + 32 && n == 2 * e.k * (r1 - 32 * t)
    requires ReadThrough(file, e, 32 * t) && blob == PRead(file, n, e.offset + 2 * e.k * (32 * t))
    ensures |blob| != n ==> !Holds(file, e)
    ensures |blob| == n ==> ReadThrough(file, e, r1)
    ensures |blob| == n ==> (HoldsRows(file, e, r1) <==> HoldsRows(file, e, 32 * t) && blob == BlockBytes(e, t, r1))
    ensures |blob| == n ==> Amiss(file, e, r1) == Amiss(file, e, 32 * t) + Differing(blob, BlockBytes(e, t, r1))
  {
    hide Rows, BlockBytes, PRead, Holds, HoldsRows, Amiss, Differing;
    var r0, rest := 32 * t, 2 * e.k * (e.m - r1);
    var a := 2 * e.k * r0;
    RowSpan(e.k, r0, r1 - r0, a, n);
    if |blob| != n {
      RowSpan(e.k, r1, e.m - r1, a + n, rest);
      FirstRows(e, e.m, a + n + rest);
      ShortRefutes(file, e, a, n, rest);
    } else {
      BlockIsRows(e, t, r1);
      ReadExtends(file, e, r0, r1, a, n, blob);
    }
  }

  lemma EvenBlock(e: Entry, t: nat, r1: nat, n: nat)
    requires 32 * t <= r1 <= 32 * t + 32 && n == 2 * e.k * (r1 - 32 * t)
    ensures |BlockBytes(e, t, r1)| == n && n % 2 == 0
  {
    hide Rows, BlockBytes;
    BlockIsRows(e, t, r1);
    RowsLength(e, 32 * t, r1);
    TwiceIsEven(e.k, r1 - 32 * t);
  }

  lemma TwiceIsEven(k: nat, r: nat)
    ensures (2 * k * r) % 2 == 0
  {
    assert 2 * k * r == 2 * (k * r);
  }

  /** One block: its read, its finiteness check and its differences. */
  method CompareBlock(file: seq<byte>, e: Entry, t: nat) returns (result: Compared)
    requires t < e.Tiles() && ReadThrough(file, e, 32 * t)
    ensures result.ShortRead? ==> !Holds(file, e)
    ensures result.NonFiniteSource? ==> !BlockIsFinite(e, t)
    ensures result.Mismatches? ==> BlockIsFinite(e, t) && ReadThrough(file, e, BlockEnd(e, t))
    ensures result.Mismatches? ==>
              (HoldsRows(file, e, BlockEnd(e, t)) <==> HoldsRows(file, e, 32 * t) && result.count == 0)
    ensures result.Mismatches? ==> Amiss(file, e, BlockEnd(e, t)) == Amiss(file, e, 32 * t) + result.count
  {
    hide BlockIsFinite, BlockBytes, Holds, HoldsRows, ReadThrough, PRead, Differing, Amiss;
    var r0, r1 := 32 * t, BlockEnd(e, t);
    var n := 2 * e.k * (r1 - r0);
    var blob := PRead(file, n, e.offset + 2 * e.k * r0);
    BlockExtends(file, e, t, r1, n, blob);
    if |blob| != n {
      return ShortRead;
    }
    var ok := BlockFinite(e, t);
    if !ok {
      return NonFiniteSource;
    }
    EvenBlock(e, t, r1, n);
    NoneDiffering(blob, BlockBytes(e, t, r1));
    return Mismatches(Differing(blob, BlockBytes(e, t, r1)));
  }

  /** The block comparison: 32 rows at a time, each with its own tile row of scales. It counts nothing
      exactly when the source is finite and the file holds the repaired rows. */
  method CompareTensor(file: seq<byte>, e: Entry) returns (result: Compared)
    ensures result == Mismatches(0) <==> EntryFinite(e) && Holds(file, e)
    ensures result.Mismatches? ==> EntryFinite(e) && ReadThrough(file, e, e.m) && result.count == Amiss(file, e, e.m)
  {
    hide Rows, RowFinite, Holds, HoldsRows, ReadThrough, Amiss;
    var count: nat := 0;
    NothingRead(file, e);
    for t := 0 to e.Tiles()
      invariant RowsFinite(e, 0, 32 * t)
      invariant ReadThrough(file, e, Min(e.m, 32 * t))
      invariant count == 0 <==> HoldsRows(file, e, Min(e.m, 32 * t))
      invariant count == Amiss(file, e, Min(e.m, 32 * t))
    {
      var block := CompareBlock(file, e, t);
      if !block.Mismatches? {
        return block;
      }
      count := count + block.count;
    }
    AllRead(file, e);
    return Mismatches(count);
  }

  lemma NothingRead(file: seq<byte>, e: Entry)
    ensures ReadThrough(file, e, 0) && HoldsRows(file, e, 0) && Amiss(file, e, 0) == 0
  {
    assert 2 * e.k * 0 == 0;
  }

  lemma AllRead(file: seq<byte>, e: Entry)
    ensures HoldsRows(file, e, e.m) <==> Holds(file, e)
  {
    RowsLength(e, 0, e.m);
  }

  /** The count reported is the number of elements of the tensor that are not as repaired. */
  lemma AmissCounts(file: seq<byte>, e: Entry)
    requires ReadThrough(file, e, e.m)
    ensures |PRead(file, 2 * e.k * e.m, e.offset)| == |Rows(e, 0, e.m)|
    ensures 2 * (e.k * e.m) == |Rows(e, 0, e.m)|
    ensures Amiss(file, e, e.m) == |Wrong(PRead(file, 2 * e.k * e.m, e.offset), Rows(e, 0, e.m), e.k * e.m)|
  {
    hide Rows, PRead, DifferingTo, Wrong;
    RowsLength(e, 0, e.m);
    assert 2 * e.k * e.m == 2 * (e.k * e.m);
    DifferingCounts(PRead(file, 2 * e.k * e.m, e.offset), Rows(e, 0, e.m), e.k * e.m);
  }

  // ------------------------------------------------------------ the payload digest

  /** Hashes a span in reads of any positive length; a read that returns nothing ends it. */
  method HashPayload(file: seq<byte>, at: nat, count: nat) returns (ok: bool, fed: seq<byte>)
    ensures ok <==> |PRead(file, count, at)| == count
    ensures ok ==> fed == PRead(file, count, at)
  {
    hide PRead;
    var h := new PatchHash.Digest();
    var done: nat := 0;
    ReadNothing(file, at);
    while done < count
      invariant done <= count && |PRead(file, done, at)| == done
      invariant fresh(h) && h.fed == PRead(file, done, at)
    {
      var available := PRead(file, count - done, at + done);
      if available == [] {
        JoinReads(file, at, done, count - done, 0);
        return false, [];
      }
      var n: nat :| 1 <= n <= |available|;
      PrefixRead(file, count - done, at + done, n);
      JoinReads(file, at, done, n, 0);
      h.Update(available[..n]);
      done := done + n;
    }
    return true, h.fed;
  }

  lemma PrefixRead(file: seq<byte>, count: nat, at: nat, n: nat)
    requires n <= |PRead(file, count, at)|
    ensures n <= count && PRead(file, n, at) == PRead(file, count, at)[..n] && |PRead(file, n, at)| == n
  {
  }

  // ------------------------------------------------------------ an independent conversion

  /** Any conversion that takes each finite product to a nearest BF16 word, ties to even and sign kept, and
      knows which products are finite; nothing else is asked of the validator's own. */
  ghost predicate Independent(own: Conversion) {
    forall w: byte, s: byte :: ConvertsPair(own, w, s)
  }

  ghost predicate ConvertsPair(own: Conversion, w: byte, s: byte) {
    (own.finite(w, s) <==> Bf16.ProductFinite(w, s)) &&
    (own.finite(w, s) ==> Bf16.Rounds(w, s, FromLittleEndian([own.encode(w, s).0, own.encode(w, s).1])))
  }

  /** The repair's own conversion is one of them. */
  lemma DenseFixIndependent()
    ensures Independent(DenseFix())
  {
    hide Bf16.Rounds, Bf16.ProductFinite, Bf16.Element, LowHigh;
    forall w: byte, s: byte ensures ConvertsPair(DenseFix(), w, s) {
      var its := DenseFix().encode(w, s);
      if DenseFix().finite(w, s) {
        RepairedValue(w, s, FromLittleEndian([its.0, its.1]));
      }
    }
  }

  lemma TwoBytes(a: (byte, byte), b: (byte, byte))
    requires FromLittleEndian([a.0, a.1]) == FromLittleEndian([b.0, b.1])
    ensures a == b
  {
    WordOf(a.0, a.1);
    WordOf(b.0, b.1);
  }

  lemma WordOf(lo: byte, hi: byte)
    ensures FromLittleEndian([lo, hi]) == lo + 256 * hi
  {
    assert [lo, hi][1..] == [hi] && [hi][1..] == [];
    assert FromLittleEndian([hi]) == hi + 256 * FromLittleEndian([hi][1..]);
  }

  /** It agrees with the repair on every pair of codes with a finite product. */
  lemma SameConversion(own: Conversion, w: byte, s: byte)
    requires Independent(own)
    ensures own.finite(w, s) <==> DenseFix().finite(w, s)
    ensures own.finite(w, s) ==> own.encode(w, s) == DenseFix().encode(w, s)
  {
    hide Bf16.Rounds, Bf16.ProductFinite, Bf16.Element, LowHigh;
    assert ConvertsPair(own, w, s);
    if own.finite(w, s) {
      var mine, its := own.encode(w, s), DenseFix().encode(w, s);
      RepairedValue(w, s, FromLittleEndian([its.0, its.1]));
      Bf16.RoundsUnique(w, s, FromLittleEndian([mine.0, mine.1]), FromLittleEndian([its.0, its.1]));
      TwoBytes(mine, its);
    }
  }

  /** An entry as the validator reads it: the same codes under its own conversion. */
  function Seen(e: Entry, own: Conversion): Entry {
    e.(conv := own)
  }

  lemma {:induction false} SameRowBytes(e: Entry, own: Conversion, r: nat, t: nat, n: nat)
    requires e.conv == DenseFix() && Independent(own)
    requires forall c :: 0 <= c < n ==> own.finite(e.w(r, c), e.s(t, c / 32))
    ensures RowBytes(Seen(e, own), r, t, n) == RowBytes(e, r, t, n)
  {
    hide Independent, DenseFix;
    if n > 0 {
      SameRowBytes(e, own, r, t, n - 1);
      SameConversion(own, e.w(r, n - 1), e.s(t, (n - 1) / 32));
    }
  }

  lemma SameFinite(e: Entry, own: Conversion)
    requires e.conv == DenseFix() && Independent(own)
    ensures EntryFinite(Seen(e, own)) <==> EntryFinite(e)
  {
    hide Independent, DenseFix;
    forall w: byte, s: byte ensures own.finite(w, s) <==> e.conv.finite(w, s) {
      SameConversion(own, w, s);
    }
    forall r: nat | r < e.m ensures RowFinite(Seen(e, own), r) <==> RowFinite(e, r) {
    }
  }

  lemma {:induction false} SameRows(e: Entry, own: Conversion, b: nat)
    requires e.conv == DenseFix() && Independent(own) && EntryFinite(Seen(e, own)) && b <= e.m
    ensures Rows(Seen(e, own), 0, b) == Rows(e, 0, b)
    decreases b
  {
    hide Independent, DenseFix, RowBytes;
    if b > 0 {
      SameRows(e, own, b - 1);
      assert RowFinite(Seen(e, own), b - 1);
      SameRowBytes(e, own, b - 1, (b - 1) / 32, e.k);
    }
  }

  // ------------------------------------------------------------ the whole artifact

  datatype Verdict = Accepted | TensorRejected(index: nat) | ShardRejected(shard: string)

  /** One tensor passes: finite, its rows in place, and the hash the repair recorded is the hash of its place. */
  ghost predicate TensorPasses(file: seq<byte>, e: Entry, recorded: seq<byte>) {
    EntryFinite(e) && Holds(file, e) && recorded == Rows(e, 0, e.m)
  }

  ghost predicate TensorsPass(files: Files, es: seq<Entry>, own: Conversion, recorded: seq<seq<byte>>)
    requires |recorded| >= |es|
  {
    forall i :: 0 <= i < |es| ==>
      es[i].shard in files && TensorPasses(files[es[i].shard], Seen(es[i], own), recorded[i])
  }

  ghost predicate DigestHolds(files: Files, shard: string, tables: map<string, seq<PatchHash.Interval>>,
                              receipts: map<string, PatchHash.Receipt>)
    requires shard in files && shard in tables && shard in receipts
  {
    PatchHash.Outside(files[shard], 0, tables[shard]) == receipts[shard].unpatched
  }

  /** One tensor: its blocks, its payload hash against the recorded one, and no mismatch. */
  method CheckTensor(file: seq<byte>, e: Entry, recorded: seq<byte>) returns (ok: bool)
    ensures ok <==> TensorPasses(file, e, recorded)
    ensures ok <==> EntryFinite(e) && PRead(file, |recorded|, e.offset) == recorded == Rows(e, 0, e.m)
  {
    hide EntryFinite, Rows, PRead;
    var compared := CompareTensor(file, e);
    RowsLength(e, 0, e.m);
    if !compared.Mismatches? {
      return false;
    }
    var read, fed := HashPayload(file, e.offset, 2 * e.k * e.m);
    return read && fed == recorded && compared == Mismatches(0);
  }

  /** Every repaired tensor under the validator's own conversion, then every shard; the first failure ends it. */
  method ValidateAll(files: Files, es: seq<Entry>, own: Conversion, recorded: seq<seq<byte>>, shards: seq<string>,
                     tables: map<string, seq<PatchHash.Interval>>, receipts: map<string, PatchHash.Receipt>)
    returns (verdict: Verdict)
    requires |recorded| == |es| && forall i :: 0 <= i < |es| ==> es[i].shard in files
    requires forall j :: 0 <= j < |shards| ==>
               shards[j] in files && shards[j] in tables && shards[j] in receipts &&
               PatchHash.Ordered(tables[shards[j]])
    ensures verdict == Accepted <==>
            TensorsPass(files, es, own, recorded)
            && forall j :: 0 <= j < |shards| ==> DigestHolds(files, shards[j], tables, receipts)
    ensures verdict.TensorRejected? ==>
              verdict.index < |es| && TensorsPass(files, es[..verdict.index], own, recorded) &&
              !TensorPasses(files[es[verdict.index].shard], Seen(es[verdict.index], own), recorded[verdict.index])
    ensures verdict.ShardRejected? ==>
              TensorsPass(files, es, own, recorded)
              && verdict.shard in shards && !DigestHolds(files, verdict.shard, tables, receipts)
  {
    hide TensorPasses, PatchHash.Outside, PatchHash.Ordered;
    for i := 0 to |es|
      invariant TensorsPass(files, es[..i], own, recorded)
    {
      var ok := CheckTensor(files[es[i].shard], Seen(es[i], own), recorded[i]);
      if !ok {
        return TensorRejected(i);
      }
    }
    assert es[..|es|] == es;
    for j := 0 to |shards|
      invariant forall k :: 0 <= k < j ==> DigestHolds(files, shards[k], tables, receipts)
    {
      var same := PatchHash.ValidateOutside(files[shards[j]], tables[shards[j]], receipts[shards[j]]);
      if !same {
        return ShardRejected(shards[j]);
      }
    }
    return Accepted;
  }

  // ------------------------------------------------------------ what acceptance means

  function PayloadInterval(e: Entry): PatchHash.Interval {
    PatchHash.Interval(e.offset, e.offset + |Rows(e, 0, e.m)|)
  }

  ghost predicate PayloadOf(es: seq<Entry>, shard: string, iv: PatchHash.Interval) {
    exists i :: 0 <= i < |es| && es[i].shard == shard && PayloadInterval(es[i]) == iv
  }

  /** The patch table of a shard lists exactly the payloads that go into it. */
  ghost predicate Lists(ivs: seq<PatchHash.Interval>, es: seq<Entry>, shard: string) {
    (forall i :: 0 <= i < |es| && es[i].shard == shard ==> PayloadInterval(es[i]) in ivs) &&
    (forall k :: 0 <= k < |ivs| ==> PayloadOf(es, shard, ivs[k]))
  }

  ghost predicate HoldsIn(file: seq<byte>, es: seq<Entry>, shard: string) {
    forall i :: 0 <= i < |es| && es[i].shard == shard ==> Holds(file, es[i])
  }

  /** The table entries in plain terms: an interval from the offset of an entry on, of two bytes per element. */
  lemma IntervalMeans(e: Entry)
    ensures PayloadInterval(e) == PatchHash.Interval(e.offset, e.offset + 2 * e.k * e.m)
  {
    RowsLength(e, 0, e.m);
  }

  lemma IntervalsInside(file: seq<byte>, es: seq<Entry>, shard: string, ivs: seq<PatchHash.Interval>)
    requires HoldsIn(file, es, shard) && Lists(ivs, es, shard)
    ensures PatchHash.InsideFile(ivs, |file|)
  {
    hide Rows;
    forall k | 0 <= k < |ivs| && ivs[k].start < ivs[k].end ensures ivs[k].end <= |file| {
      var i :| 0 <= i < |es| && es[i].shard == shard && PayloadInterval(es[i]) == ivs[k];
    }
  }

  lemma OriginalInside(orig: Files, es: seq<Entry>, shard: string, ivs: seq<PatchHash.Interval>)
    requires Repairable(orig, es) && shard in orig && Lists(ivs, es, shard)
    ensures PatchHash.InsideFile(ivs, |orig[shard]|)
  {
    hide Rows;
    forall k | 0 <= k < |ivs| && ivs[k].start < ivs[k].end ensures ivs[k].end <= |orig[shard]| {
      var i :| 0 <= i < |es| && es[i].shard == shard && PayloadInterval(es[i]) == ivs[k];
      EntryFits(orig, es, i);
    }
  }

  lemma RepairedHolds(orig: Files, es: seq<Entry>, i: nat)
    requires Repairable(orig, es) && Exclusive(Payloads(es)) && i < |es|
    ensures es[i].shard in orig && Holds(ApplyAll(orig, Payloads(es))[es[i].shard], es[i])
  {
    hide Rows, Exclusive, ApplyAll;
    EntryFits(orig, es, i);
    var blob := Rows(es[i], 0, es[i].m);
    WrittenSlice(orig, Payloads(es), i, 0, |blob|);
    assert blob[0..|blob|] == blob;
  }

  /** A repaired shard passes both checks. */
  lemma RepairedPasses(orig: Files, es: seq<Entry>, shard: string, ivs: seq<PatchHash.Interval>)
    requires Repairable(orig, es) && Exclusive(Payloads(es)) && shard in orig && Lists(ivs, es, shard)
    ensures AllFit(orig, AllBlocks(es))
    ensures var file := ApplyAll(orig, AllBlocks(es))[shard];
            HoldsIn(file, es, shard) && PatchHash.Outside(file, 0, ivs) == PatchHash.Outside(orig[shard], 0, ivs)
  {
    hide Rows, Exclusive, AllBlocks, ApplyAll, Holds, PatchHash.Outside;
    RepairPassesValidation(orig, es, shard, ivs);
    AllBlocksTile(es, orig);
    forall i | 0 <= i < |es| && es[i].shard == shard ensures Holds(ApplyAll(orig, AllBlocks(es))[shard], es[i]) {
      RepairedHolds(orig, es, i);
    }
  }

  lemma PatchedByte(orig: Files, file: seq<byte>, es: seq<Entry>, i: nat, p: nat)
    requires Repairable(orig, es) && Exclusive(Payloads(es)) && i < |es| && Holds(file, es[i])
    requires PayloadInterval(es[i]).start <= p < PayloadInterval(es[i]).end
    ensures es[i].shard in orig && p < |orig[es[i].shard]| && p < |file|
    ensures ApplyAll(orig, Payloads(es))[es[i].shard][p] == file[p]
  {
    hide Rows, Exclusive, ApplyAll;
    EntryFits(orig, es, i);
    LastWriter(orig, Payloads(es), i, p);
    var blob, off := Rows(es[i], 0, es[i].m), es[i].offset;
    assert file[p] == file[off..off + |blob|][p - off];
  }

  /** A file that passes both checks has the bytes of the repaired shard. */
  lemma PassingByte(orig: Files, file: seq<byte>, es: seq<Entry>, shard: string, ivs: seq<PatchHash.Interval>, p: nat)
    requires Repairable(orig, es) && Exclusive(Payloads(es)) && shard in orig && Lists(ivs, es, shard)
    requires HoldsIn(file, es, shard) && PatchHash.AgreeOutside(file, orig[shard], ivs) && p < |file|
    ensures ApplyAll(orig, Payloads(es))[shard][p] == file[p]
  {
    hide Exclusive, ApplyAll, Holds, PayloadInterval;
    if PatchHash.Covered(p, ivs) {
      var k :| 0 <= k < |ivs| && ivs[k].start <= p < ivs[k].end;
      var i :| 0 <= i < |es| && es[i].shard == shard && PayloadInterval(es[i]) == ivs[k];
      PatchedByte(orig, file, es, i, p);
    } else {
      UnpatchedByte(orig, es, shard, ivs, p);
    }
  }

  lemma UnpatchedByte(orig: Files, es: seq<Entry>, shard: string, ivs: seq<PatchHash.Interval>, p: nat)
    requires Repairable(orig, es) && shard in orig && Lists(ivs, es, shard)
    requires !PatchHash.Covered(p, ivs) && p < |orig[shard]|
    ensures ApplyAll(orig, Payloads(es))[shard][p] == orig[shard][p]
  {
    hide Rows, ApplyAll;
    OnlyWrittenChange(orig, Payloads(es));
  }

  /** One shard is accepted exactly when it is the repaired shard, byte for byte. */
  lemma ShardExact(orig: Files, file: seq<byte>, es: seq<Entry>, shard: string, ivs: seq<PatchHash.Interval>)
    requires Repairable(orig, es) && Exclusive(Payloads(es)) && shard in orig && Lists(ivs, es, shard)
    ensures AllFit(orig, AllBlocks(es))
    ensures HoldsIn(file, es, shard) && PatchHash.Outside(file, 0, ivs) == PatchHash.Outside(orig[shard], 0, ivs)
            <==> file == ApplyAll(orig, AllBlocks(es))[shard]
  {
    hide Rows, Exclusive, AllBlocks, ApplyAll, PatchHash.Outside, Lists, HoldsIn;
    RepairedPasses(orig, es, shard, ivs);
    AllBlocksTile(es, orig);
    var repaired := ApplyAll(orig, AllBlocks(es))[shard];
    if HoldsIn(file, es, shard) && PatchHash.Outside(file, 0, ivs) == PatchHash.Outside(orig[shard], 0, ivs) {
      IntervalsInside(file, es, shard, ivs);
      OriginalInside(orig, es, shard, ivs);
      PatchHash.InsideLeavesFreeTail(|file|, |orig[shard]|, ivs);
      PatchHash.OutsideDigestExact(file, orig[shard], ivs);
      forall p | 0 <= p < |file| ensures repaired[p] == file[p] {
        PassingByte(orig, file, es, shard, ivs, p);
      }
      assert file == repaired;
    }
  }

  /** The tables and receipts the validator works from: one table per shard listing its payloads, and the
      outside digest of the shard as it was copied. */
  ghost predicate Describes(orig: Files, es: seq<Entry>, shards: seq<string>,
                            tables: map<string, seq<PatchHash.Interval>>, receipts: map<string, PatchHash.Receipt>) {
    (forall shard :: shard in orig <==> shard in shards) &&
    forall shard :: shard in orig ==>
      shard in tables && shard in receipts && Lists(tables[shard], es, shard) &&
      receipts[shard].unpatched == PatchHash.Outside(orig[shard], 0, tables[shard])
  }

  ghost predicate TensorsHold(files: Files, es: seq<Entry>) {
    forall i :: 0 <= i < |es| ==> es[i].shard in files && Holds(files[es[i].shard], es[i])
  }

  lemma HeldIsRepaired(orig: Files, files: Files, es: seq<Entry>, shards: seq<string>,
                       tables: map<string, seq<PatchHash.Interval>>, receipts: map<string, PatchHash.Receipt>)
    requires Repairable(orig, es) && Exclusive(Payloads(es))
    requires Describes(orig, es, shards, tables, receipts) && forall shard :: shard in files <==> shard in orig
    ensures AllFit(orig, AllBlocks(es))
    ensures TensorsHold(files, es)
            && (forall j :: 0 <= j < |shards| ==> DigestHolds(files, shards[j], tables, receipts))
            <==> files == ApplyAll(orig, AllBlocks(es))
  {
    hide Exclusive, AllBlocks, ApplyAll, PatchHash.Outside, Lists, Holds;
    AllBlocksTile(es, orig);
    var repaired := ApplyAll(orig, AllBlocks(es));
    forall shard | shard in orig
      ensures files[shard] == repaired[shard] <==>
              HoldsIn(files[shard], es, shard) && DigestHolds(files, shard, tables, receipts)
    {
      ShardExact(orig, files[shard], es, shard, tables[shard]);
    }
    assert (forall shard :: shard in orig ==> files[shard] == repaired[shard]) <==> files == repaired by {
      assert files.Keys == repaired.Keys;
    }
    assert TensorsHold(files, es) <==> forall shard :: shard in orig ==> HoldsIn(files[shard], es, shard);
  }

  /** A tensor passes under any independent conversion exactly when it holds the repaired rows. */
  lemma PassesIsHolds(file: seq<byte>, e: Entry, own: Conversion, recorded: seq<byte>)
    requires e.conv == DenseFix() && Independent(own) && EntryFinite(e) && recorded == Rows(e, 0, e.m)
    ensures TensorPasses(file, Seen(e, own), recorded) <==> Holds(file, e)
  {
    hide Independent, DenseFix, Rows, EntryFinite;
    SameFinite(e, own);
    SameRows(e, own, e.m);
  }

  /** With an independent conversion of its own and the hashes the repair recorded, the validator accepts an
      artifact exactly when it is the repaired artifact, byte for byte. */
  lemma AcceptedIsRepaired(orig: Files, files: Files, es: seq<Entry>, own: Conversion, recorded: seq<seq<byte>>,
                           shards: seq<string>, tables: map<string, seq<PatchHash.Interval>>,
                           receipts: map<string, PatchHash.Receipt>)
    requires Repairable(orig, es) && Exclusive(Payloads(es)) && Independent(own) && |recorded| == |es|
    requires forall i :: 0 <= i < |es| ==>
               es[i].conv == DenseFix() && EntryFinite(es[i]) && recorded[i] == Rows(es[i], 0, es[i].m)
    requires Describes(orig, es, shards, tables, receipts) && forall shard :: shard in files <==> shard in orig
    ensures AllFit(orig, AllBlocks(es))
    ensures TensorsPass(files, es, own, recorded)
            && (forall j :: 0 <= j < |shards| ==> DigestHolds(files, shards[j], tables, receipts))
            <==> files == ApplyAll(orig, AllBlocks(es))
  {
    hide Exclusive, AllBlocks, ApplyAll, Independent, DenseFix, EntryFinite, Rows, Holds, TensorPasses, DigestHolds,
         Describes, Seen;
    HeldIsRepaired(orig, files, es, shards, tables, receipts);
    forall i | 0 <= i < |es|
      ensures TensorPasses(files[es[i].shard], Seen(es[i], own), recorded[i]) <==> Holds(files[es[i].shard], es[i])
    {
      PassesIsHolds(files[es[i].shard], es[i], own, recorded[i]);
    }
  }
}
