/** Streaming digest of everything outside the patch intervals, as the copy step records it
    and the validator checks it. A digest is modelled by the bytes it was fed. */
module PatchHash {
  import opened Basics
  import opened Bytes

  datatype Interval = Interval(start: nat, end: nat)

  class Digest {
    var fed: seq<byte>

    constructor ()
      ensures fed == []
    {
      fed := [];
    }

    method Update(b: seq<byte>)
      modifies this
      ensures fed == old(fed) + b
    {
      fed := fed + b;
    }
  }

  ghost predicate Covered(pos: int, ivs: seq<Interval>) {
    exists k :: 0 <= k < |ivs| && ivs[k].start <= pos < ivs[k].end
  }

  /** Sorted by start; overlaps and nesting are allowed. */
  ghost predicate Ordered(ivs: seq<Interval>) {
    (forall k :: 0 <= k < |ivs| ==> ivs[k].start <= ivs[k].end) &&
    (forall i, j :: 0 <= i < j < |ivs| ==> ivs[i].start <= ivs[j].start)
  }

  /** The first k intervals end at or before pos. */
  ghost predicate Behind(ivs: seq<Interval>, k: nat, pos: int) {
    k <= |ivs| && forall i :: 0 <= i < k ==> ivs[i].end <= pos
  }

  /** The bytes of s (which starts at file position base) outside all intervals, in order. */
  ghost function Outside(s: seq<byte>, base: nat, ivs: seq<Interval>): seq<byte> {
    if s == [] then [] else
      var n := |s| - 1;
      Outside(s[..n], base, ivs) + (if Covered(base + n, ivs) then [] else [s[n]])
  }

  lemma {:induction false} OutsideAppend(s: seq<byte>, t: seq<byte>, base: nat, ivs: seq<Interval>)
    ensures Outside(s + t, base, ivs) == Outside(s, base, ivs) + Outside(t, base + |s|, ivs)
    decreases |t|
  {
    if t == [] {
      assert s + t == s;
    } else {
      var n := |t| - 1;
      OutsideAppend(s, t[..n], base, ivs);
      assert (s + t)[..|s| + n] == s + t[..n];
    }
  }

  /** A byte counts when no interval holds its position, and bytes count in their order. */
  lemma OutsideMeans(s: seq<byte>, b: byte, base: nat, ivs: seq<Interval>)
    ensures Outside([], base, ivs) == []
    ensures Outside(s + [b], base, ivs) ==
            Outside(s, base, ivs)
            + (if exists k :: 0 <= k < |ivs| && ivs[k].start <= base + |s| < ivs[k].end then [] else [b])
  {
    assert (s + [b])[..|s|] == s;
  }

  lemma {:induction false} OutsideAllFree(s: seq<byte>, base: nat, ivs: seq<Interval>)
    requires forall p :: base <= p < base + |s| ==> !Covered(p, ivs)
    ensures Outside(s, base, ivs) == s
  {
    if s != [] {
      OutsideAllFree(s[..|s| - 1], base, ivs);
    }
  }

  lemma {:induction false} OutsideAllCovered(s: seq<byte>, base: nat, ivs: seq<Interval>)
    requires forall p :: base <= p < base + |s| ==> Covered(p, ivs)
    ensures Outside(s, base, ivs) == []
  {
    if s != [] {
      OutsideAllCovered(s[..|s| - 1], base, ivs);
    }
  }

  lemma CutPrefix(s: seq<byte>, i: nat, j: nat)
    requires i <= j <= |s|
    ensures s[..j] == s[..i] + s[i..j]
  {
  }

  lemma FeedGap(s: seq<byte>, base: nat, ivs: seq<Interval>, i: nat, j: nat)
    requires i <= j <= |s| && forall p :: base + i <= p < base + j ==> !Covered(p, ivs)
    ensures Outside(s[..j], base, ivs) == Outside(s[..i], base, ivs) + s[i..j]
  {
    CutPrefix(s, i, j);
    OutsideAppend(s[..i], s[i..j], base, ivs);
    OutsideAllFree(s[i..j], base + i, ivs);
  }

  lemma SkipPatch(s: seq<byte>, base: nat, ivs: seq<Interval>, i: nat, j: nat)
    requires i <= j <= |s| && forall p :: base + i <= p < base + j ==> Covered(p, ivs)
    ensures Outside(s[..j], base, ivs) == Outside(s[..i], base, ivs)
  {
    CutPrefix(s, i, j);
    OutsideAppend(s[..i], s[i..j], base, ivs);
    OutsideAllCovered(s[i..j], base + i, ivs);
  }

  /** h has been fed the outside bytes of the chunk up to file position cursor. */
  ghost predicate FedTo(fed: seq<byte>, before: seq<byte>, chunk: seq<byte>, base: nat, ivs: seq<Interval>,
                        cursor: nat)
  {
    base <= cursor <= base + |chunk| && fed == before + Outside(chunk[..cursor - base], base, ivs)
  }

  /** Stepping over interval j: the gap before it is outside, the rest up to next is patched. */
  lemma StepFeeds(chunk: seq<byte>, base: nat, ivs: seq<Interval>, j: nat, cursor: nat, gap: nat, next: nat)
    requires Ordered(ivs) && j < |ivs| && Behind(ivs, j, cursor) && base <= cursor <= gap <= next <= base + |chunk|
    requires gap == Max(cursor, ivs[j].start) && (gap < next ==> next <= ivs[j].end)
    ensures Outside(chunk[..next - base], base, ivs)
            == Outside(chunk[..cursor - base], base, ivs) + chunk[cursor - base..gap - base]
  {
    FreeBefore(ivs, j, cursor, gap);
    FeedGap(chunk, base, ivs, cursor - base, gap - base);
    if gap < next {
      SkipPatch(chunk, base, ivs, gap - base, next - base);
    }
  }

  /** One interval of the scan: feed the gap before it, then step over it. */
  method StepInterval(h: Digest, chunk: seq<byte>, base: nat, ivs: seq<Interval>, j: nat, cursor: nat,
                      ghost before: seq<byte>)
    returns (next: nat)
    requires Ordered(ivs) && j < |ivs| && ivs[j].start < base + |chunk| && Behind(ivs, j, cursor)
    requires FedTo(h.fed, before, chunk, base, ivs, cursor)
    modifies h
    ensures FedTo(h.fed, before, chunk, base, ivs, next)
    ensures next == Max(cursor, Min(ivs[j].end, base + |chunk|))
  {
    var end := base + |chunk|;
    var a, b := ivs[j].start, ivs[j].end;
    next := Max(cursor, Min(b, end));
    StepFeeds(chunk, base, ivs, j, cursor, Max(cursor, a), next);
    if cursor < Min(a, end) {
      h.Update(chunk[cursor - base..Min(a, end) - base]);
    }
  }

  lemma NothingFed(before: seq<byte>, chunk: seq<byte>, base: nat, ivs: seq<Interval>)
    ensures FedTo(before, before, chunk, base, ivs, base)
  {
    assert chunk[..0] == [];
  }

  /** One chunk: feeds exactly its bytes outside the intervals and carries the scan index. */
  method UpdateUnpatched(h: Digest, chunk: seq<byte>, base: nat, ivs: seq<Interval>, start: nat)
    returns (idx: nat)
    requires Ordered(ivs) && Behind(ivs, start, base)
    modifies h
    ensures h.fed == old(h.fed) + Outside(chunk, base, ivs)
    ensures start <= idx && Behind(ivs, idx, base) && (idx < |ivs| ==> idx >= start && ivs[idx].end > base)
  {
    hide Outside, Covered, Ordered;
    var end := base + |chunk|;
    ghost var before := h.fed;
    idx := start;
    while idx < |ivs| && ivs[idx].end <= base
      invariant start <= idx && Behind(ivs, idx, base)
    {
      idx := idx + 1;
    }
    var cursor: nat, j: nat := base, idx;
    NothingFed(before, chunk, base, ivs);
    while j < |ivs| && ivs[j].start < end
      invariant Behind(ivs, j, cursor) && FedTo(h.fed, before, chunk, base, ivs, cursor)
      decreases |ivs| - j
    {
      cursor := StepInterval(h, chunk, base, ivs, j, cursor, before);
      if ivs[j].end <= end {
        j := j + 1;
      } else {
        break;
      }
    }
    if cursor < end {
      FreeBefore(ivs, j, cursor, end);
      FeedGap(chunk, base, ivs, cursor - base, |chunk|);
      h.Update(chunk[cursor - base..]);
    }
    assert chunk[..|chunk|] == chunk;
  }

  /** Between what is behind and the next start nothing is covered. */
  lemma FreeBefore(ivs: seq<Interval>, j: nat, cursor: nat, limit: nat)
    requires Ordered(ivs) && Behind(ivs, j, cursor)
    requires j < |ivs| ==> limit <= ivs[j].start || limit <= cursor
    ensures forall p :: cursor <= p < limit ==> !Covered(p, ivs)
  {
    forall p | cursor <= p < limit ensures !Covered(p, ivs) {
      forall k | 0 <= k < |ivs| ensures !(ivs[k].start <= p < ivs[k].end) {
        if k >= j { assert ivs[j].start <= ivs[k].start; }
      }
    }
  }

  // --------------------------------------------------------- copy and validation

  /** What the copy step records of one shard. */
  datatype Receipt = Receipt(size: nat, original: seq<byte>, unpatched: seq<byte>)

  datatype PrepareResult = Copied(dst: seq<byte>, receipt: Receipt) | OriginalMismatch(original: seq<byte>)

  /** Copies a shard in reads of any positive length, hashing all of it and its outside part. */
  method Prepare(src: seq<byte>, ivs: seq<Interval>, expected: seq<seq<byte>>) returns (result: PrepareResult)
    requires Ordered(ivs)
    ensures result.OriginalMismatch? <==> expected != [] && expected[0] != src
    ensures result.OriginalMismatch? ==> result.original == src
    ensures result.Copied? ==> result.dst == src && result.receipt == Receipt(|src|, src, Outside(src, 0, ivs))
  {
    var full := new Digest();
    var kept := new Digest();
    var dst := new OutFile();
    var idx: nat, pos: nat := 0, 0;
    assert src[..0] == [];
    while pos < |src|
      invariant pos <= |src| && Behind(ivs, idx, pos)
      invariant full.fed == dst.data == src[..pos]
      invariant kept.fed == Outside(src[..pos], 0, ivs)
      invariant fresh(full) && fresh(kept) && fresh(dst) && full != kept
    {
      var n :| 1 <= n <= |src| - pos;
      var b := src[pos..pos + n];
      full.Update(b);
      OutsideAppend(src[..pos], b, 0, ivs);
      CutPrefix(src, pos, pos + n);
      idx := UpdateUnpatched(kept, b, pos, ivs, idx);
      dst.Append(b);
      pos := pos + n;
    }
    assert src[..|src|] == src;
    if expected != [] && full.fed != expected[0] {
      return OriginalMismatch(full.fed);
    }
    return Copied(dst.data, Receipt(pos, full.fed, kept.fed));
  }

  /** The validator's streaming check of the bytes outside the patch intervals. */
  method ValidateOutside(file: seq<byte>, ivs: seq<Interval>, receipt: Receipt) returns (same: bool)
    requires Ordered(ivs)
    ensures same <==> Outside(file, 0, ivs) == receipt.unpatched
  {
    var hun := new Digest();
    var idx: nat, pos: nat := 0, 0;
    assert file[..0] == [];
    while pos < |file|
      invariant pos <= |file| && Behind(ivs, idx, pos)
      invariant hun.fed == Outside(file[..pos], 0, ivs)
      invariant fresh(hun)
    {
      var n :| 1 <= n <= |file| - pos;
      var b := file[pos..pos + n];
      OutsideAppend(file[..pos], b, 0, ivs);
      CutPrefix(file, pos, pos + n);
      idx := UpdateUnpatched(hun, b, pos, ivs, idx);
      pos := pos + n;
    }
    assert file[..|file|] == file;
    same := hun.fed == receipt.unpatched;
  }

  // -------------------------------------------------- what an equal digest means

  /** Every interval that holds a byte ends inside the file. */
  ghost predicate InsideFile(ivs: seq<Interval>, size: nat) {
    forall k :: 0 <= k < |ivs| && ivs[k].start < ivs[k].end ==> ivs[k].end <= size
  }

  ghost predicate AgreeOutside(s: seq<byte>, t: seq<byte>, ivs: seq<Interval>) {
    |s| == |t| && forall p :: 0 <= p < |s| && !Covered(p, ivs) ==> s[p] == t[p]
  }

  lemma AgreeMeans(s: seq<byte>, t: seq<byte>, ivs: seq<Interval>)
    ensures AgreeOutside(s, t, ivs) <==>
            |s| == |t| && forall p :: 0 <= p < |s| && s[p] != t[p] ==>
              exists k :: 0 <= k < |ivs| && ivs[k].start <= p < ivs[k].end
  {
  }

  lemma {:induction false} EqualWhenAgreeing(s: seq<byte>, t: seq<byte>, ivs: seq<Interval>)
    requires AgreeOutside(s, t, ivs)
    ensures Outside(s, 0, ivs) == Outside(t, 0, ivs)
    decreases |s|
  {
    if s != [] {
      var n := |s| - 1;
      EqualWhenAgreeing(s[..n], t[..n], ivs);
    }
  }

  lemma {:induction false} AgreeingWhenEqual(s: seq<byte>, t: seq<byte>, ivs: seq<Interval>)
    requires |s| == |t| && Outside(s, 0, ivs) == Outside(t, 0, ivs)
    ensures AgreeOutside(s, t, ivs)
    decreases |s|
  {
    if s != [] {
      var n := |s| - 1;
      var u, v := Outside(s[..n], 0, ivs), Outside(t[..n], 0, ivs);
      SameLengthOutside(s[..n], t[..n], ivs);
      if Covered(n, ivs) {
        assert u + [] == u && v + [] == v;
      } else {
        assert (u + [s[n]])[|u|] == s[n] && (v + [t[n]])[|v|] == t[n];
        assert u == (u + [s[n]])[..|u|] && v == (v + [t[n]])[..|v|];
      }
      AgreeingWhenEqual(s[..n], t[..n], ivs);
      forall p | 0 <= p < |s| && !Covered(p, ivs) ensures s[p] == t[p] {
        assert p < n ==> s[p] == s[..n][p] && t[p] == t[..n][p];
      }
    }
  }

  lemma {:induction false} SameLengthOutside(s: seq<byte>, t: seq<byte>, ivs: seq<Interval>)
    requires |s| == |t|
    ensures |Outside(s, 0, ivs)| == |Outside(t, 0, ivs)|
    decreases |s|
  {
    if s != [] {
      SameLengthOutside(s[..|s| - 1], t[..|t| - 1], ivs);
    }
  }

  /** Bytes of the longer of two files past the end of the shorter one that no interval covers. */
  ghost predicate FreeTail(n: nat, m: nat, ivs: seq<Interval>) {
    exists p :: Min(n, m) <= p < Max(n, m) && !Covered(p, ivs)
  }

  /** A longer file feeds more bytes as soon as one of them is outside all intervals. */
  lemma {:induction false} OutsideGrows(s: seq<byte>, n: nat, ivs: seq<Interval>)
    requires n <= |s|
    ensures |Outside(s[..n], 0, ivs)| <= |Outside(s, 0, ivs)|
    ensures FreeTail(n, |s|, ivs) ==> |Outside(s[..n], 0, ivs)| < |Outside(s, 0, ivs)|
    decreases |s|
  {
    hide Covered;
    if n == |s| {
      assert s[..n] == s;
    } else {
      var k := |s| - 1;
      OutsideGrows(s[..k], n, ivs);
      assert s[..k][..n] == s[..n];
      assert Covered(k, ivs) && FreeTail(n, |s|, ivs) ==> FreeTail(n, k, ivs);
    }
  }

  lemma LongerDiffers(s: seq<byte>, t: seq<byte>, ivs: seq<Interval>)
    requires |s| < |t| && FreeTail(|s|, |t|, ivs)
    ensures Outside(s, 0, ivs) != Outside(t, 0, ivs)
  {
    hide Outside, FreeTail;
    OutsideGrows(t, |s|, ivs);
    SameLengthOutside(s, t[..|s|], ivs);
  }

  lemma FreeTailSymmetric(n: nat, m: nat, ivs: seq<Interval>)
    ensures FreeTail(n, m, ivs) <==> FreeTail(m, n, ivs)
  {
    assert Min(n, m) == Min(m, n) && Max(n, m) == Max(m, n);
  }

  /** For files of one length, and for files of which the longer one has an uncovered byte past the end of
      the shorter one, equal digests mean exactly one length and agreement at every outside position. */
  lemma OutsideDigestExact(s: seq<byte>, t: seq<byte>, ivs: seq<Interval>)
    requires |s| == |t| || FreeTail(|s|, |t|, ivs)
    ensures Outside(s, 0, ivs) == Outside(t, 0, ivs) <==> AgreeOutside(s, t, ivs)
  {
    hide Outside, FreeTail, Covered;
    if |s| < |t| {
      LongerDiffers(s, t, ivs);
    } else if |t| < |s| {
      FreeTailSymmetric(|s|, |t|, ivs);
      LongerDiffers(t, s, ivs);
    } else {
      if Outside(s, 0, ivs) == Outside(t, 0, ivs) {
        AgreeingWhenEqual(s, t, ivs);
      }
      if AgreeOutside(s, t, ivs) {
        EqualWhenAgreeing(s, t, ivs);
      }
    }
  }

  /** In particular when all intervals end inside both files. */
  lemma InsideLeavesFreeTail(n: nat, m: nat, ivs: seq<Interval>)
    requires InsideFile(ivs, n) && InsideFile(ivs, m)
    ensures n == m || FreeTail(n, m, ivs)
  {
    if n != m {
      assert !Covered(Min(n, m), ivs);
    }
  }

  /** A file cut off so that all lost bytes were inside intervals has the same digest. */
  lemma TruncationInsideIntervalUnseen(s: seq<byte>, cut: nat, ivs: seq<Interval>)
    requires cut <= |s| && forall p :: cut <= p < |s| ==> Covered(p, ivs)
    ensures Outside(s[..cut], 0, ivs) == Outside(s, 0, ivs)
  {
    hide Outside, Covered;
    SkipPatch(s, 0, ivs, cut, |s|);
    assert s[..|s|] == s;
  }

  /** For files of these two lengths an equal digest implies agreement, whatever they hold. */
  ghost predicate DigestDecides(n: nat, m: nat, ivs: seq<Interval>) {
    forall s: seq<byte>, t: seq<byte> :: |s| == n && |t| == m && Outside(s, 0, ivs) == Outside(t, 0, ivs)
                                         ==> AgreeOutside(s, t, ivs)
  }

  lemma UnseenTruncation(n: nat, m: nat, ivs: seq<Interval>)
    requires n < m && !FreeTail(n, m, ivs)
    ensures !DigestDecides(n, m, ivs) && !DigestDecides(m, n, ivs)
  {
    hide Outside, Covered;
    var t: seq<byte> := seq(m, _ => 0);
    TruncationInsideIntervalUnseen(t, n, ivs);
    var s := t[..n];
    assert !AgreeOutside(s, t, ivs) && !AgreeOutside(t, s, ivs);
  }

  /** The digest decides exactly for one length, or when some byte past the shorter end is uncovered: a
      question about the two sizes and the table alone. */
  lemma DigestDecidesIff(n: nat, m: nat, ivs: seq<Interval>)
    ensures DigestDecides(n, m, ivs) <==> n == m || FreeTail(n, m, ivs)
  {
    hide Outside, FreeTail, AgreeOutside;
    if n == m || FreeTail(n, m, ivs) {
      forall s: seq<byte>, t: seq<byte> | |s| == n && |t| == m && Outside(s, 0, ivs) == Outside(t, 0, ivs)
        ensures AgreeOutside(s, t, ivs)
      {
        OutsideDigestExact(s, t, ivs);
      }
    } else if n < m {
      UnseenTruncation(n, m, ivs);
    } else {
      FreeTailSymmetric(n, m, ivs);
      UnseenTruncation(m, n, ivs);
    }
  }

  // ----------------------------------------------- the overlap check of the manifest

  /** Every interval ends before any later one starts. */
  ghost predicate Apart(ivs: seq<Interval>) {
    forall i, j :: 0 <= i < j < |ivs| ==> ivs[i].end <= ivs[j].start
  }

  /** One of the two ends before the other starts. */
  predicate Clear(a: Interval, b: Interval) {
    a.end <= b.start || b.end <= a.start
  }

  /** In whatever order they are listed, any two intervals are clear of each other. */
  ghost predicate Disjoint(ivs: seq<Interval>) {
    forall i, j :: 0 <= i < j < |ivs| ==> Clear(ivs[i], ivs[j])
  }

  /** Comparing neighbours in the sorted list decides the question for all pairs. */
  method CheckOverlap(ivs: seq<Interval>) returns (ok: bool)
    requires Ordered(ivs)
    ensures ok <==> Apart(ivs)
  {
    var k := 1;
    while k < |ivs|
      invariant 1 <= k && (k <= |ivs| ==> Apart(ivs[..k]))
      invariant k > |ivs| ==> |ivs| == 0
    {
      if ivs[k - 1].end > ivs[k].start {
        return false;
      }
      forall i | 0 <= i < k ensures ivs[i].end <= ivs[k].start {
        if i < k - 1 {
          assert ivs[..k][i].end <= ivs[..k][k - 1].start;
        }
      }
      k := k + 1;
    }
    assert |ivs| > 0 ==> ivs[..|ivs|] == ivs;
    return true;
  }
}
