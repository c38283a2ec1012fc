/** The layout of the n-gram heads of all layers: one pool of sizes, handed out order by order and layer
    by layer. */
module HeadLayout {
  import opened Basics
  import opened PrimeSearch
  import opened Runs

  datatype LayoutResult =
    | Layout(sizes: map<int, seq<int>>)
    | SizeMismatch(layer: int, total: int, expected: int)

  function Count(n: int): nat {
    if n < 0 then 0 else n
  }

  /** Heads of one layer: one row of heads per n-gram order. */
  function PerLayer(maxNgram: int, heads: int): nat {
    Count(maxNgram - 1) * Count(heads)
  }

  /** What the layout hands out: per layer one block of equal length, each summing to the
      configured number of embeddings, and together one gap-free run of accepted numbers. */
  ghost predicate GoodBlocks(blocks: seq<seq<int>>, expected: seq<int>, v: int, per: nat) {
    |blocks| <= |expected| &&
    (forall i :: 0 <= i < |blocks| ==> |blocks[i]| == per && Sum(blocks[i]) == expected[i]) &&
    Run(AcceptedNumbers(), v, Concat(blocks))
  }

  /** The value stored for id is the block of the last position carrying that id. */
  ghost predicate StoredLast(sizes: map<int, seq<int>>, ids: seq<int>, blocks: seq<seq<int>>, id: int)
    requires |blocks| <= |ids| && id in sizes
  {
    exists i :: 0 <= i < |blocks| && ids[i] == id && sizes[id] == blocks[i] &&
                forall j :: i < j < |blocks| ==> ids[j] != id
  }

  /** Later entries of a repeated layer id overwrite earlier ones. */
  ghost predicate Stores(sizes: map<int, seq<int>>, ids: seq<int>, blocks: seq<seq<int>>)
    requires |blocks| <= |ids|
  {
    (forall i :: 0 <= i < |blocks| ==> ids[i] in sizes) &&
    (forall id :: id in sizes ==> StoredLast(sizes, ids, blocks, id))
  }

  lemma AppendBlock(blocks: seq<seq<int>>, sizes: seq<int>)
    ensures Concat(blocks + [sizes]) == Concat(blocks) + sizes
  {
    assert (blocks + [sizes])[..|blocks|] == blocks;
  }

  /** blocks are the head sizes of the layers laid out so far, and result is what follows from them: the
      stored sizes of all layers, or the first layer whose sizes miss their configured sum. */
  ghost predicate Explains(result: LayoutResult, blocks: seq<seq<int>>, ids: seq<int>, expected: seq<int>,
                           v: int, per: nat)
  {
    |blocks| <= |ids| && GoodBlocks(blocks, expected, v, per) &&
    match result
    case Layout(sizes) => |blocks| == Min(|ids|, |expected|) && Stores(sizes, ids, blocks)
    case SizeMismatch(layer, total, want) =>
      |blocks| < |ids| && |blocks| < |expected| && layer == ids[|blocks|] && want == expected[|blocks|] != total &&
      exists bad :: NextBlock(bad, blocks, v, per) && Sum(bad) == total
  }

  ghost predicate NextBlock(bad: seq<int>, blocks: seq<seq<int>>, v: int, per: nat) {
    |bad| == per && Run(AcceptedNumbers(), v, Concat(blocks + [bad]))
  }

  method Layouts(ids: seq<int>, expected: seq<int>, maxNgram: int, vocab: int, heads: int)
    returns (result: LayoutResult)
    ensures exists blocks :: Explains(result, blocks, ids, expected, vocab, PerLayer(maxNgram, heads))
  {
    hide AcceptedNumbers, Run, Tracks, Concat, Sum;
    ghost var per := PerLayer(maxNgram, heads);
    var pool := new HeadPool();
    var out: map<int, seq<int>> := map[];
    ghost var blocks: seq<seq<int>> := [];
    NothingUsed(vocab);
    var n := if |ids| <= |expected| then |ids| else |expected|;
    for i := 0 to n
      invariant |blocks| == i && GoodBlocks(blocks, expected, vocab, per)
      invariant Tracks(AcceptedNumbers(), vocab, pool.seen, Concat(blocks))
      invariant Stores(out, ids, blocks)
    {
      var sizes := pool.LayerSizes(vocab, Count(maxNgram - 1), Count(heads), Concat(blocks));
      AppendBlock(blocks, sizes);
      if Sum(sizes) != expected[i] {
        result := SizeMismatch(ids[i], Sum(sizes), expected[i]);
        assert NextBlock(sizes, blocks, vocab, per);
        assert Explains(result, blocks, ids, expected, vocab, per);
        return;
      }
      out := out[ids[i] := sizes];
      blocks := blocks + [sizes];
    }
    result := Layout(out);
    assert Explains(result, blocks, ids, expected, vocab, per);
  }

  lemma NothingUsed(v: int)
    ensures Concat<int>([]) == [] && Tracks(AcceptedNumbers(), v, {}, []) && Run(AcceptedNumbers(), v, [])
  {
  }

  /** Blocks of one gap-free run repeat no size, neither inside a layer nor across layers. */
  lemma HeadSizesDistinct(blocks: seq<seq<int>>, v: int, i: nat, j: nat, a: nat, b: nat)
    requires Run(AcceptedNumbers(), v, Concat(blocks))
    requires i < |blocks| && j < |blocks| && a < |blocks[i]| && b < |blocks[j]|
    requires i < j || (i == j && a < b)
    ensures blocks[i][a] < blocks[j][b]
  {
    var p := BlockPosition(blocks, i, a);
    var q := BlockPosition(blocks, j, b);
    PositionsOrdered(blocks, i, j);
  }

  ghost function Offset(blocks: seq<seq<int>>, i: nat): nat
    requires i <= |blocks|
  {
    |Concat(blocks[..i])|
  }

  lemma {:induction false} BlockPosition(blocks: seq<seq<int>>, i: nat, a: nat) returns (p: nat)
    requires i < |blocks| && a < |blocks[i]|
    ensures p == Offset(blocks, i) + a < |Concat(blocks)| && Concat(blocks)[p] == blocks[i][a]
    decreases |blocks|
  {
    var k := |blocks| - 1;
    p := Offset(blocks, i) + a;
    if i < k {
      var q := BlockPosition(blocks[..k], i, a);
      assert blocks[..k][..i] == blocks[..i];
    }
  }

  lemma {:induction false} PositionsOrdered(blocks: seq<seq<int>>, i: nat, j: nat)
    requires i <= j < |blocks|
    ensures i < j ==> Offset(blocks, i) + |blocks[i]| <= Offset(blocks, j)
    decreases j
  {
    if i < j {
      assert blocks[..j][..j - 1] == blocks[..j - 1];
      if i < j - 1 {
        PositionsOrdered(blocks, i, j - 1);
      }
    }
  }

  // -------------------------------------------------------- the layout is determined

  lemma {:induction false} ConcatLength(blocks: seq<seq<int>>, per: nat)
    requires forall i :: 0 <= i < |blocks| ==> |blocks[i]| == per
    ensures |Concat(blocks)| == |blocks| * per
  {
    if blocks != [] {
      ConcatLength(blocks[..|blocks| - 1], per);
      assert |blocks| * per == (|blocks| - 1) * per + per;
    }
  }

  lemma {:induction false} ConcatPrefix(blocks: seq<seq<int>>, k: nat)
    requires k <= |blocks|
    ensures Concat(blocks[..k]) <= Concat(blocks)
    decreases |blocks|
  {
    var n := |blocks| - 1;
    if k <= n {
      assert blocks[..n][..k] == blocks[..k];
      ConcatPrefix(blocks[..n], k);
    } else {
      assert blocks[..k] == blocks;
    }
  }

  lemma RunPrefix(a: iset<int>, v: int, s: seq<int>, t: seq<int>)
    requires Run(a, v, t) && s <= t
    ensures Run(a, v, s)
  {
    forall y | |s| > 0 && v <= y <= s[|s| - 1] && y in a ensures y in s {
      assert y in t;
      var i :| 0 <= i < |t| && t[i] == y;
      assert i < |s|;
    }
  }

  lemma {:induction false} SameBlocks(b: seq<seq<int>>, c: seq<seq<int>>, per: nat)
    requires |b| == |c| && Concat(b) == Concat(c)
    requires forall i :: 0 <= i < |b| ==> |b[i]| == per && |c[i]| == per
    ensures b == c
  {
    if b != [] {
      var n := |b| - 1;
      var f, g := Concat(b[..n]), Concat(c[..n]);
      ConcatLength(b[..n], per);
      ConcatLength(c[..n], per);
      assert f == (f + b[n])[..|f|] && g == (g + c[n])[..|g|];
      assert b[n] == (f + b[n])[|f|..] && c[n] == (g + c[n])[|g|..];
      SameBlocks(b[..n], c[..n], per);
      assert b == b[..n] + [b[n]] && c == c[..n] + [c[n]];
    }
  }

  ghost predicate Laid(blocks: seq<seq<int>>, v: int, per: nat) {
    (forall i :: 0 <= i < |blocks| ==> |blocks[i]| == per) && Run(AcceptedNumbers(), v, Concat(blocks))
  }

  /** Of two layouts the shorter one begins the longer one. */
  lemma LaidAgree(b: seq<seq<int>>, c: seq<seq<int>>, v: int, per: nat)
    requires Laid(b, v, per) && Laid(c, v, per) && |b| <= |c|
    ensures b == c[..|b|]
  {
    hide AcceptedNumbers, Concat;
    var d := c[..|b|];
    ConcatPrefix(c, |b|);
    hide Run;
    RunPrefix(AcceptedNumbers(), v, Concat(d), Concat(c));
    ConcatLength(b, per);
    ConcatLength(d, per);
    RunUnique(AcceptedNumbers(), v, Concat(b), Concat(d));
    SameBlocks(b, d, per);
  }

  /** A mismatch is reported at the first layer that misses, whatever comes later. */
  lemma MismatchStops(bad: seq<int>, blocks: seq<seq<int>>, c: seq<seq<int>>, expected: seq<int>, v: int, per: nat)
    requires GoodBlocks(blocks, expected, v, per) && NextBlock(bad, blocks, v, per)
    requires Laid(c, v, per) && |blocks| < |c|
    ensures c[|blocks|] == bad && c[..|blocks|] == blocks
  {
    hide AcceptedNumbers, Run, Concat, Sum;
    var b := blocks + [bad];
    LaidAgree(b, c, v, per);
    assert c[..|b|][..|blocks|] == c[..|blocks|] && c[..|b|][|blocks|] == c[|blocks|];
  }

  /** The configuration determines the layout: every explanation has the same blocks and result. */
  lemma LayoutDetermined(r: LayoutResult, b: seq<seq<int>>, q: LayoutResult, c: seq<seq<int>>,
                         ids: seq<int>, expected: seq<int>, v: int, per: nat)
    requires Explains(r, b, ids, expected, v, per) && Explains(q, c, ids, expected, v, per) && |b| <= |c|
    ensures b == c && r == q
  {
    hide AcceptedNumbers, Run, Concat, Sum, Stores;
    LaidAgree(b, c, v, per);
    assert |b| == |c| ==> c[..|b|] == c;
    if r.SizeMismatch? {
      var bad :| NextBlock(bad, b, v, per) && Sum(bad) == r.total;
      if |b| < |c| {
        MismatchStops(bad, b, c, expected, v, per);
      } else if q.SizeMismatch? {
        var other :| NextBlock(other, c, v, per) && Sum(other) == q.total;
        MismatchStops(bad, b, c + [other], expected, v, per);
      }
    } else {
      LayoutsStoreSame(r, q, ids, b);
    }
  }

  lemma LayoutsStoreSame(r: LayoutResult, q: LayoutResult, ids: seq<int>, b: seq<seq<int>>)
    requires |b| <= |ids| && r.Layout? && Stores(r.sizes, ids, b)
    requires q.Layout? && Stores(q.sizes, ids, b)
    ensures r == q
  {
    if r.sizes != q.sizes {
      var id := DifferAt(r.sizes, q.sizes);
    }
  }

  // -------------------------------------------------------- what a layout gives

  /** The layer at position i is the last one with its id. */
  ghost predicate LastOf(ids: seq<int>, expected: seq<int>, i: nat)
    requires i < |ids|
  {
    i < |expected| && forall j :: i < j < |ids| && j < |expected| ==> ids[j] != ids[i]
  }

  /** Every configured layer is stored, with one size per order and head, in total as configured; the sizes are
      accepted numbers from the vocabulary size on, increasing within the layer and from layer to layer. */
  lemma LayoutGives(sizes: map<int, seq<int>>, blocks: seq<seq<int>>, ids: seq<int>, expected: seq<int>, v: int,
                    maxNgram: int, heads: int, i: nat, j: nat)
    requires Explains(Layout(sizes), blocks, ids, expected, v, PerLayer(maxNgram, heads))
    requires i < |ids| && j < |ids| && LastOf(ids, expected, i) && LastOf(ids, expected, j)
    ensures ids[i] in sizes && ids[j] in sizes && Sum(sizes[ids[i]]) == expected[i]
    ensures |sizes[ids[i]]| == if maxNgram > 1 && heads > 0 then (maxNgram - 1) * heads else 0
    ensures forall x :: x in sizes[ids[i]] ==> v <= x && Accepted(x)
    ensures forall a, b :: 0 <= a < b < |sizes[ids[i]]| ==> sizes[ids[i]][a] < sizes[ids[i]][b]
    ensures forall a, b :: i < j && 0 <= a < |sizes[ids[i]]| && 0 <= b < |sizes[ids[j]]|
                           ==> sizes[ids[i]][a] < sizes[ids[j]][b]
  {
    hide Accepted, Concat, Sum, Run;
    StoredAt(sizes, blocks, ids, expected, i);
    StoredAt(sizes, blocks, ids, expected, j);
    Heads(maxNgram, heads);
    forall a | 0 <= a < |blocks[i]| ensures v <= blocks[i][a] && Accepted(blocks[i][a]) {
      InRun(blocks, v, i, a);
    }
    forall k, a, b | (k == i && 0 <= a < b < |blocks[i]| && 0 <= b < |blocks[k]|)
                     || (k == j && i < j && 0 <= a < |blocks[i]| && 0 <= b < |blocks[k]|)
      ensures blocks[i][a] < blocks[k][b]
    {
      HeadSizesDistinct(blocks, v, i, k, a, b);
    }
  }

  lemma StoredAt(sizes: map<int, seq<int>>, blocks: seq<seq<int>>, ids: seq<int>, expected: seq<int>, i: nat)
    requires |blocks| == Min(|ids|, |expected|) && Stores(sizes, ids, blocks)
    requires i < |ids| && LastOf(ids, expected, i)
    ensures i < |blocks| && ids[i] in sizes && sizes[ids[i]] == blocks[i]
  {
    assert ids[i] in sizes;
    assert StoredLast(sizes, ids, blocks, ids[i]);
  }

  lemma Heads(maxNgram: int, heads: int)
    ensures PerLayer(maxNgram, heads) == if maxNgram > 1 && heads > 0 then (maxNgram - 1) * heads else 0
  {
  }

  lemma InRun(blocks: seq<seq<int>>, v: int, i: nat, a: nat)
    requires Run(AcceptedNumbers(), v, Concat(blocks)) && i < |blocks| && a < |blocks[i]|
    ensures v <= blocks[i][a] && Accepted(blocks[i][a])
  {
    var p := BlockPosition(blocks, i, a);
    assert Concat(blocks)[p] in AcceptedNumbers();
  }

  /** No accepted number from the vocabulary size up to a size handed out is left out. */
  lemma NoneSkipped(blocks: seq<seq<int>>, v: int, i: nat, a: nat, y: int) returns (k: nat, b: nat)
    requires Run(AcceptedNumbers(), v, Concat(blocks)) && i < |blocks| && a < |blocks[i]|
    requires Accepted(y) && v <= y <= blocks[i][a]
    ensures k < |blocks| && b < |blocks[k]| && blocks[k][b] == y
  {
    hide Accepted;
    var flat := Concat(blocks);
    var p := BlockPosition(blocks, i, a);
    assert y <= flat[p] <= flat[|flat| - 1] && y in AcceptedNumbers();
    var q :| 0 <= q < |flat| && flat[q] == y;
    k, b := BlockOf(blocks, q);
  }

  lemma {:induction false} BlockOf(blocks: seq<seq<int>>, q: nat) returns (k: nat, b: nat)
    requires q < |Concat(blocks)|
    ensures k < |blocks| && b < |blocks[k]| && blocks[k][b] == Concat(blocks)[q]
    decreases |blocks|
  {
    var n := |blocks| - 1;
    var front := Concat(blocks[..n]);
    if q < |front| {
      k, b := BlockOf(blocks[..n], q);
    } else {
      k, b := n, q - |front|;
    }
  }

  /** A mismatch names the first layer whose sizes miss the configured total, with the total they have. */
  lemma MismatchGives(layer: int, total: int, want: int, blocks: seq<seq<int>>, ids: seq<int>, expected: seq<int>,
                      v: int, maxNgram: int, heads: int) returns (bad: seq<int>)
    requires Explains(SizeMismatch(layer, total, want), blocks, ids, expected, v, PerLayer(maxNgram, heads))
    ensures |blocks| < |ids| && |blocks| < |expected| && layer == ids[|blocks|] && want == expected[|blocks|]
    ensures total == Sum(bad) != want && Run(AcceptedNumbers(), v, Concat(blocks + [bad]))
    ensures |bad| == if maxNgram > 1 && heads > 0 then (maxNgram - 1) * heads else 0
    ensures forall i :: 0 <= i < |blocks| ==> Sum(blocks[i]) == expected[i]
  {
    hide Run, Sum, Concat;
    Heads(maxNgram, heads);
    bad :| NextBlock(bad, blocks, v, PerLayer(maxNgram, heads)) && Sum(bad) == total;
  }
}
