/** Emulation of signed eight-bit block quantisation, over exact reals: each block is scaled so that its
    largest element becomes 127, rounded half away from zero, clipped, and scaled back. */
module Q8 {
  import CacheQuant
  import NumberTheory

  const LEVELS := 127.0

  /** Rounds to the nearest integer, halves away from zero. */
  function RoundAway(x: real): (n: int)
    ensures CacheQuant.Abs(n as real - x) <= 0.5
    ensures CacheQuant.Abs(n as real - x) == 0.5 ==> CacheQuant.Abs(x) < CacheQuant.Abs(n as real)
  {
    if x >= 0.0 then (x + 0.5).Floor else -((0.5 - x).Floor)
  }

  function Clip(n: int): int {
    if n < -127 then -127 else if n > 127 then 127 else n
  }

  function StepSize(a: real): real {
    a / LEVELS
  }

  function InverseStep(a: real): real {
    if a > 0.0 then LEVELS / a else 0.0
  }

  function Ratio(z: real, a: real): real {
    z * InverseStep(a)
  }

  /** The stored integer of one element of a block whose absolute maximum is a. */
  function Quant(z: real, a: real): int {
    Clip(RoundAway(Ratio(z, a)))
  }

  function Emulated(z: real, a: real): real {
    Quant(z, a) as real * StepSize(a)
  }

  function Block(z: seq<real>): (out: seq<real>)
    ensures |out| == |z|
    ensures forall i :: 0 <= i < |z| ==> out[i] == Emulated(z[i], CacheQuant.AbsMax(z))
  {
    seq(|z|, i requires 0 <= i < |z| => Emulated(z[i], CacheQuant.AbsMax(z)))
  }

  // -------------------------------------------------------- one element

  lemma Steps(a: real)
    requires 0.0 < a
    ensures 0.0 < InverseStep(a) && InverseStep(a) * StepSize(a) == 1.0 && a * InverseStep(a) == LEVELS
  {
  }

  /** Scaling brings an element into range, and the step size undoes it. */
  lemma Scaled(z: real, a: real)
    requires 0.0 < a && CacheQuant.Abs(z) <= a
    ensures CacheQuant.Abs(Ratio(z, a)) <= LEVELS
    ensures Ratio(z, a) * StepSize(a) == z
  {
    hide InverseStep, StepSize;
    Steps(a);
  }

  /** The rounded value already lies in range, so the clip does nothing. */
  predicate Unclipped(z: real, a: real) {
    Quant(z, a) == RoundAway(Ratio(z, a))
  }

  /** The clip is never needed. */
  lemma NoClip(z: real, a: real)
    requires 0.0 <= a && CacheQuant.Abs(z) <= a
    ensures Unclipped(z, a)
  {
    if 0.0 < a {
      hide InverseStep;
      Scaled(z, a);
    }
  }

  /** An element moves by at most half a step. */
  lemma HalfStep(z: real, a: real)
    requires 0.0 < a && CacheQuant.Abs(z) <= a
    ensures CacheQuant.Abs(Emulated(z, a) - z) <= a / 254.0
  {
    hide Ratio, StepSize, Quant;
    NoClip(z, a);
    Scaled(z, a);
    var t := Ratio(z, a);
    WithinHalf(z, a, t, Quant(z, a) as real, Emulated(z, a));
  }

  lemma WithinHalf(z: real, a: real, t: real, n: real, y: real)
    requires 0.0 < a && z == t * StepSize(a) && y == n * StepSize(a) && CacheQuant.Abs(n - t) <= 0.5
    ensures CacheQuant.Abs(y - z) <= a / 254.0
  {
    CacheQuant.ScaledDistance(t, n, StepSize(a), z, y, 0.5);
  }

  /** The largest element is a fixed point. */
  lemma PeakFixed(z: real, a: real)
    requires 0.0 < a && CacheQuant.Abs(z) == a
    ensures Emulated(z, a) == z
  {
    NoClip(z, a);
    hide InverseStep, StepSize, Quant;
    Steps(a);
    Scaled(z, a);
    var t := Ratio(z, a);
    assert t == if z < 0.0 then -LEVELS else LEVELS;
    assert RoundAway(t) as real == t;
  }

  /** A whole number of steps is reproduced. */
  lemma WholeSteps(n: int, a: real)
    requires 0.0 < a && -127 <= n <= 127
    ensures Emulated(n as real * StepSize(a), a) == n as real * StepSize(a)
  {
    hide InverseStep, StepSize, Quant;
    Steps(a);
    WholeQuant(n as real * StepSize(a), n, a);
  }

  lemma WholeQuant(z: real, n: int, a: real)
    requires Ratio(z, a) == n as real && -127 <= n <= 127
    ensures Quant(z, a) == n
  {
    assert RoundAway(n as real) == n;
  }

  // -------------------------------------------------------- a whole block

  /** What quantising a block does to each element: no clip, at most half a step of movement, and zero
      throughout when the block is zero. */
  lemma BlockError(z: seq<real>, i: nat)
    requires i < |z|
    ensures Unclipped(z[i], CacheQuant.AbsMax(z))
    ensures CacheQuant.Abs(Block(z)[i] - z[i]) <= CacheQuant.AbsMax(z) / 254.0
    ensures CacheQuant.AbsMax(z) == 0.0 ==> Block(z)[i] == 0.0
  {
    hide Emulated, Unclipped;
    ElementError(z[i], CacheQuant.AbsMax(z));
  }

  lemma ElementError(z: real, a: real)
    requires 0.0 <= a && CacheQuant.Abs(z) <= a
    ensures Unclipped(z, a) && CacheQuant.Abs(Emulated(z, a) - z) <= a / 254.0
    ensures a == 0.0 ==> Emulated(z, a) == 0.0
  {
    hide Unclipped, Emulated;
    NoClip(z, a);
    if 0.0 < a {
      HalfStep(z, a);
    } else {
      ZeroStep(z);
    }
  }

  lemma InRange(z: real, a: real)
    requires 0.0 < a && CacheQuant.Abs(z) <= a
    ensures CacheQuant.Abs(Emulated(z, a)) <= a
  {
    hide InverseStep, RoundAway;
    StepsInRange(Quant(z, a) as real, a, Emulated(z, a));
  }

  lemma StepsInRange(n: real, a: real, y: real)
    requires 0.0 < a && -LEVELS <= n <= LEVELS && y == n * StepSize(a)
    ensures CacheQuant.Abs(y) <= a
  {
    var s := StepSize(a);
    assert LEVELS * s == a;
    CacheQuant.Times(n, LEVELS, s);
    CacheQuant.Times(-n, LEVELS, s);
  }

  /** Quantising keeps the absolute maximum of a block. */
  lemma SamePeak(z: seq<real>)
    ensures CacheQuant.AbsMax(Block(z)) == CacheQuant.AbsMax(z)
  {
    hide Emulated, CacheQuant.AbsMax;
    var a, out := CacheQuant.AbsMax(z), Block(z);
    if a > 0.0 {
      forall i | 0 <= i < |z| ensures CacheQuant.Abs(out[i]) <= a && (CacheQuant.Abs(z[i]) == a ==> out[i] == z[i]) {
        InRange(z[i], a);
        if CacheQuant.Abs(z[i]) == a { PeakFixed(z[i], a); }
      }
    }
    forall i | 0 <= i < |z| ensures a == 0.0 ==> out[i] == 0.0 {
      BlockError(z, i);
    }
  }

  /** Requantising changes nothing. */
  lemma Idempotent(z: seq<real>)
    ensures Block(Block(z)) == Block(z)
  {
    hide Emulated, CacheQuant.AbsMax, StepSize;
    var a, out := CacheQuant.AbsMax(z), Block(z);
    SamePeak(z);
    forall i | 0 <= i < |z| ensures Emulated(out[i], a) == out[i] {
      TwiceEmulated(z[i], a);
    }
  }

  lemma TwiceEmulated(z: real, a: real)
    requires 0.0 <= a
    ensures Emulated(Emulated(z, a), a) == Emulated(z, a)
  {
    hide StepSize, InverseStep, RoundAway;
    if a > 0.0 {
      WholeSteps(Quant(z, a), a);
    } else {
      ZeroStep(z);
      ZeroStep(Emulated(z, 0.0));
    }
  }

  lemma ZeroStep(z: real)
    ensures Emulated(z, 0.0) == 0.0
  {
  }

  // -------------------------------------------------------- an array of blocks

  /** Where the block holding element k begins. */
  function Start(k: nat, size: nat): (b: nat)
    requires 0 < size
    ensures b <= k < b + size
  {
    k - k % size
  }

  lemma WholeBlocks(q: int, r: int, m: int, size: nat)
    requires 0 <= r < size && q * size + r < m * size
    ensures q * size + size <= m * size
  {
    if m <= q {
      NumberTheory.MulMonotone(m, q, size);
    } else {
      NumberTheory.MulMonotone(q + 1, m, size);
      assert (q + 1) * size == q * size + size;
    }
  }

  /** Blocks fit an array of whole blocks. */
  lemma StartFits(k: nat, n: nat, size: nat)
    requires 0 < size && k < n && n % size == 0
    ensures Start(k, size) + size <= n
  {
    WholeBlocks(k / size, k % size, n / size, size);
  }

  /** The elements of a block have the same start. */
  lemma SameStart(k: nat, j: nat, size: nat)
    requires 0 < size && Start(k, size) <= j < Start(k, size) + size
    ensures Start(j, size) == Start(k, size)
  {
    NumberTheory.DivModUnique(j, size, k / size, j - Start(k, size));
  }

  function BlockAt(x: seq<real>, size: nat, k: nat): (z: seq<real>)
    requires 0 < size && |x| % size == 0 && k < |x|
    ensures |z| == size
  {
    StartFits(k, |x|, size);
    x[Start(k, size)..Start(k, size) + size]
  }

  /** The emulation of an array of whole blocks. */
  function Emulate(x: seq<real>, size: nat): (out: seq<real>)
    requires 0 < size && |x| % size == 0
    ensures |out| == |x|
    ensures forall k :: 0 <= k < |x| ==> out[k] == Block(BlockAt(x, size, k))[k % size]
  {
    seq(|x|, k requires 0 <= k < |x| => Block(BlockAt(x, size, k))[k % size])
  }

  lemma EmulatedElement(x: seq<real>, size: nat, k: nat, j: nat)
    requires 0 < size && |x| % size == 0 && k < |x| && j < |x| && Start(j, size) == Start(k, size)
    ensures Emulate(x, size)[j] == Block(BlockAt(x, size, k))[j % size]
  {
    hide Block, Start;
    assert BlockAt(x, size, j) == BlockAt(x, size, k);
  }

  lemma ElementOfBlock(x: seq<real>, size: nat, k: nat, b: nat, i: nat)
    requires 0 < size && |x| % size == 0 && k < |x| && b == Start(k, size) && i < size && b + i < |x|
    ensures Emulate(x, size)[b + i] == Block(BlockAt(x, size, k))[i]
  {
    hide Block, BlockAt, Start, Emulate;
    SameStart(k, b + i, size);
    OffsetIn(k, i, size);
    EmulatedElement(x, size, k, b + i);
  }

  /** Each block of the result is the quantised block of the input. */
  lemma BlocksOfEmulated(x: seq<real>, size: nat, k: nat)
    requires 0 < size && |x| % size == 0 && k < |x|
    ensures BlockAt(Emulate(x, size), size, k) == Block(BlockAt(x, size, k))
  {
    hide Block, Start, Emulate, BlockAt;
    var out, b, z := Emulate(x, size), Start(k, size), Block(BlockAt(x, size, k));
    StartFits(k, |x|, size);
    forall i: nat | i < size ensures out[b + i] == z[i] {
      ElementOfBlock(x, size, k, b, i);
    }
    SliceIs(out, b, z);
    BlockIsSlice(out, size, k, b);
  }

  lemma SliceIs(s: seq<real>, b: nat, z: seq<real>)
    requires b + |z| <= |s| && forall i: nat :: i < |z| ==> s[b + i] == z[i]
    ensures s[b..b + |z|] == z
  {
  }

  lemma BlockIsSlice(x: seq<real>, size: nat, k: nat, b: nat)
    requires 0 < size && |x| % size == 0 && k < |x| && b == Start(k, size)
    ensures b + size <= |x| && BlockAt(x, size, k) == x[b..b + size]
  {
    hide Start;
    StartFits(k, |x|, size);
  }

  lemma OffsetIn(k: nat, i: nat, size: nat)
    requires i < size
    ensures (Start(k, size) + i) % size == i
  {
    SameStart(k, Start(k, size) + i, size);
  }

  /** Requantising an array changes nothing, whatever the block size and the number of blocks. */
  lemma EmulateIdempotent(x: seq<real>, size: nat)
    requires 0 < size && |x| % size == 0
    ensures Emulate(Emulate(x, size), size) == Emulate(x, size)
  {
    hide Block, BlockAt, Start;
    forall k | 0 <= k < |x| ensures Emulate(Emulate(x, size), size)[k] == Emulate(x, size)[k] {
      BlocksOfEmulated(x, size, k);
      Idempotent(BlockAt(x, size, k));
    }
  }

  /** Every element of an array moves by at most 1/254 of the absolute maximum of its block, without
      clipping; a zero block stays zero. */
  lemma EmulateError(x: seq<real>, size: nat, k: nat)
    requires 0 < size && |x| % size == 0 && k < |x|
    ensures var a := CacheQuant.AbsMax(BlockAt(x, size, k));
            Unclipped(x[k], a) && CacheQuant.Abs(Emulate(x, size)[k] - x[k]) <= a / 254.0
            && (a == 0.0 ==> Emulate(x, size)[k] == 0.0)
  {
    hide Block, Unclipped, CacheQuant.AbsMax;
    StartFits(k, |x|, size);
    BlockError(BlockAt(x, size, k), k % size);
  }

  // -------------------------------------------------------- the output is quantised

  /** Every output is a whole number of steps of its block's maximum: the number nearest to the element, with
      halves away from zero, between -127 and 127. */
  lemma EmulateGives(x: seq<real>, size: nat, k: nat) returns (a: real, n: int)
    requires 0 < size && |x| % size == 0 && k < |x|
    ensures 0.0 <= a && forall j :: 0 <= j < |x| && j / size == k / size ==> -a <= x[j] <= a
    ensures exists j :: 0 <= j < |x| && j / size == k / size && (x[j] == a || x[j] == -a)
    ensures -127 <= n <= 127 && Emulate(x, size)[k] == n as real * a / 127.0
    ensures a > 0.0 ==> -0.5 <= n as real - x[k] * 127.0 / a <= 0.5
    ensures a > 0.0 && n as real - x[k] * 127.0 / a == 0.5 ==> n > 0
    ensures a > 0.0 && n as real - x[k] * 127.0 / a == -0.5 ==> n < 0
  {
    hide Emulated, Quant, Emulate, BlockAt, CacheQuant.AbsMax;
    a := CacheQuant.AbsMax(BlockAt(x, size, k));
    n := Quant(x[k], a);
    PeakGives(x, size, k);
    EmulatedAt(x, size, k);
    assert k / size == k / size;
    ElementGives(x[k], a);
  }

  lemma EmulatedAt(x: seq<real>, size: nat, k: nat)
    requires 0 < size && |x| % size == 0 && k < |x|
    ensures Emulate(x, size)[k] == Emulated(x[k], CacheQuant.AbsMax(BlockAt(x, size, k)))
  {
    hide Emulated, CacheQuant.AbsMax;
    StartFits(k, |x|, size);
    assert BlockAt(x, size, k)[k % size] == x[k];
  }

  lemma ElementGives(z: real, a: real)
    requires 0.0 <= a && -a <= z <= a
    ensures -127 <= Quant(z, a) <= 127 && Emulated(z, a) == Quant(z, a) as real * a / 127.0
    ensures a > 0.0 ==> -0.5 <= Quant(z, a) as real - z * 127.0 / a <= 0.5
    ensures a > 0.0 && Quant(z, a) as real - z * 127.0 / a == 0.5 ==> Quant(z, a) > 0
    ensures a > 0.0 && Quant(z, a) as real - z * 127.0 / a == -0.5 ==> Quant(z, a) < 0
  {
    NoClip(z, a);
    StepOf(Quant(z, a) as real, a);
    if a > 0.0 {
      RatioIs(z, a);
      hide Quant, Ratio;
      HalvesAway(Ratio(z, a));
    }
  }

  lemma StepOf(n: real, a: real)
    ensures n * StepSize(a) == n * a / 127.0
  {
  }

  lemma RatioIs(z: real, a: real)
    requires a > 0.0
    ensures Ratio(z, a) == z * 127.0 / a
  {
    var i := LEVELS / a;
    assert i * a == 127.0;
    assert (z * i) * a == z * 127.0;
  }

  lemma HalvesAway(t: real)
    ensures -0.5 <= RoundAway(t) as real - t <= 0.5
    ensures RoundAway(t) as real - t == 0.5 ==> RoundAway(t) > 0
    ensures RoundAway(t) as real - t == -0.5 ==> RoundAway(t) < 0
  {
  }

  /** The maximum of a block over the positions of the array that belong to it. */
  lemma PeakGives(x: seq<real>, size: nat, k: nat)
    requires 0 < size && |x| % size == 0 && k < |x|
    ensures var a := CacheQuant.AbsMax(BlockAt(x, size, k));
            (forall j :: 0 <= j < |x| && j / size == k / size ==> -a <= x[j] <= a) &&
            exists j :: 0 <= j < |x| && j / size == k / size && (x[j] == a || x[j] == -a)
  {
    var z, b := BlockAt(x, size, k), Start(k, size);
    var a := CacheQuant.AbsMax(z);
    StartFits(k, |x|, size);
    hide CacheQuant.AbsMax;
    forall j | 0 <= j < |x| && j / size == k / size ensures -a <= x[j] <= a {
      SameQuotient(j, k, size);
      assert z[j - b] == x[j] && CacheQuant.Abs(z[j - b]) <= a;
    }
    var i :| 0 <= i < |z| && CacheQuant.Abs(z[i]) == a;
    InQuotient(k, i, size);
    assert x[b + i] == z[i];
  }

  lemma SameQuotient(j: nat, k: nat, size: nat)
    requires 0 < size && j / size == k / size
    ensures Start(k, size) <= j < Start(k, size) + size
  {
  }

  lemma InQuotient(k: nat, i: nat, size: nat)
    requires i < size
    ensures (Start(k, size) + i) / size == k / size
  {
    NumberTheory.DivModUnique(Start(k, size) + i, size, k / size, i);
  }
}
