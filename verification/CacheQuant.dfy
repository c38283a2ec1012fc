/** Block quantisation of the key-value cache, over exact reals: a power-of-two scale per block, a
    clamp to +-448, rounding to the nearest E4M3FN value, and scaling back. */
module CacheQuant {
  import Bf16
  import NumberTheory

  const FP8_MAX := 448.0

  function Abs(x: real): real {
    if x < 0.0 then -x else x
  }

  // -------------------------------------------------------- powers of two and ceil(log2 x)

  function Pow2(e: int): (p: real)
    ensures 0.0 < p
    decreases Bf16.Abs(e)
  {
    if e == 0 then 1.0 else if e > 0 then 2.0 * Pow2(e - 1) else Pow2(e + 1) / 2.0
  }

  lemma Pow2Next(e: int)
    ensures Pow2(e + 1) == 2.0 * Pow2(e)
  {
  }

  lemma Pow2Zero()
    ensures Pow2(0) == 1.0
  {
  }

  /** Powers of two multiply as powers do. */
  lemma {:induction false} Pow2Join(e: int, f: int)
    ensures Pow2(e) * Pow2(f) == Pow2(e + f)
    decreases Bf16.Abs(f)
  {
    hide Pow2;
    Pow2Zero();
    if f > 0 {
      Pow2Join(e, f - 1);
      Pow2Next(f - 1);
      Pow2Next(e + f - 1);
      TwiceRight(Pow2(e), Pow2(f - 1), Pow2(e + f - 1));
    } else if f < 0 {
      Pow2Join(e, f + 1);
      Pow2Next(f);
      Pow2Next(e + f);
      TwiceRight(Pow2(e), Pow2(f), Pow2(e + f));
    }
  }

  lemma TwiceRight(a: real, b: real, c: real)
    ensures a * (2.0 * b) == 2.0 * c <==> a * b == c
  {
  }

  lemma {:induction false} Pow2Order(e: int, f: int)
    requires e < f
    ensures 2.0 * Pow2(e) <= Pow2(f)
    decreases f - e
  {
    hide Pow2;
    Pow2Next(f - 1);
    if e < f - 1 {
      Pow2Order(e, f - 1);
    }
  }

  function SearchDistance(x: real): nat
    requires 0.0 < x
  {
    if x > 1.0 then x.Floor else if x <= 0.5 then (1.0 / x).Floor else 0
  }

  lemma Quotient(a: real, b: real, q: real)
    requires b != 0.0 && q * b == a
    ensures a / b == q
  {
  }

  /** ceil(log2 x): the exponent whose power of two is the least one not below x. */
  function CeilLog2(x: real): (e: int)
    requires 0.0 < x
    ensures Pow2(e - 1) < x <= Pow2(e)
    decreases SearchDistance(x)
  {
    if x > 1.0 then
      Pow2Next(CeilLog2(x / 2.0)); Pow2Next(CeilLog2(x / 2.0) - 1);
      CeilLog2(x / 2.0) + 1
    else if x <= 0.5 then
      assert 1.0 <= 0.5 / x;
      Pow2Next(CeilLog2(2.0 * x) - 1); Pow2Next(CeilLog2(2.0 * x) - 2);
      CeilLog2(2.0 * x) - 1
    else 0
  }

  /** The exponent is at most e exactly when 2^e reaches x. */
  lemma CeilLog2AtMost(x: real, e: int)
    requires 0.0 < x
    ensures CeilLog2(x) <= e <==> x <= Pow2(e)
  {
    hide Pow2;
    var c := CeilLog2(x);
    if c < e {
      Pow2Order(c, e);
    }
    if e < c - 1 {
      Pow2Order(e, c - 1);
    }
  }

  // -------------------------------------------------------- the scale of a block

  /** The scale 2^ceil(log2(a / 448)) of a block whose clamped absolute maximum is a. */
  function Scale(a: real): real
    requires 0.0 < a
  {
    Pow2(CeilLog2(a / FP8_MAX))
  }

  /** The scale is the least power of two that brings the block into range, and no more than needed. */
  lemma ScaleIsLeast(a: real, e: int)
    requires 0.0 < a
    ensures Scale(a) <= Pow2(e) <==> a <= FP8_MAX * Pow2(e)
    ensures 224.0 * Scale(a) < a <= FP8_MAX * Scale(a)
  {
    hide Pow2, CeilLog2;
    var c := CeilLog2(a / FP8_MAX);
    Pow2Next(c - 1);
    CeilLog2AtMost(a / FP8_MAX, e);
    if c < e {
      Pow2Order(c, e);
    } else if e < c {
      Pow2Order(e, c);
    }
  }

  /** The 32-wide variant clamps the exponent to -127..127, which changes nothing exactly when the
      maximum lies in this range; every finite BF16 maximum clamped below at 1e-4 does. */
  lemma ExponentClampIdle(a: real)
    requires 0.0 < a
    ensures var e := CeilLog2(a / FP8_MAX);
            ClampInt(e, -127, 127) == e <==> FP8_MAX * Pow2(-128) < a <= FP8_MAX * Pow2(127)
    ensures 0.0001 <= a <= Pow2(128) ==> FP8_MAX * Pow2(-128) < a <= FP8_MAX * Pow2(127)
  {
    hide Pow2, CeilLog2;
    CeilLog2AtMost(a / FP8_MAX, 127);
    CeilLog2AtMost(a / FP8_MAX, -128);
    Pow2Next(127);
    Pow2Order(-128, -24);
    SmallScale();
  }

  function ClampInt(e: int, low: int, high: int): int
    requires low <= high
  {
    if e < low then low else if e > high then high else e
  }

  lemma SmallScale()
    ensures Pow2(-22) == 1.0 / 4194304.0 && Pow2(-24) == 1.0 / 16777216.0
  {
    assert Pow2(-8) == 1.0 / 256.0;
    assert Pow2(-16) == 1.0 / 65536.0;
    assert Pow2(-20) == 1.0 / 1048576.0;
  }

  // -------------------------------------------------------- E4M3FN values and rounding to them

  /** The value of an E4M3FN magnitude code; 126 is the largest finite one, 448. */
  function Value(c: nat): real {
    Bf16.E4M3(c) as real / 512.0
  }

  /** Neighbouring codes are one power of two apart, at most 32 below the largest code. */
  lemma ValueStep(c: nat)
    ensures 0.0 <= Value(c) < Value(c + 1)
    ensures c < 126 ==> Value(c + 1) - Value(c) <= 32.0
  {
    CodeStep(c);
    Bf16.SmallPowers();
    var e := if c / 8 == 0 then 0 else c / 8 - 1;
    if e < 14 {
      Bf16.Pow2Grows(e, 14);
    }
  }

  lemma CodeStep(c: nat)
    ensures Bf16.E4M3(c + 1) == Bf16.E4M3(c) + Bf16.Pow2(if c / 8 == 0 then 0 else c / 8 - 1)
  {
    var e, m := c / 8, c % 8;
    if m < 7 {
      assert (c + 1) / 8 == e && (c + 1) % 8 == m + 1;
    } else {
      assert (c + 1) / 8 == e + 1 && (c + 1) % 8 == 0;
    }
  }

  lemma {:induction false} ValueOrder(c: nat, d: nat)
    requires c < d
    ensures Value(c) < Value(d)
    decreases d
  {
    hide Value;
    ValueStep(d - 1);
    if c < d - 1 {
      ValueOrder(c, d - 1);
    }
  }

  lemma Landmarks()
    ensures Value(0) == 0.0 && Value(118) == 224.0 && Value(126) == FP8_MAX
    ensures Value(120) == 256.0 && Value(121) == 288.0
  {
    Bf16.SmallPowers();
    assert Bf16.Pow2(13) == 0x2000;
  }

  /** The largest code up to c whose value does not exceed t. */
  function Below(t: real, c: nat): (k: nat)
    requires 0.0 <= t
    ensures k <= c && (k < c ==> t < Value(k + 1)) && Value(k) <= t
  {
    Landmarks();
    if c == 0 || Value(c) <= t then c else Below(t, c - 1)
  }

  /** Rounds a magnitude to the nearest E4M3FN value, ties to the even code. */
  function Round(t: real): (c: nat)
    requires 0.0 <= t
    ensures c <= 126
  {
    var k := Below(t, 126);
    if k == 126 then k else
      var low, high := t - Value(k), Value(k + 1) - t;
      if low < high || (low == high && k % 2 == 0) then k else k + 1
  }

  /** No code is nearer, and at a tie the even one is taken. */
  lemma RoundNearest(t: real, d: nat)
    requires 0.0 <= t <= FP8_MAX && d <= 126
    ensures Abs(t - Value(Round(t))) <= Abs(t - Value(d))
    ensures d != Round(t) && Abs(t - Value(Round(t))) == Abs(t - Value(d)) ==> Round(t) % 2 == 0
  {
    hide Value, Below;
    Landmarks();
    var k := Below(t, 126);
    if d < k { ValueOrder(d, k); }
    if k + 1 < d { ValueOrder(k + 1, d); }
  }

  /** Rounding moves a value in range by at most 16. */
  lemma RoundError(t: real)
    requires 0.0 <= t <= FP8_MAX
    ensures Abs(t - Value(Round(t))) <= 16.0
  {
    hide Value, Below;
    Landmarks();
    ValueStep(Below(t, 126));
  }

  lemma RoundFixed(c: nat)
    requires c <= 126
    ensures Value(c) >= 0.0 && Round(Value(c)) == c
  {
    hide Value, Below, Round;
    Landmarks();
    if c > 0 { ValueOrder(0, c); }
    if c < 126 { ValueOrder(c, 126); }
    RoundNearest(Value(c), c);
    var r := Round(Value(c));
    if r < c { ValueOrder(r, c); }
    if c < r { ValueOrder(c, r); }
  }

  /** Rounding does not fall below a code that the value reaches. */
  lemma RoundReaches(t: real, c: nat)
    requires 0.0 <= t && c <= 126 && Value(c) <= t
    ensures Value(c) <= Value(Round(t))
  {
    hide Value;
    var k := Below(t, 126);
    if k + 1 < c { ValueOrder(k + 1, c); }
    if c < Round(t) { ValueOrder(c, Round(t)); }
  }

  function DoubleCode(c: nat): nat {
    if c < 8 then 2 * c else c + 8
  }

  lemma DoubleSmall(c: nat)
    requires c < 8
    ensures Bf16.E4M3(2 * c) == 2 * Bf16.E4M3(c)
  {
    if c < 4 {
      assert (2 * c) / 8 == 0 && (2 * c) % 8 == 2 * c;
    } else {
      assert (2 * c) / 8 == 1 && (2 * c) % 8 == 2 * c - 8;
      assert Bf16.Pow2(0) == 1;
    }
  }

  lemma DoubleLarge(c: nat)
    requires 8 <= c
    ensures Bf16.E4M3(c + 8) == 2 * Bf16.E4M3(c)
  {
    var e, m := c / 8, c % 8;
    assert (c + 8) / 8 == e + 1 && (c + 8) % 8 == m;
    NumberTheory.Associate(8 + m, Bf16.Pow2(e - 1), 2);
  }

  /** Twice a value is a value again as long as it stays in range. */
  lemma Doubled(c: nat)
    requires c <= 126 && 2.0 * Value(c) <= FP8_MAX
    ensures DoubleCode(c) <= 126 && Value(DoubleCode(c)) == 2.0 * Value(c)
  {
    hide Bf16.E4M3;
    if c < 8 { DoubleSmall(c); } else { DoubleLarge(c); }
    Landmarks();
    if DoubleCode(c) > 126 {
      ValueOrder(126, DoubleCode(c));
    }
  }

  // -------------------------------------------------------- quantise and dequantise

  function Clamp(t: real): real {
    if t < -FP8_MAX then -FP8_MAX else if t > FP8_MAX then FP8_MAX else t
  }

  /** One element: divide by the scale, clamp, round, multiply back. */
  function Qdq(x: real, s: real): real
    requires 0.0 < s
  {
    var t := Clamp(x / s);
    (if t < 0.0 then -Value(Round(Abs(t))) else Value(Round(Abs(t)))) * s
  }

  function AbsMax(block: seq<real>): (m: real)
    ensures 0.0 <= m && forall i :: 0 <= i < |block| ==> Abs(block[i]) <= m
    ensures |block| > 0 ==> exists i :: 0 <= i < |block| && Abs(block[i]) == m
  {
    if block == [] then 0.0 else
      var rest := AbsMax(block[1..]);
      assert forall i :: 0 < i < |block| ==> block[i] == block[1..][i - 1];
      assert Abs(block[0]) >= rest || exists i :: 0 <= i < |block| && Abs(block[i]) == rest by {
        if Abs(block[0]) < rest {
          assert block != [block[0]];
          var i :| 0 <= i < |block[1..]| && Abs(block[1..][i]) == rest;
          assert block[i + 1] == block[1..][i];
        }
      }
      if Abs(block[0]) >= rest then Abs(block[0]) else rest
  }

  /** The clamped absolute maximum of a block. */
  function Peak(block: seq<real>): (a: real)
    ensures a >= 0.0001
  {
    if AbsMax(block) < 0.0001 then 0.0001 else AbsMax(block)
  }

  function BlockScale(block: seq<real>): (s: real)
    ensures 0.0 < s
  {
    Scale(Peak(block))
  }

  function Dequantised(block: seq<real>): (out: seq<real>)
    ensures |out| == |block|
    ensures forall i :: 0 <= i < |block| ==> out[i] == Qdq(block[i], BlockScale(block))
  {
    seq(|block|, i requires 0 <= i < |block| => Qdq(block[i], BlockScale(block)))
  }

  /** Every element of a block is in range after scaling, so the clamp is the identity. */
  lemma ClampIdle(x: real, s: real)
    requires 0.0 < s && Abs(x) <= FP8_MAX * s
    ensures Clamp(x / s) == x / s && Abs(x / s) <= FP8_MAX && (x / s) * s == x
  {
  }

  lemma ScaledDistance(t: real, q: real, s: real, from: real, to: real, most: real)
    requires 0.0 < s && from == t * s && to == q * s && Abs(q - t) <= most
    ensures Abs(to - from) <= most * s
  {
    assert to - from == (q - t) * s;
    Times(q - t, most, s);
    Times(t - q, most, s);
    assert from - to == (t - q) * s;
  }

  /** An element in range moves by at most 16 scales. */
  lemma QdqError(x: real, s: real)
    requires 0.0 < s && Abs(x) <= FP8_MAX * s
    ensures Abs(Qdq(x, s) - x) <= 16.0 * s
  {
    hide Value, Round;
    ClampIdle(x, s);
    var t := x / s;
    var u := if t < 0.0 then -Value(Round(Abs(t))) else Value(Round(Abs(t)));
    RoundError(Abs(t));
    assert Abs(u - t) <= 16.0;
    ScaledDistance(t, u, s, x, Qdq(x, s), 16.0);
  }

  lemma AbsScaled(a: real, b: real, s: real, p: real, q: real)
    requires 0.0 < s && p == a * s && q == b * s
    ensures Abs(p - q) == Abs(a - b) * s
  {
    assert p - q == (a - b) * s;
    assert q - p == (b - a) * s;
  }

  lemma ScaleCompare(p: real, q: real, s: real)
    requires 0.0 < s
    ensures (p * s <= q * s <==> p <= q) && (p * s == q * s <==> p == q)
  {
    if p < q {
      StrictTimes(p, q, s);
    } else if q < p {
      StrictTimes(q, p, s);
    }
  }

  /** Nearer before scaling is nearer after it. */
  lemma NearerScaled(u: real, v: real, t: real, s: real, near: real, far: real, x: real)
    requires 0.0 < s && near == u * s && far == v * s && x == t * s
    ensures Abs(near - x) <= Abs(far - x) <==> Abs(u - t) <= Abs(v - t)
    ensures Abs(near - x) == Abs(far - x) <==> Abs(u - t) == Abs(v - t)
  {
    AbsScaled(u, t, s, near, x);
    AbsScaled(v, t, s, far, x);
    hide Abs;
    ScaleCompare(Abs(u - t), Abs(v - t), s);
  }

  lemma SignOfQuotient(x: real, s: real)
    requires 0.0 < s
    ensures x / s < 0.0 <==> x < 0.0
    ensures (x / s) * s == x
  {
  }

  /** Round-off with signs: the rounded size with the sign of t is nearest to t among all signed values. */
  lemma NearestSigned(t: real, other: bool, d: nat)
    requires Abs(t) <= FP8_MAX && d <= 126
    ensures var c, u, v := Round(Abs(t)), Signed(t < 0.0, Value(Round(Abs(t)))), Signed(other, Value(d));
            Abs(u - t) <= Abs(v - t) && (other == (t < 0.0) && d != c && Abs(u - t) == Abs(v - t) ==> c % 2 == 0)
  {
    hide Round;
    RoundNearest(Abs(t), d);
    hide Value;
    CodeInRange(d);
  }

  /** A dequantised element is an E4M3FN number at the scale, with the sign of the element. */
  lemma QdqCode(x: real, s: real) returns (c: nat)
    requires 0.0 < s && -448.0 * s <= x <= 448.0 * s
    ensures c <= 126 && c == Round(Abs(x / s)) && Qdq(x, s) == Signed(x < 0.0, Value(c)) * s
    ensures Abs(x / s) <= 448.0 && (x / s) * s == x && (x / s < 0.0 <==> x < 0.0)
  {
    hide Value, Round;
    ClampIdle(x, s);
    SignOfQuotient(x, s);
    c := Round(Abs(x / s));
  }

  /** No E4M3FN number w at the scale, of either sign, is nearer to the element than the one it becomes, v; at a tie
      its code c is even. */
  lemma QdqNearest(x: real, s: real, w: real, d: nat) returns (c: nat, v: real)
    requires 0.0 < s && -448.0 * s <= x <= 448.0 * s && d <= 126 && (w == Value(d) || w == -Value(d))
    ensures c <= 126 && v == (if x < 0.0 then -Value(c) else Value(c)) && Qdq(x, s) == v * s
    ensures Abs(v * s - x) <= Abs(w * s - x)
    ensures d != c && w == (if x < 0.0 then -Value(d) else Value(d)) && Abs(v * s - x) == Abs(w * s - x) ==> c % 2 == 0
  {
    hide Qdq, Value, Round, Abs;
    c := QdqCode(x, s);
    v := Signed(x < 0.0, Value(c));
    var t := x / s;
    NearestSigned(t, true, d);
    NearestSigned(t, false, d);
    var near, far := v * s, w * s;
    NearerScaled(v, w, t, s, near, far, x);
  }

  /** The scale of a block is the least power of two that brings its maximum, taken as at least 1e-4, to 448. */
  lemma BlockScaleGives(block: seq<real>) returns (e: int, a: real)
    ensures BlockScale(block) == Pow2(e) && 448.0 * Pow2(e - 1) < a <= 448.0 * Pow2(e)
    ensures a >= 0.0001 && forall i :: 0 <= i < |block| ==> -a <= block[i] <= a
    ensures a == 0.0001 || exists i :: 0 <= i < |block| && (block[i] == a || block[i] == -a)
  {
    a := Peak(block);
    e := CeilLog2(a / FP8_MAX);
    assert Abs(1.0) == 1.0;
    forall i | 0 <= i < |block| ensures -a <= block[i] <= a {
      assert Abs(block[i]) <= AbsMax(block);
    }
    hide Pow2, AbsMax;
    ScaleIsLeast(a, e);
    ScaleIsLeast(a, e - 1);
    Pow2Next(e - 1);
  }

  lemma Times(a: real, b: real, s: real)
    requires a <= b && 0.0 < s
    ensures a * s <= b * s
  {
  }

  /** The gate of one block: the clamp is idle, no element moves by more than 16 scales, and this is
      less than a fourteenth of the block's maximum exactly when the maximum exceeds 224 * 2^-22,
      hence whenever it is at least 1e-4. */
  lemma BlockGate(block: seq<real>, i: nat)
    requires i < |block|
    ensures Clamp(block[i] / BlockScale(block)) == block[i] / BlockScale(block)
    ensures -448.0 <= block[i] / BlockScale(block) <= 448.0
    ensures Abs(Dequantised(block)[i] - block[i]) <= 16.0 * BlockScale(block)
    ensures 16.0 * BlockScale(block) < AbsMax(block) / 14.0 <==> AbsMax(block) > 224.0 / 4194304.0
  {
    hide Qdq, Pow2, CeilLog2;
    var a, s := Peak(block), BlockScale(block);
    ScaleIsLeast(a, -22);
    SmallScale();
    ClampIdle(block[i], s);
    QdqError(block[i], s);
    FloorScale();
  }

  /** The scale of an all-but-zero block is 2^-22. */
  lemma FloorScale()
    ensures Scale(0.0001) == 1.0 / 4194304.0
  {
    hide CeilLog2;
    SmallScale();
    Pow2Next(-23);
    ScaleIsLeast(0.0001, -22);
    ScaleIsLeast(0.0001, -23);
    var c := CeilLog2(0.0001 / FP8_MAX);
    if c < -22 {
      if c < -23 { Pow2Order(c, -23); }
    } else if -22 < c {
      Pow2Order(-22, c);
    }
  }

  /** 16 scales is the best bound: the block (448, 272) attains it. */
  lemma BoundIsTight()
    ensures var block := [448.0, 272.0];
            BlockScale(block) == 1.0 && Abs(Dequantised(block)[1] - block[1]) == 16.0
  {
    hide Value, Round, AbsMax, Scale;
    var block := [448.0, 272.0];
    var m := AbsMax(block);
    assert Abs(block[0]) == 448.0 && Abs(block[1]) == 272.0;
    assert m == 448.0;
    UnitScale();
    TieRounds();
    Landmarks();
  }

  lemma UnitScale()
    ensures Scale(448.0) == 1.0
  {
    assert 448.0 / FP8_MAX == 1.0;
  }

  lemma TieRounds()
    ensures Round(272.0) == 120
  {
    hide Value;
    Landmarks();
    var k := Below(272.0, 126);
    if k < 120 { ValueOrder(k + 1, 121); }
    if k > 120 { ValueOrder(120, k); if k > 121 { ValueOrder(121, k); } }
    if k < 119 { ValueOrder(k + 1, 120); }
  }

  // -------------------------------------------------------- quantising twice

  function Signed(negative: bool, v: real): real {
    if negative then -v else v
  }

  /** A dequantised element is a signed E4M3FN value times the scale; large inputs stay large. */
  lemma QdqForm(x: real, s: real) returns (negative: bool, c: nat)
    requires 0.0 < s && Abs(x) <= FP8_MAX * s
    ensures c <= 126 && 0.0 <= Value(c) <= FP8_MAX && Qdq(x, s) == Signed(negative, Value(c)) * s
    ensures 224.0 * s <= Abs(x) ==> 224.0 <= Value(c)
  {
    hide Value, Round;
    ClampIdle(x, s);
    Landmarks();
    negative, c := x / s < 0.0, Round(Abs(x / s));
    CodeInRange(c);
    if 224.0 * s <= Abs(x) {
      QuotientAtLeast(x, s, 224.0);
      RoundReaches(Abs(x / s), 118);
    }
  }

  lemma CodeInRange(c: nat)
    requires c <= 126
    ensures 0.0 <= Value(c) <= FP8_MAX
  {
    hide Value;
    Landmarks();
    RoundFixed(c);
    if c < 126 { ValueOrder(c, 126); }
  }

  lemma QuotientAtLeast(x: real, s: real, b: real)
    requires 0.0 < s && b * s <= Abs(x)
    ensures b <= Abs(x / s)
  {
    var t := x / s;
    assert t * s == x;
    assert Abs(x) == Abs(t) * s;
    if Abs(t) < b {
      StrictTimes(Abs(t), b, s);
    }
  }

  lemma StrictTimes(a: real, b: real, s: real)
    requires a < b && 0.0 < s
    ensures a * s < b * s
  {
  }

  lemma SignedSize(negative: bool, v: real, s: real, y: real)
    requires 0.0 < s && 0.0 <= v && y == Signed(negative, v) * s
    ensures Abs(y) == v * s
  {
  }

  lemma SizeAtLeast(v: real, s: real, y: real, least: real)
    requires 0.0 < s && least <= v && Abs(y) == v * s
    ensures least * s <= Abs(y)
  {
    Times(least, v, s);
  }

  lemma ScaledSize(negative: bool, v: real, s: real, y: real)
    requires 0.0 < s && 0.0 <= v <= FP8_MAX && y == Signed(negative, v) * s
    ensures Abs(y) <= FP8_MAX * s && (224.0 <= v ==> 224.0 * s <= Abs(y))
  {
    hide Abs, Signed;
    SignedSize(negative, v, s, y);
    if 224.0 <= v {
      SizeAtLeast(v, s, y, 224.0);
    }
  }

  lemma OutputSize(x: real, s: real)
    requires 0.0 < s && Abs(x) <= FP8_MAX * s
    ensures Abs(Qdq(x, s)) <= FP8_MAX * s
    ensures 224.0 * s <= Abs(x) ==> 224.0 * s <= Abs(Qdq(x, s))
  {
    hide Qdq, Value, Signed;
    var negative, c := QdqForm(x, s);
    ScaledSize(negative, Value(c), s, Qdq(x, s));
  }

  /** The largest element of a dequantised block stays in range, and large when it was. */
  lemma OutputPeak(block: seq<real>)
    ensures var s := BlockScale(block); 112.0 * s < Peak(Dequantised(block)) <= FP8_MAX * s
  {
    hide Qdq, Scale;
    var out, s := Dequantised(block), BlockScale(block);
    ScaleIsLeast(Peak(block), 0);
    forall i | 0 <= i < |block|
      ensures Abs(out[i]) <= FP8_MAX * s && (224.0 * s <= Abs(block[i]) ==> 224.0 * s <= Abs(out[i]))
    {
      OutputSize(block[i], s);
    }
  }

  lemma NextScale(a: real, b: real)
    requires 0.0 < a && 0.0 < b && 112.0 * Scale(a) < b <= FP8_MAX * Scale(a)
    ensures Scale(b) == Scale(a) || 2.0 * Scale(b) == Scale(a)
  {
    hide Pow2, CeilLog2;
    var e, f := CeilLog2(a / FP8_MAX), CeilLog2(b / FP8_MAX);
    ScaleIsLeast(b, e);
    ScaleIsLeast(b, e - 2);
    Pow2Next(e - 1);
    Pow2Next(e - 2);
    if f < e - 2 { Pow2Order(f, e - 2); }
    if e < f { Pow2Order(e, f); }
  }

  /** The scale of a dequantised block is the old scale or half of it. */
  lemma RequantisedScale(block: seq<real>)
    ensures BlockScale(Dequantised(block)) == BlockScale(block)
            || 2.0 * BlockScale(Dequantised(block)) == BlockScale(block)
  {
    hide Peak, Dequantised, Scale;
    OutputPeak(block);
    NextScale(Peak(block), Peak(Dequantised(block)));
  }

  lemma HalfScale(v: real, s: real, s2: real)
    requires 0.0 < s2 && 2.0 * s2 == s && v * s <= FP8_MAX * s2
    ensures 2.0 * v <= FP8_MAX && v * s == (2.0 * v) * s2
  {
    if FP8_MAX < 2.0 * v {
      StrictTimes(FP8_MAX, 2.0 * v, s2);
    }
  }

  lemma QdqOfValue(y: real, negative: bool, d: nat, s: real)
    requires d <= 126 && 0.0 < s && y == Signed(negative, Value(d)) * s
    ensures Qdq(y, s) == y
  {
    hide Value, Round;
    Quotient(y, s, Signed(negative, Value(d)));
    CodeInRange(d);
    RoundFixed(d);
  }

  /** An E4M3FN value at a scale survives quantisation at that scale, and at half of it when in range. */
  lemma QdqFixed(y: real, negative: bool, c: nat, s: real, s2: real)
    requires c <= 126 && 0.0 < s2 && (s2 == s || 2.0 * s2 == s)
    requires y == Signed(negative, Value(c)) * s && Abs(y) <= FP8_MAX * s2
    ensures Qdq(y, s2) == y
  {
    hide Value, Qdq;
    CodeInRange(c);
    SignedSize(negative, Value(c), s, y);
    var d := c;
    if s2 != s {
      HalfScale(Value(c), s, s2);
      d := DoubleCode(c);
      Doubled(c);
    }
    QdqOfValue(y, negative, d, s2);
  }

  /** Quantising an already quantised block changes nothing. */
  lemma Idempotent(block: seq<real>)
    ensures Dequantised(Dequantised(block)) == Dequantised(block)
  {
    hide Qdq, Value, Pow2, CeilLog2, Signed;
    var out := Dequantised(block);
    var s, s2 := BlockScale(block), BlockScale(out);
    RequantisedScale(block);
    ScaleIsLeast(Peak(block), 0);
    ScaleIsLeast(Peak(out), 0);
    forall i | 0 <= i < |out| ensures Qdq(out[i], s2) == out[i] {
      var negative, c := QdqForm(block[i], s);
      QdqFixed(out[i], negative, c, s, s2);
    }
  }

  // -------------------------------------------------------- the gate of one token

  function TokenScale(blocks: seq<seq<real>>): (s: real)
    requires blocks != []
    ensures forall j :: 0 <= j < |blocks| ==> BlockScale(blocks[j]) <= s
    ensures exists j :: 0 <= j < |blocks| && BlockScale(blocks[j]) == s
  {
    if |blocks| == 1 then BlockScale(blocks[0]) else
      var rest := TokenScale(blocks[1..]);
      assert forall j :: 0 < j < |blocks| ==> blocks[j] == blocks[1..][j - 1];
      if BlockScale(blocks[0]) >= rest then
        BlockScale(blocks[0])
      else
        assert exists j :: 0 <= j < |blocks| && BlockScale(blocks[j]) == rest by {
          var j :| 0 <= j < |blocks[1..]| && BlockScale(blocks[1..][j]) == rest;
          assert blocks[j + 1] == blocks[1..][j];
        }
        rest
  }

  /** A cache that quantises exactly passes both gates: each element is within 16 scales of its block,
      hence within 16 times the largest scale of its token. */
  lemma TokenGate(blocks: seq<seq<real>>, j: nat, i: nat)
    requires j < |blocks| && i < |blocks[j]|
    ensures Abs(Dequantised(blocks[j])[i] - blocks[j][i]) <= 16.0 * BlockScale(blocks[j]) <= 16.0 * TokenScale(blocks)
  {
    hide Qdq, Pow2, CeilLog2, Dequantised, BlockScale;
    BlockGate(blocks[j], i);
    assert BlockScale(blocks[j]) <= TokenScale(blocks);
  }

  // -------------------------------------------------------- the final cast to BF16

  lemma {:induction false} Pow2Shift(j: nat, e: int)
    ensures Bf16.Pow2(j) as real * Pow2(e) == Pow2(e + j)
  {
    hide Pow2;
    if j > 0 {
      var p, s := Bf16.Pow2(j - 1) as real, Pow2(e);
      Pow2Shift(j - 1, e);
      Pow2Next(e + j - 1);
      assert (2.0 * p) * s == 2.0 * (p * s);
      assert Bf16.Pow2(j) as real == 2.0 * p;
    }
  }

  /** A value is a short integer times a power of two, in units of 2^-9. */
  lemma ValueUnits(c: nat) returns (q: nat, j: nat)
    requires c < 128
    ensures q < 16 && Value(c) == (q as real * Bf16.Pow2(j) as real) / 512.0
  {
    hide Bf16.E4M3, Bf16.Pow2;
    q, j := Bf16.E4M3Short(c);
    ProductAsReal(q, Bf16.Pow2(j));
  }

  lemma ProductAsReal(a: nat, b: nat)
    ensures (a * b) as real == a as real * b as real
  {
  }

  lemma Pow2Ninth(e: int)
    ensures Pow2(e) / 512.0 == Pow2(e - 9)
  {
    hide Pow2;
    Pow2Next(e - 1); Pow2Next(e - 2); Pow2Next(e - 3); Pow2Next(e - 4); Pow2Next(e - 5);
    Pow2Next(e - 6); Pow2Next(e - 7); Pow2Next(e - 8); Pow2Next(e - 9);
  }

  /** A dequantised element has at most four significant bits, four less than BF16 keeps. */
  lemma FewBits(x: real, e: int) returns (q: nat, k: int)
    requires Abs(x) <= FP8_MAX * Pow2(e)
    ensures q < 16 && e - 9 <= k && Abs(Qdq(x, Pow2(e))) == q as real * Pow2(k)
  {
    hide Qdq, Value, Signed, Pow2, Bf16.Pow2;
    var s := Pow2(e);
    var negative, c := QdqForm(x, s);
    SignedSize(negative, Value(c), s, Qdq(x, s));
    var j;
    q, j := ValueUnits(c);
    k := e + j - 9;
    Pow2Shift(j, e);
    Pow2Ninth(e + j);
  }
}
