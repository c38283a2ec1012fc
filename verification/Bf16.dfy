/** Bit-level rounding to nearest even, binary32 to BF16, and the exact product of an
    E4M3FN weight and an E8M0 scale. Magnitudes are naturals in units of 2^-149, the
    smallest binary32 subnormal, so every finite value is exact. */
module Bf16 {
  import opened NumberTheory
  import opened Basics

  function Pow2(n: nat): (p: nat)
    ensures 0 < p
  {
    if n == 0 then 1 else 2 * Pow2(n - 1)
  }

  lemma {:induction false} Pow2Add(i: nat, j: nat)
    ensures Pow2(i + j) == Pow2(i) * Pow2(j)
  {
    if i > 0 {
      Pow2Add(i - 1, j);
      Associate(2, Pow2(i - 1), Pow2(j));
    }
  }

  lemma SmallPowers()
    ensures Pow2(14) == 0x4000 && Pow2(15) == 0x8000 && Pow2(16) == 0x1_0000 && Pow2(24) == 0x100_0000
  {
    assert Pow2(8) == 0x100;
    Pow2Add(8, 8);
    Pow2Add(16, 8);
  }

  function Abs(x: int): nat {
    if x < 0 then -x else x
  }

  // ------------------------------------------------ rounding by add-and-shift

  /** The add-and-shift form: (n + 2^(s-1) - 1 + bit s of n) >> s. */
  function AddShift(n: nat, s: nat): nat
    requires 1 <= s
  {
    var h, p := Pow2(s - 1), Pow2(s);
    Quotient(n + (h - 1) + Quotient(n, p) % 2, p)
  }

  function Quotient(n: nat, p: nat): nat
    requires 0 < p
  {
    n / p
  }

  /** q is n / 2^s rounded to nearest, ties to even. */
  ghost predicate NearestEven(n: nat, s: nat, q: nat) {
    2 * Abs(n - q * Pow2(s)) <= Pow2(s) &&
    (2 * Abs(n - q * Pow2(s)) == Pow2(s) ==> q % 2 == 0)
  }

  lemma QuotientIn(n: int, p: int, q: int)
    requires 0 < p && q * p <= n < q * p + p
    ensures n / p == q
  {
    DivModUnique(n, p, q, n - q * p);
  }

  /** The value added and shifted, by the position r of n inside its step of size p = 2h. */
  lemma AddShiftCases(n: nat, h: nat, p: nat, k: nat, r: nat, b: nat)
    requires 0 < h && p == 2 * h && n == k * p + r && r < p && b <= 1
    ensures (n + (h - 1) + b) / p == (if r + b <= h then k else k + 1)
  {
    if r + b <= h {
      QuotientIn(n + (h - 1) + b, p, k);
    } else {
      Distribute(k, 1, p);
      QuotientIn(n + (h - 1) + b, p, k + 1);
    }
  }

  lemma Parts(n: nat, p: nat)
    requires 0 < p
    ensures n == (n / p) * p + n % p && n % p < p && Quotient(n, p) == n / p
  {
  }

  lemma AddShiftResult(n: nat, s: nat)
    requires 1 <= s
    ensures var p, h := Pow2(s), Pow2(s - 1);
            var k, r := n / p, n % p;
            p == 2 * h && n == k * p + r && r < p && AddShift(n, s) == (if r + k % 2 <= h then k else k + 1)
  {
    var p, h := Pow2(s), Pow2(s - 1);
    assert p == 2 * h;
    hide Pow2;
    Parts(n, p);
    AddShiftCases(n, h, p, n / p, n % p, n / p % 2);
  }

  /** The add-and-shift form is round-half-even for every n and every shift s >= 1. */
  lemma AddShiftRoundsToEven(n: nat, s: nat)
    requires 1 <= s
    ensures NearestEven(n, s, AddShift(n, s))
  {
    AddShiftResult(n, s);
    var p, h := Pow2(s), Pow2(s - 1);
    var k, r := n / p, n % p;
    HalfWayPoints(n, p, h, k, r, AddShift(n, s));
  }

  lemma HalfWayPoints(n: nat, p: nat, h: nat, k: nat, r: nat, q: nat)
    requires p == 2 * h && n == k * p + r && r < p && q == (if r + k % 2 <= h then k else k + 1)
    ensures 2 * Abs(n - q * p) <= p && (2 * Abs(n - q * p) == p ==> q % 2 == 0)
  {
    Distribute(k, 1, p);
  }

  lemma StepApart(p: nat, a: int, b: int)
    requires a < b
    ensures a * p + p <= b * p
  {
    MulMonotone(a + 1, b, p);
    Distribute(a, 1, p);
  }

  /** Round-half-even has one answer. */
  lemma NearestEvenUnique(n: nat, s: nat, a: nat, b: nat)
    requires 1 <= s && NearestEven(n, s, a) && NearestEven(n, s, b)
    ensures a == b
  {
    var p := Pow2(s);
    if a < b {
      StepApart(p, a, b);
      if a + 2 <= b { StepApart(p, a + 1, b); StepApart(p, a, a + 1); }
    } else if b < a {
      StepApart(p, b, a);
      if b + 2 <= a { StepApart(p, b + 1, a); StepApart(p, b, b + 1); }
    }
  }

  // -------------------------------------------------------- binary32 and BF16

  const HIDDEN: nat := 0x80_0000
  const INFINITE: nat := 0x7F80_0000
  const SIGN: nat := 0x8000_0000
  const HALF: nat := 0x1_0000

  /** Magnitude of 31 bits read as binary32; the code of infinity stands for 2^128, the
      value the next exponent would have. */
  function Mag(bits: nat): nat {
    var e, m := bits / HIDDEN, bits % HIDDEN;
    if e == 0 then m else (HIDDEN + m) * Pow2(e - 1)
  }

  predicate Finite32(bits: nat) {
    bits % SIGN < INFINITE && bits < 2 * SIGN
  }

  /** The conversion as coded, on 32-bit unsigned words that wrap around. */
  function F32ToBf16(bits: nat): nat {
    ((bits + 0x7FFF + (bits / HALF) % 2) % 0x1_0000_0000) / HALF
  }

  /** On a finite word nothing wraps and the sign stays: the result is the sign bit over the
      rounded magnitude. */
  lemma ConversionSplits(bits: nat)
    requires Finite32(bits)
    ensures F32ToBf16(bits) == (bits / SIGN) * 0x8000 + AddShift(bits % SIGN, 16)
    ensures AddShift(bits % SIGN, 16) <= 0x7F80
  {
    hide Pow2;
    SmallPowers();
    SignOverHalf(bits / SIGN, bits % SIGN);
    var mag := bits % SIGN;
    SignOverHalf(bits / SIGN, mag + 0x7FFF + (mag / HALF) % 2);
    RoundedBound(mag, (mag / HALF) % 2);
  }

  /** The sign bit passes through the shift and leaves the parity alone. */
  lemma SignOverHalf(sgn: nat, x: nat)
    ensures (sgn * SIGN + x) / HALF == sgn * 0x8000 + x / HALF
    ensures (sgn * SIGN + x) / HALF % 2 == x / HALF % 2
  {
  }

  lemma RoundedBound(mag: nat, b: nat)
    requires mag < INFINITE && b <= 1
    ensures (mag + 0x7FFF + b) / HALF <= 0x7F80 && mag + 0x7FFF + b < SIGN
  {
  }

  /** Unit of the block of 2^16 words that share the upper half c. */
  function Unit(c: nat): nat {
    var e := c / 0x80;
    Pow2(if e == 0 then 0 else e - 1)
  }

  /** Exponent and mantissa of a word in block c, and at the end of its exponent those of the next one. */
  lemma CodeParts(c: nat, t: nat)
    requires t <= HALF
    ensures var e, f, w := c / 0x80, c % 0x80, c * HALF + t;
            if t < HALF || f < 0x7F then w / HIDDEN == e && w % HIDDEN == f * HALF + t
            else w / HIDDEN == e + 1 && w % HIDDEN == 0 && f * HALF + t == HIDDEN
  {
  }

  /** The significand of position t in block c, in units of the block. */
  function Significand(c: nat, t: nat): nat {
    (if c / 0x80 == 0 then 0 else HIDDEN) + c % 0x80 * HALF + t
  }

  lemma UnitPowers(c: nat)
    ensures c / 0x80 == 0 ==> Unit(c) == 1 && Pow2(0) == 1
    ensures c / 0x80 > 0 ==> Unit(c) == Pow2(c / 0x80 - 1) && Pow2(c / 0x80) == 2 * Unit(c)
  {
  }

  lemma MagInBlock(c: nat, t: nat)
    requires t <= HALF
    ensures Mag(c * HALF + t) == Significand(c, t) * Unit(c)
  {
    CodeParts(c, t);
    UnitPowers(c);
    hide Pow2, Unit;
    if !(t < HALF || c % 0x80 < 0x7F) {
      Associate(HIDDEN, 2, Unit(c));
    }
  }

  /** Inside a block, and up to its upper end, the magnitude grows by one unit per word. */
  lemma BlockLinear(c: nat, t: nat)
    requires t <= HALF
    ensures Mag(c * HALF + t) == Mag(c * HALF) + t * Unit(c)
  {
    hide Mag, Unit;
    MagInBlock(c, t);
    MagInBlock(c, 0);
    Distribute(Significand(c, 0), t, Unit(c));
  }

  lemma {:induction false} MagMonotone(c: nat, d: nat)
    requires c <= d
    ensures Mag(c * HALF) <= Mag(d * HALF)
    ensures c < d ==> Mag(c * HALF) < Mag(d * HALF)
    decreases d - c
  {
    if c < d {
      BlockLinear(d - 1, HALF);
      MagMonotone(c, d - 1);
      assert 0 < HALF * Unit(d - 1);
    }
  }

  /** c is the BF16 magnitude code nearest to the binary32 magnitude, ties to the even code. */
  ghost predicate NearestCode(mag: nat, c: nat) {
    forall d: nat :: CloserThan(mag, c, d)
  }

  ghost predicate CloserThan(mag: nat, c: nat, d: nat) {
    Abs(Mag(mag) - Mag(c * HALF)) <= Abs(Mag(mag) - Mag(d * HALF)) &&
    (d != c && Abs(Mag(mag) - Mag(c * HALF)) == Abs(Mag(mag) - Mag(d * HALF)) ==> c % 2 == 0)
  }

  /** Between two codes of one parity lies a third, and strictly closer to the middle. */
  lemma MiddleCode(mag: nat, c: nat, d: nat)
    requires c + 2 <= d && Abs(Mag(mag) - Mag(c * HALF)) == Abs(Mag(mag) - Mag(d * HALF))
    ensures !CloserThan(mag, c, c + 1)
  {
    MagMonotone(c, c + 1);
    MagMonotone(c + 1, d);
    hide Mag;
  }

  /** The nearest code with ties to even is one code. */
  lemma NearestCodeUnique(mag: nat, c: nat, d: nat)
    requires NearestCode(mag, c) && NearestCode(mag, d)
    ensures c == d
  {
    hide Mag;
    assert CloserThan(mag, c, d) && CloserThan(mag, d, c);
    assert CloserThan(mag, c, c + 1) && CloserThan(mag, d, d + 1);
    if c < d {
      MiddleCode(mag, c, d);
    } else if d < c {
      MiddleCode(mag, d, c);
    }
  }

  lemma CompareGaps(r: nat, u: nat, b: nat, below: int, above: int)
    requires r < HALF && 0 < u && b <= 1 && below == r * u && above == (HALF - r) * u
    ensures 0 <= below && 0 <= above
    ensures r + b <= 0x8000 ==> below <= above && (below == above ==> b == 0)
    ensures r + b > 0x8000 ==> above <= below && (below == above ==> b == 1)
  {
    if r <= 0x8000 {
      ScaledOrder(r, HALF - r, u);
    } else {
      ScaledOrder(HALF - r, r, u);
    }
  }

  lemma ScaledOrder(a: nat, b: nat, u: nat)
    requires a <= b && 0 < u
    ensures a * u <= b * u && (a * u == b * u ==> a == b)
  {
    assert b * u - a * u == (b - a) * u;
    if a < b {
      MulAtLeast(b - a, u);
    }
  }

  /** Where an arbitrary code d lies relative to the ends of block k. */
  lemma Around(k: nat, d: nat)
    ensures var low, high, there := Mag(k * HALF), Mag((k + 1) * HALF), Mag(d * HALF);
            (d < k ==> there < low) && (d == k ==> there == low) &&
            (d == k + 1 ==> there == high) && (d > k + 1 ==> there > high)
  {
    if d <= k {
      MagMonotone(d, k);
    } else {
      MagMonotone(k + 1, d);
    }
  }

  /** How far a word is from the two ends of its block. */
  lemma EndDistances(k: nat, r: nat)
    requires r < HALF
    ensures Mag(k * HALF + r) - Mag(k * HALF) == r * Unit(k)
    ensures Mag((k + 1) * HALF) - Mag(k * HALF + r) == (HALF - r) * Unit(k)
  {
    BlockLinear(k, r);
    BlockLinear(k, HALF);
    assert k * HALF + HALF == (k + 1) * HALF;
    SplitProduct(r, Unit(k));
  }

  lemma SplitProduct(r: nat, u: nat)
    requires r < HALF
    ensures r * u + (HALF - r) * u == HALF * u
  {
  }

  /** The end picked by the position r is the nearer one, and on a tie the even one. */
  lemma NearerEnd(k: nat, r: nat)
    requires r < HALF
    ensures var here, low, high := Mag(k * HALF + r), Mag(k * HALF), Mag((k + 1) * HALF);
            low <= here <= high &&
            (r + k % 2 <= 0x8000 ==> here - low <= high - here && (here - low == high - here ==> k % 2 == 0)) &&
            (r + k % 2 > 0x8000 ==> high - here <= here - low && (here - low == high - here ==> k % 2 == 1))
  {
    EndDistances(k, r);
    var here := Mag(k * HALF + r);
    CompareGaps(r, Unit(k), k % 2, here - Mag(k * HALF), Mag((k + 1) * HALF) - here);
  }

  /** The lower or the upper end of the block, whichever the rounding picks, is nearest. */
  lemma PickedEndIsNearest(k: nat, r: nat, d: nat)
    requires r < HALF
    ensures CloserThan(k * HALF + r, if r + k % 2 <= 0x8000 then k else k + 1, d)
  {
    NearerEnd(k, r);
    Around(k, d);
    EndpointWins(Mag(k * HALF + r), Mag(k * HALF), Mag((k + 1) * HALF), Mag(d * HALF), d, k, r + k % 2 <= 0x8000);
  }

  lemma EndpointWins(here: int, low: int, high: int, there: int, d: int, k: int, takeLow: bool)
    requires low <= here <= high
    requires (d < k ==> there < low) && (d == k ==> there == low)
    requires (d == k + 1 ==> there == high) && (d > k + 1 ==> there > high)
    requires takeLow ==> here - low <= high - here && (here - low == high - here ==> k % 2 == 0)
    requires !takeLow ==> high - here <= here - low && (here - low == high - here ==> k % 2 == 1)
    ensures var c, end := if takeLow then k else k + 1, if takeLow then low else high;
            Abs(here - end) <= Abs(here - there) && (d != c && Abs(here - end) == Abs(here - there) ==> c % 2 == 0)
  {
  }

  /** Every finite binary32 word converts to the nearest BF16 code, ties to even, sign kept. */
  lemma ConversionIsNearestEven(bits: nat)
    requires Finite32(bits)
    ensures F32ToBf16(bits) / 0x8000 == bits / SIGN
    ensures NearestCode(bits % SIGN, F32ToBf16(bits) % 0x8000)
  {
    ConversionSplits(bits);
    AddShiftNearest(bits % SIGN);
  }

  lemma AddShiftNearest(mag: nat)
    ensures NearestCode(mag, AddShift(mag, 16))
  {
    SmallPowers();
    AddShiftResult(mag, 16);
    var k, r := mag / HALF, mag % HALF;
    assert mag == k * HALF + r;
    forall d: nat ensures CloserThan(mag, AddShift(mag, 16), d) {
      PickedEndIsNearest(k, r, d);
    }
  }

  /** The array form: one non-finite word stops the whole conversion; otherwise every word goes to the
      nearest code with its sign. */
  function ConvertAll(words: seq<nat>): (codes: Option<seq<nat>>)
    ensures codes == None <==> exists i :: 0 <= i < |words| && !Finite32(words[i])
    ensures codes.Some? ==> |codes.value| == |words|
    ensures codes.Some? ==> forall i :: 0 <= i < |words| ==>
              codes.value[i] / 0x8000 == words[i] / SIGN && NearestCode(words[i] % SIGN, codes.value[i] % 0x8000)
  {
    hide F32ToBf16, NearestCode;
    if exists i :: 0 <= i < |words| && !Finite32(words[i]) then None else
      assert forall i :: 0 <= i < |words| ==> F32ToBf16(words[i]) / 0x8000 == words[i] / SIGN &&
                                              NearestCode(words[i] % SIGN, F32ToBf16(words[i]) % 0x8000) by {
        forall i | 0 <= i < |words|
          ensures F32ToBf16(words[i]) / 0x8000 == words[i] / SIGN &&
                  NearestCode(words[i] % SIGN, F32ToBf16(words[i]) % 0x8000)
        {
          ConversionIsNearestEven(words[i]);
        }
      }
      Some(seq(|words|, i requires 0 <= i < |words| => F32ToBf16(words[i])))
  }

  // -------------------------------------- E4M3FN weight times E8M0 scale, exactly

  /** Magnitude of a seven-bit E4M3FN code in units of 2^-9 (code 127 is NaN). */
  function E4M3(code: nat): nat {
    var e, m := code / 8, code % 8;
    if e == 0 then m else (8 + m) * Pow2(e - 1)
  }

  /** The product in units of 2^-149; the scale table decodes code 0 as zero. */
  function Product(w: nat, s: nat): nat {
    if s == 0 then 0 else E4M3(w % 128) * Pow2(s + 13)
  }

  /** 2^128 is 2^277 units of 2^-149. */
  const OVERFLOW: nat := 277

  /** Non-finite: a NaN weight, the infinite scale code, or a product of 2^128 and more. */
  predicate ProductFinite(w: nat, s: nat) {
    w % 128 != 127 && s != 255 && Product(w, s) < Pow2(OVERFLOW)
  }

  /** The binary32 word of a representable magnitude. */
  function Encode(v: nat): nat {
    if v < 2 * HIDDEN then v else Encode(v / 2) + HIDDEN
  }

  /** At most 24 significant bits. */
  ghost predicate Representable(v: nat) {
    v < 2 * HIDDEN || (v % 2 == 0 && Representable(v / 2))
  }

  lemma {:induction false} EncodeExact(v: nat)
    requires Representable(v)
    ensures Mag(Encode(v)) == v
    ensures v >= HIDDEN ==> Encode(v) >= HIDDEN
  {
    hide Mag;
    if v < 2 * HIDDEN {
      SmallMag(v);
    } else {
      EncodeExact(v / 2);
      MagDouble(Encode(v / 2));
    }
  }

  lemma SmallMag(v: nat)
    requires v < 2 * HIDDEN
    ensures Mag(v) == v
  {
    if v >= HIDDEN {
      assert v / HIDDEN == 1 && v % HIDDEN == v - HIDDEN;
      assert Pow2(0) == 1;
    }
  }

  /** One exponent more doubles the magnitude. */
  lemma MagDouble(x: nat)
    requires HIDDEN <= x
    ensures Mag(x + HIDDEN) == 2 * Mag(x)
  {
    var e, m := x / HIDDEN, x % HIDDEN;
    assert (x + HIDDEN) / HIDDEN == e + 1 && (x + HIDDEN) % HIDDEN == m;
    Exchange(HIDDEN + m, 2, Pow2(e - 1));
  }

  lemma {:induction false} EncodeBound(v: nat, j: nat)
    requires v < 2 * HIDDEN * Pow2(j)
    ensures Encode(v) < 2 * HIDDEN + j * HIDDEN
    decreases j
  {
    if v >= 2 * HIDDEN {
      if j == 0 {
        assert false;
      } else {
        assert 2 * HIDDEN * (2 * Pow2(j - 1)) == 2 * (2 * HIDDEN * Pow2(j - 1));
        EncodeBound(v / 2, j - 1);
      }
    }
  }

  lemma HalfOfMultiple(q: nat, k: nat)
    requires 1 <= k
    ensures (q * Pow2(k)) % 2 == 0 && (q * Pow2(k)) / 2 == q * Pow2(k - 1)
  {
    assert q * (2 * Pow2(k - 1)) == (q * Pow2(k - 1)) * 2;
    DivModUnique(q * Pow2(k), 2, q * Pow2(k - 1), 0);
  }

  /** A short integer times a power of two is representable. */
  lemma {:induction false} ShortMultiple(q: nat, k: nat)
    requires q < 16
    ensures Representable(q * Pow2(k))
    decreases k
  {
    if k >= 1 {
      HalfOfMultiple(q, k);
      ShortMultiple(q, k - 1);
    }
  }

  lemma DivisibleBy16Bits(q: nat, k: nat)
    requires 16 <= k
    ensures (q * Pow2(k)) % HALF == 0
  {
    Pow2Add(k - 16, 16);
    SmallPowers();
    Associate(q, Pow2(k - 16), HALF);
    MulDivides(q * Pow2(k - 16), HALF);
  }

  /** From 2^16 on such a word has an empty lower half. */
  lemma {:induction false} ShortMultipleUpperHalf(q: nat, k: nat)
    requires q < 16 && 16 <= k
    ensures Encode(q * Pow2(k)) % HALF == 0
    decreases k
  {
    var v := q * Pow2(k);
    if v < 2 * HIDDEN {
      DivisibleBy16Bits(q, k);
    } else {
      HalfOfMultiple(q, k);
      SmallPowers();
      if k > 16 {
        ShortMultipleUpperHalf(q, k - 1);
      }
    }
  }

  /** Every E4M3FN magnitude is a short integer times a power of two. */
  lemma E4M3Short(code: nat) returns (q: nat, k: nat)
    requires code < 128
    ensures q < 16 && E4M3(code) == q * Pow2(k) && q <= 8 + code % 8 && (code >= 8 ==> 8 <= q && k == code / 8 - 1)
    ensures code < 8 ==> q == code && k == 0
  {
    q, k := if code / 8 == 0 then code else 8 + code % 8, if code / 8 == 0 then 0 else code / 8 - 1;
  }

  /** binary32 word of one dequantised element, when it is finite. */
  function ProductBits(w: nat, s: nat): nat {
    (w / 128) * SIGN + Encode(Product(w, s))
  }

  lemma ProductShort(w: nat, s: nat) returns (q: nat, k: nat)
    ensures q < 16 && Product(w, s) == q * Pow2(k)
  {
    if s == 0 {
      q, k := 0, 0;
    } else {
      var j;
      q, j := E4M3Short(w % 128);
      k := j + s + 13;
      Pow2Add(j, s + 13);
      Associate(q, Pow2(j), Pow2(s + 13));
    }
  }

  lemma SignAndMagnitude(sgn: nat, mag: nat)
    requires sgn <= 1 && mag < INFINITE
    ensures Finite32(sgn * SIGN + mag) && (sgn * SIGN + mag) / SIGN == sgn && (sgn * SIGN + mag) % SIGN == mag
  {
  }

  /** The binary32 product loses nothing: its word is finite and stands for the exact product. */
  lemma ProductExact(w: nat, s: nat)
    requires w < 256 && ProductFinite(w, s)
    ensures Finite32(ProductBits(w, s))
    ensures ProductBits(w, s) / SIGN == w / 128 && Mag(ProductBits(w, s) % SIGN) == Product(w, s)
  {
    var q, k := ProductShort(w, s);
    ShortMultiple(q, k);
    EncodeExact(Product(w, s));
    var j := OVERFLOW - 24;
    LargestFinite(j);
    EncodeBound(Product(w, s), j);
    SignAndMagnitude(w / 128, Encode(Product(w, s)));
  }

  lemma LargestFinite(j: nat)
    requires OVERFLOW == j + 24
    ensures 2 * HIDDEN * Pow2(j) == Pow2(OVERFLOW)
  {
    Pow2Add(24, j);
    SmallPowers();
  }

  /** What the repair writes for one element. */
  function Element(w: nat, s: nat): nat {
    F32ToBf16(ProductBits(w, s))
  }

  lemma ElementFits(w: nat, s: nat)
    requires w < 256 && ProductFinite(w, s)
    ensures Element(w, s) < 0x1_0000
  {
    ProductExact(w, s);
    ConversionSplits(ProductBits(w, s));
  }

  /** code is the BF16 word of the weight's sign and the magnitude nearest to the exact product of weight and
      scale, which the word ProductBits stands for, ties to the even code. */
  ghost predicate Rounds(w: nat, s: nat, code: nat) {
    code < 0x1_0000 && code / 0x8000 == w / 128 && NearestCode(ProductBits(w, s) % SIGN, code % 0x8000)
  }

  /** There is one such word. */
  lemma RoundsUnique(w: nat, s: nat, c: nat, d: nat)
    requires Rounds(w, s, c) && Rounds(w, s, d)
    ensures c == d
  {
    hide NearestCode, ProductBits;
    NearestCodeUnique(ProductBits(w, s) % SIGN, c % 0x8000, d % 0x8000);
  }

  /** The stored BF16 is that word: nearest to the exact product, ties to even, sign kept. */
  lemma ElementNearest(w: nat, s: nat)
    requires w < 256 && ProductFinite(w, s)
    ensures Rounds(w, s, Element(w, s)) && Mag(ProductBits(w, s) % SIGN) == Product(w, s)
    ensures forall d: nat ::
              Abs(Product(w, s) - Mag((Element(w, s) % 0x8000) * HALF)) <= Abs(Product(w, s) - Mag(d * HALF))
  {
    hide Mag;
    ProductExact(w, s);
    ConversionIsNearestEven(ProductBits(w, s));
    ElementFits(w, s);
    forall d: nat
      ensures Abs(Product(w, s) - Mag((Element(w, s) % 0x8000) * HALF)) <= Abs(Product(w, s) - Mag(d * HALF))
    {
      assert CloserThan(ProductBits(w, s) % SIGN, Element(w, s) % 0x8000, d);
    }
  }

  /** BF16 magnitudes are whole multiples of 2^16 units. */
  lemma Bf16Grid(c: nat)
    ensures Mag(c * HALF) % HALF == 0
  {
    var e, f := c / 0x80, c % 0x80;
    assert (c * HALF) / HIDDEN == e && (c * HALF) % HIDDEN == f * HALF;
    if e == 0 {
      MulDivides(f, HALF);
    } else {
      assert HIDDEN + f * HALF == (0x80 + f) * HALF;
      Associate(0x80 + f, HALF, Pow2(e - 1));
      Associate(0x80 + f, Pow2(e - 1), HALF);
      assert HALF * Pow2(e - 1) == Pow2(e - 1) * HALF;
      MulDivides((0x80 + f) * Pow2(e - 1), HALF);
    }
  }

  lemma ShortAndSmall(q: nat, k: nat)
    requires q < 16 && k < 16
    ensures q * Pow2(k) < 2 * HIDDEN
  {
    Pow2Grows(k, 16);
    SmallPowers();
    ScaledOrder(q, 15, Pow2(k));
  }

  lemma OnGridUpperHalf(w: nat, s: nat)
    requires Product(w, s) % HALF == 0
    ensures Encode(Product(w, s)) % HALF == 0
  {
    var q, k := ProductShort(w, s);
    if Product(w, s) >= 2 * HIDDEN {
      if k < 16 {
        ShortAndSmall(q, k);
      }
      ShortMultipleUpperHalf(q, k);
    }
  }

  /** The repair of an element is lossless exactly when its product lies on the BF16 grid. */
  lemma ElementExact(w: nat, s: nat)
    requires w < 256 && ProductFinite(w, s)
    ensures Mag((Element(w, s) % 0x8000) * HALF) == Product(w, s) <==> Product(w, s) % HALF == 0
  {
    Bf16Grid(Element(w, s) % 0x8000);
    if Product(w, s) % HALF == 0 {
      OnGridUpperHalf(w, s);
      ProductExact(w, s);
      var c := Encode(Product(w, s)) / HALF;
      assert Encode(Product(w, s)) == c * HALF;
      ElementNearest(w, s);
      assert Abs(Product(w, s) - Mag((Element(w, s) % 0x8000) * HALF)) <= Abs(Product(w, s) - Mag(c * HALF)) == 0;
    }
  }

  /** From scale code 3 on every product lies on the grid. */
  lemma LargeScaleOnGrid(w: nat, s: nat)
    requires s == 0 || 3 <= s
    ensures Product(w, s) % HALF == 0
  {
    if s > 0 {
      Pow2Add(s - 3, 16);
      SmallPowers();
      Associate(E4M3(w % 128), Pow2(s - 3), HALF);
      MulDivides(E4M3(w % 128) * Pow2(s - 3), HALF);
    }
  }

  lemma {:induction false} Pow2Grows(i: nat, j: nat)
    requires i < j
    ensures Pow2(i) < Pow2(j)
    decreases j
  {
    if i < j - 1 {
      Pow2Grows(i, j - 1);
    }
  }

  /** Below it rounding is real: the smallest non-zero product is flushed to zero. */
  lemma SmallestProductFlushed()
    ensures ProductFinite(1, 1) && Product(1, 1) > 0 && Element(1, 1) == 0
  {
    SmallestProduct();
    BelowOverflow();
    hide Pow2, Product, E4M3;
    assert ProductBits(1, 1) == 0x4000;
  }

  lemma SmallestProduct()
    ensures Product(1, 1) == 0x4000
  {
    SmallPowers();
    hide Pow2;
    assert E4M3(1) == 1;
  }

  lemma BelowOverflow()
    ensures 0x4000 < Pow2(OVERFLOW)
  {
    hide Pow2;
    SmallPowers();
    Pow2Grows(14, OVERFLOW);
  }
}
