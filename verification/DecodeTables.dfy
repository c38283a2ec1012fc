/** The two decoding tables of the repair over exact reals, as the code fills them, and what the stored BF16
    words mean in terms of their entries. */
module DecodeTables {
  import opened Basics
  import opened Bf16
  import opened Bytes
  import CacheQuant
  import FileWrites
  import NumberTheory
  import Repair

  // ------------------------------------------------------------ the tables

  /** One entry of the weight table: the four exponent and three mantissa bits of an E4M3FN code; None is NaN. */
  function Fp8(b: nat): Option<real> {
    var exp, mant := b / 8 % 16, b % 8;
    if exp == 15 && mant == 7 then None
    else if b / 128 % 2 == 1 then Some(-Fp8Size(exp, mant)) else Some(Fp8Size(exp, mant))
  }

  function Fp8Size(exp: nat, mant: nat): real {
    if exp == 0 then mant as real * CacheQuant.Pow2(-9) else CacheQuant.Pow2(exp - 7) * (1.0 + mant as real / 8.0)
  }

  /** The weight table, filled code by code. */
  method Fp8Table() returns (out: seq<Option<real>>)
    ensures |out| == 256
    ensures forall b :: 0 <= b < 256 ==> out[b] == Fp8(b)
  {
    hide Fp8;
    out := [];
    for b := 0 to 256
      invariant |out| == b && forall c :: 0 <= c < b ==> out[c] == Fp8(c)
    {
      out := out + [Fp8(b)];
    }
  }

  /** The value of a finite binary32 word without sign. */
  function Word(bits: nat): real {
    Mag(bits) as real * CacheQuant.Pow2(-149)
  }

  /** The scale table holds the binary32 words with exponent s and an empty mantissa; the last one is infinite. */
  function E8M0(s: nat): Option<real> {
    if s < 255 then Some(Word(s * 0x80_0000)) else None
  }

  // ------------------------------------------------------------ what the entries stand for

  lemma PowerOf23()
    ensures Bf16.Pow2(23) == 0x80_0000
  {
    SmallPowers();
    assert Bf16.Pow2(24) == 2 * Bf16.Pow2(23);
  }

  /** Scale code 0 is zero and code s is 2^(s - 127). */
  lemma ScaleEntry(s: nat)
    requires s < 255
    ensures E8M0(s) == Some(if s == 0 then 0.0 else CacheQuant.Pow2(s - 127))
  {
    hide Bf16.Pow2, CacheQuant.Pow2;
    assert (s * 0x80_0000) / HIDDEN == s && (s * 0x80_0000) % HIDDEN == 0;
    if s > 0 {
      PowerOf23();
      Pow2Add(23, s - 1);
      assert Mag(s * 0x80_0000) == Bf16.Pow2(22 + s);
      CacheQuant.Pow2Shift(22 + s, -149);
      assert Word(s * 0x80_0000) == CacheQuant.Pow2(s - 127);
    } else {
      assert Mag(0) == 0;
      assert Word(0) == 0.0;
    }
  }

  function Signed(negative: bool, m: nat, u: real): real {
    if negative then -(m as real * u) else m as real * u
  }

  lemma CodeDigits(w: nat)
    requires w < 256
    ensures w / 8 % 16 == w % 128 / 8 && w % 8 == w % 128 % 8 && (w / 128 % 2 == 1 <==> w >= 128)
    ensures w % 128 == 127 <==> w % 128 / 8 == 15 && w % 128 % 8 == 7
  {
    var h, c := w / 128, w % 128;
    assert w == 128 * h + c;
    DigitsOf(h, c);
  }

  lemma DigitsOf(h: nat, c: nat)
    requires h <= 1 && c < 128
    ensures (128 * h + c) / 8 == 16 * h + c / 8 && (16 * h + c / 8) % 16 == c / 8 && (128 * h + c) % 8 == c % 8
  {
  }

  /** A weight entry has the sign of its code and the magnitude E4M3 in units of 2^-9. */
  lemma WeightEntry(w: nat)
    requires w < 256
    ensures Fp8(w).None? <==> w % 128 == 127
    ensures w % 128 != 127 ==>
              Fp8(w) == Some(Signed(w >= 128, E4M3(w % 128), CacheQuant.Pow2(-9)))
  {
    hide CacheQuant.Pow2, E4M3, Fp8Size, Signed;
    CodeDigits(w);
    if w % 128 != 127 {
      EntryMagnitude(w % 128);
      SignedIs(w >= 128, E4M3(w % 128), CacheQuant.Pow2(-9), Fp8Size(w / 8 % 16, w % 8));
    }
  }

  lemma SignedIs(negative: bool, m: nat, u: real, size: real)
    requires m as real * u == size
    ensures Signed(negative, m, u) == if negative then -size else size
  {
  }

  lemma CodeParts8(c: nat)
    ensures E4M3(c) == if c / 8 == 0 then c % 8 else (8 + c % 8) * Bf16.Pow2(c / 8 - 1)
  {
  }

  lemma EightTimes(e: int)
    ensures CacheQuant.Pow2(e + 3) == 8.0 * CacheQuant.Pow2(e)
  {
    hide CacheQuant.Pow2;
    CacheQuant.Pow2Next(e);
    CacheQuant.Pow2Next(e + 1);
    CacheQuant.Pow2Next(e + 2);
  }

  lemma SizeParts(exp: nat, mant: nat)
    ensures exp == 0 ==> Fp8Size(exp, mant) == mant as real * CacheQuant.Pow2(-9)
    ensures exp > 0 ==> Fp8Size(exp, mant) == CacheQuant.Pow2(exp - 7) * (1.0 + mant as real / 8.0)
  {
    hide CacheQuant.Pow2;
  }

  lemma EntryMagnitude(c: nat)
    requires c < 127
    ensures E4M3(c) as real * CacheQuant.Pow2(-9) == Fp8Size(c / 8, c % 8)
  {
    hide Bf16.Pow2, CacheQuant.Pow2, E4M3, Fp8Size;
    CodeParts8(c);
    SizeParts(c / 8, c % 8);
    if c / 8 > 0 {
      NormalMagnitude(c / 8, c % 8, E4M3(c), Fp8Size(c / 8, c % 8));
    }
  }

  lemma NormalMagnitude(exp: nat, mant: nat, m: nat, size: real)
    requires exp > 0 && m == (8 + mant) * Bf16.Pow2(exp - 1)
    requires size == CacheQuant.Pow2(exp - 7) * (1.0 + mant as real / 8.0)
    ensures m as real * CacheQuant.Pow2(-9) == size
  {
    hide Bf16.Pow2, CacheQuant.Pow2;
    CacheQuant.Pow2Shift(exp - 1, -9);
    EightTimes(exp - 10);
    NormalEntry(mant, Bf16.Pow2(exp - 1), CacheQuant.Pow2(-9), CacheQuant.Pow2(exp - 10), CacheQuant.Pow2(exp - 7));
  }

  lemma NormalEntry(mant: nat, p: nat, unit: real, q: real, r: real)
    requires p as real * unit == q && r == 8.0 * q
    ensures ((8 + mant) * p) as real * unit == r * (1.0 + mant as real / 8.0)
  {
    assert ((8 + mant) * p) as real == (8 + mant) as real * p as real;
    assert ((8 + mant) as real * p as real) * unit == (8 + mant) as real * (p as real * unit);
  }

  function Magnitude(x: real): real {
    if x < 0.0 then -x else x
  }

  /** The product the repair works with is the product of the two entries. */
  lemma ProductOfEntries(w: nat, s: nat)
    requires w < 256 && w % 128 != 127 && s < 255
    ensures Fp8(w).Some? && E8M0(s).Some?
    ensures Product(w, s) as real * CacheQuant.Pow2(-149) == Magnitude(Fp8(w).value * E8M0(s).value)
    ensures Product(w, s) > 0 ==> (Fp8(w).value * E8M0(s).value < 0.0 <==> w >= 128)
  {
    hide Bf16.Pow2, CacheQuant.Pow2, E4M3, Fp8, E8M0;
    ScaleEntry(s);
    WeightEntry(w);
    if s > 0 {
      CacheQuant.Pow2Shift(s + 13, -149);
      CacheQuant.Pow2Join(-9, s - 127);
      ThreeFactors(E4M3(w % 128), Bf16.Pow2(s + 13), CacheQuant.Pow2(-149), CacheQuant.Pow2(-9),
                   CacheQuant.Pow2(s - 127), w >= 128);
    }
  }

  lemma ThreeFactors(m: nat, p: nat, unit: real, u: real, v: real, negative: bool)
    requires p as real * unit == u * v && 0.0 < u && 0.0 < v
    ensures var x := Signed(negative, m, u) * v;
            (m * p) as real * unit == Magnitude(x) && (m * p > 0 ==> (x < 0.0 <==> negative))
  {
    assert (m * p) as real == m as real * p as real;
    assert (m as real * p as real) * unit == m as real * (p as real * unit);
    assert (m as real * u) * v == m as real * (u * v);
    assert 0.0 < u * v;
    SignOf(m as real, u * v);
    assert m == 0 ==> m * p == 0;
  }

  lemma SignOf(m: real, q: real)
    requires 0.0 <= m && 0.0 < q
    ensures 0.0 <= m * q && (0.0 < m ==> 0.0 < m * q)
  {
  }

  // ------------------------------------------------------------ what is stored

  /** The value of a BF16 word that is not infinite or NaN. */
  function Bf16Value(code: nat): real {
    Signed(code / 0x8000 % 2 == 1, Mag((code % 0x8000) * 0x1_0000), CacheQuant.Pow2(-149))
  }

  /** An element is finite exactly when both entries are and their product stays below 2^128. */
  lemma FiniteProduct(w: nat, s: nat)
    requires w < 256 && s < 256
    ensures ProductFinite(w, s) <==>
            Fp8(w).Some? && E8M0(s).Some? && Magnitude(Fp8(w).value * E8M0(s).value) < CacheQuant.Pow2(128)
  {
    hide Bf16.Pow2, CacheQuant.Pow2, E4M3, Fp8, Product, Magnitude;
    WeightEntry(w);
    if w % 128 != 127 && s < 255 {
      ProductOfEntries(w, s);
      CacheQuant.Pow2Shift(277, -149);
      InUnits(Product(w, s), Bf16.Pow2(277), CacheQuant.Pow2(-149));
    }
  }

  lemma InUnits(a: nat, b: nat, u: real)
    requires 0.0 < u
    ensures a as real * u < b as real * u <==> a < b
  {
    if a < b { CacheQuant.StrictTimes(a as real, b as real, u); }
    if b < a { CacheQuant.StrictTimes(b as real, a as real, u); }
  }

  /** Distances between whole numbers of units, with signs. */
  lemma Distances(p: nat, m: nat, u: real)
    requires 0.0 < u
    ensures Magnitude(p as real * u - m as real * u) == Bf16.Abs(p - m) as real * u
    ensures Magnitude(-(p as real * u) - -(m as real * u)) == Bf16.Abs(p - m) as real * u
    ensures Magnitude(p as real * u - -(m as real * u)) == (p + m) as real * u
    ensures Magnitude(-(p as real * u) - m as real * u) == (p + m) as real * u
  {
    var d := Bf16.Abs(p - m);
    SignOf(d as real, u);
    SignOf((p + m) as real, u);
    assert (p as real - m as real) * u == p as real * u - m as real * u;
    assert (p as real + m as real) * u == p as real * u + m as real * u;
  }

  lemma SignedDistance(negative: bool, other: bool, p: nat, m: nat, u: real)
    requires 0.0 < u
    ensures Magnitude(Signed(negative, p, u) - Signed(other, m, u)) ==
            (if negative == other then Bf16.Abs(p - m) else p + m) as real * u
  {
    Distances(p, m, u);
  }

  lemma SignedValue(code: nat)
    requires code < 0x1_0000
    ensures Bf16Value(code) == Signed(code >= 0x8000, Mag((code % 0x8000) * 0x1_0000), CacheQuant.Pow2(-149))
  {
    hide Mag, CacheQuant.Pow2;
    assert code / 0x8000 % 2 == 1 <==> code >= 0x8000;
  }

  lemma SignedProduct(w: nat, s: nat)
    requires w < 256 && w % 128 != 127 && s < 255
    ensures Fp8(w).Some? && E8M0(s).Some?
    ensures Fp8(w).value * E8M0(s).value == Signed(w >= 128, Product(w, s), CacheQuant.Pow2(-149))
  {
    hide Fp8, E8M0, Product, CacheQuant.Pow2;
    ProductOfEntries(w, s);
    var x := Fp8(w).value * E8M0(s).value;
    var u := CacheQuant.Pow2(-149);
    if Product(w, s) > 0 {
      SignOf(Product(w, s) as real, u);
    }
  }

  /** The distances of a code and of another one in whole units. */
  lemma UnitDistances(w: nat, s: nat, d: nat)
    requires w < 256 && ProductFinite(w, s) && d < 0x8000
    ensures var p, c := Product(w, s), Element(w, s) % 0x8000;
            Bf16.Abs(p - Mag(c * 0x1_0000)) <= Bf16.Abs(p - Mag(d * 0x1_0000)) &&
            (d != c && Bf16.Abs(p - Mag(c * 0x1_0000)) == Bf16.Abs(p - Mag(d * 0x1_0000)) ==> c % 2 == 0)
    ensures Element(w, s) < 0x1_0000 && Element(w, s) / 0x8000 == w / 128
  {
    hide Product, Element, Mag, ProductBits, ProductFinite;
    ElementNearest(w, s);
    assert CloserThan(ProductBits(w, s) % SIGN, Element(w, s) % 0x8000, d);
  }

  /** A number of the other sign is never nearer than zero, which is even. */
  lemma ZeroBetween(p: nat, m: nat, n: nat, even: bool, zero: bool, same: bool)
    requires Bf16.Abs(p - m) <= Bf16.Abs(p - n) && Bf16.Abs(p - m) <= p
    requires (!zero && Bf16.Abs(p - m) == p ==> even) && (zero ==> even)
    ensures var b := if same then Bf16.Abs(p - n) else p + n;
            Bf16.Abs(p - m) <= b && (!same && Bf16.Abs(p - m) == b ==> even)
  {
  }

  lemma CodeSplit(c: nat, d: nat)
    requires c < 0x1_0000 && d < 0x1_0000
    ensures c % 0x8000 % 2 == c % 2 && (c >= 0x8000 <==> c / 0x8000 == 1)
    ensures (c >= 0x8000) == (d >= 0x8000) && c != d ==> c % 0x8000 != d % 0x8000
  {
  }

  lemma SignCode(w: nat)
    requires w < 256
    ensures w >= 128 <==> w / 128 == 1
  {
  }

  lemma ZeroMag()
    ensures Mag(0 * 0x1_0000) == 0
  {
  }

  /** The stored word against another one, in whole units. */
  lemma StoredUnits(w: nat, s: nat, d: nat)
    requires w < 256 && ProductFinite(w, s) && d < 0x1_0000
    ensures Element(w, s) < 0x1_0000 && (Element(w, s) >= 0x8000 <==> w >= 128)
    ensures var p, c := Product(w, s), Element(w, s);
            var a := Bf16.Abs(p - Mag((c % 0x8000) * 0x1_0000));
            var n := Mag((d % 0x8000) * 0x1_0000);
            var b := if (w >= 128) == (d >= 0x8000) then Bf16.Abs(p - n) else p + n;
            a <= b && (d != c && a == b ==> c % 2 == 0)
  {
    hide Product, Element, Mag, ProductFinite;
    var c := Element(w, s);
    UnitDistances(w, s, d % 0x8000);
    UnitDistances(w, s, 0);
    ZeroMag();
    SignCode(w);
    CodeSplit(c, d);
    var same := (w >= 128) == (d >= 0x8000);
    var even, zero := c % 2 == 0, c % 0x8000 == 0;
    ZeroBetween(Product(w, s), Mag((c % 0x8000) * 0x1_0000), Mag((d % 0x8000) * 0x1_0000), even, zero, same);
  }

  /** The stored word has the sign of the weight and is the BF16 number nearest to the product of the two table
      entries, at a tie one with an even code. */
  lemma StoredIsNearest(w: nat, s: nat, d: nat)
    requires w < 256 && s < 256 && ProductFinite(w, s) && d < 0x1_0000
    ensures Fp8(w).Some? && E8M0(s).Some? && Element(w, s) < 0x1_0000
    ensures var x := Fp8(w).value * E8M0(s).value;
            Magnitude(x - Bf16Value(Element(w, s))) <= Magnitude(x - Bf16Value(d)) &&
            (d != Element(w, s) && Magnitude(x - Bf16Value(Element(w, s))) == Magnitude(x - Bf16Value(d))
             ==> Element(w, s) % 2 == 0)
    ensures Element(w, s) >= 0x8000 <==> w >= 128
  {
    FiniteCodes(w, s);
    hide Product, Element, Mag, Fp8, E8M0, Bf16Value, CacheQuant.Pow2, ProductFinite, Magnitude, Signed;
    var p, c, u := Product(w, s), Element(w, s), CacheQuant.Pow2(-149);
    StoredUnits(w, s, d);
    SignedProduct(w, s);
    SignedValue(c);
    SignedValue(d);
    var m, n := Mag((c % 0x8000) * 0x1_0000), Mag((d % 0x8000) * 0x1_0000);
    NearestSigned(w >= 128, p, m, d >= 0x8000, n, u, Fp8(w).value * E8M0(s).value, Bf16Value(c), Bf16Value(d));
  }

  /** From whole units to signed reals. */
  lemma NearestSigned(negative: bool, p: nat, m: nat, other: bool, n: nat, u: real, x: real, near: real, far: real)
    requires 0.0 < u && x == Signed(negative, p, u) && near == Signed(negative, m, u) && far == Signed(other, n, u)
    ensures var a, b := Bf16.Abs(p - m), if negative == other then Bf16.Abs(p - n) else p + n;
            (Magnitude(x - near) <= Magnitude(x - far) <==> a <= b) &&
            (Magnitude(x - near) == Magnitude(x - far) <==> a == b)
  {
    hide Magnitude, Signed;
    SignedDistance(negative, negative, p, m, u);
    SignedDistance(negative, other, p, n, u);
    var a, b: nat := Bf16.Abs(p - m), if negative == other then Bf16.Abs(p - n) else p + n;
    CompareUnits(a, b, u, Magnitude(x - near), Magnitude(x - far));
  }

  lemma CompareUnits(a: nat, b: nat, u: real, near: real, far: real)
    requires 0.0 < u && near == a as real * u && far == b as real * u
    ensures (near <= far <==> a <= b) && (near == far <==> a == b)
  {
    InUnits(a, b, u);
    InUnits(b, a, u);
  }

  lemma FiniteCodes(w: nat, s: nat)
    requires s < 256 && ProductFinite(w, s)
    ensures w % 128 != 127 && s < 255
  {
  }

  /** Any code that Rounds accepts is that word. */
  lemma RoundsMeans(w: nat, s: nat, code: nat, d: nat) returns (x: real)
    requires w < 256 && s < 256 && ProductFinite(w, s) && Rounds(w, s, code) && d < 0x1_0000
    ensures Fp8(w).Some? && E8M0(s).Some? && x == Fp8(w).value * E8M0(s).value
    ensures Magnitude(x) < CacheQuant.Pow2(128)
    ensures Magnitude(x - Bf16Value(code)) <= Magnitude(x - Bf16Value(d))
    ensures d != code && Magnitude(x - Bf16Value(code)) == Magnitude(x - Bf16Value(d)) ==> code % 2 == 0
    ensures code < 0x1_0000 && (code >= 0x8000 <==> w >= 128)
  {
    hide Fp8, E8M0, Bf16Value, Magnitude, ProductFinite, Rounds, Element;
    FiniteProduct(w, s);
    StoredIsNearest(w, s, d);
    ElementNearest(w, s);
    RoundsUnique(w, s, code, Element(w, s));
    x := Fp8(w).value * E8M0(s).value;
  }

  lemma TwoByteWord(file: seq<byte>, at: nat)
    requires at + 2 <= |file|
    ensures FromLittleEndian(file[at..at + 2]) == (file[at] as int) + 256 * (file[at + 1] as int)
  {
    var s := file[at..at + 2];
    FromLittleEndianStep(s);
    FromLittleEndianStep(s[1..]);
    assert s[1..][1..] == [] && s[0] == file[at] && s[1..][0] == file[at + 1];
  }

  lemma RowMajor(off: nat, k: nat, r: nat, c: nat)
    ensures off + (2 * k * r + 2 * c) == off + 2 * (r * k + c)
  {
  }

  /** A repaired file holds at place 2 (r k + c) of an entry, as two little-endian bytes, the BF16 number nearest to
      the table entry of weight (r, c) times the table entry of the scale of its 32 x 32 tile; d is any other. */
  lemma FinishedGives(files: FileWrites.Files, es: seq<Repair.Entry>, i: nat, r: nat, c: nat, d: nat)
    returns (at: nat, code: nat, x: real)
    requires Repair.AllDecoded(files, es) && i < |es| && es[i].conv == Repair.DenseFix()
    requires Repair.EntryFinite(es[i]) && r < es[i].m && c < es[i].k && d < 0x1_0000
    ensures es[i].shard in files && at == es[i].offset + 2 * (r * es[i].k + c) && at + 2 <= |files[es[i].shard]|
    ensures code == (files[es[i].shard][at] as int) + 256 * (files[es[i].shard][at + 1] as int) < 0x1_0000
    ensures Fp8(es[i].w(r, c)).Some? && E8M0(es[i].s(r / 32, c / 32)).Some?
    ensures x == Fp8(es[i].w(r, c)).value * E8M0(es[i].s(r / 32, c / 32)).value
    ensures code >= 0x8000 <==> es[i].w(r, c) >= 128
    ensures Magnitude(x - Bf16Value(code)) <= Magnitude(x - Bf16Value(d))
    ensures d != code && Magnitude(x - Bf16Value(code)) == Magnitude(x - Bf16Value(d)) ==> code % 2 == 0
  {
    hide Fp8, E8M0, Bf16Value, Magnitude, Rounds, ProductFinite, FromLittleEndian;
    var e, file := es[i], files[es[i].shard];
    at := e.offset + 2 * (r * e.k + c);
    RowMajor(e.offset, e.k, r, c);
    assert Repair.DecodesAt(file, e, r, c);
    TwoByteWord(file, at);
    assert Repair.RowFinite(e, r);
    assert e.conv.finite(e.w(r, c), e.s(r / 32, c / 32));
    code := FromLittleEndian(file[at..at + 2]);
    x := RoundsMeans(e.w(r, c), e.s(r / 32, c / 32), code, d);
  }

  /** The numbers the cache quantisation rounds to are the entries of the same table. */
  lemma CacheValues(c: nat)
    requires c < 127
    ensures Fp8(c) == Some(CacheQuant.Value(c))
  {
    hide Bf16.Pow2, CacheQuant.Pow2, E4M3;
    WeightEntry(c);
    CacheQuant.Pow2Join(-9, 9);
    NinthPower();
    assert (E4M3(c) as real * CacheQuant.Pow2(-9)) == E4M3(c) as real / 512.0;
  }

  lemma NinthPower()
    ensures CacheQuant.Pow2(-9) == 1.0 / 512.0
  {
    assert CacheQuant.Pow2(-4) == 1.0 / 16.0 && CacheQuant.Pow2(-8) == 1.0 / 256.0;
  }

  // ------------------------------------------------------------ landmark codes

  /** The landmarks the code checks itself: 144 for code 0x71, +-448 for the largest codes, NaN above, 2^-12 for
      scale code 0x73, and the BF16 word of their product. */
  lemma Landmarks()
    ensures Fp8(0x71) == Some(144.0) && Fp8(0x7E) == Some(448.0) && Fp8(0xFE) == Some(-448.0) && Fp8(0x7F) == None
    ensures E8M0(0x73) == Some(1.0 / 4096.0)
    ensures Element(0x71, 0x73) == 0x3D10
  {
    LandmarkWeights();
    hide Fp8, E8M0, Element;
    ScaleEntry(0x73);
    LandmarkPowers();
    SelfTestWord();
  }

  lemma LandmarkWeights()
    ensures Fp8(0x71) == Some(144.0) && Fp8(0x7E) == Some(448.0) && Fp8(0xFE) == Some(-448.0) && Fp8(0x7F) == None
  {
    hide CacheQuant.Pow2;
    LandmarkPowers();
    assert Fp8Size(14, 1) == 144.0 && Fp8Size(15, 6) == 448.0;
  }

  lemma LandmarkPowers()
    ensures CacheQuant.Pow2(7) == 128.0 && CacheQuant.Pow2(8) == 256.0 && CacheQuant.Pow2(-12) == 1.0 / 4096.0
  {
    assert CacheQuant.Pow2(4) == 16.0 && CacheQuant.Pow2(-4) == 1.0 / 16.0;
    assert CacheQuant.Pow2(-8) == 1.0 / 256.0;
  }

  lemma SmallPowers2()
    ensures Bf16.Pow2(4) == 16 && Bf16.Pow2(20) == 0x10_0000
  {
    SmallPowers();
    Pow2Add(16, 4);
  }

  lemma SelfTestProduct()
    ensures ProductFinite(0x71, 0x73) && Product(0x71, 0x73) == 9 * Bf16.Pow2(141)
  {
    hide Bf16.Pow2;
    Pow2Add(13, 128);
    assert E4M3(0x71) == 9 * Bf16.Pow2(13);
    hide E4M3;
    NumberTheory.Associate(9, Bf16.Pow2(13), Bf16.Pow2(128));
    SmallPowers2();
    Pow2Add(141, 4);
    Pow2Grows(145, 277);
    assert 9 * Bf16.Pow2(141) < Bf16.Pow2(277);
  }

  lemma SelfTestMag()
    ensures Mag(0x3D10 * 0x1_0000) == 9 * Bf16.Pow2(141)
  {
    hide Bf16.Pow2;
    SmallPowers2();
    Pow2Add(20, 121);
    assert (0x3D10 * 0x1_0000) / HIDDEN == 122 && (0x3D10 * 0x1_0000) % HIDDEN == 0x10_0000;
    assert HIDDEN + 0x10_0000 == 9 * 0x10_0000;
    NumberTheory.Associate(9, 0x10_0000, Bf16.Pow2(121));
  }

  lemma SelfTestWord()
    ensures Element(0x71, 0x73) == 0x3D10
  {
    SelfTestProduct();
    SelfTestMag();
    hide Product, Mag, Element, Bf16.Pow2, ProductFinite;
    UnitDistances(0x71, 0x73, 0x3D10);
    var c := Element(0x71, 0x73) % 0x8000;
    if c < 0x3D10 {
      MagMonotone(c, 0x3D10);
    } else if c > 0x3D10 {
      MagMonotone(0x3D10, c);
    }
  }
}
