/** Elementary number theory used by the prime search: powers modulo n, Euclid's
    lemma, Fermat's little theorem, square roots of one, and unboundedness of the primes. */
module NumberTheory {

  // ---------------------------------------------------------------- products

  lemma Associate(a: int, b: int, c: int)
    ensures (a * b) * c == a * (b * c)
  {
  }

  lemma Exchange(a: int, b: int, c: int)
    ensures a * (b * c) == b * (a * c)
  {
  }

  lemma Distribute(a: int, b: int, c: int)
    ensures (a + b) * c == a * c + b * c
  {
  }

  lemma MulMonotone(a: int, b: int, c: int)
    requires a <= b && 0 <= c
    ensures a * c <= b * c
  {
    Distribute(b - a, a, c);
  }

  // ---------------------------------------------------------------- division

  lemma MulAtLeast(k: int, d: int)
    requires 1 <= k && 0 < d
    ensures d <= k * d
  {
    assert 0 <= (k - 1) * d;
  }

  lemma SmallMultiple(k: int, d: int)
    requires 0 < d && -d < k * d < d
    ensures k == 0
  {
    if k >= 1 {
      MulAtLeast(k, d);
    } else if k <= -1 {
      MulAtLeast(-k, d);
    }
  }

  lemma DivModUnique(n: int, d: int, q: int, r: int)
    requires 0 < d && n == q * d + r && 0 <= r < d
    ensures n / d == q && n % d == r
  {
    var q', r' := n / d, n % d;
    assert n == q' * d + r';
    assert (q' - q) * d == r - r';
    SmallMultiple(q' - q, d);
  }

  lemma MulDivides(k: int, d: int)
    requires 0 < d
    ensures (k * d) % d == 0 && (d * k) % d == 0
  {
    DivModUnique(k * d, d, k, 0);
  }

  lemma ModAddMultiple(n: int, k: int, d: int)
    requires 0 < d
    ensures (n + k * d) % d == n % d
  {
    var q := n / d;
    assert n == q * d + n % d;
    assert (q + k) * d == q * d + k * d;
    DivModUnique(n + k * d, d, q + k, n % d);
  }

  lemma DividesTransitive(q: int, f: int, n: int)
    requires 0 < q && 0 < f && f % q == 0 && n % f == 0
    ensures n % q == 0
  {
    var u, v := n / f, f / q;
    assert n == u * f && f == v * q;
    assert u * (v * q) == (u * v) * q;
    MulDivides(u * v, q);
  }

  lemma ModMulLeft(a: int, b: int, d: int)
    requires 0 < d
    ensures ((a % d) * b) % d == (a * b) % d
  {
    var q := a / d;
    assert a == q * d + a % d;
    assert a * b == (a % d) * b + (q * b) * d;
    ModAddMultiple((a % d) * b, q * b, d);
  }

  lemma ModMulBoth(a: int, b: int, d: int)
    requires 0 < d
    ensures ((a % d) * (b % d)) % d == (a * b) % d
  {
    ModMulLeft(a, b % d, d);
    ModMulLeft(b, a, d);
    assert a * (b % d) == (b % d) * a && a * b == b * a;
  }

  lemma ModEqualDivides(a: int, b: int, d: int)
    requires 0 < d
    ensures a % d == b % d <==> (a - b) % d == 0
  {
    var qa, qb := a / d, b / d;
    var ra, rb := a % d, b % d;
    assert a - b == (ra - rb) + (qa - qb) * d;
    if ra >= rb {
      DivModUnique(a - b, d, qa - qb, ra - rb);
    } else {
      assert a - b == (qa - qb - 1) * d + (ra - rb + d);
      DivModUnique(a - b, d, qa - qb - 1, ra - rb + d);
    }
  }

  // ------------------------------------------------------------------ powers

  function Pow(a: nat, e: nat): nat {
    if e == 0 then 1 else a * Pow(a, e - 1)
  }

  /** Powers: a itself for exponent one, and products for sums of exponents. */
  lemma {:induction false} PowAdd(a: nat, i: nat, j: nat)
    ensures Pow(a, 0) == 1 && Pow(a, 1) == a
    ensures Pow(a, i + j) == Pow(a, i) * Pow(a, j)
  {
    if i > 0 {
      PowAdd(a, i - 1, j);
      Associate(a, Pow(a, i - 1), Pow(a, j));
    }
  }

  lemma {:induction false} PowPositive(a: nat, e: nat)
    requires 0 < a
    ensures 0 < Pow(a, e)
  {
    if e > 0 {
      PowPositive(a, e - 1);
    }
  }

  /** Squaring a residue doubles the exponent it stands for. */
  lemma SquareMod(a: nat, e: nat, n: int)
    requires 0 < n
    ensures ((Pow(a, e) % n) * (Pow(a, e) % n)) % n == Pow(a, 2 * e) % n
  {
    ModMulBoth(Pow(a, e), Pow(a, e), n);
    PowAdd(a, e, e);
  }

  // ------------------------------------------------------------------ primes

  ghost predicate Prime(p: int) {
    2 <= p && forall m :: 2 <= m < p ==> p % m != 0
  }

  /** Euclid's lemma in the form the proofs use: b below p cannot absorb the factor p. */
  lemma {:induction false} EuclidReduced(p: int, a: int, b: int)
    requires Prime(p) && 0 < b < p && (a * b) % p == 0
    ensures a % p == 0
    decreases b
  {
    if b > 1 {
      var q, r := p / b, p % b;
      assert p == q * b + r && 0 < r < b;
      var k := (a * b) / p;
      assert a * b == k * p;
      assert a * r == (a - q * k) * p by {
        assert a * r == a * p - q * (a * b);
        assert q * (k * p) == (q * k) * p;
      }
      MulDivides(a - q * k, p);
      EuclidReduced(p, a, r);
    }
  }

  lemma Euclid(p: int, a: int, b: int)
    requires Prime(p) && (a * b) % p == 0
    ensures a % p == 0 || b % p == 0
  {
    if b % p != 0 {
      ModMulLeft(b, a, p);
      assert a * b == b * a && a * (b % p) == (b % p) * a;
      EuclidReduced(p, a, b % p);
    }
  }

  /** Modulo a prime, one has only the square roots 1 and -1. */
  lemma SquareRootsOfOne(p: int, x: int)
    requires Prime(p) && 0 <= x < p && (x * x) % p == 1
    ensures x == 1 || x == p - 1
  {
    ModEqualDivides(x * x, 1, p);
    DivModUnique(1, p, 0, 1);
    assert (x - 1) * (x + 1) == x * x - 1;
    Euclid(p, x - 1, x + 1);
    if (x - 1) % p == 0 {
      if x > 1 { DivModUnique(x - 1, p, 0, x - 1); }
    } else if x + 1 < p {
      DivModUnique(x + 1, p, 0, x + 1);
    }
  }

  // --------------------------------------------------- Fermat's little theorem

  ghost function Range(n: nat): set<int> {
    if n == 0 then {} else Range(n - 1) + {n}
  }

  lemma {:induction false} RangeMembers(n: nat)
    ensures forall i :: i in Range(n) <==> 1 <= i <= n
  {
    if n > 0 {
      RangeMembers(n - 1);
    }
  }

  lemma {:induction false} RangeSize(n: nat)
    ensures |Range(n)| == n
  {
    if n > 0 {
      RangeSize(n - 1);
      RangeMembers(n - 1);
    }
  }

  ghost function Largest(s: set<int>): (m: int)
    requires s != {}
    ensures m in s && forall x :: x in s ==> x <= m
  {
    LargestExists(s);
    var m :| m in s && forall x :: x in s ==> x <= m;
    m
  }

  lemma Member<T>(s: set<T>) returns (x: T)
    requires s != {}
    ensures x in s
  {
    x :| x in s;
  }

  lemma {:induction false} LargestExists(s: set<int>)
    requires s != {}
    ensures exists m :: m in s && forall x :: x in s ==> x <= m
  {
    var x := Member(s);
    if s - {x} == {} {
      assert forall y :: y in s ==> y == x || y in s - {x};
    } else {
      LargestExists(s - {x});
      var m :| m in s - {x} && forall y :: y in s - {x} ==> y <= m;
      var top := if m < x then x else m;
      assert forall y :: y in s ==> y <= top by {
        assert forall y :: y in s ==> y == x || y in s - {x};
      }
    }
  }

  ghost function SetProduct(s: set<int>): int {
    if s == {} then 1 else
      var m := Largest(s);
      m * SetProduct(s - {m})
  }

  lemma {:induction false} SetProductInsert(s: set<int>, x: int)
    requires x !in s
    ensures SetProduct(s + {x}) == x * SetProduct(s)
    decreases s
  {
    var m := Largest(s + {x});
    if m == x {
      assert (s + {x}) - {x} == s;
    } else {
      SetProductInsert(s - {m}, x);
      assert (s + {x}) - {m} == (s - {m}) + {x};
      Exchange(m, x, SetProduct(s - {m}));
    }
  }

  function Factorial(n: nat): nat {
    if n == 0 then 1 else n * Factorial(n - 1)
  }

  lemma {:induction false} RangeProduct(n: nat)
    ensures SetProduct(Range(n)) == Factorial(n)
  {
    if n > 0 {
      RangeProduct(n - 1);
      RangeMembers(n - 1);
      SetProductInsert(Range(n - 1), n);
    }
  }

  /** The residues a*1, ..., a*n modulo p. */
  ghost function Multiples(a: nat, n: nat, p: nat): set<int>
    requires 0 < p
  {
    if n == 0 then {} else Multiples(a, n - 1, p) + {(a * n) % p}
  }

  lemma {:induction false} MultiplesMember(a: nat, n: nat, p: nat, x: int) returns (i: nat)
    requires 0 < p && x in Multiples(a, n, p)
    ensures 1 <= i <= n && x == (a * i) % p
  {
    if x == (a * n) % p {
      i := n;
    } else {
      i := MultiplesMember(a, n - 1, p, x);
    }
  }

  lemma MultiplesDistinct(p: nat, a: nat, i: nat, j: nat)
    requires Prime(p) && a % p != 0 && 1 <= i < j < p
    ensures (a * i) % p != (a * j) % p
  {
    if (a * i) % p == (a * j) % p {
      ModEqualDivides(a * j, a * i, p);
      assert a * j - a * i == a * (j - i);
      EuclidReduced(p, a, j - i);
    }
  }

  /** One more residue is new and non-zero. */
  lemma NextMultipleNew(p: nat, a: nat, n: nat)
    requires Prime(p) && a % p != 0 && 0 < n < p
    ensures (a * n) % p !in Multiples(a, n - 1, p) && 1 <= (a * n) % p <= p - 1
  {
    if (a * n) % p in Multiples(a, n - 1, p) {
      var i := MultiplesMember(a, n - 1, p, (a * n) % p);
      MultiplesDistinct(p, a, i, n);
    }
    if (a * n) % p == 0 {
      EuclidReduced(p, a, n);
    }
  }

  lemma {:induction false} MultiplesAll(p: nat, a: nat, n: nat)
    requires Prime(p) && a % p != 0 && n < p
    ensures |Multiples(a, n, p)| == n && Multiples(a, n, p) <= Range(p - 1)
  {
    if n > 0 {
      MultiplesAll(p, a, n - 1);
      NextMultipleNew(p, a, n);
      RangeMembers(p - 1);
    }
  }

  /** The product of the residues is a^n * n! modulo p. */
  lemma {:induction false} MultiplesProduct(p: nat, a: nat, n: nat)
    requires Prime(p) && a % p != 0 && n < p
    ensures SetProduct(Multiples(a, n, p)) % p == (Pow(a, n) * Factorial(n)) % p
  {
    if n > 0 {
      MultiplesProduct(p, a, n - 1);
      NextMultipleNew(p, a, n);
      var s, x := Multiples(a, n - 1, p), (a * n) % p;
      var u, v := Pow(a, n - 1), Factorial(n - 1);
      SetProductInsert(s, x);
      ModMulLeft(a * n, SetProduct(s), p);
      ProductStep(a * n, SetProduct(s), u * v, p);
      Regroup(a, n, u, v);
    }
  }

  lemma Regroup(a: int, n: int, u: int, v: int)
    ensures (a * n) * (u * v) == (a * u) * (n * v)
  {
    calc {
      (a * n) * (u * v);
      a * (n * (u * v));
      { assert n * (u * v) == u * (n * v); }
      a * (u * (n * v));
      (a * u) * (n * v);
    }
  }

  lemma ProductStep(c: int, s: int, t: int, p: int)
    requires 0 < p && s % p == t % p
    ensures (c * s) % p == (c * t) % p
  {
    ModMulLeft(s, c, p);
    ModMulLeft(t, c, p);
    assert s * c == c * s && t * c == c * t;
  }

  lemma {:induction false} FactorialCoprime(p: int, n: nat)
    requires Prime(p) && n < p
    ensures Factorial(n) % p != 0
  {
    if n > 0 {
      FactorialCoprime(p, n - 1);
      if Factorial(n) % p == 0 {
        Euclid(p, n, Factorial(n - 1));
        DivModUnique(n, p, 0, n);
      }
    }
  }

  lemma SubsetOfEqualSize<T>(s: set<T>, t: set<T>)
    requires s <= t && |s| == |t|
    ensures s == t
  {
    assert t == s + (t - s);
    assert |t| == |s| + |t - s|;
  }

  /** The multiples of a are the range again, in another order: their products agree modulo p. */
  lemma MultiplesPermute(p: nat, a: nat)
    requires Prime(p) && a % p != 0
    ensures (Pow(a, p - 1) * Factorial(p - 1)) % p == Factorial(p - 1) % p
  {
    hide Pow, Factorial, SetProduct, Multiples, Range;
    MultiplesProduct(p, a, p - 1);
    MultiplesAll(p, a, p - 1);
    RangeSize(p - 1);
    SubsetOfEqualSize(Multiples(a, p - 1, p), Range(p - 1));
    RangeProduct(p - 1);
  }

  /** Fermat's little theorem. */
  lemma Fermat(p: nat, a: nat)
    requires Prime(p) && a % p != 0
    ensures Pow(a, p - 1) % p == 1
  {
    assert 2 <= p;
    hide Pow, Factorial, Prime;
    MultiplesPermute(p, a);
    FactorialCoprime(p, p - 1);
    CancelFactor(p, Pow(a, p - 1), Factorial(p - 1));
  }

  lemma CancelFactor(p: int, w: int, f: int)
    requires Prime(p) && (w * f) % p == f % p && f % p != 0
    ensures w % p == 1
  {
    ModEqualDivides(w * f, f, p);
    assert (w - 1) * f == w * f - f;
    Euclid(p, w - 1, f);
    ModEqualDivides(w, 1, p);
    DivModUnique(1, p, 0, 1);
  }

  // ------------------------------------------------------ unbounded supply

  lemma {:induction false} SomePrimeFactor(n: int) returns (p: int)
    requires 2 <= n
    ensures Prime(p) && p <= n && n % p == 0
    decreases n
  {
    if Prime(n) {
      MulDivides(1, n);
      p := n;
    } else {
      var m :| 2 <= m < n && n % m == 0;
      p := SomePrimeFactor(m);
      DividesTransitive(p, m, n);
    }
  }

  lemma DivisibleTimes(n: int, f: int, m: int)
    requires 0 < m && f % m == 0
    ensures (n * f) % m == 0 && (f * n) % m == 0
  {
    var k := f / m;
    assert f == k * m;
    Associate(n, k, m);
    MulDivides(n * k, m);
  }

  lemma {:induction false} FactorialDivisible(n: nat, m: int)
    requires 1 <= m <= n
    ensures Factorial(n) % m == 0 && Factorial(n) >= 1
    decreases n
  {
    if n > 1 {
      if m == n {
        FactorialDivisible(n - 1, 1);
        MulDivides(Factorial(n - 1), n);
      } else {
        FactorialDivisible(n - 1, m);
        DivisibleTimes(n, Factorial(n - 1), m);
      }
    }
  }

  /** Euclid: above every bound there is a prime. */
  lemma PrimeAbove(n: nat) returns (p: int)
    ensures n < p && Prime(p)
  {
    FactorialDivisible(n + 1, 1);
    p := SomePrimeFactor(Factorial(n + 1) + 1);
    if p <= n + 1 {
      FactorialDivisible(n + 1, p);
      ModEqualDivides(Factorial(n + 1) + 1, Factorial(n + 1), p);
      DivModUnique(1, p, 0, 1);
    }
  }
}
