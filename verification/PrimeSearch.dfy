/** The prime search that fixes the n-gram head sizes: the strong-pseudoprime test,
    and the search for the next unused accepted number. */
module PrimeSearch {
  import opened NumberTheory
  import opened Runs

  const TRIAL: seq<int> := [2, 3, 5, 7, 11, 13, 17, 19, 23, 29, 31, 37]
  const BASES: seq<nat> := [2, 7, 61]

  // ------------------------------------------------------------ what is accepted

  function Twos(m: nat): nat
    requires 0 < m
  {
    if m % 2 == 0 then 1 + Twos(m / 2) else 0
  }

  function OddPart(m: nat): (d: nat)
    requires 0 < m
  {
    if m % 2 == 0 then OddPart(m / 2) else m
  }

  lemma {:induction false} OddPartFactors(m: nat)
    requires 0 < m
    ensures m == OddPart(m) * Pow(2, Twos(m)) && 0 < OddPart(m)
  {
    if m % 2 == 0 {
      OddPartFactors(m / 2);
      assert OddPart(m) * (2 * Pow(2, Twos(m / 2))) == 2 * (OddPart(m) * Pow(2, Twos(m / 2)));
    }
  }

  /** The residue reached after squaring a^d (n - 1 = d * 2^r, d odd) j times. */
  function Residue(n: int, a: nat, j: nat): int
    requires 2 <= n
  {
    Pow(a, OddPart(n - 1) * Pow(2, j)) % n
  }

  /** n passes the strong test to base a. */
  ghost predicate StrongProbablePrime(n: int, a: nat)
    requires 2 <= n
  {
    Residue(n, a, 0) == 1 || exists j :: 0 <= j < Twos(n - 1) && Residue(n, a, j) == n - 1
  }

  ghost predicate NoTrialDivisor(n: int) {
    forall i :: 0 <= i < |TRIAL| ==> n % TRIAL[i] != 0
  }

  ghost predicate Accepted(n: int) {
    n in TRIAL ||
    (2 <= n && NoTrialDivisor(n) && forall i :: 0 <= i < |BASES| ==> StrongProbablePrime(n, BASES[i]))
  }

  // ----------------------------------------------------------- the test itself

  lemma DoubleExponent(d: nat, p: nat)
    ensures 2 * (d * p) == d * (2 * p)
  {
  }

  lemma ResidueStep(n: int, a: nat, j: nat)
    requires 2 <= n
    ensures (Residue(n, a, j) * Residue(n, a, j)) % n == Residue(n, a, j + 1)
  {
    hide OddPart;
    var d, p := OddPart(n - 1), Pow(2, j);
    SquareMod(a, d * p, n);
    DoubleExponent(d, p);
  }

  /** Trial division by the listed primes: a verdict, or none when no listed prime divides n. */
  method TrialDivide(n: int) returns (decided: bool, verdict: bool)
    ensures decided <==> !NoTrialDivisor(n)
    ensures decided ==> (verdict <==> n in TRIAL)
    ensures !decided ==> n !in TRIAL
  {
    for k := 0 to |TRIAL|
      invariant forall i :: 0 <= i < k ==> n % TRIAL[i] != 0
    {
      if n % TRIAL[k] == 0 {
        forall i | 0 <= i < |TRIAL| && i != k ensures n != TRIAL[i] {
          if k < i {
          } else {
            assert TRIAL[i] % TRIAL[i] == 0;
          }
        }
        return true, n == TRIAL[k];
      }
    }
    forall i | 0 <= i < |TRIAL| ensures n != TRIAL[i] {
      assert TRIAL[i] % TRIAL[i] == 0;
    }
    return false, false;
  }

  /** One round of the strong test: square up to r - 1 times, looking for n - 1. */
  method StrongRound(n: int, d: nat, r: nat, a: nat) returns (passed: bool)
    requires 2 <= n && d == OddPart(n - 1) && r == Twos(n - 1) && 1 <= r
    ensures passed <==> StrongProbablePrime(n, a)
  {
    var x := Pow(a, d) % n;
    assert d * Pow(2, 0) == d;
    assert x == Residue(n, a, 0);
    if x == 1 || x == n - 1 {
      return true;
    }
    for j := 0 to r - 1
      invariant x == Residue(n, a, j)
      invariant forall i :: 0 <= i <= j ==> Residue(n, a, i) != n - 1
    {
      ResidueStep(n, a, j);
      x := x * x % n;
      if x == n - 1 {
        return true;
      }
    }
    return false;
  }

  method IsPrime(n: int) returns (accepted: bool)
    ensures accepted <==> Accepted(n)
  {
    if n < 2 {
      return false;
    }
    var decided, verdict := TrialDivide(n);
    if decided {
      return verdict;
    }
    assert n % TRIAL[0] != 0;
    var d, r := n - 1, 0;
    while d % 2 == 0
      invariant 0 < d && OddPart(d) == OddPart(n - 1) && Twos(n - 1) == r + Twos(d)
      decreases d
    {
      r, d := r + 1, d / 2;
    }
    assert 1 <= r;
    for k := 0 to |BASES|
      invariant forall i :: 0 <= i < k ==> StrongProbablePrime(n, BASES[i])
    {
      var passed := StrongRound(n, d, r, BASES[k]);
      if !passed {
        return false;
      }
    }
    return true;
  }

  // -------------------------------------------- what acceptance means in plain terms

  /** n - 1 splits into an odd part and a power of two in one way. */
  lemma {:induction false} SplitUnique(m: nat, d: nat, r: nat)
    requires 0 < m && d % 2 == 1 && m == d * Pow(2, r)
    ensures d == OddPart(m) && r == Twos(m)
    decreases r
  {
    if r > 0 {
      Exchange(d, 2, Pow(2, r - 1));
      DivModUnique(m, 2, d * Pow(2, r - 1), 0);
      SplitUnique(m / 2, d, r - 1);
    }
  }

  lemma {:induction false} OddPartOdd(m: nat)
    requires 0 < m
    ensures OddPart(m) % 2 == 1
  {
    if m % 2 == 0 {
      OddPartOdd(m / 2);
    }
  }

  lemma ResidueIs(n: int, a: nat, d: nat, j: nat)
    requires 2 <= n && d == OddPart(n - 1)
    ensures Residue(n, a, j) == Pow(a, d * Pow(2, j)) % n
    ensures Residue(n, a, 0) == Pow(a, d) % n
  {
    assert d * Pow(2, 0) == d;
  }

  /** The strong test, for n - 1 = d * 2^r with d odd: a^d is 1, or some a^(d 2^j) with j < r is -1. */
  lemma StrongMeans(n: int, a: nat, d: nat, r: nat)
    requires 2 <= n && d % 2 == 1 && n - 1 == d * Pow(2, r)
    ensures StrongProbablePrime(n, a) <==>
            Pow(a, d) % n == 1 || exists j :: 0 <= j < r && Pow(a, d * Pow(2, j)) % n == n - 1
  {
    SplitUnique(n - 1, d, r);
    hide OddPart, Twos, Pow, Residue;
    ResidueIs(n, a, d, 0);
    if j :| 0 <= j < r && Residue(n, a, j) == n - 1 {
      ResidueIs(n, a, d, j);
    }
    if j :| 0 <= j < r && Pow(a, d * Pow(2, j)) % n == n - 1 {
      ResidueIs(n, a, d, j);
    }
  }

  /** The trial divisors are the primes below 41. */
  lemma TrialMeans(n: int)
    ensures NoTrialDivisor(n) <==> forall p :: Prime(p) && p < 41 ==> n % p != 0
    ensures n in TRIAL <==> Prime(n) && n < 41
  {
    assert forall p :: p in TRIAL ==> p < 41;
    hide Prime;
    forall p | p < 41 ensures Prime(p) <==> p in TRIAL {
      SmallNumbers(p);
    }
    if NoTrialDivisor(n) {
      forall p | Prime(p) && p < 41 ensures n % p != 0 {
        assert p in TRIAL;
      }
    } else {
      var i :| 0 <= i < |TRIAL| && n % TRIAL[i] == 0;
      assert TRIAL[i] in TRIAL;
    }
  }

  /** Accepted are the primes below 41, and the numbers without a prime divisor below 41 that pass the strong
      test to 2, 7 and 61. */
  lemma AcceptedMeans(n: int)
    ensures Accepted(n) <==>
            (Prime(n) && n < 41) ||
            (2 <= n && (forall p :: Prime(p) && p < 41 ==> n % p != 0) &&
             StrongProbablePrime(n, 2) && StrongProbablePrime(n, 7) && StrongProbablePrime(n, 61))
  {
    TrialMeans(n);
    hide StrongProbablePrime, NoTrialDivisor, Prime;
    assert forall i :: 0 <= i < |BASES| ==> BASES[i] == 2 || BASES[i] == 7 || BASES[i] == 61;
    assert BASES[0] == 2 && BASES[1] == 7 && BASES[2] == 61;
  }

  /** An accepted number that is not listed is a Fermat pseudoprime to each base, and more: with n - 1 = d * 2^r
      and d odd, a^d is 1 or some a^(d 2^j) with j < r is -1. */
  lemma AcceptedStrong(n: int, a: nat, d: nat, r: nat)
    requires Accepted(n) && 41 <= n && (a == 2 || a == 7 || a == 61)
    requires d % 2 == 1 && n - 1 == d * Pow(2, r)
    ensures Pow(a, d) % n == 1 || exists j :: 0 <= j < r && Pow(a, d * Pow(2, j)) % n == n - 1
    ensures Pow(a, n - 1) % n == 1
  {
    hide StrongProbablePrime, Pow, Prime, Accepted, OddPart, Twos;
    AcceptedMeans(n);
    StrongMeans(n, a, d, r);
    SplitUnique(n - 1, d, r);
    StrongIsFermat(n, a);
  }

  lemma StrongIsFermat(n: int, a: nat)
    requires 2 <= n && StrongProbablePrime(n, a)
    ensures Pow(a, n - 1) % n == 1
  {
    OddPartFactors(n - 1);
    var r := Twos(n - 1);
    ResidueIs(n, a, OddPart(n - 1), r);
    hide OddPart, Twos, Residue, Pow;
    if Residue(n, a, 0) == 1 {
      ResiduesForward(n, a, 0, r);
    } else {
      var j :| 0 <= j < r && Residue(n, a, j) == n - 1;
      ResidueStep(n, a, j);
      MinusOneSquared(n);
      ResiduesForward(n, a, j + 1, r);
    }
  }

  lemma MinusOneSquared(n: int)
    requires 2 <= n
    ensures ((n - 1) * (n - 1)) % n == 1
  {
    assert (n - 1) * (n - 1) == (n - 2) * n + 1;
    DivModUnique((n - 1) * (n - 1), n, n - 2, 1);
  }

  lemma {:induction false} ResiduesForward(n: int, a: nat, i: nat, j: nat)
    requires 2 <= n && i <= j && Residue(n, a, i) == 1
    ensures Residue(n, a, j) == 1
    decreases j
  {
    if i < j {
      hide Residue;
      ResiduesForward(n, a, i, j - 1);
      ResidueStep(n, a, j - 1);
      DivModUnique(1, n, 0, 1);
    }
  }

  // -------------------------------------------------- completeness on the primes

  lemma ResidueLast(n: int, a: nat)
    requires Prime(n) && a % n != 0
    ensures Residue(n, a, Twos(n - 1)) == 1
  {
    OddPartFactors(n - 1);
    Fermat(n, a);
  }

  /** Walking back from a^(n-1) = 1: either some residue is -1 or all of them are 1. */
  lemma {:induction false} ResiduesBack(n: int, a: nat, j: nat)
    requires Prime(n) && j <= Twos(n - 1) && Residue(n, a, j) == 1
    ensures Residue(n, a, 0) == 1 || exists i :: 0 <= i < j && Residue(n, a, i) == n - 1
  {
    if j > 0 {
      ResidueStep(n, a, j - 1);
      SquareRootsOfOne(n, Residue(n, a, j - 1));
      if Residue(n, a, j - 1) == 1 {
        ResiduesBack(n, a, j - 1);
      }
    }
  }

  lemma MultipleStaysZero(n: int, a: nat, e: nat)
    requires 0 < n && 0 < e && a % n == 0
    ensures Pow(a, e) % n == 0
  {
    assert Pow(a, e) == a * Pow(a, e - 1);
    hide Pow;
    DivisibleTimes(Pow(a, e - 1), a, n);
  }

  /** A prime passes the strong test to exactly the bases it does not divide. */
  lemma PrimePassesStrongTest(n: int, a: nat)
    requires Prime(n) && 2 < n
    ensures StrongProbablePrime(n, a) <==> a % n != 0
  {
    if a % n != 0 {
      ResidueLast(n, a);
      ResiduesBack(n, a, Twos(n - 1));
    } else {
      OddPartFactors(n - 1);
      forall j: nat ensures Residue(n, a, j) == 0 {
        PowPositive(2, j);
        MulAtLeast(OddPart(n - 1), Pow(2, j));
        MultipleStaysZero(n, a, OddPart(n - 1) * Pow(2, j));
      }
    }
  }

  /** The test accepts every prime but one: 61 is lost because it is itself a base. */
  lemma PrimesAccepted(n: int)
    requires Prime(n)
    ensures Accepted(n) <==> n != 61
  {
    if n !in TRIAL {
      if n <= 40 {
        SmallNumbers(n);
      }
      forall i | 0 <= i < |BASES| ensures StrongProbablePrime(n, BASES[i]) <==> n != BASES[i] {
        PrimePassesStrongTest(n, BASES[i]);
        BaseDivisible(n, i);
      }
      assert n == 61 ==> !StrongProbablePrime(n, BASES[2]);
    }
  }

  lemma BaseDivisible(n: int, i: nat)
    requires Prime(n) && 40 < n && i < |BASES|
    ensures BASES[i] % n == 0 <==> n == BASES[i]
  {
    if BASES[i] < n {
      DivModUnique(BASES[i], n, 0, BASES[i]);
    } else if n < 61 {
      DivModUnique(61, n, 1, 61 - n);
    }
  }

  // ------------------------------------------ exactness below the trial square

  lemma DivisorBelowRoot(n: int) returns (f: int)
    requires 2 <= n && !Prime(n)
    ensures 2 <= f && f * f <= n && n % f == 0
  {
    var m :| 2 <= m < n && n % m == 0;
    var k := n / m;
    Cofactor(n, m, k);
    if m <= k {
      MulMonotone(m, k, m);
      f := m;
    } else {
      MulMonotone(k, m, k);
      MulDivides(m, k);
      f := k;
    }
  }

  lemma Cofactor(n: int, m: int, k: int)
    requires 2 <= m < n && n % m == 0 && k == n / m
    ensures n == k * m && 2 <= k
  {
    assert n == k * m;
    if k <= 1 {
      MulMonotone(k, 1, m);
    }
  }

  lemma SmallerSquare(q: int, f: int)
    requires 0 <= q <= f
    ensures q * q <= f * f
  {
    MulMonotone(q, f, q);
    MulMonotone(q, f, f);
  }

  lemma PrimeFactorBelowRoot(n: int) returns (q: int)
    requires 2 <= n && !Prime(n)
    ensures Prime(q) && q * q <= n && n % q == 0
  {
    var f := DivisorBelowRoot(n);
    q := SomePrimeFactor(f);
    assert 2 <= q;
    hide Prime;
    DividesTransitive(q, f, n);
    SmallerSquare(q, f);
  }

  /** Up to 40 a number missing from the list has 2, 3 or 5 as a proper divisor. */
  lemma UnlistedHasDivisor(n: int)
    requires 2 <= n <= 40 && n !in TRIAL
    ensures (n > 2 && n % 2 == 0) || (n > 3 && n % 3 == 0) || (n > 5 && n % 5 == 0)
  {
  }

  /** Up to 40 the trial list holds exactly the primes. */
  lemma SmallNumbers(n: int)
    requires n <= 40
    ensures Prime(n) <==> n in TRIAL
  {
    if 2 <= n {
      if n !in TRIAL {
        UnlistedHasDivisor(n);
      } else if !Prime(n) {
        var f := DivisorBelowRoot(n);
        RootBelowSeven(f);
      }
    }
  }

  lemma RootBelowSeven(f: int)
    requires 2 <= f && f * f <= 40
    ensures f <= 6
  {
    if 7 <= f {
      SmallerSquare(7, f);
    }
  }

  /** Below 41 * 41 the test decides primality exactly, apart from 61. */
  lemma ExactBelowTrialSquare(n: int)
    requires n < 41 * 41
    ensures Accepted(n) <==> Prime(n) && n != 61
  {
    if Prime(n) {
      PrimesAccepted(n);
    } else if n in TRIAL {
      SmallNumbers(n);
    } else if 2 <= n {
      var q := PrimeFactorBelowRoot(n);
      assert 41 <= q ==> 41 * 41 <= q * q;
      SmallNumbers(q);
      var i :| 0 <= i < |TRIAL| && TRIAL[i] == q;
      assert !NoTrialDivisor(n);
    }
  }

  // --------------------------------------------------- next unused accepted number

  ghost function AcceptedNumbers(): iset<int> {
    iset n | Accepted(n)
  }

  lemma FreshAccepted(seen: set<int>, start: int) returns (x: int)
    ensures start < x && x !in seen && x in AcceptedNumbers()
  {
    var top := if seen == {} then 0 else Largest(seen);
    var a := if top < 61 then 61 else top;
    x := PrimeAbove(if a < start then start else a);
    PrimesAccepted(x);
  }

  /** A run of head sizes misses no prime in its span except 61, and holds each once. */
  lemma RunHoldsPrimes(v: int, s: seq<int>, p: int)
    requires Run(AcceptedNumbers(), v, s) && |s| > 0 && Prime(p) && p != 61 && v <= p <= s[|s| - 1]
    ensures exists i :: 0 <= i < |s| && s[i] == p && forall j :: 0 <= j < |s| && j != i ==> s[j] != p
  {
    PrimesAccepted(p);
    RunHoldsOnce(AcceptedNumbers(), v, s, p);
  }

  /** The pool of head sizes already handed out, shared by all layers and n-gram orders. */
  class HeadPool {
    var seen: set<int>

    constructor ()
      ensures seen == {}
    {
      seen := {};
    }

    /** The search terminates from every start and for every set of used sizes. */
    method NextPrime(start: int) returns (x: int)
      modifies this
      ensures start < x && x !in old(seen) && x in AcceptedNumbers()
      ensures forall y :: start < y < x && y in AcceptedNumbers() ==> y in old(seen)
      ensures seen == old(seen) + {x}
    {
      hide Accepted;
      ghost var bound := FreshAccepted(seen, start);
      x := start + 1;
      var free := IsPrime(x);
      while x in seen || !free
        invariant seen == old(seen) && start < x <= bound && (free <==> x in AcceptedNumbers())
        invariant forall y :: start < y < x && y in AcceptedNumbers() ==> y in seen
        decreases bound - x
      {
        x := x + 1;
        free := IsPrime(x);
      }
      seen := seen + {x};
    }

    /** The heads of one n-gram order: the search restarts from v - 1. */
    method OrderSizes(v: int, heads: nat, ghost flat: seq<int>) returns (sizes: seq<int>)
      requires Tracks(AcceptedNumbers(), v, seen, flat)
      modifies this
      ensures |sizes| == heads && Tracks(AcceptedNumbers(), v, seen, flat + sizes)
    {
      sizes := [];
      ghost var all := flat;
      var cur := v - 1;
      for h := 0 to heads
        invariant |sizes| == h && all == flat + sizes && Tracks(AcceptedNumbers(), v, seen, all)
        invariant cur == v - 1 || (v <= cur && cur in all)
      {
        ghost var before, start := seen, cur;
        cur := NextPrime(cur);
        ExtendRun(AcceptedNumbers(), v, all, before, start, cur);
        sizes, all := sizes + [cur], all + [cur];
      }
    }

    /** The head sizes of one layer, order after order. */
    method LayerSizes(v: int, orders: nat, heads: nat, ghost flat: seq<int>) returns (sizes: seq<int>)
      requires Tracks(AcceptedNumbers(), v, seen, flat)
      modifies this
      ensures |sizes| == orders * heads && Tracks(AcceptedNumbers(), v, seen, flat + sizes)
    {
      sizes := [];
      ghost var all := flat;
      for o := 0 to orders
        invariant |sizes| == o * heads && all == flat + sizes && Tracks(AcceptedNumbers(), v, seen, all)
      {
        var block := OrderSizes(v, heads, all);
        assert (o + 1) * heads == o * heads + heads;
        sizes, all := sizes + block, all + block;
      }
    }
  }
}
