/** Canonical order of the selected positions of one row: valid values ascending, then -1 for every
    other entry. Negative entries are replaced by the largest integer before sorting and turned back
    into -1 afterwards. */
module TopK {

  // -------------------------------------------------------- sorting

  ghost predicate Ascending(s: seq<int>) {
    forall i, j :: 0 <= i < j < |s| ==> s[i] <= s[j]
  }

  function Insert(v: int, s: seq<int>): (t: seq<int>)
    ensures |t| == |s| + 1
  {
    if s == [] || v <= s[0] then [v] + s else [s[0]] + Insert(v, s[1..])
  }

  function Sort(s: seq<int>): (t: seq<int>)
    ensures |t| == |s|
  {
    if s == [] then [] else Insert(s[0], Sort(s[1..]))
  }

  lemma {:induction false} InsertMembers(v: int, s: seq<int>)
    ensures multiset(Insert(v, s)) == multiset(s) + multiset{v}
  {
    if s != [] && s[0] < v {
      InsertMembers(v, s[1..]);
      assert s == [s[0]] + s[1..];
    }
  }

  lemma PrependLeast(v: int, s: seq<int>)
    requires Ascending(s) && forall x :: x in multiset(s) ==> v <= x
    ensures Ascending([v] + s)
  {
    forall j | 0 <= j < |s| ensures v <= s[j] {
      assert s[j] in multiset(s);
    }
  }

  lemma {:induction false} InsertSorts(v: int, s: seq<int>)
    requires Ascending(s)
    ensures Ascending(Insert(v, s))
  {
    if s != [] && s[0] < v {
      var rest := s[1..];
      InsertSorts(v, rest);
      InsertMembers(v, rest);
      forall x | x in multiset(Insert(v, rest)) ensures s[0] <= x {
        assert x == v || x in multiset(rest);
      }
      PrependLeast(s[0], Insert(v, rest));
    }
  }

  /** Sorting keeps the contents and puts them in order. */
  lemma {:induction false} SortSorts(s: seq<int>)
    ensures multiset(Sort(s)) == multiset(s) && Ascending(Sort(s))
  {
    if s != [] {
      SortSorts(s[1..]);
      InsertSorts(s[0], Sort(s[1..]));
      InsertMembers(s[0], Sort(s[1..]));
      assert s == [s[0]] + s[1..];
    }
  }

  /** Ordered contents have one form. */
  lemma {:induction false} AscendingUnique(s: seq<int>, t: seq<int>)
    requires Ascending(s) && Ascending(t) && multiset(s) == multiset(t)
    ensures s == t
  {
    assert |s| == |multiset(s)| == |multiset(t)| == |t|;
    if s != [] {
      FirstIsLeast(s, t);
      FirstIsLeast(t, s);
      assert s == [s[0]] + s[1..] && t == [t[0]] + t[1..];
      assert multiset(s[1..]) == multiset(s) - multiset{s[0]};
      assert multiset(t[1..]) == multiset(t) - multiset{t[0]};
      AscendingUnique(s[1..], t[1..]);
    }
  }

  lemma FirstIsLeast(s: seq<int>, t: seq<int>)
    requires Ascending(s) && s != [] && t != [] && multiset(s) == multiset(t)
    ensures s[0] <= t[0]
  {
    assert t[0] in multiset(s);
    var i :| 0 <= i < |s| && s[i] == t[0];
  }

  // -------------------------------------------------------- the canonical form

  function Replace(x: seq<int>, sentinel: int): (y: seq<int>)
    ensures |y| == |x| && forall i :: 0 <= i < |x| ==> y[i] == if x[i] >= 0 then x[i] else sentinel
  {
    seq(|x|, i requires 0 <= i < |x| => if x[i] >= 0 then x[i] else sentinel)
  }

  function Restore(y: seq<int>, sentinel: int): (z: seq<int>)
    ensures |z| == |y| && forall i :: 0 <= i < |y| ==> z[i] == if y[i] == sentinel then -1 else y[i]
  {
    seq(|y|, i requires 0 <= i < |y| => if y[i] == sentinel then -1 else y[i])
  }

  function Canonical(x: seq<int>, sentinel: int): (z: seq<int>)
    ensures |z| == |x|
  {
    Restore(Sort(Replace(x, sentinel)), sentinel)
  }

  /** A row of the integer type whose largest value is the sentinel. */
  predicate Row(x: seq<int>, sentinel: int) {
    0 < sentinel && forall i :: 0 <= i < |x| ==> x[i] <= sentinel
  }

  function Valid(x: seq<int>): seq<int> {
    if x == [] then [] else (if x[0] >= 0 then [x[0]] else []) + Valid(x[1..])
  }

  /** The valid values that the sentinel does not swallow. */
  function Kept(x: seq<int>, sentinel: int): seq<int> {
    if x == [] then [] else (if 0 <= x[0] < sentinel then [x[0]] else []) + Kept(x[1..], sentinel)
  }

  function Fill(n: nat, v: int): (s: seq<int>)
    ensures |s| == n && forall i :: 0 <= i < n ==> s[i] == v
  {
    if n == 0 then [] else [v] + Fill(n - 1, v)
  }

  lemma {:induction false} KeptFits(x: seq<int>, sentinel: int)
    ensures |Kept(x, sentinel)| <= |x|
    ensures forall v :: v in multiset(Kept(x, sentinel)) ==> 0 <= v < sentinel
  {
    if x != [] {
      KeptFits(x[1..], sentinel);
    }
  }

  lemma ReplacedStep(x: seq<int>, sentinel: int)
    requires x != []
    ensures multiset(Replace(x, sentinel))
            == multiset{if x[0] >= 0 then x[0] else sentinel} + multiset(Replace(x[1..], sentinel))
  {
    assert Replace(x, sentinel) == [if x[0] >= 0 then x[0] else sentinel] + Replace(x[1..], sentinel);
  }

  lemma KeptStep(x: seq<int>, sentinel: int)
    requires x != []
    ensures multiset(Kept(x, sentinel))
            == (if 0 <= x[0] < sentinel then multiset{x[0]} else multiset{}) + multiset(Kept(x[1..], sentinel))
    ensures |Kept(x, sentinel)| == (if 0 <= x[0] < sentinel then 1 else 0) + |Kept(x[1..], sentinel)|
  {
  }

  /** What is sorted: the kept values and one sentinel for every other entry. */
  lemma {:induction false} ReplacedContents(x: seq<int>, sentinel: int)
    requires Row(x, sentinel)
    ensures |Kept(x, sentinel)| <= |x|
    ensures multiset(Replace(x, sentinel))
            == multiset(Kept(x, sentinel)) + multiset(Fill(|x| - |Kept(x, sentinel)|, sentinel))
  {
    KeptFits(x, sentinel);
    if x == [] {
      assert Replace(x, sentinel) == [];
    } else {
      ReplacedContents(x[1..], sentinel);
      ReplacedContentsStep(x, sentinel);
    }
  }

  lemma ReplacedContentsStep(x: seq<int>, sentinel: int)
    requires x != [] && Row(x, sentinel) && |Kept(x[1..], sentinel)| <= |x| - 1
    requires multiset(Replace(x[1..], sentinel))
             == multiset(Kept(x[1..], sentinel)) + multiset(Fill(|x| - 1 - |Kept(x[1..], sentinel)|, sentinel))
    ensures multiset(Replace(x, sentinel))
            == multiset(Kept(x, sentinel)) + multiset(Fill(|x| - |Kept(x, sentinel)|, sentinel))
  {
    hide Replace, Kept, Fill;
    ReplacedStep(x, sentinel);
    KeptStep(x, sentinel);
    var others := |x| - 1 - |Kept(x[1..], sentinel)|;
    var kept, rest := multiset(Kept(x[1..], sentinel)), multiset(Fill(others, sentinel));
    if 0 <= x[0] < sentinel {
      Regroup(multiset{x[0]}, kept, rest);
    } else {
      FillStep(others, sentinel);
      Regroup(multiset{sentinel}, kept, rest);
    }
  }

  lemma FillStep(n: nat, v: int)
    ensures multiset(Fill(n + 1, v)) == multiset{v} + multiset(Fill(n, v))
  {
  }

  lemma Regroup(a: multiset<int>, b: multiset<int>, c: multiset<int>)
    ensures a + (b + c) == (a + b) + c == b + (a + c)
  {
  }

  lemma AppendFill(s: seq<int>, n: nat, v: int)
    requires Ascending(s) && forall x :: x in multiset(s) ==> x < v
    ensures Ascending(s + Fill(n, v))
  {
    forall i | 0 <= i < |s| ensures s[i] < v {
      assert s[i] in multiset(s);
    }
  }

  /** The canonical form in closed form: the kept values in ascending order, then -1s. */
  lemma CanonicalForm(x: seq<int>, sentinel: int)
    requires Row(x, sentinel)
    ensures |Kept(x, sentinel)| <= |x|
    ensures Canonical(x, sentinel) == Sort(Kept(x, sentinel)) + Fill(|x| - |Kept(x, sentinel)|, -1)
  {
    hide Kept, Row, Sort, Replace, Fill;
    var kept := Kept(x, sentinel);
    var sorted := Sort(kept);
    ReplacedContents(x, sentinel);
    KeptFits(x, sentinel);
    SortSorts(kept);
    SortSorts(Replace(x, sentinel));
    var n := |x| - |kept|;
    AppendFill(sorted, n, sentinel);
    AscendingUnique(Sort(Replace(x, sentinel)), sorted + Fill(n, sentinel));
    forall i | 0 <= i < |sorted| ensures sorted[i] != sentinel {
      assert sorted[i] in multiset(sorted);
    }
  }

  lemma {:induction false} KeptCount(x: seq<int>, sentinel: int, v: int)
    requires 0 <= v < sentinel
    ensures multiset(Kept(x, sentinel))[v] == multiset(x)[v]
  {
    if x != [] {
      KeptCount(x[1..], sentinel, v);
      CountCons(x[0], x[1..], v);
      assert x == [x[0]] + x[1..];
      var rest := Kept(x[1..], sentinel);
      if 0 <= x[0] < sentinel {
        assert Kept(x, sentinel) == [x[0]] + rest;
        CountCons(x[0], rest, v);
      } else {
        assert Kept(x, sentinel) == rest;
      }
    }
  }

  lemma CountCons(a: int, s: seq<int>, v: int)
    ensures multiset([a] + s)[v] == (if a == v then 1 else 0) + multiset(s)[v]
  {
  }

  lemma FillCount(n: nat, v: int, w: int)
    requires v != w
    ensures multiset(Fill(n, v))[w] == 0
  {
    assert w !in Fill(n, v);
  }

  /** The form entry by entry: k ascending values from 0 to below the sentinel, each as often as in the row, and -1 in
      all other places. */
  lemma CanonicalGives(x: seq<int>, sentinel: int) returns (k: nat)
    requires 0 < sentinel && forall i :: 0 <= i < |x| ==> x[i] <= sentinel
    ensures var z := Canonical(x, sentinel);
            |z| == |x| && k <= |x| && (forall i :: 0 <= i < k ==> 0 <= z[i] < sentinel)
            && (forall i, j :: 0 <= i < j < k ==> z[i] <= z[j]) && forall i :: k <= i < |x| ==> z[i] == -1
    ensures forall v :: 0 <= v < sentinel ==> multiset(Canonical(x, sentinel))[v] == multiset(x)[v]
  {
    hide Canonical, Sort, Kept, Fill;
    CanonicalForm(x, sentinel);
    var sorted := Sort(Kept(x, sentinel));
    var tail := Fill(|x| - |Kept(x, sentinel)|, -1);
    KeptFits(x, sentinel);
    SortSorts(Kept(x, sentinel));
    k := |sorted|;
    forall i | 0 <= i < k ensures 0 <= sorted[i] < sentinel {
      assert sorted[i] in multiset(sorted);
    }
    forall v | 0 <= v < sentinel ensures multiset(sorted + tail)[v] == multiset(x)[v] {
      KeptCount(x, sentinel, v);
      FillCount(|x| - |Kept(x, sentinel)|, -1, v);
    }
  }

  // -------------------------------------------------------- what the canonical form preserves

  lemma {:induction false} KeptAppend(a: seq<int>, b: seq<int>, sentinel: int)
    ensures Kept(a + b, sentinel) == Kept(a, sentinel) + Kept(b, sentinel)
  {
    if a == [] {
      assert a + b == b;
    } else {
      assert (a + b)[1..] == a[1..] + b;
      KeptAppend(a[1..], b, sentinel);
    }
  }

  lemma {:induction false} KeptAll(s: seq<int>, sentinel: int)
    requires forall i :: 0 <= i < |s| ==> 0 <= s[i] < sentinel
    ensures Kept(s, sentinel) == s
  {
    if s != [] {
      KeptAll(s[1..], sentinel);
    }
  }

  lemma {:induction false} KeptNone(s: seq<int>, sentinel: int)
    requires forall i :: 0 <= i < |s| ==> s[i] == -1
    ensures Kept(s, sentinel) == []
  {
    if s != [] {
      KeptNone(s[1..], sentinel);
    }
  }

  lemma {:induction false} KeptIsValid(x: seq<int>, sentinel: int)
    requires forall i :: 0 <= i < |x| ==> x[i] < sentinel
    ensures Kept(x, sentinel) == Valid(x)
  {
    if x != [] {
      KeptIsValid(x[1..], sentinel);
    }
  }

  lemma {:induction false} SentinelLosesValues(x: seq<int>, sentinel: int)
    requires Row(x, sentinel)
    ensures |Kept(x, sentinel)| <= |Valid(x)|
    ensures sentinel in x ==> |Kept(x, sentinel)| < |Valid(x)|
  {
    if x != [] {
      SentinelLosesValues(x[1..], sentinel);
      assert x == [x[0]] + x[1..];
    }
  }

  lemma SortedKeptRange(x: seq<int>, sentinel: int)
    ensures forall i :: 0 <= i < |Kept(x, sentinel)| ==> 0 <= Sort(Kept(x, sentinel))[i] < sentinel
  {
    hide Kept, Sort;
    var sorted := Sort(Kept(x, sentinel));
    KeptFits(x, sentinel);
    SortSorts(Kept(x, sentinel));
    forall i | 0 <= i < |sorted| ensures 0 <= sorted[i] < sentinel {
      assert sorted[i] in multiset(sorted);
    }
  }

  /** The canonical form keeps what the row kept, in order, and nothing in it is a sentinel. */
  lemma CanonicalKept(x: seq<int>, sentinel: int)
    requires Row(x, sentinel)
    ensures var z := Canonical(x, sentinel);
            Row(z, sentinel) && sentinel !in z && Kept(z, sentinel) == Valid(z) == Sort(Kept(x, sentinel))
  {
    hide Canonical, Sort, Kept, Fill, Valid;
    var z, sorted := Canonical(x, sentinel), Sort(Kept(x, sentinel));
    CanonicalForm(x, sentinel);
    SortedKeptRange(x, sentinel);
    var tail := Fill(|x| - |Kept(x, sentinel)|, -1);
    KeptAppend(sorted, tail, sentinel);
    KeptAll(sorted, sentinel);
    KeptNone(tail, sentinel);
    KeptIsValid(z, sentinel);
  }

  /** The valid values survive, with their multiplicities, exactly when none of them is the sentinel. */
  lemma KeepsValidValues(x: seq<int>, sentinel: int)
    requires Row(x, sentinel)
    ensures multiset(Valid(Canonical(x, sentinel))) == multiset(Valid(x)) <==> sentinel !in x
  {
    hide Canonical, Sort, Kept, Valid;
    CanonicalKept(x, sentinel);
    SortSorts(Kept(x, sentinel));
    SentinelLosesValues(x, sentinel);
    assert |multiset(Kept(x, sentinel))| == |Kept(x, sentinel)| && |multiset(Valid(x))| == |Valid(x)|;
    if sentinel !in x {
      KeptIsValid(x, sentinel);
    }
  }

  lemma Idempotent(x: seq<int>, sentinel: int)
    requires Row(x, sentinel)
    ensures Canonical(Canonical(x, sentinel), sentinel) == Canonical(x, sentinel)
  {
    hide Canonical, Sort, Kept, Fill, Valid, Row;
    var kept := Kept(x, sentinel);
    CanonicalKept(x, sentinel);
    CanonicalForm(x, sentinel);
    CanonicalForm(Canonical(x, sentinel), sentinel);
    SortSorts(kept);
    SortSorts(Sort(kept));
    AscendingUnique(Sort(Sort(kept)), Sort(kept));
  }

  /** Two rows of one width have the same canonical form exactly when they keep the same values. */
  lemma SameFormSameKept(x: seq<int>, y: seq<int>, sentinel: int)
    requires Row(x, sentinel) && Row(y, sentinel) && |x| == |y|
    ensures Canonical(x, sentinel) == Canonical(y, sentinel)
            <==> multiset(Kept(x, sentinel)) == multiset(Kept(y, sentinel))
  {
    hide Canonical, Sort, Kept, Fill, Valid, Row;
    var a, b := Kept(x, sentinel), Kept(y, sentinel);
    CanonicalKept(x, sentinel);
    CanonicalKept(y, sentinel);
    CanonicalForm(x, sentinel);
    CanonicalForm(y, sentinel);
    SortSorts(a);
    SortSorts(b);
    if multiset(a) == multiset(b) {
      AscendingUnique(Sort(a), Sort(b));
    }
  }

  /** For rows without the sentinel: exactly when their valid values agree as multisets. */
  lemma SameFormSameValid(x: seq<int>, y: seq<int>, sentinel: int)
    requires Row(x, sentinel) && Row(y, sentinel) && |x| == |y| && sentinel !in x && sentinel !in y
    ensures Canonical(x, sentinel) == Canonical(y, sentinel) <==> multiset(Valid(x)) == multiset(Valid(y))
  {
    hide Canonical, Kept, Valid;
    SameFormSameKept(x, y, sentinel);
    KeptIsValid(x, sentinel);
    KeptIsValid(y, sentinel);
  }

  /** A row that holds the sentinel shares its form with a row of other valid values, its own form. */
  lemma SentinelCollides(x: seq<int>, sentinel: int)
    requires Row(x, sentinel) && sentinel in x
    ensures var y := Canonical(x, sentinel);
            |y| == |x| && sentinel !in y && Canonical(x, sentinel) == Canonical(y, sentinel)
            && multiset(Valid(x)) != multiset(Valid(y))
  {
    hide Canonical, Valid, Kept;
    CanonicalKept(x, sentinel);
    Idempotent(x, sentinel);
    KeepsValidValues(x, sentinel);
  }

  /** The smallest such row: one entry, the largest integer, is lost. */
  lemma LargestIntegerLost(sentinel: int)
    requires 0 < sentinel
    ensures Canonical([sentinel], sentinel) == [-1] && Valid([sentinel]) == [sentinel] && Valid([-1]) == []
  {
    assert Replace([sentinel], sentinel) == [sentinel];
  }
}
