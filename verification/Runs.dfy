/** Gap-free increasing runs of the members of a set, and the search that extends them. */
module Runs {

  /** x is the least member of a above start that is not in seen. */
  ghost predicate IsNext(a: iset<int>, seen: set<int>, start: int, x: int) {
    start < x && x !in seen && x in a &&
    forall y :: start < y < x && y in a ==> y in seen
  }

  /** The layout of the heads: the members of a from v on, strictly increasing, none skipped. */
  ghost predicate Run(a: iset<int>, v: int, s: seq<int>) {
    (forall i :: 0 <= i < |s| ==> v <= s[i] && s[i] in a) &&
    (forall i, j :: 0 <= i < j < |s| ==> s[i] < s[j]) &&
    (forall y :: |s| > 0 && v <= y <= s[|s| - 1] && y in a ==> y in s)
  }

  /** The used sizes are exactly a gap-free run from v on. */
  ghost predicate Tracks(a: iset<int>, v: int, seen: set<int>, s: seq<int>) {
    Run(a, v, s) && forall y :: y in seen <==> y in s
  }

  lemma ExtendRun(a: iset<int>, v: int, s: seq<int>, seen: set<int>, start: int, x: int)
    requires Tracks(a, v, seen, s)
    requires start == v - 1 || (v <= start && start in s)
    requires IsNext(a, seen, start, x)
    ensures Tracks(a, v, seen + {x}, s + [x])
  {
    var t := s + [x];
    forall y | v <= y <= x && y in a ensures y in t {
    }
    forall y ensures y in seen + {x} <==> y in t {
      assert y in t <==> y in s || y == x;
    }
  }

  lemma NotBelow(a: iset<int>, v: int, s: seq<int>, t: seq<int>, k: nat)
    requires Run(a, v, s) && Run(a, v, t) && k < |s| == |t| && s[..k] == t[..k]
    ensures t[k] <= s[k]
  {
    assert s[k] <= t[|t| - 1] ==> s[k] in t;
    forall j | 0 <= j < k ensures t[j] < s[k] {
      assert t[j] == t[..k][j] == s[..k][j] == s[j];
    }
  }

  lemma {:induction false} RunsAgree(a: iset<int>, v: int, s: seq<int>, t: seq<int>, k: nat)
    requires Run(a, v, s) && Run(a, v, t) && k <= |s| == |t|
    ensures s[..k] == t[..k]
  {
    if k > 0 {
      RunsAgree(a, v, s, t, k - 1);
      NotBelow(a, v, s, t, k - 1);
      NotBelow(a, v, t, s, k - 1);
      assert s[..k] == s[..k - 1] + [s[k - 1]] && t[..k] == t[..k - 1] + [t[k - 1]];
    }
  }

  /** A run is determined by its starting point and its length. */
  lemma RunUnique(a: iset<int>, v: int, s: seq<int>, t: seq<int>)
    requires Run(a, v, s) && Run(a, v, t) && |s| == |t|
    ensures s == t
  {
    RunsAgree(a, v, s, t, |s|);
    assert s[..|s|] == s && t[..|t|] == t;
  }

  /** A run never repeats a member and misses none in its span. */
  lemma RunHoldsOnce(a: iset<int>, v: int, s: seq<int>, p: int)
    requires Run(a, v, s) && |s| > 0 && p in a && v <= p <= s[|s| - 1]
    ensures exists i :: 0 <= i < |s| && s[i] == p && forall j :: 0 <= j < |s| && j != i ==> s[j] != p
  {
    assert p in s;
    var i :| 0 <= i < |s| && s[i] == p;
    forall j | 0 <= j < |s| && j != i ensures s[j] != p {
      if j < i { assert s[j] < s[i]; } else { assert s[i] < s[j]; }
    }
  }
}
