/** Small definitions shared by all modules. */
module Basics {

  /** A value that may be missing. */
  datatype Option<+T> = None | Some(value: T)

  function Min(a: int, b: int): int {
    if a <= b then a else b
  }

  function Max(a: int, b: int): int {
    if a <= b then b else a
  }

  lemma MinMaxMean(a: int, b: int)
    ensures Min(a, b) <= a <= Max(a, b) && Min(a, b) <= b <= Max(a, b)
    ensures (Min(a, b) == a && Max(a, b) == b) || (Min(a, b) == b && Max(a, b) == a)
  {
  }

  function Concat<T>(parts: seq<seq<T>>): seq<T> {
    if parts == [] then [] else Concat(parts[..|parts| - 1]) + parts[|parts| - 1]
  }

  lemma {:induction false} ConcatFront<T>(parts: seq<seq<T>>)
    requires parts != []
    ensures Concat(parts) == parts[0] + Concat(parts[1..])
    decreases |parts|
  {
    var n := |parts| - 1;
    if n > 0 {
      ConcatFront(parts[..n]);
      assert parts[..n][1..] == parts[1..][..n - 1];
    }
  }

  /** Joining is one part for a single part, and goes through concatenation. */
  lemma {:induction false} ConcatJoins<T>(a: seq<seq<T>>, b: seq<seq<T>>, part: seq<T>)
    ensures Concat([part]) == part && Concat<T>([]) == []
    ensures Concat(a + b) == Concat(a) + Concat(b)
    decreases |b|
  {
    if b == [] {
      assert a + b == a;
    } else {
      var n := |b| - 1;
      assert (a + b)[..|a + b| - 1] == a + b[..n];
      ConcatJoins(a, b[..n], part);
    }
  }

  /** A sum is its one term, and goes through concatenation. */
  lemma {:induction false} SumJoins(a: seq<int>, b: seq<int>, x: int)
    ensures Sum([x]) == x && Sum([]) == 0 && Sum(a + b) == Sum(a) + Sum(b)
    decreases |b|
  {
    if b == [] {
      assert a + b == a;
    } else {
      var n := |b| - 1;
      assert (a + b)[..|a + b| - 1] == a + b[..n];
      SumJoins(a, b[..n], x);
    }
  }

  function Sum(s: seq<int>): (total: int)
    ensures (forall k :: 0 <= k < |s| ==> s[k] >= 0) ==> total >= 0
  {
    if s == [] then 0 else Sum(s[..|s| - 1]) + s[|s| - 1]
  }

  lemma SliceOfSlice<T>(s: seq<T>, off: nat, n: nat, a: nat, b: nat)
    requires off + n <= |s| && a <= b <= n
    ensures s[off..off + n][a..b] == s[off + a..off + b]
  {
    var whole, inner, direct := s[off..off + n], s[off..off + n][a..b], s[off + a..off + b];
    assert forall k :: 0 <= k < b - a ==> inner[k] == whole[a + k] == direct[k];
    assert inner == direct;
  }

  /** Two maps that differ do so at some key. */
  lemma DifferAt<K, V>(r: map<K, V>, s: map<K, V>) returns (p: K)
    requires r != s
    ensures (p in r && p !in s) || (p in s && p !in r) || (p in r && p in s && r[p] != s[p])
  {
    if forall k :: k in r <==> k in s {
      assert r.Keys == s.Keys;
      p :| p in r && r[p] != s[p];
    } else {
      p :| !(p in r <==> p in s);
    }
  }
}
