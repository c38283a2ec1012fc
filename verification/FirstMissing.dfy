/** The reference answer for the least missing positive number, sorting values to their places in the
    array itself. */
module FirstMissing {

  /** r is the least positive number that does not occur. */
  ghost predicate IsFirstMissing(s: seq<int>, r: int) {
    1 <= r && r !in s && forall v :: 1 <= v < r ==> v in s
  }

  lemma FirstMissingUnique(s: seq<int>, r: int, t: int)
    requires IsFirstMissing(s, r) && IsFirstMissing(s, t)
    ensures r == t
  {
    assert r < t ==> r in s;
    assert t < r ==> t in s;
  }

  // -------------------------------------------------------- places

  predicate Placed(s: seq<int>, k: int) {
    0 <= k < |s| && s[k] == k + 1
  }

  /** The value at k has a place in the array, and another value sits there. */
  predicate Movable(s: seq<int>, k: int)
    requires 0 <= k < |s|
  {
    1 <= s[k] <= |s| && !Placed(s, s[k] - 1)
  }

  function Misplaced(s: seq<int>): set<int> {
    set k | 0 <= k < |s| && s[k] != k + 1
  }

  function Swapped(s: seq<int>, i: nat, j: nat): seq<int>
    requires i < |s| && j < |s|
  {
    s[i := s[j]][j := s[i]]
  }

  /** Moving a value to its place keeps the contents, keeps every value that was in place, and leaves
      strictly fewer values out of place. */
  lemma SwapProgress(s: seq<int>, i: nat)
    requires i < |s| && Movable(s, i)
    ensures var t := Swapped(s, i, s[i] - 1);
            multiset(t) == multiset(s) && Misplaced(t) < Misplaced(s) && Placed(t, s[i] - 1)
            && forall k :: Placed(s, k) ==> Placed(t, k)
  {
    var j := s[i] - 1;
    var t := Swapped(s, i, j);
    assert j in Misplaced(s) && j !in Misplaced(t);
    assert forall k :: k in Misplaced(t) ==> k in Misplaced(s);
  }

  /** Before k every value with a place is in it. */
  predicate SettledBelow(s: seq<int>, n: nat)
    requires n <= |s|
  {
    forall k :: 0 <= k < n ==> !Movable(s, k)
  }

  lemma SwapKeepsSettled(s: seq<int>, i: nat)
    requires i < |s| && Movable(s, i) && SettledBelow(s, i)
    ensures SettledBelow(Swapped(s, i, s[i] - 1), i)
  {
    SwapProgress(s, i);
    var j := s[i] - 1;
    var t := Swapped(s, i, j);
    forall k | 0 <= k < i ensures !Movable(t, k) {
      assert k != j ==> t[k] == s[k] && !Movable(s, k);
    }
  }

  /** When all values are settled, a positive number occurs exactly when it is at its place. */
  lemma OccursAtPlace(s: seq<int>, v: int)
    requires SettledBelow(s, |s|) && 1 <= v <= |s|
    ensures v in s <==> Placed(s, v - 1)
  {
    if v in s {
      var k :| 0 <= k < |s| && s[k] == v;
      assert !Movable(s, k);
    }
  }

  /** Hence the first place not holding its value gives the answer. */
  lemma FirstGap(s: seq<int>, n: nat)
    requires SettledBelow(s, |s|) && n <= |s| && !Placed(s, n)
    requires forall k :: 0 <= k < n ==> Placed(s, k)
    ensures IsFirstMissing(s, n + 1)
  {
    hide SettledBelow;
    forall v | 1 <= v < n + 1 ensures v in s {
      assert Placed(s, v - 1);
    }
    if n < |s| {
      OccursAtPlace(s, n + 1);
    } else if n + 1 in s {
      AllPlaced(s);
    }
  }

  lemma AllPlaced(s: seq<int>)
    requires forall k :: 0 <= k < |s| ==> Placed(s, k)
    ensures |s| + 1 !in s
  {
    forall k | 0 <= k < |s| ensures s[k] != |s| + 1 {
      assert Placed(s, k);
    }
  }

  // -------------------------------------------------------- the algorithm

  /** Permutes the array so that every value from 1 to its length stands at its place if it occurs,
      and returns the least positive number that does not occur. */
  method FirstMissingPositive(nums: array<int>) returns (r: int)
    modifies nums
    ensures multiset(nums[..]) == multiset(old(nums[..]))
    ensures forall v :: 1 <= v <= nums.Length ==> (v in old(nums[..]) <==> nums[v - 1] == v)
    ensures IsFirstMissing(old(nums[..]), r)
    ensures 1 <= r && r !in old(nums[..]) && forall v :: 1 <= v < r ==> v in old(nums[..])
  {
    hide Misplaced, Swapped, Movable, SettledBelow;
    ghost var was := nums[..];
    var n := nums.Length;
    Arrange(nums);
    SameMembers(was, nums[..]);
    forall v | 1 <= v <= n ensures v in was <==> nums[v - 1] == v {
      OccursAtPlace(nums[..], v);
    }
    for i := 0 to n
      invariant forall k :: 0 <= k < i ==> Placed(nums[..], k)
    {
      if nums[i] != i + 1 {
        FirstGap(nums[..], i);
        return i + 1;
      }
    }
    FirstGap(nums[..], n);
    return n + 1;
  }

  /** The first of the two passes. Every swap puts at least one more value in its place. */
  method Arrange(nums: array<int>)
    modifies nums
    ensures multiset(nums[..]) == multiset(old(nums[..]))
    ensures SettledBelow(nums[..], nums.Length)
  {
    hide Misplaced;
    var n := nums.Length;
    for i := 0 to n
      invariant multiset(nums[..]) == multiset(old(nums[..]))
      invariant SettledBelow(nums[..], i)
    {
      while 1 <= nums[i] <= n && nums[nums[i] - 1] != nums[i]
        invariant multiset(nums[..]) == multiset(old(nums[..]))
        invariant SettledBelow(nums[..], i)
        decreases Misplaced(nums[..])
      {
        var j := nums[i] - 1;
        ghost var before := nums[..];
        SwapProgress(before, i);
        SwapKeepsSettled(before, i);
        nums[i], nums[j] := nums[j], nums[i];
        assert nums[..] == Swapped(before, i, j);
      }
      assert !Movable(nums[..], i);
    }
  }

  lemma SameMembers(s: seq<int>, t: seq<int>)
    requires multiset(s) == multiset(t)
    ensures forall v :: v in s <==> v in t
  {
    forall v ensures v in s <==> v in t {
      assert v in s <==> v in multiset(s);
      assert v in t <==> v in multiset(t);
    }
  }
}
