/** The manifest of the repair: where every selected tensor stands in the shard files, and the patch table of
    each shard. */
module Manifest {
  import opened Basics
  import opened Bytes
  import opened PatchHash
  import opened FileWrites
  import opened Repair
  import Validate

  /** A tensor as the reader of a shard lists it. */
  datatype Tensor = Tensor(name: string, bf16: bool, offset: nat, nbytes: nat)

  datatype Shard = Shard(name: string, tensors: seq<Tensor>)

  /** Where a tensor stands. */
  datatype Spot = Spot(shard: string, offset: nat, nbytes: nat)

  /** A selected tensor that was come across. */
  datatype Hit = Hit(name: string, bf16: bool, spot: Spot)

  datatype Failure = Duplicate(name: string) | NotBf16(name: string) | Overlapping(shard: string) | Missing

  type Tables = map<string, seq<Interval>>

  // ------------------------------------------------------------ sorting the intervals of a shard

  /** The order of pairs: by start, then by end. */
  predicate Before(a: Interval, b: Interval) {
    a.start < b.start || (a.start == b.start && a.end <= b.end)
  }

  function Insert(ivs: seq<Interval>, x: Interval): seq<Interval> {
    if ivs == [] || Before(ivs[|ivs| - 1], x) then ivs + [x]
    else Insert(ivs[..|ivs| - 1], x) + [ivs[|ivs| - 1]]
  }

  function Sorted(ivs: seq<Interval>): seq<Interval> {
    if ivs == [] then [] else Insert(Sorted(ivs[..|ivs| - 1]), ivs[|ivs| - 1])
  }

  ghost predicate InPairOrder(ivs: seq<Interval>) {
    forall i, j :: 0 <= i < j < |ivs| ==> Before(ivs[i], ivs[j])
  }

  lemma {:induction false} InsertPermutes(ivs: seq<Interval>, x: Interval)
    ensures multiset(Insert(ivs, x)) == multiset(ivs) + multiset{x}
    decreases |ivs|
  {
    if ivs != [] && !Before(ivs[|ivs| - 1], x) {
      assert ivs == ivs[..|ivs| - 1] + [ivs[|ivs| - 1]];
      InsertPermutes(ivs[..|ivs| - 1], x);
    }
  }

  lemma SnocOrders(ivs: seq<Interval>, x: Interval)
    ensures InPairOrder(ivs + [x]) <==> InPairOrder(ivs) && forall y :: y in ivs ==> Before(y, x)
  {
    hide Before;
    var all := ivs + [x];
    if InPairOrder(all) {
      forall i, j | 0 <= i < j < |ivs| ensures Before(ivs[i], ivs[j]) {
        assert Before(all[i], all[j]);
      }
      forall i | 0 <= i < |ivs| ensures Before(ivs[i], x) {
        assert Before(all[i], all[|ivs|]);
      }
    }
  }

  lemma {:induction false} InsertOrders(ivs: seq<Interval>, x: Interval)
    requires InPairOrder(ivs)
    ensures InPairOrder(Insert(ivs, x))
    decreases |ivs|
  {
    hide InPairOrder;
    SnocOrders(ivs, x);
    if ivs != [] {
      var front, last := ivs[..|ivs| - 1], ivs[|ivs| - 1];
      assert ivs == front + [last];
      SnocOrders(front, last);
      if !Before(last, x) {
        InsertOrders(front, x);
        InsertPermutes(front, x);
        SameMembers(Insert(front, x), front + [x]);
        SnocOrders(Insert(front, x), last);
      }
    }
  }

  lemma {:induction false} InsertDisjoint(ivs: seq<Interval>, x: Interval)
    ensures Disjoint(Insert(ivs, x)) <==> Disjoint(ivs + [x])
    decreases |ivs|
  {
    hide Disjoint;
    if ivs != [] && !Before(ivs[|ivs| - 1], x) {
      var front, last := ivs[..|ivs| - 1], ivs[|ivs| - 1];
      assert ivs == front + [last];
      InsertDisjoint(front, x);
      InsertPermutes(front, x);
      SameMembers(Insert(front, x), front + [x]);
      DisjointSnoc(Insert(front, x), last);
      DisjointSnoc(front, x);
      DisjointSnoc(front, last);
      DisjointSnoc(ivs, x);
      assert ClearOf(Insert(front, x), last) <==> ClearOf(front + [x], last);
      ClearSnoc(front, x, last);
      ClearSnoc(front, last, x);
    }
  }

  lemma SameMembers<T>(a: seq<T>, b: seq<T>)
    requires multiset(a) == multiset(b)
    ensures forall y :: y in a <==> y in b
  {
    forall y ensures y in a <==> y in b {
      assert y in multiset(a) <==> y in multiset(b);
    }
  }

  ghost predicate ClearOf(ivs: seq<Interval>, x: Interval) {
    forall y :: y in ivs ==> Clear(y, x)
  }

  lemma ClearSnoc(ivs: seq<Interval>, y: Interval, x: Interval)
    ensures ClearOf(ivs + [y], x) <==> ClearOf(ivs, x) && Clear(y, x)
  {
    assert y in ivs + [y];
    assert forall z :: z in ivs ==> z in ivs + [y];
  }

  lemma DisjointSnoc(ivs: seq<Interval>, x: Interval)
    ensures Disjoint(ivs + [x]) <==> Disjoint(ivs) && ClearOf(ivs, x)
  {
    var all := ivs + [x];
    if Disjoint(all) {
      forall i, j | 0 <= i < j < |ivs| ensures Clear(ivs[i], ivs[j]) {
        assert Clear(all[i], all[j]);
      }
      forall i | 0 <= i < |ivs| ensures Clear(ivs[i], x) {
        assert Clear(all[i], all[|ivs|]);
      }
    }
  }

  /** Sorting keeps the intervals and whether any two of them overlap. */
  lemma {:induction false} SortedKeeps(ivs: seq<Interval>)
    ensures InPairOrder(Sorted(ivs)) && multiset(Sorted(ivs)) == multiset(ivs)
    ensures Disjoint(Sorted(ivs)) <==> Disjoint(ivs)
    decreases |ivs|
  {
    hide Disjoint, Insert;
    if ivs != [] {
      var front, last := ivs[..|ivs| - 1], ivs[|ivs| - 1];
      assert ivs == front + [last];
      SortedKeeps(front);
      InsertPermutes(Sorted(front), last);
      InsertOrders(Sorted(front), last);
      InsertDisjoint(Sorted(front), last);
      SameMembers(Sorted(front), front);
      DisjointSnoc(Sorted(front), last);
      DisjointSnoc(front, last);
    }
  }

  /** The comparison of neighbours in the sorted list decides whether any two of the listed intervals overlap. */
  lemma SortedApart(ivs: seq<Interval>)
    requires forall k :: 0 <= k < |ivs| ==> ivs[k].start <= ivs[k].end
    ensures Ordered(Sorted(ivs)) && (Apart(Sorted(ivs)) <==> Disjoint(ivs))
  {
    hide Sorted;
    SortedKeeps(ivs);
    SameMembers(Sorted(ivs), ivs);
    var s := Sorted(ivs);
    forall k | 0 <= k < |s| ensures s[k].start <= s[k].end {
      assert s[k] in ivs;
    }
    if Disjoint(s) {
      forall i, j | 0 <= i < j < |s| ensures s[i].end <= s[j].start {
        assert Before(s[i], s[j]) && Clear(s[i], s[j]);
      }
    }
  }

  // ------------------------------------------------------------ the selected tensors

  function HitOf(shard: string, t: Tensor): Hit {
    Hit(t.name, t.bf16, Spot(shard, t.offset, t.nbytes))
  }

  /** The selected tensors of one shard, as listed. */
  function HitsIn(shard: string, ts: seq<Tensor>, wanted: set<string>): seq<Hit> {
    if ts == [] then [] else
      var t := ts[|ts| - 1];
      HitsIn(shard, ts[..|ts| - 1], wanted) + if t.name in wanted then [HitOf(shard, t)] else []
  }

  function Hits(shards: seq<Shard>, wanted: set<string>): seq<Hit> {
    if shards == [] then [] else
      var s := shards[|shards| - 1];
      Hits(shards[..|shards| - 1], wanted) + HitsIn(s.name, s.tensors, wanted)
  }

  function Span(h: Hit): Interval {
    Interval(h.spot.offset, h.spot.offset + h.spot.nbytes)
  }

  function Spans(hits: seq<Hit>): (ivs: seq<Interval>)
    ensures |ivs| == |hits| && forall k :: 0 <= k < |hits| ==> ivs[k] == Span(hits[k])
  {
    seq(|hits|, k requires 0 <= k < |hits| => Span(hits[k]))
  }

  function ShardSpans(s: Shard, wanted: set<string>): seq<Interval> {
    Spans(HitsIn(s.name, s.tensors, wanted))
  }

  ghost predicate Unique(hits: seq<Hit>) {
    forall i, j :: 0 <= i < j < |hits| ==> hits[i].name != hits[j].name
  }

  ghost predicate Twice(hits: seq<Hit>, name: string) {
    exists i, j :: 0 <= i < j < |hits| && hits[i].name == name == hits[j].name
  }

  ghost predicate AllBf16(hits: seq<Hit>) {
    forall h :: h in hits ==> h.bf16
  }

  ghost predicate DistinctNames(shards: seq<Shard>) {
    forall i, j :: 0 <= i < j < |shards| ==> shards[i].name != shards[j].name
  }

  function Wanted(entries: seq<string>): set<string> {
    set n | n in entries
  }

  ghost predicate Distinct(entries: seq<string>) {
    forall i, j :: 0 <= i < j < |entries| ==> entries[i] != entries[j]
  }

  ghost predicate Found(hits: seq<Hit>, name: string) {
    exists k :: 0 <= k < |hits| && hits[k].name == name
  }

  ghost predicate AllFound(hits: seq<Hit>, entries: seq<string>) {
    forall n :: n in entries ==> Found(hits, n)
  }

  ghost predicate AllDisjoint(shards: seq<Shard>, wanted: set<string>) {
    forall s :: s in shards ==> Disjoint(ShardSpans(s, wanted))
  }

  /** What a manifest needs: every entry is listed once and stands in exactly one place, as BF16, and no two
      selected tensors of a shard overlap. */
  ghost predicate Sound(shards: seq<Shard>, entries: seq<string>) {
    var wanted := Wanted(entries);
    var hits := Hits(shards, wanted);
    Unique(hits) && AllBf16(hits) && Distinct(entries) && AllFound(hits, entries)
    && AllDisjoint(shards, wanted)
  }

  /** What a fault says about the tensors come across and the shards they are in. */
  ghost predicate Deserved(fault: Failure, hits: seq<Hit>, shards: seq<Shard>, entries: seq<string>) {
    match fault
    case Duplicate(name) => name in entries && Twice(hits, name)
    case NotBf16(name) => exists h :: h in hits && h.name == name && !h.bf16
    case Overlapping(name) => exists s :: s in shards && s.name == name && !Disjoint(ShardSpans(s, Wanted(entries)))
    case Missing => !Distinct(entries) || !AllFound(hits, entries)
  }

  // ------------------------------------------------------------ the same in plain terms

  /** The selected tensors of a shard are picked one by one, in order. */
  lemma {:induction false} HitsInMean(shard: string, a: seq<Tensor>, b: seq<Tensor>, t: Tensor, wanted: set<string>)
    ensures HitsIn(shard, [], wanted) == []
    ensures HitsIn(shard, [t], wanted) ==
            if t.name in wanted then [Hit(t.name, t.bf16, Spot(shard, t.offset, t.nbytes))] else []
    ensures HitsIn(shard, a + b, wanted) == HitsIn(shard, a, wanted) + HitsIn(shard, b, wanted)
    decreases |b|
  {
    if b == [] {
      assert a + b == a;
    } else {
      var n := |b| - 1;
      assert (a + b)[..|a + b| - 1] == a + b[..n];
      HitsInMean(shard, a, b[..n], t, wanted);
    }
    assert [t][..0] == [];
  }

  /** And those of all shards, shard by shard. */
  lemma {:induction false} HitsMean(a: seq<Shard>, b: seq<Shard>, s: Shard, wanted: set<string>)
    ensures Hits([], wanted) == [] && Hits([s], wanted) == HitsIn(s.name, s.tensors, wanted)
    ensures Hits(a + b, wanted) == Hits(a, wanted) + Hits(b, wanted)
    decreases |b|
  {
    hide HitsIn;
    if b == [] {
      assert a + b == a;
    } else {
      var n := |b| - 1;
      assert (a + b)[..|a + b| - 1] == a + b[..n];
      HitsMean(a, b[..n], s, wanted);
    }
    assert [s][..0] == [];
  }

  /** When a manifest is made: no entry is listed twice; the selected tensors have different names, are BF16 and are all
      the entries; and in no shard two of them overlap. */
  lemma SoundMeans(shards: seq<Shard>, entries: seq<string>)
    ensures Sound(shards, entries) <==>
            var hits := Hits(shards, Wanted(entries));
            && (forall i, j :: 0 <= i < j < |entries| ==> entries[i] != entries[j])
            && (forall i, j :: 0 <= i < j < |hits| ==> hits[i].name != hits[j].name)
            && (forall h :: h in hits ==> h.bf16)
            && (forall n :: n in entries ==> Found(hits, n))
            && AllDisjoint(shards, Wanted(entries))
    ensures forall n :: n in Wanted(entries) <==> n in entries
  {
    hide Hits, AllDisjoint, Found;
  }

  lemma FoundMeans(hits: seq<Hit>, n: string)
    ensures Found(hits, n) <==> exists h :: h in hits && h.name == n
  {
    if Found(hits, n) {
      var k :| 0 <= k < |hits| && hits[k].name == n;
      assert hits[k] in hits;
    }
  }

  /** In each shard, of any two selected tensors one ends before the other begins. */
  lemma DisjointMeans(shards: seq<Shard>, wanted: set<string>)
    ensures AllDisjoint(shards, wanted) <==> forall s :: s in shards ==> NoOverlap(HitsIn(s.name, s.tensors, wanted))
  {
    hide HitsIn, NoOverlap, Disjoint;
    forall s: Shard ensures Disjoint(ShardSpans(s, wanted)) <==> NoOverlap(HitsIn(s.name, s.tensors, wanted)) {
      OverlapMeans(HitsIn(s.name, s.tensors, wanted));
    }
  }

  predicate NoOverlap(hits: seq<Hit>) {
    forall i, j :: 0 <= i < j < |hits| ==>
      hits[i].spot.offset + hits[i].spot.nbytes <= hits[j].spot.offset
      || hits[j].spot.offset + hits[j].spot.nbytes <= hits[i].spot.offset
  }

  lemma OverlapMeans(hits: seq<Hit>)
    ensures Disjoint(Spans(hits)) <==> NoOverlap(hits)
  {
    var ivs := Spans(hits);
    if Disjoint(ivs) {
      forall i, j | 0 <= i < j < |hits|
        ensures hits[i].spot.offset + hits[i].spot.nbytes <= hits[j].spot.offset
                || hits[j].spot.offset + hits[j].spot.nbytes <= hits[i].spot.offset
      {
        assert Clear(ivs[i], ivs[j]);
      }
    }
  }

  /** What the records and tables hold of the selected tensors. */
  lemma LocatedMeans(shards: seq<Shard>, entries: seq<string>, located: map<string, Spot>, tables: Tables)
    requires Records(located, Hits(shards, Wanted(entries))) && Tabled(tables, shards, Wanted(entries))
    ensures forall h :: h in Hits(shards, Wanted(entries)) ==> h.name in located && located[h.name] == h.spot
    ensures forall s :: s in shards ==>
              s.name in tables && multiset(tables[s.name]) == multiset(ShardSpans(s, Wanted(entries)))
              && forall i, j :: 0 <= i < j < |tables[s.name]| ==>
                   tables[s.name][i].start < tables[s.name][j].start
                   || (tables[s.name][i].start == tables[s.name][j].start
                       && tables[s.name][i].end <= tables[s.name][j].end)
  {
    hide Hits, Sorted, ShardSpans;
    forall s | s in shards ensures InPairOrder(Sorted(ShardSpans(s, Wanted(entries))))
      ensures multiset(Sorted(ShardSpans(s, Wanted(entries)))) == multiset(ShardSpans(s, Wanted(entries)))
    {
      SortedKeeps(ShardSpans(s, Wanted(entries)));
    }
  }

  // ------------------------------------------------------------ locating them

  /** located holds the place of each tensor come across, which all had different names. */
  ghost predicate Records(located: map<string, Spot>, hits: seq<Hit>) {
    Unique(hits) && AllBf16(hits) && (forall h :: h in hits ==> h.name in located && located[h.name] == h.spot)
    && forall n :: n in located ==> Found(hits, n)
  }

  ghost predicate Tabled(tables: Tables, shards: seq<Shard>, wanted: set<string>) {
    (forall s :: s in shards ==> s.name in tables && tables[s.name] == Sorted(ShardSpans(s, wanted)))
    && forall n :: n in tables ==> exists s :: s in shards && s.name == n
  }

  lemma RecordsStep(located: map<string, Spot>, hits: seq<Hit>, h: Hit)
    requires Records(located, hits)
    ensures h.name in located ==> Twice(hits + [h], h.name)
    ensures h.name !in located && h.bf16 ==> Records(located[h.name := h.spot], hits + [h])
  {
    var all := hits + [h];
    if h.name in located {
      var k :| 0 <= k < |hits| && hits[k].name == h.name;
      assert all[k].name == all[|hits|].name;
    } else if h.bf16 {
      var after := located[h.name := h.spot];
      forall n | n in after ensures Found(all, n) {
        if n == h.name {
          assert all[|hits|].name == n;
        } else {
          var k :| 0 <= k < |hits| && hits[k].name == n;
          assert all[k].name == n;
        }
      }
      forall i, j | 0 <= i < j < |all| ensures all[i].name != all[j].name {
        assert all[i] == hits[i] && hits[i] in hits;
      }
    }
  }

  lemma {:induction false} HitsInGrow(shard: string, ts: seq<Tensor>, wanted: set<string>, k: nat)
    requires k <= |ts|
    ensures HitsIn(shard, ts[..k], wanted) <= HitsIn(shard, ts, wanted)
    decreases |ts| - k
  {
    if k < |ts| {
      assert ts[..k + 1][..k] == ts[..k];
      HitsInGrow(shard, ts, wanted, k + 1);
    } else {
      assert ts[..k] == ts;
    }
  }

  lemma {:induction false} HitsGrow(shards: seq<Shard>, wanted: set<string>, k: nat)
    requires k <= |shards|
    ensures Hits(shards[..k], wanted) <= Hits(shards, wanted)
    decreases |shards| - k
  {
    if k < |shards| {
      assert shards[..k + 1][..k] == shards[..k];
      HitsGrow(shards, wanted, k + 1);
    } else {
      assert shards[..k] == shards;
    }
  }

  lemma TwiceGrows(hits: seq<Hit>, more: seq<Hit>, name: string)
    requires hits <= more && Twice(hits, name)
    ensures Twice(more, name)
  {
    var i, j :| 0 <= i < j < |hits| && hits[i].name == name == hits[j].name;
    assert more[i].name == name == more[j].name;
  }

  /** The selected tensors of one shard, after those of earlier ones: all new and BF16 and free of overlap, or
      the reason why not. */
  method LocateShard(s: Shard, entries: seq<string>, known: map<string, Spot>, ghost before: seq<Hit>)
    returns (fault: Option<Failure>, located: map<string, Spot>, table: seq<Interval>)
    requires Records(known, before)
    ensures var wanted := Wanted(entries);
            var hits := HitsIn(s.name, s.tensors, wanted);
            if fault.Some? then fault.value != Missing && Deserved(fault.value, before + hits, [s], entries)
            else Records(located, before + hits) && Disjoint(ShardSpans(s, wanted))
                 && table == Sorted(ShardSpans(s, wanted))
  {
    hide Records, Twice, HitsIn, Sorted, Disjoint, Ordered, Apart, Deserved, Spans, Wanted;
    var wanted := Wanted(entries);
    ghost var hits := HitsIn(s.name, s.tensors, wanted);
    located := known;
    var intervals := [];
    ghost var seen := [];
    HitsFrom(s, wanted, 0);
    assert before + [] == before;
    for k := 0 to |s.tensors|
      invariant seen == HitsIn(s.name, s.tensors[..k], wanted)
      invariant Records(located, before + seen) && intervals == Spans(seen)
    {
      var t := s.tensors[k];
      HitsFrom(s, wanted, k);
      if t.name !in wanted {
        continue;
      }
      ghost var h := HitOf(s.name, t);
      NextHit(located, before, seen, h, hits, s, entries);
      if t.name in located {
        return Some(Duplicate(t.name)), located, [];
      }
      if !t.bf16 {
        return Some(NotBf16(t.name)), located, [];
      }
      located := located[t.name := Spot(s.name, t.offset, t.nbytes)];
      intervals := intervals + [Interval(t.offset, t.offset + t.nbytes)];
      seen := seen + [h];
    }
    assert s.tensors[..|s.tensors|] == s.tensors;
    SortedApart(intervals);
    table := Sorted(intervals);
    var ok := CheckOverlap(table);
    if !ok {
      OverlapHere(before + hits, s, entries);
      return Some(Overlapping(s.name)), located, table;
    }
    fault := None;
  }

  /** The next selected tensor is new and BF16, or it is the fault to report. */
  lemma NextHit(located: map<string, Spot>, before: seq<Hit>, seen: seq<Hit>, h: Hit, hits: seq<Hit>, s: Shard,
                entries: seq<string>)
    requires Records(located, before + seen) && seen + [h] <= hits && h.name in Wanted(entries)
    ensures h.name in located ==> Deserved(Duplicate(h.name), before + hits, [s], entries)
    ensures !h.bf16 ==> Deserved(NotBf16(h.name), before + hits, [s], entries)
    ensures h.name !in located && h.bf16 ==> Records(located[h.name := h.spot], before + (seen + [h]))
    ensures Spans(seen + [h]) == Spans(seen) + [Span(h)]
  {
    hide Records, Twice;
    RecordsStep(located, before + seen, h);
    assert (before + seen) + [h] == before + (seen + [h]) <= before + hits;
    assert (before + hits)[|before| + |seen|] == hits[|seen|] == (seen + [h])[|seen|];
    if h.name in located {
      TwiceGrows(before + (seen + [h]), before + hits, h.name);
    }
  }

  lemma OverlapHere(hits: seq<Hit>, s: Shard, entries: seq<string>)
    requires !Disjoint(ShardSpans(s, Wanted(entries)))
    ensures Deserved(Overlapping(s.name), hits, [s], entries)
  {
    assert s in [s];
  }

  lemma HitsFrom(s: Shard, wanted: set<string>, k: nat)
    requires k <= |s.tensors|
    ensures HitsIn(s.name, s.tensors[..0], wanted) == []
    ensures var next := HitsIn(s.name, s.tensors[..k], wanted);
            k < |s.tensors| ==>
              HitsIn(s.name, s.tensors[..k + 1], wanted) ==
                (if s.tensors[k].name in wanted then next + [HitOf(s.name, s.tensors[k])] else next)
              <= HitsIn(s.name, s.tensors, wanted)
  {
    if k < |s.tensors| {
      assert s.tensors[..k + 1][..k] == s.tensors[..k];
      HitsInGrow(s.name, s.tensors, wanted, k + 1);
    }
  }

  // ------------------------------------------------------------ the count of located tensors

  lemma DistinctSnoc(entries: seq<string>, last: string)
    ensures Distinct(entries + [last]) <==> Distinct(entries) && last !in entries
  {
    var all := entries + [last];
    if Distinct(all) {
      forall i, j | 0 <= i < j < |entries| ensures entries[i] != entries[j] {
        assert all[i] != all[j];
      }
      forall i | 0 <= i < |entries| ensures entries[i] != last {
        assert all[i] != all[|entries|];
      }
    }
  }

  lemma {:induction false} CountWanted(entries: seq<string>)
    ensures |Wanted(entries)| <= |entries|
    ensures |Wanted(entries)| == |entries| <==> Distinct(entries)
  {
    if entries == [] {
      assert Wanted(entries) == {};
    } else {
      var n := |entries| - 1;
      var front, last := entries[..n], entries[n];
      CountWanted(front);
      assert entries == front + [last];
      DistinctSnoc(front, last);
      assert Wanted(entries) == Wanted(front) + {last};
    }
  }

  lemma SubsetCount<T>(a: set<T>, b: set<T>)
    requires a <= b
    ensures |a| <= |b| && (|a| == |b| <==> a == b)
  {
    assert b == a + (b - a);
    if a != b {
      assert b - a != {};
    }
  }

  /** As many places as entries means that every entry was found, and listed once. */
  lemma CountMeansAll(entries: seq<string>, found: set<string>)
    requires found <= Wanted(entries)
    ensures |found| == |entries| <==> Distinct(entries) && forall n :: n in entries ==> n in found
  {
    hide Distinct;
    CountWanted(entries);
    SubsetCount(found, Wanted(entries));
    assert found == Wanted(entries) <==> forall n :: n in entries ==> n in found;
  }

  lemma NothingYet(wanted: set<string>)
    ensures Records(map[], []) && Tabled(map[], [], wanted) && AllDisjoint([], wanted)
  {
  }

  lemma HitsStep(shards: seq<Shard>, wanted: set<string>, i: nat)
    requires i < |shards|
    ensures Hits(shards[..i + 1], wanted) ==
            Hits(shards[..i], wanted) + HitsIn(shards[i].name, shards[i].tensors, wanted)
            <= Hits(shards, wanted)
  {
    assert shards[..i + 1][..i] == shards[..i];
    HitsGrow(shards, wanted, i + 1);
  }

  /** What is wrong with the tensors of the first shards is wrong with all. */
  lemma FaultStays(fault: Failure, seen: seq<Hit>, s: Shard, shards: seq<Shard>, entries: seq<string>)
    requires fault != Missing && Deserved(fault, seen, [s], entries) && s in shards
    requires seen <= Hits(shards, Wanted(entries))
    ensures Deserved(fault, Hits(shards, Wanted(entries)), shards, entries) && !Sound(shards, entries)
  {
    hide Hits, Disjoint, ShardSpans, Distinct, AllFound, Wanted;
    var hits := Hits(shards, Wanted(entries));
    if fault.Duplicate? {
      TwiceGrows(seen, hits, fault.name);
    } else if fault.NotBf16? {
      var h :| h in seen && h.name == fault.name && !h.bf16;
      var k :| 0 <= k < |seen| && seen[k] == h;
      assert hits[k] == h;
    }
  }

  lemma MissingDeserved(shards: seq<Shard>, entries: seq<string>)
    requires !Distinct(entries) || !AllFound(Hits(shards, Wanted(entries)), entries)
    ensures Deserved(Missing, Hits(shards, Wanted(entries)), shards, entries)
  {
  }

  lemma TableStep(tables: Tables, shards: seq<Shard>, wanted: set<string>, i: nat, table: seq<Interval>)
    requires DistinctNames(shards) && i < |shards| && Tabled(tables, shards[..i], wanted)
    requires table == Sorted(ShardSpans(shards[i], wanted)) && AllDisjoint(shards[..i], wanted)
    requires Disjoint(ShardSpans(shards[i], wanted))
    ensures Tabled(tables[shards[i].name := table], shards[..i + 1], wanted) && AllDisjoint(shards[..i + 1], wanted)
  {
    hide Sorted, ShardSpans, Disjoint;
    var after, now := tables[shards[i].name := table], shards[..i + 1];
    assert now == shards[..i] + [shards[i]];
    forall s | s in now ensures s.name in after && after[s.name] == Sorted(ShardSpans(s, wanted)) {
      var k :| 0 <= k <= i && now[k] == s;
      if k < i {
        assert shards[..i][k] == s && shards[k].name != shards[i].name;
      }
    }
    forall n | n in after ensures exists s :: s in now && s.name == n {
      if n == shards[i].name {
        assert shards[i] in now;
      } else {
        var s :| s in shards[..i] && s.name == n;
        assert s in now;
      }
    }
  }

  /** Every selected tensor belongs to one shard and carries its name. */
  lemma {:induction false} HitInShard(shard: string, ts: seq<Tensor>, wanted: set<string>, h: Hit)
    requires h in HitsIn(shard, ts, wanted)
    ensures h.name in wanted && h.spot.shard == shard
    decreases |ts|
  {
    var n := |ts| - 1;
    if h in HitsIn(shard, ts[..n], wanted) {
      HitInShard(shard, ts[..n], wanted, h);
    }
  }

  lemma {:induction false} HitIn(shards: seq<Shard>, wanted: set<string>, h: Hit) returns (i: nat)
    requires h in Hits(shards, wanted)
    ensures i < |shards| && h in HitsIn(shards[i].name, shards[i].tensors, wanted)
    ensures h.name in wanted && h.spot.shard == shards[i].name
    decreases |shards|
  {
    var n := |shards| - 1;
    if h in Hits(shards[..n], wanted) {
      i := HitIn(shards[..n], wanted, h);
    } else {
      i := n;
      HitInShard(shards[n].name, shards[n].tensors, wanted, h);
    }
  }

  lemma FoundIsWanted(located: map<string, Spot>, shards: seq<Shard>, wanted: set<string>)
    requires Records(located, Hits(shards, wanted))
    ensures located.Keys <= wanted && forall n :: n in located.Keys <==> Found(Hits(shards, wanted), n)
    ensures Unique(Hits(shards, wanted)) && AllBf16(Hits(shards, wanted))
  {
    hide Hits, Unique;
    var hits := Hits(shards, wanted);
    forall n | Found(hits, n) ensures n in located && n in wanted {
      var k :| 0 <= k < |hits| && hits[k].name == n;
      assert hits[k] in hits;
      var i := HitIn(shards, wanted, hits[k]);
    }
  }

  /** All shards in turn. A manifest comes out exactly of sound input, and otherwise the reason why not. */
  method Locate(shards: seq<Shard>, entries: seq<string>)
    returns (fault: Option<Failure>, located: map<string, Spot>, tables: Tables)
    requires DistinctNames(shards)
    ensures fault == None <==> Sound(shards, entries)
    ensures fault == None ==> Records(located, Hits(shards, Wanted(entries))) && Tabled(tables, shards, Wanted(entries))
    ensures fault.Some? ==> Deserved(fault.value, Hits(shards, Wanted(entries)), shards, entries)
  {
    hide Records, Unique, AllBf16, HitsIn, Sorted, Deserved, Disjoint, Distinct, Found, ShardSpans;
    var wanted := Wanted(entries);
    located, tables := map[], map[];
    ghost var seen := [];
    NothingYet(wanted);
    for i := 0 to |shards|
      invariant seen == Hits(shards[..i], wanted)
      invariant Records(located, seen) && Tabled(tables, shards[..i], wanted)
      invariant AllDisjoint(shards[..i], wanted)
    {
      var s := shards[i];
      HitsStep(shards, wanted, i);
      var table;
      ghost var before := seen;
      seen := seen + HitsIn(s.name, s.tensors, wanted);
      fault, located, table := LocateShard(s, entries, located, before);
      if fault != None {
        FaultStays(fault.value, seen, s, shards, entries);
        return;
      }
      TableStep(tables, shards, wanted, i, table);
      tables := tables[s.name := table];
    }
    assert shards[..|shards|] == shards;
    FoundIsWanted(located, shards, wanted);
    CountMeansAll(entries, located.Keys);
    if |located| != |entries| {
      MissingDeserved(shards, entries);
      return Some(Missing), located, tables;
    }
    fault := None;
  }

  // ------------------------------------------------------------ what the repair and the validator rely on

  /** Each entry stands where its tensor was located, in as many bytes as its shape asks for. */
  ghost predicate Stands(es: seq<Entry>, entries: seq<string>, located: map<string, Spot>) {
    |es| == |entries| && forall i :: 0 <= i < |es| ==>
      entries[i] in located && located[entries[i]] == Spot(es[i].shard, es[i].offset, 2 * es[i].k * es[i].m)
  }

  /** What a located manifest gives. */
  ghost predicate Listed(shards: seq<Shard>, entries: seq<string>, located: map<string, Spot>, tables: Tables) {
    Sound(shards, entries)
    && Records(located, Hits(shards, Wanted(entries))) && Tabled(tables, shards, Wanted(entries))
  }

  /** A listed entry: its tensor, the bytes it is said to take, and the matrices it is repaired from. */
  datatype Listing = Listing(name: string, bytes: nat, m: nat, k: nat, w: (nat, nat) -> byte, s: (nat, nat) -> byte)

  predicate SizeFits(l: Listing, spot: Spot) {
    spot.nbytes == 2 * l.k * l.m && spot.nbytes == l.bytes
  }

  function EntryOf(l: Listing, spot: Spot): Entry {
    Entry(spot.shard, spot.offset, l.m, l.k, l.w, l.s, DenseFix())
  }

  /** The entries of the manifest, at the places located; at is the first whose bytes are not as expected. That
      every name was located is what the count has shown. */
  method Fill(listings: seq<Listing>, located: map<string, Spot>) returns (es: seq<Entry>, at: nat)
    requires forall l :: l in listings ==> l.name in located
    ensures at == |es| <= |listings|
    ensures forall i :: 0 <= i < at ==>
              var l, spot := listings[i], located[listings[i].name];
              spot.nbytes == 2 * l.k * l.m == l.bytes
              && es[i] == Entry(spot.shard, spot.offset, l.m, l.k, l.w, l.s, DenseFix())
    ensures at < |listings| ==>
              var l, spot := listings[at], located[listings[at].name];
              spot.nbytes != 2 * l.k * l.m || spot.nbytes != l.bytes
    ensures at == |listings| ==> Stands(es, Names(listings), located)
  {
    hide DenseFix;
    es, at := [], 0;
    while at < |listings|
      invariant at == |es| <= |listings|
      invariant forall i :: 0 <= i < at ==> SizeFits(listings[i], located[listings[i].name])
      invariant forall i :: 0 <= i < at ==> es[i] == EntryOf(listings[i], located[listings[i].name])
    {
      var l := listings[at];
      if !SizeFits(l, located[l.name]) {
        return;
      }
      es := es + [EntryOf(l, located[l.name])];
      at := at + 1;
    }
  }

  function Names(listings: seq<Listing>): (names: seq<string>)
    ensures |names| == |listings| && forall i :: 0 <= i < |names| ==> names[i] == listings[i].name
  {
    seq(|listings|, i requires 0 <= i < |listings| => listings[i].name)
  }

  lemma SpanIsPayload(e: Entry, h: Hit)
    requires h.spot == Spot(e.shard, e.offset, 2 * e.k * e.m)
    ensures Span(h) == Interval(e.offset, e.offset + |Rows(e, 0, e.m)|) == Validate.PayloadInterval(e)
    ensures PayloadWrite(e).shard == e.shard && PayloadWrite(e).off == e.offset
    ensures PayloadWrite(e).blob == Rows(e, 0, e.m)
  {
    hide Rows;
    RowsLength(e, 0, e.m);
  }

  /** Entry i is one of the selected tensors of the shard it belongs to. */
  lemma EntryHit(shards: seq<Shard>, entries: seq<string>, located: map<string, Spot>, es: seq<Entry>, i: nat)
    returns (s: nat, k: nat)
    requires Records(located, Hits(shards, Wanted(entries))) && Stands(es, entries, located) && i < |es|
    ensures s < |shards| && shards[s].name == es[i].shard && |es| == |entries|
    ensures var hits := HitsIn(shards[s].name, shards[s].tensors, Wanted(entries));
            k < |hits| && hits[k].name == entries[i]
            && hits[k].spot == Spot(es[i].shard, es[i].offset, 2 * es[i].k * es[i].m)
            && |ShardSpans(shards[s], Wanted(entries))| == |hits|
            && ShardSpans(shards[s], Wanted(entries))[k] == Span(hits[k])
  {
    hide Unique, AllBf16, Hits, HitsIn, Wanted;
    var hits := Hits(shards, Wanted(entries));
    assert Found(hits, entries[i]);
    var j :| 0 <= j < |hits| && hits[j].name == entries[i];
    assert hits[j] in hits;
    s := HitIn(shards, Wanted(entries), hits[j]);
    var inShard := HitsIn(shards[s].name, shards[s].tensors, Wanted(entries));
    k :| 0 <= k < |inShard| && inShard[k] == hits[j];
  }

  lemma NoSharedByte(a: Write, b: Write, spans: seq<Interval>, k: nat, l: nat, p: int)
    requires Disjoint(spans) && k < |spans| && l < |spans| && k != l
    requires spans[k] == Interval(a.off, a.off + |a.blob|) && spans[l] == Interval(b.off, b.off + |b.blob|)
    requires a.shard == b.shard && Covers(a, b.shard, p)
    ensures !Covers(b, b.shard, p)
  {
    var pair := [a, b];
    CheckedIsExclusive(pair, map[a.shard := spans], [k, l]);
    assert Covers(pair[0], pair[1].shard, p);
  }

  /** The entries of a located manifest share no byte. */
  lemma PayloadsExclusive(shards: seq<Shard>, entries: seq<string>, located: map<string, Spot>, es: seq<Entry>)
    requires DistinctNames(shards) && Sound(shards, entries)
    requires Records(located, Hits(shards, Wanted(entries))) && Stands(es, entries, located)
    ensures Exclusive(Payloads(es))
  {
    hide Records, Unique, AllBf16, AllFound, Hits, HitsIn, Disjoint, Rows, ShardSpans, Stands, PayloadWrite;
    var ws := Payloads(es);
    forall i, j, p | 0 <= i < j < |ws| && Covers(ws[i], ws[j].shard, p) ensures !Covers(ws[j], ws[j].shard, p) {
      var s, k := EntryHit(shards, entries, located, es, i);
      var t, l := EntryHit(shards, entries, located, es, j);
      var hits := HitsIn(shards[s].name, shards[s].tensors, Wanted(entries));
      SpanIsPayload(es[i], hits[k]);
      SpanIsPayload(es[j], HitsIn(shards[t].name, shards[t].tensors, Wanted(entries))[l]);
      assert s == t && shards[s] in shards && entries[i] != entries[j];
      NoSharedByte(ws[i], ws[j], ShardSpans(shards[s], Wanted(entries)), k, l, p);
    }
  }

  /** The table of a shard lists exactly the entries that go into it. */
  lemma TableLists(shards: seq<Shard>, entries: seq<string>, located: map<string, Spot>, es: seq<Entry>, s: Shard,
                   table: seq<Interval>)
    requires DistinctNames(shards) && Records(located, Hits(shards, Wanted(entries))) && Stands(es, entries, located)
    requires s in shards && table == Sorted(ShardSpans(s, Wanted(entries)))
    ensures Validate.Lists(table, es, s.name)
  {
    hide Unique, AllBf16, Hits, HitsIn, Rows, Sorted, PayloadWrite;
    var wanted := Wanted(entries);
    var spans, hits := ShardSpans(s, wanted), HitsIn(s.name, s.tensors, wanted);
    SortedKeeps(spans);
    SameMembers(table, spans);
    forall i | 0 <= i < |es| && es[i].shard == s.name ensures Validate.PayloadInterval(es[i]) in table {
      var t, k := EntryHit(shards, entries, located, es, i);
      assert shards[t] == s;
      SpanIsPayload(es[i], hits[k]);
      assert spans[k] in spans;
    }
    forall m | 0 <= m < |table| ensures Validate.PayloadOf(es, s.name, table[m]) {
      assert table[m] in spans;
      var k :| 0 <= k < |spans| && spans[k] == table[m];
      HitInShard(s.name, s.tensors, wanted, hits[k]);
      HitInAll(shards, wanted, s, hits[k]);
      var i :| 0 <= i < |entries| && entries[i] == hits[k].name;
      SpanIsPayload(es[i], hits[k]);
    }
  }

  lemma {:induction false} HitInAll(shards: seq<Shard>, wanted: set<string>, s: Shard, h: Hit)
    requires s in shards && h in HitsIn(s.name, s.tensors, wanted)
    ensures h in Hits(shards, wanted)
    decreases |shards|
  {
    hide HitsIn;
    var n := |shards| - 1;
    if s in shards[..n] {
      HitInAll(shards[..n], wanted, s, h);
    } else {
      assert shards == shards[..n] + [shards[n]];
    }
  }

  /** The receipts of the copy describe the shards of a located manifest. */
  lemma ManifestDescribes(shards: seq<Shard>, entries: seq<string>, located: map<string, Spot>, tables: Tables,
                          es: seq<Entry>, orig: Files, names: seq<string>, receipts: map<string, Receipt>)
    requires DistinctNames(shards) && Listed(shards, entries, located, tables) && Stands(es, entries, located)
    requires forall n :: (n in orig <==> n in names) && (n in orig <==> n in tables)
    requires forall n :: n in orig ==> n in receipts && receipts[n].unpatched == Outside(orig[n], 0, tables[n])
    ensures Validate.Describes(orig, es, names, tables, receipts)
  {
    hide Records, Sound, Stands, Outside, Validate.Lists, Hits, Sorted, ShardSpans;
    forall n | n in tables ensures Validate.Lists(tables[n], es, n) {
      var s :| s in shards && s.name == n;
      TableLists(shards, entries, located, es, s, tables[n]);
    }
  }

  /** From the manifest to the verdict: for the entries of a located manifest, with the receipts of the copy and
      the hashes of the repair, the validator accepts exactly the repaired artifact. */
  lemma AcceptedIsRepaired(shards: seq<Shard>, entries: seq<string>, located: map<string, Spot>, tables: Tables,
                           es: seq<Entry>, orig: Files, files: Files, own: Conversion, recorded: seq<seq<byte>>,
                           names: seq<string>, receipts: map<string, Receipt>)
    requires DistinctNames(shards) && Listed(shards, entries, located, tables) && Stands(es, entries, located)
    requires Repairable(orig, es) && Validate.Independent(own) && |recorded| == |es|
    requires forall i :: 0 <= i < |es| ==>
               es[i].conv == DenseFix() && EntryFinite(es[i]) && recorded[i] == Rows(es[i], 0, es[i].m)
    requires forall n :: (n in orig <==> n in names) && (n in orig <==> n in tables) && (n in orig <==> n in files)
    requires forall n :: n in orig ==> n in receipts && receipts[n].unpatched == Outside(orig[n], 0, tables[n])
    ensures AllFit(orig, AllBlocks(es))
    ensures Validate.TensorsPass(files, es, own, recorded)
            && (forall j :: 0 <= j < |names| ==> Validate.DigestHolds(files, names[j], tables, receipts))
            <==> files == ApplyAll(orig, AllBlocks(es))
  {
    hide Records, Sound, Stands, Repairable, Exclusive, AllFit, AllBlocks, ApplyAll, Outside, Rows, EntryFinite,
         DenseFix, Tabled, Hits, Validate.Independent, Validate.Describes, Validate.TensorsPass, Validate.DigestHolds;
    PayloadsExclusive(shards, entries, located, es);
    ManifestDescribes(shards, entries, located, tables, es, orig, names, receipts);
    Validate.AcceptedIsRepaired(orig, files, es, own, recorded, names, tables, receipts);
  }
}
