/** Eligibility of a block width: clean history, complete single coverage of the eligible
    positions, the logits gate at each of them, and the one-shot rejection control. */
module BlockVerify {
  import opened Basics
  import opened LogitRows
  import StepHistory

  // ----------------------------------------------------------------- the logits gate

  const MAX_ABS: real := 0.125
  const REL_L2_MAX: real := 0.005

  function AbsR(x: real): real {
    if x < 0.0 then -x else x
  }

  function SumSquares(v: Vector): real {
    if v == [] then 0.0 else SumSquares(v[..|v| - 1]) + v[|v| - 1] * v[|v| - 1]
  }

  function Difference(c: Vector, r: Vector): (d: Vector)
    requires |c| == |r|
    ensures |d| == |r| && forall k :: 0 <= k < |r| ==> d[k] == c[k] - r[k]
  {
    seq(|r|, k requires 0 <= k < |r| => c[k] - r[k])
  }

  /** The first index of a largest entry. */
  predicate IsTop(v: Vector, k: nat) {
    k < |v| && (forall i :: 0 <= i < |v| ==> v[i] <= v[k]) && forall i :: 0 <= i < k ==> v[i] < v[k]
  }

  function Top(v: Vector): (k: nat)
    requires v != []
    ensures IsTop(v, k)
  {
    if |v| == 1 then 0 else
      var k := Top(v[..|v| - 1]);
      assert forall i :: 0 <= i < |v| - 1 ==> v[..|v| - 1][i] == v[i];
      if v[k] < v[|v| - 1] then |v| - 1 else k
  }

  /** Relative L2 error, largest difference and top entry. Squared, the relative bound needs no
      root and says of a zero reference that only a zero candidate passes. */
  predicate Gate(r: Vector, c: Vector) {
    |c| == |r| && r != [] &&
    SumSquares(Difference(c, r)) <= REL_L2_MAX * REL_L2_MAX * SumSquares(r) &&
    (forall k :: 0 <= k < |r| ==> AbsR(Difference(c, r)[k]) <= MAX_ABS) &&
    Top(c) == Top(r)
  }

  /** The gate: same length, squared error at most 1/40000 of the squared reference, no entry off by more than an
      eighth, and the first largest entry at the same index. */
  lemma GateMeans(r: Vector, c: Vector)
    ensures Gate(r, c) <==>
            && |c| == |r| && r != []
            && SumSquares(Difference(c, r)) * 40000.0 <= SumSquares(r)
            && (forall k :: 0 <= k < |r| ==> -0.125 <= c[k] - r[k] <= 0.125)
            && exists t :: 0 <= t < |r|
                           && (forall i :: 0 <= i < |r| ==> r[i] <= r[t] && c[i] <= c[t])
                           && forall i :: 0 <= i < t ==> r[i] < r[t] && c[i] < c[t]
  {
    hide SumSquares;
    if |c| == |r| && r != [] {
      var t := Top(r);
      assert IsTop(r, t) && IsTop(c, Top(c));
      forall u: nat | u < |r| && TopOfBoth(r, c, u) ensures Top(c) == t {
        OneTop(r, t, u);
        OneTop(c, Top(c), u);
      }
      if Top(c) == t {
        assert TopOfBoth(r, c, t);
      }
    }
  }

  predicate TopOfBoth(r: Vector, c: Vector, t: nat)
    requires |c| == |r| && t < |r|
  {
    (forall i :: 0 <= i < |r| ==> r[i] <= r[t] && c[i] <= c[t])
    && forall i :: 0 <= i < t ==> r[i] < r[t] && c[i] < c[t]
  }

  lemma OneTop(v: Vector, a: nat, b: nat)
    requires IsTop(v, a) && IsTop(v, b)
    ensures a == b
  {
    assert v[a] <= v[b] && v[b] <= v[a];
  }

  /** Squares are summed. */
  lemma {:induction false} SumSquaresMeans(a: Vector, b: Vector, x: real)
    ensures SumSquares([x]) == x * x && SumSquares([]) == 0.0 && SumSquares(a + b) == SumSquares(a) + SumSquares(b)
    decreases |b|
  {
    if b == [] {
      assert a + b == a;
    } else {
      var n := |b| - 1;
      assert (a + b)[..|a + b| - 1] == a + b[..n];
      SumSquaresMeans(a, b[..n], x);
    }
    assert [x][..0] == [];
  }

  // --------------------------------------------------------------- one diagnostic run

  datatype BridgeEvent = BridgeEvent(queryStart: int, queryLen: int, injected: bool, rejected: int, sampled: int)

  datatype Diagnostic = Diagnostic(history: StepHistory.Request, diagnosticMode: bool, count: Option<int>,
                                   finishedByLength: bool, records: Option<seq<Record>>, corruptIndex: Option<int>,
                                   bridge: seq<BridgeEvent>)

  /** Everything a request must satisfy by itself; rows are its indexed logit rows. */
  ghost predicate Readable(q: Diagnostic, cx: Context, ctl: StepHistory.Controls, rows: map<int, Vector>) {
    && q.history.output == Some(cx.oracle) && q.count == Some(|cx.oracle|) && q.finishedByLength
    && q.records.Some? && q.records.value != []
    && (forall n :: 0 <= n < |q.records.value| ==> RecordClean(q.records.value[n], cx))
    && Indexed(rows, q.records.value, cx, |q.records.value|, 0)
    && StepHistory.HistoryClean(q.history, |cx.prompt|, cx.oracle, ctl)
  }

  function Window(cx: Context): set<int> {
    set p | cx.Start() <= p <= cx.Last() && cx.InWindow(p)
  }

  /** A width's own run: readable, uncorrupted, complete, with a packet of that width. */
  ghost predicate WidthClean(q: Diagnostic, width: nat, cx: Context, ctl: StepHistory.Controls,
                             rows: map<int, Vector>)
  {
    && Readable(q, cx, ctl, rows)
    && q.history.desiredK == width - 1 && q.diagnosticMode && q.corruptIndex.None?
    && Corruptions(q.records.value, cx, |q.records.value|) == []
    && rows.Keys == Window(cx)
    && width in Widths(q.records.value, cx, |q.records.value|)
  }

  ghost predicate GatesPass(base: map<int, Vector>, rows: map<int, Vector>) {
    rows.Keys != {} && forall p :: p in rows ==> p in base && Gate(base[p], rows[p])
  }

  /** Compares every indexed row with the baseline row of its position. */
  method Compare(base: map<int, Vector>, rows: map<int, Vector>) returns (ok: bool)
    ensures ok <==> GatesPass(base, rows)
    ensures ok <==> rows != map[] && forall p :: p in rows ==> p in base && Gate(base[p], rows[p])
  {
    assert rows.Keys == {} <==> rows == map[];
    var left := rows.Keys;
    ok := left != {};
    while left != {}
      invariant left <= rows.Keys
      invariant ok <==> rows.Keys != {} && forall p :: p in rows && p !in left ==> p in base && Gate(base[p], rows[p])
      decreases left
    {
      var p := PickOne(left);
      if p !in base || !Gate(base[p], rows[p]) {
        ok := false;
      }
      left := left - {p};
    }
  }

  method PickOne<T(==)>(s: set<T>) returns (x: T)
    requires s != {}
    ensures x in s
  {
    x :| x in s;
  }

  /** Output, capture and history checks shared by all diagnostic runs. */
  method Read(q: Diagnostic, cx: Context, ctl: StepHistory.Controls)
    returns (ok: bool, rows: map<int, Vector>, corruptions: seq<Corruption>, widths: seq<nat>)
    ensures ok <==> exists r :: Readable(q, cx, ctl, r)
    ensures ok ==> Readable(q, cx, ctl, rows)
    ensures ok ==> corruptions == Corruptions(q.records.value, cx, |q.records.value|)
    ensures ok ==> widths == Widths(q.records.value, cx, |q.records.value|)
  {
    hide StepHistory.HistoryClean, RecordClean, Unrepeated;
    var faults, selected := StepHistory.CheckHistory(q.history, |cx.prompt|, cx.oracle, ctl);
    if q.records.None? {
      return false, map[], [], [];
    }
    ok, rows, corruptions, widths := ReadRecords(q.records.value, cx);
    ghost var readable := ok;
    ok := ok && faults == [] && q.history.output == Some(cx.oracle) && q.count == Some(|cx.oracle|)
          && q.finishedByLength;
    assert ok ==> Readable(q, cx, ctl, rows);
    assert !readable ==> forall r :: !Readable(q, cx, ctl, r);
  }

  /** The structural gate of one width. */
  method CheckWidth(q: Option<Diagnostic>, width: nat, cx: Context, ctl: StepHistory.Controls)
    returns (ok: bool, rows: map<int, Vector>)
    ensures ok <==> q.Some? && exists r :: WidthClean(q.value, width, cx, ctl, r)
    ensures ok ==> WidthClean(q.value, width, cx, ctl, rows)
  {
    hide Readable, Corruptions, Widths;
    if q.None? {
      return false, map[];
    }
    var corruptions, widths;
    ok, rows, corruptions, widths := Read(q.value, cx, ctl);
    if ok {
      forall r | Readable(q.value, cx, ctl, r) ensures r.Keys == rows.Keys {
        SameRows(q.value, cx, ctl, r, rows);
      }
    }
    ok := ok && q.value.history.desiredK == width - 1 && q.value.diagnosticMode && q.value.corruptIndex.None?
          && corruptions == [] && rows.Keys == Window(cx) && width in widths;
    assert ok ==> WidthClean(q.value, width, cx, ctl, rows);
  }

  /** The index of a clean capture is unique. */
  lemma SameRows(q: Diagnostic, cx: Context, ctl: StepHistory.Controls, r: map<int, Vector>, s: map<int, Vector>)
    requires Readable(q, cx, ctl, r) && Readable(q, cx, ctl, s)
    ensures r == s
  {
    hide StepHistory.HistoryClean, RecordClean, Contributor, Unrepeated;
    if r != s {
      var p := DifferAt(r, s);
    }
  }

  /** A width is eligible when it and the width-1 baseline are clean and all gates pass. */
  method WidthPasses(base: Option<Diagnostic>, q: Option<Diagnostic>, width: nat, cx: Context,
                     ctl: StepHistory.Controls)
    returns (passed: bool, ghost baseRows: map<int, Vector>, ghost rows: map<int, Vector>)
    ensures passed ==> base.Some? && q.Some? && WidthClean(base.value, 1, cx, ctl, baseRows) &&
                       WidthClean(q.value, width, cx, ctl, rows) && GatesPass(baseRows, rows)
    ensures !passed ==> base.None? || q.None? || forall r, s ::
              WidthClean(base.value, 1, cx, ctl, r) && WidthClean(q.value, width, cx, ctl, s) ==> !GatesPass(r, s)
  {
    hide WidthClean, GatesPass;
    var baseOk, b := CheckWidth(base, 1, cx, ctl);
    var ok, w := CheckWidth(q, width, cx, ctl);
    var gates := Compare(b, w);
    passed, baseRows, rows := baseOk && ok && gates, b, w;
    if baseOk && ok {
      forall r | WidthClean(base.value, 1, cx, ctl, r) ensures r == b {
        SameWidthRows(base.value, 1, cx, ctl, r, b);
      }
      forall s | WidthClean(q.value, width, cx, ctl, s) ensures s == w {
        SameWidthRows(q.value, width, cx, ctl, s, w);
      }
    }
  }

  lemma SameWidthRows(q: Diagnostic, width: nat, cx: Context, ctl: StepHistory.Controls,
                      r: map<int, Vector>, s: map<int, Vector>)
    requires WidthClean(q, width, cx, ctl, r) && WidthClean(q, width, cx, ctl, s)
    ensures r == s
  {
    hide Readable;
    SameRows(q, cx, ctl, r, s);
  }

  // --------------------------------------------------------- what eligibility means

  lemma WindowMeans(cx: Context, rows: map<int, Vector>)
    ensures rows.Keys == Window(cx) <==> forall p :: p in rows <==> |cx.prompt| + 7 <= p <= |cx.prompt + cx.oracle| - 2
  {
    forall p ensures p in Window(cx) <==> |cx.prompt| + 7 <= p <= |cx.prompt + cx.oracle| - 2 {
      AtPosition(cx, p);
    }
    hide Window;
    if rows.Keys == Window(cx) {
      forall p ensures p in rows <==> |cx.prompt| + 7 <= p <= |cx.prompt + cx.oracle| - 2 {
        assert p in rows.Keys <==> p in Window(cx);
      }
    } else {
      var p :| !(p in rows.Keys <==> p in Window(cx));
    }
  }

  lemma AtPosition(cx: Context, p: int)
    ensures p in Window(cx) <==> |cx.prompt| + 7 <= p <= |cx.prompt + cx.oracle| - 2
  {
    assert cx.Start() == |cx.prompt| + 7 && cx.Last() == |cx.prompt + cx.oracle| - 2;
    assert p in Window(cx) <==> cx.Start() <= p <= cx.Last() && cx.InWindow(p);
  }

  /** A width's own run in plain terms: protocol, no changed input, one row for each position of the window, and a
      packet of the width past the activation point. */
  lemma WidthMeans(q: Diagnostic, width: nat, cx: Context, ctl: StepHistory.Controls, rows: map<int, Vector>)
    ensures WidthClean(q, width, cx, ctl, rows) <==>
            && Readable(q, cx, ctl, rows)
            && q.history.desiredK == width - 1 && q.diagnosticMode && q.corruptIndex == None
            && Corruptions(q.records.value, cx, |q.records.value|) == []
            && (forall p :: p in rows <==> |cx.prompt| + 7 <= p <= |cx.prompt + cx.oracle| - 2)
            && exists i :: 0 <= i < |q.records.value| && PacketOfWidth(q.records.value[i], width, cx)
  {
    hide Readable, Corruptions, Widths;
    WindowMeans(cx, rows);
    if Readable(q, cx, ctl, rows) {
      HasRecords(q, cx, ctl, rows);
      WidthsMean(q.records.value, cx, |q.records.value|, width);
    }
  }

  ghost predicate PacketOfWidth(rec: Record, width: nat, cx: Context) {
    rec.positions.Some? && rec.positions.value != [] && rec.positions.value[0] >= |cx.prompt| + 7
    && |rec.positions.value| == width
  }

  /** The checks every diagnostic run must pass by itself. */
  lemma ReadableMeans(q: Diagnostic, cx: Context, ctl: StepHistory.Controls, rows: map<int, Vector>)
    ensures Readable(q, cx, ctl, rows) <==>
            && q.history.output == Some(cx.oracle) && q.count == Some(|cx.oracle|) && q.finishedByLength
            && q.records.Some? && q.records.value != []
            && (forall n :: 0 <= n < |q.records.value| ==> RecordClean(q.records.value[n], cx))
            && Indexed(rows, q.records.value, cx, |q.records.value|, 0)
            && StepHistory.HistoryClean(q.history, |cx.prompt|, cx.oracle, ctl)
  {
  }

  /** Row (i, j) is the one row of position p. */
  ghost predicate OnlyRow(recs: seq<Record>, cx: Context, p: int, i: nat, j: nat) {
    Contributor(recs, cx, i, j, p) &&
    forall k: nat, l: nat :: Contributor(recs, cx, k, l, p) ==> k == i && l == j
  }

  /** The row's packet agrees with prompt + oracle at each of its positions up to p. */
  ghost predicate PacketMatches(rec: Record, cx: Context, p: int) {
    rec.positions.Some? && rec.inputs.Some? && |rec.inputs.value| == |rec.positions.value| &&
    forall i :: 0 <= i < |rec.positions.value| && 0 <= rec.positions.value[i] <= p && p < |cx.Sequence()| ==>
      rec.inputs.value[i] == cx.Sequence()[rec.positions.value[i]]
  }

  ghost predicate AnchorAtPrefixEnd(rec: Record, cx: Context) {
    rec.prefix.Some? && rec.positions.Some? && rec.positions.value != [] && rec.prefix.value <= cx.oracle &&
    (rec.prefix.value != [] ==> rec.positions.value[0] == |cx.prompt| + |rec.prefix.value| - 1)
  }

  lemma KeptRowMatches(rec: Record, cx: Context, j: nat, p: int)
    requires Contributes(rec, cx, j, p)
    ensures PacketMatches(rec, cx, p) && AnchorAtPrefixEnd(rec, cx)
  {
    forall i | 0 <= i < |rec.positions.value| && 0 <= rec.positions.value[i] <= p && p < |cx.Sequence()|
      ensures rec.inputs.value[i] == cx.Sequence()[rec.positions.value[i]]
    {
      assert !Mismatch(rec, cx, i);
    }
  }

  /** A packet anchored at the end of its prefix: the prefix is one of the oracle, and the first position is that
      of its last token. */
  lemma AnchorMeans(rec: Record, cx: Context, p: seq<int>, prefix: seq<int>)
    requires rec.positions == Some(p) && rec.prefix == Some(prefix) && p != []
    ensures AnchorAtPrefixEnd(rec, cx) ==>
              forall k :: 0 <= k < |prefix| ==>
                |prefix| <= |cx.oracle| && cx.oracle[k] == prefix[k] && p[0] + 1 == |cx.prompt| + |prefix|
  {
    if AnchorAtPrefixEnd(rec, cx) {
      forall k | 0 <= k < |prefix| ensures |prefix| <= |cx.oracle| && cx.oracle[k] == prefix[k] {
        assert prefix <= cx.oracle;
      }
    }
  }

  /** Every indexed position of a readable run has exactly one row, from a packet that agrees
      with the oracle up to it and is anchored at the end of its committed prefix. */
  lemma CoveredOnce(q: Diagnostic, cx: Context, ctl: StepHistory.Controls, rows: map<int, Vector>, p: int)
    returns (i: nat, j: nat)
    requires Readable(q, cx, ctl, rows) && p in rows
    ensures OnlyRow(q.records.value, cx, p, i, j) && cx.InWindow(p)
    ensures j < |q.records.value[i].logits| && q.records.value[i].logits[j] == Some(rows[p])
    ensures PacketMatches(q.records.value[i], cx, p) && AnchorAtPrefixEnd(q.records.value[i], cx)
    ensures forall k: nat, l: nat :: Contributor(q.records.value, cx, k, l, p) <==> k == i && l == j
  {
    hide StepHistory.HistoryClean, RecordClean, PacketClean, CleanUpTo, RowPosition, PacketMatches, AnchorAtPrefixEnd;
    var recs := q.records.value;
    i, j :| Before(i, j, |recs|, 0) && Contributor(recs, cx, i, j, p);
    KeptRowMatches(recs[i], cx, j, p);
    forall k: nat, l: nat | Contributor(recs, cx, k, l, p) ensures k == i && l == j {
      assert Before(k, l, |recs|, 0);
    }
  }

  /** A passing width: each eligible position, from prompt + 7 to the last but one of the
      sequence, has exactly one row in that run and one in the baseline, and they meet the gate. */
  lemma EligibleWidth(base: Diagnostic, q: Diagnostic, width: nat, cx: Context, ctl: StepHistory.Controls,
                      baseRows: map<int, Vector>, rows: map<int, Vector>, p: int)
    requires WidthClean(base, 1, cx, ctl, baseRows) && WidthClean(q, width, cx, ctl, rows) && GatesPass(baseRows, rows)
    requires |cx.prompt| + 7 <= p <= |cx.prompt + cx.oracle| - 2
    ensures exists i: nat, j: nat, k: nat, l: nat ::
              && OnlyRow(q.records.value, cx, p, i, j) && OnlyRow(base.records.value, cx, p, k, l)
              && PacketMatches(q.records.value[i], cx, p) && AnchorAtPrefixEnd(q.records.value[i], cx)
              && j < |q.records.value[i].logits| && q.records.value[i].logits[j] == Some(rows[p])
              && l < |base.records.value[k].logits| && base.records.value[k].logits[l] == Some(baseRows[p])
              && Gate(baseRows[p], rows[p])
  {
    hide Readable, OnlyRow, PacketMatches, AnchorAtPrefixEnd, Gate, Corruptions, Widths;
    assert p in Window(cx);
    var i, j := CoveredOnce(q, cx, ctl, rows, p);
    var k, l := CoveredOnce(base, cx, ctl, baseRows, p);
  }

  /** And in plain terms: at each such position the rows agree within the thresholds and have their largest entry at
      the same index, and the run has a packet of the width. */
  lemma EligibleMeans(base: Diagnostic, q: Diagnostic, width: nat, cx: Context, ctl: StepHistory.Controls,
                      baseRows: map<int, Vector>, rows: map<int, Vector>, p: int)
    requires WidthClean(base, 1, cx, ctl, baseRows) && WidthClean(q, width, cx, ctl, rows) && GatesPass(baseRows, rows)
    requires |cx.prompt| + 7 <= p <= |cx.prompt + cx.oracle| - 2
    ensures p in rows && p in baseRows
    ensures var r, c := baseRows[p], rows[p];
            |c| == |r| && SumSquares(Difference(c, r)) * 40000.0 <= SumSquares(r)
            && (forall k :: 0 <= k < |r| ==> -0.125 <= c[k] - r[k] <= 0.125)
            && exists t :: 0 <= t < |r|
                           && (forall i :: 0 <= i < |r| ==> r[i] <= r[t] && c[i] <= c[t])
                           && forall i :: 0 <= i < t ==> r[i] < r[t] && c[i] < c[t]
    ensures exists i :: 0 <= i < |q.records.value|
                        && q.records.value[i].positions.Some? && |q.records.value[i].positions.value| == width > 0
                        && q.records.value[i].positions.value[0] >= |cx.prompt| + 7
  {
    hide Readable, Corruptions, Widths, Gate, SumSquares, Window;
    WidthMeans(base, 1, cx, ctl, baseRows);
    WidthMeans(q, width, cx, ctl, rows);
    GateMeans(baseRows[p], rows[p]);
    assert Gate(baseRows[p], rows[p]);
    var r, c := baseRows[p], rows[p];
    var t :| 0 <= t < |r| && (forall i :: 0 <= i < |r| ==> r[i] <= r[t] && c[i] <= c[t])
             && forall i :: 0 <= i < t ==> r[i] < r[t] && c[i] < c[t];
  }

  // ------------------------------------------------------------- rejection controls

  /** A control run changes draft number index of one packet of the given width. */
  datatype Control = Control(width: nat, desiredK: int, index: nat)

  function Injected(events: seq<BridgeEvent>): nat {
    if events == [] then 0 else Injected(events[..|events| - 1]) + (if events[|events| - 1].injected then 1 else 0)
  }

  function Observed(events: seq<BridgeEvent>, start: int, width: int): seq<BridgeEvent> {
    if events == [] then [] else
      var e := events[|events| - 1];
      Observed(events[..|events| - 1], start, width)
      + (if e.queryStart == start && e.queryLen == width then [e] else [])
  }

  function Prior(rows: map<int, Vector>, start: int, changed: int): set<int> {
    set p | p in rows && start <= p < changed
  }

  function Continuation(rows: map<int, Vector>, changed: int): set<int> {
    set p | p in rows && p > changed
  }

  /** The one corrupted packet, the rejection it caused and the rows around it. */
  predicate CorruptionAsPlanned(c: Corruption, q: Diagnostic, k: Control, rows: map<int, Vector>) {
    && c.indices == [k.index + 1] && |c.positions| == k.width && c.positions != []
    && Injected(q.bridge) == 1
    && |Observed(q.bridge, c.positions[0], k.width)| == 1
    && Observed(q.bridge, c.positions[0], k.width)[0].rejected == k.desiredK - k.index
    && Observed(q.bridge, c.positions[0], k.width)[0].sampled == k.index + 1
    && |Prior(rows, c.positions[0], c.position)| == k.index + 1
    && |Continuation(rows, c.position)| >= 3
  }

  ghost predicate ControlPasses(q: Diagnostic, k: Control, cx: Context, ctl: StepHistory.Controls,
                                base: map<int, Vector>, clean: map<int, Vector>, rows: map<int, Vector>) {
    && Readable(q, cx, ctl, rows) && rows.Keys == Window(cx) && GatesPass(base, rows)
    && q.history.desiredK == k.desiredK && q.corruptIndex == Some(k.index) && q.diagnosticMode
    && (var cs := Corruptions(q.records.value, cx, |q.records.value|);
        |cs| == 1 && CorruptionAsPlanned(cs[0], q, k, rows) &&
        forall p :: p in Prior(rows, cs[0].positions[0], cs[0].position) ==> p in clean && Gate(clean[p], rows[p]))
  }

  /** Counting injected events. */
  lemma {:induction false} InjectedMeans(a: seq<BridgeEvent>, b: seq<BridgeEvent>, e: BridgeEvent)
    ensures Injected([]) == 0 && Injected([e]) == (if e.injected then 1 else 0)
    ensures Injected(a + b) == Injected(a) + Injected(b)
    decreases |b|
  {
    if b == [] {
      assert a + b == a;
    } else {
      var n := |b| - 1;
      assert (a + b)[..|a + b| - 1] == a + b[..n];
      InjectedMeans(a, b[..n], e);
    }
    assert [e][..0] == [];
  }

  /** The events of the packet that starts at start and has the width, in their order. */
  lemma {:induction false} ObservedMeans(a: seq<BridgeEvent>, b: seq<BridgeEvent>, e: BridgeEvent, start: int,
                                         width: int)
    ensures Observed([], start, width) == []
    ensures Observed([e], start, width) == if e.queryStart == start && e.queryLen == width then [e] else []
    ensures Observed(a + b, start, width) == Observed(a, start, width) + Observed(b, start, width)
    decreases |b|
  {
    if b == [] {
      assert a + b == a;
    } else {
      var n := |b| - 1;
      assert (a + b)[..|a + b| - 1] == a + b[..n];
      ObservedMeans(a, b[..n], e, start, width);
    }
    assert [e][..0] == [];
  }

  /** What the one corruption of a control must look like: only the draft after index was changed, in a packet of the
      width; one event injected it; the packet's one event rejects the drafts from index on and samples the ones up
      to it; the rows before the change are all there, and at least three after it. */
  lemma PlannedMeans(c: Corruption, q: Diagnostic, k: Control, rows: map<int, Vector>)
    ensures CorruptionAsPlanned(c, q, k, rows) <==>
            && c.indices == [k.index + 1] && |c.positions| == k.width > 0
            && Injected(q.bridge) == 1
            && (exists e :: Observed(q.bridge, c.positions[0], k.width) == [e]
                            && e.rejected == k.desiredK - k.index && e.sampled == k.index + 1)
            && |set p | p in rows && c.positions[0] <= p < c.position| == k.index + 1
            && |set p | p in rows && p > c.position| >= 3
  {
    hide Observed, Injected;
    if c.positions != [] {
      var o := Observed(q.bridge, c.positions[0], k.width);
      assert |o| == 1 ==> o == [o[0]];
      assert Prior(rows, c.positions[0], c.position) == set p | p in rows && c.positions[0] <= p < c.position;
    }
    assert Continuation(rows, c.position) == set p | p in rows && p > c.position;
  }

  /** When a control passes. */
  lemma ControlMeans(q: Diagnostic, k: Control, cx: Context, ctl: StepHistory.Controls,
                     base: map<int, Vector>, clean: map<int, Vector>, rows: map<int, Vector>, c: Corruption)
    requires q.records.Some? && Corruptions(q.records.value, cx, |q.records.value|) == [c] && c.positions != []
    ensures ControlPasses(q, k, cx, ctl, base, clean, rows) <==>
            && Readable(q, cx, ctl, rows)
            && q.history.desiredK == k.desiredK && q.corruptIndex == Some(k.index) && q.diagnosticMode
            && (forall p :: p in rows <==> |cx.prompt| + 7 <= p <= |cx.prompt + cx.oracle| - 2)
            && rows != map[] && (forall p :: p in rows ==> p in base && Gate(base[p], rows[p]))
            && CorruptionAsPlanned(c, q, k, rows)
            && forall p :: p in rows && c.positions[0] <= p < c.position ==> p in clean && Gate(clean[p], rows[p])
  {
    hide Readable, Corruptions, Gate, CorruptionAsPlanned;
    WindowMeans(cx, rows);
    assert rows.Keys == {} <==> rows == map[];
  }

  /** No control passes without exactly one corrupted packet. */
  lemma OnePacketCorrupted(q: Diagnostic, k: Control, cx: Context, ctl: StepHistory.Controls,
                           base: map<int, Vector>, clean: map<int, Vector>, rows: map<int, Vector>)
    requires ControlPasses(q, k, cx, ctl, base, clean, rows)
    ensures q.records.Some? && |Corruptions(q.records.value, cx, |q.records.value|)| == 1
    ensures Corruptions(q.records.value, cx, |q.records.value|)[0].positions != []
  {
    hide Corruptions, GatesPass;
  }

  /** The unchanged causal rows against the clean run of the same width. */
  method CompareCausal(clean: map<int, Vector>, rows: map<int, Vector>, prior: set<int>) returns (ok: bool)
    requires prior <= rows.Keys
    ensures ok <==> forall p :: p in prior ==> p in clean && Gate(clean[p], rows[p])
  {
    var left := prior;
    ok := true;
    while left != {}
      invariant left <= prior
      invariant ok <==> forall p :: p in prior && p !in left ==> p in clean && Gate(clean[p], rows[p])
      decreases left
    {
      var p := PickOne(left);
      if p !in clean || !Gate(clean[p], rows[p]) {
        ok := false;
      }
      left := left - {p};
    }
  }

  /** One rejection control against the baseline rows and the clean rows of its width. */
  method CheckControl(q: Option<Diagnostic>, k: Control, cx: Context, ctl: StepHistory.Controls,
                      base: map<int, Vector>, clean: map<int, Vector>)
    returns (passed: bool, ghost rows: map<int, Vector>)
    ensures passed ==> q.Some? && ControlPasses(q.value, k, cx, ctl, base, clean, rows)
    ensures !passed ==> q.None? || forall r :: !ControlPasses(q.value, k, cx, ctl, base, clean, r)
  {
    hide Readable, Corruptions, GatesPass, Gate, CorruptionAsPlanned;
    if q.None? {
      return false, map[];
    }
    var ok, found, corruptions, widths := Read(q.value, cx, ctl);
    rows := found;
    if !ok {
      return false, rows;
    }
    forall r | Readable(q.value, cx, ctl, r) ensures r == rows {
      SameRows(q.value, cx, ctl, r, rows);
    }
    var gates := Compare(base, found);
    passed := gates && found.Keys == Window(cx) && q.value.history.desiredK == k.desiredK &&
              q.value.corruptIndex == Some(k.index) && q.value.diagnosticMode && |corruptions| == 1 &&
              CorruptionAsPlanned(corruptions[0], q.value, k, found);
    if passed {
      PlannedIsNonEmpty(corruptions[0], q.value, k, found);
      var causal := CompareCausal(clean, found, Prior(found, corruptions[0].positions[0], corruptions[0].position));
      passed := causal;
    }
  }

  lemma PlannedIsNonEmpty(c: Corruption, q: Diagnostic, k: Control, rows: map<int, Vector>)
    requires CorruptionAsPlanned(c, q, k, rows)
    ensures c.positions != []
  {
  }

  /** Of a corrupted packet only rows before the changed input are kept, so whatever is indexed
      from there on was recovered by another packet. */
  lemma RecoveryNeverCollides(q: Diagnostic, cx: Context, ctl: StepHistory.Controls, rows: map<int, Vector>,
                              a: nat, i: nat, j: nat, p: int)
    requires Readable(q, cx, ctl, rows) && a < |Corruptions(q.records.value, cx, |q.records.value|)|
    requires Contributor(q.records.value, cx, i, j, p)
    ensures var c := Corruptions(q.records.value, cx, |q.records.value|)[a];
            i == c.record ==> p < c.position
  {
    hide StepHistory.HistoryClean, RecordClean, Indexed, PacketClean, CleanUpTo, Changed;
    var recs := q.records.value;
    var c := Corruptions(recs, cx, |recs|)[a];
    CorruptionSource(recs, cx, |recs|, a);
    if i == c.record {
      KeptBeforeFirstChange(recs[i], cx, p);
    }
  }

  /** A passing control: all eligible positions are covered once; below the changed position the
      rows meet the clean run's rows, and from it on they come from other packets. */
  lemma ControlRecovers(q: Diagnostic, k: Control, cx: Context, ctl: StepHistory.Controls,
                        base: map<int, Vector>, clean: map<int, Vector>, rows: map<int, Vector>, p: int)
    requires ControlPasses(q, k, cx, ctl, base, clean, rows)
    requires |cx.prompt| + 7 <= p <= |cx.prompt + cx.oracle| - 2
    ensures exists i: nat, j: nat ::
              && OnlyRow(q.records.value, cx, p, i, j) && PacketMatches(q.records.value[i], cx, p)
              && (var c := Corruptions(q.records.value, cx, |q.records.value|)[0];
                  (p >= c.position ==> i != c.record) &&
                  (c.positions != [] && c.positions[0] <= p < c.position ==>
                     p in clean && p in rows && Gate(clean[p], rows[p])))
  {
    hide Readable, OnlyRow, PacketMatches, AnchorAtPrefixEnd, Gate, Corruptions, GatesPass;
    assert p in Window(cx);
    var i, j := CoveredOnce(q, cx, ctl, rows, p);
    HasRecords(q, cx, ctl, rows);
    var c := Corruptions(q.records.value, cx, |q.records.value|)[0];
    OnlyRowContributes(q.records.value, cx, p, i, j);
    RecoveryNeverCollides(q, cx, ctl, rows, 0, i, j, p);
    if c.positions != [] && c.positions[0] <= p < c.position {
      assert p in Prior(rows, c.positions[0], c.position);
    }
  }

  lemma HasRecords(q: Diagnostic, cx: Context, ctl: StepHistory.Controls, rows: map<int, Vector>)
    requires Readable(q, cx, ctl, rows)
    ensures q.records.Some?
  {
  }

  lemma OnlyRowContributes(recs: seq<Record>, cx: Context, p: int, i: nat, j: nat)
    requires OnlyRow(recs, cx, p, i, j)
    ensures Contributor(recs, cx, i, j, p)
  {
  }
}
