/** Indexing captured logit rows by sequence position: which packet rows count, and that
    every position gets at most one of them. */
module LogitRows {
  import opened Basics
  import StepHistory

  type Vector = seq<real>

  const ACTIVATION: nat := 8

  /** One captured packet. None stands for a missing or ill-typed field, or for a row that is
      not a finite vector. */
  datatype Record = Record(positions: Option<seq<int>>, inputs: Option<seq<int>>, prefix: Option<seq<int>>,
                           logits: seq<Option<Vector>>)

  datatype Corruption = Corruption(record: nat, positions: seq<int>, indices: seq<nat>, position: int)

  /** What the rows are checked against. */
  datatype Context = Context(prompt: seq<int>, oracle: seq<int>, vocab: int)
  {
    function Sequence(): seq<int> { prompt + oracle }

    function Start(): int { |prompt| + ACTIVATION - 1 }

    function Last(): int { |prompt| + |oracle| - 2 }

    predicate InWindow(p: int) { Start() <= p <= Last() }
  }

  predicate RowClean(row: Option<Vector>, vocab: int) {
    row.Some? && |row.value| == vocab
  }

  /** Prefill packets may carry only the last row. */
  predicate PrefillForm(rec: Record)
    requires rec.positions.Some? && rec.prefix.Some?
  {
    |rec.logits| == 1 && rec.prefix.value == [] && rec.positions.value != [] && rec.positions.value[0] == 0
  }

  /** Header checks of one packet: positions, inputs, committed prefix, anchor, row count. */
  predicate PacketClean(rec: Record, cx: Context) {
    && StepHistory.Ints(rec.positions) && rec.positions.value != []
    && StepHistory.Ints(rec.inputs) && |rec.inputs.value| == |rec.positions.value|
    && StepHistory.Consecutive(rec.positions.value)
    && StepHistory.Ints(rec.prefix) && rec.prefix.value <= cx.oracle
    && (rec.prefix.value != [] ==> rec.positions.value[0] == |cx.prompt| + |rec.prefix.value| - 1)
    && (PrefillForm(rec) || |rec.logits| == |rec.positions.value|)
  }

  /** The position that logit row j stands for. */
  function RowPosition(rec: Record, cx: Context, j: nat): int
    requires PacketClean(rec, cx) && j < |rec.logits|
  {
    if PrefillForm(rec) then rec.positions.value[|rec.positions.value| - 1] else rec.positions.value[j]
  }

  /** Input i of the packet differs from prompt + oracle. */
  predicate Mismatch(rec: Record, cx: Context, i: nat)
    requires PacketClean(rec, cx) && i < |rec.positions.value|
  {
    var p := rec.positions.value[i];
    p < |cx.Sequence()| && rec.inputs.value[i] != cx.Sequence()[p]
  }

  /** No changed input at or before position p. */
  predicate CleanUpTo(rec: Record, cx: Context, p: int)
    requires PacketClean(rec, cx)
  {
    forall i :: 0 <= i < |rec.positions.value| && rec.positions.value[i] <= p ==> !Mismatch(rec, cx, i)
  }

  /** Row j of the packet is kept, for position p. */
  predicate Contributes(rec: Record, cx: Context, j: nat, p: int) {
    PacketClean(rec, cx) && j < |rec.logits| && RowPosition(rec, cx, j) == p && cx.InWindow(p) && CleanUpTo(rec, cx, p)
  }

  predicate RecordClean(rec: Record, cx: Context) {
    PacketClean(rec, cx) && forall j :: 0 <= j < |rec.logits| ==> RowClean(rec.logits[j], cx.vocab)
  }

  // --------------------------------------------- the rows seen up to a point of the scan

  /** Row (i, j) comes before row (n, m) in the scan. */
  predicate Before(i: nat, j: nat, n: nat, m: nat) {
    i < n || (i == n && j < m)
  }

  ghost predicate Contributor(recs: seq<Record>, cx: Context, i: nat, j: nat, p: int) {
    i < |recs| && Contributes(recs[i], cx, j, p)
  }

  /** rows holds exactly the contributing rows before (n, m), each position once. */
  ghost predicate Indexed(rows: map<int, Vector>, recs: seq<Record>, cx: Context, n: nat, m: nat) {
    && (forall p :: p in rows ==> exists i: nat, j: nat :: Before(i, j, n, m) && Contributor(recs, cx, i, j, p))
    && (forall i: nat, j: nat, p :: Before(i, j, n, m) && Contributor(recs, cx, i, j, p) ==>
          p in rows && j < |recs[i].logits| && recs[i].logits[j] == Some(rows[p]))
    && Unrepeated(recs, cx, n, m)
  }

  /** No position gets two rows before (n, m). */
  ghost predicate Unrepeated(recs: seq<Record>, cx: Context, n: nat, m: nat) {
    forall i: nat, j: nat, k: nat, l: nat, p ::
      Before(i, j, n, m) && Before(k, l, n, m) && Contributor(recs, cx, i, j, p) && Contributor(recs, cx, k, l, p)
      ==> i == k && j == l
  }

  lemma SkipRow(rows: map<int, Vector>, recs: seq<Record>, cx: Context, n: nat, m: nat, p: int)
    requires n < |recs| && PacketClean(recs[n], cx) && m < |recs[n].logits| && p == RowPosition(recs[n], cx, m)
    requires Indexed(rows, recs, cx, n, m) && !Contributes(recs[n], cx, m, p)
    ensures Indexed(rows, recs, cx, n, m + 1)
  {
    hide PacketClean, RowPosition, CleanUpTo;
    forall q ensures !Contributor(recs, cx, n, m, q) {
    }
    forall i: nat, j: nat | Before(i, j, n, m + 1) ensures Before(i, j, n, m) || (i == n && j == m) {
    }
  }

  lemma AddRow(rows: map<int, Vector>, recs: seq<Record>, cx: Context, n: nat, m: nat, p: int)
    requires n < |recs| && Contributes(recs[n], cx, m, p) && RowClean(recs[n].logits[m], cx.vocab)
    requires Indexed(rows, recs, cx, n, m) && p !in rows
    ensures Indexed(rows[p := recs[n].logits[m].value], recs, cx, n, m + 1)
  {
    hide PacketClean, RowPosition, CleanUpTo;
    var rows' := rows[p := recs[n].logits[m].value];
    forall q ensures Contributor(recs, cx, n, m, q) <==> q == p {
    }
    assert Before(n, m, n, m + 1);
    forall q | q in rows' ensures exists i: nat, j: nat :: Before(i, j, n, m + 1) && Contributor(recs, cx, i, j, q) {
      if q == p {
        assert Contributor(recs, cx, n, m, q);
      } else {
        var i: nat, j: nat :| Before(i, j, n, m) && Contributor(recs, cx, i, j, q);
        assert Before(i, j, n, m + 1);
      }
    }
    forall i: nat, j: nat | Before(i, j, n, m + 1) ensures Before(i, j, n, m) || (i == n && j == m) {
    }
  }

  lemma RepeatFound(rows: map<int, Vector>, recs: seq<Record>, cx: Context, n: nat, m: nat, p: int)
    requires Indexed(rows, recs, cx, n, m) && n < |recs| && Contributes(recs[n], cx, m, p) && p in rows
    ensures !Unrepeated(recs, cx, |recs|, 0)
  {
    hide PacketClean, RowPosition, CleanUpTo;
    var i: nat, j: nat :| Before(i, j, n, m) && Contributor(recs, cx, i, j, p);
    assert Contributor(recs, cx, n, m, p);
    assert Before(i, j, |recs|, 0) && Before(n, m, |recs|, 0);
  }

  lemma NextRecord(rows: map<int, Vector>, recs: seq<Record>, cx: Context, n: nat)
    requires n < |recs| && PacketClean(recs[n], cx) && Indexed(rows, recs, cx, n, |recs[n].logits|)
    ensures Indexed(rows, recs, cx, n + 1, 0)
  {
    hide PacketClean, RowPosition, CleanUpTo;
    forall i: nat, j: nat, p | Before(i, j, n + 1, 0) && Contributor(recs, cx, i, j, p)
      ensures Before(i, j, n, |recs[n].logits|)
    {
    }
    forall p | p in rows ensures exists i: nat, j: nat :: Before(i, j, n + 1, 0) && Contributor(recs, cx, i, j, p) {
      var i: nat, j: nat :| Before(i, j, n, |recs[n].logits|) && Contributor(recs, cx, i, j, p);
      assert Before(i, j, n + 1, 0);
    }
  }

  // ----------------------------------------------------------------- the reader

  /** The changed inputs among the first n of a packet. */
  function Mismatches(rec: Record, cx: Context, n: nat): (indices: seq<nat>)
    requires PacketClean(rec, cx) && n <= |rec.positions.value|
  {
    if n == 0 then [] else Mismatches(rec, cx, n - 1) + (if Mismatch(rec, cx, n - 1) then [n - 1] else [])
  }

  lemma {:induction false} MismatchesMeaning(rec: Record, cx: Context, n: nat)
    requires PacketClean(rec, cx) && n <= |rec.positions.value|
    ensures forall i :: i in Mismatches(rec, cx, n) ==> i < n && Mismatch(rec, cx, i)
    ensures forall i: nat :: i < n && Mismatch(rec, cx, i) ==> i in Mismatches(rec, cx, n)
    ensures Mismatches(rec, cx, n) != [] ==>
              forall i: nat :: i < Mismatches(rec, cx, n)[0] ==> i < n && !Mismatch(rec, cx, i)
  {
    hide PacketClean, Mismatch;
    if n > 0 {
      MismatchesMeaning(rec, cx, n - 1);
    }
  }

  /** All changed inputs of a packet. */
  function Changed(rec: Record, cx: Context): seq<nat>
    requires PacketClean(rec, cx)
  {
    Mismatches(rec, cx, |rec.positions.value|)
  }

  /** A row is kept exactly when it comes before the first changed input. */
  lemma KeptBeforeFirstChange(rec: Record, cx: Context, p: int)
    requires PacketClean(rec, cx)
    ensures rec.positions.Some? && (Changed(rec, cx) != [] ==> Changed(rec, cx)[0] < |rec.positions.value|)
    ensures CleanUpTo(rec, cx, p) <==> Changed(rec, cx) == [] || p < rec.positions.value[Changed(rec, cx)[0]]
  {
    hide Mismatch, PrefillForm;
    MismatchesMeaning(rec, cx, |rec.positions.value|);
    if Changed(rec, cx) != [] {
      var f := Changed(rec, cx)[0];
      assert f in Changed(rec, cx);
      assert forall i :: 0 <= i < |rec.positions.value| ==> rec.positions.value[i] == rec.positions.value[0] + i;
    }
  }

  function CorruptionsOf(rec: Record, cx: Context, n: nat): seq<Corruption> {
    if PacketClean(rec, cx) && Changed(rec, cx) != [] && Changed(rec, cx)[0] < |rec.positions.value| then
      [Corruption(n, rec.positions.value, Changed(rec, cx), rec.positions.value[Changed(rec, cx)[0]])]
    else []
  }

  function Corruptions(recs: seq<Record>, cx: Context, n: nat): seq<Corruption>
    requires n <= |recs|
  {
    if n == 0 then [] else Corruptions(recs, cx, n - 1) + CorruptionsOf(recs[n - 1], cx, n - 1)
  }

  function WidthsOf(rec: Record, cx: Context): seq<nat> {
    if rec.positions.Some? && rec.positions.value != [] && rec.positions.value[0] >= cx.Start()
    then [|rec.positions.value|] else []
  }

  function Widths(recs: seq<Record>, cx: Context, n: nat): seq<nat>
    requires n <= |recs|
  {
    if n == 0 then [] else Widths(recs, cx, n - 1) + WidthsOf(recs[n - 1], cx)
  }

  /** One row of a packet: validate it, then keep or skip it. */
  method ReadRow(recs: seq<Record>, cx: Context, n: nat, j: nat, changed: seq<nat>, rows: map<int, Vector>)
    returns (ok: bool, next: map<int, Vector>)
    requires n < |recs| && PacketClean(recs[n], cx) && j < |recs[n].logits| && Indexed(rows, recs, cx, n, j)
    requires changed == Changed(recs[n], cx)
    ensures ok ==> RowClean(recs[n].logits[j], cx.vocab) && Indexed(next, recs, cx, n, j + 1)
    ensures !ok ==> !RowClean(recs[n].logits[j], cx.vocab) || !Unrepeated(recs, cx, |recs|, 0)
  {
    hide PacketClean, Mismatch, Indexed, Unrepeated, Changed;
    var rec := recs[n];
    if !RowClean(rec.logits[j], cx.vocab) {
      return false, rows;
    }
    var p := RowPosition(rec, cx, j);
    KeptBeforeFirstChange(rec, cx, p);
    if !cx.InWindow(p) || (changed != [] && p >= rec.positions.value[changed[0]]) {
      SkipRow(rows, recs, cx, n, j, p);
      return true, rows;
    }
    assert Contributes(rec, cx, j, p);
    if p in rows {
      RepeatFound(rows, recs, cx, n, j, p);
      return false, rows;
    }
    AddRow(rows, recs, cx, n, j, p);
    return true, rows[p := rec.logits[j].value];
  }

  /** One packet: header checks, changed inputs, then its rows in order. */
  method ReadRecord(recs: seq<Record>, cx: Context, n: nat, rows: map<int, Vector>)
    returns (ok: bool, next: map<int, Vector>, corrupt: seq<Corruption>, width: seq<nat>)
    requires n < |recs| && Indexed(rows, recs, cx, n, 0)
    ensures ok ==> RecordClean(recs[n], cx) && Indexed(next, recs, cx, n + 1, 0)
    ensures ok ==> corrupt == CorruptionsOf(recs[n], cx, n) && width == WidthsOf(recs[n], cx)
    ensures !ok ==> !RecordClean(recs[n], cx) || !Unrepeated(recs, cx, |recs|, 0)
  {
    hide Indexed, Unrepeated, Mismatch, Mismatches;
    var rec := recs[n];
    next, corrupt, width := rows, [], [];
    if !PacketClean(rec, cx) {
      return false, rows, [], [];
    }
    var changed := Changed(rec, cx);
    KeptBeforeFirstChange(rec, cx, 0);
    if changed != [] {
      assert changed[0] in changed;
      corrupt := [Corruption(n, rec.positions.value, changed, rec.positions.value[changed[0]])];
    }
    width := WidthsOf(rec, cx);
    for j := 0 to |rec.logits|
      invariant Indexed(next, recs, cx, n, j)
      invariant forall k :: 0 <= k < j ==> RowClean(rec.logits[k], cx.vocab)
    {
      ok, next := ReadRow(recs, cx, n, j, changed, next);
      if !ok {
        return;
      }
    }
    NextRecord(next, recs, cx, n);
    ok := true;
  }

  /** All captured packets. Reading succeeds exactly when every packet is well formed and no
      position gets two rows; the rows are then indexed without loss or choice. */
  method ReadRecords(recs: seq<Record>, cx: Context)
    returns (ok: bool, rows: map<int, Vector>, corruptions: seq<Corruption>, widths: seq<nat>)
    ensures ok <==> recs != [] && (forall n :: 0 <= n < |recs| ==> RecordClean(recs[n], cx)) &&
                    Unrepeated(recs, cx, |recs|, 0)
    ensures ok ==> Indexed(rows, recs, cx, |recs|, 0)
    ensures ok ==> corruptions == Corruptions(recs, cx, |recs|) && widths == Widths(recs, cx, |recs|)
  {
    rows, corruptions, widths := map[], [], [];
    if recs == [] {
      return false, rows, [], [];
    }
    assert Indexed(rows, recs, cx, 0, 0);
    assert forall n, m, r: map<int, Vector> :: Indexed(r, recs, cx, n, m) ==> Unrepeated(recs, cx, n, m);
    hide Indexed, Unrepeated, RecordClean, CorruptionsOf, WidthsOf;
    for n := 0 to |recs|
      invariant Indexed(rows, recs, cx, n, 0)
      invariant forall k :: 0 <= k < n ==> RecordClean(recs[k], cx)
      invariant corruptions == Corruptions(recs, cx, n) && widths == Widths(recs, cx, n)
    {
      var good, next, corrupt, width := ReadRecord(recs, cx, n, rows);
      if !good {
        return false, rows, corruptions, widths;
      }
      rows, corruptions, widths := next, corruptions + corrupt, widths + width;
    }
    return true, rows, corruptions, widths;
  }

  // ----------------------------------------------------------------- the same in plain terms

  /** A packet is taken when its positions are consecutive, with an input each, its prefix begins the oracle, it is
      anchored at the end of that prefix, and it has a row for each position, or at the very start for the last. */
  lemma PacketMeans(rec: Record, cx: Context, p: seq<int>, x: seq<int>, prefix: seq<int>)
    requires rec.positions == Some(p) && rec.inputs == Some(x) && rec.prefix == Some(prefix)
    ensures RecordClean(rec, cx) <==>
            && p != [] && p[0] >= 0 && (forall i :: 0 <= i < |p| ==> p[i] == p[0] + i)
            && |x| == |p| && (forall i :: 0 <= i < |x| ==> x[i] >= 0)
            && (forall i :: 0 <= i < |prefix| ==> prefix[i] >= 0) && prefix <= cx.oracle
            && (prefix != [] ==> p[0] == |cx.prompt| + |prefix| - 1)
            && (|rec.logits| == |p| || (|rec.logits| == 1 && prefix == [] && p[0] == 0))
            && forall j :: 0 <= j < |rec.logits| ==> rec.logits[j].Some? && |rec.logits[j].value| == cx.vocab
    ensures RecordClean(rec, cx) ==> PacketClean(rec, cx)
  {
  }

  lemma PacketForm(rec: Record, cx: Context)
    requires PacketClean(rec, cx)
    ensures rec.positions.Some? && rec.inputs.Some? && rec.prefix.Some?
    ensures |rec.inputs.value| == |rec.positions.value| > 0
    ensures |rec.logits| == |rec.positions.value| || (|rec.logits| == 1 && rec.prefix.value == [])
    ensures forall i :: 0 <= i < |rec.positions.value| ==>
              0 <= rec.positions.value[i] == rec.positions.value[0] + i
  {
  }

  /** A row is kept exactly inside the window and when no input up to its position differs from prompt and oracle. */
  lemma KeptMeans(rec: Record, cx: Context, j: nat, p: int)
    requires PacketClean(rec, cx) && j < |rec.logits|
    ensures rec.positions.Some? && rec.inputs.Some? && rec.prefix.Some? && j < |rec.positions.value|
    ensures Contributes(rec, cx, j, p) <==>
            && p == rec.positions.value[if |rec.logits| == 1 && rec.prefix.value == [] && rec.positions.value[0] == 0
                                        then |rec.positions.value| - 1 else j]
            && |cx.prompt| + 7 <= p <= |cx.prompt + cx.oracle| - 2
            && forall i :: 0 <= i < |rec.positions.value|
                           && 0 <= rec.positions.value[i] <= p < |cx.prompt + cx.oracle| ==>
                 |rec.inputs.value| > i && rec.inputs.value[i] == (cx.prompt + cx.oracle)[rec.positions.value[i]]
  {
    PacketForm(rec, cx);
    hide PacketClean;
    var x, w := rec.positions.value, cx.prompt + cx.oracle;
    if CleanUpTo(rec, cx, p) {
      forall i | 0 <= i < |x| && 0 <= x[i] <= p < |w| ensures |rec.inputs.value| > i && rec.inputs.value[i] == w[x[i]] {
        assert !Mismatch(rec, cx, i);
      }
    } else {
      var i :| 0 <= i < |x| && x[i] <= p && Mismatch(rec, cx, i);
    }
  }

  /** The widths on record are those of the packets that begin past the activation point. */
  lemma {:induction false} WidthsMean(recs: seq<Record>, cx: Context, n: nat, width: nat)
    requires n <= |recs|
    ensures width in Widths(recs, cx, n) <==>
            exists i :: 0 <= i < n && recs[i].positions.Some? && recs[i].positions.value != []
                        && recs[i].positions.value[0] >= |cx.prompt| + 7 && |recs[i].positions.value| == width
  {
    if n > 0 {
      WidthsMean(recs, cx, n - 1, width);
    }
  }

  /** The changed inputs of a packet are where it differs from prompt and oracle. */
  lemma ChangedMeans(rec: Record, cx: Context, i: nat)
    requires PacketClean(rec, cx)
    ensures rec.positions.Some? && rec.inputs.Some? && |rec.inputs.value| == |rec.positions.value|
    ensures i in Changed(rec, cx) <==>
            i < |rec.positions.value| && 0 <= rec.positions.value[i] < |cx.prompt + cx.oracle|
            && rec.inputs.value[i] != (cx.prompt + cx.oracle)[rec.positions.value[i]]
    ensures i in Changed(rec, cx) ==> Changed(rec, cx)[0] <= i
  {
    PacketForm(rec, cx);
    MismatchesMeaning(rec, cx, |rec.positions.value|);
    hide PacketClean, Mismatches;
  }

  /** Where a recorded corruption comes from. */
  lemma {:induction false} CorruptionSource(recs: seq<Record>, cx: Context, n: nat, a: nat)
    requires n <= |recs| && a < |Corruptions(recs, cx, n)|
    ensures var c := Corruptions(recs, cx, n)[a];
            c.record < n && CorruptionsOf(recs[c.record], cx, c.record) == [c]
    decreases n
  {
    hide CorruptionsOf;
    var before := Corruptions(recs, cx, n - 1);
    if a < |before| {
      CorruptionSource(recs, cx, n - 1, a);
    } else {
      OneCorruption(recs[n - 1], cx, n - 1);
    }
  }

  lemma OneCorruption(rec: Record, cx: Context, n: nat)
    ensures |CorruptionsOf(rec, cx, n)| <= 1
    ensures CorruptionsOf(rec, cx, n) != [] ==> CorruptionsOf(rec, cx, n)[0].record == n
  {
    hide PacketClean, Changed;
  }

  /** A record of a corruption holds the packet's positions, its changed inputs and the position of the first. */
  lemma CorruptionMeans(recs: seq<Record>, cx: Context, n: nat, a: nat)
    requires n <= |recs| && a < |Corruptions(recs, cx, n)|
    ensures var c := Corruptions(recs, cx, n)[a];
            c.record < n && PacketClean(recs[c.record], cx) && recs[c.record].positions == Some(c.positions)
            && c.indices == Changed(recs[c.record], cx) != [] && c.indices[0] < |c.positions|
            && c.position == c.positions[c.indices[0]]
  {
    var c := Corruptions(recs, cx, n)[a];
    CorruptionSource(recs, cx, n, a);
    hide Corruptions;
    assert c in CorruptionsOf(recs[c.record], cx, c.record);
    OwnRecord(recs[c.record], cx, c.record);
  }

  /** Each packet with a changed input has such a record. */
  lemma {:induction false} CorruptionRecorded(recs: seq<Record>, cx: Context, n: nat, i: nat)
    requires i < n <= |recs| && PacketClean(recs[i], cx) && Changed(recs[i], cx) != []
    ensures exists a :: 0 <= a < |Corruptions(recs, cx, n)| && Corruptions(recs, cx, n)[a].record == i
    decreases n
  {
    hide PacketClean, Changed, CorruptionsOf;
    var before, last := Corruptions(recs, cx, n - 1), CorruptionsOf(recs[n - 1], cx, n - 1);
    if i < n - 1 {
      CorruptionRecorded(recs, cx, n - 1, i);
      var a :| 0 <= a < |before| && before[a].record == i;
      assert Corruptions(recs, cx, n)[a] == before[a];
    } else {
      OwnRecord(recs[i], cx, i);
      OneCorruption(recs[i], cx, i);
      assert Corruptions(recs, cx, n)[|before|] == last[0];
    }
  }

  lemma OwnRecord(rec: Record, cx: Context, n: nat)
    ensures forall c :: c in CorruptionsOf(rec, cx, n) ==>
              PacketClean(rec, cx) && rec.positions.Some? && c.positions == rec.positions.value
              && c.indices == Changed(rec, cx) != []
              && c.indices[0] < |c.positions| && c.position == c.positions[c.indices[0]]
    ensures PacketClean(rec, cx) && Changed(rec, cx) != [] ==> CorruptionsOf(rec, cx, n) != []
  {
    hide PacketClean, Changed;
    if PacketClean(rec, cx) {
      PacketForm(rec, cx);
      KeptBeforeFirstChange(rec, cx, 0);
    }
  }

}
