/** Splitting one layer's tensor file into rank-local files that hold only that rank's
    embedding rows and a full copy of every other tensor. */
module Partition {
  import opened Basics
  import opened Bytes
  import NumberTheory

  // ------------------------------------------------------------- head ranges

  function HeadsPerRank(heads: nat, tp: nat): (part: nat)
    requires 0 < tp
  {
    (heads + tp - 1) / tp
  }

  /** First row of a rank: the heads of all lower ranks come before it. */
  function RowStart(sizes: seq<nat>, tp: nat, rank: nat): nat
    requires 0 < tp
  {
    Sum(sizes[..Min(rank * HeadsPerRank(|sizes|, tp), |sizes|)])
  }

  function RowEnd(sizes: seq<nat>, tp: nat, rank: nat): nat
    requires 0 < tp
  {
    var part := HeadsPerRank(|sizes|, tp);
    Sum(sizes[..Min(rank * part + part, |sizes|)])
  }

  lemma {:induction false} SumMonotone(sizes: seq<nat>, i: nat, j: nat)
    requires i <= j <= |sizes|
    ensures Sum(sizes[..i]) <= Sum(sizes[..j])
    decreases j
  {
    if i < j {
      assert sizes[..j][..j - 1] == sizes[..j - 1];
      SumMonotone(sizes, i, j - 1);
    }
  }

  lemma EnoughHeads(heads: nat, tp: nat)
    requires 0 < tp
    ensures heads <= tp * HeadsPerRank(heads, tp)
  {
    var q, r := (heads + tp - 1) / tp, (heads + tp - 1) % tp;
    assert heads + tp - 1 == tp * q + r;
  }

  lemma NoHeads(sizes: seq<nat>)
    ensures Sum(sizes[..0]) == 0
  {
  }

  lemma RankInside(sizes: seq<nat>, tp: nat, rank: nat)
    requires 0 < tp
    ensures RowStart(sizes, tp, rank) <= RowEnd(sizes, tp, rank) <= Sum(sizes)
  {
    hide Sum, HeadsPerRank;
    var n, first := |sizes|, rank * HeadsPerRank(|sizes|, tp);
    assert sizes[..n] == sizes;
    SumMonotone(sizes, Min(first, n), Min(first + HeadsPerRank(n, tp), n));
    SumMonotone(sizes, Min(first + HeadsPerRank(n, tp), n), n);
  }

  lemma RankJoins(sizes: seq<nat>, tp: nat, rank: nat)
    requires 0 < tp
    ensures RowEnd(sizes, tp, rank) == RowStart(sizes, tp, rank + 1)
  {
    hide Sum, HeadsPerRank;
    NumberTheory.Distribute(rank, 1, HeadsPerRank(|sizes|, tp));
  }

  lemma RanksEnd(sizes: seq<nat>, tp: nat)
    requires 0 < tp
    ensures RowStart(sizes, tp, 0) == 0 && RowStart(sizes, tp, tp) == Sum(sizes)
  {
    hide Sum, HeadsPerRank;
    NoHeads(sizes);
    EnoughHeads(|sizes|, tp);
    assert sizes[..|sizes|] == sizes;
  }

  /** The rank ranges tile [0, total): each starts where the previous one ends, ranks beyond
      the last head are empty, and the last one ends at the total. */
  lemma RanksTile(sizes: seq<nat>, tp: nat, rank: nat)
    requires 0 < tp && rank < tp
    ensures RowStart(sizes, tp, 0) == 0
    ensures RowStart(sizes, tp, rank) <= RowEnd(sizes, tp, rank) <= Sum(sizes)
    ensures RowEnd(sizes, tp, rank) == RowStart(sizes, tp, rank + 1)
    ensures RowEnd(sizes, tp, tp - 1) == RowStart(sizes, tp, tp) == Sum(sizes)
  {
    hide RowStart, RowEnd;
    RankInside(sizes, tp, rank);
    RankJoins(sizes, tp, rank);
    RankJoins(sizes, tp, tp - 1);
    RanksEnd(sizes, tp);
  }

  /** The heads are shared out evenly: every rank gets the same number, the least that suffices, as long as there
      are heads left. lo and hi say which heads a rank gets. */
  lemma RankHeads(sizes: seq<nat>, tp: nat, rank: nat) returns (part: nat, lo: nat, hi: nat)
    requires 0 < tp
    ensures |sizes| <= part * tp < |sizes| + tp
    ensures lo == Min(rank * part, |sizes|) && hi == Min((rank + 1) * part, |sizes|)
    ensures hi < |sizes| ==> hi - lo == part
    ensures RowStart(sizes, tp, rank) == Sum(sizes[..lo]) && RowEnd(sizes, tp, rank) == Sum(sizes[..hi])
    ensures RowEnd(sizes, tp, rank) - RowStart(sizes, tp, rank) == Sum(sizes[lo..hi])
  {
    hide Sum;
    part := HeadsPerRank(|sizes|, tp);
    EvenShare(|sizes|, tp);
    hide HeadsPerRank;
    NumberTheory.Distribute(rank, 1, part);
    lo, hi := Min(rank * part, |sizes|), Min((rank + 1) * part, |sizes|);
    assert sizes[..hi] == sizes[..lo] + sizes[lo..hi];
    SumJoins(sizes[..lo], sizes[lo..hi], 0);
  }

  lemma EvenShare(heads: nat, tp: nat)
    requires 0 < tp
    ensures heads <= HeadsPerRank(heads, tp) * tp < heads + tp
  {
    var q, r := (heads + tp - 1) / tp, (heads + tp - 1) % tp;
    assert heads + tp - 1 == q * tp + r;
  }

  // -------------------------------------------------------------- span copying

  /** Repeats short writes until all of data is in the file. */
  method WriteAll(dst: OutFile, data: seq<byte>)
    modifies dst
    ensures dst.data == old(dst.data) + data
  {
    var view := data;
    while view != []
      invariant dst.data + view == old(dst.data) + data
      decreases |view|
    {
      var wrote := dst.Write(view);
      assert view == view[..wrote] + view[wrote..];
      view := view[wrote..];
    }
  }

  /** Copies a byte span in bounded reads, whatever short writes the file makes. It fails
      exactly on a truncated source, and even then what was written is a faithful prefix. */
  method CopySpan(src: seq<byte>, dst: OutFile, offset: nat, count: nat, chunk: nat)
    returns (ok: bool, ghost copied: nat)
    requires 0 < chunk
    modifies dst
    ensures ok <==> count == 0 || offset + count <= |src|
    ensures copied <= count && (ok <==> copied == count)
    ensures copied > 0 ==> offset + copied <= |src|
    ensures dst.data == old(dst.data) + PRead(src, copied, offset)
  {
    hide PRead;
    var left: nat, pos: nat := count, offset;
    copied := 0;
    ReadNothing(src, offset);
    while left != 0
      invariant copied + left == count && pos == offset + copied
      invariant copied > 0 ==> offset + copied <= |src|
      invariant dst.data == old(dst.data) + PRead(src, copied, offset)
      decreases left
    {
      var n := if left <= chunk then left else chunk;
      var data := PRead(src, n, pos);
      ReadInFull(src, n, pos);
      if |data| != n {
        return false, copied;
      }
      WriteAll(dst, data);
      ReadExtend(src, offset, copied, n);
      pos, left, copied := pos + n, left - n, copied + n;
    }
    return true, copied;
  }

  // ------------------------------------------------------------ one rank's file

  datatype Entry = Entry(name: string, dtype: string, shape: seq<nat>, offset: nat, nbytes: nat)

  datatype Spec = Spec(name: string, dtype: string, shape: seq<nat>, srcOff: nat, nbytes: nat, dstOff: nat)

  function ItemSize(dtype: string): nat {
    if dtype == "U8" then 1 else if dtype == "BF16" then 2
    else if dtype == "U32" || dtype == "F32" then 4 else 0
  }

  function Product(shape: seq<nat>): nat {
    if shape == [] then 1 else shape[0] * Product(shape[1..])
  }

  /** The reader's own bounds and size checks on one header entry. */
  ghost predicate Readable(size: nat, e: Entry) {
    0 < ItemSize(e.dtype) && e.offset + e.nbytes <= size && e.nbytes == Product(e.shape) * ItemSize(e.dtype)
  }

  /** The reader takes an entry that ends inside the file and has one, two or four bytes per element. */
  lemma ReadableMeans(size: nat, e: Entry, n: nat, rest: seq<nat>)
    ensures Readable(size, e) <==>
            e.offset + e.nbytes <= size &&
            ((e.dtype == "U8" && e.nbytes == Product(e.shape)) ||
             (e.dtype == "BF16" && e.nbytes == 2 * Product(e.shape)) ||
             ((e.dtype == "U32" || e.dtype == "F32") && e.nbytes == 4 * Product(e.shape)))
    ensures Product([]) == 1 && Product([n] + rest) == n * Product(rest)
  {
    assert ([n] + rest)[1..] == rest;
  }

  predicate Embedded(e: Entry, prefix: string) {
    prefix <= e.name
  }

  predicate HasRows(e: Entry) {
    e.shape != [] && e.shape[0] != 0
  }

  /** Rows of an embedding tensor move to the rank; every other tensor is taken whole. */
  function LocalSpec(e: Entry, prefix: string, r0: nat, r1: nat, dstOff: nat): Spec
    requires r0 <= r1 && (Embedded(e, prefix) ==> HasRows(e))
  {
    if Embedded(e, prefix) then
      var stride := e.nbytes / e.shape[0];
      Spec(e.name, e.dtype, [r1 - r0] + e.shape[1..], e.offset + r0 * stride, (r1 - r0) * stride, dstOff)
    else
      Spec(e.name, e.dtype, e.shape, e.offset, e.nbytes, dstOff)
  }

  ghost predicate Splittable(es: seq<Entry>, prefix: string) {
    forall i :: 0 <= i < |es| && Embedded(es[i], prefix) ==> HasRows(es[i])
  }

  function TotalBytes(specs: seq<Spec>): nat {
    if specs == [] then 0 else TotalBytes(specs[..|specs| - 1]) + specs[|specs| - 1].nbytes
  }

  function Specs(es: seq<Entry>, prefix: string, r0: nat, r1: nat): (specs: seq<Spec>)
    requires r0 <= r1 && Splittable(es, prefix)
    ensures |specs| == |es|
  {
    if es == [] then [] else
      var before := Specs(es[..|es| - 1], prefix, r0, r1);
      before + [LocalSpec(es[|es| - 1], prefix, r0, r1, TotalBytes(before))]
  }

  /** A span of the source; empty when the span is empty, wherever it points. */
  function Span(src: seq<byte>, spec: Spec): (s: seq<byte>)
    requires Available(src, spec)
    ensures |s| == spec.nbytes
  {
    if spec.nbytes == 0 then [] else src[spec.srcOff..spec.srcOff + spec.nbytes]
  }

  predicate Available(src: seq<byte>, spec: Spec) {
    spec.nbytes == 0 || spec.srcOff + spec.nbytes <= |src|
  }

  ghost predicate AllAvailable(src: seq<byte>, specs: seq<Spec>) {
    forall i :: 0 <= i < |specs| ==> Available(src, specs[i])
  }

  ghost function Data(src: seq<byte>, specs: seq<Spec>): (d: seq<byte>)
    requires AllAvailable(src, specs)
    ensures |d| == TotalBytes(specs)
  {
    if specs == [] then [] else
      assert AllAvailable(src, specs[..|specs| - 1]);
      Data(src, specs[..|specs| - 1]) + Span(src, specs[|specs| - 1])
  }

  /** The JSON header is padded with spaces to a multiple of eight bytes. */
  function Padded(raw: seq<byte>): (h: seq<byte>)
    ensures |h| % 8 == 0 && raw <= h && |h| < |raw| + 8
  {
    raw + seq((8 - |raw| % 8) % 8, _ => 32)
  }

  ghost function RankFile(src: seq<byte>, specs: seq<Spec>, raw: seq<byte>): seq<byte>
    requires AllAvailable(src, specs)
  {
    LittleEndian(|Padded(raw)|, 8) + Padded(raw) + Data(src, specs)
  }

  datatype BuildResult =
    | Built(file: seq<byte>)
    | BadShape
    | Truncated(name: string)
    | NoWeight(file: seq<byte>)

  /** What the header text of a rank's file is made of: which rank of how many, the rows it holds, and the
      planned spans. */
  datatype Header = Header(rank: nat, tp: nat, r0: nat, r1: nat, specs: seq<Spec>)

  lemma NoSpecs(es: seq<Entry>, prefix: string, r0: nat, r1: nat)
    requires r0 <= r1
    ensures Specs(es[..0], prefix, r0, r1) == [] && TotalBytes([]) == 0
  {
  }

  lemma SpecsSnoc(es: seq<Entry>, prefix: string, r0: nat, r1: nat, k: nat)
    requires r0 <= r1 && k < |es| && Splittable(es[..k], prefix) && (Embedded(es[k], prefix) ==> HasRows(es[k]))
    ensures Splittable(es[..k + 1], prefix)
    ensures var before := Specs(es[..k], prefix, r0, r1);
            Specs(es[..k + 1], prefix, r0, r1) == before + [LocalSpec(es[k], prefix, r0, r1, TotalBytes(before))]
  {
    hide LocalSpec, TotalBytes, Embedded, HasRows;
    assert es[..k + 1][..k] == es[..k] && es[..k + 1][k] == es[k];
  }

  lemma TotalSnoc(specs: seq<Spec>, spec: Spec)
    ensures TotalBytes(specs + [spec]) == TotalBytes(specs) + spec.nbytes
  {
    assert (specs + [spec])[..|specs|] == specs;
  }

  /** Decides the local spans in entry order, with running destination offsets. */
  method PlanSpecs(es: seq<Entry>, prefix: string, r0: nat, r1: nat) returns (ok: bool, specs: seq<Spec>)
    requires r0 <= r1
    ensures ok <==> Splittable(es, prefix)
    ensures ok ==> specs == Specs(es, prefix, r0, r1)
  {
    hide LocalSpec, Specs, TotalBytes, Embedded, HasRows;
    specs := [];
    var off := 0;
    NoSpecs(es, prefix, r0, r1);
    for k := 0 to |es|
      invariant Splittable(es[..k], prefix) && specs == Specs(es[..k], prefix, r0, r1)
      invariant off == TotalBytes(specs)
    {
      if Embedded(es[k], prefix) && !HasRows(es[k]) {
        return false, specs;
      }
      var spec := LocalSpec(es[k], prefix, r0, r1, off);
      SpecsSnoc(es, prefix, r0, r1, k);
      TotalSnoc(specs, spec);
      specs, off := specs + [spec], off + spec.nbytes;
    }
    assert es[..|es|] == es;
    return true, specs;
  }

  /** Copies the planned spans one after another; stops at the first truncated one. */
  method CopyAll(src: seq<byte>, dst: OutFile, specs: seq<Spec>, chunk: nat) returns (done: nat)
    requires 0 < chunk
    modifies dst
    ensures done <= |specs| && AllAvailable(src, specs[..done])
    ensures done < |specs| ==> !Available(src, specs[done])
    ensures done == |specs| ==> AllAvailable(src, specs) && dst.data == old(dst.data) + Data(src, specs)
  {
    ghost var base := dst.data;
    done := 0;
    assert dst.data == base + Data(src, []);
    while done < |specs|
      invariant done <= |specs| && AllAvailable(src, specs[..done])
      invariant dst.data == base + Data(src, specs[..done])
    {
      ghost var copied;
      var ok;
      ok, copied := CopySpan(src, dst, specs[done].srcOff, specs[done].nbytes, chunk);
      if !ok {
        return;
      }
      DataStep(src, specs, done, base);
      done := done + 1;
    }
    assert specs[..|specs|] == specs;
  }

  lemma DataSnoc(src: seq<byte>, specs: seq<Spec>, k: nat)
    requires k < |specs| && AllAvailable(src, specs[..k]) && Available(src, specs[k])
    ensures AllAvailable(src, specs[..k + 1])
    ensures Data(src, specs[..k + 1]) == Data(src, specs[..k]) + Span(src, specs[k])
  {
    hide Span, Available;
    assert specs[..k + 1][..k] == specs[..k] && specs[..k + 1][k] == specs[k];
  }

  lemma DataStep(src: seq<byte>, specs: seq<Spec>, k: nat, base: seq<byte>)
    requires k < |specs| && AllAvailable(src, specs[..k]) && Available(src, specs[k])
    ensures AllAvailable(src, specs[..k + 1])
    ensures (base + Data(src, specs[..k])) + PRead(src, specs[k].nbytes, specs[k].srcOff)
            == base + Data(src, specs[..k + 1])
  {
    hide Data;
    DataSnoc(src, specs, k);
    var d, p := Data(src, specs[..k]), PRead(src, specs[k].nbytes, specs[k].srcOff);
    assert p == Span(src, specs[k]);
    assert (base + d) + p == base + (d + p);
  }

  /** A truncation is reported for the first tensor of which a needed byte lies past the end of the source. */
  lemma TruncatedGives(src: seq<byte>, es: seq<Entry>, prefix: string, r0: nat, r1: nat, k: nat, name: string)
    requires r0 <= r1 && Splittable(es, prefix) && FirstTruncated(src, Specs(es, prefix, r0, r1), k, name)
    ensures k < |es| && name == es[k].name
    ensures var e := es[k];
            if prefix <= e.name then
              e.shape != [] && e.shape[0] != 0 && r0 < r1 && e.offset + r1 * (e.nbytes / e.shape[0]) > |src|
            else e.nbytes > 0 && e.offset + e.nbytes > |src|
    ensures forall i :: 0 <= i < k && !(prefix <= es[i].name) && es[i].nbytes > 0
                        ==> es[i].offset + es[i].nbytes <= |src|
  {
    hide Specs;
    var specs := Specs(es, prefix, r0, r1);
    SpecGives(es, prefix, r0, r1, k);
    if prefix <= es[k].name {
      NumberTheory.Distribute(r1 - r0, r0, es[k].nbytes / es[k].shape[0]);
    }
    forall i | 0 <= i < k && !(prefix <= es[i].name) && es[i].nbytes > 0
      ensures es[i].offset + es[i].nbytes <= |src|
    {
      SpecGives(es, prefix, r0, r1, i);
      assert Available(src, specs[..k][i]);
    }
  }

  /** Span k, of the given tensor, is the first that the source does not hold. */
  ghost predicate FirstTruncated(src: seq<byte>, specs: seq<Spec>, k: nat, name: string) {
    k < |specs| && AllAvailable(src, specs[..k]) && !Available(src, specs[k]) && specs[k].name == name
  }

  /** The text of a header is a parameter; what it is made of and the layout it describes are not. A copied
      file has taken its place before its weight tensor is looked for; a truncated one never does. */
  method BuildOne(src: seq<byte>, es: seq<Entry>, prefix: string, r0: nat, r1: nat, rank: nat, tp: nat,
                  json: Header -> seq<byte>, chunk: nat)
    returns (result: BuildResult)
    requires r0 <= r1 && 0 < chunk
    ensures result.BadShape? <==> !Splittable(es, prefix)
    ensures result.BadShape? <==> exists i :: 0 <= i < |es| && prefix <= es[i].name
                                              && (es[i].shape == [] || es[i].shape[0] == 0)
    ensures result.Truncated? <==> Splittable(es, prefix) && !AllAvailable(src, Specs(es, prefix, r0, r1))
    ensures result.Truncated? ==> exists k :: FirstTruncated(src, Specs(es, prefix, r0, r1), k, result.name)
    ensures result.NoWeight? <==>
              Splittable(es, prefix) && AllAvailable(src, Specs(es, prefix, r0, r1)) &&
              forall i :: 0 <= i < |es| ==> es[i].name != prefix + "weight"
    ensures result.Built? || result.NoWeight? ==>
              var specs := Specs(es, prefix, r0, r1);
              result.file == RankFile(src, specs, json(Header(rank, tp, r0, r1, specs)))
  {
    var ok, specs := PlanSpecs(es, prefix, r0, r1);
    if !ok {
      return BadShape;
    }
    var raw := Padded(json(Header(rank, tp, r0, r1, specs)));
    var dst := new OutFile();
    WriteAll(dst, LittleEndian(|raw|, 8));
    WriteAll(dst, raw);
    ghost var head := LittleEndian(|raw|, 8) + raw;
    assert dst.data == head;
    var done := CopyAll(src, dst, specs, chunk);
    if done < |specs| {
      assert FirstTruncated(src, specs, done, specs[done].name);
      return Truncated(specs[done].name);
    }
    if !HasName(es, prefix + "weight") {
      return NoWeight(dst.data);
    }
    return Built(dst.data);
  }

  predicate HasName(es: seq<Entry>, name: string) {
    exists i :: 0 <= i < |es| && es[i].name == name
  }

  // --------------------------------------------- what a reader finds in the file

  lemma {:induction false} SpecAt(es: seq<Entry>, prefix: string, r0: nat, r1: nat, i: nat)
    requires r0 <= r1 && Splittable(es, prefix) && i < |es|
    ensures var specs := Specs(es, prefix, r0, r1);
            specs[i] == LocalSpec(es[i], prefix, r0, r1, TotalBytes(specs[..i]))
    decreases |es|
  {
    var k := |es| - 1;
    var before := Specs(es[..k], prefix, r0, r1);
    assert Specs(es, prefix, r0, r1)[..k] == before;
    if i < k {
      SpecAt(es[..k], prefix, r0, r1, i);
      assert Specs(es, prefix, r0, r1)[..i] == before[..i];
    }
  }

  lemma SpecOffset(es: seq<Entry>, prefix: string, r0: nat, r1: nat, i: nat)
    requires r0 <= r1 && Splittable(es, prefix) && i < |es|
    ensures var specs := Specs(es, prefix, r0, r1); specs[i].dstOff == TotalBytes(specs[..i])
  {
    hide Specs, TotalBytes;
    SpecAt(es, prefix, r0, r1, i);
  }

  lemma {:induction false} DataAt(src: seq<byte>, specs: seq<Spec>, i: nat)
    requires AllAvailable(src, specs) && i < |specs|
    ensures TotalBytes(specs[..i]) + specs[i].nbytes <= TotalBytes(specs)
    ensures Data(src, specs)[TotalBytes(specs[..i])..TotalBytes(specs[..i]) + specs[i].nbytes] == Span(src, specs[i])
    decreases |specs|
  {
    hide Data, Span, Available;
    var k := |specs| - 1;
    var before := specs[..k];
    assert AllAvailable(src, before);
    var front, back := Data(src, before), Span(src, specs[k]);
    DataSnoc(src, specs, k);
    assert specs[..k + 1] == specs;
    if i < k {
      DataAt(src, before, i);
      assert before[..i] == specs[..i];
    } else {
      assert back[0..|back|] == back;
    }
  }

  /** Where the reader looks for tensor i: past the length word and the padded header. */
  function TensorStart(raw: seq<byte>, spec: Spec): nat {
    8 + |Padded(raw)| + spec.dstOff
  }

  /** A tensor's bytes divide evenly into its rows. */
  lemma RowBytes(e: Entry, rows: nat)
    requires HasRows(e) && e.nbytes == Product(e.shape) * ItemSize(e.dtype)
    ensures e.nbytes == e.shape[0] * (e.nbytes / e.shape[0])
    ensures rows * (e.nbytes / e.shape[0]) == Product([rows] + e.shape[1..]) * ItemSize(e.dtype)
  {
    var rest := Product(e.shape[1..]) * ItemSize(e.dtype);
    assert ([rows] + e.shape[1..])[1..] == e.shape[1..];
    assert Product([rows] + e.shape[1..]) == rows * Product(e.shape[1..]);
    assert Product(e.shape) == e.shape[0] * Product(e.shape[1..]);
    hide Product, ItemSize;
    NumberTheory.Associate(e.shape[0], Product(e.shape[1..]), ItemSize(e.dtype));
    NumberTheory.Associate(rows, Product(e.shape[1..]), ItemSize(e.dtype));
    DivideExact(e.shape[0], rest);
  }

  lemma DivideExact(d: nat, q: nat)
    requires 0 < d
    ensures (d * q) / d == q
  {
    NumberTheory.DivModUnique(d * q, d, q, 0);
  }

  ghost predicate PartAt(s: seq<byte>, cuts: seq<nat>, parts: seq<seq<byte>>, k: nat)
    requires |cuts| == |parts| + 1 && k < |parts|
  {
    cuts[k] <= cuts[k + 1] <= |s| && parts[k] == s[cuts[k]..cuts[k + 1]]
  }

  lemma {:induction false} ConcatSlices(s: seq<byte>, cuts: seq<nat>, parts: seq<seq<byte>>)
    requires |cuts| == |parts| + 1 && cuts[0] == 0 <= cuts[|parts|] <= |s|
    requires forall k :: 0 <= k < |parts| ==> PartAt(s, cuts, parts, k)
    ensures Concat(parts) == s[..cuts[|parts|]]
    decreases |parts|
  {
    var n := |parts|;
    if n > 0 {
      assert PartAt(s, cuts, parts, n - 1);
      var cuts', parts' := cuts[..n], parts[..n - 1];
      forall k | 0 <= k < n - 1 ensures PartAt(s, cuts', parts', k) {
        assert PartAt(s, cuts, parts, k);
      }
      ConcatSlices(s, cuts', parts');
    }
  }

  lemma RowRange(e: Entry, r0: nat, r1: nat, stride: nat)
    requires HasRows(e) && e.nbytes == Product(e.shape) * ItemSize(e.dtype) && r0 <= r1 <= e.shape[0]
    requires stride == e.nbytes / e.shape[0]
    ensures r0 * stride <= r1 * stride <= e.nbytes && (r1 - r0) * stride == r1 * stride - r0 * stride
  {
    RowBytes(e, r1);
    RowsWithin(r0, r1, e.shape[0], stride);
  }

  /** The local rows of one embedding tensor are a slice of its bytes. */
  lemma LocalRows(src: seq<byte>, e: Entry, prefix: string, r0: nat, r1: nat, dstOff: nat, stride: nat, spec: Spec)
    requires Readable(|src|, e) && Embedded(e, prefix) && HasRows(e) && r0 <= r1 <= e.shape[0]
    requires stride == e.nbytes / e.shape[0] && spec == LocalSpec(e, prefix, r0, r1, dstOff)
    ensures r0 * stride <= r1 * stride <= e.nbytes && Available(src, spec)
    ensures Span(src, spec) == src[e.offset..e.offset + e.nbytes][r0 * stride..r1 * stride]
  {
    RowRange(e, r0, r1, stride);
    SpanAsSlice(src, e, spec, r0 * stride, r1 * stride);
  }

  lemma SpanAsSlice(src: seq<byte>, e: Entry, spec: Spec, a: nat, b: nat)
    requires e.offset + e.nbytes <= |src| && a <= b <= e.nbytes
    requires spec.srcOff == e.offset + a && spec.nbytes == b - a
    ensures Available(src, spec) && Span(src, spec) == src[e.offset..e.offset + e.nbytes][a..b]
  {
    SliceOfSlice(src, e.offset, e.nbytes, a, b);
  }

  /** The length word of the file decodes, and the data starts eight-byte aligned. */
  lemma LengthWordReads(src: seq<byte>, specs: seq<Spec>, raw: seq<byte>)
    requires AllAvailable(src, specs) && |Padded(raw)| < NumberTheory.Pow(256, 8)
    ensures |RankFile(src, specs, raw)| == 8 + |Padded(raw)| + TotalBytes(specs)
    ensures FromLittleEndian(RankFile(src, specs, raw)[..8]) == |Padded(raw)|
    ensures (8 + |Padded(raw)|) % 8 == 0
  {
    LittleEndianRoundTrip(|Padded(raw)|, 8);
    assert RankFile(src, specs, raw)[..8] == LittleEndian(|Padded(raw)|, 8);
  }

  lemma FileSpan(src: seq<byte>, specs: seq<Spec>, raw: seq<byte>, i: nat)
    requires AllAvailable(src, specs) && i < |specs| && specs[i].dstOff == TotalBytes(specs[..i])
    ensures var file, at := RankFile(src, specs, raw), TensorStart(raw, specs[i]);
            at + specs[i].nbytes <= |file| && file[at..at + specs[i].nbytes] == Span(src, specs[i])
  {
    hide Data, Span, LittleEndian, Padded, AllAvailable, TotalBytes;
    DataAt(src, specs, i);
  }

  /** The tensor's bytes in the file are exactly the planned source span. */
  lemma SpanReads(src: seq<byte>, es: seq<Entry>, prefix: string, r0: nat, r1: nat, raw: seq<byte>, i: nat)
    requires r0 <= r1 && Splittable(es, prefix) && i < |es|
    requires AllAvailable(src, Specs(es, prefix, r0, r1))
    ensures var specs := Specs(es, prefix, r0, r1);
            var file, at := RankFile(src, specs, raw), TensorStart(raw, specs[i]);
            at + specs[i].nbytes <= |file| && file[at..at + specs[i].nbytes] == Span(src, specs[i])
  {
    hide RankFile, TensorStart, Span, LocalSpec, TotalBytes, AllAvailable, Embedded, HasRows;
    SpecOffset(es, prefix, r0, r1, i);
    FileSpan(src, Specs(es, prefix, r0, r1), raw, i);
  }

  /** Every entry of the re-opened file passes the reader's own checks under its own name. */
  lemma EntryReads(src: seq<byte>, es: seq<Entry>, prefix: string, r0: nat, r1: nat, raw: seq<byte>, i: nat)
    requires r0 <= r1 && Splittable(es, prefix) && i < |es| && Readable(|src|, es[i])
    requires AllAvailable(src, Specs(es, prefix, r0, r1))
    ensures var specs := Specs(es, prefix, r0, r1);
            var at := TensorStart(raw, specs[i]);
            specs[i].name == es[i].name &&
            Readable(|RankFile(src, specs, raw)|,
                     Entry(specs[i].name, specs[i].dtype, specs[i].shape, at, specs[i].nbytes))
  {
    SpanReads(src, es, prefix, r0, r1, raw, i);
    SpecAt(es, prefix, r0, r1, i);
    LocalSizes(es[i], prefix, r0, r1, Specs(es, prefix, r0, r1)[i]);
  }

  lemma LocalSizes(e: Entry, prefix: string, r0: nat, r1: nat, spec: Spec)
    requires r0 <= r1 && (Embedded(e, prefix) ==> HasRows(e)) && e.nbytes == Product(e.shape) * ItemSize(e.dtype)
    requires spec == LocalSpec(e, prefix, r0, r1, spec.dstOff)
    ensures spec.name == e.name && spec.dtype == e.dtype
    ensures spec.nbytes == Product(spec.shape) * ItemSize(spec.dtype)
  {
    if Embedded(e, prefix) {
      RowBytes(e, r1 - r0);
    }
  }

  // ------------------------------------------------------ what a planned span is

  /** What the plan says of one tensor: rows r0 to r1 when its name begins with the prefix, all of it otherwise; the
      destinations follow each other without a gap. */
  lemma SpecGives(es: seq<Entry>, prefix: string, r0: nat, r1: nat, i: nat)
    requires r0 <= r1 && Splittable(es, prefix) && i < |es|
    ensures var e, specs := es[i], Specs(es, prefix, r0, r1);
            var spec := specs[i];
            spec.name == e.name && spec.dtype == e.dtype
            && spec.dstOff == (if i == 0 then 0 else specs[i - 1].dstOff + specs[i - 1].nbytes)
            && if prefix <= e.name then
              e.shape != [] && e.shape[0] != 0 && spec.shape == [r1 - r0] + e.shape[1..]
              && spec.srcOff == e.offset + r0 * (e.nbytes / e.shape[0])
              && spec.nbytes == (r1 - r0) * (e.nbytes / e.shape[0])
            else
              spec.shape == e.shape && spec.srcOff == e.offset && spec.nbytes == e.nbytes
  {
    hide Specs, TotalBytes;
    var specs := Specs(es, prefix, r0, r1);
    SpecAt(es, prefix, r0, r1, i);
    if i > 0 {
      SpecAt(es, prefix, r0, r1, i - 1);
      assert specs[..i] == specs[..i - 1] + [specs[i - 1]];
      TotalSnoc(specs[..i - 1], specs[i - 1]);
    } else {
      assert specs[..0] == [];
      NoBytes();
    }
  }

  lemma NoBytes()
    ensures TotalBytes([]) == 0
  {
  }

  /** The written file byte by byte: the length of the padded header, its text and spaces up to a multiple of
      eight, and from there on every span at its offset. */
  lemma FileGives(src: seq<byte>, es: seq<Entry>, prefix: string, r0: nat, r1: nat, raw: seq<byte>, i: nat)
    returns (n: nat)
    requires r0 <= r1 && Splittable(es, prefix) && i < |es| && AllAvailable(src, Specs(es, prefix, r0, r1))
    ensures var file := RankFile(src, Specs(es, prefix, r0, r1), raw);
            |raw| <= n < |raw| + 8 && n % 8 == 0 && 8 + n <= |file| && file[..8] == LittleEndian(n, 8)
            && file[8..8 + |raw|] == raw && forall k :: 8 + |raw| <= k < 8 + n ==> file[k] == 32
    ensures var file, spec := RankFile(src, Specs(es, prefix, r0, r1), raw), Specs(es, prefix, r0, r1)[i];
            var at := 8 + n + spec.dstOff;
            at + spec.nbytes <= |file| &&
            (spec.nbytes > 0 ==>
               spec.srcOff + spec.nbytes <= |src| &&
               file[at..at + spec.nbytes] == src[spec.srcOff..spec.srcOff + spec.nbytes])
  {
    hide Specs, LittleEndian, Data;
    var specs := Specs(es, prefix, r0, r1);
    n := |Padded(raw)|;
    SpanReads(src, es, prefix, r0, r1, raw, i);
    assert Available(src, specs[i]);
    HeadGives(LittleEndian(n, 8), raw, Data(src, specs));
  }

  lemma HeadGives(word: seq<byte>, raw: seq<byte>, data: seq<byte>)
    requires |word| == 8
    ensures var file := word + Padded(raw) + data;
            file[..8] == word && file[8..8 + |raw|] == raw
            && forall k :: 8 + |raw| <= k < 8 + |Padded(raw)| ==> file[k] == 32
  {
  }

  // ------------------------------------------------------ nothing lost, nothing doubled

  /** One layer's split: the source file and its entries, the head sizes that decide the
      row ranges, the number of ranks, and the header text of each rank's file. */
  datatype Split = Split(src: seq<byte>, es: seq<Entry>, prefix: string, sizes: seq<nat>, tp: nat, raws: seq<seq<byte>>)
  {
    /** A readable source whose embedding tensors have one row per embedding of the layer. */
    ghost predicate Clean() {
      0 < tp == |raws| && Splittable(es, prefix) &&
      forall i :: 0 <= i < |es| ==>
        Readable(|src|, es[i]) && (Embedded(es[i], prefix) ==> es[i].shape[0] == Sum(sizes))
    }

    function Tensor(i: nat): seq<byte>
      requires i < |es| && es[i].offset + es[i].nbytes <= |src|
    {
      src[es[i].offset..es[i].offset + es[i].nbytes]
    }

    function Stride(i: nat): nat
      requires i < |es| && HasRows(es[i])
    {
      es[i].nbytes / es[i].shape[0]
    }

    ghost function RankSpecs(rank: nat): (specs: seq<Spec>)
      requires Clean() && rank < tp
      ensures AllAvailable(src, specs) && |specs| == |es|
    {
      RanksTile(sizes, tp, rank);
      SpansInside(rank);
      Specs(es, prefix, RowStart(sizes, tp, rank), RowEnd(sizes, tp, rank))
    }

    /** The bytes of tensor i as read back from the file of one rank. */
    ghost function RankTensor(rank: nat, i: nat): seq<byte>
      requires Clean() && rank < tp && i < |es|
    {
      var spec := RankSpecs(rank)[i];
      var at := TensorStart(raws[rank], spec);
      RanksTile(sizes, tp, rank);
      SpanReads(src, es, prefix, RowStart(sizes, tp, rank), RowEnd(sizes, tp, rank), raws[rank], i);
      RankFile(src, RankSpecs(rank), raws[rank])[at..at + spec.nbytes]
    }

    /** parts[rank] is what the file of that rank holds of tensor i. */
    ghost predicate IsPart(parts: seq<seq<byte>>, rank: nat, i: nat)
      requires Clean() && rank < tp && rank < |parts| && i < |es|
    {
      parts[rank] == RankTensor(rank, i)
    }

    lemma SpansInside(rank: nat)
      requires Clean() && rank < tp && RowStart(sizes, tp, rank) <= RowEnd(sizes, tp, rank)
      ensures AllAvailable(src, Specs(es, prefix, RowStart(sizes, tp, rank), RowEnd(sizes, tp, rank)))
    {
      var r0, r1 := RowStart(sizes, tp, rank), RowEnd(sizes, tp, rank);
      var specs := Specs(es, prefix, r0, r1);
      RanksTile(sizes, tp, rank);
      forall i | 0 <= i < |specs| ensures Available(src, specs[i]) {
        SpecAt(es, prefix, r0, r1, i);
        assert Readable(|src|, es[i]);
        if Embedded(es[i], prefix) {
          LocalRows(src, es[i], prefix, r0, r1, TotalBytes(specs[..i]), Stride(i), specs[i]);
        }
      }
    }

    /** The byte range of tensor i that one rank holds. */
    function First(rank: nat, i: nat): nat
      requires 0 < tp && i < |es| && (Embedded(es[i], prefix) ==> HasRows(es[i]))
    {
      if Embedded(es[i], prefix) then RowStart(sizes, tp, rank) * Stride(i) else 0
    }

    function Past(rank: nat, i: nat): nat
      requires 0 < tp && i < |es| && (Embedded(es[i], prefix) ==> HasRows(es[i]))
    {
      if Embedded(es[i], prefix) then RowEnd(sizes, tp, rank) * Stride(i) else es[i].nbytes
    }

    /** The planned span of a rank lies inside the tensor, at that rank's byte range. */
    lemma PlannedSpan(rank: nat, i: nat)
      requires Clean() && rank < tp && i < |es|
      ensures First(rank, i) <= Past(rank, i) <= es[i].nbytes
      ensures Span(src, RankSpecs(rank)[i]) == Tensor(i)[First(rank, i)..Past(rank, i)]
    {
      var r0, r1 := RowStart(sizes, tp, rank), RowEnd(sizes, tp, rank);
      RanksTile(sizes, tp, rank);
      SpecAt(es, prefix, r0, r1, i);
      assert Readable(|src|, es[i]);
      var dstOff := TotalBytes(RankSpecs(rank)[..i]);
      if Embedded(es[i], prefix) {
        LocalRows(src, es[i], prefix, r0, r1, dstOff, Stride(i), RankSpecs(rank)[i]);
      } else {
        assert Span(src, RankSpecs(rank)[i]) == Tensor(i);
      }
    }

    /** One rank's copy of a tensor: its own rows of an embedding, all of anything else. */
    lemma RankTensorIs(rank: nat, i: nat)
      requires Clean() && rank < tp && i < |es|
      ensures First(rank, i) <= Past(rank, i) <= es[i].nbytes
      ensures RankTensor(rank, i) == Tensor(i)[First(rank, i)..Past(rank, i)]
    {
      RanksTile(sizes, tp, rank);
      SpansInside(rank);
      SpanReads(src, es, prefix, RowStart(sizes, tp, rank), RowEnd(sizes, tp, rank), raws[rank], i);
      PlannedSpan(rank, i);
    }

    lemma NextRankFollows(rank: nat, i: nat)
      requires Clean() && rank < tp && i < |es| && Embedded(es[i], prefix)
      ensures First(0, i) == 0 && Past(rank, i) == First(rank + 1, i)
      ensures First(tp, i) == es[i].nbytes
    {
      RanksTile(sizes, tp, rank);
      assert Readable(|src|, es[i]);
      RowBytes(es[i], 0);
    }

    ghost function Cuts(ranks: nat, i: nat): (cuts: seq<nat>)
      requires 0 < tp && i < |es| && (Embedded(es[i], prefix) ==> HasRows(es[i]))
      ensures |cuts| == ranks + 1 && forall rank :: 0 <= rank <= ranks ==> cuts[rank] == First(rank, i)
    {
      if ranks == 0 then [First(0, i)] else Cuts(ranks - 1, i) + [First(ranks, i)]
    }

    lemma PartIsSlice(parts: seq<seq<byte>>, cuts: seq<nat>, rank: nat, i: nat)
      requires Clean() && rank < tp == |parts| && i < |es| && Embedded(es[i], prefix)
      requires IsPart(parts, rank, i) && |cuts| == tp + 1
      requires cuts[rank] == First(rank, i) && cuts[rank + 1] == First(rank + 1, i)
      ensures PartAt(Tensor(i), cuts, parts, rank)
    {
      RankTensorIs(rank, i);
      NextRankFollows(rank, i);
    }

    /** Every tensor survives the split: embedding rows joined over the ranks give back the
        source tensor, and all other tensors are whole in every rank's file. */
    lemma Lossless(parts: seq<seq<byte>>, i: nat)
      requires Clean() && |parts| == tp && i < |es|
      requires forall rank :: 0 <= rank < tp ==> IsPart(parts, rank, i)
      ensures Embedded(es[i], prefix) ==> Concat(parts) == Tensor(i)
      ensures !Embedded(es[i], prefix) ==> forall rank :: 0 <= rank < tp ==> parts[rank] == Tensor(i)
    {
      hide IsPart, Concat, Embedded;
      if Embedded(es[i], prefix) {
        EmbeddingJoins(parts, i);
      } else {
        forall rank | 0 <= rank < tp ensures parts[rank] == Tensor(i) {
          WholeOnRank(parts, rank, i);
        }
      }
    }

    lemma EmbeddingJoins(parts: seq<seq<byte>>, i: nat)
      requires Clean() && |parts| == tp && i < |es| && Embedded(es[i], prefix)
      requires es[i].offset + es[i].nbytes <= |src| && forall rank :: 0 <= rank < tp ==> IsPart(parts, rank, i)
      ensures Concat(parts) == Tensor(i)
    {
      hide Concat, IsPart, PartAt, First, Embedded;
      var cuts := Cuts(tp, i);
      forall rank | 0 <= rank < tp ensures PartAt(Tensor(i), cuts, parts, rank) {
        PartIsSlice(parts, cuts, rank, i);
      }
      NextRankFollows(0, i);
      ConcatSlices(Tensor(i), cuts, parts);
      assert Tensor(i)[..es[i].nbytes] == Tensor(i);
    }

    lemma WholeOnRank(parts: seq<seq<byte>>, rank: nat, i: nat)
      requires Clean() && rank < tp == |parts| && i < |es| && !Embedded(es[i], prefix) && IsPart(parts, rank, i)
      ensures es[i].offset + es[i].nbytes <= |src| && parts[rank] == Tensor(i)
    {
      hide RankTensor, Embedded;
      RankTensorIs(rank, i);
    }
  }

  lemma RowsWithin(r0: nat, r1: nat, rows: nat, stride: nat)
    requires r0 <= r1 <= rows
    ensures r0 * stride <= r1 * stride <= rows * stride
    ensures r0 * stride + (r1 - r0) * stride == r1 * stride
  {
    assert 0 <= (r1 - r0) * stride && 0 <= (rows - r1) * stride;
  }

  ghost function RankHeader(split: Split, rank: nat): Header
    requires split.Clean() && rank < split.tp
  {
    var r0, r1 := RowStart(split.sizes, split.tp, rank), RowEnd(split.sizes, split.tp, rank);
    Header(rank, split.tp, r0, r1, split.RankSpecs(rank))
  }

  /** The files of the first ranks, each built from its own row range under its own header. */
  ghost function RankFiles(split: Split, ranks: nat, json: Header -> seq<byte>): (files: seq<seq<byte>>)
    requires split.Clean() && ranks <= split.tp
    ensures |files| == ranks
  {
    if ranks == 0 then [] else
      RankFiles(split, ranks - 1, json)
      + [RankFile(split.src, split.RankSpecs(ranks - 1), json(RankHeader(split, ranks - 1)))]
  }

  method BuildRank(split: Split, rank: nat, json: Header -> seq<byte>, chunk: nat) returns (file: seq<byte>)
    requires split.Clean() && HasName(split.es, split.prefix + "weight") && 0 < chunk && rank < split.tp
    ensures file == RankFile(split.src, split.RankSpecs(rank), json(RankHeader(split, rank)))
  {
    var r0, r1 := RowStart(split.sizes, split.tp, rank), RowEnd(split.sizes, split.tp, rank);
    RanksTile(split.sizes, split.tp, rank);
    split.SpansInside(rank);
    var result := BuildOne(split.src, split.es, split.prefix, r0, r1, rank, split.tp, json, chunk);
    file := result.file;
  }

  /** All ranks of one layer in turn. A clean source with a weight tensor never fails. */
  method PartitionLayer(split: Split, json: Header -> seq<byte>, chunk: nat)
    returns (files: seq<seq<byte>>)
    requires split.Clean() && HasName(split.es, split.prefix + "weight") && 0 < chunk
    ensures files == RankFiles(split, split.tp, json)
  {
    files := [];
    for rank := 0 to split.tp
      invariant files == RankFiles(split, rank, json)
    {
      var file := BuildRank(split, rank, json, chunk);
      files := files + [file];
    }
  }

  /** What a reader of rank file k finds of tensor i, at the offset its header text gives. */
  ghost predicate ReadFrom(split: Split, json: Header -> seq<byte>, files: seq<seq<byte>>, parts: seq<seq<byte>>,
                           rank: nat, i: nat)
    requires split.Clean() && rank < split.tp == |files| == |parts| && i < |split.es|
  {
    var spec := split.RankSpecs(rank)[i];
    var at := TensorStart(json(RankHeader(split, rank)), spec);
    at + spec.nbytes <= |files[rank]| && parts[rank] == files[rank][at..at + spec.nbytes]
  }

  lemma {:induction false} RankFileAt(split: Split, ranks: nat, json: Header -> seq<byte>, rank: nat)
    requires split.Clean() && rank < ranks <= split.tp
    ensures RankFiles(split, ranks, json)[rank]
            == RankFile(split.src, split.RankSpecs(rank), json(RankHeader(split, rank)))
    decreases ranks
  {
    hide split.Clean, RankFile, RankHeader, Split.RankSpecs;
    if rank < ranks - 1 {
      RankFileAt(split, ranks - 1, json, rank);
    }
  }

  /** The files of a partitioned layer hold every tensor: what is read of it from all ranks' files, each at the
      place its own header gives, joins to an embedding and is the whole of any other tensor. */
  lemma FilesLossless(split: Split, json: Header -> seq<byte>, parts: seq<seq<byte>>, i: nat)
    requires split.Clean() && |parts| == split.tp && i < |split.es|
    requires forall rank :: 0 <= rank < split.tp ==>
               ReadFrom(split, json, RankFiles(split, split.tp, json), parts, rank, i)
    ensures split.es[i].offset + split.es[i].nbytes <= |split.src|
    ensures Embedded(split.es[i], split.prefix) ==> Concat(parts) == split.Tensor(i)
    ensures !Embedded(split.es[i], split.prefix) ==>
              forall rank :: 0 <= rank < split.tp ==> parts[rank] == split.Tensor(i)
  {
    hide Concat, Embedded, RankFile, TensorStart, RankFiles, RankHeader;
    var headed := split.(raws := seq(split.tp, rank requires 0 <= rank < split.tp => json(RankHeader(split, rank))));
    assert headed.Clean();
    forall rank | 0 <= rank < split.tp ensures headed.IsPart(parts, rank, i) {
      assert ReadFrom(split, json, RankFiles(split, split.tp, json), parts, rank, i);
      RankFileAt(split, split.tp, json, rank);
    }
    headed.Lossless(parts, i);
  }

  /** The span of a rank in terms of the source: bytes a to b of the tensor are its own rows, or all. */
  lemma SpanGives(split: Split, rank: nat, i: nat, r0: nat, r1: nat, e: Entry) returns (stride: nat, a: nat, b: nat)
    requires split.Clean() && rank < split.tp && i < |split.es| && e == split.es[i]
    requires r0 == RowStart(split.sizes, split.tp, rank) && r1 == RowEnd(split.sizes, split.tp, rank)
    ensures a <= b <= e.nbytes && e.offset + e.nbytes <= |split.src|
    ensures split.prefix <= e.name ==>
              e.shape != [] && e.shape[0] == Sum(split.sizes) && e.shape[0] * stride == e.nbytes
              && a == r0 * stride && b == r1 * stride
    ensures !(split.prefix <= e.name) ==> a == 0 && b == e.nbytes
    ensures Span(split.src, split.RankSpecs(rank)[i]) == split.src[e.offset + a..e.offset + b]
  {
    hide Sum, Span, Specs, Split.RankSpecs;
    split.PlannedSpan(rank, i);
    assert Readable(|split.src|, split.es[i]);
    assert Embedded(split.es[i], split.prefix) ==> HasRows(split.es[i]);
    a, b := split.First(rank, i), split.Past(rank, i);
    stride := if Embedded(e, split.prefix) then split.Stride(i) else 0;
    if Embedded(e, split.prefix) {
      RowBytes(e, 0);
    }
    hide split.Clean, RowStart, RowEnd, Readable;
    SliceOfSlice(split.src, e.offset, e.nbytes, a, b);
  }

  /** What stands in the file of a rank, at the place its own header gives for tensor i: the rows of the heads lo
      to hi of an embedding, and all of any other tensor. */
  lemma RankFileGives(split: Split, json: Header -> seq<byte>, rank: nat, i: nat, e: Entry)
    returns (n: nat, lo: nat, hi: nat, stride: nat, a: nat, b: nat)
    requires split.Clean() && rank < split.tp && i < |split.es| && e == split.es[i]
    ensures var h := RankHeader(split, rank);
            h.rank == rank && h.tp == split.tp && |h.specs| == |split.es| && lo <= hi <= |split.sizes|
            && h.r0 == Sum(split.sizes[..lo]) && h.r1 == Sum(split.sizes[..hi])
            && (split.prefix <= e.name ==> a == h.r0 * stride && b == h.r1 * stride)
    ensures split.prefix <= e.name ==>
              e.shape != [] && e.shape[0] == Sum(split.sizes) && e.shape[0] * stride == e.nbytes
    ensures !(split.prefix <= e.name) ==> a == 0 && b == e.nbytes
    ensures a <= b <= e.nbytes && e.offset + e.nbytes <= |split.src|
    ensures var file, raw := RankFiles(split, split.tp, json)[rank], json(RankHeader(split, rank));
            |raw| <= n < |raw| + 8 && n % 8 == 0 && 8 + n <= |file| && file[..8] == LittleEndian(n, 8)
            && file[8..8 + |raw|] == raw
    ensures var file, spec := RankFiles(split, split.tp, json)[rank], RankHeader(split, rank).specs[i];
            var at := 8 + n + spec.dstOff;
            at + spec.nbytes <= |file| && file[at..at + spec.nbytes] == split.src[e.offset + a..e.offset + b]
  {
    hide Sum, Span, RankFile, Specs, LittleEndian, split.Clean, RankFiles, Split.RankSpecs, RowStart, RowEnd;
    var raw := json(RankHeader(split, rank));
    var part;
    part, lo, hi := RankHeads(split.sizes, split.tp, rank);
    RankFileAt(split, split.tp, json, rank);
    n := BuiltGives(split, rank, raw, i);
    stride, a, b := SpanGives(split, rank, i, RankHeader(split, rank).r0, RankHeader(split, rank).r1, e);
  }

  lemma BuiltGives(split: Split, rank: nat, raw: seq<byte>, i: nat) returns (n: nat)
    requires split.Clean() && rank < split.tp && i < |split.es|
    ensures var file, spec := RankFile(split.src, split.RankSpecs(rank), raw), split.RankSpecs(rank)[i];
            |raw| <= n < |raw| + 8 && n % 8 == 0 && 8 + n <= |file| && file[..8] == LittleEndian(n, 8)
            && file[8..8 + |raw|] == raw && 8 + n + spec.dstOff + spec.nbytes <= |file|
            && file[8 + n + spec.dstOff..8 + n + spec.dstOff + spec.nbytes] == Span(split.src, spec)
  {
    hide Specs, RankFile, LittleEndian;
    RanksTile(split.sizes, split.tp, rank);
    var r0, r1 := RowStart(split.sizes, split.tp, rank), RowEnd(split.sizes, split.tp, rank);
    split.SpansInside(rank);
    n := FileGives(split.src, split.es, split.prefix, r0, r1, raw, i);
    assert Available(split.src, split.RankSpecs(rank)[i]);
  }
}
