/** Bytes, files that grow by short writes, and little-endian words. */
module Bytes {
  import NumberTheory

  type byte = b: int | 0 <= b < 256

  function LittleEndian(value: nat, width: nat): (s: seq<byte>)
    ensures |s| == width
  {
    if width == 0 then [] else [value % 256] + LittleEndian(value / 256, width - 1)
  }

  function FromLittleEndian(s: seq<byte>): nat {
    if s == [] then 0 else s[0] + 256 * FromLittleEndian(s[1..])
  }

  /** Byte k of a little-endian word is digit k to base 256. */
  lemma {:induction false} LittleEndianDigit(value: nat, width: nat, k: nat)
    requires k < width
    ensures 0 < NumberTheory.Pow(256, k) && LittleEndian(value, width)[k] == value / NumberTheory.Pow(256, k) % 256
  {
    if k > 0 {
      LittleEndianDigit(value / 256, width - 1, k - 1);
      NumberTheory.PowPositive(256, k - 1);
      DivideTwice(value, NumberTheory.Pow(256, k - 1));
    }
  }

  lemma DivideTwice(n: nat, p: nat)
    requires 0 < p
    ensures (n / 256) / p == n / (256 * p)
  {
    var q, r := (n / 256) / p, (n / 256) % p;
    assert n / 256 == q * p + r;
    NumberTheory.Distribute(q * p, r, 256);
    NumberTheory.Associate(q, p, 256);
    NumberTheory.MulMonotone(r + 1, p, 256);
    NumberTheory.DivModUnique(n, 256 * p, q, 256 * r + n % 256);
  }

  lemma FromLittleEndianStep(s: seq<byte>)
    requires s != []
    ensures FromLittleEndian(s) == s[0] + 256 * FromLittleEndian(s[1..])
    ensures FromLittleEndian(s) % 256 == s[0] && FromLittleEndian(s) / 256 == FromLittleEndian(s[1..])
  {
  }

  lemma PowStep(a: nat, k: nat)
    requires 0 < a
    ensures 0 < NumberTheory.Pow(a, k) && NumberTheory.Pow(a, 0) == 1
    ensures k > 0 ==> NumberTheory.Pow(a, k) == a * NumberTheory.Pow(a, k - 1)
  {
    NumberTheory.PowPositive(a, k);
  }

  /** Reading gives back the digits. */
  lemma {:induction false} FromLittleEndianDigit(s: seq<byte>, k: nat)
    requires k < |s|
    ensures 0 < NumberTheory.Pow(256, k) && FromLittleEndian(s) / NumberTheory.Pow(256, k) % 256 == s[k]
    decreases |s|
  {
    hide NumberTheory.Pow, FromLittleEndian;
    FromLittleEndianStep(s);
    PowStep(256, k);
    if k > 0 {
      PowStep(256, k - 1);
      FromLittleEndianDigit(s[1..], k - 1);
      DivideTwice(FromLittleEndian(s), NumberTheory.Pow(256, k - 1));
    }
  }

  lemma {:induction false} LittleEndianRoundTrip(value: nat, width: nat)
    requires value < NumberTheory.Pow(256, width)
    ensures FromLittleEndian(LittleEndian(value, width)) == value
  {
    if width > 0 {
      LittleEndianRoundTrip(value / 256, width - 1);
    }
  }

  /** A file opened for writing; one write call may take any non-empty part of what it is given. */
  class OutFile {
    var data: seq<byte>

    constructor ()
      ensures data == []
    {
      data := [];
    }

    method Write(view: seq<byte>) returns (wrote: nat)
      requires view != []
      modifies this
      ensures 1 <= wrote <= |view|
      ensures data == old(data) + view[..wrote]
    {
      wrote :| 1 <= wrote <= |view|;
      data := data + view[..wrote];
    }

    /** A write that takes everything, where the caller relies on that. */
    method Append(view: seq<byte>)
      modifies this
      ensures data == old(data) + view
    {
      data := data + view;
    }
  }

  /** A positional read returns what lies before the end of the file. */
  function PRead(file: seq<byte>, count: nat, pos: nat): seq<byte> {
    if pos >= |file| then []
    else if pos + count <= |file| then file[pos..pos + count]
    else file[pos..]
  }

  lemma PReadMeans(file: seq<byte>, count: nat, pos: nat)
    ensures pos + count <= |file| ==> PRead(file, count, pos) == file[pos..pos + count]
    ensures pos <= |file| < pos + count ==> PRead(file, count, pos) == file[pos..]
    ensures |file| < pos ==> PRead(file, count, pos) == []
  {
  }

  lemma ReadNothing(file: seq<byte>, pos: nat)
    ensures PRead(file, 0, pos) == []
  {
  }

  /** A read is full exactly when it ends inside the file. */
  lemma ReadInFull(file: seq<byte>, count: nat, pos: nat)
    requires 0 < count
    ensures |PRead(file, count, pos)| == count <==> pos + count <= |file|
  {
  }

  /** Reads of adjacent spans join. */
  lemma ReadExtend(src: seq<byte>, offset: nat, done: nat, n: nat)
    requires 0 < n && |PRead(src, n, offset + done)| == n
    ensures offset + done + n <= |src|
    ensures PRead(src, done, offset) + PRead(src, n, offset + done) == PRead(src, done + n, offset)
    ensures forall base: seq<byte> ::
              (base + PRead(src, done, offset)) + PRead(src, n, offset + done) == base + PRead(src, done + n, offset)
  {
    assert PRead(src, done, offset) + PRead(src, n, offset + done) == PRead(src, done + n, offset);
  }
}
