/**
 * The layout of the CSR input read by the sparse kernels, over a stream of
 * already split numeric tokens (one per `fgets` line or header field):
 * the header `nz n m`, then nz values, nz column indices and m row offsets,
 * where m is the length of `row_ptr`, one more than the number of rows.
 */
module CsrFile {
  import opened Sparse

  /** A token as the text holds it: an integer, or a number with a fraction. */
  datatype Token = Int(i: int) | Frac(r: real)

  datatype Option<T> = None | Some(value: T)

  /** What the reader builds: the column count from the header, and the matrix. */
  datatype CsrInput = CsrInput(cols: int, matrix: Csr)

  /** `%f` reads either kind of token. */
  function AsReal(t: Token): real {
    match t
    case Int(i) => i as real
    case Frac(r) => r
  }

  /** The number of tokens the reader consumes for a header `nz n m`. */
  function Consumed(nz: int, m: int): int { 3 + 2 * nz + m }

  /** The stream is long enough and has integers where `%d` reads them. */
  predicate Readable(ts: seq<Token>) {
    |ts| >= 3 && ts[0].Int? && ts[1].Int? && ts[2].Int? &&
    ts[0].i >= 0 && ts[2].i >= 0 && |ts| >= Consumed(ts[0].i, ts[2].i) &&
    forall k :: 3 + ts[0].i <= k < Consumed(ts[0].i, ts[2].i) ==> ts[k].Int?
  }

  /** The reader as a function of the token stream; tokens after the last row offset are ignored. */
  function Decode(ts: seq<Token>): (r: Option<CsrInput>)
    ensures r.Some? <==> Readable(ts)
    ensures r.Some? ==> |r.value.matrix.values| == |r.value.matrix.colIdx| == ts[0].i
    ensures r.Some? ==> |r.value.matrix.rowPtr| == ts[2].i && r.value.cols == ts[1].i
  {
    if !Readable(ts) then None
    else
      var nz, n, m := ts[0].i, ts[1].i, ts[2].i;
      Some(CsrInput(n, Csr(
        seq(nz, k requires 0 <= k < nz => AsReal(ts[3 + k])),
        seq(nz, k requires 0 <= k < nz => ts[3 + nz + k].i),
        seq(m, k requires 0 <= k < m => ts[3 + 2 * nz + k].i))))
  }

  /** The token stream a well-formed input is written as. */
  function Encode(x: CsrInput): (ts: seq<Token>)
    ensures |ts| == 3 + |x.matrix.values| + |x.matrix.colIdx| + |x.matrix.rowPtr|
  {
    var a := x.matrix;
    [Int(|a.values|), Int(x.cols), Int(|a.rowPtr|)]
      + seq(|a.values|, k requires 0 <= k < |a.values| => Frac(a.values[k]))
      + seq(|a.colIdx|, k requires 0 <= k < |a.colIdx| => Int(a.colIdx[k]))
      + seq(|a.rowPtr|, k requires 0 <= k < |a.rowPtr| => Int(a.rowPtr[k]))
  }

  /** Reading what was written gives the input back, whatever follows it in the stream. */
  lemma DecodeEncode(x: CsrInput, rest: seq<Token>)
    requires |x.matrix.colIdx| == |x.matrix.values|
    ensures Decode(Encode(x) + rest) == Some(x)
  {
    var a, ts := x.matrix, Encode(x) + rest;
    var nz, m := |a.values|, |a.rowPtr|;
    assert ts[0] == Int(nz) && ts[1] == Int(x.cols) && ts[2] == Int(m);
    forall k | 0 <= k < nz
      ensures ts[3 + k] == Frac(a.values[k]) && ts[3 + nz + k] == Int(a.colIdx[k])
    {
    }
    forall k | 0 <= k < m
      ensures ts[3 + 2 * nz + k] == Int(a.rowPtr[k])
    {
    }
    assert Readable(ts);
    var d := Decode(ts).value;
    assert d.matrix.values == a.values;
    assert d.matrix.colIdx == a.colIdx;
    assert d.matrix.rowPtr == a.rowPtr;
  }

  /**
   * Whatever the reader accepts, writing it and reading it again gives the
   * same input: only the first `3 + 2*nz + m` tokens matter.
   */
  lemma EncodeDecode(ts: seq<Token>)
    requires Decode(ts).Some?
    ensures Decode(ts[..Consumed(ts[0].i, ts[2].i)]) == Decode(ts)
    ensures Decode(Encode(Decode(ts).value)) == Decode(ts)
  {
    var x := Decode(ts).value;
    var p := ts[..Consumed(ts[0].i, ts[2].i)];
    assert Readable(p);
    var y := Decode(p).value;
    assert y.matrix.values == x.matrix.values;
    assert y.matrix.colIdx == x.matrix.colIdx;
    assert y.matrix.rowPtr == x.matrix.rowPtr;
    DecodeEncode(x, []);
    assert Encode(x) + [] == Encode(x);
  }

  /**
   * As written, both SpMV kernels allocate `col_idx` with one entry per
   * column, n from the header, and then fill it with nz column indices.
   */
  function ColIdxAllocated(ts: seq<Token>): int
    requires Readable(ts)
  {
    ts[1].i
  }

  /** A 2×2 matrix with all four entries stored: nz = 4, n = 2. */
  const Full2: CsrInput := CsrInput(2, Csr([1.0, 1.0, 1.0, 1.0], [0, 1, 0, 1], [0, 2, 4]))

  /**
   * For the full 2×2 matrix the fill loop writes 4 column indices into a
   * `col_idx` of 2 entries: indices 2 and 3 lie past its end.
   */
  lemma ColIdxOverflows()
    ensures Readable(Encode(Full2)) && Decode(Encode(Full2)).Some?
    ensures |Decode(Encode(Full2)).value.matrix.colIdx| == 4 && ColIdxAllocated(Encode(Full2)) == 2
  {
    var ts := Encode(Full2);
    DecodeEncode(Full2, []);
    assert ts + [] == ts;
    assert ts[1] == Int(2);
  }

  /**
   * The reading loops: the header, then `for (i=0;i<nz;i++)` over the
   * values, the column indices, and `for (i=0;i<m;i++)` over the row
   * offsets. A short stream or a non-integer where `%d` reads gives None.
   */
  method ReadCsr(ts: seq<Token>) returns (r: Option<CsrInput>)
    ensures r == Decode(ts)
  {
    if !Readable(ts) {
      return None;
    }
    var nz, n, m := ts[0].i, ts[1].i, ts[2].i;
    var values := new real[nz];
    var colIdx := new int[nz];
    var rowPtr := new int[m];
    for i := 0 to nz
      invariant forall k :: 0 <= k < i ==> values[k] == AsReal(ts[3 + k])
    {
      values[i] := AsReal(ts[3 + i]);
    }
    for i := 0 to nz
      invariant forall k :: 0 <= k < i ==> colIdx[k] == ts[3 + nz + k].i
      invariant forall k :: 0 <= k < nz ==> values[k] == AsReal(ts[3 + k])
    {
      colIdx[i] := ts[3 + nz + i].i;
    }
    for i := 0 to m
      invariant forall k :: 0 <= k < i ==> rowPtr[k] == ts[3 + 2 * nz + k].i
      invariant forall k :: 0 <= k < nz ==> values[k] == AsReal(ts[3 + k]) && colIdx[k] == ts[3 + nz + k].i
    {
      rowPtr[i] := ts[3 + 2 * nz + i].i;
    }
    r := Some(CsrInput(n, Csr(values[..], colIdx[..], rowPtr[..])));
    var d := Decode(ts).value.matrix;
    assert values[..] == d.values && colIdx[..] == d.colIdx && rowPtr[..] == d.rowPtr;
  }
}
