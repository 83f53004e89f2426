/**
 * The sparse kernels: the CSR sparse matrix-vector product loop of
 * `float_spmatvec_product` and `double_spmatvec_product`, and the CSR to CSC
 * conversion and sparse matrix-matrix product loops of `double_spgemm`.
 *
 * A matrix in CSR form holds the `nz` stored values, their column indices and
 * `row_ptr`, whose consecutive entries bound the stored positions of each row.
 * Values are exact reals; the kernels' float and double rounding is not modelled.
 */
module Sparse {
  import opened Arith

  /** A C `unsigned long` (LP64). */
  type u64 = x: int | 0 <= x < 0x1_0000_0000_0000_0000

  const ULONG_MAX: u64 := 0xFFFF_FFFF_FFFF_FFFF

  /** A CSR matrix: `values` and `colIdx` have one element per stored entry. */
  datatype Csr = Csr(values: seq<real>, colIdx: seq<int>, rowPtr: seq<int>)

  /** The number of rows: one less than the length of `row_ptr`. */
  function Rows(a: Csr): int { |a.rowPtr| - 1 }

  /**
   * The row structure the loops `for (j = row_ptr[i]; j < row_ptr[i+1]; j++)`
   * rely on: every row is a range of stored positions inside the buffers.
   */
  predicate Shaped(a: Csr) {
    |a.rowPtr| >= 1 && |a.colIdx| == |a.values| &&
    forall i :: 0 <= i < |a.rowPtr| - 1 ==> RowInBuffer(a, i)
  }

  /** Row i spans the stored positions row_ptr[i] .. row_ptr[i+1]-1. */
  predicate RowInBuffer(a: Csr, i: int)
    requires 0 <= i < |a.rowPtr| - 1
  {
    0 <= a.rowPtr[i] <= a.rowPtr[i + 1] <= |a.values|
  }

  /** Every stored column index addresses one of n columns. */
  predicate ColumnsBelow(a: Csr, n: int) {
    forall k :: 0 <= k < |a.colIdx| ==> 0 <= a.colIdx[k] < n
  }

  /**
   * A square CSR matrix as the files and `mm_to_csr` produce it: `row_ptr`
   * starts at 0 and ends at `nz`, and every column index is below the number of rows.
   */
  predicate Valid(a: Csr) {
    Shaped(a) && a.rowPtr[0] == 0 && a.rowPtr[Rows(a)] == |a.values| && ColumnsBelow(a, Rows(a))
  }

  /** The SpMV inner sum `Σ values[k] * x[col_idx[k]]` over stored positions lo .. hi-1. */
  function RowDot(a: Csr, x: seq<real>, lo: int, hi: int): real
    requires |a.colIdx| == |a.values| && ColumnsBelow(a, |x|) && 0 <= lo && hi <= |a.values|
    decreases hi - lo
  {
    if hi <= lo then 0.0 else RowDot(a, x, lo, hi - 1) + a.values[hi - 1] * x[a.colIdx[hi - 1]]
  }

  /** The product A·x, one RowDot per row. */
  function MatVec(a: Csr, x: seq<real>): (b: seq<real>)
    requires Shaped(a) && ColumnsBelow(a, |x|)
    ensures |b| == Rows(a)
  {
    seq(Rows(a), i requires 0 <= i < Rows(a) => assert RowInBuffer(a, i); RowDot(a, x, a.rowPtr[i], a.rowPtr[i + 1]))
  }

  // ---------------------------------------------------------------------------
  // The dense matrix a CSR matrix stands for, as an independent reference

  /** The sum of the values stored for column c at positions lo .. hi-1. */
  function ColumnSum(a: Csr, c: int, lo: int, hi: int): real
    requires |a.colIdx| == |a.values| && 0 <= lo && hi <= |a.values|
    decreases hi - lo
  {
    if hi <= lo then 0.0 else ColumnSum(a, c, lo, hi - 1) + (if a.colIdx[hi - 1] == c then a.values[hi - 1] else 0.0)
  }

  /** Entry (i, c) of the dense matrix: the sum of the values row i stores at column c. */
  function Entry(a: Csr, i: int, c: int): real
    requires Shaped(a) && 0 <= i < Rows(a)
  {
    assert RowInBuffer(a, i);
    ColumnSum(a, c, a.rowPtr[i], a.rowPtr[i + 1])
  }

  /** `Σ_{c<n} ColumnSum(c) * x[c]`: the dense scalar product of row positions lo .. hi-1 with x. */
  function DenseDot(a: Csr, x: seq<real>, lo: int, hi: int, n: nat): real
    requires |a.colIdx| == |a.values| && 0 <= lo && hi <= |a.values| && n <= |x|
  {
    if n == 0 then 0.0 else DenseDot(a, x, lo, hi, n - 1) + ColumnSum(a, n - 1, lo, hi) * x[n - 1]
  }

  /** One more stored entry at column c0 < n adds its value times x[c0] to the dense product. */
  lemma {:induction false} DenseDotStep(a: Csr, x: seq<real>, lo: int, hi: int, n: nat)
    requires |a.colIdx| == |a.values| && 0 <= lo < hi <= |a.values| && n <= |x|
    ensures DenseDot(a, x, lo, hi, n)
         == DenseDot(a, x, lo, hi - 1, n)
            + (if 0 <= a.colIdx[hi - 1] < n then a.values[hi - 1] * x[a.colIdx[hi - 1]] else 0.0)
  {
    if n > 0 {
      DenseDotStep(a, x, lo, hi, n - 1);
      var c0, v := a.colIdx[hi - 1], a.values[hi - 1];
      var before := ColumnSum(a, n - 1, lo, hi - 1);
      assert ColumnSum(a, n - 1, lo, hi) == before + (if c0 == n - 1 then v else 0.0);
      assert ColumnSum(a, n - 1, lo, hi) * x[n - 1] == before * x[n - 1] + (if c0 == n - 1 then v * x[n - 1] else 0.0);
    }
  }

  /**
   * The sparse row sum equals the dense one: summing only the stored entries
   * of positions lo .. hi-1 gives `Σ_{c<n} A(c) * x[c]` for every n above all column indices.
   */
  lemma {:induction false} RowDotIsDense(a: Csr, x: seq<real>, lo: int, hi: int, n: nat)
    requires |a.colIdx| == |a.values| && ColumnsBelow(a, n) && n <= |x| && 0 <= lo && hi <= |a.values|
    ensures RowDot(a, x, lo, hi) == DenseDot(a, x, lo, hi, n)
    decreases hi - lo
  {
    if hi <= lo {
      DenseDotOfEmpty(a, x, lo, hi, n);
    } else {
      var c0 := a.colIdx[hi - 1];
      assert 0 <= c0 < n;
      assert RowDot(a, x, lo, hi - 1) == DenseDot(a, x, lo, hi - 1, n) by {
        RowDotIsDense(a, x, lo, hi - 1, n);
      }
      assert DenseDot(a, x, lo, hi, n) == DenseDot(a, x, lo, hi - 1, n) + a.values[hi - 1] * x[c0] by {
        DenseDotStep(a, x, lo, hi, n);
      }
      assert RowDot(a, x, lo, hi) == RowDot(a, x, lo, hi - 1) + a.values[hi - 1] * x[c0];
    }
  }

  lemma {:induction false} DenseDotOfEmpty(a: Csr, x: seq<real>, lo: int, hi: int, n: nat)
    requires |a.colIdx| == |a.values| && 0 <= lo && hi <= |a.values| && hi <= lo && n <= |x|
    ensures DenseDot(a, x, lo, hi, n) == 0.0
  {
    if n > 0 {
      DenseDotOfEmpty(a, x, lo, hi, n - 1);
    }
  }

  /** Each entry of A·x is the dense scalar product of row i with x. */
  lemma MatVecIsDense(a: Csr, x: seq<real>, i: int)
    requires Shaped(a) && ColumnsBelow(a, |x|) && 0 <= i < Rows(a)
    ensures RowInBuffer(a, i)
    ensures MatVec(a, x)[i] == DenseDot(a, x, a.rowPtr[i], a.rowPtr[i + 1], |x|)
  {
    assert RowInBuffer(a, i);
    RowDotIsDense(a, x, a.rowPtr[i], a.rowPtr[i + 1], |x|);
  }

  /** The n×n identity in CSR form. */
  function Identity(n: nat): Csr {
    Csr(seq(n, _ => 1.0), seq(n, k => k), seq(n + 1, i => i))
  }

  /** The identity is a valid CSR matrix, and A·x = x for it. */
  lemma IdentityMatVec(n: nat, x: seq<real>)
    requires |x| == n
    ensures Valid(Identity(n))
    ensures MatVec(Identity(n), x) == x
  {
    var a := Identity(n);
    forall i | 0 <= i < n
      ensures MatVec(a, x)[i] == x[i]
    {
      assert RowDot(a, x, i, i + 1) == RowDot(a, x, i, i) + 1.0 * x[i];
    }
  }

  // ---------------------------------------------------------------------------
  // Sparse matrix-vector product

  /** The repetition count: `ULONG_MAX` (the default) stands for `dflt` repetitions. */
  function Reps(r: u64, dflt: nat): nat {
    if r == ULONG_MAX then dflt else r
  }

  /** One repetition of the SpMV loop: `b[i] = b[i] + values[j] * x[col_idx[j]]` over row i. */
  method SpmvOnce(a: Csr, x: seq<real>, b: array<real>)
    requires Shaped(a) && ColumnsBelow(a, |x|) && b.Length == Rows(a)
    modifies b
    ensures forall i :: 0 <= i < b.Length ==> b[i] == old(b[i]) + MatVec(a, x)[i]
  {
    for i := 0 to Rows(a)
      invariant forall t :: 0 <= t < i ==> b[t] == old(b[t]) + MatVec(a, x)[t]
      invariant forall t :: i <= t < b.Length ==> b[t] == old(b[t])
    {
      assert RowInBuffer(a, i);
      var j := a.rowPtr[i];
      while j < a.rowPtr[i + 1]
        invariant a.rowPtr[i] <= j <= a.rowPtr[i + 1]
        invariant b[i] == old(b[i]) + RowDot(a, x, a.rowPtr[i], j)
        invariant forall t :: 0 <= t < b.Length && t != i ==> b[t] == old(b[t]) + (if t < i then MatVec(a, x)[t] else 0.0)
      {
        b[i] := b[i] + a.values[j] * x[a.colIdx[j]];
        j := j + 1;
      }
    }
  }

  /** `for (rep = 0; rep < r; rep++)` around SpmvOnce: b is never reset, so each row grows by r·(A·x)[i]. */
  method SpmvRepeat(a: Csr, x: seq<real>, b: array<real>, r: nat)
    requires Shaped(a) && ColumnsBelow(a, |x|) && b.Length == Rows(a)
    modifies b
    ensures forall i :: 0 <= i < b.Length ==> b[i] == old(b[i]) + r as real * MatVec(a, x)[i]
  {
    ghost var mv := MatVec(a, x);
    for rep := 0 to r
      invariant Accumulated(old(b[..]), b[..], rep, mv)
    {
      ghost var before := b[..];
      SpmvOnce(a, x, b);
      RepeatStep(old(b[..]), before, b[..], rep, mv);
    }
  }

  /** Each b[i] has grown from b0[i] by k times v[i]. */
  predicate Accumulated(b0: seq<real>, b: seq<real>, k: nat, v: seq<real>) {
    |b0| == |b| == |v| && forall i :: 0 <= i < |b| ==> b[i] == b0[i] + k as real * v[i]
  }

  /** One more repetition adds v once more. */
  lemma RepeatStep(b0: seq<real>, cur: seq<real>, next: seq<real>, k: nat, v: seq<real>)
    requires Accumulated(b0, cur, k, v) && |next| == |cur|
    requires forall i :: 0 <= i < |next| ==> next[i] == cur[i] + v[i]
    ensures Accumulated(b0, next, k + 1, v)
  {
    forall i | 0 <= i < |next|
      ensures next[i] == b0[i] + (k + 1) as real * v[i]
    {
      assert (k + 1) as real * v[i] == k as real * v[i] + v[i];
    }
  }

  /** The vector x of both SpMV kernels: `x[i] = i + 1.5`. */
  function XFill(n: nat): seq<real> {
    seq(n, i => i as real + 1.5)
  }

  /**
   * `double_spmatvec_product`: x is filled with `i + 1.5`, b is zeroed, then r
   * repetitions (1000 for `ULONG_MAX`) accumulate A·x into b.
   */
  method DoubleSpmatvecProduct(a: Csr, r: u64) returns (b: seq<real>)
    requires Shaped(a) && ColumnsBelow(a, Rows(a))
    ensures |b| == Rows(a)
    ensures forall i :: 0 <= i < Rows(a) ==> b[i] == Reps(r, 1000) as real * MatVec(a, XFill(Rows(a)))[i]
  {
    var m := Rows(a);
    var x := new real[m];
    var bs := new real[m];
    for i := 0 to m
      invariant forall t :: 0 <= t < i ==> x[t] == t as real + 1.5 && bs[t] == 0.0
    {
      x[i] := i as real + 1.5;
      bs[i] := 0.0;
    }
    assert x[..] == XFill(m);
    SpmvRepeat(a, x[..], bs, Reps(r, 1000));
    b := bs[..];
  }

  /**
   * `float_spmatvec_product`: as the double kernel, but b is never set before
   * the repetitions; its initial contents are the parameter b0.
   */
  method FloatSpmatvecProduct(a: Csr, r: u64, b0: seq<real>) returns (b: seq<real>)
    requires Shaped(a) && ColumnsBelow(a, Rows(a)) && |b0| == Rows(a)
    ensures |b| == Rows(a)
    ensures forall i :: 0 <= i < Rows(a) ==> b[i] == b0[i] + Reps(r, 1000) as real * MatVec(a, XFill(Rows(a)))[i]
  {
    var m := Rows(a);
    var x := new real[m];
    for i := 0 to m
      invariant forall t :: 0 <= t < i ==> x[t] == t as real + 1.5
    {
      x[i] := i as real + 1.5;
    }
    assert x[..] == XFill(m);
    var bs := new real[m](i requires 0 <= i < m => b0[i]);
    SpmvRepeat(a, x[..], bs, Reps(r, 1000));
    b := bs[..];
  }

  /**
   * With A the identity and r = 1, whatever `DoubleSpmatvecProduct` returns
   * (any b its ensures allows) is x itself.
   */
  lemma IdentitySpmv(n: nat, b: seq<real>)
    requires |b| == n
    requires forall i :: 0 <= i < n ==> b[i] == Reps(1, 1000) as real * MatVec(Identity(n), XFill(n))[i]
    ensures Valid(Identity(n))
    ensures b == XFill(n)
  {
    var x := XFill(n);
    IdentityMatVec(n, x);
    assert Reps(1, 1000) == 1;
    forall i | 0 <= i < n
      ensures b[i] == x[i]
    {
      assert b[i] == 1.0 * MatVec(Identity(n), x)[i];
    }
  }

  // ---------------------------------------------------------------------------
  // CSR to CSC conversion

  /** A stored entry as the CSC arrays record it: its CSR position and its row. */
  datatype Nonzero = Nonzero(pos: int, row: int)

  /** The entries of column c at positions row_ptr[j] .. hi-1 of row j, in the order the scan meets them. */
  function RowScan(a: Csr, c: int, j: int, hi: int): seq<Nonzero>
    requires Shaped(a) && 0 <= j < Rows(a) && a.rowPtr[j] <= hi <= a.rowPtr[j + 1]
    decreases hi
  {
    assert RowInBuffer(a, j);
    if hi == a.rowPtr[j] then []
    else RowScan(a, c, j, hi - 1) + (if a.colIdx[hi - 1] == c then [Nonzero(hi - 1, j)] else [])
  }

  /** The entries of column c in rows 0 .. j-1, row by row. */
  function ColumnScan(a: Csr, c: int, j: int): seq<Nonzero>
    requires Shaped(a) && 0 <= j <= Rows(a)
  {
    if j == 0 then []
    else
      assert RowInBuffer(a, j - 1);
      ColumnScan(a, c, j - 1) + RowScan(a, c, j - 1, a.rowPtr[j])
  }

  /** Column c of the CSC form: its entries in every row. */
  function Column(a: Csr, c: int): seq<Nonzero>
    requires Shaped(a)
  {
    ColumnScan(a, c, Rows(a))
  }

  /** Columns 0 .. n-1 one after another: the order in which the CSC arrays list the entries. */
  function CscOrder(a: Csr, n: int): seq<Nonzero>
    requires Shaped(a) && 0 <= n
  {
    if n == 0 then [] else CscOrder(a, n - 1) + Column(a, n - 1)
  }

  /** The value and row buffers hold the entries of s at offsets off .. off+|s|-1. */
  predicate Recorded(a: Csr, bCsc: seq<real>, rowCsc: seq<int>, off: int, s: seq<Nonzero>) {
    forall t :: 0 <= t < |s| ==> RecordedAt(a, bCsc, rowCsc, off + t, s[t])
  }

  /** Slot x of the value and row buffers holds entry e. */
  predicate RecordedAt(a: Csr, bCsc: seq<real>, rowCsc: seq<int>, x: int, e: Nonzero) {
    0 <= x < |bCsc| && x < |rowCsc| && 0 <= e.pos < |a.values| &&
    bCsc[x] == a.values[e.pos] && rowCsc[x] == e.row
  }

  /** Recorded entries survive any change beyond them. */
  lemma RecordedPrefix(a: Csr, b: seq<real>, r: seq<int>, b': seq<real>, r': seq<int>, s: seq<Nonzero>)
    requires Recorded(a, b, r, 0, s) && |s| <= |b| && |s| <= |r| && |s| <= |b'| && |s| <= |r'|
    requires b'[..|s|] == b[..|s|] && r'[..|s|] == r[..|s|]
    ensures Recorded(a, b', r', 0, s)
  {
    forall t | 0 <= t < |s|
      ensures RecordedAt(a, b', r', 0 + t, s[t])
    {
      assert RecordedAt(a, b, r, 0 + t, s[t]);
      assert b'[t] == b'[..|s|][t] == b[..|s|][t] == b[t];
      assert r'[t] == r'[..|s|][t] == r[..|s|][t] == r[t];
    }
  }

  /** Entries recorded one after the other form one record. */
  lemma RecordedAppend(a: Csr, b: seq<real>, r: seq<int>, s: seq<Nonzero>, u: seq<Nonzero>)
    requires Recorded(a, b, r, 0, s) && Recorded(a, b, r, |s|, u)
    ensures Recorded(a, b, r, 0, s + u)
  {
    forall t | 0 <= t < |s + u|
      ensures RecordedAt(a, b, r, t, (s + u)[t])
    {
      if t < |s| {
        assert (s + u)[t] == s[t] && RecordedAt(a, b, r, 0 + t, s[t]);
      } else {
        assert (s + u)[t] == u[t - |s|] && RecordedAt(a, b, r, |s| + (t - |s|), u[t - |s|]);
      }
    }
  }

  /** The CSC arrays of a: column pointers, then values and rows in CscOrder. */
  predicate CscOf(a: Csr, bCsc: seq<real>, rowCsc: seq<int>, colCsc: seq<int>)
    requires Shaped(a)
  {
    var order := CscOrder(a, Rows(a));
    |bCsc| == |rowCsc| == |a.values| && |colCsc| == Rows(a) + 1 &&
    (forall c :: 0 <= c <= Rows(a) ==> colCsc[c] == |CscOrder(a, c)|) &&
    |order| <= |a.values| && Recorded(a, bCsc, rowCsc, 0, order)
  }

  /** A longer scan of a row finds at least as many entries. */
  lemma {:induction false} RowScanMono(a: Csr, c: int, j: int, hi: int, hi': int)
    requires Shaped(a) && 0 <= j < Rows(a) && a.rowPtr[j] <= hi <= hi' <= a.rowPtr[j + 1]
    ensures |RowScan(a, c, j, hi)| <= |RowScan(a, c, j, hi')|
    decreases hi' - hi
  {
    if hi < hi' {
      RowScanMono(a, c, j, hi, hi' - 1);
    }
  }

  lemma {:induction false} ColumnScanMono(a: Csr, c: int, j: int, j': int)
    requires Shaped(a) && 0 <= j <= j' <= Rows(a)
    ensures |ColumnScan(a, c, j)| <= |ColumnScan(a, c, j')|
    decreases j' - j
  {
    if j < j' {
      ColumnScanMono(a, c, j, j' - 1);
    }
  }

  lemma {:induction false} CscOrderMono(a: Csr, n: int, n': int)
    requires Shaped(a) && 0 <= n <= n'
    ensures |CscOrder(a, n)| <= |CscOrder(a, n')|
    decreases n' - n
  {
    if n < n' {
      CscOrderMono(a, n, n' - 1);
    }
  }

  // ---------------------------------------------------------------------------
  // Every stored entry appears exactly once in the CSC order

  function Positions(s: seq<Nonzero>): (p: seq<int>)
    ensures |p| == |s| && forall t :: 0 <= t < |s| ==> p[t] == s[t].pos
  {
    seq(|s|, t requires 0 <= t < |s| => s[t].pos)
  }

  lemma PositionsAppend(s: seq<Nonzero>, u: seq<Nonzero>)
    ensures multiset(Positions(s + u)) == multiset(Positions(s)) + multiset(Positions(u))
  {
    assert Positions(s + u) == Positions(s) + Positions(u);
  }

  /** The positions 0 .. n-1. */
  function Range(n: nat): (r: seq<int>)
    ensures |r| == n && forall k :: 0 <= k < n ==> r[k] == k
  {
    seq(n, k => k)
  }

  lemma {:induction false} RangeCount(n: nat, k: int)
    ensures multiset(Range(n))[k] == if 0 <= k < n then 1 else 0
  {
    if n > 0 {
      RangeCount(n - 1, k);
      assert Range(n) == Range(n - 1) + [n - 1];
    }
  }

  lemma {:induction false} RowScanCount(a: Csr, c: int, j: int, hi: int, k: int)
    requires Shaped(a) && 0 <= j < Rows(a) && a.rowPtr[j] <= hi <= a.rowPtr[j + 1]
    ensures RowInBuffer(a, j)
    ensures multiset(Positions(RowScan(a, c, j, hi)))[k]
         == if a.rowPtr[j] <= k < hi && a.colIdx[k] == c then 1 else 0
    decreases hi
  {
    assert RowInBuffer(a, j);
    if hi > a.rowPtr[j] {
      RowScanCount(a, c, j, hi - 1, k);
      PositionsAppend(RowScan(a, c, j, hi - 1), if a.colIdx[hi - 1] == c then [Nonzero(hi - 1, j)] else []);
    }
  }

  /** Rows 0 .. j-1 cover the positions 0 .. row_ptr[j]-1, each once. */
  lemma {:induction false} ColumnScanCount(a: Csr, c: int, j: int, k: int)
    requires Shaped(a) && a.rowPtr[0] == 0 && 0 <= j <= Rows(a)
    ensures a.rowPtr[j] <= |a.values|
    ensures multiset(Positions(ColumnScan(a, c, j)))[k]
         == if 0 <= k < a.rowPtr[j] && a.colIdx[k] == c then 1 else 0
  {
    if j > 0 {
      assert RowInBuffer(a, j - 1);
      ColumnScanCount(a, c, j - 1, k);
      RowScanCount(a, c, j - 1, a.rowPtr[j], k);
      PositionsAppend(ColumnScan(a, c, j - 1), RowScan(a, c, j - 1, a.rowPtr[j]));
    }
  }

  lemma {:induction false} CscOrderCount(a: Csr, n: int, k: int)
    requires Valid(a) && 0 <= n
    ensures multiset(Positions(CscOrder(a, n)))[k]
         == if 0 <= k < |a.values| && a.colIdx[k] < n then 1 else 0
  {
    if n > 0 {
      CscOrderCount(a, n - 1, k);
      ColumnScanCount(a, n - 1, Rows(a), k);
      PositionsAppend(CscOrder(a, n - 1), Column(a, n - 1));
    }
  }

  /**
   * The transpose: the CSC order lists every stored position 0 .. nz-1
   * exactly once, so it holds nz entries.
   */
  lemma CscIsPermutation(a: Csr)
    requires Valid(a)
    ensures multiset(Positions(CscOrder(a, Rows(a)))) == multiset(Range(|a.values|))
    ensures |CscOrder(a, Rows(a))| == |a.values|
  {
    var p := Positions(CscOrder(a, Rows(a)));
    forall k
      ensures multiset(p)[k] == multiset(Range(|a.values|))[k]
    {
      CscOrderCount(a, Rows(a), k);
      RangeCount(|a.values|, k);
    }
    assert multiset(p) == multiset(Range(|a.values|));
    assert |p| == |multiset(p)| == |Range(|a.values|)|;
  }

  /** The CSC order holds nz entries. */
  lemma CscLength(a: Csr)
    requires Valid(a)
    ensures |CscOrder(a, Rows(a))| == |a.values|
  {
    CscIsPermutation(a);
  }

  /** col_csc_idx as the conversion leaves it: 0 first, non-decreasing, nz last. */
  lemma ColumnPointers(a: Csr, c: int, c': int)
    requires Valid(a) && 0 <= c <= c' <= Rows(a)
    ensures |CscOrder(a, 0)| == 0
    ensures |CscOrder(a, c)| <= |CscOrder(a, c')|
    ensures |CscOrder(a, Rows(a))| == |a.values|
  {
    CscOrderMono(a, c, c');
    CscLength(a);
  }

  // ---------------------------------------------------------------------------
  // Each column lists its entries in increasing row order

  /** Every entry of s is a stored entry of column c, lying in the row it names. */
  predicate InColumn(a: Csr, c: int, s: seq<Nonzero>)
    requires Shaped(a)
  {
    forall t :: 0 <= t < |s| ==>
      0 <= s[t].row < Rows(a) && RowInBuffer(a, s[t].row) &&
      a.rowPtr[s[t].row] <= s[t].pos < a.rowPtr[s[t].row + 1] && a.colIdx[s[t].pos] == c
  }

  /** Positions strictly increasing, rows non-decreasing. */
  predicate Ascending(s: seq<Nonzero>) {
    forall t, u :: 0 <= t < u < |s| ==> s[t].pos < s[u].pos && s[t].row <= s[u].row
  }

  lemma AscendingAppend(s: seq<Nonzero>, u: seq<Nonzero>)
    requires Ascending(s) && Ascending(u)
    requires forall t, v :: 0 <= t < |s| && 0 <= v < |u| ==> s[t].pos < u[v].pos && s[t].row <= u[v].row
    ensures Ascending(s + u)
  {
  }

  lemma {:induction false} RowScanSorted(a: Csr, c: int, j: int, hi: int)
    requires Shaped(a) && 0 <= j < Rows(a) && a.rowPtr[j] <= hi <= a.rowPtr[j + 1]
    ensures InColumn(a, c, RowScan(a, c, j, hi)) && Ascending(RowScan(a, c, j, hi))
    ensures forall t :: 0 <= t < |RowScan(a, c, j, hi)| ==> RowScan(a, c, j, hi)[t].row == j && RowScan(a, c, j, hi)[t].pos < hi
    decreases hi
  {
    assert RowInBuffer(a, j);
    if hi > a.rowPtr[j] {
      RowScanSorted(a, c, j, hi - 1);
      var s := RowScan(a, c, j, hi - 1);
      if a.colIdx[hi - 1] == c {
        AscendingAppend(s, [Nonzero(hi - 1, j)]);
      } else {
        assert RowScan(a, c, j, hi) == s;
      }
    }
  }

  lemma {:induction false} ColumnScanSorted(a: Csr, c: int, j: int)
    requires Shaped(a) && 0 <= j <= Rows(a)
    ensures InColumn(a, c, ColumnScan(a, c, j)) && Ascending(ColumnScan(a, c, j))
    ensures forall t :: 0 <= t < |ColumnScan(a, c, j)| ==>
      ColumnScan(a, c, j)[t].row < j && ColumnScan(a, c, j)[t].pos < a.rowPtr[j]
  {
    if j > 0 {
      assert RowInBuffer(a, j - 1);
      var s, u := ColumnScan(a, c, j - 1), RowScan(a, c, j - 1, a.rowPtr[j]);
      assert ColumnScan(a, c, j) == s + u;
      ColumnScanSorted(a, c, j - 1);
      RowScanSorted(a, c, j - 1, a.rowPtr[j]);
      assert forall t, v :: 0 <= t < |s| && 0 <= v < |u| ==> s[t].pos < u[v].pos && s[t].row <= u[v].row by {
        forall t, v | 0 <= t < |s| && 0 <= v < |u|
          ensures s[t].pos < u[v].pos && s[t].row <= u[v].row
        {
          assert u[v].row == j - 1 && a.rowPtr[u[v].row] <= u[v].pos;
        }
      }
      AscendingAppend(s, u);
      InColumnAppend(a, c, s, u);
      forall t | 0 <= t < |s + u|
        ensures (s + u)[t].row < j && (s + u)[t].pos < a.rowPtr[j]
      {
        if t < |s| {
          assert (s + u)[t] == s[t];
        } else {
          assert (s + u)[t] == u[t - |s|];
        }
      }
    }
  }

  lemma InColumnAppend(a: Csr, c: int, s: seq<Nonzero>, u: seq<Nonzero>)
    requires Shaped(a) && InColumn(a, c, s) && InColumn(a, c, u)
    ensures InColumn(a, c, s + u)
  {
    forall t | 0 <= t < |s + u|
      ensures 0 <= (s + u)[t].row < Rows(a) && RowInBuffer(a, (s + u)[t].row)
      ensures a.rowPtr[(s + u)[t].row] <= (s + u)[t].pos < a.rowPtr[(s + u)[t].row + 1]
      ensures a.colIdx[(s + u)[t].pos] == c
    {
      if t < |s| {
        assert (s + u)[t] == s[t];
      } else {
        assert (s + u)[t] == u[t - |s|];
      }
    }
  }

  /**
   * Column c of the CSC form holds stored entries of column c only, each in
   * the row it names, in increasing row order.
   */
  lemma ColumnSorted(a: Csr, c: int)
    requires Shaped(a)
    ensures InColumn(a, c, Column(a, c)) && Ascending(Column(a, c))
  {
    ColumnScanSorted(a, c, Rows(a));
  }

  /**
   * The loop nest that builds `B_csc`, `row_csc_idx` and `col_csc_idx` from
   * the CSR arrays: for each column i it scans every row j and every stored
   * position k of the row, appending the entries of column i. `nz_count`
   * restarts at 0 for each column and advances with k.
   */
  method CsrToCsc(a: Csr) returns (bCsc: seq<real>, rowCsc: seq<int>, colCsc: seq<int>)
    requires Valid(a)
    ensures CscOf(a, bCsc, rowCsc, colCsc)
    ensures colCsc[0] == 0 && colCsc[Rows(a)] == |a.values|
    ensures forall c :: 0 <= c < Rows(a) ==> colCsc[c] <= colCsc[c + 1]
  {
    var m := Rows(a);
    var nz := |a.values|;
    var B := new real[nz];
    var R := new int[nz];
    var C := new int[m + 1];
    C[0] := 0;
    var count := 0;
    CscLength(a);
    for i := 0 to m
      invariant count == |CscOrder(a, i)| && C[0] == 0
      invariant PointersUpTo(a, C[..], i)
      invariant Recorded(a, B[..], R[..], 0, CscOrder(a, i))
    {
      ghost var c0 := C[..];
      count := ScanColumn(a, i, B, R, C, count);
      PointersExtend(a, c0, C[..], i);
    }
    bCsc, rowCsc, colCsc := B[..], R[..], C[..];
    forall c | 0 <= c < m
      ensures colCsc[c] <= colCsc[c + 1]
    {
      CscOrderMono(a, c, c + 1);
    }
  }

  /** Column pointers 0 .. n are set: entry c is the number of entries in columns 0 .. c-1. */
  predicate PointersUpTo(a: Csr, cs: seq<int>, n: int)
    requires Shaped(a)
  {
    forall c :: 0 <= c <= n ==> c < |cs| && cs[c] == |CscOrder(a, c)|
  }

  /** Setting pointer n+1 and nothing else extends the set pointers by one. */
  lemma PointersExtend(a: Csr, c0: seq<int>, cs: seq<int>, n: int)
    requires Shaped(a) && PointersUpTo(a, c0, n) && 0 <= n && n + 1 < |cs| == |c0|
    requires cs[n + 1] == |CscOrder(a, n + 1)|
    requires forall c :: 0 <= c < |cs| && c != n + 1 ==> cs[c] == c0[c]
    ensures PointersUpTo(a, cs, n + 1)
  {
  }

  /**
   * One iteration of the conversion's outer loop: column i, scanned row by
   * row, with `col_csc_idx[i+1]` set to count after every row.
   */
  method ScanColumn(a: Csr, i: int, B: array<real>, R: array<int>, C: array<int>, count0: int) returns (count: int)
    requires Valid(a) && 0 <= i < Rows(a) && B.Length == R.Length == |a.values| && C.Length == Rows(a) + 1 && C != R
    requires count0 == |CscOrder(a, i)| && Recorded(a, B[..], R[..], 0, CscOrder(a, i))
    modifies B, R, C
    ensures count == |CscOrder(a, i + 1)| && Recorded(a, B[..], R[..], 0, CscOrder(a, i + 1))
    ensures C[i + 1] == count && forall c :: 0 <= c < C.Length && c != i + 1 ==> C[c] == old(C[c])
  {
    var m := Rows(a);
    var nzCount := 0;
    count := count0;
    ScannedEnds(a, i);
    for j := 0 to m
      invariant nzCount == a.rowPtr[j]
      invariant count == |Scanned(a, i, j)|
      invariant forall c :: 0 <= c < C.Length && c != i + 1 ==> C[c] == old(C[c])
      invariant j > 0 ==> C[i + 1] == count
      invariant Recorded(a, B[..], R[..], 0, Scanned(a, i, j))
    {
      ScanBound(a, i, j);
      ScannedStep(a, i, j);
      ghost var b0, r0 := B[..], R[..];
      count, nzCount := ScanRow(a, i, j, B, R, count, nzCount);
      RecordedStep(a, b0, r0, B[..], R[..], Scanned(a, i, j), RowScan(a, i, j, a.rowPtr[j + 1]));
      C[i + 1] := count;
    }
  }

  /** Everything column scan i has recorded once rows 0 .. j-1 of column i are done. */
  function Scanned(a: Csr, i: int, j: int): seq<Nonzero>
    requires Shaped(a) && 0 <= i && 0 <= j <= Rows(a)
  {
    CscOrder(a, i) + ColumnScan(a, i, j)
  }

  /** Scanning row j appends that row's entries of column i. */
  lemma ScannedStep(a: Csr, i: int, j: int)
    requires Shaped(a) && 0 <= i && 0 <= j < Rows(a)
    ensures RowInBuffer(a, j)
    ensures Scanned(a, i, j + 1) == Scanned(a, i, j) + RowScan(a, i, j, a.rowPtr[j + 1])
  {
    assert RowInBuffer(a, j);
    assert ColumnScan(a, i, j + 1) == ColumnScan(a, i, j) + RowScan(a, i, j, a.rowPtr[j + 1]);
  }

  /** The scan of column i starts after columns 0 .. i-1 and ends with column i. */
  lemma ScannedEnds(a: Csr, i: int)
    requires Shaped(a) && 0 <= i
    ensures Scanned(a, i, 0) == CscOrder(a, i)
    ensures Scanned(a, i, Rows(a)) == CscOrder(a, i + 1)
  {
    assert ColumnScan(a, i, 0) == [];
    assert CscOrder(a, i) + [] == CscOrder(a, i);
  }

  /** The entries of row j found in column i still fit in the buffers of size nz. */
  lemma ScanBound(a: Csr, i: int, j: int)
    requires Valid(a) && 0 <= i < Rows(a) && 0 <= j < Rows(a)
    ensures RowInBuffer(a, j)
    ensures |Scanned(a, i, j)| + |RowScan(a, i, j, a.rowPtr[j + 1])| <= |a.values|
  {
    ScannedStep(a, i, j);
    ScannedWithinColumn(a, i, j + 1);
    CscOrderBelow(a, i + 1);
  }

  /** Part of the scan of column i is no longer than columns 0 .. i together. */
  lemma ScannedWithinColumn(a: Csr, i: int, j: int)
    requires Shaped(a) && 0 <= i && 0 <= j <= Rows(a)
    ensures |Scanned(a, i, j)| <= |CscOrder(a, i + 1)|
  {
    ColumnScanMono(a, i, j, Rows(a));
    assert |CscOrder(a, i + 1)| == |CscOrder(a, i)| + |Column(a, i)|;
  }

  /** Columns 0 .. n-1 hold at most nz entries. */
  lemma CscOrderBelow(a: Csr, n: int)
    requires Valid(a) && 0 <= n <= Rows(a)
    ensures |CscOrder(a, n)| <= |a.values|
  {
    CscOrderMono(a, n, Rows(a));
    CscLength(a);
  }

  /** Recorded entries s survive a write beyond them, and entries u recorded right after extend the record. */
  lemma RecordedStep(a: Csr, b0: seq<real>, r0: seq<int>, b: seq<real>, r: seq<int>, s: seq<Nonzero>, u: seq<Nonzero>)
    requires Recorded(a, b0, r0, 0, s) && |s| <= |b0| == |b| && |r0| == |r| == |b|
    requires b[..|s|] == b0[..|s|] && r[..|s|] == r0[..|s|]
    requires Recorded(a, b, r, |s|, u)
    ensures Recorded(a, b, r, 0, s + u)
  {
    RecordedPrefix(a, b0, r0, b, r, s);
    RecordedAppend(a, b, r, s, u);
  }

  /**
   * The innermost loop of the conversion over row j: for each stored position
   * k, when `col_csr_idx[k] == i` the entry goes to slot count; nz_count
   * equals k throughout because `row_ptr` starts at 0 and is non-decreasing.
   */
  method ScanRow(a: Csr, i: int, j: int, B: array<real>, R: array<int>, count0: int, nzCount0: int)
    returns (count: int, nzCount: int)
    requires Valid(a) && 0 <= j < Rows(a) && RowInBuffer(a, j) && B.Length == R.Length == |a.values|
    requires nzCount0 == a.rowPtr[j]
    requires 0 <= count0 && count0 + |RowScan(a, i, j, a.rowPtr[j + 1])| <= |a.values|
    modifies B, R
    ensures nzCount == a.rowPtr[j + 1]
    ensures count == count0 + |RowScan(a, i, j, a.rowPtr[j + 1])|
    ensures B[..count0] == old(B[..count0]) && R[..count0] == old(R[..count0])
    ensures Recorded(a, B[..], R[..], count0, RowScan(a, i, j, a.rowPtr[j + 1]))
  {
    assert RowInBuffer(a, j);
    count, nzCount := count0, nzCount0;
    var k := a.rowPtr[j];
    while k < a.rowPtr[j + 1]
      invariant a.rowPtr[j] <= k <= a.rowPtr[j + 1] && nzCount == k
      invariant count == count0 + |RowScan(a, i, j, k)|
      invariant B[..count0] == old(B[..count0]) && R[..count0] == old(R[..count0])
      invariant Recorded(a, B[..], R[..], count0, RowScan(a, i, j, k))
    {
      RowScanMono(a, i, j, k + 1, a.rowPtr[j + 1]);
      if a.colIdx[k] == i {
        B[count] := a.values[nzCount];
        R[count] := j;
        count := count + 1;
      }
      nzCount := nzCount + 1;
      k := k + 1;
    }
  }
}
