/**
 * The sparse matrix-matrix product loop of `double_spgemm`: C += A·B, where
 * B is the CSC form of A itself, built by the conversion in module Sparse.
 *
 * For each column j of B a dense temporary `temp_vec` of width nz receives
 * the column's values at their rows (a scatter); then every row i of A is
 * multiplied with that temporary into `C[j + i*m]`.
 */
module Spgemm {
  import opened Arith
  import opened Sparse

  /** A zeroed buffer of width n, as `calloc` returns it. */
  function Zeros(n: nat): (z: seq<real>)
    ensures |z| == n && forall r :: 0 <= r < n ==> z[r] == 0.0
  {
    seq(n, _ => 0.0)
  }

  /** Every entry of s names a row below n and a stored position. */
  predicate Fits(a: Csr, s: seq<Nonzero>, n: int) {
    forall t :: 0 <= t < |s| ==> 0 <= s[t].row < n && 0 <= s[t].pos < |a.values|
  }

  /**
   * `temp_vec[row_csc_idx[k]] = B_csc[k]` for the entries of s in order,
   * starting from buffer contents t: a later entry of the same row overwrites.
   */
  function Scatter(a: Csr, t: seq<real>, s: seq<Nonzero>): (u: seq<real>)
    requires Fits(a, s, |t|)
    ensures |u| == |t|
    decreases |s|
  {
    if |s| == 0 then t
    else
      var e := s[|s| - 1];
      Scatter(a, t, s[..|s| - 1])[e.row := a.values[e.pos]]
  }

  /** No column index repeats within row i: the matrix stores each entry at most once. */
  predicate DistinctRow(a: Csr, i: int)
    requires Shaped(a) && 0 <= i < Rows(a)
  {
    forall p, q :: 0 <= p < q < |a.colIdx| && a.rowPtr[i] <= p && q < a.rowPtr[i + 1] ==> a.colIdx[p] != a.colIdx[q]
  }

  predicate DistinctColumns(a: Csr)
    requires Shaped(a)
  {
    forall i :: 0 <= i < Rows(a) ==> DistinctRow(a, i)
  }

  /** Column c of A as a dense vector of width n: rows below j hold their entries, all else 0. */
  function ColumnVector(a: Csr, c: int, j: int, n: nat): (v: seq<real>)
    requires Shaped(a) && 0 <= j <= Rows(a)
    ensures |v| == n
  {
    seq(n, r requires 0 <= r < n => if r < j then Entry(a, r, c) else 0.0)
  }

  /** `Σ_{q<n} A(i,q)·A(q,c)`: entry (i, c) of the dense product A·A over the first n terms. */
  function ProductSum(a: Csr, i: int, c: int, n: nat): real
    requires Shaped(a) && 0 <= i < Rows(a) && 0 <= c < Rows(a) && n <= Rows(a)
  {
    if n == 0 then 0.0 else ProductSum(a, i, c, n - 1) + Entry(a, i, n - 1) * Entry(a, n - 1, c)
  }

  /**
   * Entry (i, c) as the kernel computes it when `temp_vec` starts with
   * contents t: scatter column c of B over t, then `Σ_k A_csr[k] * temp[col_csr_idx[k]]` over row i.
   */
  function KernelEntryOn(a: Csr, t: seq<real>, i: int, c: int): real
    requires Valid(a) && 0 <= i < Rows(a) && 0 <= c < Rows(a) && Rows(a) <= |t|
  {
    ColumnFits(a, c, |t|);
    assert RowInBuffer(a, i);
    RowDot(a, Scatter(a, t, Column(a, c)), a.rowPtr[i], a.rowPtr[i + 1])
  }

  /** Entry (i, c) computed with a zeroed `temp_vec` of width nz. */
  function KernelEntry(a: Csr, i: int, c: int): real
    requires Valid(a) && 0 <= i < Rows(a) && 0 <= c < Rows(a) && Rows(a) <= |a.values|
  {
    KernelEntryOn(a, Zeros(|a.values|), i, c)
  }

  /** The entry the kernel adds at flat index y = c + i*m of C. */
  function KernelAt(a: Csr, y: int): real
    requires Valid(a) && Rows(a) <= |a.values| && 0 <= y < Rows(a) * Rows(a)
  {
    PlaneSplit(Rows(a), y);
    KernelEntry(a, y / Rows(a), y % Rows(a))
  }

  /** All m·m entries the kernel adds to C in one repetition. */
  function KernelMatrix(a: Csr): (k: seq<real>)
    requires Valid(a) && Rows(a) <= |a.values|
    ensures |k| == Rows(a) * Rows(a)
  {
    seq(Rows(a) * Rows(a), y requires 0 <= y < Rows(a) * Rows(a) => KernelAt(a, y))
  }

  // ---------------------------------------------------------------------------
  // The columns of the CSC arrays

  /** Every entry of column c lies in one of the m rows and at a stored position. */
  lemma ColumnFits(a: Csr, c: int, n: int)
    requires Shaped(a) && Rows(a) <= n
    ensures Fits(a, Column(a, c), n)
  {
    ColumnSorted(a, c);
    forall t | 0 <= t < |Column(a, c)|
      ensures 0 <= Column(a, c)[t].row < n && 0 <= Column(a, c)[t].pos < |a.values|
    {
      assert RowInBuffer(a, Column(a, c)[t].row);
    }
  }

  /** Columns 0 .. n-1 are a prefix of columns 0 .. n'-1. */
  lemma {:induction false} CscOrderPrefix(a: Csr, n: int, n': int)
    requires Shaped(a) && 0 <= n <= n'
    ensures |CscOrder(a, n)| <= |CscOrder(a, n')| && CscOrder(a, n')[..|CscOrder(a, n)|] == CscOrder(a, n)
    decreases n' - n
  {
    if n < n' {
      CscOrderPrefix(a, n, n' - 1);
      var p := CscOrder(a, n' - 1);
      assert CscOrder(a, n') == p + Column(a, n' - 1);
      assert (p + Column(a, n' - 1))[..|p|] == p;
    }
  }

  /**
   * Column j of B occupies CSC slots `col_csc_idx[j] .. col_csc_idx[j+1]-1`,
   * holding the entries of Column(a, j) in order.
   */
  lemma ColumnRecorded(a: Csr, bCsc: seq<real>, rowCsc: seq<int>, colCsc: seq<int>, j: int)
    requires Valid(a) && CscOf(a, bCsc, rowCsc, colCsc) && 0 <= j < Rows(a)
    ensures colCsc[j] == |CscOrder(a, j)| && colCsc[j + 1] == colCsc[j] + |Column(a, j)|
    ensures Recorded(a, bCsc, rowCsc, colCsc[j], Column(a, j))
  {
    var order, p, col := CscOrder(a, Rows(a)), CscOrder(a, j), Column(a, j);
    assert CscOrder(a, j + 1) == p + col;
    CscOrderPrefix(a, j + 1, Rows(a));
    forall t | 0 <= t < |col|
      ensures RecordedAt(a, bCsc, rowCsc, colCsc[j] + t, col[t])
    {
      assert order[|p| + t] == (p + col)[|p| + t] == col[t];
      assert RecordedAt(a, bCsc, rowCsc, 0 + (|p| + t), order[|p| + t]);
    }
  }

  // ---------------------------------------------------------------------------
  // The scatter builds the dense column

  lemma {:induction false} ScatterAppend(a: Csr, t: seq<real>, s: seq<Nonzero>, u: seq<Nonzero>)
    requires Fits(a, s, |t|) && Fits(a, u, |t|)
    ensures Fits(a, s + u, |t|)
    ensures Scatter(a, t, s + u) == Scatter(a, Scatter(a, t, s), u)
    decreases |u|
  {
    FitsAppend(a, s, u, |t|);
    if |u| > 0 {
      var u' := u[..|u| - 1];
      assert Fits(a, u', |t|);
      ScatterAppend(a, t, s, u');
      assert (s + u)[..|s + u| - 1] == s + u';
      assert (s + u)[|s + u| - 1] == u[|u| - 1];
    } else {
      assert s + u == s;
    }
  }

  lemma FitsAppend(a: Csr, s: seq<Nonzero>, u: seq<Nonzero>, n: int)
    requires Fits(a, s, n) && Fits(a, u, n)
    ensures Fits(a, s + u, n)
  {
    forall t | 0 <= t < |s + u|
      ensures 0 <= (s + u)[t].row < n && 0 <= (s + u)[t].pos < |a.values|
    {
      if t < |s| {
        assert (s + u)[t] == s[t];
      } else {
        assert (s + u)[t] == u[t - |s|];
      }
    }
  }

  /** A row scan that meets no entry of column c finds nothing and sums to 0. */
  lemma {:induction false} RowScanNone(a: Csr, c: int, k: int, hi: int)
    requires Shaped(a) && 0 <= k < Rows(a) && a.rowPtr[k] <= hi <= a.rowPtr[k + 1]
    requires forall p :: 0 <= p < |a.colIdx| && a.rowPtr[k] <= p < hi ==> a.colIdx[p] != c
    ensures RowInBuffer(a, k)
    ensures RowScan(a, c, k, hi) == [] && ColumnSum(a, c, a.rowPtr[k], hi) == 0.0
    decreases hi
  {
    assert RowInBuffer(a, k);
    if hi > a.rowPtr[k] {
      RowScanNone(a, c, k, hi - 1);
    }
  }

  /**
   * Scattering row k's entries of column c over a buffer whose slot k is 0
   * sets slot k to the row's entry (i, c) and nothing else, when the row
   * stores column c at most once.
   */
  lemma {:induction false} RowScatter(a: Csr, c: int, k: int, hi: int, t: seq<real>)
    requires Shaped(a) && 0 <= k < Rows(a) && a.rowPtr[k] <= hi <= a.rowPtr[k + 1]
    requires DistinctRow(a, k) && k < |t| && t[k] == 0.0
    ensures RowInBuffer(a, k)
    ensures Fits(a, RowScan(a, c, k, hi), |t|)
    ensures Scatter(a, t, RowScan(a, c, k, hi)) == t[k := ColumnSum(a, c, a.rowPtr[k], hi)]
    decreases hi
  {
    assert RowInBuffer(a, k);
    var lo := a.rowPtr[k];
    var s := RowScan(a, c, k, hi);
    assert Fits(a, s, |t|) by {
      RowScanSorted(a, c, k, hi);
      forall u | 0 <= u < |s|
        ensures 0 <= s[u].row < |t| && 0 <= s[u].pos < |a.values|
      {
        assert s[u].row == k;
      }
    }
    if hi == lo {
      assert s == [] && ColumnSum(a, c, lo, hi) == 0.0;
      assert Scatter(a, t, s) == t == t[k := 0.0];
    } else if a.colIdx[hi - 1] == c {
      assert ColumnSum(a, c, lo, hi - 1) == 0.0 && RowScan(a, c, k, hi - 1) == [] by {
        assert DistinctRow(a, k);
        assert forall p :: 0 <= p < |a.colIdx| && lo <= p < hi - 1 ==> a.colIdx[p] != c;
        RowScanNone(a, c, k, hi - 1);
      }
      assert s == [Nonzero(hi - 1, k)];
      assert ColumnSum(a, c, lo, hi) == a.values[hi - 1];
      assert Scatter(a, t, s) == Scatter(a, t, [])[k := a.values[hi - 1]] by {
        assert s[..0] == [];
      }
    } else {
      var s' := RowScan(a, c, k, hi - 1);
      assert s == s';
      assert ColumnSum(a, c, lo, hi) == ColumnSum(a, c, lo, hi - 1);
      RowScatter(a, c, k, hi - 1, t);
    }
  }

  /**
   * Scattering column c's entries of rows 0 .. j-1 over a zeroed buffer gives
   * the dense column: the entry (r, c) at every row r below j, 0 elsewhere.
   */
  lemma {:induction false} ColumnScatter(a: Csr, c: int, j: int, n: nat)
    requires Shaped(a) && DistinctColumns(a) && 0 <= j <= Rows(a) <= n
    ensures Fits(a, ColumnScan(a, c, j), n)
    ensures Scatter(a, Zeros(n), ColumnScan(a, c, j)) == ColumnVector(a, c, j, n)
  {
    if j == 0 {
      assert ColumnVector(a, c, 0, n) == Zeros(n);
    } else {
      assert RowInBuffer(a, j - 1);
      var s, u := ColumnScan(a, c, j - 1), RowScan(a, c, j - 1, a.rowPtr[j]);
      var v := ColumnVector(a, c, j - 1, n);
      assert ColumnScan(a, c, j) == s + u;
      ColumnScatter(a, c, j - 1, n);
      ColumnVectorStep(a, c, j, n);
      RowScatterAll(a, c, j - 1, v);
      ScatterAppend(a, Zeros(n), s, u);
    }
  }

  /** Row k's entries of column c, scattered over a buffer whose slot k is 0, set slot k to entry (k, c). */
  lemma RowScatterAll(a: Csr, c: int, k: int, t: seq<real>)
    requires Shaped(a) && DistinctColumns(a) && 0 <= k < Rows(a) && k < |t| && t[k] == 0.0
    ensures RowInBuffer(a, k)
    ensures Fits(a, RowScan(a, c, k, a.rowPtr[k + 1]), |t|)
    ensures Scatter(a, t, RowScan(a, c, k, a.rowPtr[k + 1])) == t[k := Entry(a, k, c)]
  {
    assert RowInBuffer(a, k) && DistinctRow(a, k);
    RowScatter(a, c, k, a.rowPtr[k + 1], t);
  }

  /** The dense column up to row j is the one up to row j-1 with entry (j-1, c) set. */
  lemma ColumnVectorStep(a: Csr, c: int, j: int, n: nat)
    requires Shaped(a) && 0 < j <= Rows(a) <= n
    ensures ColumnVector(a, c, j - 1, n)[j - 1] == 0.0
    ensures ColumnVector(a, c, j - 1, n)[j - 1 := Entry(a, j - 1, c)] == ColumnVector(a, c, j, n)
  {
  }

  /** The dense dot product of row i with the dense column c is entry (i, c) of A·A. */
  lemma {:induction false} DenseIsProduct(a: Csr, i: int, c: int, n: nat)
    requires Valid(a) && 0 <= i < Rows(a) && 0 <= c < Rows(a) && n <= Rows(a) <= |a.values|
    ensures RowInBuffer(a, i)
    ensures DenseDot(a, ColumnVector(a, c, Rows(a), |a.values|), a.rowPtr[i], a.rowPtr[i + 1], n) == ProductSum(a, i, c, n)
  {
    assert RowInBuffer(a, i);
    if n > 0 {
      DenseIsProduct(a, i, c, n - 1);
      assert ColumnVector(a, c, Rows(a), |a.values|)[n - 1] == Entry(a, n - 1, c);
    }
  }

  /**
   * With `temp_vec` zeroed, the kernel's entry (i, c) is entry (i, c) of the
   * dense product A·A, for a matrix that stores each entry once.
   */
  lemma KernelIsProduct(a: Csr, i: int, c: int)
    requires Valid(a) && DistinctColumns(a) && Rows(a) <= |a.values|
    requires 0 <= i < Rows(a) && 0 <= c < Rows(a)
    ensures KernelEntry(a, i, c) == ProductSum(a, i, c, Rows(a))
  {
    var m, nz := Rows(a), |a.values|;
    ColumnFits(a, c, nz);
    ColumnScatter(a, c, m, nz);
    var x := ColumnVector(a, c, m, nz);
    assert RowInBuffer(a, i);
    RowDotIsDense(a, x, a.rowPtr[i], a.rowPtr[i + 1], m);
    DenseIsProduct(a, i, c, m);
  }

  /** Entry (y / m, y % m) of A·A, the product entry stored at flat index y of C. */
  function ProductAt(a: Csr, y: int): real
    requires Shaped(a) && 0 <= y < Rows(a) * Rows(a)
  {
    PlaneSplit(Rows(a), y);
    ProductSum(a, y / Rows(a), y % Rows(a), Rows(a))
  }

  /** Flat index `j + i*m` holds entry (i, j). */
  lemma ProductAtCell(a: Csr, i: int, j: int)
    requires Shaped(a) && 0 <= i < Rows(a) && 0 <= j < Rows(a)
    ensures 0 <= j + i * Rows(a) < Rows(a) * Rows(a)
    ensures ProductAt(a, j + i * Rows(a)) == ProductSum(a, i, j, Rows(a))
  {
    PlaneBound(Rows(a), i, j);
    PlaneJoin(Rows(a), i, j);
  }

  /** KernelIsProduct at flat index y of C. */
  lemma KernelAtIsProduct(a: Csr, y: int)
    requires Valid(a) && DistinctColumns(a) && Rows(a) <= |a.values| && 0 <= y < Rows(a) * Rows(a)
    ensures KernelAt(a, y) == ProductAt(a, y)
  {
    PlaneSplit(Rows(a), y);
    KernelIsProduct(a, y / Rows(a), y % Rows(a));
  }

  /** One repetition of the kernel with zeroed temporaries adds exactly A·A to C. */
  lemma KernelMatrixIsProduct(a: Csr)
    requires Valid(a) && DistinctColumns(a) && Rows(a) <= |a.values|
    ensures forall y :: 0 <= y < Rows(a) * Rows(a) ==> KernelAt(a, y) == ProductAt(a, y)
  {
    forall y | 0 <= y < Rows(a) * Rows(a)
      ensures KernelAt(a, y) == ProductAt(a, y)
    {
      KernelAtIsProduct(a, y);
    }
  }

  // ---------------------------------------------------------------------------
  // The temporary as the source allocates it

  /** The 2×2 identity, written out. */
  const Id2: Csr := Csr([1.0, 1.0], [0, 1], [0, 1, 2])

  lemma Id2Valid()
    ensures Valid(Id2) && DistinctColumns(Id2)
  {
    assert RowInBuffer(Id2, 0) && RowInBuffer(Id2, 1);
  }

  /** Column 0 of the identity holds its one entry, in row 0. */
  lemma Id2Column()
    ensures Valid(Id2) && Column(Id2, 0) == [Nonzero(0, 0)]
  {
    Id2Valid();
    assert RowScan(Id2, 0, 0, 0) == [];
    assert RowScan(Id2, 0, 0, 1) == [Nonzero(0, 0)];
    assert RowScan(Id2, 0, 1, 1) == [];
    assert RowScan(Id2, 0, 1, 2) == [];
    assert ColumnScan(Id2, 0, 1) == [Nonzero(0, 0)];
  }

  /**
   * `temp_vec` is `malloc`'d and never cleared, so rows missing from column c
   * keep whatever the buffer held. For the 2×2 identity, column 0 sets only
   * slot 0; a stale 1.0 in slot 1 then makes entry (1, 0) equal 1.0, while
   * the product's entry (1, 0) is 0.
   */
  lemma StaleTempBreaksProduct()
    ensures Valid(Id2) && DistinctColumns(Id2)
    ensures KernelEntryOn(Id2, [0.0, 1.0], 1, 0) == 1.0
    ensures ProductSum(Id2, 1, 0, 2) == 0.0
  {
    Id2Valid();
    Id2Column();
    var a := Id2;
    assert Scatter(a, [0.0, 1.0], Column(a, 0)) == [1.0, 1.0] by {
      assert Column(a, 0)[..0] == [];
    }
    assert RowDot(a, [1.0, 1.0], 1, 2) == 1.0;
    assert Entry(a, 1, 0) == 0.0 && Entry(a, 1, 1) == 1.0 && Entry(a, 0, 0) == 1.0 by {
      assert ColumnSum(a, 0, 1, 2) == 0.0;
      assert ColumnSum(a, 1, 1, 2) == 1.0;
      assert ColumnSum(a, 0, 0, 1) == 1.0;
    }
  }

  // ---------------------------------------------------------------------------
  // The kernel

  /** `for (k = col_csc_idx[j]; k < col_csc_idx[j+1]; k++) temp_vec[row_csc_idx[k]] = B_csc[k];` */
  method ScatterColumn(a: Csr, bCsc: seq<real>, rowCsc: seq<int>, lo: int, hi: int, c: int, temp: array<real>)
    requires Shaped(a) && 0 <= lo && hi == lo + |Column(a, c)|
    requires Recorded(a, bCsc, rowCsc, lo, Column(a, c)) && Fits(a, Column(a, c), temp.Length)
    modifies temp
    ensures temp[..] == Scatter(a, old(temp[..]), Column(a, c))
  {
    ghost var col := Column(a, c);
    for k := lo to hi
      invariant Fits(a, col[..k - lo], temp.Length)
      invariant temp[..] == Scatter(a, old(temp[..]), col[..k - lo])
    {
      assert RecordedAt(a, bCsc, rowCsc, lo + (k - lo), col[k - lo]);
      temp[rowCsc[k]] := bCsc[k];
      assert col[..k + 1 - lo][..k - lo] == col[..k - lo];
    }
    assert col[..hi - lo] == col;
  }

  /** `for (k = row_csr_idx[i]; k < row_csr_idx[i+1]; k++) C[j + i*m] += A_csr[k] * temp_vec[col_csr_idx[k]];` */
  method RowInto(a: Csr, x: seq<real>, C: array<real>, i: int, j: int)
    requires Shaped(a) && ColumnsBelow(a, |x|) && 0 <= i < Rows(a) && RowInBuffer(a, i) && 0 <= j + i * Rows(a) < C.Length
    modifies C
    ensures C[j + i * Rows(a)] == old(C[j + i * Rows(a)]) + RowDot(a, x, a.rowPtr[i], a.rowPtr[i + 1])
    ensures forall y :: 0 <= y < C.Length && y != j + i * Rows(a) ==> C[y] == old(C[y])
  {
    assert RowInBuffer(a, i);
    var idx := j + i * Rows(a);
    var k := a.rowPtr[i];
    while k < a.rowPtr[i + 1]
      invariant a.rowPtr[i] <= k <= a.rowPtr[i + 1]
      invariant C[idx] == old(C[idx]) + RowDot(a, x, a.rowPtr[i], k)
      invariant forall y :: 0 <= y < C.Length && y != idx ==> C[y] == old(C[y])
    {
      C[idx] := C[idx] + a.values[k] * x[a.colIdx[k]];
      k := k + 1;
    }
  }

  /** Flat index y is cell (i, j) exactly when y = j + i*m. */
  lemma CellOf(m: int, y: int, i: int, j: int)
    requires 0 <= i < m && 0 <= j < m && 0 <= y < m * m
    ensures 0 <= j + i * m < m * m
    ensures (y / m == i && y % m == j) <==> y == j + i * m
  {
    PlaneBound(m, i, j);
    PlaneSplit(m, y);
    PlaneJoin(m, i, j);
  }

  /**
   * One column j of one repetition: a zeroed `temp_vec` of width nz, the
   * scatter of column j of B, then every row of A into column j of C.
   */
  method SpgemmColumn(a: Csr, bCsc: seq<real>, rowCsc: seq<int>, colCsc: seq<int>, j: int, C: array<real>)
    requires Valid(a) && CscOf(a, bCsc, rowCsc, colCsc) && Rows(a) <= |a.values|
    requires 0 <= j < Rows(a) && C.Length == Rows(a) * Rows(a)
    modifies C
    ensures forall y :: 0 <= y < C.Length ==> C[y] == old(C[y]) + (if y % Rows(a) == j then KernelAt(a, y) else 0.0)
  {
    var m, nz := Rows(a), |a.values|;
    var temp := new real[nz](_ => 0.0);
    assert temp[..] == Zeros(nz);
    ColumnRecorded(a, bCsc, rowCsc, colCsc, j);
    ColumnFits(a, j, nz);
    ScatterColumn(a, bCsc, rowCsc, colCsc[j], colCsc[j + 1], j, temp);
    var x := temp[..];
    forall y | 0 <= y < C.Length
      ensures C[y] == old(C[y]) + (if y % m == j && y / m < 0 then KernelAt(a, y) else 0.0)
    {
      PlaneSplit(m, y);
    }
    for i := 0 to m
      invariant forall y :: 0 <= y < C.Length ==>
        C[y] == old(C[y]) + (if y % m == j && y / m < i then KernelAt(a, y) else 0.0)
    {
      PlaneBound(m, i, j);
      assert RowInBuffer(a, i);
      ghost var before := C[..];
      RowInto(a, x, C, i, j);
      forall y | 0 <= y < C.Length
        ensures C[y] == old(C[y]) + (if y % m == j && y / m < i + 1 then KernelAt(a, y) else 0.0)
      {
        CellOf(m, y, i, j);
        PlaneSplit(m, y);
        if y == j + i * m {
          assert KernelAt(a, y) == KernelEntry(a, i, j);
          assert C[y] == before[y] + KernelEntry(a, i, j);
        } else {
          assert C[y] == before[y];
        }
      }
    }
    forall y | 0 <= y < C.Length
      ensures C[y] == old(C[y]) + (if y % m == j then KernelAt(a, y) else 0.0)
    {
      PlaneSplit(m, y);
    }
  }

  /** One repetition: `for (j = 0; j < n; j++)` over the columns of B. */
  method SpgemmOnce(a: Csr, bCsc: seq<real>, rowCsc: seq<int>, colCsc: seq<int>, C: array<real>)
    requires Valid(a) && CscOf(a, bCsc, rowCsc, colCsc) && Rows(a) <= |a.values| && C.Length == Rows(a) * Rows(a)
    modifies C
    ensures forall y :: 0 <= y < C.Length ==> C[y] == old(C[y]) + KernelAt(a, y)
  {
    var m := Rows(a);
    for j := 0 to m
      invariant forall y :: 0 <= y < C.Length ==> C[y] == old(C[y]) + (if y % m < j then KernelAt(a, y) else 0.0)
    {
      SpgemmColumn(a, bCsc, rowCsc, colCsc, j, C);
    }
    forall y | 0 <= y < C.Length
      ensures C[y] == old(C[y]) + KernelAt(a, y)
    {
      PlaneSplit(m, y);
    }
  }

  /** `for (rep = 0; rep < r; rep++)`: C is never reset, so each entry grows by r times the kernel's entry. */
  method Spgemm(a: Csr, bCsc: seq<real>, rowCsc: seq<int>, colCsc: seq<int>, C: array<real>, r: nat)
    requires Valid(a) && CscOf(a, bCsc, rowCsc, colCsc) && Rows(a) <= |a.values| && C.Length == Rows(a) * Rows(a)
    modifies C
    ensures forall y :: 0 <= y < C.Length ==> C[y] == old(C[y]) + r as real * KernelAt(a, y)
  {
    ghost var k := KernelMatrix(a);
    for rep := 0 to r
      invariant Accumulated(old(C[..]), C[..], rep, k)
    {
      ghost var before := C[..];
      SpgemmOnce(a, bCsc, rowCsc, colCsc, C);
      RepeatStep(old(C[..]), before, C[..], rep, k);
    }
  }

  /**
   * `double_spgemm` after its input is read: the CSC form of A, C zeroed by
   * `calloc`, then r repetitions (100 for `ULONG_MAX`). ScaledProduct turns
   * this into r·(A·A) for a matrix storing each entry once.
   */
  method DoubleSpgemm(a: Csr, r: u64) returns (c: seq<real>)
    requires Valid(a) && Rows(a) <= |a.values|
    ensures |c| == Rows(a) * Rows(a)
    ensures forall y :: 0 <= y < |c| ==> c[y] == Reps(r, 100) as real * KernelAt(a, y)
  {
    var m := Rows(a);
    var bCsc, rowCsc, colCsc := CsrToCsc(a);
    var C := new real[m * m](_ => 0.0);
    var k := Reps(r, 100);
    Spgemm(a, bCsc, rowCsc, colCsc, C, k);
    c := C[..];
  }

  /** What DoubleSpgemm returns, k times every kernel entry, is k·(A·A) when each entry is stored once. */
  lemma ScaledProduct(a: Csr, c: seq<real>, k: nat)
    requires Valid(a) && DistinctColumns(a) && Rows(a) <= |a.values| && |c| == Rows(a) * Rows(a)
    requires forall y :: 0 <= y < |c| ==> c[y] == k as real * KernelAt(a, y)
    ensures forall y :: 0 <= y < |c| ==> c[y] == k as real * ProductAt(a, y)
  {
    KernelMatrixIsProduct(a);
  }
}
