/**
 * The integer dense kernels: dot product, scalar multiplication, Euclidean
 * norm, AXPY and the dense matrix-vector product.
 *
 * Each kernel works on vectors of `local_size*THREADS` C `int` elements, where
 * `local_size = size / THREADS`; the random fill done by thread 0 is replaced
 * by the arrays' contents on entry. A `upc_forall` loop becomes one sequential
 * loop over the global index space: every index has exactly one owner
 * (Distribution), and owners write disjoint elements or their own partial slot.
 */
module Dense {
  import opened Words
  import opened Arith
  import opened Distribution

  /** Element-wise products `a[i]*b[i]`, as mathematical integers. */
  function Products(a: seq<i32>, b: seq<i32>): (p: seq<int>)
    requires |a| == |b|
    ensures |p| == |a|
    ensures forall i :: 0 <= i < |a| ==> p[i] == a[i] as int * b[i]
  {
    seq(|a|, i requires 0 <= i < |a| => a[i] as int * b[i])
  }

  /** Element-wise squares `v[i]*v[i]`, as mathematical integers. */
  function Squares(v: seq<i32>): (p: seq<int>)
    ensures |p| == |v|
    ensures forall i :: 0 <= i < |v| ==> p[i] == v[i] as int * v[i]
  {
    seq(|v|, i requires 0 <= i < |v| => v[i] as int * v[i])
  }

  /**
   * `int_dot_product`: each thread accumulates `v1[i] * v2[i]` over the
   * indices it owns into its `unsigned int` slot of `tmp_result`; after the
   * barrier thread 0 adds the THREADS slots into `result`, which starts at 0.
   * The result is the exact dot product reduced modulo 2^32.
   */
  method DotProduct(layout: Layout, threads: nat, size: nat, v1: array<i32>, v2: array<i32>)
    returns (result: u32)
    requires threads > 0
    requires v1.Length == v2.Length == (size / threads) * threads
    ensures result == WrapU(Sum(Products(v1[..], v2[..]), v1.Length))
  {
    var localSize := size / threads;
    var n := localSize * threads;
    ghost var f := Products(v1[..], v2[..]);
    assert |f| == n;
    var tmpResult := DotPartials(layout, threads, localSize, v1, v2);
    if localSize == 0 {
      result := 0;
      for t := 0 to threads
        invariant result == 0
      {
        result := WrapU(result + tmpResult[t]);
      }
    } else {
      result := FoldSlots(f, layout, threads, localSize, n, tmpResult);
      Reduction(f, layout, threads, localSize, n);
    }
  }

  /**
   * Thread 0's loop over the `unsigned int` slots of `tmp_result`: the running
   * `result` is the total of the slots folded so far, reduced modulo 2^32.
   */
  method FoldSlots(ghost f: seq<int>, layout: Layout, threads: nat, localSize: nat, ghost n: nat, tmpResult: seq<u32>)
    returns (result: u32)
    requires threads > 0 && localSize > 0 && n <= |f| && |tmpResult| == threads
    requires forall t :: 0 <= t < threads ==> tmpResult[t] == WrapU(OwnedSum(f, layout, threads, localSize, t, n))
    ensures result == WrapU(SlotTotal(f, layout, threads, localSize, n, threads))
  {
    result := 0;
    for t := 0 to threads
      invariant result == WrapU(SlotTotal(f, layout, threads, localSize, n, t))
    {
      FoldStep(f, layout, threads, localSize, n, t);
      result := WrapU(result + tmpResult[t]);
    }
  }

  /**
   * The `upc_forall` phase of `int_dot_product`: the `tmp_result` slots after
   * every thread has added `v1[i] * v2[i]` for each index it owns.
   */
  method DotPartials(layout: Layout, threads: nat, localSize: nat, v1: array<i32>, v2: array<i32>)
    returns (tmpResult: seq<u32>)
    requires threads > 0
    requires v1.Length == v2.Length == localSize * threads
    ensures |tmpResult| == threads
    ensures forall t :: 0 <= t < threads ==>
      tmpResult[t] == if localSize > 0 then WrapU(OwnedSum(Products(v1[..], v2[..]), layout, threads, localSize, t, v1.Length)) else 0
  {
    var n := localSize * threads;
    ghost var f := Products(v1[..], v2[..]);
    var slots := new u32[threads](_ => 0);
    for i := 0 to n
      invariant forall t :: 0 <= t < threads ==>
        slots[t] == if localSize > 0 then WrapU(OwnedSum(f, layout, threads, localSize, t, i)) else 0
    {
      OwnerInRange(layout, threads, localSize, i);
      var me := Owner(layout, threads, localSize, i);
      var product: i32 := WrapS(v1[i] as int * v2[i]);
      assert f[i] == v1[i] as int * v2[i];
      SlotUpdate(OwnedSum(f, layout, threads, localSize, me, i), f[i]);
      slots[me] := WrapU(slots[me] + product);
    }
    tmpResult := slots[..];
  }

  /** One update of a partial slot: `slot + v1[i]*v2[i]` with the product computed in `int`. */
  lemma SlotUpdate(x: int, p: int)
    ensures WrapU(WrapU(x) + WrapS(p)) == WrapU(x + p)
  {
    WrapUAddLeft(x, WrapS(p));
    CongruentWrap(x + WrapS(p), x + p);
  }

  /** Folding slot t into the running total of slots 0 .. t-1. */
  lemma FoldStep(f: seq<int>, layout: Layout, threads: nat, localSize: nat, n: nat, t: nat)
    requires threads > 0 && localSize > 0 && n <= |f|
    ensures WrapU(WrapU(SlotTotal(f, layout, threads, localSize, n, t)) + WrapU(OwnedSum(f, layout, threads, localSize, t, n)))
         == WrapU(SlotTotal(f, layout, threads, localSize, n, t + 1))
  {
    FoldUpdate(SlotTotal(f, layout, threads, localSize, n, t), OwnedSum(f, layout, threads, localSize, t, n));
  }

  /** One step of thread 0's fold of the partial slots. */
  lemma FoldUpdate(x: int, y: int)
    ensures WrapU(WrapU(x) + WrapU(y)) == WrapU(x + y)
  {
    WrapUAddLeft(x, WrapU(y));
    CongruentWrap(x + WrapU(y), x + y);
  }

  /** One update of a signed slot: `slot + v[i]*v[i]` with the product computed in `int`. */
  lemma SignedUpdate(x: int, p: int)
    ensures WrapS(WrapS(x) + WrapS(p)) == WrapS(x + p)
  {
    WrapSAddLeft(x, WrapS(p));
    CongruentWrap(x + WrapS(p), x + p);
  }

  /** The new contents of `v` after `int_scalar_mult`. */
  function ScaledBy(a: u32, v: seq<i32>): (w: seq<i32>)
    ensures |w| == |v|
  {
    seq(|v|, i requires 0 <= i < |v| => WrapS(a as int * v[i]))
  }

  /**
   * `int_scalar_mult`: `v[i] = a * v[i]` in place for every `i < local_size*THREADS`,
   * the product taken in `unsigned int` and stored back into an `int`.
   */
  method ScalarMult(threads: nat, size: nat, a: u32, v: array<i32>)
    requires threads > 0 && v.Length == (size / threads) * threads
    modifies v
    ensures v[..] == ScaledBy(a, old(v[..]))
  {
    var n := (size / threads) * threads;
    for i := 0 to n
      invariant forall k :: 0 <= k < i ==> v[k] == WrapS(a as int * old(v[k]))
      invariant forall k :: i <= k < n ==> v[k] == old(v[k])
    {
      v[i] := WrapS(WrapU(a as int * v[i]));
    }
  }

  /** A scalar of 1 leaves the vector unchanged. */
  lemma ScaledByOne(v: seq<i32>)
    ensures ScaledBy(1, v) == v
  {
  }

  /** The value of `(int) sqrt(sum)`: NaN for a negative sum. */
  datatype SqrtResult = Root(value: nat) | NotANumber

  /** Integer square root: the largest `r` with `r*r <= s`. */
  function ISqrt(s: nat): (r: nat)
    ensures r * r <= s < (r + 1) * (r + 1)
  {
    if s == 0 then 0
    else
      var r := ISqrt(s - 1);
      if (r + 1) * (r + 1) <= s then r + 1 else r
  }

  /** `norm = sqrt(sum)` with the double truncated back to `int`. */
  function NormOf(sum: i32): (r: SqrtResult)
    ensures r.Root? <==> sum >= 0
    ensures r.Root? ==> r.value * r.value <= sum < (r.value + 1) * (r.value + 1)
  {
    if sum < 0 then NotANumber else Root(ISqrt(sum))
  }

  /**
   * `int_norm`: each thread adds `v[i]*v[i]` over the indices it owns into its
   * signed slot of `part_sum`; thread 0 folds the slots into `sum` and takes
   * the square root. The loop bound is `size`, so all of `v` is covered only
   * when THREADS divides `size`.
   */
  method Norm(layout: Layout, threads: nat, size: nat, v: array<i32>) returns (sum: i32, norm: SqrtResult)
    requires threads > 0 && size % threads == 0 && v.Length == size
    ensures sum == WrapS(Sum(Squares(v[..]), size))
    ensures norm == NormOf(sum)
  {
    var localSize := size / threads;
    ghost var f := Squares(v[..]);
    var partSum := NormPartials(layout, threads, localSize, v);
    if localSize == 0 {
      sum := 0;
      for t := 0 to threads
        invariant sum == 0
      {
        sum := WrapS(sum + partSum[t]);
      }
    } else {
      sum := FoldSigned(f, layout, threads, localSize, size, partSum);
      Reduction(f, layout, threads, localSize, size);
    }
    norm := NormOf(sum);
  }

  /** Thread 0's loop over the signed slots of `part_sum`, reduced as a C `int`. */
  method FoldSigned(ghost f: seq<int>, layout: Layout, threads: nat, localSize: nat, ghost n: nat, partSum: seq<i32>)
    returns (sum: i32)
    requires threads > 0 && localSize > 0 && n <= |f| && |partSum| == threads
    requires forall t :: 0 <= t < threads ==> partSum[t] == WrapS(OwnedSum(f, layout, threads, localSize, t, n))
    ensures sum == WrapS(SlotTotal(f, layout, threads, localSize, n, threads))
  {
    sum := 0;
    for t := 0 to threads
      invariant sum == WrapS(SlotTotal(f, layout, threads, localSize, n, t))
    {
      ghost var slot := OwnedSum(f, layout, threads, localSize, t, n);
      ghost var before := SlotTotal(f, layout, threads, localSize, n, t);
      assert SlotTotal(f, layout, threads, localSize, n, t + 1) == before + slot;
      SignedFold(before, slot);
      sum := WrapS(sum + partSum[t]);
    }
  }

  /** The `upc_forall` phase of `int_norm`: the `part_sum` slots. */
  method NormPartials(layout: Layout, threads: nat, localSize: nat, v: array<i32>)
    returns (partSum: seq<i32>)
    requires threads > 0 && v.Length == localSize * threads
    ensures |partSum| == threads
    ensures forall t :: 0 <= t < threads ==>
      partSum[t] == if localSize > 0 then WrapS(OwnedSum(Squares(v[..]), layout, threads, localSize, t, v.Length)) else 0
  {
    var n := localSize * threads;
    ghost var f := Squares(v[..]);
    var slots := new i32[threads](_ => 0);
    for i := 0 to n
      invariant forall t :: 0 <= t < threads ==>
        slots[t] == if localSize > 0 then WrapS(OwnedSum(f, layout, threads, localSize, t, i)) else 0
    {
      OwnerInRange(layout, threads, localSize, i);
      var me := Owner(layout, threads, localSize, i);
      var square: i32 := WrapS(v[i] as int * v[i]);
      assert f[i] == v[i] as int * v[i];
      SignedUpdate(OwnedSum(f, layout, threads, localSize, me, i), f[i]);
      slots[me] := WrapS(slots[me] + square);
    }
    partSum := slots[..];
  }

  lemma SignedFold(x: int, y: int)
    ensures WrapS(WrapS(x) + WrapS(y)) == WrapS(x + y)
  {
    SignedUpdate(x, y);
  }

  /** A vector with one nonzero entry `m` has sum of squares `m*m`. */
  lemma {:induction false} SquaresOfSingleEntry(v: seq<i32>, p: nat, m: i32, n: nat)
    requires p < |v| && v[p] == m && n <= |v|
    requires forall i :: 0 <= i < |v| && i != p ==> v[i] == 0
    ensures Sum(Squares(v), n) == if p < n then m as int * m else 0
  {
    if n > 0 {
      SquaresOfSingleEntry(v, p, m, n - 1);
    }
  }

  /** Only `m` itself lies between consecutive squares around `m*m`. */
  lemma RootOfSquareIsUnique(r: nat, m: nat)
    requires r * r <= m * m < (r + 1) * (r + 1)
    ensures r == m
  {
    if r < m {
      MulMono(r + 1, m, r + 1);
      MulMono(r + 1, m, m);
      assert false;
    } else if r > m {
      MulMono(m + 1, r, r);
      MulMono(m + 1, r, m + 1);
      assert false;
    }
  }

  /** The integer square root of a perfect square `m*m` is `m`. */
  lemma ISqrtOfSquare(m: nat)
    ensures ISqrt(m * m) == m
  {
    RootOfSquareIsUnique(ISqrt(m * m), m);
  }

  /**
   * Norm of a vector with exactly one nonzero entry of magnitude `|m|`: when
   * `m*m` fits in an `int`, the reduced sum is `m*m` and the norm is `|m|`.
   */
  lemma NormOfSingleEntry(v: seq<i32>, p: nat, m: i32)
    requires p < |v| && v[p] == m
    requires forall i :: 0 <= i < |v| && i != p ==> v[i] == 0
    requires m as int * m < TWO31
    ensures WrapS(Sum(Squares(v), |v|)) == m as int * m
    ensures NormOf(WrapS(Sum(Squares(v), |v|))) == Root(if m < 0 then -m else m)
  {
    SquaresOfSingleEntry(v, p, m, |v|);
    var a: nat := if m < 0 then -m else m;
    assert a * a == m as int * m;
    ISqrtOfSquare(a);
  }

  /** Dot product of two all-ones vectors of length N: N modulo 2^32. */
  lemma {:induction false} DotOfOnes(a: seq<i32>, b: seq<i32>, n: nat)
    requires |a| == |b| && n <= |a|
    requires forall i :: 0 <= i < |a| ==> a[i] == 1 && b[i] == 1
    ensures Sum(Products(a, b), n) == n
  {
    if n > 0 {
      DotOfOnes(a, b, n - 1);
    }
  }

  /** The new contents of `y` after `int_axpy`: `a * x[i] + y[i]` in `int`. */
  function AxpyResult(a: i32, x: seq<i32>, y: seq<i32>): (r: seq<i32>)
    requires |x| == |y|
    ensures |r| == |y|
  {
    seq(|y|, i requires 0 <= i < |y| => WrapS(WrapS(a as int * x[i]) + y[i]))
  }

  /**
   * `int_axpy`: `y[i] = a * x[i] + y[i]` for every `i < size`. The loop bound is
   * `size`, so the vectors of `local_size*THREADS` elements are covered exactly
   * when THREADS divides `size`.
   */
  method Axpy(threads: nat, size: nat, a: i32, x: array<i32>, y: array<i32>)
    requires threads > 0 && size % threads == 0
    requires x.Length == y.Length == size && x != y
    modifies y
    ensures y[..] == AxpyResult(a, old(x[..]), old(y[..]))
    ensures x[..] == old(x[..])
  {
    for i := 0 to size
      invariant forall k :: 0 <= k < i ==> y[k] == WrapS(WrapS(a as int * x[k]) + old(y[k]))
      invariant forall k :: i <= k < size ==> y[k] == old(y[k])
    {
      y[i] := WrapS(WrapS(a as int * x[i]) + y[i]);
    }
  }

  /** AXPY with a = 0 leaves y unchanged. */
  lemma AxpyZeroScalar(x: seq<i32>, y: seq<i32>)
    requires |x| == |y|
    ensures AxpyResult(0, x, y) == y
  {
  }

  /** AXPY with a = 1 and x = y = all ones gives 2 everywhere. */
  lemma AxpyOnes(x: seq<i32>, y: seq<i32>)
    requires |x| == |y|
    requires forall i :: 0 <= i < |x| ==> x[i] == 1 && y[i] == 1
    ensures forall i :: 0 <= i < |y| ==> AxpyResult(1, x, y)[i] == 2
  {
  }

  /** `Σ_{j<m} A[start+j] * x[j]`: part of one row of the row-major matrix times `x`. */
  function RowSum(A: seq<i32>, x: seq<i32>, start: nat, m: nat): int
    requires m <= |x| && start + m <= |A|
  {
    if m == 0 then 0 else RowSum(A, x, start, m - 1) + A[start + m - 1] as int * x[m - 1]
  }

  /** Row `i` of an N×N row-major matrix lies inside the matrix. */
  lemma RowInMatrix(n: nat, i: nat)
    requires i < n
    ensures i * n + n <= n * n
  {
    MulMono(i + 1, n, n);
  }

  /** `Σ_{j<N} A[i*N + j] * x[j]`: row `i` of the N×N matrix times `x`. */
  function RowTimes(A: seq<i32>, n: nat, i: nat, x: seq<i32>): int
    requires i < n && |A| == n * n && |x| == n
  {
    RowInMatrix(n, i);
    RowSum(A, x, i * n, n)
  }

  /**
   * `int_dmatvec_product`: for each row `i` (run by the owner of `y[i]`),
   * `y[i] = y[i] + A[i*N + j] * x[j]` for `j < N`, N = `local_size*THREADS`.
   * `y` is never zeroed by the source, so its contents on entry are kept.
   */
  method DmatvecProduct(threads: nat, size: nat, A: array<i32>, x: array<i32>, y: array<i32>)
    requires threads > 0
    requires x.Length == y.Length == (size / threads) * threads
    requires A.Length == x.Length * x.Length
    requires y != x && y != A
    modifies y
    ensures forall i :: 0 <= i < y.Length ==>
      y[i] == WrapS(old(y[i]) + RowTimes(A[..], y.Length, i, x[..]))
  {
    var n := (size / threads) * threads;
    for i := 0 to n
      invariant forall k :: 0 <= k < i ==> y[k] == WrapS(old(y[k]) + RowTimes(A[..], n, k, x[..]))
      invariant forall k :: i <= k < n ==> y[k] == old(y[k])
    {
      RowProduct(A, x, y, n, i);
    }
  }

  /** The body of one `upc_forall` iteration of `int_dmatvec_product`: row `i`. */
  method RowProduct(A: array<i32>, x: array<i32>, y: array<i32>, n: nat, i: nat)
    requires x.Length == y.Length == n && A.Length == n * n && i < n
    requires y != x && y != A
    modifies y
    ensures y[i] == WrapS(old(y[i]) + RowTimes(A[..], n, i, x[..]))
    ensures forall k :: 0 <= k < n && k != i ==> y[k] == old(y[k])
  {
    RowInMatrix(n, i);
    var start := i * n;
    for j := 0 to n
      invariant y[i] == WrapS(old(y[i]) + RowSum(A[..], x[..], start, j))
      invariant forall k :: 0 <= k < n && k != i ==> y[k] == old(y[k])
    {
      SignedUpdate(old(y[i]) + RowSum(A[..], x[..], start, j), A[start + j] as int * x[j]);
      y[i] := WrapS(y[i] + WrapS(A[start + j] as int * x[j]));
    }
  }

  /**
   * With `x` filled with `r1` and `A` with `r2`, each row contributes
   * `N * r1 * r2` to `y[i]`.
   */
  lemma {:induction false} RowSumOfConstants(A: seq<i32>, x: seq<i32>, start: nat, m: nat, r1: i32, r2: i32)
    requires m <= |x| && start + m <= |A|
    requires forall j :: 0 <= j < |x| ==> x[j] == r1
    requires forall j :: 0 <= j < |A| ==> A[j] == r2
    ensures RowSum(A, x, start, m) == m * (r1 as int * r2)
  {
    if m > 0 {
      RowSumOfConstants(A, x, start, m - 1, r1, r2);
      assert m * (r1 as int * r2) == (m - 1) * (r1 as int * r2) + r2 as int * r1;
    }
  }
}
