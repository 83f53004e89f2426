/**
 * Owner-computes distribution of the partitioned arrays.
 *
 * Every dense kernel sets `local_size = size / THREADS`, allocates THREADS
 * blocks of `local_size` elements each, and runs
 * `upc_forall (i = 0; i < local_size*THREADS; i++; &v[i])`, so iteration `i`
 * runs exactly once, on the thread with affinity to `v[i]`. Partial results are
 * kept in one slot per thread and folded serially by thread 0.
 *
 * The kernels view the storage through a plain `shared int *`, whose block
 * size is 1, so element `i` has affinity to thread `i % THREADS` (Cyclic). The
 * allocation's block size suggests the contiguous reading `i / local_size`
 * (Blocked). Both are modelled; every kernel result below holds for each.
 */
module Distribution {
  import opened Arith

  datatype Layout = Cyclic | Blocked

  /** The thread that executes iteration `i` of a `upc_forall` with affinity `&v[i]`. */
  function Owner(layout: Layout, threads: nat, localSize: nat, i: nat): nat
    requires threads > 0 && localSize > 0
  {
    match layout
    case Cyclic => i % threads
    case Blocked => i / localSize
  }

  /** Every iteration of the loop `i < local_size*THREADS` has an owner among the THREADS threads. */
  lemma OwnerInRange(layout: Layout, threads: nat, localSize: nat, i: nat)
    requires threads > 0 && localSize > 0 && i < threads * localSize
    ensures Owner(layout, threads, localSize, i) < threads
  {
    if layout == Blocked && i / localSize >= threads {
      MulMono(threads, i / localSize, localSize);
      assert false;
    }
  }

  /** Under the Blocked layout the shard of thread `t` is the contiguous range [t*L, t*L + L). */
  lemma BlockedShardIsContiguous(threads: nat, localSize: nat, t: nat, i: nat)
    requires threads > 0 && localSize > 0
    ensures Owner(Blocked, threads, localSize, i) == t <==> t * localSize <= i < t * localSize + localSize
  {
    var q := i / localSize;
    assert q * localSize <= i < q * localSize + localSize;
    if t * localSize <= i < t * localSize + localSize {
      DivIsQuotient(i, localSize, t);
    }
  }

  /** Number of indices below `n` that thread `t` owns. */
  function OwnedCount(layout: Layout, threads: nat, localSize: nat, t: nat, n: nat): nat
    requires threads > 0 && localSize > 0
  {
    if n == 0 then 0
    else OwnedCount(layout, threads, localSize, t, n - 1)
         + (if Owner(layout, threads, localSize, n - 1) == t then 1 else 0)
  }

  /** Under the Blocked layout thread `t` owns the part of [0, n) that falls into [t*L, t*L + L). */
  lemma {:induction false} BlockedCount(threads: nat, localSize: nat, t: nat, n: nat)
    requires threads > 0 && localSize > 0
    ensures OwnedCount(Blocked, threads, localSize, t, n)
            == if n <= t * localSize then 0
               else if n <= t * localSize + localSize then n - t * localSize
               else localSize
  {
    if n > 0 {
      BlockedCount(threads, localSize, t, n - 1);
      BlockedShardIsContiguous(threads, localSize, t, n - 1);
    }
  }

  /** Under the Cyclic layout thread `t < P` owns exactly one of the first P indices. */
  lemma {:induction false} CyclicCountFirstRound(threads: nat, localSize: nat, t: nat, n: nat)
    requires threads > 0 && localSize > 0 && t < threads && n <= threads
    ensures OwnedCount(Cyclic, threads, localSize, t, n) == if t < n then 1 else 0
  {
    if n > 0 {
      CyclicCountFirstRound(threads, localSize, t, n - 1);
      DivIsQuotient(n - 1, threads, 0);
    }
  }

  /** Under the Cyclic layout ownership repeats with period THREADS. */
  lemma CyclicPeriodic(threads: nat, localSize: nat, m: nat)
    requires threads > 0 && localSize > 0
    ensures Owner(Cyclic, threads, localSize, m + threads) == Owner(Cyclic, threads, localSize, m)
  {
    DivIsQuotient(m, threads, m / threads);
    DivIsQuotient(m + threads, threads, m / threads + 1);
  }

  /** Under the Cyclic layout every window of P consecutive indices holds one index of each thread. */
  lemma {:induction false} CyclicWindow(threads: nat, localSize: nat, t: nat, n: nat)
    requires threads > 0 && localSize > 0 && t < threads
    ensures OwnedCount(Cyclic, threads, localSize, t, n + threads)
            == OwnedCount(Cyclic, threads, localSize, t, n) + 1
  {
    if n == 0 {
      CyclicCountFirstRound(threads, localSize, t, threads);
    } else {
      var m := n - 1;
      CyclicWindow(threads, localSize, t, m);
      CyclicPeriodic(threads, localSize, m);
      assert OwnedCount(Cyclic, threads, localSize, t, n + threads)
          == OwnedCount(Cyclic, threads, localSize, t, m + threads)
             + (if Owner(Cyclic, threads, localSize, m + threads) == t then 1 else 0);
    }
  }

  lemma {:induction false} CyclicCount(threads: nat, localSize: nat, t: nat, q: nat)
    requires threads > 0 && localSize > 0 && t < threads
    ensures OwnedCount(Cyclic, threads, localSize, t, q * threads) == q
  {
    if q > 0 {
      CyclicCount(threads, localSize, t, q - 1);
      var base := (q - 1) * threads;
      assert base + threads == q * threads;
      CyclicWindow(threads, localSize, t, base);
    }
  }

  /** Each thread's shard holds exactly `local_size` indices, whatever the layout. */
  lemma ShardSize(layout: Layout, threads: nat, localSize: nat, t: nat)
    requires threads > 0 && localSize > 0 && t < threads
    ensures OwnedCount(layout, threads, localSize, t, threads * localSize) == localSize
  {
    if layout == Blocked {
      BlockedShardSize(threads, localSize, t);
    } else {
      CyclicShardSize(threads, localSize, t);
    }
  }

  lemma BlockedShardSize(threads: nat, localSize: nat, t: nat)
    requires threads > 0 && localSize > 0 && t < threads
    ensures OwnedCount(Blocked, threads, localSize, t, threads * localSize) == localSize
  {
    var n := threads * localSize;
    BlockedCount(threads, localSize, t, n);
    MulMono(t + 1, threads, localSize);
    assert t * localSize + localSize <= n;
  }

  lemma CyclicShardSize(threads: nat, localSize: nat, t: nat)
    requires threads > 0 && localSize > 0 && t < threads
    ensures OwnedCount(Cyclic, threads, localSize, t, threads * localSize) == localSize
  {
    assert localSize * threads == threads * localSize;
    CyclicCount(threads, localSize, t, localSize);
  }

  /** Sum over the first `k` threads of their shard sizes. */
  function ShardSizes(layout: Layout, threads: nat, localSize: nat, k: nat): nat
    requires threads > 0 && localSize > 0
  {
    if k == 0 then 0
    else ShardSizes(layout, threads, localSize, k - 1)
         + OwnedCount(layout, threads, localSize, k - 1, threads * localSize)
  }

  /** The shard sizes of the THREADS threads add up to `local_size*THREADS`. */
  lemma {:induction false} ShardSizesSum(layout: Layout, threads: nat, localSize: nat, k: nat)
    requires threads > 0 && localSize > 0 && k <= threads
    ensures ShardSizes(layout, threads, localSize, k) == k * localSize
  {
    if k > 0 {
      ShardSizesSum(layout, threads, localSize, k - 1);
      ShardSize(layout, threads, localSize, k - 1);
      assert (k - 1) * localSize + localSize == k * localSize;
    }
  }

  /** Sum of the first `n` entries of `f`. */
  function Sum(f: seq<int>, n: nat): int
    requires n <= |f|
  {
    if n == 0 then 0 else Sum(f, n - 1) + f[n - 1]
  }

  /** What thread `t` accumulates in its partial slot from iterations below `n`. */
  function OwnedSum(f: seq<int>, layout: Layout, threads: nat, localSize: nat, t: nat, n: nat): int
    requires threads > 0 && localSize > 0 && n <= |f|
  {
    if n == 0 then 0
    else OwnedSum(f, layout, threads, localSize, t, n - 1)
         + (if Owner(layout, threads, localSize, n - 1) == t then f[n - 1] else 0)
  }

  /** Thread 0's serial fold of the partial slots of threads below `k`. */
  function SlotTotal(f: seq<int>, layout: Layout, threads: nat, localSize: nat, n: nat, k: nat): int
    requires threads > 0 && localSize > 0 && n <= |f|
  {
    if k == 0 then 0
    else SlotTotal(f, layout, threads, localSize, n, k - 1)
         + OwnedSum(f, layout, threads, localSize, k - 1, n)
  }

  /** Adding iteration `n` changes the fold only if its owner is among the folded slots. */
  lemma {:induction false} SlotTotalStep(f: seq<int>, layout: Layout, threads: nat, localSize: nat, n: nat, k: nat)
    requires threads > 0 && localSize > 0 && n < |f|
    ensures SlotTotal(f, layout, threads, localSize, n + 1, k)
            == SlotTotal(f, layout, threads, localSize, n, k)
               + (if Owner(layout, threads, localSize, n) < k then f[n] else 0)
  {
    if k > 0 {
      SlotTotalStep(f, layout, threads, localSize, n, k - 1);
    }
  }

  /**
   * Reduction correctness: since every iteration is executed by exactly one
   * thread, folding all partial slots gives the plain sum.
   */
  lemma {:induction false} Reduction(f: seq<int>, layout: Layout, threads: nat, localSize: nat, n: nat)
    requires threads > 0 && localSize > 0 && n <= |f| && n <= threads * localSize
    ensures SlotTotal(f, layout, threads, localSize, n, threads) == Sum(f, n)
  {
    if n == 0 {
      ZeroSlots(f, layout, threads, localSize, threads);
    } else {
      Reduction(f, layout, threads, localSize, n - 1);
      SlotTotalStep(f, layout, threads, localSize, n - 1, threads);
      OwnerInRange(layout, threads, localSize, n - 1);
    }
  }

  lemma {:induction false} ZeroSlots(f: seq<int>, layout: Layout, threads: nat, localSize: nat, k: nat)
    requires threads > 0 && localSize > 0
    ensures SlotTotal(f, layout, threads, localSize, 0, k) == 0
  {
    if k > 0 {
      ZeroSlots(f, layout, threads, localSize, k - 1);
    }
  }
}
