# UPC BLAS and stencil kernels: a Dafny model

This project models the computational core of a UPC (Unified Parallel C)
benchmark suite. The suite has two groups of kernels.

- In `blas_op.c`:
  - the integer dense kernels: dot product, scalar multiplication, norm,
    AXPY and the dense matrix-vector product;
  - the CSR sparse matrix-vector product (SpMV);
  - the CSR to CSC conversion and the sparse matrix-matrix product (SpGEMM)
    of `double_spgemm`;
  - the layout of the CSR input the sparse kernels read.
- In `stencil.c`: the four ping-pong stencils.
  - `stencil5` and `stencil9` run on a 2-D grid; `stencil19` and `stencil27`
    run on a 3-D grid.
  - Each grid has a one-cell halo.
  - A run zeroes the grid, then performs 100 sweeps (`REPS`).
  - Each sweep computes the interior of `a1` from `a0`, then copies it back
    into `a0`.

Each `upc_forall` loop is modelled as one sequential loop over the whole
index space. Module `Distribution` proves this sound.

- Every index has exactly one owning thread.
- The shards have `local_size` elements each, and their sizes sum to
  `local_size*THREADS`.
- Summing the per-thread partial slots gives the sum over all indices.

All of this is proved both for the cyclic affinity a `shared int *` of block
size 1 has (`i % THREADS`) and for the blocked layout (`i / local_size`).
The kernels' results therefore do not depend on which layout is chosen.

C `int` and `unsigned int` arithmetic is modelled modulo 2^32 (module
`Words`). For `unsigned int` this is what C defines. Signed `int` overflow
(`v1[i]*v2[i]`, `a*x[i]+y[i]`, `sum + part_sum[i]`) is undefined in C; the
model takes the common two's-complement wrap-around there. Converting the
NaN of `sqrt` of a negative sum to `int` is undefined too; the model returns
the token `NotANumber` for it. Floating-point data in the sparse and stencil kernels is modelled
as exact `real` values.

Modules (one file each):

- `Arith`: division and multiplication facts for linear grid indices.
- `Words`: the 32-bit wrap-around of C `int` and `unsigned int`.
- `Distribution`: ownership of indices, shard sizes, and the reduction over
  per-thread slots.
- `Dense`: `int_dot_product`, `int_scalar_mult`, `int_norm`, `int_axpy` and
  `int_dmatvec_product`.
- `Sparse`: the CSR matrix, the SpMV of both sparse kernels, and the CSR to
  CSC conversion.
- `Spgemm`: the scatter into a temporary column and the SpGEMM loops of
  `double_spgemm`.
- `CsrFile`: the CSR token layout (header `nz n m`, then the values, the
  column indices and the row offsets) as a decoder, an encoder and the
  reading loops.
- `Stencil`: the four neighbour sets, grid indexing, and the zero, sweep
  and copy loops.

Each loop becomes a method whose `ensures` ties the new array contents to a
specification function. Lemmas then prove what the kernels promise about
those functions:

- the transpose is a permutation, sorted within each column;
- the SpGEMM kernel computes A·A;
- halo cells keep their zero;
- sweeps read only the values from before the sweep;
- the zero grid is a fixed point.

## Model

| member | source | states |
|---|---|---|
| Words.WrapU | blas_op.c:56-57 | the `unsigned int` value of an integer: congruent to it modulo 2^32, and equal to it when it is in range |
| Words.WrapS | blas_op.c:292 | the C `int` value of an integer stored into an `int`: congruent modulo 2^32, and unchanged in range |
| Distribution.OwnerInRange | blas_op.c:48-52 | every index has an owner, one of the THREADS threads, under both layouts |
| Distribution.BlockedShardIsContiguous | blas_op.c:48-52 | under the blocked layout, thread t owns exactly the contiguous range `t*local_size .. t*local_size+local_size-1` |
| Distribution.ShardSize | blas_op.c:85-87 | for either layout, each thread owns exactly `local_size` of the indices `< local_size*THREADS` |
| Distribution.CyclicCount | blas_op.c:85-87 | under cyclic affinity, each thread owns exactly q of the first q*THREADS indices |
| Distribution.ShardSizesSum | blas_op.c:85-87 | the shard sizes of the THREADS threads sum to `local_size*THREADS`, so the shards cover the index space |
| Distribution.Reduction | blas_op.c:85-95 | adding up, over all threads, each thread's sum over the indices it owns gives the sum over every index: each index is counted exactly once |
| Dense.DotPartials | blas_op.c:65-87 | after the `upc_forall`, slot t of `tmp_result` holds the sum of `v1[i]*v2[i]` over the indices thread t owns, modulo 2^32 |
| Dense.FoldSlots | blas_op.c:91-95 | thread 0's fold of the slots is the total of the slots modulo 2^32 |
| Dense.DotProduct | blas_op.c:65-95 | `result` is the exact dot product Σ v1[i]·v2[i] modulo 2^32, whatever the layout |
| Dense.DotOfOnes | blas_op.c:85-87 | the dot product of two all-ones vectors of length n is n |
| Dense.ScalarMult | blas_op.c:291-293 | every element becomes `a*v[i]` in `unsigned int`, stored back into `int`; the other elements keep their values |
| Dense.ScaledByOne | blas_op.c:291-293 | scaling by 1 leaves the vector unchanged |
| Dense.ISqrt | blas_op.c:474 | the integer square root r of s satisfies r² ≤ s < (r+1)² |
| Dense.NormOf | blas_op.c:474 | `sqrt` of the reduced sum truncated to `int`: a root r with r² ≤ sum < (r+1)² exactly when the sum is non-negative, NaN otherwise |
| Dense.NormPartials | blas_op.c:458-466 | slot t of `part_sum` holds the `int` sum of `v[i]*v[i]` over the indices thread t owns |
| Dense.FoldSigned | blas_op.c:470-473 | thread 0's fold of the `part_sum` slots is their total as a C `int` |
| Dense.Norm | blas_op.c:458-474 | `sum` is Σ v[i]² as a C `int`, and `norm` is its truncated square root |
| Dense.NormOfSingleEntry | blas_op.c:458-474 | a vector whose only nonzero entry is m (with m² in `int` range) has norm \|m\| |
| Dense.RootOfSquareIsUnique | blas_op.c:474 | the only r ≥ 0 with r² ≤ m² < (r+1)² is m |
| Dense.Axpy | blas_op.c:669-671 | y becomes `a*x[i] + y[i]` in `int` at every index, and x is unchanged |
| Dense.AxpyZeroScalar | blas_op.c:669-671 | with a = 0, y is unchanged |
| Dense.AxpyOnes | blas_op.c:669-671 | with a = 1 and x, y all ones, every y[i] becomes 2 |
| Dense.RowProduct | blas_op.c:888-890 | one row: y[i] grows by the row sum Σ_j A[i·N+j]·x[j] in `int`, and no other element of y changes |
| Dense.DmatvecProduct | blas_op.c:887-891 | every y[i] becomes its initial value plus row i of A times x, row-major `A[i*N+j]`, in `int` |
| Dense.RowSumOfConstants | blas_op.c:866-870 | with x filled with r1 and A with r2, each row sum is N·r1·r2 |
| Sparse.RowDotIsDense | blas_op.c:1289-1291 | the inner loop's sum over a stored range equals the dense row sum Σ_c A[i,c]·x[c], each stored entry counted once |
| Sparse.MatVecIsDense | blas_op.c:1287-1291 | each entry of the CSR product A·x is the dense row sum Σ_c A[i,c]·x[c] |
| Sparse.IdentityMatVec | blas_op.c:1287-1291 | the identity in CSR form maps x to x |
| Sparse.SpmvOnce | blas_op.c:1287-1291 | one repetition adds (A·x)[i] to b[i] for every row i < m-1 |
| Sparse.SpmvRepeat | blas_op.c:1285-1293 | r repetitions without a reset add r·(A·x)[i] to b[i] |
| Sparse.DoubleSpmatvecProduct | blas_op.c:1275-1293 | with x = i+1.5 and b zeroed, b[i] = r·(A·x)[i] after the repetition loop, with r defaulting to 1000 |
| Sparse.FloatSpmatvecProduct | blas_op.c:1130-1143 | the same loop with b never set: b[i] = b0[i] + r·(A·x)[i] for the initial contents b0 |
| Sparse.IdentitySpmv | blas_op.c:1275-1293 | with A the identity and r = 1, any b the double kernel's contract allows equals x = i+1.5 |
| Sparse.ScanRow | blas_op.c:1406-1416 | scanning row j for column i appends exactly that row's entries of column i, records their values and row, and leaves `nz_count` at `row_ptr[j+1]` |
| Sparse.ScanColumn | blas_op.c:1402-1418 | one column: the CSC buffers gain column i's entries in order, and `col_csc_idx[i+1]` is set to the count and nothing else changes |
| Sparse.CsrToCsc | blas_op.c:1397-1419 | the output is the CSC form of A: `col_csc_idx` starts at 0, is non-decreasing and ends at nz, and slot k records the value and row of the k-th entry in column order |
| Sparse.CscIsPermutation | blas_op.c:1397-1419 | the column order lists every stored position exactly once: a permutation of 0 .. nz-1 |
| Sparse.ColumnPointers | blas_op.c:1397-1419 | the column pointers start at 0, are non-decreasing and end at nz |
| Sparse.ColumnSorted | blas_op.c:1400-1418 | column c lists only entries whose column index is c, in increasing row and position order |
| Spgemm.ColumnRecorded | blas_op.c:1432-1434 | the CSC slots `col_csc_idx[j] .. col_csc_idx[j+1]-1` hold exactly column j's entries |
| Spgemm.ScatterColumn | blas_op.c:1432-1434 | the scatter loop writes B's column j into `temp_vec` by row |
| Spgemm.ColumnScatter | blas_op.c:1432-1434 | scattering a column onto a zeroed temporary gives the dense column: entry r of column c at index r, and 0 elsewhere |
| Spgemm.RowInto | blas_op.c:1439-1441 | one row: `C[j + i*m]` grows by Σ_k A_csr[k]·temp[col_csr_idx[k]], and no other cell changes |
| Spgemm.SpgemmColumn | blas_op.c:1427-1448 | one column j of B: every cell of column j of C grows by its kernel entry, and every other cell is unchanged |
| Spgemm.SpgemmOnce | blas_op.c:1427-1448 | one repetition adds the kernel's product to every cell of C |
| Spgemm.Spgemm | blas_op.c:1423-1450 | r repetitions add r times the kernel's product to every cell of C |
| Spgemm.DoubleSpgemm | blas_op.c:1394-1450 | with C calloc'd, C = r·(kernel product) after the repetitions, with r defaulting to 100 |
| Spgemm.KernelIsProduct | blas_op.c:1430-1443 | with a zeroed temporary and no repeated column in a row, the kernel's entry (i, c) is Σ_q A[i,q]·A[q,c], the matrix product |
| Spgemm.KernelMatrixIsProduct | blas_op.c:1423-1450 | every cell `C[j + i*m]` the kernel adds to is the (i, j) entry of A·A |
| Spgemm.ScaledProduct | blas_op.c:1423-1450 | after r repetitions from zero, C = r·(A·A) |
| Spgemm.StaleTempBreaksProduct | blas_op.c:1430-1434 | as written, a `temp_vec` holding stale data yields 1.0 where A·A is 0.0, for the 2×2 identity |
| CsrFile.Decode | blas_op.c:1093-1128 | the decoder accepts exactly when the header has integers with nz, m ≥ 0, the stream is long enough, and integers appear where `%d` reads; it then gives nz values, nz column indices and m row offsets |
| CsrFile.DecodeEncode | blas_op.c:1113-1128 | reading back the token stream of an input gives that input, whatever follows it |
| CsrFile.EncodeDecode | blas_op.c:1113-1128 | only the first 3+2·nz+m tokens matter, and writing out what was read and reading it again gives the same input |
| CsrFile.ColIdxOverflows | blas_op.c:1099 | as written, the full 2×2 matrix (nz = 4, n = 2) needs 4 column indices where `col_idx` has room for 2 |
| CsrFile.ReadCsr | blas_op.c:1093-1128 | the three reading loops build exactly what the decoder describes, or fail when it does |
| Stencil.LinearInRange | stencil.c:45-47 | the linear index of a grid cell is below size² (2-D) or size³ (3-D) |
| Stencil.LinearIsInjective | stencil.c:109-115 | two grid cells have the same linear index exactly when they are the same cell |
| Stencil.CoordsOfLinear | stencil.c:45-47 | decoding the linear index of a cell gives the cell back |
| Stencil.LinearOfCoords | stencil.c:45-47 | every index below the grid size is the linear index of exactly one grid cell |
| Stencil.OffsetsAreUnit | stencil.c:87-104 | every neighbour offset moves by at most one on each axis, and not at all on the third axis for the 2-D shapes |
| Stencil.NeighboursInGrid | stencil.c:84-107 | every neighbour read for an interior cell lies inside the grid |
| Stencil.OffsetCount | stencil.c:48 | the shapes have 4, 8, 18 and 26 neighbours, and their factors (1/8, 1/8, 1/18, 1/26) times the count never exceed 1 |
| Stencil.Counted5 | stencil.c:343-344 | the 5-point shape is exactly the four axis neighbours, each once |
| Stencil.Counted9 | stencil.c:268-271 | the 9-point shape is exactly the eight non-centre cells of the 3×3 square, each once |
| Stencil.Counted19 | stencil.c:182-195 | the 19-point shape is exactly the 18 offsets with one or two nonzero coordinates, each once |
| Stencil.Counted27 | stencil.c:87-104 | the 27-point shape is exactly the 26 non-centre cells of the 3×3×3 cube, each once |
| Stencil.OffsetsCharacterised | stencil.c:87-104 | an offset belongs to a shape exactly when it is a unit offset of that shape that moves along between 1 and the shape's reach axes |
| Stencil.ZeroFill | stencil.c:66-68 | every cell of the grid, halo included, becomes 0.0 |
| Stencil.SweepRow2D | stencil.c:342-345 | one row of the 2-D sweep sets each of its interior cells of `a1` to the stencil of `a0`, and leaves the rest of `a1` unchanged |
| Stencil.Sweep2D | stencil.c:341-346 | the 2-D sweep sets every interior cell of `a1` to the stencil of `a0`, leaves the halo of `a1` unchanged, and does not change `a0` |
| Stencil.SweepRow3D | stencil.c:85-106 | one (i, j) pole of the 3-D sweep writes that pole's interior cells of `a1` from `a0`, and nothing else |
| Stencil.Sweep3D | stencil.c:84-107 | the 3-D sweep sets every interior cell of `a1` to the stencil of `a0`, and leaves the halo of `a1` unchanged |
| Stencil.CopyRow2D | stencil.c:349-351 | one row of the copy copies the interior cells of that row from `a1` into `a0`, and leaves the rest unchanged |
| Stencil.CopyInterior2D | stencil.c:348-352 | the 2-D copy-back copies exactly the interior of `a1` into `a0` |
| Stencil.CopyRow3D | stencil.c:110-114 | one pole of the 3-D copy copies its interior cells, and nothing else |
| Stencil.CopyInterior3D | stencil.c:109-115 | the 3-D copy-back copies exactly the interior of `a1` into `a0` |
| Stencil.SweepThenCopyIsRelax | stencil.c:341-352 | a sweep followed by the copy-back is one Jacobi step: each interior cell becomes the stencil of the grid as it was before the sweep, and the halo is unchanged |
| Stencil.Run | stencil.c:66-117 | after zeroing, seeding the interior and REPS = 100 sweep-and-copy iterations, `a0` is 100 Jacobi steps of the seeded grid, and every halo cell is still 0.0 |
| Stencil.IterateKeepsHalo | stencil.c:82-117 | no number of iterations changes a halo cell |
| Stencil.ZeroIsFixedPoint | stencil.c:84-115 | for every shape, one step of the all-zero grid is the all-zero grid |
| Stencil.ZeroStaysZero | stencil.c:82-117 | the all-zero grid stays all-zero through any number of iterations |
| Stencil.RelaxStaysWithin | stencil.c:84-115 | if every cell lies in [0, m), so does every cell after one step, for every shape |
| Stencil.IterateStaysWithin | stencil.c:82-117 | values in [0, m) stay in [0, m) through any number of iterations |
| Stencil.RunStaysWithinUnit | stencil.c:71-117 | a seeding with values in [0, 1), as `rand()/(1.0+RAND_MAX)` gives, keeps every cell in [0, 1) through the 100 iterations |
| Stencil.RelaxAtInterior | stencil.c:84-115 | one step sets each interior cell to its stencil |
| Stencil.PulseLeavesCentre | stencil.c:84-115 | no shape has a centre term: a lone 1 in an interior cell becomes 0 at that cell after one step |
| Stencil.PulseReachesNeighbour | stencil.c:84-115 | a lone 1 spreads to each interior neighbour as exactly the shape's factor |
| Stencil.FivePointPulse | stencil.c:341-345 | 5-point: a lone 1 becomes 0 at its own cell and 1/8 at each interior 4-neighbour |

## Left out

- UPC runtime and concurrency are not modelled: the allocation calls, the
  barriers, thread scheduling and races. `upc_forall` becomes a sequential
  loop, justified by the ownership lemmas.
- The stencils have no barrier between the sweep and the copy-back, so real
  threads can race on `a0`. The model assumes every sweep completes before
  the copy starts.
- `stencil27` seeds the whole grid from every thread (stencil.c:71-77). The
  model seeds the grid once.
- `rand()`, and the KISS, UNI and VNI generators of `level1.h`, are not
  modelled. The fill values are parameters: the arrays' contents on entry,
  and `seed` in `Stencil.Run`.
- Timing (`clock_gettime`, the loop and barrier timers) and all `printf`
  output are left out, since they do not affect results.
- File I/O is left out: `fopen`, `fgets` failures, `exit(1)`, `mm_to_csr`,
  `get_matrix_size` and `file_exists`. `CsrFile` works over an already-split
  token stream.
- CsrFile.Decode: gives None for a short stream or a non-integer where `%d`
  reads; the C reader has no such failure. At end of file `fgets` leaves
  `line` as it was, so `sscanf` parses the previous line again. A failed
  `%d` or a partial parse leaves the target as it was: `malloc` garbage in
  `float_spmatvec_product` (blas_op.c:1113-1128), the previous `t_i` or `t_d`
  in `double_spmatvec_product` (blas_op.c:1247-1262). None of this is
  modelled.
- CsrFile.Decode: accepts m = 0, where the kernels' `(m-1)`-sized
  allocations of `x` and `b` fail and the program exits (blas_op.c:1101-1106,
  1234-1240).
- The SpMV's `upc_forall (i = 0; i < m-1; i++; i)` shares the rows out
  among the threads. The rows write disjoint elements of `b`, so the model
  runs one sequential loop.
- Floating point: float, double and IEEE rounding are not modelled; the
  sparse and stencil values are exact reals.
- The float and double dense kernels are not modelled, because they are copies
  of the integer ones. Unlike the integer kernel, the float and double dot
  products never fold `tmp_result` into `result`.
- Allocation-failure branches are left out, because they only print.
- The index arithmetic (`i*size2d+j*size+k`, `j + i * *m`) is modelled on
  unbounded integers: `int` overflow for very large sizes is not modelled.
- `rep` is likewise treated as an unbounded counter.
- Dense.Norm: requires `size % THREADS == 0`, because its loop bound is `size`
  while the vector holds `local_size*THREADS` elements.
- Dense.Axpy: requires `size % THREADS == 0` on the same grounds.
- Dense.DmatvecProduct: `y` is never zeroed by the source, so its initial
  contents are kept as the arrays' contents on entry.
- Sparse.FloatSpmatvecProduct: `b` is never zeroed by the source, so its
  initial contents are the parameter `b0`.
- Sparse.FloatSpmatvecProduct: requires arrays sized by the CSR data. The
  source allocates `col_idx` with n entries but fills nz (blas_op.c:1099; see
  Findings).
- Sparse.DoubleSpmatvecProduct: requires arrays sized by the CSR data. The
  source allocates `col_idx` with n entries (blas_op.c:1232) and fills nz
  (blas_op.c:1258-1263; see Findings).
- Sparse.CsrToCsc: requires a valid square CSR matrix, and allocates
  `col_csc_idx` with m+1 entries. The source's buffer has nz entries
  (blas_op.c:1340), which is too small when m ≥ nz. The model also assumes
  `row_csr_idx` has m+1 entries, where the source allocates nz
  (blas_op.c:1336).
- Spgemm.DoubleSpgemm: requires `Rows(a) <= nz`, because `temp_vec` has width
  nz and is indexed by row.
- Spgemm.DoubleSpgemm: C is modelled with m·m cells, indexed `j + i*m` as the
  loops do. The source sizes C from `get_matrix_size` instead.
- Spgemm.DoubleSpgemm: the model allocates `temp_vec` zeroed (see Findings).
- Spgemm.KernelIsProduct: requires no repeated column index within a row.
  With duplicates, the scatter keeps only the last value and the product
  differs.
- `main.c` is not part of this model: option parsing, usage text and RNG
  seeding.
- The 5-point stencil follows the code: it has no centre term and factor 1/8,
  so the pulse cell drops to 0 (`Stencil.FivePointPulse`).

## Findings

| source | as written | input that shows it | evidently intended | confidence | as-written member | corrected member |
|---|---|---|---|---|---|---|
| blas_op.c:1099 | `float_spmatvec_product` allocates `col_idx` with n entries, the column count, and its loop at lines 1119-1122 writes nz entries | the full 2×2 matrix: nz = 4, n = 2, so `col_idx[2]` and `col_idx[3]` are written past the end | `col_idx` has nz entries, like `values` | not executed | CsrFile.ColIdxOverflows | CsrFile.ReadCsr |
| blas_op.c:1232 | `double_spmatvec_product` allocates `col_idx` with n entries, and its loop at lines 1258-1263 writes nz entries | the full 2×2 matrix: nz = 4, n = 2, so `col_idx[2]` and `col_idx[3]` are written past the end | `col_idx` has nz entries, like `values` | not executed | CsrFile.ColIdxOverflows | CsrFile.ReadCsr |
| blas_op.c:1430-1434 | `temp_vec` is `malloc`'d for each column and never cleared, so rows the column has no entry in keep whatever the memory held | the 2×2 identity, with stale memory [0.0, 1.0] in `temp_vec` for column 0: the kernel gives 1.0 for C[1][0], where A·A has 0.0 | the temporary is zeroed for each column (`calloc`), so it holds exactly that column | not executed | Spgemm.StaleTempBreaksProduct | Spgemm.KernelIsProduct |
