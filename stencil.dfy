/**
 * The four stencil benchmarks. A 5- or 9-point stencil relaxes a size x size
 * plane and a 19- or 27-point stencil a size x size x size cube. Each keeps
 * two buffers of the same shape: a0, the current grid, and a1, the next one.
 * A halo of width one on every face is zeroed once and never written again.
 * Every repetition computes the interior of a1 from a0 and then copies the
 * interior of a1 back into a0; there are REPS repetitions.
 *
 * Grid values are exact reals. The 2-D kernels use the position i*size + j,
 * the 3-D ones i*size*size + j*size + k; a plane is modelled as the k = 0
 * layer, so one set of definitions serves all four shapes.
 */
module Stencil {
  import opened Arith

  /** Number of relaxation sweeps every stencil benchmark performs. */
  const REPS: nat := 100

  datatype Shape = Point5 | Point9 | Point19 | Point27

  /** The 19- and 27-point stencils work on a cube, the others on a plane. */
  predicate IsCube(shape: Shape) { shape == Point19 || shape == Point27 }

  /** A grid position; on a plane k is 0. */
  datatype Cell = Cell(i: int, j: int, k: int)

  /** The displacement from a cell to one of the neighbours it reads. */
  datatype Offset = Offset(di: int, dj: int, dk: int)

  /** The constant the neighbour sum is multiplied by. */
  function Factor(shape: Shape): real {
    match shape
    case Point5 => 1.0 / 8.0
    case Point9 => 1.0 / 8.0
    case Point19 => 1.0 / 18.0
    case Point27 => 1.0 / 26.0
  }

  /** The four axis neighbours within layer k + dk. */
  function Cross(dk: int): seq<Offset> {
    [Offset(0, -1, dk), Offset(0, 1, dk), Offset(-1, 0, dk), Offset(1, 0, dk)]
  }

  /** The eight neighbours within layer k + dk: the cross, then the diagonals. */
  function Ring(dk: int): seq<Offset> {
    Cross(dk) + [Offset(-1, -1, dk), Offset(-1, 1, dk), Offset(1, -1, dk), Offset(1, 1, dk)]
  }

  /** The neighbours each kernel adds up, in the order its expression adds them. */
  function Offsets(shape: Shape): seq<Offset> {
    match shape
    case Point5 => Cross(0)
    case Point9 => Ring(0)
    case Point19 => Ring(0) + Cross(-1) + Cross(1) + Poles()
    case Point27 => Ring(0) + Ring(-1) + Ring(1) + Poles()
  }

  // ---------------------------------------------------------------------------
  // Geometry
  // ---------------------------------------------------------------------------

  /** The length of each buffer: size^3 for a cube, size^2 for a plane. */
  function Cells(shape: Shape, size: nat): nat {
    if IsCube(shape) then size * size * size else size * size
  }

  /** The buffer position of a cell, as the kernels compute it. */
  function Linear(shape: Shape, size: nat, c: Cell): int {
    if IsCube(shape) then c.i * (size * size) + c.j * size + c.k else c.i * size + c.j
  }

  predicate OnAxis(size: nat, x: int) { 0 <= x < size }

  predicate InGrid(shape: Shape, size: nat, c: Cell) {
    OnAxis(size, c.i) && OnAxis(size, c.j) && (if IsCube(shape) then OnAxis(size, c.k) else c.k == 0)
  }

  /** 1 <= x <= size - 2, the range of the kernels' loops `x = 1; x < n + 1` with n = size - 2. */
  predicate InsideAxis(size: nat, x: int) { 1 <= x && x + 1 < size }

  predicate Interior(shape: Shape, size: nat, c: Cell) {
    InsideAxis(size, c.i) && InsideAxis(size, c.j) && (if IsCube(shape) then InsideAxis(size, c.k) else c.k == 0)
  }

  /** The cell stored at buffer position x. */
  function Coords(shape: Shape, size: nat, x: int): Cell
    requires size > 0
  {
    if IsCube(shape) then Cell(x / size / size, x / size % size, x % size)
    else Cell(x / size, x % size, 0)
  }

  /** Buffer position x holds an interior cell; every other position is halo. */
  predicate IsInteriorCell(shape: Shape, size: nat, x: int) {
    0 < size && 0 <= x < Cells(shape, size) && Interior(shape, size, Coords(shape, size, x))
  }

  lemma LinearInRange(shape: Shape, size: nat, c: Cell)
    requires InGrid(shape, size, c)
    ensures 0 <= Linear(shape, size, c) < Cells(shape, size)
  {
    if IsCube(shape) {
      CubeBound(size, c.i, c.j, c.k);
    } else {
      PlaneBound(size, c.i, c.j);
    }
  }

  /** Reading a position back as a cell undoes Linear. */
  lemma CoordsOfLinear(shape: Shape, size: nat, c: Cell)
    requires InGrid(shape, size, c)
    ensures size > 0 && Coords(shape, size, Linear(shape, size, c)) == c
  {
    if IsCube(shape) {
      CubeJoin(size, c.i, c.j, c.k);
    } else {
      PlaneJoin(size, c.i, c.j);
    }
  }

  /** Every position holds a cell of the grid, and Linear maps that cell back to it. */
  lemma LinearOfCoords(shape: Shape, size: nat, x: int)
    requires 0 <= x < Cells(shape, size)
    ensures size > 0 && InGrid(shape, size, Coords(shape, size, x))
    ensures Linear(shape, size, Coords(shape, size, x)) == x
  {
    if IsCube(shape) {
      CubeSplit(size, x);
    } else {
      PlaneSplit(size, x);
    }
  }

  lemma LinearOfCoordsAll(shape: Shape, size: nat)
    requires size > 0
    ensures forall x :: 0 <= x < Cells(shape, size) ==>
      InGrid(shape, size, Coords(shape, size, x)) && Linear(shape, size, Coords(shape, size, x)) == x
  {
    forall x | 0 <= x < Cells(shape, size)
      ensures InGrid(shape, size, Coords(shape, size, x)) && Linear(shape, size, Coords(shape, size, x)) == x
    {
      LinearOfCoords(shape, size, x);
    }
  }

  /** Distinct cells of the grid have distinct buffer positions, all inside the buffer. */
  lemma LinearIsInjective(shape: Shape, size: nat, c: Cell, d: Cell)
    requires InGrid(shape, size, c) && InGrid(shape, size, d)
    ensures 0 <= Linear(shape, size, c) < Cells(shape, size)
    ensures Linear(shape, size, c) == Linear(shape, size, d) <==> c == d
  {
    LinearInRange(shape, size, c);
    CoordsOfLinear(shape, size, c);
    CoordsOfLinear(shape, size, d);
  }

  // ---------------------------------------------------------------------------
  // The kernels as functions of the current grid
  // ---------------------------------------------------------------------------

  /** Every offset moves at most one step on each axis and stays in the layer of a plane. */
  predicate UnitOffset(shape: Shape, o: Offset) {
    -1 <= o.di <= 1 && -1 <= o.dj <= 1 && (if IsCube(shape) then -1 <= o.dk <= 1 else o.dk == 0)
  }

  function Shift(c: Cell, o: Offset): Cell {
    Cell(c.i + o.di, c.j + o.dj, c.k + o.dk)
  }

  lemma RingIsUnit(shape: Shape, dk: int)
    requires if IsCube(shape) then -1 <= dk <= 1 else dk == 0
    ensures forall o <- Cross(dk) :: UnitOffset(shape, o)
    ensures forall o <- Ring(dk) :: UnitOffset(shape, o)
  {
  }

  lemma OffsetsAreUnit(shape: Shape)
    ensures forall o <- Offsets(shape) :: UnitOffset(shape, o)
  {
    RingIsUnit(shape, 0);
    if IsCube(shape) {
      RingIsUnit(shape, -1);
      RingIsUnit(shape, 1);
    }
  }

  /**
   * The value of g at cell n. The kernels only read cells of the grid
   * (NeighboursInGrid); the 0.0 outside it keeps the function total.
   */
  function At(shape: Shape, g: seq<real>, size: nat, n: Cell): real
    requires |g| == Cells(shape, size)
  {
    if InGrid(shape, size, n) then
      LinearInRange(shape, size, n);
      g[Linear(shape, size, n)]
    else 0.0
  }

  /** The sum of g over the neighbours of cell c that offs names, in the order of offs. */
  function NeighbourSum(shape: Shape, g: seq<real>, size: nat, c: Cell, offs: seq<Offset>): real
    requires |g| == Cells(shape, size)
    decreases |offs|
  {
    if offs == [] then 0.0
    else At(shape, g, size, Shift(c, offs[0])) + NeighbourSum(shape, g, size, c, offs[1..])
  }

  /** The value a kernel writes into a1 at interior cell c when a0 holds g. */
  function Stencil(shape: Shape, g: seq<real>, size: nat, c: Cell): real
    requires |g| == Cells(shape, size) && Interior(shape, size, c)
  {
    NeighbourSum(shape, g, size, c, Offsets(shape)) * Factor(shape)
  }

  /** Every neighbour an interior cell reads lies in the grid, so its position is inside the buffer. */
  lemma NeighboursInGrid(shape: Shape, size: nat, c: Cell, o: Offset)
    requires Interior(shape, size, c) && o in Offsets(shape)
    ensures InGrid(shape, size, Shift(c, o))
    ensures 0 <= Linear(shape, size, Shift(c, o)) < Cells(shape, size)
  {
    OffsetsAreUnit(shape);
    LinearInRange(shape, size, Shift(c, o));
  }

  /** The next buffer after one sweep over current: new interior, untouched halo. */
  function Swept(shape: Shape, current: seq<real>, next: seq<real>, size: nat): seq<real>
    requires |current| == |next| == Cells(shape, size)
  {
    seq(|next|, x requires 0 <= x < |next| =>
      if IsInteriorCell(shape, size, x) then Stencil(shape, current, size, Coords(shape, size, x)) else next[x])
  }

  /** current with its interior replaced by that of src. */
  function CopiedBack(shape: Shape, current: seq<real>, src: seq<real>, size: nat): seq<real>
    requires |current| == |src| == Cells(shape, size)
  {
    seq(|current|, x requires 0 <= x < |current| => if IsInteriorCell(shape, size, x) then src[x] else current[x])
  }

  /** One Jacobi step: every interior cell gets the stencil of g, the halo keeps g's values. */
  function Relax(shape: Shape, g: seq<real>, size: nat): seq<real>
    requires |g| == Cells(shape, size)
  {
    seq(|g|, x requires 0 <= x < |g| =>
      if IsInteriorCell(shape, size, x) then Stencil(shape, g, size, Coords(shape, size, x)) else g[x])
  }

  function Iterate(shape: Shape, g: seq<real>, size: nat, n: nat): (r: seq<real>)
    requires |g| == Cells(shape, size)
    ensures |r| == |g|
  {
    if n == 0 then g else Relax(shape, Iterate(shape, g, size, n - 1), size)
  }

  /** The grid after the zeroing loop and the seeding loop: seed in the interior, 0 on the halo. */
  function Seeded(shape: Shape, size: nat, seed: seq<real>): seq<real>
    requires |seed| == Cells(shape, size)
  {
    seq(|seed|, x requires 0 <= x < |seed| => if IsInteriorCell(shape, size, x) then seed[x] else 0.0)
  }

  // ---------------------------------------------------------------------------
  // The benchmark loops
  // ---------------------------------------------------------------------------

  /** The loop that zeroes all of a0, halo included. */
  method ZeroFill(a: array<real>)
    modifies a
    ensures forall x :: 0 <= x < a.Length ==> a[x] == 0.0
  {
    for x := 0 to a.Length
      invariant forall y :: 0 <= y < x ==> a[y] == 0.0
    {
      a[x] := 0.0;
    }
  }

  /**
   * The 2-D interior copy loop nest: dst[i*size + j] := src[i*size + j]. It
   * seeds a0 from the generated values and copies a1 back into a0.
   */
  method CopyInterior2D(shape: Shape, size: nat, dst: array<real>, src: seq<real>)
    requires !IsCube(shape) && dst.Length == |src| == Cells(shape, size)
    modifies dst
    ensures dst[..] == CopiedBack(shape, old(dst[..]), src, size)
  {
    var i := 1;
    while i < size - 1
      invariant 1 <= i
      invariant forall x :: 0 <= x < dst.Length ==>
        dst[x] == if IsInteriorCell(shape, size, x) && Coords(shape, size, x).i < i then src[x] else old(dst[x])
    {
      CopyRow2D(shape, size, dst, src, i);
      i := i + 1;
    }
  }

  /** The inner loop of the 2-D copy: the cells (i, j) for j = 1 .. size - 2. */
  method CopyRow2D(shape: Shape, size: nat, dst: array<real>, src: seq<real>, i: int)
    requires !IsCube(shape) && dst.Length == |src| == Cells(shape, size)
    requires 1 <= i < size - 1
    modifies dst
    ensures forall x :: 0 <= x < dst.Length ==>
      dst[x] == if IsInteriorCell(shape, size, x) && Coords(shape, size, x).i == i then src[x] else old(dst[x])
  {
    var j := 1;
    while j < size - 1
      invariant 1 <= j <= size - 1
      invariant forall x :: 0 <= x < dst.Length ==>
        dst[x] == if IsInteriorCell(shape, size, x) && Coords(shape, size, x).i == i && Coords(shape, size, x).j < j
                  then src[x] else old(dst[x])
    {
      var c := Cell(i, j, 0);
      CoordsOfLinear(shape, size, c);
      LinearInRange(shape, size, c);
      LinearOfCoordsAll(shape, size);
      var x := Linear(shape, size, c);
      dst[x] := src[x];
      j := j + 1;
    }
  }

  /** The 3-D interior copy loop nest: dst[i*size*size + j*size + k] := src[...]. */
  method CopyInterior3D(shape: Shape, size: nat, dst: array<real>, src: seq<real>)
    requires IsCube(shape) && dst.Length == |src| == Cells(shape, size)
    modifies dst
    ensures dst[..] == CopiedBack(shape, old(dst[..]), src, size)
  {
    var i := 1;
    while i < size - 1
      invariant 1 <= i
      invariant forall x :: 0 <= x < dst.Length ==>
        dst[x] == if IsInteriorCell(shape, size, x) && Coords(shape, size, x).i < i then src[x] else old(dst[x])
    {
      var j := 1;
      while j < size - 1
        invariant 1 <= j <= size - 1
        invariant forall x :: 0 <= x < dst.Length ==>
          dst[x] == if IsInteriorCell(shape, size, x) && Before(Coords(shape, size, x), i, j) then src[x] else old(dst[x])
      {
        CopyRow3D(shape, size, dst, src, i, j);
        j := j + 1;
      }
      i := i + 1;
    }
  }

  /** The innermost loop of the 3-D copy: the cells (i, j, k) for k = 1 .. size - 2. */
  method CopyRow3D(shape: Shape, size: nat, dst: array<real>, src: seq<real>, i: int, j: int)
    requires IsCube(shape) && dst.Length == |src| == Cells(shape, size)
    requires 1 <= i < size - 1 && 1 <= j < size - 1
    modifies dst
    ensures forall x :: 0 <= x < dst.Length ==>
      dst[x] == if IsInteriorCell(shape, size, x) && Coords(shape, size, x).i == i && Coords(shape, size, x).j == j
                then src[x] else old(dst[x])
  {
    var k := 1;
    while k < size - 1
      invariant 1 <= k <= size - 1
      invariant forall x :: 0 <= x < dst.Length ==>
        dst[x] == if IsInteriorCell(shape, size, x) && Coords(shape, size, x).i == i && Coords(shape, size, x).j == j
                     && Coords(shape, size, x).k < k
                  then src[x] else old(dst[x])
    {
      var c := Cell(i, j, k);
      CoordsOfLinear(shape, size, c);
      LinearInRange(shape, size, c);
      LinearOfCoordsAll(shape, size);
      var x := Linear(shape, size, c);
      dst[x] := src[x];
      k := k + 1;
    }
  }

  /**
   * The 2-D sweep of stencil5 and stencil9: a1[i*size + j] := the stencil of a0
   * at (i, j) for every interior cell, in row-major order.
   */
  method Sweep2D(shape: Shape, size: nat, a0: array<real>, a1: array<real>)
    requires !IsCube(shape) && a0 != a1 && a0.Length == a1.Length == Cells(shape, size)
    modifies a1
    ensures a1[..] == Swept(shape, a0[..], old(a1[..]), size)
  {
    ghost var g := a0[..];
    var i := 1;
    while i < size - 1
      invariant 1 <= i && a0[..] == g
      invariant forall x :: 0 <= x < a1.Length ==>
        a1[x] == if IsInteriorCell(shape, size, x) && Coords(shape, size, x).i < i
                 then Stencil(shape, g, size, Coords(shape, size, x)) else old(a1[x])
    {
      SweepRow2D(shape, size, a0, a1, i);
      i := i + 1;
    }
  }

  /** The inner loop of the 2-D sweep: the cells (i, j) for j = 1 .. size - 2. */
  method SweepRow2D(shape: Shape, size: nat, a0: array<real>, a1: array<real>, i: int)
    requires !IsCube(shape) && a0 != a1 && a0.Length == a1.Length == Cells(shape, size)
    requires 1 <= i < size - 1
    modifies a1
    ensures forall x :: 0 <= x < a1.Length ==>
      a1[x] == if IsInteriorCell(shape, size, x) && Coords(shape, size, x).i == i
               then Stencil(shape, a0[..], size, Coords(shape, size, x)) else old(a1[x])
  {
    var j := 1;
    while j < size - 1
      invariant 1 <= j <= size - 1
      invariant forall x :: 0 <= x < a1.Length ==>
        a1[x] == if IsInteriorCell(shape, size, x) && Coords(shape, size, x).i == i && Coords(shape, size, x).j < j
                 then Stencil(shape, a0[..], size, Coords(shape, size, x)) else old(a1[x])
    {
      var c := Cell(i, j, 0);
      CoordsOfLinear(shape, size, c);
      LinearInRange(shape, size, c);
      LinearOfCoordsAll(shape, size);
      a1[Linear(shape, size, c)] := Stencil(shape, a0[..], size, c);
      j := j + 1;
    }
  }

  /** The 3-D sweep of stencil19 and stencil27: a1[i*size*size + j*size + k] := the stencil of a0 at (i, j, k). */
  method Sweep3D(shape: Shape, size: nat, a0: array<real>, a1: array<real>)
    requires IsCube(shape) && a0 != a1 && a0.Length == a1.Length == Cells(shape, size)
    modifies a1
    ensures a1[..] == Swept(shape, a0[..], old(a1[..]), size)
  {
    ghost var g := a0[..];
    var i := 1;
    while i < size - 1
      invariant 1 <= i && a0[..] == g
      invariant forall x :: 0 <= x < a1.Length ==>
        a1[x] == if IsInteriorCell(shape, size, x) && Coords(shape, size, x).i < i
                 then Stencil(shape, g, size, Coords(shape, size, x)) else old(a1[x])
    {
      var j := 1;
      while j < size - 1
        invariant 1 <= j <= size - 1
        invariant forall x :: 0 <= x < a1.Length ==>
          a1[x] == if IsInteriorCell(shape, size, x) && Before(Coords(shape, size, x), i, j)
                   then Stencil(shape, g, size, Coords(shape, size, x)) else old(a1[x])
      {
        SweepRow3D(shape, size, a0, a1, i, j);
        j := j + 1;
      }
      i := i + 1;
    }
  }

  /** The innermost loop of the 3-D sweep: the cells (i, j, k) for k = 1 .. size - 2. */
  method SweepRow3D(shape: Shape, size: nat, a0: array<real>, a1: array<real>, i: int, j: int)
    requires IsCube(shape) && a0 != a1 && a0.Length == a1.Length == Cells(shape, size)
    requires 1 <= i < size - 1 && 1 <= j < size - 1
    modifies a1
    ensures forall x :: 0 <= x < a1.Length ==>
      a1[x] == if IsInteriorCell(shape, size, x) && Coords(shape, size, x).i == i && Coords(shape, size, x).j == j
               then Stencil(shape, a0[..], size, Coords(shape, size, x)) else old(a1[x])
  {
    var k := 1;
    while k < size - 1
      invariant 1 <= k <= size - 1
      invariant forall x :: 0 <= x < a1.Length ==>
        a1[x] == if IsInteriorCell(shape, size, x) && Coords(shape, size, x).i == i && Coords(shape, size, x).j == j
                    && Coords(shape, size, x).k < k
                 then Stencil(shape, a0[..], size, Coords(shape, size, x)) else old(a1[x])
    {
      var c := Cell(i, j, k);
      CoordsOfLinear(shape, size, c);
      LinearInRange(shape, size, c);
      LinearOfCoordsAll(shape, size);
      a1[Linear(shape, size, c)] := Stencil(shape, a0[..], size, c);
      k := k + 1;
    }
  }

  /** Row-major loop order: the interior cell c is visited before (i, j). */
  predicate Before(c: Cell, i: int, j: int) { c.i < i || (c.i == i && c.j < j) }

  /**
   * stencil5, stencil9, stencil19 and stencil27: zero a0, seed its interior
   * with the generated values, then REPS times sweep into a1 and copy back.
   * seed[x] stands for the value the generator yields for position x.
   */
  method Run(shape: Shape, size: nat, seed: seq<real>, a0: array<real>, a1: array<real>)
    requires a0 != a1 && a0.Length == a1.Length == |seed| == Cells(shape, size)
    modifies a0, a1
    ensures a0[..] == Iterate(shape, Seeded(shape, size, seed), size, REPS)
    ensures forall x :: 0 <= x < a0.Length && !IsInteriorCell(shape, size, x) ==> a0[x] == 0.0
  {
    ZeroFill(a0);
    if IsCube(shape) {
      CopyInterior3D(shape, size, a0, seed);
    } else {
      CopyInterior2D(shape, size, a0, seed);
    }
    assert a0[..] == Seeded(shape, size, seed);
    for iter := 0 to REPS
      invariant a0[..] == Iterate(shape, Seeded(shape, size, seed), size, iter)
    {
      ghost var current, before1 := a0[..], a1[..];
      if IsCube(shape) {
        Sweep3D(shape, size, a0, a1);
        CopyInterior3D(shape, size, a0, a1[..]);
      } else {
        Sweep2D(shape, size, a0, a1);
        CopyInterior2D(shape, size, a0, a1[..]);
      }
      SweepThenCopyIsRelax(shape, current, before1, size);
    }
    forall x | 0 <= x < a0.Length && !IsInteriorCell(shape, size, x)
      ensures a0[x] == 0.0
    {
      IterateKeepsHalo(shape, Seeded(shape, size, seed), size, REPS, x);
    }
  }

  // ---------------------------------------------------------------------------
  // Properties
  // ---------------------------------------------------------------------------

  /** Ping-pong semantics: a sweep followed by the copy-back is one Jacobi step, whatever a1 held. */
  lemma SweepThenCopyIsRelax(shape: Shape, current: seq<real>, next: seq<real>, size: nat)
    requires |current| == |next| == Cells(shape, size)
    ensures CopiedBack(shape, current, Swept(shape, current, next, size), size) == Relax(shape, current, size)
  {
  }

  /** Halo cells keep their starting value through any number of sweeps. */
  lemma {:induction false} IterateKeepsHalo(shape: Shape, g: seq<real>, size: nat, n: nat, x: int)
    requires |g| == Cells(shape, size) && 0 <= x < |g| && !IsInteriorCell(shape, size, x)
    ensures Iterate(shape, g, size, n)[x] == g[x]
  {
    if n > 0 {
      IterateKeepsHalo(shape, g, size, n - 1, x);
    }
  }

  predicate AllZero(g: seq<real>) { forall x :: 0 <= x < |g| ==> g[x] == 0.0 }

  lemma {:induction false} NeighbourSumOfZeros(shape: Shape, g: seq<real>, size: nat, c: Cell, offs: seq<Offset>)
    requires |g| == Cells(shape, size) && AllZero(g)
    ensures NeighbourSum(shape, g, size, c, offs) == 0.0
    decreases |offs|
  {
    if offs != [] {
      NeighbourSumOfZeros(shape, g, size, c, offs[1..]);
      var n := Shift(c, offs[0]);
      if InGrid(shape, size, n) {
        LinearInRange(shape, size, n);
        assert g[Linear(shape, size, n)] == 0.0;
      }
    }
  }

  /** The all-zero grid is a fixed point of every stencil. */
  lemma ZeroIsFixedPoint(shape: Shape, g: seq<real>, size: nat)
    requires |g| == Cells(shape, size) && AllZero(g)
    ensures Relax(shape, g, size) == g
  {
    forall x | IsInteriorCell(shape, size, x)
      ensures Stencil(shape, g, size, Coords(shape, size, x)) == 0.0
    {
      NeighbourSumOfZeros(shape, g, size, Coords(shape, size, x), Offsets(shape));
    }
  }

  lemma {:induction false} ZeroStaysZero(shape: Shape, g: seq<real>, size: nat, n: nat)
    requires |g| == Cells(shape, size) && AllZero(g)
    ensures Iterate(shape, g, size, n) == g
  {
    if n > 0 {
      ZeroStaysZero(shape, g, size, n - 1);
      ZeroIsFixedPoint(shape, g, size);
    }
  }

  /** Every value lies in [0, m). The generator's values rand()/(RAND_MAX + 1) lie in [0, 1). */
  predicate Within(g: seq<real>, m: real) { forall x :: 0 <= x < |g| ==> 0.0 <= g[x] < m }

  /** m added k times: the largest sum of k values below m. */
  function Repeated(k: nat, m: real): real {
    if k == 0 then 0.0 else Repeated(k - 1, m) + m
  }

  lemma {:induction false} RepeatedIsProduct(k: nat, m: real)
    ensures Repeated(k, m) == k as real * m
  {
    if k > 0 {
      RepeatedIsProduct(k - 1, m);
      assert k as real * m == (k - 1) as real * m + m;
    }
  }

  lemma {:induction false} NeighbourSumBounds(shape: Shape, g: seq<real>, size: nat, c: Cell, offs: seq<Offset>, m: real)
    requires |g| == Cells(shape, size) && Within(g, m) && 0.0 < m
    ensures 0.0 <= NeighbourSum(shape, g, size, c, offs) <= Repeated(|offs|, m)
    ensures |offs| > 0 ==> NeighbourSum(shape, g, size, c, offs) < Repeated(|offs|, m)
    decreases |offs|
  {
    if offs != [] {
      NeighbourSumBounds(shape, g, size, c, offs[1..], m);
      AtWithin(shape, g, size, Shift(c, offs[0]), m);
      assert |offs[1..]| == |offs| - 1;
    }
  }

  lemma AtWithin(shape: Shape, g: seq<real>, size: nat, n: Cell, m: real)
    requires |g| == Cells(shape, size) && Within(g, m) && 0.0 < m
    ensures 0.0 <= At(shape, g, size, n) < m
  {
    if InGrid(shape, size, n) {
      LinearInRange(shape, size, n);
    }
  }

  lemma OffsetCount(shape: Shape)
    ensures |Offsets(shape)| == match shape case Point5 => 4 case Point9 => 8 case Point19 => 18 case Point27 => 26
    ensures |Offsets(shape)| as real * Factor(shape) <= 1.0
  {
  }

  /** A sweep never leaves [0, m). */
  lemma RelaxStaysWithin(shape: Shape, g: seq<real>, size: nat, m: real)
    requires |g| == Cells(shape, size) && Within(g, m)
    ensures Within(Relax(shape, g, size), m)
  {
    forall x | 0 <= x < |g| && IsInteriorCell(shape, size, x)
      ensures 0.0 <= Stencil(shape, g, size, Coords(shape, size, x)) < m
    {
      StencilStaysWithin(shape, g, size, Coords(shape, size, x), m);
    }
  }

  /** Each stencil value is an average of neighbours, or half of one for the 5-point shape. */
  lemma StencilStaysWithin(shape: Shape, g: seq<real>, size: nat, c: Cell, m: real)
    requires |g| == Cells(shape, size) && Interior(shape, size, c) && Within(g, m)
    ensures 0.0 <= Stencil(shape, g, size, c) < m
  {
    assert 0.0 < m by {
      LinearInRange(shape, size, c);
      assert 0.0 <= g[Linear(shape, size, c)] < m;
    }
    NeighbourSumBounds(shape, g, size, c, Offsets(shape), m);
    OffsetCount(shape);
    ScaledSumBelow(NeighbourSum(shape, g, size, c, Offsets(shape)), |Offsets(shape)|, Factor(shape), m);
  }

  /** A sum of k values below m, scaled by at most 1/k, stays below m. */
  lemma ScaledSumBelow(s: real, k: nat, f: real, m: real)
    requires 0.0 < m && 0 < k && 0.0 < f && k as real * f <= 1.0 && 0.0 <= s < Repeated(k, m)
    ensures 0.0 <= s * f < m
  {
    RepeatedIsProduct(k, m);
    ScaledBelow(s, k as real, f, m);
  }

  lemma ScaledBelow(s: real, n: real, f: real, m: real)
    requires 0.0 <= s < n * m && 0.0 < n && 0.0 < f && n * f <= 1.0
    ensures 0.0 <= s * f < m
  {
    var d := n * m - s;
    assert d * f > 0.0;
    assert n * m * f == s * f + d * f;
    assert (n * f) * m <= m;
    assert n * m * f == (n * f) * m;
  }

  lemma {:induction false} IterateStaysWithin(shape: Shape, g: seq<real>, size: nat, n: nat, m: real)
    requires |g| == Cells(shape, size) && Within(g, m)
    ensures Within(Iterate(shape, g, size, n), m)
  {
    if n > 0 {
      IterateStaysWithin(shape, g, size, n - 1, m);
      RelaxStaysWithin(shape, Iterate(shape, g, size, n - 1), size, m);
    }
  }

  /** Seeded with values in [0, 1), every cell of a0 stays in [0, 1) through all REPS sweeps. */
  lemma RunStaysWithinUnit(shape: Shape, size: nat, seed: seq<real>)
    requires |seed| == Cells(shape, size) && Within(seed, 1.0)
    ensures Within(Iterate(shape, Seeded(shape, size, seed), size, REPS), 1.0)
  {
    IterateStaysWithin(shape, Seeded(shape, size, seed), size, REPS, 1.0);
  }

  // ---------------------------------------------------------------------------
  // The four neighbourhoods
  // ---------------------------------------------------------------------------

  /** How many axes an offset moves along. */
  function Moves(o: Offset): nat {
    (if o.di != 0 then 1 else 0) + (if o.dj != 0 then 1 else 0) + (if o.dk != 0 then 1 else 0)
  }

  /** The largest number of axes a neighbour of the shape moves along. */
  function Reach(shape: Shape): nat {
    match shape
    case Point5 => 1
    case Point9 => 2
    case Point19 => 2
    case Point27 => 3
  }

  /** A neighbour within the cell's own layer: one step on the i or j axis, or both. */
  predicate InLayer(o: Offset) {
    -1 <= o.di <= 1 && -1 <= o.dj <= 1 && (o.di != 0 || o.dj != 0)
  }

  lemma CrossCount(dk: int, o: Offset)
    ensures multiset(Cross(dk))[o] == if o.dk == dk && InLayer(o) && (o.di == 0 || o.dj == 0) then 1 else 0
  {
  }

  lemma LayerCounts(dk: int, o: Offset)
    ensures multiset(Cross(dk))[o] == if o.dk == dk && InLayer(o) && (o.di == 0 || o.dj == 0) then 1 else 0
    ensures multiset(Ring(dk))[o] == if o.dk == dk && InLayer(o) then 1 else 0
  {
    CrossCount(dk, o);
    var corners := [Offset(-1, -1, dk), Offset(-1, 1, dk), Offset(1, -1, dk), Offset(1, 1, dk)];
    assert Ring(dk) == Cross(dk) + corners;
    assert multiset(corners)[o] == if o.dk == dk && InLayer(o) && o.di != 0 && o.dj != 0 then 1 else 0;
  }

  /**
   * Each kernel reads every unit offset that moves along one to Reach(shape) axes
   * exactly once, and nothing else: the 4 axis neighbours of the plane, all 8
   * neighbours of the 3 x 3 square, the 18 neighbours of the cube sharing a face
   * or an edge, and all 26 neighbours of the 3 x 3 x 3 cube.
   */
  lemma OffsetsCounted(shape: Shape, o: Offset)
    ensures multiset(Offsets(shape))[o] == if UnitOffset(shape, o) && 0 < Moves(o) <= Reach(shape) then 1 else 0
  {
    match shape
    case Point5 => Counted5(o);
    case Point9 => Counted9(o);
    case Point19 => Counted19(o);
    case Point27 => Counted27(o);
  }

  function Poles(): seq<Offset> { [Offset(0, 0, -1), Offset(0, 0, 1)] }

  lemma PoleCount(o: Offset)
    ensures multiset(Poles())[o] == if o.di == 0 && o.dj == 0 && (o.dk == -1 || o.dk == 1) then 1 else 0
  {
  }

  lemma Counted5(o: Offset)
    ensures multiset(Offsets(Point5))[o] == if UnitOffset(Point5, o) && 0 < Moves(o) <= 1 then 1 else 0
  {
    LayerCounts(0, o);
  }

  lemma Counted9(o: Offset)
    ensures multiset(Offsets(Point9))[o] == if UnitOffset(Point9, o) && 0 < Moves(o) <= 2 then 1 else 0
  {
    LayerCounts(0, o);
  }

  lemma Counted19(o: Offset)
    ensures multiset(Offsets(Point19))[o] == if UnitOffset(Point19, o) && 0 < Moves(o) <= 2 then 1 else 0
  {
    LayerCounts(0, o);
    LayerCounts(-1, o);
    LayerCounts(1, o);
    PoleCount(o);
    assert Offsets(Point19) == Ring(0) + Cross(-1) + Cross(1) + Poles();
    LayerSum19(o, multiset(Ring(0))[o], multiset(Cross(-1))[o], multiset(Cross(1))[o], multiset(Poles())[o]);
  }

  lemma Counted27(o: Offset)
    ensures multiset(Offsets(Point27))[o] == if UnitOffset(Point27, o) && 0 < Moves(o) <= 3 then 1 else 0
  {
    LayerCounts(0, o);
    LayerCounts(-1, o);
    LayerCounts(1, o);
    PoleCount(o);
    assert Offsets(Point27) == Ring(0) + Ring(-1) + Ring(1) + Poles();
    LayerSum27(o, multiset(Ring(0))[o], multiset(Ring(-1))[o], multiset(Ring(1))[o], multiset(Poles())[o]);
  }

  /** The four parts of the 19-point neighbourhood cover its offsets once each. */
  lemma LayerSum19(o: Offset, r: int, below: int, above: int, p: int)
    requires r == if o.dk == 0 && InLayer(o) then 1 else 0
    requires below == if o.dk == -1 && InLayer(o) && (o.di == 0 || o.dj == 0) then 1 else 0
    requires above == if o.dk == 1 && InLayer(o) && (o.di == 0 || o.dj == 0) then 1 else 0
    requires p == if o.di == 0 && o.dj == 0 && (o.dk == -1 || o.dk == 1) then 1 else 0
    ensures r + below + above + p == if UnitOffset(Point19, o) && 0 < Moves(o) <= 2 then 1 else 0
  {
  }

  /** The four parts of the 27-point neighbourhood cover its offsets once each. */
  lemma LayerSum27(o: Offset, r: int, below: int, above: int, p: int)
    requires r == if o.dk == 0 && InLayer(o) then 1 else 0
    requires below == if o.dk == -1 && InLayer(o) then 1 else 0
    requires above == if o.dk == 1 && InLayer(o) then 1 else 0
    requires p == if o.di == 0 && o.dj == 0 && (o.dk == -1 || o.dk == 1) then 1 else 0
    ensures r + below + above + p == if UnitOffset(Point27, o) && 0 < Moves(o) <= 3 then 1 else 0
  {
  }

  lemma OffsetsCharacterised(shape: Shape, o: Offset)
    ensures o in Offsets(shape) <==> UnitOffset(shape, o) && 0 < Moves(o) <= Reach(shape)
  {
    OffsetsCounted(shape, o);
  }

  /** A grid with a single 1.0 at cell c. */
  function Pulse(shape: Shape, size: nat, c: Cell): seq<real> {
    seq(Cells(shape, size), x => if x == Linear(shape, size, c) then 1.0 else 0.0)
  }

  /** The offset that leads from n to c. */
  function Towards(n: Cell, c: Cell): Offset {
    Offset(c.i - n.i, c.j - n.j, c.k - n.k)
  }

  /** Over a pulse at c, a neighbour sum counts how often offs leads to c. */
  lemma {:induction false} NeighbourSumOfPulse(shape: Shape, size: nat, c: Cell, n: Cell, offs: seq<Offset>)
    requires InGrid(shape, size, c)
    ensures NeighbourSum(shape, Pulse(shape, size, c), size, n, offs) == multiset(offs)[Towards(n, c)] as real
    decreases |offs|
  {
    if offs != [] {
      NeighbourSumOfPulse(shape, size, c, n, offs[1..]);
      assert offs == [offs[0]] + offs[1..];
      var m := Shift(n, offs[0]);
      assert At(shape, Pulse(shape, size, c), size, m) == if offs[0] == Towards(n, c) then 1.0 else 0.0 by {
        if InGrid(shape, size, m) {
          LinearIsInjective(shape, size, m, c);
        }
      }
    }
  }

  /** Every kernel reads the opposite of each neighbour it reads, and reads it once. */
  lemma OffsetsSymmetric(shape: Shape, o: Offset)
    requires o in Offsets(shape)
    ensures multiset(Offsets(shape))[Offset(-o.di, -o.dj, -o.dk)] == 1
  {
    var back := Offset(-o.di, -o.dj, -o.dk);
    OffsetsCharacterised(shape, o);
    NegatedIsUnit(shape, o);
    OffsetsCounted(shape, back);
  }

  /** Negating an offset keeps it a unit offset along the same axes. */
  lemma NegatedIsUnit(shape: Shape, o: Offset)
    requires UnitOffset(shape, o)
    ensures UnitOffset(shape, Offset(-o.di, -o.dj, -o.dk)) && Moves(Offset(-o.di, -o.dj, -o.dk)) == Moves(o)
  {
  }

  /** At an interior cell, Relax holds the stencil of the grid. */
  lemma RelaxAtInterior(shape: Shape, g: seq<real>, size: nat, c: Cell)
    requires |g| == Cells(shape, size) && Interior(shape, size, c)
    ensures 0 <= Linear(shape, size, c) < Cells(shape, size)
    ensures Relax(shape, g, size)[Linear(shape, size, c)] == Stencil(shape, g, size, c)
  {
    CoordsOfLinear(shape, size, c);
    LinearInRange(shape, size, c);
  }

  lemma StencilOfPulse(shape: Shape, size: nat, c: Cell, n: Cell)
    requires InGrid(shape, size, c) && Interior(shape, size, n)
    ensures Stencil(shape, Pulse(shape, size, c), size, n)
         == multiset(Offsets(shape))[Towards(n, c)] as real * Factor(shape)
  {
    NeighbourSumOfPulse(shape, size, c, n, Offsets(shape));
  }

  /** No kernel has a centre term: one sweep turns a lone 1.0 in the interior into 0.0. */
  lemma PulseLeavesCentre(shape: Shape, size: nat, c: Cell)
    requires Interior(shape, size, c)
    ensures 0 <= Linear(shape, size, c) < Cells(shape, size)
    ensures Relax(shape, Pulse(shape, size, c), size)[Linear(shape, size, c)] == 0.0
  {
    var p := Pulse(shape, size, c);
    assert Stencil(shape, p, size, c) == 0.0 by {
      assert multiset(Offsets(shape))[Towards(c, c)] == 0 by {
        OffsetsCounted(shape, Towards(c, c));
      }
      StencilOfPulse(shape, size, c, c);
    }
    RelaxAtInterior(shape, p, size, c);
  }

  /** One sweep carries Factor(shape) of a lone 1.0 to each interior neighbour the kernel reads. */
  lemma PulseReachesNeighbour(shape: Shape, size: nat, c: Cell, o: Offset)
    requires Interior(shape, size, c) && o in Offsets(shape) && Interior(shape, size, Shift(c, o))
    ensures 0 <= Linear(shape, size, Shift(c, o)) < Cells(shape, size)
    ensures Relax(shape, Pulse(shape, size, c), size)[Linear(shape, size, Shift(c, o))] == Factor(shape)
  {
    var p := Pulse(shape, size, c);
    assert Stencil(shape, p, size, Shift(c, o)) == Factor(shape) by {
      PulseAtNeighbour(shape, size, c, o);
    }
    RelaxAtInterior(shape, p, size, Shift(c, o));
  }

  lemma PulseAtNeighbour(shape: Shape, size: nat, c: Cell, o: Offset)
    requires Interior(shape, size, c) && o in Offsets(shape) && Interior(shape, size, Shift(c, o))
    ensures Stencil(shape, Pulse(shape, size, c), size, Shift(c, o)) == Factor(shape)
  {
    BackTowards(shape, c, o);
    StencilOfPulse(shape, size, c, Shift(c, o));
  }

  /** From the neighbour Shift(c, o), exactly one offset of the kernel leads back to c. */
  lemma BackTowards(shape: Shape, c: Cell, o: Offset)
    requires o in Offsets(shape)
    ensures multiset(Offsets(shape))[Towards(Shift(c, o), c)] == 1
  {
    assert Towards(Shift(c, o), c) == Offset(-o.di, -o.dj, -o.dk);
    OffsetsSymmetric(shape, o);
  }

  /** The 5-point kernel: a lone 1.0 becomes 0.0 in its own cell and 1/8 in each interior axis neighbour. */
  lemma FivePointPulse(size: nat, c: Cell, o: Offset)
    requires Interior(Point5, size, c) && Moves(o) == 1 && UnitOffset(Point5, o) && Interior(Point5, size, Shift(c, o))
    ensures 0 <= Linear(Point5, size, c) < Cells(Point5, size)
    ensures 0 <= Linear(Point5, size, Shift(c, o)) < Cells(Point5, size)
    ensures Relax(Point5, Pulse(Point5, size, c), size)[Linear(Point5, size, c)] == 0.0
    ensures Relax(Point5, Pulse(Point5, size, c), size)[Linear(Point5, size, Shift(c, o))] == 1.0 / 8.0
  {
    PulseLeavesCentre(Point5, size, c);
    OffsetsCharacterised(Point5, o);
    PulseReachesNeighbour(Point5, size, c, o);
  }
}
