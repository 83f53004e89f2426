/** Small facts of nonlinear integer arithmetic that the solver needs spelled out. */
module Arith {

  /** Euclidean division by a positive divisor pins the quotient down. */
  lemma DivIsQuotient(i: int, d: int, q: int)
    requires d > 0 && q * d <= i < q * d + d
    ensures i / d == q && i % d == i - q * d
  {
    var k, r := i / d, i % d;
    assert i == k * d + r && 0 <= r < d;
    if k < q {
      MulAtLeast(q - k, d);
      assert false;
    } else if k > q {
      MulAtLeast(k - q, d);
      assert false;
    }
  }

  lemma MulAtLeast(a: int, d: int)
    requires a >= 1 && d > 0
    ensures a * d >= d
  {
  }

  lemma MulMono(a: int, b: int, c: int)
    requires a <= b && c >= 0
    ensures a * c <= b * c
  {
    assert b * c - a * c == (b - a) * c;
  }

  /** Row-major positions of a size x size plane stay inside it. */
  lemma PlaneBound(s: int, i: int, j: int)
    requires 0 <= i < s && 0 <= j < s
    ensures 0 <= i * s + j < s * s
  {
    MulMono(0, i, s);
    MulMono(i, s - 1, s);
    assert (s - 1) * s == s * s - s;
  }

  /** Row-major positions of a size x size x size cube stay inside it. */
  lemma CubeBound(s: int, i: int, j: int, k: int)
    requires 0 <= i < s && 0 <= j < s && 0 <= k < s
    ensures 0 <= i * (s * s) + j * s + k < s * s * s
  {
    PlaneBound(s, j, k);
    var t := s * s;
    MulMono(0, i, t);
    MulMono(i, s - 1, t);
    assert (s - 1) * t == s * t - t;
    assert s * t == s * s * s;
  }

  /** A quotient of a number below t * d is below t. */
  lemma DivBelow(x: int, d: int, t: int)
    requires d > 0 && 0 <= x < t * d
    ensures 0 <= x / d < t && x == (x / d) * d + x % d
  {
    if x / d >= t {
      MulMono(t, x / d, d);
    }
  }

  /** Reading a plane position back as a row and a column. */
  lemma PlaneSplit(s: int, x: int)
    requires s > 0 && 0 <= x < s * s
    ensures 0 <= x / s < s && 0 <= x % s < s && (x / s) * s + x % s == x
  {
    DivBelow(x, s, s);
  }

  /** Reading a cube position back as three coordinates. */
  lemma CubeSplit(s: int, x: int)
    requires s > 0 && 0 <= x < s * s * s
    ensures 0 <= x / s / s < s && 0 <= x / s % s < s
    ensures (x / s / s) * (s * s) + (x / s % s) * s + x % s == x
  {
    var q := x / s;
    DivBelow(x, s, s * s);
    PlaneSplit(s, q);
    Recombine(s, q / s, q % s, x % s);
  }

  lemma Recombine(s: int, a: int, b: int, r: int)
    ensures a * (s * s) + b * s + r == (a * s + b) * s + r
  {
  }

  /** Row-major positions of a cube determine the coordinates. */
  lemma CubeJoin(s: int, i: int, j: int, k: int)
    requires 0 <= i < s && 0 <= j < s && 0 <= k < s
    ensures (i * (s * s) + j * s + k) / s / s == i
    ensures (i * (s * s) + j * s + k) / s % s == j
    ensures (i * (s * s) + j * s + k) % s == k
  {
    var q := i * s + j;
    Recombine(s, i, j, k);
    DivIsQuotient(i * (s * s) + j * s + k, s, q);
    DivIsQuotient(q, s, i);
  }

  lemma PlaneJoin(s: int, i: int, j: int)
    requires 0 <= i < s && 0 <= j < s
    ensures (i * s + j) / s == i && (i * s + j) % s == j
  {
    DivIsQuotient(i * s + j, s, i);
  }
}
