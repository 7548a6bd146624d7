/**
 * The fourth-order finite-difference gradient of a tensor field.  For
 * every axis a (processed from the last to the first, the stride growing
 * by `divisions` each time) and every grid point i, the derivative along
 * a is written into slot a of the rank-(r+1) output point.  The grid
 * coordinate c = i / stride % divisions picks the stencil: centred inside,
 * one-sided near the ends, or (periodic version) centred everywhere with
 * neighbours wrapped around the grid line.
 */
module Gradients {
  import opened TagAlgebra
  import opened Elementwise
  import opened Expressions
  import opened TensorFields

  // ----------------------------------------------------------------------
  // Grid lines

  lemma DivModUnique(x: int, m: int, q: int, r: int)
    requires m > 0 && 0 <= r < m && x == q * m + r
    ensures x / m == q && x % m == r
  {
    var q1 := x / m;
    var r1 := x % m;
    assert (q1 - q) * m == r - r1;
    if q1 > q {
      MulMono(1, q1 - q, m);
    } else if q1 < q {
      MulMono(1, q - q1, m);
    }
  }

  /** A grid index from its coordinate c on an axis of stride incr, the part below (lo) and the part above (hi). */
  function Compose(hi: int, c: int, lo: int, incr: int, div: int): int
  {
    (hi * div + c) * incr + lo
  }

  /** Reading the coordinates back from a composed index. */
  lemma Join(hi: int, c: int, lo: int, incr: int, div: int)
    requires incr > 0 && 0 <= c < div && 0 <= lo < incr
    ensures Compose(hi, c, lo, incr, div) / incr == hi * div + c
    ensures Compose(hi, c, lo, incr, div) % incr == lo
    ensures Compose(hi, c, lo, incr, div) / incr % div == c
    ensures Compose(hi, c, lo, incr, div) / (incr * div) == hi
  {
    var x := Compose(hi, c, lo, incr, div);
    DivModUnique(x, incr, hi * div + c, lo);
    DivModUnique(hi * div + c, div, hi, c);
    assert x == hi * (incr * div) + (c * incr + lo);
    MulMono(c + 1, div, incr);
    DivModUnique(x, incr * div, hi, c * incr + lo);
  }

  /** Every index decomposes around an axis. */
  lemma Split(i: int, incr: int, div: int) returns (hi: int, c: int, lo: int)
    requires incr > 0 && div > 0
    ensures 0 <= c < div && 0 <= lo < incr && i == Compose(hi, c, lo, incr, div)
    ensures i / incr % div == c && i % incr == lo && i / (incr * div) == hi
  {
    lo := i % incr;
    c := i / incr % div;
    hi := i / incr / div;
    assert i / incr == hi * div + c;
    assert i == (i / incr) * incr + lo;
    Join(hi, c, lo, incr, div);
  }

  lemma Shift(hi: int, c: int, lo: int, incr: int, div: int, k: int)
    ensures Compose(hi, c, lo, incr, div) + k * incr == Compose(hi, c + k, lo, incr, div)
  {
  }

  lemma BlockBounds(hi: int, x: int, w: int, rest: nat)
    requires w > 0 && 0 <= x < w
    ensures 0 <= hi * w + x < rest * w <==> 0 <= hi < rest
  {
    if hi >= rest {
      MulMono(rest, hi, w);
    } else if hi >= 0 {
      MulMono(hi + 1, rest, w);
      MulMono(0, hi, w);
    } else {
      MulMono(1, -hi, w);
    }
  }

  /** A composed index is on the grid exactly when its upper part is. */
  lemma Within(hi: int, c: int, lo: int, incr: int, div: int, rest: nat)
    requires incr > 0 && 0 <= c < div && 0 <= lo < incr
    ensures 0 <= Compose(hi, c, lo, incr, div) < rest * (incr * div) <==> 0 <= hi < rest
  {
    MulMono(c + 1, div, incr);
    assert Compose(hi, c, lo, incr, div) == hi * (incr * div) + (c * incr + lo);
    BlockBounds(hi, c * incr + lo, incr * div, rest);
  }

  /**
   * Moving k strides from grid point i along an axis whose coordinate
   * is c = i / incr % div stays on the grid when 0 <= c + k < div, lands
   * on coordinate c + k, and keeps every other coordinate: the part below
   * the axis (i % incr) and the part above it (i / (incr * div)).
   */
  lemma AlongAxis(i: nat, incr: nat, div: nat, rest: nat, k: int)
    requires incr > 0 && div > 0 && i < rest * (incr * div)
    requires 0 <= i / incr % div + k < div
    ensures 0 <= i + k * incr < rest * (incr * div)
    ensures (i + k * incr) / incr % div == i / incr % div + k
    ensures (i + k * incr) % incr == i % incr
    ensures (i + k * incr) / (incr * div) == i / (incr * div)
  {
    var hi, c, lo := Split(i, incr, div);
    Shift(hi, c, lo, incr, div, k);
    Join(hi, c + k, lo, incr, div);
    Within(hi, c, lo, incr, div, rest);
    Within(hi, c + k, lo, incr, div, rest);
  }

  /**
   * A grid of rest * (incr * div) point tensors of p elements each, seen
   * along an axis of stride incr and div coordinates.
   */
  predicate Grid(input: seq<seq<real>>, p: nat, incr: nat, div: nat, rest: nat)
  {
    incr > 0 && div > 4 && |input| == rest * (incr * div)
    && forall k :: 0 <= k < |input| ==> |input[k]| == p
  }

  /** The point tensor k strides away along the axis through point i. */
  function Neighbour(input: seq<seq<real>>, p: nat, incr: nat, div: nat, rest: nat, i: nat, k: int): (r: seq<real>)
    requires Grid(input, p, incr, div, rest) && i < |input|
    requires 0 <= i / incr % div + k < div
    ensures |r| == p
  {
    NeighbourAt(input, p, incr, div, rest, i, k);
    input[i + incr * k]
  }

  /** The neighbour is on the grid. */
  lemma NeighbourAt(input: seq<seq<real>>, p: nat, incr: nat, div: nat, rest: nat, i: nat, k: int)
    requires Grid(input, p, incr, div, rest) && i < |input|
    requires 0 <= i / incr % div + k < div
    ensures 0 <= i + incr * k < |input|
  {
    AlongAxis(i, incr, div, rest, k);
    assert incr * k == k * incr;
  }

  /** The five point tensors at offsets lo .. lo + 4 along the axis. */
  function Samples(input: seq<seq<real>>, p: nat, incr: nat, div: nat, rest: nat, i: nat, lo: int): (r: seq<seq<real>>)
    requires Grid(input, p, incr, div, rest) && i < |input|
    requires 0 <= i / incr % div + lo && i / incr % div + lo + 4 < div
    ensures |r| == 5 && forall m :: 0 <= m < 5 ==> |r[m]| == p
  {
    [Neighbour(input, p, incr, div, rest, i, lo), Neighbour(input, p, incr, div, rest, i, lo + 1),
     Neighbour(input, p, incr, div, rest, i, lo + 2), Neighbour(input, p, incr, div, rest, i, lo + 3),
     Neighbour(input, p, incr, div, rest, i, lo + 4)]
  }

  // ----------------------------------------------------------------------
  // Stencils

  datatype Stencil = Centred | AtEnd | OneFromEnd | AtStart | OneFromStart

  /** The non-periodic choice of stencil at coordinate c. */
  function Select(c: nat, div: nat): Stencil
  {
    if c > 1 then
      if c < div - 2 then Centred else if c == div - 1 then AtEnd else OneFromEnd
    else if c == 0 then AtStart else OneFromStart
  }

  /** The offset of a stencil's first sample; it reads offsets First .. First + 4. */
  function First(s: Stencil): int
  {
    match s
    case Centred => -2
    case AtEnd => -4
    case OneFromEnd => -3
    case AtStart => 0
    case OneFromStart => -1
  }

  /**
   * With more than four divisions the centred stencil serves coordinates
   * 2 .. div-3 and the one-sided ones 0, 1, div-2 and div-1; every stencil
   * reads only coordinates inside the grid line.
   */
  lemma SelectCases(c: nat, div: nat)
    requires div > 4 && c < div
    ensures Select(c, div) == Centred <==> 2 <= c <= div - 3
    ensures Select(c, div) == AtStart <==> c == 0
    ensures Select(c, div) == OneFromStart <==> c == 1
    ensures Select(c, div) == OneFromEnd <==> c == div - 2
    ensures Select(c, div) == AtEnd <==> c == div - 1
    ensures 0 <= c + First(Select(c, div)) && c + First(Select(c, div)) + 4 < div
  {
  }

  /**
   * The numerator of each stencil over five samples f[0..4] at offsets
   * First .. First + 4; the centred stencil skips its middle sample.
   */
  function Numerator(s: Stencil, f: seq<real>): real
    requires |f| == 5
  {
    match s
    case Centred => 8.0 * (f[3] - f[1]) - f[4] + f[0]
    case AtEnd => 25.0 * f[4] - 48.0 * f[3] + 36.0 * f[2] - 16.0 * f[1] + 3.0 * f[0]
    case OneFromEnd => 3.0 * f[4] - f[0] + 6.0 * f[1] + 10.0 * f[3] - 18.0 * f[2]
    case AtStart => -25.0 * f[0] + 48.0 * f[1] - 36.0 * f[2] + 16.0 * f[3] - 3.0 * f[4]
    case OneFromStart => -3.0 * f[0] + f[4] - 6.0 * f[3] - 10.0 * f[1] + 18.0 * f[2]
  }

  /** The quartic a0 + a1 x + a2 x^2 + a3 x^3 + a4 x^4. */
  function Quartic(a0: real, a1: real, a2: real, a3: real, a4: real, x: int): real
  {
    var y := x as real;
    a0 + a1 * y + a2 * y * y + a3 * y * y * y + a4 * y * y * y * y
  }

  /** A quartic sampled at unit spacing at offsets lo .. lo + 4. */
  function QuarticSamples(a0: real, a1: real, a2: real, a3: real, a4: real, lo: int): (f: seq<real>)
    ensures |f| == 5
  {
    [Quartic(a0, a1, a2, a3, a4, lo), Quartic(a0, a1, a2, a3, a4, lo + 1), Quartic(a0, a1, a2, a3, a4, lo + 2),
     Quartic(a0, a1, a2, a3, a4, lo + 3), Quartic(a0, a1, a2, a3, a4, lo + 4)]
  }

  /**
   * Fourth order: on samples of any quartic every stencil's numerator is
   * 12 times the slope at offset 0, so numerator / (12 dx) is the exact
   * derivative.  In particular constants give 0 and f(x) = x gives 12.
   */
  lemma StencilExact(s: Stencil, a0: real, a1: real, a2: real, a3: real, a4: real)
    ensures Numerator(s, QuarticSamples(a0, a1, a2, a3, a4, First(s))) == 12.0 * a1
  {
    var f := QuarticSamples(a0, a1, a2, a3, a4, First(s));
    match s
    case Centred =>
    case AtEnd =>
    case OneFromEnd =>
    case AtStart =>
    case OneFromStart =>
  }

  /** Element k of each of the five samples. */
  function Column(pts: seq<seq<real>>, p: nat, k: nat): (f: seq<real>)
    requires |pts| == 5 && (forall m :: 0 <= m < 5 ==> |pts[m]| == p) && k < p
    ensures |f| == 5
  {
    [pts[0][k], pts[1][k], pts[2][k], pts[3][k], pts[4][k]]
  }

  /** The stencil over point tensors: element by element, the scalar stencil over 12 dx. */
  function PointStencil(s: Stencil, pts: seq<seq<real>>, p: nat, dx: real): (r: seq<real>)
    requires |pts| == 5 && forall m :: 0 <= m < 5 ==> |pts[m]| == p
    ensures |r| == p
  {
    seq(p, k requires 0 <= k < p => Div(Numerator(s, Column(pts, p, k)), 12.0 * dx))
  }

  /** The stencil's numerator as the library writes it, with whole-tensor arithmetic. */
  function TensorNumerator(s: Stencil, pts: seq<seq<real>>, p: nat): (r: seq<real>)
    requires |pts| == 5 && forall m :: 0 <= m < 5 ==> |pts[m]| == p
    ensures |r| == p
  {
    match s
    case Centred => Plus(Minus(Scaled(Minus(pts[3], pts[1]), 8.0), pts[4]), pts[0])
    case AtEnd =>
      Plus(Minus(Plus(Minus(Scaled(pts[4], 25.0), Scaled(pts[3], 48.0)), Scaled(pts[2], 36.0)),
                 Scaled(pts[1], 16.0)), Scaled(pts[0], 3.0))
    case OneFromEnd =>
      Minus(Plus(Plus(Minus(Scaled(pts[4], 3.0), pts[0]), Scaled(pts[1], 6.0)), Scaled(pts[3], 10.0)),
            Scaled(pts[2], 18.0))
    case AtStart =>
      Minus(Plus(Minus(Plus(Scaled(pts[0], -25.0), Scaled(pts[1], 48.0)), Scaled(pts[2], 36.0)),
                 Scaled(pts[3], 16.0)), Scaled(pts[4], 3.0))
    case OneFromStart =>
      Plus(Minus(Minus(Plus(Scaled(pts[0], -3.0), pts[4]), Scaled(pts[3], 6.0)), Scaled(pts[1], 10.0)),
           Scaled(pts[2], 18.0))
  }

  /** The stencil as the library writes it: the numerator divided by 12 dx. */
  function TensorStencil(s: Stencil, pts: seq<seq<real>>, p: nat, dx: real): (r: seq<real>)
    requires |pts| == 5 && forall m :: 0 <= m < 5 ==> |pts[m]| == p
    ensures |r| == p
  {
    Divided(TensorNumerator(s, pts, p), 12.0 * dx)
  }

  /** Element k of the whole-tensor numerator is the scalar numerator over element k of the samples. */
  lemma TensorNumeratorAt(s: Stencil, pts: seq<seq<real>>, p: nat, k: nat)
    requires |pts| == 5 && (forall m :: 0 <= m < 5 ==> |pts[m]| == p) && k < p
    ensures TensorNumerator(s, pts, p)[k] == Numerator(s, Column(pts, p, k))
  {
  }

  /** Whole-tensor arithmetic computes the scalar stencil in every element. */
  lemma {:induction false} TensorStencilIsPointwise(s: Stencil, pts: seq<seq<real>>, p: nat, dx: real)
    requires |pts| == 5 && forall m :: 0 <= m < 5 ==> |pts[m]| == p
    ensures TensorStencil(s, pts, p, dx) == PointStencil(s, pts, p, dx)
  {
    forall k | 0 <= k < p ensures TensorStencil(s, pts, p, dx)[k] == PointStencil(s, pts, p, dx)[k] {
      TensorNumeratorAt(s, pts, p, k);
    }
  }

  // ----------------------------------------------------------------------
  // Periodic neighbours

  /**
   * The periodic offset of neighbour k (|k| <= 2) from coordinate c:
   * ((c + k) mod div) - c, computed as the source does, adding div first
   * for the backward neighbours.
   */
  function Wrap(c: nat, k: int, div: nat): int
    requires div > 4 && c < div && -2 <= k <= 2
  {
    if k < 0 then (c + k + div) % div - c else (c + k) % div - c
  }

  /**
   * A wrapped neighbour is on the grid line, k steps away modulo div
   * (k, k + div or k - div steps), and exactly k steps away when that
   * does not leave the line.
   */
  lemma WrapInLine(c: nat, k: int, div: nat)
    requires div > 4 && c < div && -2 <= k <= 2
    ensures 0 <= c + Wrap(c, k, div) < div
    ensures Wrap(c, k, div) == k || Wrap(c, k, div) == k + div || Wrap(c, k, div) == k - div
    ensures 0 <= c + k < div ==> Wrap(c, k, div) == k
  {
    if k < 0 {
      if c + k >= 0 {
        DivModUnique(c + k + div, div, 1, c + k);
      } else {
        DivModUnique(c + k + div, div, 0, c + k + div);
      }
    } else {
      if c + k < div {
        DivModUnique(c + k, div, 0, c + k);
      } else {
        DivModUnique(c + k, div, 1, c + k - div);
      }
    }
  }

  /** The periodic samples: offsets -2, -1, 0, 1, 2, wrapped around the grid line. */
  function WrappedSamples(input: seq<seq<real>>, p: nat, incr: nat, div: nat, rest: nat, i: nat): (r: seq<seq<real>>)
    requires Grid(input, p, incr, div, rest) && i < |input|
    ensures |r| == 5 && forall m :: 0 <= m < 5 ==> |r[m]| == p
  {
    var c := i / incr % div;
    WrapInLine(c, -2, div);
    WrapInLine(c, -1, div);
    WrapInLine(c, 1, div);
    WrapInLine(c, 2, div);
    [Neighbour(input, p, incr, div, rest, i, Wrap(c, -2, div)), Neighbour(input, p, incr, div, rest, i, Wrap(c, -1, div)),
     Neighbour(input, p, incr, div, rest, i, 0),
     Neighbour(input, p, incr, div, rest, i, Wrap(c, 1, div)), Neighbour(input, p, incr, div, rest, i, Wrap(c, 2, div))]
  }

  /** The derivative along the axis at point i, one-sided near the ends of the line. */
  function LineSlot(input: seq<seq<real>>, p: nat, incr: nat, div: nat, rest: nat, i: nat, dx: real): (r: seq<real>)
    requires Grid(input, p, incr, div, rest) && i < |input|
    ensures |r| == p
  {
    var c := i / incr % div;
    SelectCases(c, div);
    StencilAt(input, p, incr, div, rest, i, Select(c, div), dx)
  }

  /** Stencil s at point i, reading offsets First(s) .. First(s) + 4. */
  function StencilAt(input: seq<seq<real>>, p: nat, incr: nat, div: nat, rest: nat, i: nat, s: Stencil, dx: real): (r: seq<real>)
    requires Grid(input, p, incr, div, rest) && i < |input|
    requires 0 <= i / incr % div + First(s) && i / incr % div + First(s) + 4 < div
    ensures |r| == p
  {
    PointStencil(s, Samples(input, p, incr, div, rest, i, First(s)), p, dx)
  }

  /** The derivative along the axis at point i, centred on the wrapped line. */
  function LinePeriodic(input: seq<seq<real>>, p: nat, incr: nat, div: nat, rest: nat, i: nat, dx: real): (r: seq<real>)
    requires Grid(input, p, incr, div, rest) && i < |input|
    ensures |r| == p
  {
    PointStencil(Centred, WrappedSamples(input, p, incr, div, rest, i), p, dx)
  }

  // ----------------------------------------------------------------------
  // What each output slot holds

  /** The stride of axis a and the number of grid lines along it tile the grid. */
  lemma Strides(div: nat, dims: nat, a: nat)
    requires a < dims
    ensures Power(div, dims) == Power(div, a) * (StepSize(div, dims, a) * div)
  {
    StepSizes(div, dims, a);
    Rearrange(StepSize(div, dims, a), div, Power(div, a));
  }

  lemma Rearrange(s: int, div: int, rest: int)
    ensures s * (div * rest) == rest * (s * div)
  {
  }

  /** Slot a of an output point: the a-th block of p elements. */
  function Slot(point: seq<real>, a: nat, n: nat, p: nat): seq<real>
    requires a < n && |point| == n * p
  {
    MulMono(a + 1, n, p);
    point[a * p .. a * p + p]
  }

  /** The output point with slot a replaced. */
  function WithSlot(point: seq<real>, a: nat, n: nat, p: nat, value: seq<real>): (r: seq<real>)
    requires a < n && |point| == n * p && |value| == p
    ensures |r| == |point| && Slot(r, a, n, p) == value
  {
    MulMono(a + 1, n, p);
    point[..a * p] + value + point[a * p + p..]
  }

  /** Replacing slot a leaves every other slot as it was. */
  lemma WithSlotOthers(point: seq<real>, a: nat, n: nat, p: nat, value: seq<real>, b: nat)
    requires a < n && b < n && a != b && |point| == n * p && |value| == p
    ensures Slot(WithSlot(point, a, n, p, value), b, n, p) == Slot(point, b, n, p)
  {
    var x, y := a * p, b * p;
    assert 0 <= x && 0 <= y && x + p <= |point| && y + p <= |point| && (y + p <= x || x + p <= y) by {
      MulMono(0, a, p);
      MulMono(0, b, p);
      MulMono(a + 1, n, p);
      MulMono(b + 1, n, p);
      if b < a {
        MulMono(b + 1, a, p);
      } else {
        MulMono(a + 1, b, p);
      }
    }
    SpliceElsewhere(point, x, value, y);
  }

  /** Replacing the block at x leaves a disjoint block at y as it was. */
  lemma SpliceElsewhere(point: seq<real>, x: nat, value: seq<real>, y: nat)
    requires x + |value| <= |point| && y + |value| <= |point|
    requires y + |value| <= x || x + |value| <= y
    ensures (point[..x] + value + point[x + |value|..])[y..y + |value|] == point[y..y + |value|]
  {
  }

  /** The stride of axis a of a div^dims grid and the grid it sees. */
  lemma AxisGrid(input: seq<seq<real>>, p: nat, div: nat, dims: nat, a: nat)
    requires div > 4 && a < dims && |input| == Power(div, dims)
    requires forall k :: 0 <= k < |input| ==> |input[k]| == p
    ensures Grid(input, p, StepSize(div, dims, a), div, Power(div, a))
  {
    PowerPositive(div, dims - a - 1);
    Strides(div, dims, a);
  }

  /** The non-periodic derivative along axis a at point i of a div^dims grid. */
  function IgnoreBoundarySlot(input: seq<seq<real>>, p: nat, div: nat, dims: nat, a: nat, i: nat, dx: real): (r: seq<real>)
    requires div > 4 && a < dims && |input| == Power(div, dims) && i < |input|
    requires forall k :: 0 <= k < |input| ==> |input[k]| == p
    ensures |r| == p
  {
    AxisGrid(input, p, div, dims, a);
    LineSlot(input, p, StepSize(div, dims, a), div, Power(div, a), i, dx)
  }

  /** The periodic derivative along axis a at point i of a div^dims grid. */
  function PeriodicSlot(input: seq<seq<real>>, p: nat, div: nat, dims: nat, a: nat, i: nat, dx: real): (r: seq<real>)
    requires div > 4 && a < dims && |input| == Power(div, dims) && i < |input|
    requires forall k :: 0 <= k < |input| ==> |input[k]| == p
    ensures |r| == p
  {
    AxisGrid(input, p, div, dims, a);
    LinePeriodic(input, p, StepSize(div, dims, a), div, Power(div, a), i, dx)
  }

  // ----------------------------------------------------------------------
  // The gradient loops

  /** The body of the point loop of gradient_ignoreBoundary. */
  method IgnoreBoundaryAt(input: array<seq<real>>, p: nat, incr: nat, div: nat, ghost rest: nat, i: nat, dx: real)
    returns (value: seq<real>)
    requires Grid(input[..], p, incr, div, rest) && i < input.Length
    ensures value == LineSlot(input[..], p, incr, div, rest, i, dx)
  {
    ghost var g := input[..];
    var c := i / incr % div;
    if c > 1 {
      if c < div - 2 {
        assert 0 <= i - incr * 2 && i + incr * 2 < input.Length by {
          NeighbourAt(g, p, incr, div, rest, i, -2);
          NeighbourAt(g, p, incr, div, rest, i, 2);
        }
        var neg2 := input[i - incr * 2];
        var neg1 := input[i - incr];
        var pos1 := input[i + incr];
        var pos2 := input[i + incr * 2];
        value := Divided(Plus(Minus(Scaled(Minus(pos1, neg1), 8.0), pos2), neg2), 12.0 * dx);
        assert value == LineSlot(g, p, incr, div, rest, i, dx) by {
          assert Samples(g, p, incr, div, rest, i, -2) == [neg2, neg1, g[i], pos1, pos2];
          TensorStencilIsPointwise(Centred, [neg2, neg1, g[i], pos1, pos2], p, dx);
        }
      } else {
        value := CloseToEnd(input, p, incr, div, rest, i, c, dx);
      }
    } else {
      value := CloseToStart(input, p, incr, div, rest, i, c, dx);
    }
  }

  /** The one-sided stencils at the last two coordinates of the line. */
  method CloseToEnd(input: array<seq<real>>, p: nat, incr: nat, div: nat, ghost rest: nat, i: nat, c: nat, dx: real)
    returns (value: seq<real>)
    requires Grid(input[..], p, incr, div, rest) && i < input.Length
    requires c == i / incr % div && 1 < c && div - 2 <= c
    ensures value == LineSlot(input[..], p, incr, div, rest, i, dx)
  {
    ghost var g := input[..];
    if c == div - 1 {
      assert 0 <= i - incr * 4 by {
        NeighbourAt(g, p, incr, div, rest, i, -4);
      }
      var neg4 := input[i - incr * 4];
      var neg3 := input[i - incr * 3];
      var neg2 := input[i - incr * 2];
      var neg1 := input[i - incr];
      var p0 := input[i];
      value := Divided(Plus(Minus(Plus(Minus(Scaled(p0, 25.0), Scaled(neg1, 48.0)), Scaled(neg2, 36.0)),
                                  Scaled(neg3, 16.0)), Scaled(neg4, 3.0)), 12.0 * dx);
      assert value == LineSlot(g, p, incr, div, rest, i, dx) by {
        assert Samples(g, p, incr, div, rest, i, -4) == [neg4, neg3, neg2, neg1, p0];
        TensorStencilIsPointwise(AtEnd, [neg4, neg3, neg2, neg1, p0], p, dx);
      }
    } else {
      assert 0 <= i - incr * 3 && i + incr < input.Length by {
        NeighbourAt(g, p, incr, div, rest, i, -3);
        NeighbourAt(g, p, incr, div, rest, i, 1);
      }
      var neg3 := input[i - incr * 3];
      var neg2 := input[i - incr * 2];
      var neg1 := input[i - incr];
      var p0 := input[i];
      var pos1 := input[i + incr];
      value := Divided(Minus(Plus(Plus(Minus(Scaled(pos1, 3.0), neg3), Scaled(neg2, 6.0)), Scaled(p0, 10.0)),
                             Scaled(neg1, 18.0)), 12.0 * dx);
      assert value == LineSlot(g, p, incr, div, rest, i, dx) by {
        assert Samples(g, p, incr, div, rest, i, -3) == [neg3, neg2, neg1, p0, pos1];
        TensorStencilIsPointwise(OneFromEnd, [neg3, neg2, neg1, p0, pos1], p, dx);
      }
    }
  }

  /** The one-sided stencils at the first two coordinates of the line. */
  method CloseToStart(input: array<seq<real>>, p: nat, incr: nat, div: nat, ghost rest: nat, i: nat, c: nat, dx: real)
    returns (value: seq<real>)
    requires Grid(input[..], p, incr, div, rest) && i < input.Length
    requires c == i / incr % div && c <= 1
    ensures value == LineSlot(input[..], p, incr, div, rest, i, dx)
  {
    ghost var g := input[..];
    if c == 0 {
      assert i + incr * 4 < input.Length by {
        NeighbourAt(g, p, incr, div, rest, i, 4);
      }
      var pos4 := input[i + incr * 4];
      var pos3 := input[i + incr * 3];
      var pos2 := input[i + incr * 2];
      var pos1 := input[i + incr];
      var p0 := input[i];
      value := Divided(Minus(Plus(Minus(Plus(Scaled(p0, -25.0), Scaled(pos1, 48.0)), Scaled(pos2, 36.0)),
                                  Scaled(pos3, 16.0)), Scaled(pos4, 3.0)), 12.0 * dx);
      assert value == LineSlot(g, p, incr, div, rest, i, dx) by {
        assert Samples(g, p, incr, div, rest, i, 0) == [p0, pos1, pos2, pos3, pos4];
        TensorStencilIsPointwise(AtStart, [p0, pos1, pos2, pos3, pos4], p, dx);
      }
    } else {
      assert 0 <= i - incr && i + incr * 3 < input.Length by {
        NeighbourAt(g, p, incr, div, rest, i, -1);
        NeighbourAt(g, p, incr, div, rest, i, 3);
      }
      var pos3 := input[i + incr * 3];
      var pos2 := input[i + incr * 2];
      var pos1 := input[i + incr];
      var p0 := input[i];
      var neg1 := input[i - incr];
      value := Divided(Plus(Minus(Minus(Plus(Scaled(neg1, -3.0), pos3), Scaled(pos2, 6.0)), Scaled(p0, 10.0)),
                            Scaled(pos1, 18.0)), 12.0 * dx);
      assert value == LineSlot(g, p, incr, div, rest, i, dx) by {
        assert Samples(g, p, incr, div, rest, i, -1) == [neg1, p0, pos1, pos2, pos3];
        TensorStencilIsPointwise(OneFromStart, [neg1, p0, pos1, pos2, pos3], p, dx);
      }
    }
  }

  /** The body of the point loop of gradient_periodicBoundary. */
  method PeriodicAt(input: array<seq<real>>, p: nat, incr: nat, div: nat, ghost rest: nat, i: nat, dx: real)
    returns (value: seq<real>)
    requires Grid(input[..], p, incr, div, rest) && i < input.Length
    ensures value == LinePeriodic(input[..], p, incr, div, rest, i, dx)
  {
    ghost var g := input[..];
    var c := i / incr % div;
    if c > 1 && c < div - 2 {
      assert 0 <= i - incr * 2 && i + incr * 2 < input.Length by {
        NeighbourAt(g, p, incr, div, rest, i, -2);
        NeighbourAt(g, p, incr, div, rest, i, 2);
      }
      var neg2 := input[i - incr * 2];
      var neg1 := input[i - incr];
      var pos1 := input[i + incr];
      var pos2 := input[i + incr * 2];
      value := Divided(Plus(Minus(Scaled(Minus(pos1, neg1), 8.0), pos2), neg2), 12.0 * dx);
      assert value == LinePeriodic(g, p, incr, div, rest, i, dx) by {
        WrapInLine(c, -2, div);
        WrapInLine(c, -1, div);
        WrapInLine(c, 1, div);
        WrapInLine(c, 2, div);
        assert WrappedSamples(g, p, incr, div, rest, i) == [neg2, neg1, g[i], pos1, pos2];
        TensorStencilIsPointwise(Centred, [neg2, neg1, g[i], pos1, pos2], p, dx);
      }
    } else {
      value := AcrossBoundary(input, p, incr, div, rest, i, c, dx);
    }
  }

  /**
   * Near either end of the line the periodic stencil takes its neighbours
   * from the opposite side: offset ((c + k) mod div) - c.
   */
  method AcrossBoundary(input: array<seq<real>>, p: nat, incr: nat, div: nat, ghost rest: nat, i: nat, c: nat, dx: real)
    returns (value: seq<real>)
    requires Grid(input[..], p, incr, div, rest) && i < input.Length && c == i / incr % div
    ensures value == LinePeriodic(input[..], p, incr, div, rest, i, dx)
  {
    ghost var g := input[..];
    var o2 := (c - 2 + div) % div - c;
    var o1 := (c - 1 + div) % div - c;
    var q1 := (c + 1) % div - c;
    var q2 := (c + 2) % div - c;
    assert 0 <= i + incr * o2 < input.Length && 0 <= i + incr * o1 < input.Length
           && 0 <= i + incr * q1 < input.Length && 0 <= i + incr * q2 < input.Length by {
      WrapInLine(c, -2, div);
      WrapInLine(c, -1, div);
      WrapInLine(c, 1, div);
      WrapInLine(c, 2, div);
      NeighbourAt(g, p, incr, div, rest, i, o2);
      NeighbourAt(g, p, incr, div, rest, i, o1);
      NeighbourAt(g, p, incr, div, rest, i, q1);
      NeighbourAt(g, p, incr, div, rest, i, q2);
    }
    var neg2 := input[i + incr * o2];
    var neg1 := input[i + incr * o1];
    var pos1 := input[i + incr * q1];
    var pos2 := input[i + incr * q2];
    value := Divided(Plus(Minus(Scaled(Minus(pos1, neg1), 8.0), pos2), neg2), 12.0 * dx);
    assert value == LinePeriodic(g, p, incr, div, rest, i, dx) by {
      assert WrappedSamples(g, p, incr, div, rest, i) == [neg2, neg1, g[i], pos1, pos2];
      TensorStencilIsPointwise(Centred, [neg2, neg1, g[i], pos1, pos2], p, dx);
    }
  }

  /**
   * The point loop of gradient_ignoreBoundary for one axis: slot a of every output point
   * receives the derivative along the axis, the other slots are kept.
   */
  method IgnoreBoundaryPass(input: array<seq<real>>, output: array<seq<real>>, p: nat, n: nat, a: nat,
                             incr: nat, div: nat, ghost rest: nat, dx: real)
    requires input != output && Grid(input[..], p, incr, div, rest) && a < n
    requires output.Length == input.Length && forall k :: 0 <= k < output.Length ==> |output[k]| == n * p
    modifies output
    ensures forall k :: 0 <= k < output.Length ==>
              output[k] == WithSlot(old(output[k]), a, n, p, LineSlot(input[..], p, incr, div, rest, k, dx))
  {
    ghost var g := input[..];
    ghost var want := seq(output.Length, k requires 0 <= k < output.Length => LineSlot(g, p, incr, div, rest, k, dx));
    var i := 0;
    while i < output.Length
      invariant 0 <= i <= output.Length
      invariant input[..] == g
      invariant forall k :: 0 <= k < i ==> output[k] == WithSlot(old(output[k]), a, n, p, want[k])
      invariant forall k :: i <= k < output.Length ==> output[k] == old(output[k])
    {
      var value := IgnoreBoundaryAt(input, p, incr, div, rest, i, dx);
      output[i] := WithSlot(output[i], a, n, p, value);
      i := i + 1;
    }
  }

  /**
   * gradient_ignoreBoundary: a zero field of one rank more, then for each axis from
   * the last to the first (the stride growing by `divisions` each time)
   * slot a of every point receives the derivative along axis a.
   */
  method GradientIgnoreBoundary(input: TensorField, dx: real) returns (output: TensorField)
    requires input.Valid()
    ensures fresh(output) && output.Valid()
    ensures output.dims == input.dims && output.rank == input.rank + 1 && output.divisions == input.divisions
    ensures forall i, a :: 0 <= i < output.data.Length && 0 <= a < input.dims ==>
              |output.data[i]| == input.dims * Power(input.dims, input.rank)
              && Slot(output.data[i], a, input.dims, Power(input.dims, input.rank))
                 == IgnoreBoundarySlot(input.data[..], Power(input.dims, input.rank), input.divisions, input.dims, a, i, dx)
  {
    var dims := input.dims;
    var div := input.divisions;
    var p := Power(dims, input.rank);
    ghost var g := input.data[..];
    output := new TensorField(dims, input.rank + 1, div);
    assert Power(dims, input.rank + 1) == dims * p;
    StepSizes(div, dims, dims - 1);
    var incr := 1;
    var dim := dims;
    while dim > 0
      invariant 0 <= dim <= dims
      invariant fresh(output) && fresh(output.data) && output.Valid()
      invariant output.dims == dims && output.rank == input.rank + 1 && output.divisions == div
      invariant input.data[..] == g
      invariant dim > 0 ==> incr == StepSize(div, dims, dim - 1)
      invariant forall i, a :: 0 <= i < output.data.Length && dim <= a < dims ==>
                  Slot(output.data[i], a, dims, p) == IgnoreBoundarySlot(g, p, div, dims, a, i, dx)
    {
      var a := dim - 1;
      AxisGrid(g, p, div, dims, a);
      ghost var before := output.data[..];
      IgnoreBoundaryPass(input.data, output.data, p, dims, a, incr, div, Power(div, a), dx);
      forall i, b | 0 <= i < output.data.Length && a <= b < dims
        ensures Slot(output.data[i], b, dims, p) == IgnoreBoundarySlot(g, p, div, dims, b, i, dx)
      {
        if b != a {
          WithSlotOthers(before[i], a, dims, p, LineSlot(g, p, incr, div, Power(div, a), i, dx), b);
        }
      }
      if a > 0 {
        StepSizes(div, dims, a - 1);
      }
      dim := dim - 1;
      incr := incr * div;
    }
  }

  /**
   * The point loop of gradient_periodicBoundary for one axis: slot a of every output point
   * receives the derivative along the axis, the other slots are kept.
   */
  method PeriodicPass(input: array<seq<real>>, output: array<seq<real>>, p: nat, n: nat, a: nat,
                       incr: nat, div: nat, ghost rest: nat, dx: real)
    requires input != output && Grid(input[..], p, incr, div, rest) && a < n
    requires output.Length == input.Length && forall k :: 0 <= k < output.Length ==> |output[k]| == n * p
    modifies output
    ensures forall k :: 0 <= k < output.Length ==>
              output[k] == WithSlot(old(output[k]), a, n, p, LinePeriodic(input[..], p, incr, div, rest, k, dx))
  {
    ghost var g := input[..];
    var i := 0;
    while i < output.Length
      invariant 0 <= i <= output.Length
      invariant input[..] == g
      invariant forall k :: 0 <= k < i ==>
                  output[k] == WithSlot(old(output[k]), a, n, p, LinePeriodic(g, p, incr, div, rest, k, dx))
      invariant forall k :: i <= k < output.Length ==> output[k] == old(output[k])
    {
      var value := PeriodicAt(input, p, incr, div, rest, i, dx);
      output[i] := WithSlot(output[i], a, n, p, value);
      i := i + 1;
    }
  }

  /**
   * gradient_periodicBoundary: a zero field of one rank more, then for each axis from
   * the last to the first (the stride growing by `divisions` each time)
   * slot a of every point receives the derivative along axis a.
   */
  method GradientPeriodic(input: TensorField, dx: real) returns (output: TensorField)
    requires input.Valid()
    ensures fresh(output) && output.Valid()
    ensures output.dims == input.dims && output.rank == input.rank + 1 && output.divisions == input.divisions
    ensures forall i, a :: 0 <= i < output.data.Length && 0 <= a < input.dims ==>
              |output.data[i]| == input.dims * Power(input.dims, input.rank)
              && Slot(output.data[i], a, input.dims, Power(input.dims, input.rank))
                 == PeriodicSlot(input.data[..], Power(input.dims, input.rank), input.divisions, input.dims, a, i, dx)
  {
    var dims := input.dims;
    var div := input.divisions;
    var p := Power(dims, input.rank);
    ghost var g := input.data[..];
    output := new TensorField(dims, input.rank + 1, div);
    assert Power(dims, input.rank + 1) == dims * p;
    StepSizes(div, dims, dims - 1);
    var incr := 1;
    var dim := dims;
    while dim > 0
      invariant 0 <= dim <= dims
      invariant fresh(output) && fresh(output.data) && output.Valid()
      invariant output.dims == dims && output.rank == input.rank + 1 && output.divisions == div
      invariant input.data[..] == g
      invariant dim > 0 ==> incr == StepSize(div, dims, dim - 1)
      invariant forall i, a :: 0 <= i < output.data.Length && dim <= a < dims ==>
                  Slot(output.data[i], a, dims, p) == PeriodicSlot(g, p, div, dims, a, i, dx)
    {
      var a := dim - 1;
      AxisGrid(g, p, div, dims, a);
      ghost var before := output.data[..];
      PeriodicPass(input.data, output.data, p, dims, a, incr, div, Power(div, a), dx);
      forall i, b | 0 <= i < output.data.Length && a <= b < dims
        ensures Slot(output.data[i], b, dims, p) == PeriodicSlot(g, p, div, dims, b, i, dx)
      {
        if b != a {
          WithSlotOthers(before[i], a, dims, p, LinePeriodic(g, p, incr, div, Power(div, a), i, dx), b);
        }
      }
      if a > 0 {
        StepSizes(div, dims, a - 1);
      }
      dim := dim - 1;
      incr := incr * div;
    }
  }
}
