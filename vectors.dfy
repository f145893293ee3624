/**
 * Exact three-dimensional vectors and the grid quantisation of
 * `GhostGrid.GetSnapVector`. Coordinates are reals: the float rounding of
 * `v / g * g` is not part of the model.
 */
module Vectors {
  import opened Collections

  /** Unity's `Vector3`, with exact coordinates. */
  datatype Vec3 = Vec3(x: real, y: real, z: real)

  datatype Axis = X | Y | Z

  const Origin := Vec3(0.0, 0.0, 0.0)

  function Coord(v: Vec3, axis: Axis): real {
    match axis
    case X => v.x
    case Y => v.y
    case Z => v.z
  }

  function Add(a: Vec3, b: Vec3): Vec3 {
    Vec3(a.x + b.x, a.y + b.y, a.z + b.z)
  }

  function Sub(a: Vec3, b: Vec3): Vec3 {
    Vec3(a.x - b.x, a.y - b.y, a.z - b.z)
  }

  function Scale(v: Vec3, k: real): Vec3 {
    Vec3(v.x * k, v.y * k, v.z * k)
  }

  function Abs(r: real): (d: real)
    ensures 0.0 <= d
  {
    if r < 0.0 then -r else r
  }

  /**
   * `Mathf.Round`: the integer nearest to `r`. Halfway cases go up here;
   * Unity breaks those ties towards the even integer.
   */
  function Round(r: real): int {
    (r + 0.5).Floor
  }

  /** `Round(r)` is within one half of `r`, and no integer is closer to `r`. */
  lemma RoundNearest(r: real, m: int)
    ensures Abs(Round(r) as real - r) <= 0.5
    ensures Abs(Round(r) as real - r) <= Abs(m as real - r)
  {
    var n := Round(r);
    assert n as real <= r + 0.5 < n as real + 1.0;
    if m < n {
      assert m as real <= n as real - 1.0;
    } else if m > n {
      assert m as real >= n as real + 1.0;
    }
  }

  /** Rounding is the identity on integers. */
  lemma RoundInteger(n: int)
    ensures Round(n as real) == n
  {
    RoundNearest(n as real, n);
  }

  /** `a` is an integer multiple of the cell size `g`. */
  predicate OnGrid(a: real, g: real)
    requires g != 0.0
  {
    (a / g).Floor as real == a / g
  }

  lemma MultipleOnGrid(n: int, g: real)
    requires g != 0.0
    ensures (n as real * g) / g == n as real
    ensures OnGrid(n as real * g, g)
  {
  }

  /** `|u * g| = |u| * |g|`, spelled out for the solver. */
  lemma AbsMul(u: real, g: real)
    ensures Abs(u * g) == Abs(u) * Abs(g)
  {
    if u < 0.0 && g < 0.0 {
      assert u * g == (-u) * (-g);
    } else if u < 0.0 {
      assert -(u * g) == (-u) * g;
    } else if g < 0.0 {
      assert -(u * g) == u * (-g);
    }
  }

  /** The distance between two multiples of `g`, measured in cells. */
  lemma DistanceInCells(c: real, q: real, g: real)
    ensures Abs(c * g - q * g) == Abs(c - q) * Abs(g)
  {
    assert c * g - q * g == (c - q) * g;
    AbsMul(c - q, g);
  }

  lemma DivMul(a: real, g: real)
    requires g != 0.0
    ensures (a / g) * g == a
  {
  }

  /** One axis of `GetSnapVector`: `round(a / g) * g`. */
  function SnapAxis(a: real, g: real): real
    requires g != 0.0
  {
    Round(a / g) as real * g
  }

  /** The snapped value is a multiple of `g`. */
  lemma SnapAxisOnGrid(a: real, g: real)
    requires g != 0.0
    ensures OnGrid(SnapAxis(a, g), g)
  {
    var n := Round(a / g);
    MultipleOnGrid(n, g);
    assert SnapAxis(a, g) == n as real * g;
  }

  /** The snapped value is within half a cell of `a`. */
  lemma SnapAxisWithinHalf(a: real, g: real)
    requires g != 0.0
    ensures Abs(SnapAxis(a, g) - a) <= Abs(g) / 2.0
  {
    var q := a / g;
    var n := Round(q) as real;
    assert q * g == a by { DivMul(a, g); }
    assert Abs(n - q) <= 0.5 by { RoundNearest(q, 0); }
    WithinHalfCell(a, q, g, n, SnapAxis(a, g));
  }

  /** No grid point `p` is closer to `a` than the snapped value. */
  lemma SnapAxisNearest(a: real, g: real, p: real)
    requires g != 0.0 && OnGrid(p, g)
    ensures Abs(SnapAxis(a, g) - a) <= Abs(p - a)
  {
    var q, m := a / g, p / g;
    var n := Round(q) as real;
    assert Abs(n - q) <= Abs(m - q) by { RoundNearest(q, m.Floor); }
    assert m * g == p by { DivMul(p, g); }
    assert q * g == a by { DivMul(a, g); }
    NoCloserMultiple(a, q, g, n, m, SnapAxis(a, g));
  }

  /** With `a = q * g`, the distance from `a` to `c * g` is `|c - q|` cells. */
  lemma ScaledDistance(c: real, q: real, g: real, a: real)
    requires q * g == a
    ensures Abs(c * g - a) == Abs(c - q) * Abs(g)
  {
    DistanceInCells(c, q, g);
  }

  lemma WithinHalfCell(a: real, q: real, g: real, n: real, s: real)
    requires q * g == a && s == n * g && Abs(n - q) <= 0.5
    ensures Abs(s - a) <= Abs(g) / 2.0
  {
    var d, c := Abs(n - q), Abs(g);
    ScaledDistance(n, q, g, a);
    ScaleMonotone(d, 0.5, c);
    assert Abs(s - a) == d * c <= 0.5 * c == c / 2.0;
  }

  lemma NoCloserMultiple(a: real, q: real, g: real, n: real, m: real, s: real)
    requires q * g == a && s == n * g && Abs(n - q) <= Abs(m - q)
    ensures Abs(s - a) <= Abs(m * g - a)
  {
    var dn, dm, c := Abs(n - q), Abs(m - q), Abs(g);
    calc {
      Abs(s - a);
    ==
      Abs(n * g - a);
    == { ScaledDistance(n, q, g, a); }
      dn * c;
    <= { ScaleMonotone(dn, dm, c); }
      dm * c;
    == { ScaledDistance(m, q, g, a); }
      Abs(m * g - a);
    }
  }

  lemma ScaleMonotone(p: real, q: real, c: real)
    requires p <= q && 0.0 <= c
    ensures p * c <= q * c
  {
    assert q * c - p * c == (q - p) * c;
  }

  /** A value already on the grid is left where it is. */
  lemma SnapAxisKeepsGridValue(a: real, g: real)
    requires g != 0.0 && OnGrid(a, g)
    ensures SnapAxis(a, g) == a
  {
    var k := (a / g).Floor;
    RoundInteger(k);
    assert a == (a / g) * g;
  }

  /** `GhostGrid.GetSnapVector`: every axis moved to its nearest multiple of `g`. */
  function SnapVector(v: Vec3, g: real): Vec3
    requires g != 0.0
  {
    Vec3(SnapAxis(v.x, g), SnapAxis(v.y, g), SnapAxis(v.z, g))
  }

  /** Every coordinate of `v` is a multiple of `g`. */
  predicate GridPoint(v: Vec3, g: real)
    requires g != 0.0
  {
    OnGrid(v.x, g) && OnGrid(v.y, g) && OnGrid(v.z, g)
  }

  /**
   * The snapped vector is a grid point within half a cell of `v` on every
   * axis, and no grid point `p` is closer to `v` on any axis.
   */
  lemma SnapVectorNearest(v: Vec3, g: real, p: Vec3)
    requires g != 0.0 && GridPoint(p, g)
    ensures var r := SnapVector(v, g);
      GridPoint(r, g) &&
      Abs(r.x - v.x) <= Abs(g) / 2.0 && Abs(r.y - v.y) <= Abs(g) / 2.0 && Abs(r.z - v.z) <= Abs(g) / 2.0
    ensures var r := SnapVector(v, g);
      Abs(r.x - v.x) <= Abs(p.x - v.x) && Abs(r.y - v.y) <= Abs(p.y - v.y) && Abs(r.z - v.z) <= Abs(p.z - v.z)
  {
    SnapAxisOnGrid(v.x, g);
    SnapAxisOnGrid(v.y, g);
    SnapAxisOnGrid(v.z, g);
    SnapAxisWithinHalf(v.x, g);
    SnapAxisWithinHalf(v.y, g);
    SnapAxisWithinHalf(v.z, g);
    SnapAxisNearest(v.x, g, p.x);
    SnapAxisNearest(v.y, g, p.y);
    SnapAxisNearest(v.z, g, p.z);
  }

  /** Snapping twice is snapping once. */
  lemma SnapVectorIdempotent(v: Vec3, g: real)
    requires g != 0.0
    ensures SnapVector(SnapVector(v, g), g) == SnapVector(v, g)
  {
    var r := SnapVector(v, g);
    SnapAxisOnGrid(v.x, g);
    SnapAxisOnGrid(v.y, g);
    SnapAxisOnGrid(v.z, g);
    SnapAxisKeepsGridValue(r.x, g);
    SnapAxisKeepsGridValue(r.y, g);
    SnapAxisKeepsGridValue(r.z, g);
  }

  /** A direction's first non-zero axis and the sign along it. */
  datatype Heading = Heading(axis: Axis, positive: bool)

  /**
   * The `if (d.x > 0) … else if (d.x < 0) … else if (d.y > 0) …` dispatch
   * used by `Grow` and `Reduce`: x is tried first, then y, then z.
   */
  function FirstNonZero(d: Vec3): (h: Option<Heading>)
    ensures h.None? <==> d == Origin
    ensures h.Some? ==> Coord(d, h.value.axis) != 0.0
    ensures h.Some? ==> (h.value.positive <==> Coord(d, h.value.axis) > 0.0)
    ensures h.Some? && h.value.axis != X ==> d.x == 0.0
    ensures h.Some? && h.value.axis == Z ==> d.y == 0.0
  {
    if d.x > 0.0 then Some(Heading(X, true))
    else if d.x < 0.0 then Some(Heading(X, false))
    else if d.y > 0.0 then Some(Heading(Y, true))
    else if d.y < 0.0 then Some(Heading(Y, false))
    else if d.z > 0.0 then Some(Heading(Z, true))
    else if d.z < 0.0 then Some(Heading(Z, false))
    else None
  }
}
