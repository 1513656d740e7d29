/** `clamp`, `range` and `randomPoint` of src/physics/engine.js. The random
    source is a parameter: `u` stands for a value of `Math.random()`, which
    lies in `[0, 1)`. */
module SpawnPoint {

  /** `clamp(v, min, max)`: `min` when `v <= min`, else `max` when
      `v >= max`, else `v`. */
  function Clamp(v: real, lo: real, hi: real): (c: real)
    ensures c == lo || c == hi || c == v
    ensures lo <= hi ==> lo <= c <= hi
    ensures lo < v < hi ==> c == v
    ensures v <= lo ==> c == lo
  {
    if v <= lo then lo else if v >= hi then hi else v
  }

  /** A clamp into a proper interval changes nothing there and is
      idempotent. */
  lemma ClampIdempotent(v: real, lo: real, hi: real)
    requires lo <= hi
    ensures Clamp(Clamp(v, lo, hi), lo, hi) == Clamp(v, lo, hi)
    ensures lo <= v <= hi ==> Clamp(v, lo, hi) == v
  {
  }

  /** `range(min, max)` with `Math.random()` replaced by `u`. */
  function Range(lo: real, hi: real, u: real): (r: real) {
    u * (hi - lo) + lo
  }

  /** For `u` in `[0, 1)` a range over `lo <= hi` lies in `[lo, hi]`, and
      strictly below `hi` when the interval is not a point. */
  lemma RangeBounds(lo: real, hi: real, u: real)
    requires 0.0 <= u < 1.0 && lo <= hi
    ensures lo <= Range(lo, hi, u) <= hi
    ensures lo < hi ==> Range(lo, hi, u) < hi
  {
    var d := hi - lo;
    ScaleBelow(u, d);
    assert Range(lo, hi, u) == u * d + lo;
  }

  /** `0 <= u * d <= d` for `u` in `[0, 1)` and `d >= 0`, strict on the
      right when `d > 0`. */
  lemma ScaleBelow(u: real, d: real)
    requires 0.0 <= u < 1.0 && d >= 0.0
    ensures 0.0 <= u * d <= d
    ensures d > 0.0 ==> u * d < d
  {
    assert d - u * d == (1.0 - u) * d;
  }

  /** `randomPoint(size, xmin, xmax, ymin, ymax)` for a map of half width
      `hw` and half height `hh`: both bounds of each axis are first clamped
      so that a cell of radius `size` fits, then a point is drawn. */
  function RandomPoint(size: real, hw: real, hh: real, xmin: real, xmax: real, ymin: real, ymax: real,
                       ux: real, uy: real): (p: (real, real))
  {
    var x0 := Clamp(xmin, -hw + size, hw - size);
    var x1 := Clamp(xmax, -hw + size, hw - size);
    var y0 := Clamp(ymin, -hh + size, hh - size);
    var y1 := Clamp(ymax, -hh + size, hh - size);
    (Range(x0, x1, ux), Range(y0, y1, uy))
  }

  /** A cell of radius `size` no larger than the half extents, placed at a
      random point whose requested bounds are in order, lies wholly inside
      the map: its centre is at least `size` from every border. */
  lemma RandomPointInside(size: real, hw: real, hh: real, xmin: real, xmax: real, ymin: real, ymax: real,
                          ux: real, uy: real)
    requires 0.0 <= size <= hw && size <= hh
    requires xmin <= xmax && ymin <= ymax
    requires 0.0 <= ux < 1.0 && 0.0 <= uy < 1.0
    ensures var p := RandomPoint(size, hw, hh, xmin, xmax, ymin, ymax, ux, uy);
      -hw + size <= p.0 <= hw - size && -hh + size <= p.1 <= hh - size
  {
    var x0 := Clamp(xmin, -hw + size, hw - size);
    var x1 := Clamp(xmax, -hw + size, hw - size);
    var y0 := Clamp(ymin, -hh + size, hh - size);
    var y1 := Clamp(ymax, -hh + size, hh - size);
    ClampOrdered(xmin, xmax, -hw + size, hw - size);
    ClampOrdered(ymin, ymax, -hh + size, hh - size);
    RangeBounds(x0, x1, ux);
    RangeBounds(y0, y1, uy);
  }

  /** Clamping keeps two values in order. */
  lemma ClampOrdered(a: real, b: real, lo: real, hi: real)
    requires a <= b && lo <= hi
    ensures Clamp(a, lo, hi) <= Clamp(b, lo, hi)
  {
  }
}
