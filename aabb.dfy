/**
 * `AABB` (src/aabb.rs): an axis-aligned box made of three intervals, with its
 * construction from extrema, union, corners, rebuild from points and the
 * ray–slab test.
 */
module Aabb {
  import opened Vectors
  import opened Intervals

  datatype AABB = AABB(x: Interval, y: Interval, z: Interval)

  /** The interval of axis `i` (0 = x, 1 = y, 2 = z). */
  function Axis(b: AABB, i: nat): Interval
    requires i < 3
  {
    if i == 0 then b.x else if i == 1 then b.y else b.z
  }

  predicate ContainsPoint(b: AABB, p: Vec3) {
    Contains(b.x, p.x) && Contains(b.y, p.y) && Contains(b.z, p.z)
  }

  /** `p` lies in the open interior of the box on every axis. */
  predicate StrictlyInside(b: AABB, p: Vec3) {
    Surrounds(b.x, p.x) && Surrounds(b.y, p.y) && Surrounds(b.z, p.z)
  }

  predicate EnclosesBox(outer: AABB, inner: AABB) {
    Encloses(outer.x, inner.x) && Encloses(outer.y, inner.y) && Encloses(outer.z, inner.z)
  }

  /** Every axis has `min <= max`. */
  predicate WellFormed(b: AABB) {
    b.x.min <= b.x.max && b.y.min <= b.y.max && b.z.min <= b.z.max
  }

  predicate FiniteBox(b: AABB) {
    Finite(b.x.min) && Finite(b.x.max) && Finite(b.y.min) && Finite(b.y.max)
    && Finite(b.z.min) && Finite(b.z.max)
  }

  /** `AABB::default()`: the empty interval on every axis; it contains no point. */
  function Default(): (r: AABB)
    ensures forall p :: !ContainsPoint(r, p)
  {
    AABB(Empty(), Empty(), Empty())
  }

  /**
   * `from_extrema(a, b)`: the box spanned by two opposite corners given in either
   * order — the smallest well-formed box that contains both.
   */
  function FromExtrema(a: Vec3, b: Vec3): (r: AABB)
    ensures WellFormed(r)
    ensures ContainsPoint(r, a) && ContainsPoint(r, b)
    ensures forall c :: ContainsPoint(c, a) && ContainsPoint(c, b) ==> EnclosesBox(c, r)
  {
    AABB(
      if a.x <= b.x then Interval(a.x, b.x) else Interval(b.x, a.x),
      if a.y <= b.y then Interval(a.y, b.y) else Interval(b.y, a.y),
      if a.z <= b.z then Interval(a.z, b.z) else Interval(b.z, a.z))
  }

  /** `to_contain`: the axis-wise union, i.e. the smallest box enclosing both. */
  function ToContain(a: AABB, b: AABB): (r: AABB)
    ensures EnclosesBox(r, a) && EnclosesBox(r, b)
    ensures forall c :: EnclosesBox(c, a) && EnclosesBox(c, b) ==> EnclosesBox(c, r)
    ensures forall p :: ContainsPoint(a, p) || ContainsPoint(b, p) ==> ContainsPoint(r, p)
  {
    AABB(Intervals.ToContain(a.x, b.x), Intervals.ToContain(a.y, b.y), Intervals.ToContain(a.z, b.z))
  }

  /** `min()`: the low corner, below or equal to every point of the box on each axis. */
  function MinCorner(b: AABB): (p: Vec3)
    ensures WellFormed(b) ==> ContainsPoint(b, p)
    ensures forall q :: ContainsPoint(b, q) ==> p.x <= q.x && p.y <= q.y && p.z <= q.z
  {
    Vec3(b.x.min, b.y.min, b.z.min)
  }

  /** `max()`: the high corner, above or equal to every point of the box on each axis. */
  function MaxCorner(b: AABB): (p: Vec3)
    ensures WellFormed(b) ==> ContainsPoint(b, p)
    ensures forall q :: ContainsPoint(b, q) ==> q.x <= p.x && q.y <= p.y && q.z <= p.z
  {
    Vec3(b.x.max, b.y.max, b.z.max)
  }

  /**
   * `get_points`, as written: eight points of the box, low corner first and high
   * corner last. The high corner is listed twice and the corner
   * `(x.max, y.max, z.min)` not at all (`GetPointsMissesCorner`).
   */
  function GetPoints(b: AABB): (pts: seq<Vec3>)
    ensures |pts| == 8
    ensures pts[0] == MinCorner(b) && pts[7] == MaxCorner(b)
    ensures WellFormed(b) ==> forall i :: 0 <= i < 8 ==> ContainsPoint(b, pts[i])
  {
    [ MinCorner(b),
      Vec3(b.x.min, b.y.min, b.z.max),
      Vec3(b.x.min, b.y.max, b.z.max),
      Vec3(b.x.min, b.y.max, b.z.min),
      Vec3(b.x.max, b.y.min, b.z.min),
      Vec3(b.x.max, b.y.min, b.z.max),
      Vec3(b.x.max, b.y.max, b.z.max),
      MaxCorner(b) ]
  }

  /** `p` is one of the box's corners: each coordinate is that axis' `min` or `max`. */
  predicate IsCorner(b: AABB, p: Vec3) {
    (p.x == b.x.min || p.x == b.x.max) && (p.y == b.y.min || p.y == b.y.max) && (p.z == b.z.min || p.z == b.z.max)
  }

  /** As written: the unit cube's corner `(1, 1, 0)` is not among `get_points`. */
  lemma GetPointsMissesCorner()
    ensures var b := AABB(Interval(0.0, 1.0), Interval(0.0, 1.0), Interval(0.0, 1.0));
      IsCorner(b, Vec3(1.0, 1.0, 0.0)) && Vec3(1.0, 1.0, 0.0) !in GetPoints(b)
  {
  }

  /** `get_points` corrected: all eight corners, each listed once, low corner first and high corner last. */
  function Corners(b: AABB): (pts: seq<Vec3>)
    ensures |pts| == 8
    ensures pts[0] == MinCorner(b) && pts[7] == MaxCorner(b)
    ensures forall i :: 0 <= i < 8 ==> IsCorner(b, pts[i])
    ensures forall p :: IsCorner(b, p) ==> p in pts
  {
    [ MinCorner(b),
      Vec3(b.x.min, b.y.min, b.z.max),
      Vec3(b.x.min, b.y.max, b.z.max),
      Vec3(b.x.min, b.y.max, b.z.min),
      Vec3(b.x.max, b.y.min, b.z.min),
      Vec3(b.x.max, b.y.min, b.z.max),
      Vec3(b.x.max, b.y.max, b.z.min),
      MaxCorner(b) ]
  }

  /** One pass of the loop body of `from_points`: stretch every axis to take in `p`. */
  function StretchTo(b: AABB, p: Vec3): AABB {
    AABB(StretchMax(StretchMin(b.x, p.x), p.x),
         StretchMax(StretchMin(b.y, p.y), p.y),
         StretchMax(StretchMin(b.z, p.z), p.z))
  }

  /**
   * The box `from_points` has built after taking in `points`, in order: the
   * default box for none, and a well-formed box once any point is taken in.
   */
  function BoundsOf(points: seq<Vec3>): (b: AABB)
    ensures points == [] ==> b == Default()
    ensures points != [] ==> WellFormed(b)
    decreases |points|
  {
    if points == [] then Default()
    else StretchTo(BoundsOf(points[..|points| - 1]), points[|points| - 1])
  }

  lemma {:induction false} BoundsOfContains(points: seq<Vec3>, i: nat)
    requires i < |points|
    ensures ContainsPoint(BoundsOf(points), points[i])
    decreases |points|
  {
    var n := |points| - 1;
    if i < n {
      BoundsOfContains(points[..n], i);
    }
  }

  /** Any box holding all of (at least one, finite) points encloses what `from_points` builds. */
  lemma {:induction false} BoundsOfLeast(points: seq<Vec3>, c: AABB)
    requires |points| > 0
    requires forall i :: 0 <= i < |points| ==> FinitePoint(points[i])
    requires forall i :: 0 <= i < |points| ==> ContainsPoint(c, points[i])
    ensures EnclosesBox(c, BoundsOf(points))
    decreases |points|
  {
    var n := |points| - 1;
    if n > 0 {
      BoundsOfLeast(points[..n], c);
    }
  }

  /**
   * `from_points`: starts from the empty default box and stretches it, axis by
   * axis, to take in each of the eight points. The result is the smallest box
   * containing all of them.
   */
  method FromPoints(points: seq<Vec3>) returns (res: AABB)
    requires |points| == 8
    ensures res == BoundsOf(points)
    ensures forall i :: 0 <= i < |points| ==> ContainsPoint(res, points[i])
    ensures (forall i :: 0 <= i < |points| ==> FinitePoint(points[i])) ==>
              forall c :: (forall i :: 0 <= i < |points| ==> ContainsPoint(c, points[i])) ==> EnclosesBox(c, res)
  {
    res := Default();
    for k := 0 to |points|
      invariant res == BoundsOf(points[..k])
    {
      var p := points[k];
      res := res.(x := StretchMin(res.x, p.x));
      res := res.(x := StretchMax(res.x, p.x));
      res := res.(y := StretchMin(res.y, p.y));
      res := res.(y := StretchMax(res.y, p.y));
      res := res.(z := StretchMin(res.z, p.z));
      res := res.(z := StretchMax(res.z, p.z));
      assert points[..k + 1][..k] == points[..k];
    }
    assert points[..|points|] == points;
    forall i | 0 <= i < |points|
      ensures ContainsPoint(res, points[i])
    {
      BoundsOfContains(points, i);
    }
    if forall i :: 0 <= i < |points| ==> FinitePoint(points[i]) {
      forall c | forall i :: 0 <= i < |points| ==> ContainsPoint(c, points[i])
        ensures EnclosesBox(c, res)
      {
        BoundsOfLeast(points, c);
      }
    }
  }

  /** Round trip: rebuilding a well-formed finite box from its corners gives the box back. */
  lemma FromPointsGetPointsRoundTrip(b: AABB)
    requires WellFormed(b) && FiniteBox(b)
    ensures BoundsOf(GetPoints(b)) == b
  {
    var pts := GetPoints(b);
    BoundsOfContains(pts, 0);
    BoundsOfContains(pts, 7);
    BoundsOfLeast(pts, b);
  }

  /** The same round trip through the corrected corner list. */
  lemma FromPointsCornersRoundTrip(b: AABB)
    requires WellFormed(b) && FiniteBox(b)
    ensures BoundsOf(Corners(b)) == b
  {
    var pts := Corners(b);
    BoundsOfContains(pts, 0);
    BoundsOfContains(pts, 7);
    BoundsOfLeast(pts, b);
  }

  lemma FromExtremaSymmetric(a: Vec3, b: Vec3)
    ensures FromExtrema(a, b) == FromExtrema(b, a)
  {
  }

  lemma ToContainCommutative(a: AABB, b: AABB)
    ensures ToContain(a, b) == ToContain(b, a)
  {
  }

  lemma ToContainAssociative(a: AABB, b: AABB, c: AABB)
    ensures ToContain(ToContain(a, b), c) == ToContain(a, ToContain(b, c))
  {
  }

  lemma ToContainIdempotent(a: AABB)
    ensures ToContain(a, a) == a
  {
  }

  lemma EnclosesBoxTransitive(a: AABB, b: AABB, c: AABB)
    requires EnclosesBox(a, b) && EnclosesBox(b, c)
    ensures EnclosesBox(a, c)
  {
  }

  // ---------------------------------------------------------------------------
  // The slab test.

  /**
   * An `f32` as the slab test can produce it: finite, an infinity (from dividing
   * by a zero direction component) or NaN (zero times infinity).
   */
  datatype Ext = NegInf | Fin(v: real) | PosInf | NaN

  /** IEEE `<`: false whenever an operand is NaN. */
  predicate Lt(a: Ext, b: Ext) {
    match a
    case NaN => false
    case PosInf => false
    case NegInf => b.Fin? || b.PosInf?
    case Fin(x) => (b.Fin? && x < b.v) || b.PosInf?
  }

  /** IEEE `<=`: false whenever an operand is NaN. */
  predicate Le(a: Ext, b: Ext) {
    match a
    case NaN => false
    case PosInf => b.PosInf?
    case NegInf => !b.NaN?
    case Fin(x) => (b.Fin? && x <= b.v) || b.PosInf?
  }

  /**
   * `num * (1.0 / dir)` in `f32`: a finite quotient when `dir` is not zero;
   * otherwise `1.0 / 0.0` is `+inf`, and `num * inf` is `+inf`, `-inf` or NaN
   * by the sign of `num`.
   */
  function Scaled(num: real, dir: real): Ext {
    if dir != 0.0 then Fin(num / dir)
    else if num > 0.0 then PosInf
    else if num < 0.0 then NegInf
    else NaN
  }

  /** The parameters `(t0, t1)` at which the ray crosses the two planes of axis `i`. */
  function SlabTimes(b: AABB, r: Ray, i: nat): (Ext, Ext)
    requires i < 3
  {
    var ax := Axis(b, i);
    var o := Component(r.origin, i);
    var d := Component(r.direction, i);
    (Scaled(ax.min - o, d), Scaled(ax.max - o, d))
  }

  /** One axis of `hit`: raise the window's low end and lower its high end to the slab's. */
  function NarrowAxis(w: (Ext, Ext), t0: Ext, t1: Ext): (Ext, Ext) {
    var (lo, hi) := w;
    if Lt(t0, t1) then
      (if Lt(lo, t0) then t0 else lo, if Lt(t1, hi) then t1 else hi)
    else
      (if Lt(lo, t1) then t1 else lo, if Lt(t0, hi) then t0 else hi)
  }

  /**
   * The working interval `ray_t` of `hit` after the first `k` axes. It never
   * holds NaN and stays within the interval it started from.
   */
  function Window(b: AABB, r: Ray, rayT: Interval, k: nat): (w: (Ext, Ext))
    requires k <= 3
    ensures !w.0.NaN? && !w.1.NaN?
    ensures Le(Fin(rayT.min), w.0) && Le(w.1, Fin(rayT.max))
  {
    if k == 0 then (Fin(rayT.min), Fin(rayT.max))
    else
      var (t0, t1) := SlabTimes(b, r, k - 1);
      NarrowAxis(Window(b, r, rayT, k - 1), t0, t1)
  }

  /** What `hit` returns: the window was non-empty after each of the three axes. */
  predicate SlabHit(b: AABB, r: Ray, rayT: Interval) {
    forall k | 1 <= k <= 3 :: !Le(Window(b, r, rayT, k).1, Window(b, r, rayT, k).0)
  }

  /**
   * `hit(r, ray_t)`: the slab test. It narrows a copy of `ray_t` axis by axis and
   * returns false as soon as the copy is empty.
   */
  method Hit(b: AABB, r: Ray, rayT: Interval) returns (hit: bool)
    ensures hit == SlabHit(b, r, rayT)
  {
    var lo, hi := Fin(rayT.min), Fin(rayT.max);
    for i := 0 to 3
      invariant (lo, hi) == Window(b, r, rayT, i)
      invariant forall k | 1 <= k <= i :: !Le(Window(b, r, rayT, k).1, Window(b, r, rayT, k).0)
    {
      ghost var before := (lo, hi);
      var ax := Axis(b, i);
      var t0 := Scaled(ax.min - Component(r.origin, i), Component(r.direction, i));
      var t1 := Scaled(ax.max - Component(r.origin, i), Component(r.direction, i));
      assert (t0, t1) == SlabTimes(b, r, i);
      if Lt(t0, t1) {
        if Lt(lo, t0) { lo := t0; }
        if Lt(t1, hi) { hi := t1; }
      } else {
        if Lt(lo, t1) { lo := t1; }
        if Lt(t0, hi) { hi := t0; }
      }
      assert (lo, hi) == NarrowAxis(before, t0, t1);
      assert (lo, hi) == Window(b, r, rayT, i + 1);
      if Le(hi, lo) {
        assert !SlabHit(b, r, rayT) by {
          assert Le(Window(b, r, rayT, i + 1).1, Window(b, r, rayT, i + 1).0);
        }
        return false;
      }
    }
    return true;
  }

  lemma LeTransitive(a: Ext, b: Ext, c: Ext)
    requires Le(a, b) && Le(b, c)
    ensures Le(a, c)
  {
  }

  /** Across each axis the window only narrows: its low end never drops, its high end never rises. */
  lemma WindowNarrows(b: AABB, r: Ray, rayT: Interval, k: nat)
    requires 1 <= k <= 3
    ensures Le(Window(b, r, rayT, k - 1).0, Window(b, r, rayT, k).0)
    ensures Le(Window(b, r, rayT, k).1, Window(b, r, rayT, k - 1).1)
  {
  }

  /** Once empty, the window stays empty. */
  lemma {:induction false} EmptyWindowStaysEmpty(b: AABB, r: Ray, rayT: Interval, j: nat, k: nat)
    requires j <= k <= 3
    requires Le(Window(b, r, rayT, j).1, Window(b, r, rayT, j).0)
    ensures Le(Window(b, r, rayT, k).1, Window(b, r, rayT, k).0)
    decreases k - j
  {
    if j < k {
      WindowNarrows(b, r, rayT, j + 1);
      var w, w' := Window(b, r, rayT, j), Window(b, r, rayT, j + 1);
      LeTransitive(w'.1, w.1, w.0);
      LeTransitive(w'.1, w.0, w'.0);
      EmptyWindowStaysEmpty(b, r, rayT, j + 1, k);
    }
  }

  /**
   * `hit` is true exactly when the window is still non-empty after all three axes;
   * in particular an input interval with `max <= min` is never hit.
   */
  lemma SlabHitIffFinalWindowNonEmpty(b: AABB, r: Ray, rayT: Interval)
    ensures SlabHit(b, r, rayT) <==> Lt(Window(b, r, rayT, 3).0, Window(b, r, rayT, 3).1)
    ensures rayT.max <= rayT.min ==> !SlabHit(b, r, rayT)
  {
    var w := Window(b, r, rayT, 3);
    if !SlabHit(b, r, rayT) {
      var k :| 1 <= k <= 3 && Le(Window(b, r, rayT, k).1, Window(b, r, rayT, k).0);
      EmptyWindowStaysEmpty(b, r, rayT, k, 3);
    }
    if rayT.max <= rayT.min {
      EmptyWindowStaysEmpty(b, r, rayT, 0, 1);
    }
  }

  lemma DivBelow(a: real, d: real, t: real)
    requires d > 0.0 && a < t * d
    ensures a / d < t
  {
    var q := a / d;
    assert q * d == a;
    if q >= t {
      assert q * d >= t * d;
    }
  }

  lemma DivAbove(a: real, d: real, t: real)
    requires d > 0.0 && t * d < a
    ensures t < a / d
  {
    var q := a / d;
    assert q * d == a;
    if q <= t {
      assert q * d <= t * d;
    }
  }

  /** `a / d` for a negative `d` is `(-a) / (-d)`. */
  lemma DivNegated(a: real, d: real)
    requires d < 0.0
    ensures (-a) / (-d) == a / d
  {
  }

  /**
   * On one axis, with `lowNum` and `highNum` the distances from the origin to the
   * two planes and `d` the direction component: a `t` whose point lies strictly
   * between the planes lies strictly between the two slab times.
   */
  lemma Straddles(lowNum: real, highNum: real, d: real, t: real)
    requires lowNum < t * d < highNum
    ensures var (t0, t1) := (Scaled(lowNum, d), Scaled(highNum, d));
      if Lt(t0, t1) then Lt(t0, Fin(t)) && Lt(Fin(t), t1)
      else Lt(t1, Fin(t)) && Lt(Fin(t), t0)
  {
    if d > 0.0 {
      DivBelow(lowNum, d, t);
      DivAbove(highNum, d, t);
    } else if d < 0.0 {
      DivBelow(-highNum, -d, t);
      DivAbove(-lowNum, -d, t);
      DivNegated(highNum, d);
      DivNegated(lowNum, d);
    }
  }

  /**
   * When the point at `t` lies strictly between axis `i`'s two planes, `t` lies
   * strictly between the slab's entry and exit times, whichever way they are ordered.
   */
  lemma SlabStraddles(b: AABB, r: Ray, i: nat, t: real)
    requires i < 3
    requires Surrounds(Axis(b, i), Component(At(r, t), i))
    ensures var (t0, t1) := SlabTimes(b, r, i);
      if Lt(t0, t1) then Lt(t0, Fin(t)) && Lt(Fin(t), t1)
      else Lt(t1, Fin(t)) && Lt(Fin(t), t0)
  {
    var ax := Axis(b, i);
    var o := Component(r.origin, i);
    var d := Component(r.direction, i);
    assert Component(At(r, t), i) == o + d * t;
    Straddles(ax.min - o, ax.max - o, d, t);
  }

  /**
   * While the point at `t` is strictly inside the box, `t` stays inside the window
   * and the window stays non-empty.
   */
  lemma {:induction false} WindowKeepsInteriorPoint(b: AABB, r: Ray, rayT: Interval, t: real, k: nat)
    requires k <= 3
    requires Contains(rayT, t) && rayT.min < rayT.max
    requires StrictlyInside(b, At(r, t))
    ensures var w := Window(b, r, rayT, k);
      Le(w.0, Fin(t)) && Le(Fin(t), w.1) && Lt(w.0, w.1)
      && (w.0 == Fin(rayT.min) || Lt(w.0, Fin(t)))
      && (w.1 == Fin(rayT.max) || Lt(Fin(t), w.1))
  {
    if k > 0 {
      WindowKeepsInteriorPoint(b, r, rayT, t, k - 1);
      assert Surrounds(Axis(b, k - 1), Component(At(r, t), k - 1));
      SlabStraddles(b, r, k - 1, t);
    }
  }

  /**
   * Soundness of the slab test: if the ray passes strictly inside the box at some
   * `t` of a non-degenerate `ray_t`, `hit` returns true. This is what lets the BVH
   * prune a subtree whose box the test rejects.
   */
  lemma SlabHitSound(b: AABB, r: Ray, rayT: Interval, t: real)
    requires Contains(rayT, t) && rayT.min < rayT.max
    requires StrictlyInside(b, At(r, t))
    ensures SlabHit(b, r, rayT)
  {
    WindowKeepsInteriorPoint(b, r, rayT, t, 3);
    SlabHitIffFinalWindowNonEmpty(b, r, rayT);
  }
}
