/**
 * `Interval` (src/interval.rs): a closed range `[min, max]` of ray parameters or
 * coordinates. The default ("empty") interval is `{MAX, MIN}`, so that growing it
 * by unions starts from nothing.
 */
module Intervals {
  import opened Vectors

  datatype Interval = Interval(min: real, max: real)

  /** Closed membership, `min <= n <= max`. */
  predicate Contains(iv: Interval, n: real) {
    iv.min <= n && n <= iv.max
  }

  /** Open membership; it only accepts what `Contains` accepts. */
  predicate Surrounds(iv: Interval, n: real)
    ensures Surrounds(iv, n) ==> Contains(iv, n)
  {
    iv.min < n && n < iv.max
  }

  /** `outer` reaches at least as far as `inner` at both ends. */
  predicate Encloses(outer: Interval, inner: Interval) {
    outer.min <= inner.min && inner.max <= outer.max
  }

  /** `Interval::default()`, also returned by `empty()`: it contains no value and overlaps nothing. */
  function Empty(): (r: Interval)
    ensures forall n :: !Contains(r, n)
    ensures forall other :: !Overlaps(r, other) && !Overlaps(other, r)
  {
    Interval(MAX, MIN)
  }

  /** `universe()`: every finite `f32` lies in it. */
  function Universe(): (r: Interval)
    ensures forall n :: Finite(n) <==> Contains(r, n)
    ensures forall iv: Interval :: Finite(iv.min) && Finite(iv.max) ==> Encloses(r, iv)
  {
    Interval(MIN, MAX)
  }

  /**
   * `expand(delta)`: pads both ends by `delta / 2`. The width grows by exactly
   * `delta` and the centre stays where it was.
   */
  function Expand(iv: Interval, delta: real): (r: Interval)
    ensures r.max - r.min == iv.max - iv.min + delta
    ensures r.min + r.max == iv.min + iv.max
  {
    var padding := delta / 2.0;
    Interval(iv.min - padding, iv.max + padding)
  }

  /** `overlaps`: true exactly when some value lies strictly inside both intervals. */
  predicate Overlaps(a: Interval, b: Interval)
    ensures Overlaps(a, b) <==> exists n :: Surrounds(a, n) && Surrounds(b, n)
  {
    var tMin := Max(a.min, b.min);
    var tMax := Min(a.max, b.max);
    var mid := (tMin + tMax) / 2.0;
    assert tMin < tMax ==> Surrounds(a, mid) && Surrounds(b, mid);
    tMin < tMax
  }

  /** `to_contain`: the smallest interval that encloses both operands. */
  function ToContain(a: Interval, b: Interval): (r: Interval)
    ensures Encloses(r, a) && Encloses(r, b)
    ensures forall c :: Encloses(c, a) && Encloses(c, b) ==> Encloses(c, r)
    ensures forall n :: Contains(a, n) || Contains(b, n) ==> Contains(r, n)
  {
    Interval(Min(a.min, b.min), Max(a.max, b.max))
  }

  /** `stretch_min(x)`: lowers `min` to `x` when `x` is smaller; `max` is untouched. */
  function StretchMin(iv: Interval, x: real): (r: Interval)
    ensures r.max == iv.max
    ensures r.min <= x && r.min <= iv.min && (r.min == x || r.min == iv.min)
  {
    iv.(min := Min(iv.min, x))
  }

  /** `stretch_max(x)`: raises `max` to `x` when `x` is larger; `min` is untouched. */
  function StretchMax(iv: Interval, x: real): (r: Interval)
    ensures r.min == iv.min
    ensures x <= r.max && iv.max <= r.max && (r.max == x || r.max == iv.max)
  {
    iv.(max := Max(iv.max, x))
  }

  lemma ToContainCommutative(a: Interval, b: Interval)
    ensures ToContain(a, b) == ToContain(b, a)
  {
  }

  lemma ToContainAssociative(a: Interval, b: Interval, c: Interval)
    ensures ToContain(ToContain(a, b), c) == ToContain(a, ToContain(b, c))
  {
  }

  lemma ToContainIdempotent(a: Interval)
    ensures ToContain(a, a) == a
  {
  }

  /** The empty interval is a unit of `to_contain` for every interval with finite ends. */
  lemma EmptyIsIdentity(a: Interval)
    requires Finite(a.min) && Finite(a.max)
    ensures ToContain(Empty(), a) == a && ToContain(a, Empty()) == a
  {
  }

  lemma OverlapsSymmetric(a: Interval, b: Interval)
    ensures Overlaps(a, b) <==> Overlaps(b, a)
  {
  }

  /** Padding by a positive amount turns closed membership into strict membership. */
  lemma ExpandWidens(iv: Interval, delta: real, n: real)
    requires delta >= 0.0
    ensures Encloses(Expand(iv, delta), iv)
    ensures delta > 0.0 && Contains(iv, n) ==> Surrounds(Expand(iv, delta), n)
  {
  }
}
