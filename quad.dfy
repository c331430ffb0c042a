/**
 * The parallelogram primitive (src/quad.rs): a corner `q` and two edges `u`, `v`,
 * with its bounding box, its interior test, its ray intersection and the light
 * sampling helpers `pdf_value` and `random_vector_to_surface`.
 */
module Quads {
  import opened Wrappers
  import opened Vectors
  import opened Intervals
  import Aabb
  import opened Hittable
  import Bvh

  /**
   * `Quad`: corner, edges, unit normal, the plane-coordinate helper `w`, the box,
   * the plane offset `d`, the area and the material.
   */
  datatype Quad = Quad(
    q: Vec3,
    u: Vec3,
    v: Vec3,
    normal: Vec3,
    w: Vec3,
    aabb: Aabb.AABB,
    d: real,
    area: real,
    material: MaterialRef)

  const Zero: Vec3 := Vec3(0.0, 0.0, 0.0)

  /** `length` is the square root of the squared length, as `Vec3::length` is. */
  ghost predicate IsLength(length: Vec3 -> real) {
    forall a :: length(a) >= 0.0 && length(a) * length(a) == LengthSquared(a)
  }

  /** `v / s`, component by component. */
  function DivScalar(a: Vec3, s: real): Vec3
    requires s != 0.0
  {
    Vec3(a.x / s, a.y / s, a.z / s)
  }

  /** The point of the quad's plane at plane coordinates `(a, b)`. */
  function QuadPoint(q: Vec3, u: Vec3, v: Vec3, a: real, b: real): Vec3 {
    Add(Add(q, Scale(u, a)), Scale(v, b))
  }

  lemma ProductPositive(a: real, b: real)
    requires a > 0.0 && b > 0.0
    ensures a * b > 0.0
  {
  }

  /** A sum of three squares, not all of zero, is positive. */
  lemma SumOfSquaresPositive(x: real, y: real, z: real)
    requires x != 0.0 || y != 0.0 || z != 0.0
    ensures x * x + y * y + z * z > 0.0
  {
    if x > 0.0 {
    } else if x < 0.0 {
    } else if y > 0.0 {
    } else if y < 0.0 {
    } else if z > 0.0 {
    } else {
    }
  }

  /** A non-zero vector has a positive squared length. */
  lemma LengthSquaredPositive(a: Vec3)
    ensures a != Zero ==> LengthSquared(a) > 0.0
  {
    if a != Zero {
      calc {
        LengthSquared(a);
        a.x * a.x + a.y * a.y + a.z * a.z;
      >  { SumOfSquaresPositive(a.x, a.y, a.z); }
        0.0;
      }
    }
  }

  /** What `IsLength` says about one vector; a non-zero vector has a positive length. */
  lemma LengthPositive(length: Vec3 -> real, a: Vec3)
    requires IsLength(length)
    ensures length(a) >= 0.0 && length(a) * length(a) == LengthSquared(a)
    ensures a != Zero ==> length(a) > 0.0 && LengthSquared(a) > 0.0
  {
    var l := length(a);
    assert l >= 0.0 && l * l == LengthSquared(a);
    LengthSquaredPositive(a);
    if l == 0.0 {
      assert LengthSquared(a) == 0.0 * 0.0;
    }
  }

  /** `n` scaled by the reciprocal of its length has unit length. */
  lemma UnitAfterScaling(n: Vec3, len: real)
    requires len > 0.0 && len * len == LengthSquared(n)
    ensures LengthSquared(Scale(n, 1.0 / len)) == 1.0
  {
    var k := 1.0 / len;
    assert k * len == 1.0;
    calc {
      LengthSquared(Scale(n, k));
      (n.x * k) * (n.x * k) + (n.y * k) * (n.y * k) + (n.z * k) * (n.z * k);
      { assert (n.x * k) * (n.x * k) == (n.x * n.x) * (k * k);
        assert (n.y * k) * (n.y * k) == (n.y * n.y) * (k * k);
        assert (n.z * k) * (n.z * k) == (n.z * n.z) * (k * k); }
      (n.x * n.x + n.y * n.y + n.z * n.z) * (k * k);
      (len * len) * (k * k);
      { assert (len * len) * (k * k) == (len * k) * (len * k); }
      1.0;
    }
  }

  /** `n / (n·n)` has dot product one with `n`. */
  lemma ReciprocalDot(n: Vec3)
    requires Dot(n, n) != 0.0
    ensures Dot(DivScalar(n, Dot(n, n)), n) == 1.0
  {
    var nn := Dot(n, n);
    assert (n.x / nn) * n.x == (n.x * n.x) / nn;
    assert (n.y / nn) * n.y == (n.y * n.y) / nn;
    assert (n.z / nn) * n.z == (n.z * n.z) / nn;
    assert (n.x * n.x) / nn + (n.y * n.y) / nn + (n.z * n.z) / nn == (n.x * n.x + n.y * n.y + n.z * n.z) / nn;
    assert nn / nn == 1.0;
  }

  /** The four corners of the parallelogram with corner `q` and edges `u`, `v`. */
  function Corners(q: Vec3, u: Vec3, v: Vec3): seq<Vec3> {
    [q, Add(q, u), Add(q, v), Add(Add(q, u), v)]
  }

  /**
   * `build_aabb`, as written: the union of the boxes spanned by the two diagonals.
   * It holds all four corners (and is the smallest such box, `BuildAabbIsSmallest`)
   * — and it is flat on an axis the quad does not extend along.
   */
  function BuildAabb(q: Vec3, u: Vec3, v: Vec3): (b: Aabb.AABB)
    ensures Aabb.WellFormed(b)
    ensures forall p | p in Corners(q, u, v) :: Aabb.ContainsPoint(b, p)
  {
    var diagonal := Aabb.FromExtrema(q, Add(Add(q, u), v));
    var other := Aabb.FromExtrema(Add(q, u), Add(q, v));
    Aabb.ToContain(diagonal, other)
  }

  /** Every box holding the four corners encloses `build_aabb`'s box. */
  lemma BuildAabbIsSmallest(q: Vec3, u: Vec3, v: Vec3, c: Aabb.AABB)
    requires forall p | p in Corners(q, u, v) :: Aabb.ContainsPoint(c, p)
    ensures Aabb.EnclosesBox(c, BuildAabb(q, u, v))
  {
    var diagonal := Aabb.FromExtrema(q, Add(Add(q, u), v));
    var other := Aabb.FromExtrema(Add(q, u), Add(q, v));
    assert Aabb.ContainsPoint(c, Corners(q, u, v)[0]) && Aabb.ContainsPoint(c, Corners(q, u, v)[3]);
    assert Aabb.ContainsPoint(c, Corners(q, u, v)[1]) && Aabb.ContainsPoint(c, Corners(q, u, v)[2]);
    assert Aabb.EnclosesBox(c, diagonal) && Aabb.EnclosesBox(c, other);
  }

  /** The smallest width a padded box has on each axis. */
  const PadDelta: real := 0.0001

  /** An axis thinner than `PadDelta`, widened by `expand(PadDelta)`. */
  function PadAxis(iv: Interval): (r: Interval)
    ensures Encloses(r, iv)
    ensures iv.min <= iv.max ==> r.max - r.min >= PadDelta || r == iv
    ensures iv.min <= iv.max ==> r.min < r.max || (r == iv && iv.max - iv.min >= PadDelta)
  {
    if iv.max - iv.min < PadDelta then Expand(iv, PadDelta) else iv
  }

  /**
   * `build_aabb` corrected: the same box with every axis at least `PadDelta` wide,
   * so that no axis is flat and a ray through the quad passes strictly inside.
   */
  function PaddedAabb(q: Vec3, u: Vec3, v: Vec3): (b: Aabb.AABB)
    ensures Aabb.EnclosesBox(b, BuildAabb(q, u, v))
    ensures forall p | p in Corners(q, u, v) :: Aabb.ContainsPoint(b, p)
    ensures forall i | 0 <= i < 3 :: Aabb.Axis(b, i).max - Aabb.Axis(b, i).min >= PadDelta
  {
    var flat := BuildAabb(q, u, v);
    Aabb.AABB(PadAxis(flat.x), PadAxis(flat.y), PadAxis(flat.z))
  }

  /**
   * `Quad::new`, for edges that are not parallel (for parallel edges `n` is zero
   * and every derived field is NaN). `w` makes `(w·n)` one, `q` lies on the plane
   * `normal·p = d`, the normal has unit length and the area is `|u × v|`. The box
   * is the padded one.
   */
  function NewQuad(q: Vec3, u: Vec3, v: Vec3, material: MaterialRef, length: Vec3 -> real): (quad: Quad)
    requires IsLength(length)
    requires Cross(u, v) != Zero
    ensures quad.q == q && quad.u == u && quad.v == v && quad.material == material
    ensures Dot(quad.w, Cross(u, v)) == 1.0
    ensures Dot(quad.normal, q) == quad.d
    ensures LengthSquared(quad.normal) == 1.0
    ensures Scale(quad.normal, quad.area) == Cross(u, v)
    ensures quad.area > 0.0 && quad.area * quad.area == LengthSquared(Cross(u, v))
    ensures quad.aabb == PaddedAabb(q, u, v)
  {
    var n := Cross(u, v);
    var nn := Dot(n, n);
    LengthPositive(length, n);
    var len := length(n);
    var normal := Scale(n, 1.0 / len);
    UnitAfterScaling(n, len);
    ScaleByReciprocal(n, len);
    var w := DivScalar(n, nn);
    ReciprocalDot(n);
    Quad(q, u, v, normal, w, PaddedAabb(q, u, v), Dot(normal, q), len, material)
  }

  /** Scaling by `1 / len` and then by `len` gives the vector back. */
  lemma ScaleByReciprocal(n: Vec3, len: real)
    requires len != 0.0
    ensures Scale(Scale(n, 1.0 / len), len) == n
  {
    var k := 1.0 / len;
    assert k * len == 1.0;
    assert n.x * k * len == n.x * (k * len);
    assert n.y * k * len == n.y * (k * len);
    assert n.z * k * len == n.z * (k * len);
  }

  /** The plane coordinates `(alpha, beta)` that `hit` computes for a point `p`. */
  function QuadCoords(quad: Quad, p: Vec3): Vec2 {
    var planarHit := Sub(p, quad.q);
    Vec2(Dot(quad.w, Cross(planarHit, quad.v)), Dot(quad.w, Cross(quad.u, planarHit)))
  }

  /** One component of `(a·u + b·v) × v`. */
  lemma LinearRight(u1: real, u2: real, v1: real, v2: real, a: real, b: real)
    ensures (u1 * a + v1 * b) * v2 - (u2 * a + v2 * b) * v1 == (u1 * v2 - u2 * v1) * a
  {
    assert (u1 * a + v1 * b) * v2 == u1 * a * v2 + v1 * b * v2;
    assert (u2 * a + v2 * b) * v1 == u2 * a * v1 + v2 * b * v1;
  }

  /** One component of `u × (a·u + b·v)`. */
  lemma LinearLeft(u1: real, u2: real, v1: real, v2: real, a: real, b: real)
    ensures u1 * (u2 * a + v2 * b) - u2 * (u1 * a + v1 * b) == (u1 * v2 - u2 * v1) * b
  {
    assert u1 * (u2 * a + v2 * b) == u1 * u2 * a + u1 * v2 * b;
    assert u2 * (u1 * a + v1 * b) == u2 * u1 * a + u2 * v1 * b;
  }

  function Combine(u: Vec3, v: Vec3, a: real, b: real): Vec3 {
    Add(Scale(u, a), Scale(v, b))
  }

  lemma CrossRightX(u: Vec3, v: Vec3, a: real, b: real)
    ensures Cross(Combine(u, v, a, b), v).x == Cross(u, v).x * a
  {
    var c := Combine(u, v, a, b);
    calc {
      Cross(c, v).x;
      c.y * v.z - c.z * v.y;
      (u.y * a + v.y * b) * v.z - (u.z * a + v.z * b) * v.y;
      { LinearRight(u.y, u.z, v.y, v.z, a, b); }
      Cross(u, v).x * a;
    }
  }

  lemma CrossRightY(u: Vec3, v: Vec3, a: real, b: real)
    ensures Cross(Combine(u, v, a, b), v).y == Cross(u, v).y * a
  {
    var c := Combine(u, v, a, b);
    calc {
      Cross(c, v).y;
      c.z * v.x - c.x * v.z;
      (u.z * a + v.z * b) * v.x - (u.x * a + v.x * b) * v.z;
      { LinearRight(u.z, u.x, v.z, v.x, a, b); }
      Cross(u, v).y * a;
    }
  }

  lemma CrossRightZ(u: Vec3, v: Vec3, a: real, b: real)
    ensures Cross(Combine(u, v, a, b), v).z == Cross(u, v).z * a
  {
    var c := Combine(u, v, a, b);
    calc {
      Cross(c, v).z;
      c.x * v.y - c.y * v.x;
      (u.x * a + v.x * b) * v.y - (u.y * a + v.y * b) * v.x;
      { LinearRight(u.x, u.y, v.x, v.y, a, b); }
      Cross(u, v).z * a;
    }
  }

  lemma CrossLeftX(u: Vec3, v: Vec3, a: real, b: real)
    ensures Cross(u, Combine(u, v, a, b)).x == Cross(u, v).x * b
  {
    var c := Combine(u, v, a, b);
    calc {
      Cross(u, c).x;
      u.y * c.z - u.z * c.y;
      u.y * (u.z * a + v.z * b) - u.z * (u.y * a + v.y * b);
      { LinearLeft(u.y, u.z, v.y, v.z, a, b); }
      Cross(u, v).x * b;
    }
  }

  lemma CrossLeftY(u: Vec3, v: Vec3, a: real, b: real)
    ensures Cross(u, Combine(u, v, a, b)).y == Cross(u, v).y * b
  {
    var c := Combine(u, v, a, b);
    calc {
      Cross(u, c).y;
      u.z * c.x - u.x * c.z;
      u.z * (u.x * a + v.x * b) - u.x * (u.z * a + v.z * b);
      { LinearLeft(u.z, u.x, v.z, v.x, a, b); }
      Cross(u, v).y * b;
    }
  }

  lemma CrossLeftZ(u: Vec3, v: Vec3, a: real, b: real)
    ensures Cross(u, Combine(u, v, a, b)).z == Cross(u, v).z * b
  {
    var c := Combine(u, v, a, b);
    calc {
      Cross(u, c).z;
      u.x * c.y - u.y * c.x;
      u.x * (u.y * a + v.y * b) - u.y * (u.x * a + v.x * b);
      { LinearLeft(u.x, u.y, v.x, v.y, a, b); }
      Cross(u, v).z * b;
    }
  }

  /** The cross products `hit` takes are linear in the plane coordinates. */
  lemma CrossScaled(u: Vec3, v: Vec3, a: real, b: real)
    ensures Cross(Combine(u, v, a, b), v) == Scale(Cross(u, v), a)
    ensures Cross(u, Combine(u, v, a, b)) == Scale(Cross(u, v), b)
  {
    CrossRightX(u, v, a, b);
    CrossRightY(u, v, a, b);
    CrossRightZ(u, v, a, b);
    CrossLeftX(u, v, a, b);
    CrossLeftY(u, v, a, b);
    CrossLeftZ(u, v, a, b);
  }

  lemma DotScaled(w: Vec3, n: Vec3, a: real)
    ensures Dot(w, Scale(n, a)) == a * Dot(w, n)
  {
    assert w.x * (n.x * a) == a * (w.x * n.x);
    assert w.y * (n.y * a) == a * (w.y * n.y);
    assert w.z * (n.z * a) == a * (w.z * n.z);
  }

  /**
   * The coordinates `hit` computes are the quad's own: the point `q + a·u + b·v`
   * has coordinates `(a, b)`, for any quad built by `NewQuad`.
   */
  lemma QuadCoordsOfPoint(quad: Quad, a: real, b: real)
    requires Dot(quad.w, Cross(quad.u, quad.v)) == 1.0
    ensures QuadCoords(quad, QuadPoint(quad.q, quad.u, quad.v, a, b)) == Vec2(a, b)
  {
    var p := QuadPoint(quad.q, quad.u, quad.v, a, b);
    var n := Cross(quad.u, quad.v);
    assert Sub(p, quad.q) == Combine(quad.u, quad.v, a, b);
    CrossScaled(quad.u, quad.v, a, b);
    DotScaled(quad.w, n, a);
    DotScaled(quad.w, n, b);
  }

  const UnitInterval: Interval := Interval(0.0, 1.0)

  /** `is_interior`: the coordinates, exactly when both lie in the closed `[0, 1]`. */
  function IsInterior(alpha: real, beta: real): (res: Option<Vec2>)
    ensures res.Some? <==> 0.0 <= alpha <= 1.0 && 0.0 <= beta <= 1.0
    ensures res.Some? ==> res.value == Vec2(alpha, beta)
  {
    if !Contains(UnitInterval, alpha) || !Contains(UnitInterval, beta) then None
    else Some(Vec2(alpha, beta))
  }

  /** Directions this close to parallel to the plane are treated as missing it. */
  const ParallelEpsilon: real := 0.00000001

  /** The ray parameter at which the ray meets the quad's plane. */
  function PlaneT(quad: Quad, r: Ray): real
    requires Dot(quad.normal, r.direction) != 0.0
  {
    (quad.d - Dot(quad.normal, r.origin)) / Dot(quad.normal, r.direction)
  }

  /** Off the parallel guard, the point at `PlaneT` satisfies `normal·p = d`. */
  lemma PlaneTOnPlane(quad: Quad, r: Ray)
    requires Dot(quad.normal, r.direction) != 0.0
    ensures Dot(quad.normal, At(r, PlaneT(quad, r))) == quad.d
  {
    var denom := Dot(quad.normal, r.direction);
    var t := PlaneT(quad, r);
    assert t * denom == quad.d - Dot(quad.normal, r.origin);
    assert Dot(quad.normal, At(r, t)) == Dot(quad.normal, r.origin) + t * denom;
  }

  /**
   * `hit`: `None` for a ray nearly parallel to the plane, for a plane crossing
   * outside `rayT` (closed), and for a crossing outside the parallelogram; otherwise
   * the record at the crossing, which lies on the plane, has plane coordinates in
   * `[0, 1]` and carries them as its `uv`.
   */
  function QuadHit(quad: Quad, r: Ray, rayT: Interval): (res: Option<HitRecord>)
    ensures Abs(Dot(quad.normal, r.direction)) < ParallelEpsilon ==> res.None?
    ensures res.Some? <==>
      Abs(Dot(quad.normal, r.direction)) >= ParallelEpsilon
      && Contains(rayT, PlaneT(quad, r))
      && IsInterior(QuadCoords(quad, At(r, PlaneT(quad, r))).x, QuadCoords(quad, At(r, PlaneT(quad, r))).y).Some?
    ensures res.Some? ==> res.value.t == PlaneT(quad, r) && Contains(rayT, res.value.t)
    ensures res.Some? ==> res.value.p == At(r, res.value.t) && Dot(quad.normal, res.value.p) == quad.d
    ensures res.Some? ==> res.value.uv == Some(QuadCoords(quad, res.value.p))
    ensures res.Some? ==> Contains(UnitInterval, res.value.uv.value.x) && Contains(UnitInterval, res.value.uv.value.y)
    ensures res.Some? ==> res.value.material == quad.material
    ensures res.Some? ==> res.value.normal == quad.normal || res.value.normal == Neg(quad.normal)
    ensures res.Some? ==> Dot(r.direction, res.value.normal) <= 0.0
  {
    var denom := Dot(quad.normal, r.direction);
    if Abs(denom) < ParallelEpsilon then None
    else
      var t := (quad.d - Dot(quad.normal, r.origin)) / denom;
      if !Contains(rayT, t) then None
      else
        var intersection := At(r, t);
        PlaneTOnPlane(quad, r);
        var coords := QuadCoords(quad, intersection);
        var interior := IsInterior(coords.x, coords.y);
        if interior.Some? then
          Some(NewHitRecord(intersection, t, quad.normal, r, quad.material, interior))
        else None
  }

  /**
   * A quad's hit answers to the interval it is asked about, and asking about a
   * shorter `[rayT.min, c]` gives the same hit cut at `c`: the crossing `t` does
   * not depend on the interval.
   */
  lemma QuadHitNarrowingConsistent(r: Ray, rayT: Interval)
    ensures RespectsInterval(QuadHit, r)
    ensures NarrowingConsistent(QuadHit, r, rayT)
  {
  }

  /** The interval `pdf_value` tests its ray against. */
  const PdfInterval: Interval := Interval(0.0001, MAX)

  /**
   * `pdf_value`: zero when the ray from `origin` along `direction` misses the
   * quad; otherwise `distance² / (cosine · area)`, which is positive.
   */
  function PdfValue(quad: Quad, origin: Vec3, direction: Vec3, length: Vec3 -> real): (res: real)
    requires IsLength(length)
    requires quad.area > 0.0
    ensures QuadHit(quad, Ray(origin, direction), PdfInterval).None? ==> res == 0.0
    ensures QuadHit(quad, Ray(origin, direction), PdfInterval).Some? ==> res > 0.0
  {
    var hit := QuadHit(quad, Ray(origin, direction), PdfInterval);
    if hit.Some? then
      var hr := hit.value;
      var distanceSquared := hr.t * hr.t * LengthSquared(direction);
      PdfPositive(quad, origin, direction, length, hr);
      var cosine := Abs(Dot(direction, hr.normal)) / length(direction);
      distanceSquared / (cosine * quad.area)
    else 0.0
  }

  lemma PositiveQuotient(a: real, b: real)
    requires a > 0.0 && b > 0.0
    ensures a / b > 0.0
  {
  }

  lemma PdfPositive(quad: Quad, origin: Vec3, direction: Vec3, length: Vec3 -> real, hr: HitRecord)
    requires IsLength(length) && quad.area > 0.0
    requires QuadHit(quad, Ray(origin, direction), PdfInterval) == Some(hr)
    ensures length(direction) > 0.0
    ensures Abs(Dot(direction, hr.normal)) / length(direction) > 0.0
    ensures hr.t * hr.t * LengthSquared(direction) > 0.0
    ensures hr.t * hr.t * LengthSquared(direction) / (Abs(Dot(direction, hr.normal)) / length(direction) * quad.area) > 0.0
  {
    assert direction != Zero by {
      assert Abs(Dot(quad.normal, direction)) >= ParallelEpsilon;
    }
    LengthPositive(length, direction);
    var len := length(direction);
    var dot := Abs(Dot(direction, hr.normal));
    assert dot == Abs(Dot(quad.normal, direction));
    PositiveQuotient(dot, len);
    var cosine := dot / len;
    ProductPositive(hr.t, hr.t);
    var tt := hr.t * hr.t;
    var ls := LengthSquared(direction);
    ProductPositive(tt, ls);
    ProductPositive(cosine, quad.area);
    PositiveQuotient(tt * ls, cosine * quad.area);
  }

  /**
   * `random_vector_to_surface`: the vector from `origin` to the quad's point at
   * two uniform draws, taken from `rng` at `next` and `next + 1` in that order.
   * For draws in `[0, 1]` the point is one the quad's interior test accepts.
   */
  function RandomVectorToSurface(quad: Quad, origin: Vec3, rng: nat -> real, next: nat): (res: (Vec3, nat))
    ensures res.1 == next + 2
    ensures Add(origin, res.0) == QuadPoint(quad.q, quad.u, quad.v, rng(next), rng(next + 1))
  {
    var p := Add(Add(quad.q, Scale(quad.u, rng(next))), Scale(quad.v, rng(next + 1)));
    (Sub(p, origin), next + 2)
  }

  lemma SampledPointIsInterior(quad: Quad, origin: Vec3, rng: nat -> real, next: nat)
    requires Dot(quad.w, Cross(quad.u, quad.v)) == 1.0
    requires Contains(UnitInterval, rng(next)) && Contains(UnitInterval, rng(next + 1))
    ensures var p := Add(origin, RandomVectorToSurface(quad, origin, rng, next).0);
      IsInterior(QuadCoords(quad, p).x, QuadCoords(quad, p).y) == Some(Vec2(rng(next), rng(next + 1)))
  {
    QuadCoordsOfPoint(quad, rng(next), rng(next + 1));
  }

  // ---------------------------------------------------------------------------
  // A flat box hides its quad from the BVH.

  /** The square `[0, 1]²` in the plane `y = 0`, facing down, with a given box. */
  function FloorSquare(aabb: Aabb.AABB): Quad {
    Quad(Zero, Vec3(1.0, 0.0, 0.0), Vec3(0.0, 0.0, 1.0), Vec3(0.0, -1.0, 0.0), Vec3(0.0, -1.0, 0.0), aabb, 0.0, 1.0, 0)
  }

  /** A ray straight down onto the square's centre, from one unit above it. */
  const DownRay: Ray := Ray(Vec3(0.5, 1.0, 0.5), Vec3(0.0, -1.0, 0.0))
  const CameraInterval: Interval := Interval(0.001, MAX)

  lemma ReciprocalOfOne(a: real)
    requires a == 1.0
    ensures 1.0 / a == 1.0
  {
  }

  /** A vector of squared length one has length one. */
  lemma UnitLength(length: Vec3 -> real, a: Vec3)
    requires IsLength(length)
    requires LengthSquared(a) == 1.0
    ensures length(a) == 1.0
  {
    LengthPositive(length, a);
    var l := length(a);
    if l > 1.0 {
      ProductPositive(l - 1.0, l + 1.0);
    } else if l < 1.0 {
      ProductPositive(1.0 - l, l + 1.0);
    }
  }

  /**
   * When `u × v` already has unit length, `Quad::new` keeps it as both the
   * normal and `w`, and the area is one.
   */
  lemma NewQuadOfUnitCross(q: Vec3, u: Vec3, v: Vec3, material: MaterialRef, length: Vec3 -> real)
    requires IsLength(length)
    requires LengthSquared(Cross(u, v)) == 1.0
    ensures Cross(u, v) != Zero
    ensures NewQuad(q, u, v, material, length)
      == Quad(q, u, v, Cross(u, v), Cross(u, v), PaddedAabb(q, u, v), Dot(Cross(u, v), q), 1.0, material)
  {
    var n := Cross(u, v);
    UnitLength(length, n);
    var quad := NewQuad(q, u, v, material, length);
    ReciprocalOfOne(length(n));
    assert quad.normal == Scale(n, 1.0);
    assert Dot(n, n) == 1.0;
    assert quad.w == DivScalar(n, 1.0);
  }

  /** `Quad::new` on the unit floor square gives `FloorSquare` with the padded box. */
  lemma FloorSquareFields(length: Vec3 -> real)
    requires IsLength(length)
    ensures NewQuad(Zero, Vec3(1.0, 0.0, 0.0), Vec3(0.0, 0.0, 1.0), 0, length)
      == FloorSquare(PaddedAabb(Zero, Vec3(1.0, 0.0, 0.0), Vec3(0.0, 0.0, 1.0)))
  {
    var u, v := Vec3(1.0, 0.0, 0.0), Vec3(0.0, 0.0, 1.0);
    var down := Vec3(0.0, -1.0, 0.0);
    assert Cross(u, v) == down;
    NewQuadOfUnitCross(Zero, u, v, 0, length);
    DotZero(down);
  }

  lemma DotZero(a: Vec3)
    ensures Dot(a, Zero) == 0.0
  {
  }

  lemma FloorSquareHit(aabb: Aabb.AABB)
    ensures QuadHit(FloorSquare(aabb), DownRay, CameraInterval).Some?
    ensures QuadHit(FloorSquare(aabb), DownRay, CameraInterval).value.t == 1.0
  {
    var quad := FloorSquare(aabb);
    assert PlaneT(quad, DownRay) == 1.0;
    assert At(DownRay, 1.0) == Vec3(0.5, 0.0, 0.5);
    assert QuadCoords(quad, Vec3(0.5, 0.0, 0.5)) == Vec2(0.5, 0.5);
  }

  /** `build_aabb` of the floor square: flat in `y`. */
  lemma FloorSquareFlatBox()
    ensures BuildAabb(Zero, Vec3(1.0, 0.0, 0.0), Vec3(0.0, 0.0, 1.0))
      == Aabb.AABB(Interval(0.0, 1.0), Interval(0.0, 0.0), Interval(0.0, 1.0))
  {
  }

  /** The slab test against the flat box: the `y` slab narrows the window to `[1, 1]`. */
  lemma FlatBoxRejectsDownRay()
    ensures !Aabb.SlabHit(Aabb.AABB(Interval(0.0, 1.0), Interval(0.0, 0.0), Interval(0.0, 1.0)), DownRay, CameraInterval)
  {
    var box := Aabb.AABB(Interval(0.0, 1.0), Interval(0.0, 0.0), Interval(0.0, 1.0));
    assert Aabb.SlabTimes(box, DownRay, 0) == (Aabb.NegInf, Aabb.PosInf);
    assert Aabb.Window(box, DownRay, CameraInterval, 1) == (Aabb.Fin(0.001), Aabb.Fin(MAX));
    assert Aabb.SlabTimes(box, DownRay, 1) == (Aabb.Fin(1.0), Aabb.Fin(1.0));
    assert Aabb.Window(box, DownRay, CameraInterval, 2) == (Aabb.Fin(1.0), Aabb.Fin(1.0));
  }

  /**
   * As written: the square's box is flat in `y`, so the slab test rejects the ray
   * and a BVH node over the square alone (as `build` makes for one object) misses,
   * although the square is hit at `t = 1`.
   */
  lemma FlatBoxHidesQuad()
    ensures var quad := FloorSquare(BuildAabb(Zero, Vec3(1.0, 0.0, 0.0), Vec3(0.0, 0.0, 1.0)));
      && QuadHit(quad, DownRay, CameraInterval).Some?
      && !Aabb.SlabHit(quad.aabb, DownRay, CameraInterval)
      && Bvh.Hit(Bvh.BVH(Bvh.Leaf(quad), Bvh.Leaf(quad), quad.aabb), QuadHit, DownRay, CameraInterval).None?
  {
    FloorSquareFlatBox();
    var box := Aabb.AABB(Interval(0.0, 1.0), Interval(0.0, 0.0), Interval(0.0, 1.0));
    FlatBoxRejectsDownRay();
    FloorSquareHit(box);
    Bvh.SingleLeafHit(FloorSquare(box), box, QuadHit, DownRay, CameraInterval);
  }

  /** `PaddedAabb` of the floor square: `y` widened to `PadDelta` around zero. */
  lemma FloorSquarePaddedBox()
    ensures PaddedAabb(Zero, Vec3(1.0, 0.0, 0.0), Vec3(0.0, 0.0, 1.0))
      == Aabb.AABB(Interval(0.0, 1.0), Interval(-0.00005, 0.00005), Interval(0.0, 1.0))
  {
    FloorSquareFlatBox();
  }

  /** The slab test against the padded box: the ray is strictly inside it at `t = 1`. */
  lemma PaddedBoxAcceptsDownRay()
    ensures Aabb.SlabHit(Aabb.AABB(Interval(0.0, 1.0), Interval(-0.00005, 0.00005), Interval(0.0, 1.0)), DownRay, CameraInterval)
  {
    var box := Aabb.AABB(Interval(0.0, 1.0), Interval(-0.00005, 0.00005), Interval(0.0, 1.0));
    assert At(DownRay, 1.0) == Vec3(0.5, 0.0, 0.5);
    Aabb.SlabHitSound(box, DownRay, CameraInterval, 1.0);
  }

  /**
   * Corrected: with the padded box the same ray passes the slab test, and the
   * node over the square returns the square's hit.
   */
  lemma PaddedBoxShowsQuad()
    ensures var quad := FloorSquare(PaddedAabb(Zero, Vec3(1.0, 0.0, 0.0), Vec3(0.0, 0.0, 1.0)));
      && Aabb.SlabHit(quad.aabb, DownRay, CameraInterval)
      && Bvh.Hit(Bvh.BVH(Bvh.Leaf(quad), Bvh.Leaf(quad), quad.aabb), QuadHit, DownRay, CameraInterval)
         == QuadHit(quad, DownRay, CameraInterval)
      && QuadHit(quad, DownRay, CameraInterval).Some?
  {
    FloorSquarePaddedBox();
    var box := Aabb.AABB(Interval(0.0, 1.0), Interval(-0.00005, 0.00005), Interval(0.0, 1.0));
    PaddedBoxAcceptsDownRay();
    FloorSquareHit(box);
    Bvh.SingleLeafHit(FloorSquare(box), box, QuadHit, DownRay, CameraInterval);
  }
}
