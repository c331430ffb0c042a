/**
 * A triangle mesh as a scene object (src/mesh.rs). The triangles' own ray test
 * (Möller–Trumbore in src/triangle.rs) is numerics and is passed in as the
 * function `rayHit`; what is modelled is the mesh's search over its triangles.
 */
module Meshes {
  import opened Wrappers
  import opened Vectors
  import opened Intervals
  import opened Hittable

  /** `TriangleRayIntersection`: the ray parameter, the triangle's normal and the point. */
  datatype Intersection = Intersection(t: real, normal: Vec3, p: Vec3)

  /** `Mesh`: the triangles loaded into its options, and its material. */
  datatype Mesh<T> = Mesh(triangles: seq<T>, material: MaterialRef)

  /** The index of the first triangle, in list order, that reports an intersection. */
  function FirstMatch<T>(triangles: seq<T>, rayHit: (T, Ray, Interval) -> Option<Intersection>, r: Ray, rayT: Interval): (res: Option<nat>)
    ensures res.Some? ==> res.value < |triangles| && rayHit(triangles[res.value], r, rayT).Some?
    ensures res.Some? ==> forall j :: 0 <= j < res.value ==> rayHit(triangles[j], r, rayT).None?
    ensures res.None? <==> forall j :: 0 <= j < |triangles| ==> rayHit(triangles[j], r, rayT).None?
    decreases |triangles|
  {
    if triangles == [] then None
    else if rayHit(triangles[0], r, rayT).Some? then Some(0)
    else
      match FirstMatch(triangles[1..], rayHit, r, rayT)
      case None => None
      case Some(i) => Some(i + 1)
  }

  /** The record made from triangle `i`'s intersection: its point, `t` and normal, and the mesh's material. */
  function RecordAt<T>(mesh: Mesh<T>, rayHit: (T, Ray, Interval) -> Option<Intersection>, r: Ray, rayT: Interval, i: nat): HitRecord
    requires i < |mesh.triangles| && rayHit(mesh.triangles[i], r, rayT).Some?
  {
    var x := rayHit(mesh.triangles[i], r, rayT).value;
    NewHitRecord(x.p, x.t, x.normal, r, mesh.material, None)
  }

  /**
   * What `hit` answers: the record of the first triangle that reports an
   * intersection, or `None` when none does.
   */
  function FirstHit<T>(mesh: Mesh<T>, rayHit: (T, Ray, Interval) -> Option<Intersection>, r: Ray, rayT: Interval): (res: Option<HitRecord>)
    ensures res.None? <==> forall j :: 0 <= j < |mesh.triangles| ==> rayHit(mesh.triangles[j], r, rayT).None?
    ensures res.Some? ==> exists i ::
      && 0 <= i < |mesh.triangles|
      && rayHit(mesh.triangles[i], r, rayT).Some?
      && (forall j :: 0 <= j < i ==> rayHit(mesh.triangles[j], r, rayT).None?)
      && res.value == RecordAt(mesh, rayHit, r, rayT, i)
  {
    match FirstMatch(mesh.triangles, rayHit, r, rayT)
    case None => None
    case Some(i) => Some(RecordAt(mesh, rayHit, r, rayT, i))
  }

  /**
   * `Mesh::hit`: the loop over the triangles, returning as soon as one reports an
   * intersection.
   */
  method Hit<T>(mesh: Mesh<T>, rayHit: (T, Ray, Interval) -> Option<Intersection>, r: Ray, rayT: Interval)
    returns (rec: Option<HitRecord>)
    ensures rec == FirstHit(mesh, rayHit, r, rayT)
  {
    for i := 0 to |mesh.triangles|
      invariant forall j :: 0 <= j < i ==> rayHit(mesh.triangles[j], r, rayT).None?
    {
      var intersection := rayHit(mesh.triangles[i], r, rayT);
      if intersection.Some? {
        assert FirstMatch(mesh.triangles, rayHit, r, rayT) == Some(i);
        return Some(NewHitRecord(intersection.value.p, intersection.value.t, intersection.value.normal, r, mesh.material, None));
      }
    }
    return None;
  }

  /**
   * No triangle after the first match is consulted: a mesh that agrees on the
   * triangles up to and including it gets the same answer, whatever follows.
   */
  lemma {:induction false} FirstMatchIgnoresLater<T>(triangles: seq<T>, other: seq<T>, rayHit: (T, Ray, Interval) -> Option<Intersection>, r: Ray, rayT: Interval)
    requires FirstMatch(triangles, rayHit, r, rayT).Some?
    requires FirstMatch(triangles, rayHit, r, rayT).value < |other|
    requires other[..FirstMatch(triangles, rayHit, r, rayT).value + 1] == triangles[..FirstMatch(triangles, rayHit, r, rayT).value + 1]
    ensures FirstMatch(other, rayHit, r, rayT) == FirstMatch(triangles, rayHit, r, rayT)
    decreases |triangles|
  {
    var i := FirstMatch(triangles, rayHit, r, rayT).value;
    assert other[0] == other[..i + 1][0] == triangles[..i + 1][0] == triangles[0];
    if i > 0 {
      assert FirstMatch(triangles[1..], rayHit, r, rayT) == Some(i - 1);
      assert other[1..][..i] == other[..i + 1][1..];
      assert triangles[1..][..i] == triangles[..i + 1][1..];
      FirstMatchIgnoresLater(triangles[1..], other[1..], rayHit, r, rayT);
    }
  }

  // ---------------------------------------------------------------------------
  // First match is not closest.

  /** A triangle's intersection turned into a record for the mesh, as the list loop would take it. */
  function TriangleRecord<T>(rayHit: (T, Ray, Interval) -> Option<Intersection>, material: MaterialRef): (T, Ray, Interval) -> Option<HitRecord> {
    (tri: T, r: Ray, iv: Interval) =>
      match rayHit(tri, r, iv)
      case None => None
      case Some(x) => Some(NewHitRecord(x.p, x.t, x.normal, r, material, None))
  }

  /**
   * `hit` corrected: the closest-so-far search of `HittableList::hit` over the
   * triangles instead of the first match.
   */
  function ClosestHit<T>(mesh: Mesh<T>, rayHit: (T, Ray, Interval) -> Option<Intersection>, r: Ray, rayT: Interval): (res: Option<HitRecord>)
    ensures res.None? <==> forall j :: 0 <= j < |mesh.triangles| ==> rayHit(mesh.triangles[j], r, rayT).None?
  {
    var f := TriangleRecord(rayHit, mesh.material);
    assert forall j :: 0 <= j < |mesh.triangles| ==>
      (f(mesh.triangles[j], r, rayT).None? <==> rayHit(mesh.triangles[j], r, rayT).None?);
    Scan(mesh.triangles, f, r, rayT).0
  }

  /**
   * For triangles whose test answers to its interval, the corrected search
   * misses exactly when every triangle misses and otherwise returns a
   * triangle's own record that no triangle beats.
   */
  lemma ClosestHitIsClosest<T(!new)>(mesh: Mesh<T>, rayHit: (T, Ray, Interval) -> Option<Intersection>, r: Ray, rayT: Interval)
    requires RespectsInterval(TriangleRecord(rayHit, mesh.material), r)
    requires NarrowingConsistent(TriangleRecord(rayHit, mesh.material), r, rayT)
    ensures ClosestHit(mesh, rayHit, r, rayT).None? <==> NoHit(Elements(mesh.triangles), TriangleRecord(rayHit, mesh.material), r, rayT)
    ensures ClosestHit(mesh, rayHit, r, rayT).Some? ==>
      IsClosestHit(Elements(mesh.triangles), TriangleRecord(rayHit, mesh.material), r, rayT, ClosestHit(mesh, rayHit, r, rayT).value)
    ensures ClosestHit(mesh, rayHit, r, rayT).Some? ==>
      ClosestHit(mesh, rayHit, r, rayT).value.material == mesh.material && ClosestHit(mesh, rayHit, r, rayT).value.uv.None?
  {
    ScanFindsClosest(mesh.triangles, TriangleRecord(rayHit, mesh.material), r, rayT);
  }

  /** A stand-in triangle test: "triangle" `s` is crossed at `t = s`, when that lies in the interval. */
  function CrossedAt(s: real, r: Ray, iv: Interval): Option<Intersection> {
    if Contains(iv, s) then Some(Intersection(s, Vec3(0.0, 0.0, 1.0), At(r, s))) else None
  }

  /**
   * As written: with a triangle crossed at `t = 5` listed before one crossed at
   * `t = 2`, `hit` answers `t = 5` although the second triangle is nearer; the
   * corrected search answers `t = 2`.
   */
  lemma FirstMatchIsNotClosest(r: Ray)
    ensures var mesh := Mesh([5.0, 2.0], 0);
      && FirstHit(mesh, CrossedAt, r, Interval(0.001, MAX)).Some?
      && FirstHit(mesh, CrossedAt, r, Interval(0.001, MAX)).value.t == 5.0
      && CrossedAt(2.0, r, Interval(0.001, MAX)).Some?
      && ClosestHit(mesh, CrossedAt, r, Interval(0.001, MAX)).Some?
      && ClosestHit(mesh, CrossedAt, r, Interval(0.001, MAX)).value.t == 2.0
  {
    var mesh := Mesh([5.0, 2.0], 0);
    var rayT := Interval(0.001, MAX);
    assert FirstMatch(mesh.triangles, CrossedAt, r, rayT) == Some(0);
    var f := TriangleRecord(CrossedAt, 0);
    assert [5.0, 2.0][..1] == [5.0];
    assert [5.0][..0] == [];
    assert Scan([5.0], f, r, rayT).1 == 5.0;
    assert f(2.0, r, Interval(0.001, 5.0)).Some?;
  }

  /**
   * As written, a mesh is not narrowing-consistent: on `[0.001, 10]` the mesh of
   * triangles crossed at `t = 5` and then `t = 2` answers `t = 5`, but on
   * `[0.001, 3]` it answers `t = 2` instead of missing.
   */
  lemma FirstHitBreaksNarrowing(r: Ray)
    ensures var mesh := Mesh([5.0, 2.0], 0);
      && FirstHit(mesh, CrossedAt, r, Interval(0.001, 10.0)).Some?
      && FirstHit(mesh, CrossedAt, r, Interval(0.001, 10.0)).value.t == 5.0
      && FirstHit(mesh, CrossedAt, r, Interval(0.001, 3.0)).Some?
      && FirstHit(mesh, CrossedAt, r, Interval(0.001, 3.0)).value.t == 2.0
    ensures !NarrowingConsistent((m: Mesh<real>, ray: Ray, iv: Interval) => FirstHit(m, CrossedAt, ray, iv), r, Interval(0.001, 10.0))
  {
    var mesh := Mesh([5.0, 2.0], 0);
    var hitFn := (m: Mesh<real>, ray: Ray, iv: Interval) => FirstHit(m, CrossedAt, ray, iv);
    assert FirstMatch(mesh.triangles, CrossedAt, r, Interval(0.001, 10.0)) == Some(0);
    assert FirstMatch(mesh.triangles[1..], CrossedAt, r, Interval(0.001, 3.0)) == Some(0);
    assert FirstMatch(mesh.triangles, CrossedAt, r, Interval(0.001, 3.0)) == Some(1);
    assert hitFn(mesh, r, Interval(0.001, 3.0)) != Clip(hitFn(mesh, r, Interval(0.001, 10.0)), 3.0);
  }
}
