/**
 * Hit records and the list of hittables (src/hittable.rs). Scene objects are
 * `dyn Hittable` in the renderer; here an object is any value of a type
 * parameter `O`, and its `hit` and `bounding_box` are passed in as functions.
 */
module Hittable {
  import opened Wrappers
  import opened Vectors
  import opened Intervals
  import Aabb

  /** A material, as a handle into the scene's materials. */
  type MaterialRef = nat

  /**
   * `HitRecord`: the intersection point, the normal facing the incoming ray, the
   * ray parameter, the front-face flag, the material, and the surface
   * coordinates when the producer supplies them.
   */
  datatype HitRecord = HitRecord(
    p: Vec3,
    normal: Vec3,
    t: real,
    frontFace: bool,
    material: MaterialRef,
    uv: Option<Vec2>)

  /**
   * `set_face_normal`: the record faces the ray exactly when the ray runs against
   * the outward normal, and the stored normal always opposes the ray.
   */
  function SetFaceNormal(rec: HitRecord, r: Ray, outwardNormal: Vec3): (res: HitRecord)
    ensures res.frontFace <==> Dot(r.direction, outwardNormal) < 0.0
    ensures res.normal == if res.frontFace then outwardNormal else Neg(outwardNormal)
    ensures Dot(r.direction, res.normal) <= 0.0
    ensures res.p == rec.p && res.t == rec.t && res.material == rec.material && res.uv == rec.uv
  {
    var frontFace := Dot(r.direction, outwardNormal) < 0.0;
    rec.(frontFace := frontFace, normal := if frontFace then outwardNormal else Neg(outwardNormal))
  }

  /**
   * `HitRecord::new`: stores `p`, `t`, the material and the surface coordinates as
   * given and orients the normal against the ray.
   */
  function NewHitRecord(p: Vec3, t: real, outwardNormal: Vec3, r: Ray, material: MaterialRef, uv: Option<Vec2>): (rec: HitRecord)
    ensures rec.p == p && rec.t == t && rec.material == material && rec.uv == uv
    ensures rec.frontFace <==> Dot(r.direction, outwardNormal) < 0.0
    ensures rec.frontFace ==> rec.normal == outwardNormal
    ensures !rec.frontFace ==> rec.normal == Neg(outwardNormal)
    ensures Dot(r.direction, rec.normal) <= 0.0
  {
    var blank := HitRecord(p, Vec3(1.0, 1.0, 1.0), t, false, material, uv);
    SetFaceNormal(blank, r, outwardNormal)
  }

  // ---------------------------------------------------------------------------
  // What the scene's objects are assumed to do, and the closest hit among a set.

  /** Every reported hit lies in the interval it was asked about (closed, as `contains`). */
  ghost predicate RespectsInterval<O(!new)>(hitFn: (O, Ray, Interval) -> Option<HitRecord>, r: Ray) {
    forall o, iv :: hitFn(o, r, iv).Some? ==> Contains(iv, hitFn(o, r, iv).value.t)
  }

  /** `h` cut down to the parameters up to `c`. */
  function Clip(h: Option<HitRecord>, c: real): Option<HitRecord> {
    if h.Some? && h.value.t <= c then h else None
  }

  /**
   * Asking about `[rayT.min, c]` gives what asking about `rayT` gives, cut at `c`:
   * an object has one nearest hit per ray, whatever the upper bound.
   */
  ghost predicate NarrowingConsistent<O(!new)>(hitFn: (O, Ray, Interval) -> Option<HitRecord>, r: Ray, rayT: Interval) {
    forall o, c :: rayT.min <= c <= rayT.max ==>
      hitFn(o, r, Interval(rayT.min, c)) == Clip(hitFn(o, r, rayT), c)
  }

  ghost predicate NoHit<O>(objs: set<O>, hitFn: (O, Ray, Interval) -> Option<HitRecord>, r: Ray, rayT: Interval) {
    forall o :: o in objs ==> hitFn(o, r, rayT).None?
  }

  /** `rec` is one object's own hit for `rayT`, and no object of the set is hit earlier. */
  ghost predicate IsClosestHit<O>(objs: set<O>, hitFn: (O, Ray, Interval) -> Option<HitRecord>, r: Ray, rayT: Interval, rec: HitRecord) {
    && (exists o :: o in objs && hitFn(o, r, rayT) == Some(rec))
    && (forall o :: o in objs && hitFn(o, r, rayT).Some? ==> rec.t <= hitFn(o, r, rayT).value.t)
  }

  function Elements<O>(s: seq<O>): set<O> {
    set o | o in s
  }

  // ---------------------------------------------------------------------------
  // HittableList.

  /** `HittableList`: the objects and the box enclosing all of them. */
  datatype HittableList<O> = HittableList(objects: seq<O>, aabb: Aabb.AABB)

  /** The box `HittableList::new` has folded after taking in `objects`, in order. */
  function BoxOfAll<O>(boxOf: O -> Aabb.AABB, objects: seq<O>): Aabb.AABB
    decreases |objects|
  {
    if objects == [] then Aabb.Default()
    else Aabb.ToContain(BoxOfAll(boxOf, objects[..|objects| - 1]), boxOf(objects[|objects| - 1]))
  }

  lemma {:induction false} BoxOfAllEncloses<O>(boxOf: O -> Aabb.AABB, objects: seq<O>, i: nat)
    requires i < |objects|
    ensures Aabb.EnclosesBox(BoxOfAll(boxOf, objects), boxOf(objects[i]))
    decreases |objects|
  {
    var n := |objects| - 1;
    if i < n {
      BoxOfAllEncloses(boxOf, objects[..n], i);
      Aabb.EnclosesBoxTransitive(BoxOfAll(boxOf, objects), BoxOfAll(boxOf, objects[..n]), boxOf(objects[i]));
    }
  }

  /**
   * `HittableList::new`: folds `to_contain` over the members' boxes starting from
   * the empty box, so the list's box encloses every member's box and an empty
   * list gets the empty box.
   */
  method NewHittableList<O>(objects: seq<O>, boxOf: O -> Aabb.AABB) returns (list: HittableList<O>)
    ensures list.objects == objects
    ensures list.aabb == BoxOfAll(boxOf, objects)
    ensures forall i :: 0 <= i < |objects| ==> Aabb.EnclosesBox(list.aabb, boxOf(objects[i]))
    ensures objects == [] ==> list.aabb == Aabb.Default()
  {
    var bb := Aabb.Default();
    for k := 0 to |objects|
      invariant bb == BoxOfAll(boxOf, objects[..k])
    {
      bb := Aabb.ToContain(bb, boxOf(objects[k]));
      assert objects[..k + 1][..k] == objects[..k];
    }
    assert objects[..|objects|] == objects;
    forall i | 0 <= i < |objects|
      ensures Aabb.EnclosesBox(bb, boxOf(objects[i]))
    {
      BoxOfAllEncloses(boxOf, objects, i);
    }
    list := HittableList(objects, bb);
  }

  /**
   * The state `(rec, closest_so_far)` of `HittableList::hit` after the loop has
   * visited `objects`: each object is asked about `[rayT.min, closest_so_far]`,
   * and a hit becomes the record and the new bound.
   */
  function Scan<O>(objects: seq<O>, hitFn: (O, Ray, Interval) -> Option<HitRecord>, r: Ray, rayT: Interval): (res: (Option<HitRecord>, real))
    ensures res.0.None? ==> res.1 == rayT.max
    ensures res.0.Some? ==> res.1 == res.0.value.t
    ensures res.0.None? <==> forall i :: 0 <= i < |objects| ==> hitFn(objects[i], r, rayT).None?
    decreases |objects|
  {
    if objects == [] then (None, rayT.max)
    else
      var prefix := objects[..|objects| - 1];
      var (rec, closest) := Scan(prefix, hitFn, r, rayT);
      match hitFn(objects[|objects| - 1], r, Interval(rayT.min, closest))
      case Some(h) => (Some(h), h.t)
      case None => (rec, closest)
  }

  /** The records the loop finds, in the order it finds them. */
  function Found<O>(objects: seq<O>, hitFn: (O, Ray, Interval) -> Option<HitRecord>, r: Ray, rayT: Interval): seq<HitRecord>
    decreases |objects|
  {
    if objects == [] then []
    else
      var prefix := objects[..|objects| - 1];
      var closest := Scan(prefix, hitFn, r, rayT).1;
      match hitFn(objects[|objects| - 1], r, Interval(rayT.min, closest))
      case Some(h) => Found(prefix, hitFn, r, rayT) + [h]
      case None => Found(prefix, hitFn, r, rayT)
  }

  /**
   * `HittableList::hit`: the closest-so-far loop. It returns `None` exactly when
   * no object reports a hit for the original `rayT`.
   */
  method ListHit<O>(objects: seq<O>, hitFn: (O, Ray, Interval) -> Option<HitRecord>, r: Ray, rayT: Interval)
    returns (rec: Option<HitRecord>)
    ensures rec == Scan(objects, hitFn, r, rayT).0
    ensures rec.None? <==> forall i :: 0 <= i < |objects| ==> hitFn(objects[i], r, rayT).None?
  {
    rec := None;
    var closestSoFar := rayT.max;
    for k := 0 to |objects|
      invariant (rec, closestSoFar) == Scan(objects[..k], hitFn, r, rayT)
      invariant rec.None? ==> closestSoFar == rayT.max
      invariant rec.None? <==> forall i :: 0 <= i < k ==> hitFn(objects[i], r, rayT).None?
    {
      assert objects[..k + 1][..k] == objects[..k];
      var hitRecord := hitFn(objects[k], r, Interval(rayT.min, closestSoFar));
      if hitRecord.Some? {
        closestSoFar := hitRecord.value.t;
        rec := hitRecord;
      }
    }
    assert objects[..|objects|] == objects;
  }

  /** `closest_so_far` never increases from one object to the next. */
  lemma ScanClosestNeverIncreases<O(!new)>(objects: seq<O>, hitFn: (O, Ray, Interval) -> Option<HitRecord>, r: Ray, rayT: Interval)
    requires RespectsInterval(hitFn, r)
    requires objects != []
    ensures Scan(objects, hitFn, r, rayT).1 <= Scan(objects[..|objects| - 1], hitFn, r, rayT).1
  {
  }

  /**
   * The record returned is the last one found, and the hits are found in
   * non-increasing order of `t`, so it is no later than any earlier find.
   */
  lemma {:induction false} FoundNonIncreasing<O(!new)>(objects: seq<O>, hitFn: (O, Ray, Interval) -> Option<HitRecord>, r: Ray, rayT: Interval)
    requires RespectsInterval(hitFn, r)
    ensures var found := Found(objects, hitFn, r, rayT);
      && Scan(objects, hitFn, r, rayT).0 == (if found == [] then None else Some(found[|found| - 1]))
      && (found != [] ==> Scan(objects, hitFn, r, rayT).1 == found[|found| - 1].t)
      && (forall i, j :: 0 <= i <= j < |found| ==> found[j].t <= found[i].t)
    decreases |objects|
  {
    if objects != [] {
      var prefix := objects[..|objects| - 1];
      FoundNonIncreasing(prefix, hitFn, r, rayT);
      var closest := Scan(prefix, hitFn, r, rayT).1;
      var old_found := Found(prefix, hitFn, r, rayT);
      match hitFn(objects[|objects| - 1], r, Interval(rayT.min, closest))
      case Some(h) =>
        assert Contains(Interval(rayT.min, closest), h.t);
        if old_found == [] {
        } else {
          assert closest == old_found[|old_found| - 1].t;
        }
      case None =>
    }
  }

  /**
   * For narrowing-consistent objects the list loop is the closest-hit search:
   * it returns `None` exactly when no object is hit, and otherwise an object's
   * own hit that no other object beats. The bound it ends with is that hit's `t`.
   */
  lemma {:induction false} ScanFindsClosest<O(!new)>(objects: seq<O>, hitFn: (O, Ray, Interval) -> Option<HitRecord>, r: Ray, rayT: Interval)
    requires RespectsInterval(hitFn, r)
    requires NarrowingConsistent(hitFn, r, rayT)
    ensures var (rec, closest) := Scan(objects, hitFn, r, rayT);
      && (rec.None? <==> NoHit(Elements(objects), hitFn, r, rayT))
      && (rec.None? ==> closest == rayT.max)
      && (rec.Some? ==> closest == rec.value.t && IsClosestHit(Elements(objects), hitFn, r, rayT, rec.value))
    decreases |objects|
  {
    if objects != [] {
      var prefix := objects[..|objects| - 1];
      var last := objects[|objects| - 1];
      assert Elements(objects) == Elements(prefix) + {last} by {
        assert objects == prefix + [last];
      }
      ScanFindsClosest(prefix, hitFn, r, rayT);
      var (rec, closest) := Scan(prefix, hitFn, r, rayT);
      if rec.None? {
        assert Interval(rayT.min, closest) == rayT;
      } else {
        var o :| o in Elements(prefix) && hitFn(o, r, rayT) == Some(rec.value);
        assert Contains(rayT, closest);
        assert hitFn(last, r, Interval(rayT.min, closest)) == Clip(hitFn(last, r, rayT), closest);
      }
    }
  }
}
