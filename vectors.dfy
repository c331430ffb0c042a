/**
 * Three-component vectors (`glam::Vec3`), two-component vectors (`Vec2`) and rays,
 * over the reals. `f32` rounding is not modelled; `f32::MAX` and `f32::MIN` are
 * kept as the constants `MAX` and `MIN`.
 */
module Vectors {
  /** `f32::MAX`, written out exactly. */
  const MAX: real := 340282346638528859811704183484516925440.0
  /** `f32::MIN`, which is `-f32::MAX`. */
  const MIN: real := -MAX

  /** `f32::min` and `f32::max` on non-NaN operands. */
  function Min(a: real, b: real): real { if a <= b then a else b }
  function Max(a: real, b: real): real { if a <= b then b else a }
  function Abs(a: real): real { if a < 0.0 then -a else a }

  /** A finite `f32`. */
  predicate Finite(a: real) { MIN <= a <= MAX }

  datatype Vec3 = Vec3(x: real, y: real, z: real)
  datatype Vec2 = Vec2(x: real, y: real)

  function Add(a: Vec3, b: Vec3): Vec3 { Vec3(a.x + b.x, a.y + b.y, a.z + b.z) }
  function Sub(a: Vec3, b: Vec3): Vec3 { Vec3(a.x - b.x, a.y - b.y, a.z - b.z) }
  function Scale(a: Vec3, s: real): Vec3 { Vec3(a.x * s, a.y * s, a.z * s) }
  function Neg(a: Vec3): Vec3 { Vec3(-a.x, -a.y, -a.z) }
  function Dot(a: Vec3, b: Vec3): real { a.x * b.x + a.y * b.y + a.z * b.z }
  function Cross(a: Vec3, b: Vec3): Vec3 {
    Vec3(a.y * b.z - a.z * b.y, a.z * b.x - a.x * b.z, a.x * b.y - a.y * b.x)
  }
  function LengthSquared(a: Vec3): real { Dot(a, a) }

  /** `v[i]` for the axis index `i` (0 = x, 1 = y, 2 = z). */
  function Component(v: Vec3, i: nat): real
    requires i < 3
  {
    if i == 0 then v.x else if i == 1 then v.y else v.z
  }

  predicate FinitePoint(p: Vec3) { Finite(p.x) && Finite(p.y) && Finite(p.z) }

  /** A ray: origin plus unnormalised direction. */
  datatype Ray = Ray(origin: Vec3, direction: Vec3)

  /** `Ray::at`: the point at parameter `t`. */
  function At(r: Ray, t: real): Vec3 { Add(r.origin, Scale(r.direction, t)) }
}
