/**
 * The sampling densities of src/pdf.rs: the cosine density around a basis'
 * `w` axis, the density towards a scene object seen from a point, and the
 * equal-weight mixture of two densities. The renderer's `dyn PDF` becomes the
 * datatype `Pdf`; normalisation, the trigonometric cosine draw and the
 * objects' own `pdf_value` and `random_vector_to_surface` are function
 * parameters, and the random draws come from a stream `rng` read at a cursor.
 */
module Pdfs {
  import opened Wrappers
  import opened Vectors
  import opened Intervals
  import Quads

  /** `std::f32::consts::PI`, the `f32` nearest to pi. */
  const Pi: real := 3.1415927410125732421875

  /** `ONB`: the basis matrix, by its columns `u`, `v` and `w`. */
  datatype Onb = Onb(u: Vec3, v: Vec3, w: Vec3)

  /** `ONB::transform`: the basis matrix times `a`, i.e. `a.x u + a.y v + a.z w`. */
  function Transform(uvw: Onb, a: Vec3): Vec3 {
    Add(Add(Scale(uvw.u, a.x), Scale(uvw.v, a.y)), Scale(uvw.w, a.z))
  }

  /**
   * A density over directions: `CosinePDF` with its basis, `HittablePDF` with
   * its origin and target object, `MixturePDF` of two densities.
   */
  datatype Pdf<O> =
    | Cosine(uvw: Onb)
    | Towards(origin: Vec3, target: O)
    | Mixture(a: Pdf<O>, b: Pdf<O>)

  /**
   * `CosinePDF::value`: the cosine between the normalised direction and `w`,
   * over pi, clamped at zero. It is never negative, it is zero exactly when the
   * direction does not point into `w`'s half-space, and elsewhere it is the
   * cosine over pi.
   */
  function CosineValue(uvw: Onb, normalize: Vec3 -> Vec3, direction: Vec3): (res: real)
    ensures res >= 0.0
    ensures res == 0.0 <==> Dot(normalize(direction), uvw.w) <= 0.0
    ensures res > 0.0 ==> res * Pi == Dot(normalize(direction), uvw.w)
  {
    var cosineTheta := Dot(normalize(direction), uvw.w);
    Max(cosineTheta / Pi, 0.0)
  }

  /**
   * `value`, for each kind of density: the object density asks its target's
   * `pdf_value` from the stored origin, and the mixture weighs both components
   * by one half.
   */
  function Value<O>(pdf: Pdf<O>, normalize: Vec3 -> Vec3, pdfValue: (O, Vec3, Vec3) -> real, direction: Vec3): (res: real)
    ensures pdf.Cosine? ==> res >= 0.0
    ensures pdf.Towards? ==> res == pdfValue(pdf.target, pdf.origin, direction)
    decreases pdf
  {
    match pdf
    case Cosine(uvw) => CosineValue(uvw, normalize, direction)
    case Towards(origin, target) => pdfValue(target, origin, direction)
    case Mixture(a, b) => Value(a, normalize, pdfValue, direction) * 0.5 + Value(b, normalize, pdfValue, direction) * 0.5
  }

  /**
   * `generate`, with the draws it makes taken from `rng` starting at `next`; it
   * returns the direction and the cursor after its draws. The cosine density
   * draws twice for `random_cosine_direction` (whose trigonometry is the
   * parameter `cosineDirection`), the object density draws as its target's
   * `random_vector_to_surface` does, and the mixture draws once to choose a
   * component: `a` when the draw is below one half, `b` otherwise.
   */
  function Generate<O>(pdf: Pdf<O>, cosineDirection: (real, real) -> Vec3,
                       toSurface: (O, Vec3, nat -> real, nat) -> (Vec3, nat), rng: nat -> real, next: nat): (res: (Vec3, nat))
    ensures pdf.Mixture? && rng(next) < 0.5 ==> res == Generate(pdf.a, cosineDirection, toSurface, rng, next + 1)
    ensures pdf.Mixture? && rng(next) >= 0.5 ==> res == Generate(pdf.b, cosineDirection, toSurface, rng, next + 1)
    ensures pdf.Towards? ==> res == toSurface(pdf.target, pdf.origin, rng, next)
    decreases pdf
  {
    match pdf
    case Cosine(uvw) => (Transform(uvw, cosineDirection(rng(next), rng(next + 1))), next + 2)
    case Towards(origin, target) => toSurface(target, origin, rng, next)
    case Mixture(a, b) =>
      var r := rng(next);
      if r < 0.5 then Generate(a, cosineDirection, toSurface, rng, next + 1)
      else Generate(b, cosineDirection, toSurface, rng, next + 1)
  }

  /** The mixture's value is the same whichever component is named first. */
  lemma MixtureSymmetric<O>(a: Pdf<O>, b: Pdf<O>, normalize: Vec3 -> Vec3, pdfValue: (O, Vec3, Vec3) -> real, direction: Vec3)
    ensures Value(Mixture(a, b), normalize, pdfValue, direction) == Value(Mixture(b, a), normalize, pdfValue, direction)
  {
  }

  /** The mixture's value lies between its two components' values. */
  lemma MixtureBetween<O>(a: Pdf<O>, b: Pdf<O>, normalize: Vec3 -> Vec3, pdfValue: (O, Vec3, Vec3) -> real, direction: Vec3)
    ensures var va, vb := Value(a, normalize, pdfValue, direction), Value(b, normalize, pdfValue, direction);
      Min(va, vb) <= Value(Mixture(a, b), normalize, pdfValue, direction) <= Max(va, vb)
  {
  }

  /**
   * When every object's `pdf_value` is non-negative (as the quad's is), every
   * density built from these three kinds has a non-negative value.
   */
  lemma {:induction false} ValueNonNegative<O>(pdf: Pdf<O>, normalize: Vec3 -> Vec3, pdfValue: (O, Vec3, Vec3) -> real, direction: Vec3)
    requires forall o, origin, d :: pdfValue(o, origin, d) >= 0.0
    ensures Value(pdf, normalize, pdfValue, direction) >= 0.0
    decreases pdf
  {
    match pdf
    case Cosine(_) =>
    case Towards(_, _) =>
    case Mixture(a, b) =>
      ValueNonNegative(a, normalize, pdfValue, direction);
      ValueNonNegative(b, normalize, pdfValue, direction);
  }

  /** The densities at the leaves of a mixture tree: its cosine and object densities. */
  function Leaves<O(==)>(pdf: Pdf<O>): set<Pdf<O>>
    decreases pdf
  {
    match pdf
    case Mixture(a, b) => Leaves(a) + Leaves(b)
    case _ => {pdf}
  }

  /**
   * Every sample a density generates is a sample of one of its leaf densities,
   * drawn at a later point of the stream: mixing only chooses, it never blends
   * directions.
   */
  lemma {:induction false} SampleFromLeaf<O>(pdf: Pdf<O>, cosineDirection: (real, real) -> Vec3,
                                             toSurface: (O, Vec3, nat -> real, nat) -> (Vec3, nat), rng: nat -> real, next: nat)
    ensures exists leaf, m ::
      && leaf in Leaves(pdf) && !leaf.Mixture? && m >= next
      && Generate(leaf, cosineDirection, toSurface, rng, m) == Generate(pdf, cosineDirection, toSurface, rng, next)
    decreases pdf
  {
    if !pdf.Mixture? {
      assert pdf in Leaves(pdf);
      assert Generate(pdf, cosineDirection, toSurface, rng, next) == Generate(pdf, cosineDirection, toSurface, rng, next);
    } else {
      var a, b := pdf.a, pdf.b;
      var chosen := if rng(next) < 0.5 then a else b;
      SampleFromLeaf(chosen, cosineDirection, toSurface, rng, next + 1);
      var leaf, m :| leaf in Leaves(chosen) && !leaf.Mixture? && m >= next + 1
        && Generate(leaf, cosineDirection, toSurface, rng, m) == Generate(chosen, cosineDirection, toSurface, rng, next + 1);
      assert leaf in Leaves(pdf);
    }
  }

  /**
   * The light-sampling density towards a quad: the generated direction leads
   * from the origin to the quad's point at the next two draws, and when both
   * draws lie in `[0, 1]` that point passes the quad's interior test.
   */
  lemma QuadLightSample(quad: Quads.Quad, origin: Vec3, cosineDirection: (real, real) -> Vec3, rng: nat -> real, next: nat)
    requires Dot(quad.w, Cross(quad.u, quad.v)) == 1.0
    requires Contains(Quads.UnitInterval, rng(next)) && Contains(Quads.UnitInterval, rng(next + 1))
    ensures var (d, after) := Generate(Towards(origin, quad), cosineDirection, Quads.RandomVectorToSurface, rng, next);
      && after == next + 2
      && Add(origin, d) == Quads.QuadPoint(quad.q, quad.u, quad.v, rng(next), rng(next + 1))
      && Quads.IsInterior(Quads.QuadCoords(quad, Add(origin, d)).x, Quads.QuadCoords(quad, Add(origin, d)).y)
         == Some(Vec2(rng(next), rng(next + 1)))
  {
    Quads.SampledPointIsInterior(quad, origin, rng, next);
  }
}
