/** The three materials of material.h and their scattering decisions. The
    random unit vector and the random real a call would draw are passed in
    as a `ScatterSample`. */
module Materials {
  import opened Vectors
  import opened Rays
  import opened Hittables
  import opened Externals

  datatype Material =
    | Lambertian(albedo: Vec3)
    | Metal(albedo: Vec3, fuzz: real)
    | Dielectric(refractionIndex: real)

  /** What one call of scatter draws: random_unit_vector() and random_real(). */
  datatype ScatterSample = ScatterSample(unit: Vec3, draw: real)

  /** scatter's result: its return value, the attenuation and the scattered
      ray it writes. */
  datatype Scattering = Scattering(scattered: bool, attenuation: Vec3, ray: Ray)

  /** The metal constructor caps the fuzz at 1 (and leaves it unbounded
      below). */
  function MakeMetal(albedo: Vec3, fuzz: real): (m: Material)
    ensures m.Metal? && m.albedo == albedo
    ensures m.fuzz <= 1.0
    ensures fuzz < 1.0 ==> m.fuzz == fuzz
    ensures 1.0 <= fuzz ==> m.fuzz == 1.0
  {
    Metal(albedo, if fuzz < 1.0 then fuzz else 1.0)
  }

  /** The inputs for which scatter avoids a division by zero: every material
      but the Lambertian takes the unit vector of the incoming direction, and
      the dielectric divides by its index and by `1 + index`. */
  predicate ScatterDefined(m: Material, rIn: Ray) {
    match m
    case Lambertian(_) => true
    case Metal(_, _) => rIn.dir != Zero
    case Dielectric(ri) => rIn.dir != Zero && ri != 0.0 && ri != -1.0
  }

  /** lambertian::scatter: always scatters, towards normal + random unit
      vector, falling back to the normal when that sum is near zero. */
  function LambertianScatter(albedo: Vec3, rec: HitRecord, env: Env, sample: ScatterSample)
    : (s: Scattering)
    ensures s.scattered && s.attenuation == albedo && s.ray.orig == rec.p
    ensures env.nearZero(Add(rec.normal, sample.unit)) ==> s.ray.dir == rec.normal
    ensures !env.nearZero(Add(rec.normal, sample.unit)) ==> s.ray.dir == Add(rec.normal, sample.unit)
    ensures Valid(env) && rec.normal != Zero ==> s.ray.dir != Zero
  {
    var dir := Add(rec.normal, sample.unit);
    Scattering(true, albedo, Ray(rec.p, if env.nearZero(dir) then rec.normal else dir))
  }

  /** metal::scatter: the unit reflection perturbed by fuzz times a random
      unit vector; the ray survives only if it leaves above the surface. */
  function MetalScatter(albedo: Vec3, fuzz: real, rIn: Ray, rec: HitRecord, env: Env,
                        sample: ScatterSample): (s: Scattering)
    requires Valid(env)
    requires rIn.dir != Zero
    requires LengthSquared(rec.normal) == 1.0
    ensures s.scattered <==> Dot(s.ray.dir, rec.normal) > 0.0
    ensures s.attenuation == albedo && s.ray.orig == rec.p
    ensures s.scattered ==> s.ray.dir != Zero
  {
    var reflected := env.reflect(rIn.dir, rec.normal);
    var dir := Add(UnitVector(reflected, env.sqrt), Scale(fuzz, sample.unit));
    Scattering(Dot(dir, rec.normal) > 0.0, albedo, Ray(rec.p, dir))
  }

  /** The ratio of indices across the surface: 1/index entering the front
      face, the index itself leaving through the back. */
  function RefractionRatio(frontFace: bool, ri: real): (ratio: real)
    requires ri != 0.0
    ensures frontFace ==> ratio * ri == 1.0
    ensures !frontFace ==> ratio == ri
    ensures 0.0 < ri ==> 0.0 < ratio
    ensures ri != -1.0 ==> ratio != -1.0
  {
    if frontFace then 1.0 / ri else ri
  }

  /** Schlick's approximation, with x^5 written as a product as the source
      does. */
  function Reflectance(cosine: real, ri: real): (r: real)
    requires ri != -1.0
  {
    var r0 := (1.0 - ri) / (1.0 + ri);
    var r0sq := r0 * r0;
    var x := 1.0 - cosine;
    r0sq + (1.0 - r0sq) * (x * x * x * x * x)
  }

  /** `cannot_refract`: sin θ is `sqrt(1 - cos²θ)`; when `1 - cos²θ` is
      negative the source's square root is NaN and the comparison is false. */
  predicate CannotRefract(ratio: real, cosTheta: real, sqrt: real -> real) {
    var sin2 := 1.0 - cosTheta * cosTheta;
    0.0 <= sin2 && ratio * sqrt(sin2) > 1.0
  }

  /** `fmin(dot(-unit_direction, normal), 1)` */
  function CosTheta(unitDir: Vec3, normal: Vec3): (c: real)
    ensures c <= 1.0
    ensures Dot(Neg(unitDir), normal) <= 1.0 ==> c == Dot(Neg(unitDir), normal)
    ensures 1.0 <= Dot(Neg(unitDir), normal) ==> c == 1.0
  {
    var d := Dot(Neg(unitDir), normal);
    if d < 1.0 then d else 1.0
  }

  /** dielectric::scatter: never absorbs; reflects when refraction is
      impossible or when the random draw falls below the reflectance, and
      refracts otherwise. */
  function DielectricScatter(ri: real, rIn: Ray, rec: HitRecord, env: Env, sample: ScatterSample)
    : (s: Scattering)
    requires Valid(env)
    requires rIn.dir != Zero
    requires ri != 0.0 && ri != -1.0
    ensures s.scattered && s.attenuation == White && s.ray.orig == rec.p
    ensures LengthSquared(rec.normal) == 1.0 ==> s.ray.dir != Zero
  {
    var ratio := RefractionRatio(rec.frontFace, ri);
    var unitDir := UnitVector(rIn.dir, env.sqrt);
    var cosTheta := CosTheta(unitDir, rec.normal);
    var dir :=
      if CannotRefract(ratio, cosTheta, env.sqrt) || Reflectance(cosTheta, ratio) > sample.draw
      then env.reflect(unitDir, rec.normal)
      else env.refract(unitDir, rec.normal, ratio);
    UnitVectorNonZero(rIn.dir, env.sqrt);
    Scattering(true, White, Ray(rec.p, dir))
  }

  lemma UnitVectorNonZero(v: Vec3, sqrt: real -> real)
    requires ExactSqrt(sqrt)
    requires v != Zero
    ensures UnitVector(v, sqrt) != Zero
    ensures LengthSquared(UnitVector(v, sqrt)) == 1.0
  {
  }

  /** material::scatter, dispatched on the material. */
  function Scatter(m: Material, rIn: Ray, rec: HitRecord, env: Env, sample: ScatterSample)
    : (s: Scattering)
    requires Valid(env)
    requires ScatterDefined(m, rIn)
    requires m.Metal? ==> LengthSquared(rec.normal) == 1.0
    ensures s.ray.orig == rec.p
    ensures !m.Metal? ==> s.scattered
    ensures m.Dielectric? ==> s.attenuation == White
    ensures !m.Dielectric? ==> s.attenuation == m.albedo
    ensures s.scattered && LengthSquared(rec.normal) == 1.0 ==> s.ray.dir != Zero
  {
    match m
    case Lambertian(albedo) => LambertianScatter(albedo, rec, env, sample)
    case Metal(albedo, fuzz) => MetalScatter(albedo, fuzz, rIn, rec, env, sample)
    case Dielectric(ri) => DielectricScatter(ri, rIn, rec, env, sample)
  }

  /** For a cosine in [0, 1] and a positive index the reflectance is a
      probability. */
  lemma ReflectanceBounds(cosine: real, ri: real)
    requires 0.0 <= cosine <= 1.0
    requires 0.0 < ri
    ensures 0.0 <= Reflectance(cosine, ri) <= 1.0
  {
    var r0 := (1.0 - ri) / (1.0 + ri);
    RatioBelowOne(ri);
    SquareBelowOne(r0);
    var x := 1.0 - cosine;
    UnitProduct(x, x);
    UnitProduct(x * x, x);
    UnitProduct(x * x * x, x);
    UnitProduct(x * x * x * x, x);
    ConvexBound(r0 * r0, x * x * x * x * x);
  }

  /** At normal incidence the reflectance is r0 = ((1 - n)/(1 + n))^2. */
  lemma ReflectanceAtNormal(ri: real)
    requires ri != -1.0
    ensures Reflectance(1.0, ri) == ((1.0 - ri) / (1.0 + ri)) * ((1.0 - ri) / (1.0 + ri))
  {
  }

  lemma RatioBelowOne(ri: real)
    requires 0.0 < ri
    ensures -1.0 < (1.0 - ri) / (1.0 + ri) < 1.0
  {
    var q := (1.0 - ri) / (1.0 + ri);
    assert q * (1.0 + ri) == 1.0 - ri;
  }

  lemma SquareBelowOne(q: real)
    requires -1.0 < q < 1.0
    ensures 0.0 <= q * q < 1.0
  {
    SquareNonNegative(q);
    if q < 0.0 {
      assert q * q == (-q) * (-q);
      UnitProduct(-q, -q);
      assert (-q) * (-q) <= -q;
    } else {
      UnitProduct(q, q);
      assert q * q <= q;
    }
  }

  lemma UnitProduct(a: real, b: real)
    requires 0.0 <= a <= 1.0 && 0.0 <= b <= 1.0
    ensures 0.0 <= a * b <= a
    ensures a * b <= 1.0
  {
  }

  lemma ConvexBound(r: real, p: real)
    requires 0.0 <= r <= 1.0 && 0.0 <= p <= 1.0
    ensures 0.0 <= r + (1.0 - r) * p <= 1.0
  {
    UnitProduct(1.0 - r, p);
  }

  /** When refraction is impossible the dielectric reflects, whatever the
      random draw. */
  lemma TotalInternalReflection(ri: real, rIn: Ray, rec: HitRecord, env: Env, sample: ScatterSample)
    requires Valid(env)
    requires rIn.dir != Zero
    requires ri != 0.0 && ri != -1.0
    requires CannotRefract(RefractionRatio(rec.frontFace, ri),
                           CosTheta(UnitVector(rIn.dir, env.sqrt), rec.normal), env.sqrt)
    ensures DielectricScatter(ri, rIn, rec, env, sample).ray.dir
         == env.reflect(UnitVector(rIn.dir, env.sqrt), rec.normal)
  {
  }

  /** With no fuzz a metal is a perfect mirror: the scattered direction is
      the unit reflection. */
  lemma MetalMirror(albedo: Vec3, rIn: Ray, rec: HitRecord, env: Env, sample: ScatterSample)
    requires Valid(env)
    requires rIn.dir != Zero
    requires LengthSquared(rec.normal) == 1.0
    ensures MetalScatter(albedo, 0.0, rIn, rec, env, sample).ray.dir
         == UnitVector(env.reflect(rIn.dir, rec.normal), env.sqrt)
  {
  }
}
