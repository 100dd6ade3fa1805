# Ray tracer core in Dafny

This project models the exact-arithmetic core of a small C++ ray tracer
written in the style of "Ray Tracing in One Weekend". The repository keeps
two revisions side by side:

- the current one under `src/`: tiled rendering, defocus blur, bounding boxes and gamma;
- an earlier one at the top level: scanline rendering, a pinhole camera, no boxes and no gamma.

Every `float`/`double` is a Dafny `real`. The infinities the source uses as
interval bounds are handled by a three-case `ExtReal`. The source also calls
some functions whose definitions are not among its shown files. These enter
as parameters instead:

- `std::sqrt`, `reflect`, `refract` and `near_zero` are bundled in an `Env`. `Externals.Valid` states what the model assumes of them:
  - `sqrt` is the exact non-negative square root of a non-negative argument;
  - `near_zero` holds of the zero vector;
  - `reflect(v, n)` is not the zero vector for a non-zero v and a unit n;
  - `refract(u, n, k)` is not the zero vector for unit u and n.

  The reflection `Materials.MetalScatter` normalises and the non-zero scattered direction of `Materials.DielectricScatter` rest on the last two, and so do the non-zero ray directions `Cameras.RayColor` recurses on.
- The random draws (`random_unit_vector`, `random_real`, `sample_square`, `random_in_unit_disk`) are passed in as samples.

Modules, leaves first:

| file | module | source |
|---|---|---|
| ext_real.dfy | ExtReals | IEEE infinities as interval bounds; `std::min`/`std::max` |
| options.dfy | Options | the bool-plus-out-parameter `hit` protocol |
| vec3.dfy | Vectors | vec3.h |
| ray.dfy | Rays | src/ray.h |
| interval.dfy | Intervals | src/interval.h, interval.h |
| aabb.dfy | Boxes | src/aabb.h |
| hittable.dfy | Hittables | hittable.h |
| externals.dfy | Externals | the functions called but not defined in the shown files |
| material.dfy | Materials | material.h |
| scan.dfy | Scans | the closest-so-far loop shared by both hittable_list revisions |
| sphere.dfy | Spheres | src/sphere.h, sphere.h |
| hittable_list.dfy | Worlds | src/hittable_list.h, hittable_list.h |
| color.dfy | Colors | src/color.h, color.h |
| camera.dfy | Cameras | src/camera.h, camera.h |

The closest-hit loop is written once, generically, as `Scans.ScanHit`. It is
proved equal to a reference fold `Scans.Closest`, which keeps the earliest of
the minimal hits. The proof needs each object's test to be "shrink
consistent": asked about a shorter interval `(min, c)`, the object answers
with the same hit if that hit lies below `c`, and with no hit otherwise. This
is proved for both sphere revisions.

Both render loops fill the pixel buffer through a `shade(i, j)` parameter,
which stands for the per-pixel sampling `Cameras.PixelColor`. The tiled loop
is proved to write every pixel exactly once. Both loops produce the same
buffer.

## Model

| member | source | states |
|---|---|---|
| ExtReals.Min | src/interval.h:14 | `std::min` is a lower bound of both arguments and returns one of them |
| ExtReals.Max | src/interval.h:14 | `std::max` is an upper bound of both arguments and returns one of them |
| ExtReals.Diff | src/interval.h:16-19 | `max - min` is non-negative exactly when `min <= max`, including infinite bounds |
| Vectors.Neg | vec3.h:15 | `v + (-v)` is the zero vector |
| Vectors.Get | vec3.h:18-19 | `operator[]` reads x, y, z for 0, 1, 2 |
| Vectors.AddAssign | vec3.h:22-28 | `+=` leaves the same value as `+` |
| Vectors.MulAssign | vec3.h:30-36 | `*=` leaves the same value as `t * v` |
| Vectors.DivAssign | vec3.h:38 | `/=` leaves the same value as `/` |
| Vectors.Length | vec3.h:41-44 | the length is non-negative and squares to `length_squared` |
| Vectors.Sub | vec3.h:62-65 | `u - v == u + (-v)`, and adding `v` back gives `u` |
| Vectors.ScaleRight | vec3.h:77-80 | `v * t` is the value `v *= t` leaves, and dividing by a non-zero t gives v back |
| Vectors.AddInverse | vec3.h:57-65 | `+` is commutative, and subtracting either summand from `u + v` gives the other |
| Vectors.Mul | vec3.h:67-70 | white leaves a colour unchanged, black absorbs it, and the channels of `u * v` sum to `dot(u, v)` |
| Vectors.Div | vec3.h:82-85 | `t * (v / t) == v` |
| Vectors.Cross | vec3.h:92-95 | the cross product is orthogonal to both arguments |
| Vectors.UnitVector | vec3.h:97-100 | for non-zero `v` the result has squared length 1 and scales back to `v` by the length |
| Vectors.LengthSquaredNonNegative | vec3.h:45-48 | `length_squared` is never negative |
| Vectors.LengthSquaredPositive | vec3.h:45-48 | `length_squared` is positive for every non-zero vector |
| Vectors.LengthPositive | vec3.h:41-44 | a non-zero vector has positive length |
| Vectors.UnitVectorLength | vec3.h:97-100 | dividing a non-zero vector by its length gives squared length 1 |
| Vectors.DotSymmetric | vec3.h:87-90 | `dot(u, v) == dot(v, u)` |
| Vectors.DotSelf | vec3.h:87-90 | `dot(v, v) == length_squared(v) >= 0` |
| Vectors.CrossAntiCommutative | vec3.h:92-95 | `cross(u, v) == -cross(v, u)` |
| Vectors.DotNeg | vec3.h:87-90 | `dot(u, -v) == -dot(u, v)` |
| Vectors.NegInvolution | vec3.h:15 | `-(-v) == v` |
| Vectors.DivIsReciprocalScale | vec3.h:82-85 | `v / t == (1/t) * v`, and `/=` agrees with `/` |
| Vectors.LengthSquaredScale | vec3.h:72-75 | scaling by `k` scales `length_squared` by `k*k` |
| Vectors.LengthSquaredAffine | vec3.h:45-48 | `|t d - w|^2` expands into the three dot products the sphere test uses |
| Rays.At | src/ray.h:19 | `at(t) - origin == t * direction` |
| Rays.Accessors | src/ray.h:11-16 | `origin()` and `direction()` return the constructor arguments |
| Rays.AtZero | src/ray.h:19 | `at(0)` is the origin |
| Rays.AtOne | src/ray.h:19 | `at(1) == origin + direction` |
| Rays.AtAffine | src/ray.h:19 | `at(t + s) == at(t) + s * direction` |
| Intervals.Default | src/interval.h:11 | the default interval contains nothing and has `min > max` |
| Intervals.Hull | src/interval.h:13-14 | the hull contains everything either interval contains, and its bounds come from the inputs |
| Intervals.Size | interval.h:15-18 | the size is non-negative exactly for a non-empty interval |
| Intervals.Clamp | src/interval.h:32-39 | clamp is the identity on contained values, lands inside a non-empty interval, and returns `x`, `min` or `max` |
| Intervals.SizeNonNegativeIffInhabited | src/interval.h:16-24 | size >= 0 exactly when the interval contains a finite value |
| Intervals.ClampIdempotent | src/interval.h:32-39 | on a non-empty interval, clamping twice equals clamping once |
| Intervals.ClampMonotone | interval.h:31-38 | on a non-empty interval, clamp preserves order |
| Intervals.SurroundsImpliesContains | interval.h:20-28 | `surrounds(x)` implies `contains(x)` |
| Intervals.EmptyContainsNothing | src/interval.h:44 | `empty` neither contains nor surrounds any value |
| Intervals.UniverseContainsAll | interval.h:44 | `universe` contains every value and surrounds exactly the finite ones |
| Intervals.DefaultIsEmpty | interval.h:11 | the default-constructed interval equals `empty` |
| Intervals.HullEmpty | src/interval.h:13-14 | the hull with `empty`, on either side, is the other interval |
| Intervals.HullContainsExactly | src/interval.h:13-14 | exactly which points the hull contains |
| Boxes.RealMin | src/aabb.h:16 | `std::min` on coordinates is a lower bound that returns one of its arguments |
| Boxes.RealMax | src/aabb.h:16 | `std::max` on coordinates is an upper bound that returns one of its arguments |
| Boxes.DefaultBox | src/aabb.h:9 | the default box contains no point |
| Boxes.FromPoints | src/aabb.h:14-19 | the box of two points has min <= max on every axis and contains both points |
| Boxes.Union | src/aabb.h:22-27 | the union box contains every point of either box |
| Boxes.Axis | src/aabb.h:29-36 | `axis(1)` is y, `axis(2)` is z, and every other n gives x |
| Boxes.AxisComponents | src/aabb.h:29-36 | `axis(1)` is y, `axis(2)` is z and `axis(0)` is x: a point is in the box iff each coordinate is in `axis(n)` |
| Boxes.LongestAxis | src/aabb.h:74-80 | returns 0, 1 or 2, an axis whose size is at least the other two |
| Boxes.FromPointsSymmetric | src/aabb.h:14-19 | the point constructor is symmetric |
| Boxes.UnionEmpty | src/aabb.h:22-27 | union with `aabb::empty` on either side leaves the box unchanged |
| Boxes.EmptyAndUniverse | src/aabb.h:86-87 | `empty` contains no point, `universe` every point |
| Boxes.SlabBound | src/aabb.h:49-50 | a slab bound is finite exactly when the box bound is |
| Boxes.Step | src/aabb.h:52-65 | one axis only narrows `ray_t` |
| Boxes.HitFrom | src/aabb.h:44-70 | the remaining iterations succeed only with a non-empty interval left |
| Boxes.Hit | src/aabb.h:39-71 | `hit` returns false unless `ray_t` is non-empty |
| Boxes.BoundOrder | src/aabb.h:49-50 | comparing a slab bound with `t` compares the box bound with the ray's coordinate at `t`, by the sign of the direction |
| Boxes.StepSound | src/aabb.h:52-65 | a t strictly inside the narrowed interval is inside `ray_t` and puts the ray inside that axis's slab |
| Boxes.StepComplete | src/aabb.h:52-65 | a t strictly inside `ray_t` and strictly inside the slab stays strictly inside the narrowed interval |
| Boxes.HitFromSound | src/aabb.h:44-70 | a successful run of the remaining iterations leaves some t strictly inside `ray_t` inside every remaining slab |
| Boxes.HitFromComplete | src/aabb.h:44-70 | a t strictly inside `ray_t` and strictly inside every remaining slab makes the remaining iterations succeed |
| Boxes.HitSound | src/aabb.h:39-71 | on a box with no empty axis, a hit means some t strictly inside `ray_t` puts the ray in the box |
| Boxes.HitComplete | src/aabb.h:39-71 | a t strictly inside `ray_t` with the ray strictly inside the box makes `hit` true |
| Boxes.EmptyBoxHit | src/aabb.h:52-68 | `aabb::empty` reports a hit for every non-empty `ray_t`, though no ray point is in it |
| Boxes.HitChecked | src/aabb.h:39-71 | the test with the empty-axis case decided first agrees with `hit` on proper boxes and rejects the others |
| Boxes.HitCheckedSound | src/aabb.h:39-71 | every hit of the checked test has a ray point in the box at some t strictly inside `ray_t` |
| Hittables.SetFaceNormal | hittable.h:14-18 | `front_face` iff the ray opposes the outward normal; the normal is the outward normal or its negation accordingly; it always opposes the ray; its length is kept |
| Hittables.SetFaceNormalIdempotent | hittable.h:14-18 | setting the face normal twice equals setting it once |
| Hittables.SetFaceNormalFlip | hittable.h:14-18 | flipping the outward normal leaves the stored normal alone and flips `front_face` |
| Materials.MakeMetal | material.h:45 | fuzz is capped at 1 and left alone below 1 |
| Materials.LambertianScatter | material.h:24-36 | always scatters from `rec.p` with the albedo; falls back to exactly the normal when `normal + sample` is near zero; never yields a zero direction |
| Materials.MetalScatter | material.h:47-55 | scatters iff the new direction has positive dot with the normal, with the albedo from `rec.p` |
| Materials.RefractionRatio | material.h:71 | 1/index on the front face, the index on the back face |
| Materials.CosTheta | material.h:74 | `fmin(dot, 1)`: the dot product when it is at most 1, otherwise 1 |
| Materials.DielectricScatter | material.h:67-86 | the dielectric always scatters from `rec.p` with attenuation (1, 1, 1), never along the zero vector |
| Materials.Scatter | material.h:24-86 | dispatch: only metal can absorb; the attenuation is white for glass and the albedo otherwise |
| Materials.ReflectanceBounds | material.h:93-101 | Schlick's reflectance lies in [0, 1] for a cosine in [0, 1] and a positive ratio |
| Materials.ReflectanceAtNormal | material.h:93-101 | at cosine 1 the reflectance is `r0^2` |
| Materials.TotalInternalReflection | material.h:76-80 | when refraction is impossible the direction is the reflection, whatever the draw |
| Materials.MetalMirror | material.h:50-52 | with fuzz 0 the metal reflects along the unit reflection |
| Scans.Clip | src/hittable_list.h:47 | the shorter interval keeps a hit only if it lies below the new bound |
| Scans.Better | src/hittable_list.h:47-52 | the scan keeps the previous hit or takes the new one |
| Scans.ScanFrom | src/hittable_list.h:43-53 | the rest of the scan finds a hit only if it had one or some later object hits |
| Scans.ClosestNone | src/hittable_list.h:39-55 | the reference finds nothing iff no object hits |
| Scans.ClosestWitness | src/hittable_list.h:43-53 | the reference hit is some object's hit, minimal among all hits, and strictly below every earlier object's hit |
| Scans.ClosestSound | src/hittable_list.h:47-53 | the reference hit lies strictly inside `ray_t` |
| Scans.ScanStep | src/hittable_list.h:47-52 | one more object: the closest of i+1 objects is its hit below the current best, else the current best |
| Scans.ScanFromIsClosest | src/hittable_list.h:43-53 | the rest of the scan completes the reference fold |
| Scans.ScanHitIsClosest | src/hittable_list.h:39-55 | the shrinking scan equals the reference fold |
| Scans.ScanHitSpec | src/hittable_list.h:39-55 | hit iff some object hits; the hit is object k's, strictly inside `ray_t`, no later than any hit, and strictly earlier than every hit before k |
| Spheres.MakeSphere | src/sphere.h:10-16 | the radius is `max(0, radius)`; the box, built from the unclamped argument, has min <= max and contains the centre |
| Spheres.MakePlainSphere | sphere.h:9-10 | the radius is `fmax(0, radius)` |
| Spheres.NearestRoot | src/sphere.h:26-39 | a chosen root is strictly inside `ray_t`; a negative discriminant means no root |
| Spheres.SphereHit | src/sphere.h:18-48 | hits iff a root is chosen; the record has that t, `p == at(t)`, the sphere's material and a normal opposing the ray; it is a front-face hit iff the ray runs against `(p - center)/radius`, and the normal is that vector or its negation accordingly |
| Spheres.PlainHit | sphere.h:12-41 | the same for the earlier sphere, without a material: the same t, point, front-face test and normal |
| Spheres.FaceRecord | src/sphere.h:41-44 | the record holds t and `at(t)`; `front_face` holds iff the ray direction has negative dot product with `(p - center)/radius`; the normal is that outward vector on a front-face hit and its negation otherwise, so it opposes the ray |
| Spheres.RootForm | src/sphere.h:30-39 | a chosen root satisfies `t*a - h == ±sqrt(discriminant)` with `a != 0` |
| Spheres.RootOnSphere | src/sphere.h:33-42 | with an exact sqrt, the point at a chosen root is at distance `radius` from the centre |
| Spheres.RootFormOnSphere | src/sphere.h:20-36 | any t with `t*a - h` a square root (either sign) of the discriminant puts `at(t)` at distance `radius` from the centre |
| Spheres.QuadraticZeroOnSphere | src/sphere.h:20-24 | a zero of `a t^2 - 2 h t + c` is a parameter whose point lies on the sphere |
| Spheres.SphereParameterIsRoot | src/sphere.h:20-36 | conversely, every t whose point lies on the sphere is one of the two roots `(h -+ sqrtd)/a`, with a non-negative discriminant |
| Spheres.RootsOrdered | src/sphere.h:33-36 | `(h - sqrtd)/a <= (h + sqrtd)/a` |
| Spheres.NearestRootIsNearest | src/sphere.h:33-39 | any point of the sphere at t strictly inside `ray_t` means a root is found, no later than t |
| Spheres.NearRootFirst | src/sphere.h:33-34 | the smaller root is taken whenever `ray_t` surrounds it |
| Spheres.NearestRootShrink | src/sphere.h:33-39 | on `(min, c)` the root found is the full interval's root if it lies below c, else none |
| Spheres.SphereHitGeometry | src/sphere.h:41-44 | the hit point lies on the sphere and the normal has unit length |
| Spheres.PlainHitGeometry | sphere.h:35-38 | the same for the earlier sphere |
| Spheres.UnitOutwardNormal | src/sphere.h:43 | `(p - center)/radius` is a unit vector for p on the sphere |
| Spheres.SphereShrinkConsistent | src/sphere.h:18-48 | the sphere test is shrink consistent |
| Spheres.PlainShrinkConsistent | sphere.h:12-41 | the earlier sphere test is shrink consistent |
| Spheres.BoxHoldsBall | src/sphere.h:14-15 | the bounding box contains every point within the radius |
| Worlds.EmptyList | src/hittable_list.h:13 | a new list has no objects and a box containing nothing |
| Worlds.Add | src/hittable_list.h:27-32 | `add` appends at the end and widens the box by the object's own `bounding_box()` |
| Worlds.Clear | src/hittable_list.h:21-25 | `clear` leaves no objects and a box containing nothing |
| Worlds.Single | src/hittable_list.h:16-19 | the single-object constructor holds that object and exactly its box |
| Worlds.EmptyListCovers | src/hittable_list.h:13 | the new list's box covers all (no) members |
| Worlds.AddCovers | hittable_list.h:29-34 | after `add`, the box still contains every member's box |
| Worlds.ClearCovers | hittable_list.h:22-26 | after `clear`, the box is `aabb::empty` and covers all (no) members |
| Worlds.SpheresShrinkConsistent | src/hittable_list.h:43-53 | every sphere of a list is shrink consistent |
| Worlds.ListHitSpec | src/hittable_list.h:34-56 | hit iff some sphere hits; it is sphere k's hit and material, strictly inside `ray_t`, the minimum, and earlier spheres hit strictly later |
| Worlds.PlainListHitSpec | hittable_list.h:36-58 | hit iff some sphere hits; the hit is strictly inside `ray_t` and the minimum |
| Worlds.ListHitRecord | src/hittable_list.h:34-56 | a list hit lies on the ray, with a unit normal facing the ray and a member's material |
| Worlds.BoundingBoxHoldsBalls | src/hittable_list.h:58 | for a list built by the constructors, `bounding_box()` contains every point of every member sphere's ball |
| Worlds.EmptyListNoHit | src/hittable_list.h:39-55 | an empty list never reports a hit |
| Colors.LinearToGamma | src/color.h:16-23 | 0 for inputs <= 0; otherwise a non-negative value that squares back to the input |
| Colors.ChannelByte | src/color.h:29-36 | a channel is 0..255, 0 for values <= 0, 255 from 0.999 on, `floor(256 v)` in between |
| Colors.ToPixel | src/color.h:26-37 | a component <= 0 gives 0; with an exact sqrt each channel is 255 from 0.999^2 on and otherwise the b with `b^2 <= 65536 c < (b+1)^2` |
| Colors.GammaByte | src/color.h:16-36 | gamma then the channel conversion yields that square-root byte |
| Colors.ToPixelLinear | color.h:15-26 | each channel is 0 for a component <= 0, 255 from 0.999 on, and otherwise the b with `b <= 256 c < b + 1` |
| Colors.ChannelMonotone | src/color.h:34-36 | the channel conversion preserves order |
| Colors.GammaMonotone | src/color.h:16-23 | gamma correction preserves order |
| Colors.ToPixelMonotone | src/color.h:26-37 | `to_pixel` is monotone in each channel |
| Colors.ToPixelLinearMonotone | color.h:22-25 | the linear `to_pixel` is monotone in each channel |
| Colors.ToPixelExtremes | src/color.h:16-36 | a component <= 0 gives 0; one whose gamma reaches 0.999 gives 255 |
| Colors.GammaSaturates | src/color.h:16-36 | a component of at least 0.999^2 gives 255 |
| Cameras.Truncate | src/camera.h:115 | `static_cast<int>` truncates toward zero |
| Cameras.ImageHeight | src/camera.h:115-116 | the height is at least 1, and is the truncated `width / aspect` once that reaches 1 |
| Cameras.SampleScale | src/camera.h:119 | the scale times the sample count is 1 |
| Cameras.TileCount | src/camera.h:50-58 | a loop stepping by 16 makes the least count of tiles reaching past the end |
| Cameras.BuildTiles | src/camera.h:49-58 | the list has rows x cols tiles; tile k is the grid tile at row k / cols, column k % cols |
| Cameras.TileInImage | src/camera.h:54-56 | every tile is 1..16 pixels wide and high and lies inside the image |
| Cameras.PixelInOneTile | src/camera.h:50-58 | pixel (i, j) lies in the tile at (j/16, i/16) and in no other |
| Cameras.PixelIndexInBuffer | src/camera.h:40 | `j * width + i < width * height` for every pixel |
| Cameras.PixelIndexInjective | src/camera.h:78 | distinct pixels have distinct buffer indices |
| Cameras.BufferIndexIsPixel | src/camera.h:40 | every buffer index is some pixel's index |
| Cameras.RenderTiles | src/camera.h:40-81 | after the tile loop, index `j * width + i` holds pixel (i, j)'s value for every pixel |
| Cameras.RenderScanlines | camera.h:27-50 | the pushed pixels are `width * height` entries in row-major order |
| Cameras.ImageUnique | src/camera.h:40-81 | the tiled and the scanline loops fill the same buffer |
| Cameras.GetRay | src/camera.h:154-165 | the ray reaches the pixel sample at t = 1; no defocus means it starts at the centre, defocus means on the disk |
| Cameras.PinholeRay | camera.h:103-110 | the ray starts at the centre and reaches the pixel sample at t = 1 |
| Cameras.PinholeIsZeroDefocus | src/camera.h:161 | with `defocus_angle <= 0` both revisions shoot the same ray |
| Cameras.PixelSampleSteps | src/camera.h:159 | the samples of neighbouring pixels are one pixel delta apart |
| Cameras.Sky | src/camera.h:197-199 | the sky colour is a blend `(1 - a)·white + a·(0.5, 0.7, 1.0)` with a in [0, 1], so it lies between white and that blue on each channel |
| Cameras.RayColor | src/camera.h:180-200 | black at depth <= 0; the sky when nothing is hit |
| Cameras.RayColorHit | src/camera.h:187-193 | on a hit: the attenuated colour of the scattered ray at depth - 1, or black when absorbed |
| Cameras.WorldHitScatters | src/camera.h:187-191 | the hit record `ray_color` gets satisfies scatter's needs |
| Cameras.RayColorBounded | camera.h:118-138 | with albedos in [0, 1], every colour `ray_color` returns lies in [0, 1] |
| Cameras.AttenuationBounded | material.h:34-70 | the attenuation is white or the albedo |
| Cameras.SampleSumBounded | src/camera.h:72-77 | the sum of n sample colours lies in [0, n] per channel |
| Cameras.AverageBounded | src/camera.h:72-78 | the averaged colour passed to `to_pixel` lies in [0, 1] per channel |
| Cameras.PixelColor | src/camera.h:72-78 | each stored channel is the gamma-2 byte (`b² <= 65536·x < (b+1)²`, saturating at 0.999²) of the scaled sum of the samples' ray colours; with scale 1/n and albedos in [0, 1] that scaled sum lies in the unit cube |

## Left out

- Floating point: rounding, `float` vs `double`, and NaN are not modelled. The exceptions are modelled directly:
  - A zero direction in the sphere test gives a NaN root that no interval surrounds, so the test misses.
  - A negative `1 - cos^2` makes `sin_theta` NaN, so `cannot_refract` is false.
  - Two equal infinities make `size()` NaN, so `size` requires distinct infinities.
- Division by zero is excluded by preconditions rather than modelled as IEEE infinities or NaN. This covers `unit_vector` of the zero vector, `/` by 0, a dielectric index of 0 or -1, a zero aspect ratio and zero samples per pixel. The ray-box test requires every direction component to be non-zero.
- Worlds.ListHit, Worlds.PlainListHit: a sphere whose radius is 0 (including every sphere built with a negative radius, which the constructor clamps to 0) is treated as never hit. In the source such a sphere is hit by a ray through its centre, where the discriminant is 0 and the root is surrounded, and the record gets a NaN normal from `(p - center) / 0`. The model has no NaN vector to put in the record, so the list-level theorems (`Worlds.ListHitSpec`, `Cameras.RayColor` and the rest) are stated for spheres of non-zero radius, and the test lambdas skip the others.
- Cameras.PixelIndex, Cameras.RenderTiles, Cameras.RenderScanlines, Cameras.BuildTiles, Cameras.TileCount: Dafny integers are unbounded, while the source computes `image_width * image_height`, `j * image_width + i` and the `+= tile_size` loop counters in 32-bit `int`. Signed overflow there is undefined behaviour, which happens once `width * height` reaches 2^31; the model states its results for every size, as if no overflow occurred.
- Cameras.Truncate, Cameras.ImageHeight: `static_cast<int>` of a `double` outside the `int` range is undefined behaviour in the source; the model truncates any real, so a very large `width / aspect` gives a height the source cannot produce.
- Boxes.Hit: stated only for rays whose three direction components are non-zero, because a zero component gives `1/0` slab bounds.
- Cameras.RayColor: stated only for worlds of spheres with non-zero radius and well-defined materials, and for non-zero ray directions.
- Cameras.RenderTiles, Cameras.RenderScanlines: require a non-negative width and height. Negative sizes make the source's buffer size wrap around.
- `std::sqrt`, `reflect`, `refract` and `near_zero` are parameters, as are all random draws. The viewport and defocus geometry of `initialize` uses `std::tan` and `degrees_to_radians`, so its results are the fields of the `View` datatype.
- `std::execution::par` runs the tile loop in parallel. The model runs the tiles in list order; they write disjoint buffer indices.
- Timing, `println` progress output, `std::filesystem`, `stbi_write_png` and `save_binary_p6` are left out.
- The BVH (`bvh_node.h`) is not part of this model. `src/camera.h` renders through a BVH built from the list; the model hits the list directly.
- List members are spheres: `src/sphere.h` spheres in one list type and `sphere.h` spheres in the other. Nested lists are not modelled.
- Ownership (`shared_ptr`, `unique_ptr`, `std::move`) and virtual dispatch become plain values and closed datatypes.
- The earlier `camera.h` reads `rec.mat` from a hit record that the earlier `hittable.h` declares without a material. Its `ray_color` is therefore modelled with the material-carrying record of the `src/` revision.
- `main.cpp`, `vec3.cpp`, the scenes and the `std::formatter<vec3>` specialisation are drivers, scratch code and scene data, and are left out.

## Findings

| source | as written | input that shows it | evidently intended | confidence | as-written member | corrected member |
|---|---|---|---|---|---|---|
| src/aabb.h:52-68 | On an empty axis (`min = +inf`, `max = -inf`) the slab bounds cross, so no branch narrows `ray_t` and the loop never returns false | `aabb::empty`, any ray with non-zero direction components, `ray_t = (0.001, +inf)`: `hit` returns true | an empty box is never hit | medium; not executed | Boxes.EmptyBoxHit | Boxes.HitChecked, Boxes.HitCheckedSound |
