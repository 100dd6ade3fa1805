/** The camera of src/camera.h (tiles, defocus blur) and of the earlier
    camera.h (scanlines, pinhole): image size, the pixel buffer the render
    loop fills, the ray through a pixel sample and the recursive ray colour.
    Random draws are parameters; the BVH src/camera.h builds before
    rendering is replaced by the list it is built from. */
module Cameras {
  import opened ExtReals
  import opened Vectors
  import opened Rays
  import opened Intervals
  import opened Hittables
  import opened Externals
  import opened Materials
  import opened Options
  import opened Spheres
  import Worlds
  import opened Colors

  // ---------------------------------------------------------------------
  // Image size

  /** static_cast<int> of a finite real: truncation toward zero. */
  function Truncate(x: real): (n: int)
    ensures 0.0 <= x ==> n as real <= x < n as real + 1.0
    ensures x < 0.0 ==> n as real - 1.0 < x <= n as real
  {
    if 0.0 <= x then x.Floor else -((-x).Floor)
  }

  /** image_height: the truncated width / aspect ratio, raised to at least 1. */
  function ImageHeight(width: int, aspect: real): (h: int)
    requires aspect != 0.0
    ensures 1 <= h
    ensures 1.0 <= width as real / aspect ==>
              h as real <= width as real / aspect < h as real + 1.0
    ensures width as real / aspect < 1.0 ==> h == 1
  {
    var n := Truncate(width as real / aspect);
    if n < 1 then 1 else n
  }

  /** pixel_samples_scale: the reciprocal of the sample count. */
  function SampleScale(samples: int): (s: real)
    requires samples != 0
    ensures s * samples as real == 1.0
  {
    1.0 / samples as real
  }

  // ---------------------------------------------------------------------
  // Pixel buffer indexing

  /** The pixel buffer index of pixel (i, j): row-major, image_width per row. */
  function PixelIndex(w: int, i: int, j: int): int {
    j * w + i
  }

  /** Every pixel of a w by h image has an index inside the w * h buffer. */
  lemma PixelIndexInBuffer(w: int, h: int, i: int, j: int)
    requires 0 <= i < w && 0 <= j < h
    ensures 0 <= PixelIndex(w, i, j) < w * h
  {
    MulNonNegative(j, w);
    MulMonotone(j + 1, h, w);
  }

  /** The index determines the pixel: its quotient by w is the row and its
      remainder the column. */
  lemma PixelIndexDecode(w: int, i: int, j: int)
    requires 0 <= i < w
    ensures PixelIndex(w, i, j) / w == j && PixelIndex(w, i, j) % w == i
  {
    DivModOf(j, i, w);
  }

  /** Distinct pixels have distinct indices. */
  lemma PixelIndexInjective(w: int, i: int, j: int, i': int, j': int)
    requires 0 <= i < w && 0 <= i' < w
    requires PixelIndex(w, i, j) == PixelIndex(w, i', j')
    ensures i == i' && j == j'
  {
    PixelIndexDecode(w, i, j);
    PixelIndexDecode(w, i', j');
  }

  /** Every index of the buffer is the index of a pixel of the image. */
  lemma BufferIndexIsPixel(w: int, h: int, k: int)
    requires 0 < w && 0 <= k < w * h
    ensures 0 <= k % w < w && 0 <= k / w < h
    ensures PixelIndex(w, k % w, k / w) == k
  {
    var q, r := k / w, k % w;
    assert k == q * w + r;
    if q >= h {
      MulMonotone(h, q, w);
    }
    if q < 0 {
      MulMonotone(q, -1, w);
    }
  }

  /** Euclidean division undoes q * n + r for 0 <= r < n. */
  lemma DivModOf(q: int, r: int, n: int)
    requires 0 <= r < n
    ensures (q * n + r) / n == q && (q * n + r) % n == r
  {
    var k := q * n + r;
    var d, m := k / n, k % n;
    assert k == d * n + m;
    assert (q - d) * n == m - r;
    if q - d >= 1 {
      MulMonotone(1, q - d, n);
    } else if q - d <= -1 {
      MulMonotone(q - d, -1, n);
    }
  }

  lemma MulMonotone(a: int, b: int, n: int)
    requires a <= b && 0 <= n
    ensures a * n <= b * n
  {
    MulNonNegative(b - a, n);
    assert b * n - a * n == (b - a) * n;
  }

  lemma MulNonNegative(a: int, b: int)
    requires 0 <= a && 0 <= b
    ensures 0 <= a * b
  {
  }

  // ---------------------------------------------------------------------
  // Tiles (src/camera.h)

  const TileSize := 16

  datatype Tile = Tile(xStart: int, yStart: int, width: int, height: int)

  /** How many tiles the loop `for (x = 0; x < n; x += 16)` makes. */
  function TileCount(n: int): (c: nat)
    ensures 0 < n ==> TileSize * (c - 1) < n <= TileSize * c
    ensures n <= 0 ==> c == 0
  {
    if n <= 0 then 0 else (n + TileSize - 1) / TileSize
  }

  function IntMin(a: int, b: int): int {
    if b < a then b else a
  }

  /** The tile in row `row` and column `col` of the grid. */
  function TileAt(w: int, h: int, row: int, col: int): Tile {
    Tile(TileSize * col, TileSize * row,
         IntMin(TileSize, w - TileSize * col), IntMin(TileSize, h - TileSize * row))
  }

  predicate InTile(t: Tile, i: int, j: int) {
    t.xStart <= i < t.xStart + t.width && t.yStart <= j < t.yStart + t.height
  }

  /** The tile list of render: rows of tiles top to bottom, each row left to
      right, tile k at grid row k / cols and column k % cols. */
  method BuildTiles(w: int, h: int) returns (tiles: seq<Tile>)
    ensures |tiles| == TileCount(h) * TileCount(w)
    ensures forall k :: 0 <= k < |tiles| ==>
              tiles[k] == TileAt(w, h, k / TileCount(w), k % TileCount(w))
  {
    var cols := TileCount(w);
    tiles := [];
    var y, row := 0, 0;
    while y < h
      invariant 0 <= row <= TileCount(h) && y == TileSize * row
      invariant |tiles| == row * cols
      invariant forall k :: 0 <= k < |tiles| ==> tiles[k] == TileAt(w, h, k / cols, k % cols)
      decreases h - y
    {
      var x, col := 0, 0;
      while x < w
        invariant 0 <= col <= cols && x == TileSize * col
        invariant |tiles| == row * cols + col
        invariant forall k :: 0 <= k < |tiles| ==> tiles[k] == TileAt(w, h, k / cols, k % cols)
        decreases w - x
      {
        DivModOf(row, col, cols);
        tiles := tiles + [Tile(x, y, IntMin(TileSize, w - x), IntMin(TileSize, h - y))];
        x, col := x + TileSize, col + 1;
      }
      assert (row + 1) * cols == row * cols + cols;
      y, row := y + TileSize, row + 1;
    }
  }

  /** Every tile of the grid is a non-empty block of at most 16 x 16 pixels
      inside the image. */
  lemma TileInImage(w: int, h: int, row: int, col: int)
    requires 0 <= row < TileCount(h) && 0 <= col < TileCount(w)
    ensures var t := TileAt(w, h, row, col);
            && 1 <= t.width <= TileSize && 1 <= t.height <= TileSize
            && 0 <= t.xStart && t.xStart + t.width <= w
            && 0 <= t.yStart && t.yStart + t.height <= h
  {
  }

  /** Pixel (i, j) lies in the tile at grid row j / 16 and column i / 16,
      and in no other: the tiles partition the image. */
  lemma PixelInOneTile(w: int, h: int, i: int, j: int, row: int, col: int)
    requires 0 <= i < w && 0 <= j < h
    requires 0 <= row < TileCount(h) && 0 <= col < TileCount(w)
    ensures j / TileSize < TileCount(h) && i / TileSize < TileCount(w)
    ensures InTile(TileAt(w, h, row, col), i, j) <==> row == j / TileSize && col == i / TileSize
  {
  }

  // ---------------------------------------------------------------------
  // Filling the pixel buffer

  /** `pixels` holds shade(i, j) at index j * w + i for every pixel of a
      w by h image, and nothing else. */
  ghost predicate IsImage<T>(w: int, h: int, shade: (int, int) -> T, pixels: seq<T>) {
    && |pixels| == w * h
    && forall i, j :: 0 <= i < w && 0 <= j < h ==>
         0 <= PixelIndex(w, i, j) < |pixels| && pixels[PixelIndex(w, i, j)] == shade(i, j)
  }

  /** The tile number of the tile pixel (i, j) lies in. */
  function TileOf(w: int, i: int, j: int): int {
    (j / TileSize) * TileCount(w) + i / TileSize
  }

  /** In the order render writes pixels — tile by tile, within a tile row
      by row, within a row left to right — pixel (i', j') comes before
      position (i, j) of tile t. */
  predicate WrittenBefore(w: int, t: int, i: int, j: int, i': int, j': int) {
    || TileOf(w, i', j') < t
    || (TileOf(w, i', j') == t && (j' < j || (j' == j && i' < i)))
  }

  /** Every pixel written before position (i, j) of tile t holds its shade. */
  ghost predicate Filled<T>(w: int, h: int, shade: (int, int) -> T, pixels: seq<T>,
                            t: int, i: int, j: int) {
    && |pixels| == w * h
    && forall i', j' :: 0 <= i' < w && 0 <= j' < h && WrittenBefore(w, t, i, j, i', j') ==>
         0 <= PixelIndex(w, i', j') < |pixels| && pixels[PixelIndex(w, i', j')] == shade(i', j')
  }

  /** The render loop of src/camera.h: a buffer of w * h pixels, then every
      tile writes shade(i, j) at j * w + i for each of its pixels. The
      tiles run in parallel in the source; they write disjoint indices, so
      running them in list order gives the same buffer. */
  method RenderTiles<T>(w: int, h: int, shade: (int, int) -> T, blank: T)
    returns (pixels: seq<T>)
    requires 0 <= w && 0 <= h
    ensures IsImage(w, h, shade, pixels)
  {
    MulNonNegative(w, h);
    pixels := seq(w * h, _ => blank);
    var tiles := BuildTiles(w, h);
    var cols := TileCount(w);
    var t := 0;
    while t < |tiles|
      invariant 0 <= t <= |tiles|
      invariant Filled(w, h, shade, pixels, t, 0, 0)
    {
      var tile := tiles[t];
      var row, col := t / cols, t % cols;
      BufferIndexIsPixel(cols, TileCount(h), t);
      TileInImage(w, h, row, col);
      TileStart(w, h, shade, pixels, row, col);
      var j := tile.yStart;
      while j < tile.yStart + tile.height
        invariant tile.yStart <= j <= tile.yStart + tile.height
        invariant Filled(w, h, shade, pixels, t, tile.xStart, j)
      {
        var i := tile.xStart;
        while i < tile.xStart + tile.width
          invariant tile.xStart <= i <= tile.xStart + tile.width
          invariant Filled(w, h, shade, pixels, t, i, j)
        {
          PixelIndexInBuffer(w, h, i, j);
          TileOfIs(w, h, row, col);
          FillWrite(w, h, shade, pixels, t, i, j);
          pixels := pixels[PixelIndex(w, i, j) := shade(i, j)];
          i := i + 1;
        }
        RowEnd(w, h, shade, pixels, row, col, j);
        j := j + 1;
      }
      TileEnd(w, h, shade, pixels, row, col);
      t := t + 1;
    }
    forall i, j | 0 <= i < w && 0 <= j < h
      ensures 0 <= PixelIndex(w, i, j) < |pixels| && pixels[PixelIndex(w, i, j)] == shade(i, j)
    {
      PixelIndexInBuffer(w, h, i, j);
      TileOfBound(w, h, i, j);
    }
  }

  /** Writing the pixel at position (i, j) of its tile advances the filled
      region by one pixel. */
  lemma FillWrite<T>(w: int, h: int, shade: (int, int) -> T, pixels: seq<T>, t: int, i: int, j: int)
    requires 0 <= i < w && 0 <= j < h && TileOf(w, i, j) == t
    requires Filled(w, h, shade, pixels, t, i, j)
    ensures PixelIndex(w, i, j) < |pixels|
    ensures Filled(w, h, shade, pixels[PixelIndex(w, i, j) := shade(i, j)], t, i + 1, j)
  {
    PixelIndexInBuffer(w, h, i, j);
    WriteKeeps(w, h, i, j);
  }

  /** No pixel of a tile comes before its top-left corner. */
  lemma TileStart<T>(w: int, h: int, shade: (int, int) -> T, pixels: seq<T>, row: int, col: int)
    requires 0 <= row < TileCount(h) && 0 <= col < TileCount(w)
    requires Filled(w, h, shade, pixels, PixelIndex(TileCount(w), col, row), 0, 0)
    ensures var tile := TileAt(w, h, row, col);
            Filled(w, h, shade, pixels, PixelIndex(TileCount(w), col, row), tile.xStart, tile.yStart)
  {
    TileOfIs(w, h, row, col);
  }

  /** Finishing a row of a tile moves on to the start of its next row. */
  lemma RowEnd<T>(w: int, h: int, shade: (int, int) -> T, pixels: seq<T>, row: int, col: int, j: int)
    requires 0 <= row < TileCount(h) && 0 <= col < TileCount(w)
    requires var tile := TileAt(w, h, row, col);
             Filled(w, h, shade, pixels, PixelIndex(TileCount(w), col, row), tile.xStart + tile.width, j)
    ensures var tile := TileAt(w, h, row, col);
            Filled(w, h, shade, pixels, PixelIndex(TileCount(w), col, row), tile.xStart, j + 1)
  {
    TileOfIs(w, h, row, col);
  }

  /** Finishing the last row of a tile completes it. */
  lemma TileEnd<T>(w: int, h: int, shade: (int, int) -> T, pixels: seq<T>, row: int, col: int)
    requires 0 <= row < TileCount(h) && 0 <= col < TileCount(w)
    requires var tile := TileAt(w, h, row, col);
             Filled(w, h, shade, pixels, PixelIndex(TileCount(w), col, row), tile.xStart, tile.yStart + tile.height)
    ensures Filled(w, h, shade, pixels, PixelIndex(TileCount(w), col, row) + 1, 0, 0)
  {
    TileOfIs(w, h, row, col);
  }

  /** Within the image, the pixels of grid tile (row, col) are exactly those
      whose tile number is row * cols + col. */
  lemma TileOfIs(w: int, h: int, row: int, col: int)
    requires 0 <= row < TileCount(h) && 0 <= col < TileCount(w)
    ensures forall i, j :: 0 <= i < w && 0 <= j < h ==>
              (InTile(TileAt(w, h, row, col), i, j) <==> TileOf(w, i, j) == PixelIndex(TileCount(w), col, row))
  {
    forall i, j | 0 <= i < w && 0 <= j < h
      ensures InTile(TileAt(w, h, row, col), i, j) <==> TileOf(w, i, j) == PixelIndex(TileCount(w), col, row)
    {
      PixelInOneTile(w, h, i, j, row, col);
      if TileOf(w, i, j) == PixelIndex(TileCount(w), col, row) {
        PixelIndexInjective(TileCount(w), i / TileSize, j / TileSize, col, row);
      }
    }
  }

  /** Every pixel's tile number is the index of a tile of the list. */
  lemma TileOfBound(w: int, h: int, i: int, j: int)
    requires 0 <= i < w && 0 <= j < h
    ensures 0 <= TileOf(w, i, j) < TileCount(h) * TileCount(w)
  {
    PixelInOneTile(w, h, i, j, 0, 0);
    PixelIndexInBuffer(TileCount(w), TileCount(h), i / TileSize, j / TileSize);
  }

  /** Writing pixel (i, j) leaves every other pixel's slot alone. */
  lemma WriteKeeps(w: int, h: int, i: int, j: int)
    requires 0 <= i < w && 0 <= j < h
    ensures forall i', j' :: 0 <= i' < w && 0 <= j' < h && (i' != i || j' != j) ==>
              PixelIndex(w, i', j') != PixelIndex(w, i, j)
  {
    forall i', j' | 0 <= i' < w && 0 <= j' < h && PixelIndex(w, i', j') == PixelIndex(w, i, j)
      ensures i' == i && j' == j
    {
      PixelIndexInjective(w, i', j', i, j);
    }
  }

  /** The render loop of camera.h: rows top to bottom, each row left to
      right, every pixel appended to the buffer. */
  method RenderScanlines<T>(w: int, h: int, shade: (int, int) -> T) returns (pixels: seq<T>)
    requires 0 <= w && 0 <= h
    ensures IsImage(w, h, shade, pixels)
  {
    pixels := [];
    var j := 0;
    while j < h
      invariant 0 <= j <= h
      invariant |pixels| == j * w
      invariant forall k :: 0 <= k < |pixels| ==> pixels[k] == shade(k % w, k / w)
    {
      var i := 0;
      while i < w
        invariant 0 <= i <= w
        invariant |pixels| == j * w + i
        invariant forall k :: 0 <= k < |pixels| ==> pixels[k] == shade(k % w, k / w)
      {
        PixelIndexDecode(w, i, j);
        pixels := pixels + [shade(i, j)];
        i := i + 1;
      }
      assert (j + 1) * w == j * w + w;
      j := j + 1;
    }
    forall i, j | 0 <= i < w && 0 <= j < h
      ensures 0 <= PixelIndex(w, i, j) < |pixels| && pixels[PixelIndex(w, i, j)] == shade(i, j)
    {
      PixelIndexInBuffer(w, h, i, j);
      PixelIndexDecode(w, i, j);
    }
  }

  /** A w by h image is determined by its shading: so the tiled and the
      scanline render loops fill the same buffer. */
  lemma ImageUnique<T>(w: int, h: int, shade: (int, int) -> T, a: seq<T>, b: seq<T>)
    requires 0 <= w && 0 <= h
    requires IsImage(w, h, shade, a) && IsImage(w, h, shade, b)
    ensures a == b
  {
    forall k | 0 <= k < |a|
      ensures a[k] == b[k]
    {
      BufferIndexIsPixel(w, h, k);
    }
  }

  // ---------------------------------------------------------------------
  // Camera rays

  /** What initialize computes and get_ray reads: the camera centre, pixel
      (0, 0), the steps to the next pixel right and down, the defocus angle
      and the two defocus disk radii. */
  datatype View = View(center: Vec3, pixel00: Vec3, deltaU: Vec3, deltaV: Vec3,
                       defocusAngle: real, diskU: Vec3, diskV: Vec3)

  /** The point sampled for pixel (i, j) at the offset sample_square drew. */
  function PixelSample(view: View, i: int, j: int, offset: Vec3): Vec3 {
    Add(Add(view.pixel00, Scale(i as real + offset.x, view.deltaU)),
        Scale(j as real + offset.y, view.deltaV))
  }

  /** defocus_disk_sample for the point `disk` random_in_unit_disk drew. */
  function DiskSample(view: View, disk: Vec3): Vec3 {
    Add(Add(view.center, Scale(disk.x, view.diskU)), Scale(disk.y, view.diskV))
  }

  /** get_ray of src/camera.h: from the centre (no defocus) or a point of
      the defocus disk, through the pixel sample. */
  function GetRay(view: View, i: int, j: int, offset: Vec3, disk: Vec3): (r: Ray)
    ensures At(r, 1.0) == PixelSample(view, i, j, offset)
    ensures view.defocusAngle <= 0.0 ==> r.orig == view.center
    ensures 0.0 < view.defocusAngle ==>
              Sub(r.orig, view.center) == Add(Scale(disk.x, view.diskU), Scale(disk.y, view.diskV))
  {
    var sample := PixelSample(view, i, j, offset);
    var origin := if view.defocusAngle <= 0.0 then view.center else DiskSample(view, disk);
    Ray(origin, Sub(sample, origin))
  }

  /** get_ray of camera.h: always from the camera centre. */
  function PinholeRay(view: View, i: int, j: int, offset: Vec3): (r: Ray)
    ensures r.orig == view.center
    ensures At(r, 1.0) == PixelSample(view, i, j, offset)
  {
    Ray(view.center, Sub(PixelSample(view, i, j, offset), view.center))
  }

  /** Without defocus the two revisions shoot the same ray. */
  lemma PinholeIsZeroDefocus(view: View, i: int, j: int, offset: Vec3, disk: Vec3)
    requires view.defocusAngle <= 0.0
    ensures GetRay(view, i, j, offset, disk) == PinholeRay(view, i, j, offset)
  {
  }

  /** Neighbouring pixels' samples at the same offset are one pixel delta
      apart. */
  lemma PixelSampleSteps(view: View, i: int, j: int, offset: Vec3)
    ensures PixelSample(view, i + 1, j, offset) == Add(PixelSample(view, i, j, offset), view.deltaU)
    ensures PixelSample(view, i, j + 1, offset) == Add(PixelSample(view, i, j, offset), view.deltaV)
  {
    assert (i + 1) as real + offset.x == (i as real + offset.x) + 1.0;
    assert (j + 1) as real + offset.y == (j as real + offset.y) + 1.0;
    ScaleStep(i as real + offset.x, view.deltaU);
    ScaleStep(j as real + offset.y, view.deltaV);
  }

  lemma ScaleStep(a: real, v: Vec3)
    ensures Scale(a + 1.0, v) == Add(Scale(a, v), v)
  {
  }

  // ---------------------------------------------------------------------
  // Ray colour

  const Black := Zero

  /** The blue end of the sky gradient. */
  const SkyBlue := Vec3(0.5, 0.7, 1.0)

  /** Every dielectric in the world has an index scatter can divide by. */
  predicate MaterialsDefined(objs: seq<Sphere>) {
    forall k :: 0 <= k < |objs| && objs[k].mat.Dielectric? ==>
      objs[k].mat.refractionIndex != 0.0 && objs[k].mat.refractionIndex != -1.0
  }

  /** The worlds ray_color is modelled for: spheres of non-zero radius with
      well-defined materials. */
  predicate WorldDefined(world: Worlds.HittableList<Sphere>) {
    Worlds.NonDegenerate(world.objects) && MaterialsDefined(world.objects)
  }

  /** The parameter range ray_color passes to the world: (0.001, +inf). */
  const Shadow := Interval(Fin(0.001), PosInf)

  /** The sky gradient: white blended towards blue by the height of the
      unit direction. */
  function Sky(r: Ray, sqrt: real -> real): (c: Vec3)
    requires ExactSqrt(sqrt)
    requires r.dir != Zero
    ensures 0.5 <= c.x <= 1.0 && 0.7 <= c.y <= 1.0 && c.z == 1.0
    ensures exists a :: 0.0 <= a <= 1.0 && c == Add(Scale(1.0 - a, White), Scale(a, SkyBlue))
  {
    var unit := UnitVector(r.dir, sqrt);
    UnitComponent(unit);
    var a := 0.5 * (unit.y + 1.0);
    assert 0.0 <= a <= 1.0;
    Add(Scale(1.0 - a, White), Scale(a, SkyBlue))
  }

  /** A component of a unit vector lies in [-1, 1]. */
  lemma UnitComponent(u: Vec3)
    requires LengthSquared(u) == 1.0
    ensures -1.0 <= u.y <= 1.0
  {
    SquareNonNegative(u.x);
    SquareNonNegative(u.z);
    if 1.0 < u.y {
      SquareGrows(1.0, u.y);
    } else if u.y < -1.0 {
      SquareGrows(1.0, -u.y);
    }
  }

  lemma SquareGrows(a: real, b: real)
    requires 0.0 < a < b
    ensures a * a < b * b
  {
    SquareStrict(a, b);
  }

  /** What the hit record ray_color receives guarantees about scatter's
      preconditions. */
  lemma WorldHitScatters(world: Worlds.HittableList<Sphere>, r: Ray, env: Env)
    requires Valid(env)
    requires WorldDefined(world)
    requires r.dir != Zero
    requires Worlds.ListHit(world, r, Shadow, env.sqrt).Some?
    ensures var h := Worlds.ListHit(world, r, Shadow, env.sqrt).value;
            LengthSquared(h.rec.normal) == 1.0 && ScatterDefined(h.mat, r)
  {
    var k := Worlds.ListHitRecord(world, r, Shadow, env.sqrt);
  }

  /** ray_color: black once the bounce budget is spent; on a hit the
      attenuated colour of the scattered ray, or black if the material
      absorbs it; otherwise the sky. `draw(depth)` is what scatter draws at
      that depth. */
  function RayColor(r: Ray, depth: int, world: Worlds.HittableList<Sphere>, env: Env,
                    draw: int -> ScatterSample): (c: Vec3)
    requires Valid(env)
    requires WorldDefined(world)
    requires r.dir != Zero
    ensures depth <= 0 ==> c == Black
    ensures 0 < depth && Worlds.ListHit(world, r, Shadow, env.sqrt).None? ==> c == Sky(r, env.sqrt)
    decreases depth
  {
    if depth <= 0 then Black
    else match Worlds.ListHit(world, r, Shadow, env.sqrt)
      case None => Sky(r, env.sqrt)
      case Some(h) =>
        WorldHitScatters(world, r, env);
        var s := Scatter(h.mat, r, h.rec, env, draw(depth));
        if s.scattered then Mul(s.attenuation, RayColor(s.ray, depth - 1, world, env, draw))
        else Black
  }

  /** A colour whose three channels lie in [0, 1]. */
  predicate InUnitCube(c: Vec3) {
    0.0 <= c.x <= 1.0 && 0.0 <= c.y <= 1.0 && 0.0 <= c.z <= 1.0
  }

  /** Every Lambertian and metal albedo of the world is a colour in [0, 1]. */
  predicate AlbedosBounded(objs: seq<Sphere>) {
    forall k :: 0 <= k < |objs| && !objs[k].mat.Dielectric? ==> InUnitCube(objs[k].mat.albedo)
  }

  /** Attenuation never adds light: with albedos in [0, 1] every colour
      ray_color returns lies in [0, 1]. */
  lemma {:induction false} RayColorBounded(r: Ray, depth: int, world: Worlds.HittableList<Sphere>,
                                           env: Env, draw: int -> ScatterSample)
    requires Valid(env)
    requires WorldDefined(world)
    requires AlbedosBounded(world.objects)
    requires r.dir != Zero
    ensures InUnitCube(RayColor(r, depth, world, env, draw))
    decreases depth
  {
    if 0 < depth {
      var hit := Worlds.ListHit(world, r, Shadow, env.sqrt);
      if hit.Some? {
        var h := hit.value;
        var k := Worlds.ListHitRecord(world, r, Shadow, env.sqrt);
        WorldHitScatters(world, r, env);
        var s := Scatter(h.mat, r, h.rec, env, draw(depth));
        AttenuationBounded(h.mat, r, h.rec, env, draw(depth));
        if s.scattered {
          RayColorBounded(s.ray, depth - 1, world, env, draw);
          MulBounded(s.attenuation, RayColor(s.ray, depth - 1, world, env, draw));
        }
        RayColorHit(r, depth, world, env, draw);
        assert InUnitCube(s.attenuation);
        assert s.scattered ==> InUnitCube(RayColor(r, depth, world, env, draw));
      } else {
        assert RayColor(r, depth, world, env, draw) == Sky(r, env.sqrt);
      }
    }
  }

  /** ray_color on a hit, one level unfolded. */
  lemma RayColorHit(r: Ray, depth: int, world: Worlds.HittableList<Sphere>, env: Env,
                    draw: int -> ScatterSample)
    requires Valid(env)
    requires WorldDefined(world)
    requires r.dir != Zero
    requires 0 < depth
    requires Worlds.ListHit(world, r, Shadow, env.sqrt).Some?
    ensures var h := Worlds.ListHit(world, r, Shadow, env.sqrt).value;
            LengthSquared(h.rec.normal) == 1.0 && ScatterDefined(h.mat, r)
    ensures var h := Worlds.ListHit(world, r, Shadow, env.sqrt).value;
            var s := Scatter(h.mat, r, h.rec, env, draw(depth));
            && (s.scattered ==>
                  && s.ray.dir != Zero
                  && RayColor(r, depth, world, env, draw)
                     == Mul(s.attenuation, RayColor(s.ray, depth - 1, world, env, draw)))
            && (!s.scattered ==> RayColor(r, depth, world, env, draw) == Black)
  {
    WorldHitScatters(world, r, env);
  }

  /** The attenuation scatter reports is White or the material's albedo. */
  lemma AttenuationBounded(m: Material, rIn: Ray, rec: HitRecord, env: Env, sample: ScatterSample)
    requires Valid(env)
    requires ScatterDefined(m, rIn)
    requires m.Metal? ==> LengthSquared(rec.normal) == 1.0
    requires !m.Dielectric? ==> InUnitCube(m.albedo)
    ensures InUnitCube(Scatter(m, rIn, rec, env, sample).attenuation)
  {
  }

  lemma MulBounded(a: Vec3, b: Vec3)
    requires InUnitCube(a) && InUnitCube(b)
    ensures InUnitCube(Mul(a, b))
  {
    UnitProduct(a.x, b.x);
    UnitProduct(a.y, b.y);
    UnitProduct(a.z, b.z);
  }

  // ---------------------------------------------------------------------
  // One pixel

  /** What one sample of a pixel draws: the offset inside the pixel, the
      point of the unit disk and the draws of scatter at each depth. */
  datatype PixelDraw = PixelDraw(offset: Vec3, disk: Vec3, scatter: int -> ScatterSample)

  /** Every sample's ray has a direction unit_vector can normalise. */
  predicate RaysProper(view: View, i: int, j: int, draws: seq<PixelDraw>) {
    forall k :: 0 <= k < |draws| ==> GetRay(view, i, j, draws[k].offset, draws[k].disk).dir != Zero
  }

  /** pixel_color after the sample loop: the ray colours of the samples
      added up in drawing order. */
  function SampleSum(view: View, i: int, j: int, maxDepth: int, world: Worlds.HittableList<Sphere>,
                     env: Env, draws: seq<PixelDraw>): (c: Vec3)
    requires Valid(env)
    requires WorldDefined(world)
    requires RaysProper(view, i, j, draws)
    ensures |draws| == 0 ==> c == Black
    decreases |draws|
  {
    if |draws| == 0 then Black
    else
      var d := draws[|draws| - 1];
      Vectors.Add(SampleSum(view, i, j, maxDepth, world, env, draws[..|draws| - 1]),
                  RayColor(GetRay(view, i, j, d.offset, d.disk), maxDepth, world, env, d.scatter))
  }

  /** The pixel render stores: each channel is the gamma-2 byte of the
      scaled sum of the samples, and with pixel_samples_scale = 1 / n and
      albedos in [0, 1] that scaled sum is a colour of the unit cube. */
  function PixelColor(view: View, i: int, j: int, maxDepth: int, scale: real,
                      world: Worlds.HittableList<Sphere>, env: Env, draws: seq<PixelDraw>): (p: Pixel)
    requires Valid(env)
    requires WorldDefined(world)
    requires RaysProper(view, i, j, draws)
    ensures var c := ScaleRight(SampleSum(view, i, j, maxDepth, world, env, draws), scale);
            IsGammaByte(p.r as int, c.x) && IsGammaByte(p.g as int, c.y) && IsGammaByte(p.b as int, c.z)
    ensures AlbedosBounded(world.objects) && 0 < |draws| && scale == SampleScale(|draws|) ==>
              InUnitCube(ScaleRight(SampleSum(view, i, j, maxDepth, world, env, draws), scale))
  {
    var c := ScaleRight(SampleSum(view, i, j, maxDepth, world, env, draws), scale);
    if AlbedosBounded(world.objects) && 0 < |draws| && scale == SampleScale(|draws|) then
      AverageBounded(view, i, j, maxDepth, world, env, draws);
      ToPixel(c, env.sqrt)
    else
      ToPixel(c, env.sqrt)
  }

  /** Each channel of the sum of n ray colours lies in [0, n]. */
  lemma {:induction false} SampleSumBounded(view: View, i: int, j: int, maxDepth: int,
                                            world: Worlds.HittableList<Sphere>, env: Env, draws: seq<PixelDraw>)
    requires Valid(env)
    requires WorldDefined(world)
    requires AlbedosBounded(world.objects)
    requires RaysProper(view, i, j, draws)
    ensures var c := SampleSum(view, i, j, maxDepth, world, env, draws);
            var n := |draws| as real;
            0.0 <= c.x <= n && 0.0 <= c.y <= n && 0.0 <= c.z <= n
    decreases |draws|
  {
    if |draws| > 0 {
      var d := draws[|draws| - 1];
      SampleSumBounded(view, i, j, maxDepth, world, env, draws[..|draws| - 1]);
      RayColorBounded(GetRay(view, i, j, d.offset, d.disk), maxDepth, world, env, d.scatter);
    }
  }

  /** With pixel_samples_scale = 1 / samples_per_pixel the averaged colour
      lies in [0, 1], so to_pixel's clamp only trims [0.999, 1]. */
  lemma AverageBounded(view: View, i: int, j: int, maxDepth: int,
                       world: Worlds.HittableList<Sphere>, env: Env, draws: seq<PixelDraw>)
    requires Valid(env)
    requires WorldDefined(world)
    requires AlbedosBounded(world.objects)
    requires RaysProper(view, i, j, draws)
    requires 0 < |draws|
    ensures InUnitCube(ScaleRight(SampleSum(view, i, j, maxDepth, world, env, draws), SampleScale(|draws|)))
  {
    var c := SampleSum(view, i, j, maxDepth, world, env, draws);
    SampleSumBounded(view, i, j, maxDepth, world, env, draws);
    var n := |draws| as real;
    assert ScaleRight(c, SampleScale(|draws|)) == Scale(1.0 / n, c);
    ScaledIntoUnitCube(c, n);
  }

  lemma ScaledIntoUnitCube(c: Vec3, n: real)
    requires 0.0 < n
    requires 0.0 <= c.x <= n && 0.0 <= c.y <= n && 0.0 <= c.z <= n
    ensures InUnitCube(Scale(1.0 / n, c))
  {
    ScaleDown(c.x, n);
    ScaleDown(c.y, n);
    ScaleDown(c.z, n);
  }

  lemma ScaleDown(s: real, n: real)
    requires 0.0 < n && 0.0 <= s <= n
    ensures 0.0 <= (1.0 / n) * s <= 1.0
  {
    assert (1.0 / n) * s == s / n;
  }
}
