/** Colour to 8-bit pixel conversion: src/color.h (with gamma 2) and the
    earlier color.h (without). */
module Colors {
  import opened ExtReals
  import opened Vectors
  import opened Intervals

  /** std::uint8_t */
  newtype Byte = x: int | 0 <= x < 256

  datatype Pixel = Pixel(r: Byte, g: Byte, b: Byte)

  /** The static interval `intensity(0, 0.999)` of to_pixel. */
  const Intensity := Interval(Fin(0.0), Fin(0.999))

  /** linear_to_gamma: the square root of a positive component, 0 otherwise. */
  function LinearToGamma(x: real, sqrt: real -> real): (g: real)
    ensures x <= 0.0 ==> g == 0.0
    ensures ExactSqrt(sqrt) && 0.0 < x ==> 0.0 <= g && g * g == x
  {
    if x > 0.0 then sqrt(x) else 0.0
  }

  /** One channel: clamp to [0, 0.999], scale by 256 and truncate, as the
      cast to std::uint8_t does for the non-negative value it gets. */
  function ChannelByte(v: real): (b: int)
    ensures 0 <= b <= 255
    ensures v <= 0.0 ==> b == 0
    ensures 0.999 <= v ==> b == 255
    ensures 0.0 <= v <= 0.999 ==> b as real <= 256.0 * v < b as real + 1.0
  {
    var c := Clamp(Intensity, Fin(v));
    (256.0 * c.v).Floor
  }

  /** `b` is the byte the linear conversion assigns to x: 0 for x <= 0, 255
      from 0.999 on, and in between the b with `b <= 256 x < b + 1`. */
  predicate IsLinearByte(b: int, x: real) {
    && 0 <= b <= 255
    && (x <= 0.0 ==> b == 0)
    && (0.999 <= x ==> b == 255)
    && (0.0 <= x <= 0.999 ==> b as real <= 256.0 * x < b as real + 1.0)
  }

  /** `b` is the byte the gamma-2 conversion assigns to x: 0 for x <= 0, 255
      from 0.999^2 on, and in between the b with `b^2 <= 65536 x < (b+1)^2`,
      so that `b/256` is the square root of x rounded down to 1/256. */
  predicate IsGammaByte(b: int, x: real) {
    && 0 <= b <= 255
    && (x <= 0.0 ==> b == 0)
    && (0.999 * 0.999 <= x ==> b == 255)
    && (0.0 <= x <= 0.999 * 0.999 ==>
          b as real * b as real <= 65536.0 * x < (b as real + 1.0) * (b as real + 1.0))
  }

  /** to_pixel of src/color.h: gamma first, then the channel conversion. A
      component <= 0 gives 0 whatever `sqrt` is; with an exact square root
      each channel is the gamma byte of its own component. */
  function ToPixel(c: Vec3, sqrt: real -> real): (p: Pixel)
    ensures c.x <= 0.0 ==> p.r == 0
    ensures c.y <= 0.0 ==> p.g == 0
    ensures c.z <= 0.0 ==> p.b == 0
    ensures ExactSqrt(sqrt) ==>
              IsGammaByte(p.r as int, c.x) && IsGammaByte(p.g as int, c.y)
              && IsGammaByte(p.b as int, c.z)
  {
    GammaByte(c.x, sqrt);
    GammaByte(c.y, sqrt);
    GammaByte(c.z, sqrt);
    Pixel(ChannelByte(LinearToGamma(c.x, sqrt)) as Byte,
          ChannelByte(LinearToGamma(c.y, sqrt)) as Byte,
          ChannelByte(LinearToGamma(c.z, sqrt)) as Byte)
  }

  /** to_pixel of color.h: each channel is the linear byte of its own
      component. */
  function ToPixelLinear(c: Vec3): (p: Pixel)
    ensures IsLinearByte(p.r as int, c.x)
    ensures IsLinearByte(p.g as int, c.y)
    ensures IsLinearByte(p.b as int, c.z)
  {
    Pixel(ChannelByte(c.x) as Byte, ChannelByte(c.y) as Byte, ChannelByte(c.z) as Byte)
  }

  /** With an exact square root, gamma then the channel conversion gives
      the gamma byte. */
  lemma GammaByte(x: real, sqrt: real -> real)
    ensures ExactSqrt(sqrt) ==> IsGammaByte(ChannelByte(LinearToGamma(x, sqrt)), x)
  {
    if !ExactSqrt(sqrt) {
      return;
    }
    if 0.999 * 0.999 <= x {
      GammaSaturates(x, sqrt);
    } else if 0.0 < x {
      GammaBelowSaturation(x, sqrt);
    }
  }

  /** Below 0.999^2 the gamma value stays below 0.999, so the byte is the
      floor of `256 sqrt(x)`, squared into the bracket. */
  lemma GammaBelowSaturation(x: real, sqrt: real -> real)
    requires ExactSqrt(sqrt)
    requires 0.0 < x < 0.999 * 0.999
    ensures var b := ChannelByte(LinearToGamma(x, sqrt));
            b as real * b as real <= 65536.0 * x < (b as real + 1.0) * (b as real + 1.0)
  {
    var g := LinearToGamma(x, sqrt);
    if 0.999 <= g {
      SquareMonotone(0.999, g);
      assert false;
    }
    var b := ChannelByte(g);
    GammaBracket(b as real, g, x);
  }

  /** From `b <= 256 g < b + 1` with `g^2 = x` to the squared bracket. */
  lemma GammaBracket(b: real, g: real, x: real)
    requires 0.0 <= b && 0.0 <= g && g * g == x
    requires b <= 256.0 * g < b + 1.0
    ensures b * b <= 65536.0 * x < (b + 1.0) * (b + 1.0)
  {
    var s := 256.0 * g;
    assert s * s == 65536.0 * x;
    SquareMonotone(b, s);
    SquareStrict(s, b + 1.0);
  }

  lemma SquareMonotone(a: real, b: real)
    requires 0.0 <= a <= b
    ensures a * a <= b * b
  {
    if a < b {
      SquareStrict(a, b);
    }
  }

  /** The channel conversion keeps order. */
  lemma ChannelMonotone(u: real, v: real)
    requires u <= v
    ensures ChannelByte(u) <= ChannelByte(v)
  {
    ClampMonotone(Intensity, Fin(u), Fin(v));
    var cu, cv := Clamp(Intensity, Fin(u)).v, Clamp(Intensity, Fin(v)).v;
    assert 256.0 * cu <= 256.0 * cv;
    FloorMonotone(256.0 * cu, 256.0 * cv);
  }

  lemma FloorMonotone(x: real, y: real)
    requires x <= y
    ensures x.Floor <= y.Floor
  {
  }

  /** With an exact square root, gamma correction keeps order. */
  lemma GammaMonotone(x: real, y: real, sqrt: real -> real)
    requires ExactSqrt(sqrt)
    requires x <= y
    ensures LinearToGamma(x, sqrt) <= LinearToGamma(y, sqrt)
  {
    if 0.0 < x {
      var gx, gy := LinearToGamma(x, sqrt), LinearToGamma(y, sqrt);
      if gy < gx {
        SquareStrict(gy, gx);
      }
    }
  }

  /** Each channel of to_pixel depends on its own component only, and
      grows with it. */
  lemma ToPixelMonotone(c1: Vec3, c2: Vec3, sqrt: real -> real)
    requires ExactSqrt(sqrt)
    requires c1.x <= c2.x && c1.y <= c2.y && c1.z <= c2.z
    ensures ToPixel(c1, sqrt).r <= ToPixel(c2, sqrt).r
    ensures ToPixel(c1, sqrt).g <= ToPixel(c2, sqrt).g
    ensures ToPixel(c1, sqrt).b <= ToPixel(c2, sqrt).b
  {
    GammaMonotone(c1.x, c2.x, sqrt);
    GammaMonotone(c1.y, c2.y, sqrt);
    GammaMonotone(c1.z, c2.z, sqrt);
    ChannelMonotone(LinearToGamma(c1.x, sqrt), LinearToGamma(c2.x, sqrt));
    ChannelMonotone(LinearToGamma(c1.y, sqrt), LinearToGamma(c2.y, sqrt));
    ChannelMonotone(LinearToGamma(c1.z, sqrt), LinearToGamma(c2.z, sqrt));
  }

  /** The same for the linear to_pixel of color.h. */
  lemma ToPixelLinearMonotone(c1: Vec3, c2: Vec3)
    requires c1.x <= c2.x && c1.y <= c2.y && c1.z <= c2.z
    ensures ToPixelLinear(c1).r <= ToPixelLinear(c2).r
    ensures ToPixelLinear(c1).g <= ToPixelLinear(c2).g
    ensures ToPixelLinear(c1).b <= ToPixelLinear(c2).b
  {
    ChannelMonotone(c1.x, c2.x);
    ChannelMonotone(c1.y, c2.y);
    ChannelMonotone(c1.z, c2.z);
  }

  /** Black and anything darker maps to 0; a component whose gamma value
      reaches 0.999 maps to 255. */
  lemma ToPixelExtremes(c: Vec3, sqrt: real -> real)
    ensures c.x <= 0.0 ==> ToPixel(c, sqrt).r == 0
    ensures c.y <= 0.0 ==> ToPixel(c, sqrt).g == 0
    ensures c.z <= 0.0 ==> ToPixel(c, sqrt).b == 0
    ensures 0.999 <= LinearToGamma(c.x, sqrt) ==> ToPixel(c, sqrt).r == 255
    ensures 0.999 <= LinearToGamma(c.y, sqrt) ==> ToPixel(c, sqrt).g == 255
    ensures 0.999 <= LinearToGamma(c.z, sqrt) ==> ToPixel(c, sqrt).b == 255
  {
  }

  /** With an exact square root a component of at least 0.999^2 already
      saturates, since its gamma value is at least 0.999. */
  lemma GammaSaturates(x: real, sqrt: real -> real)
    requires ExactSqrt(sqrt)
    requires 0.999 * 0.999 <= x
    ensures ChannelByte(LinearToGamma(x, sqrt)) == 255
  {
    var g := LinearToGamma(x, sqrt);
    if g < 0.999 {
      SquareStrict(g, 0.999);
    }
  }
}
