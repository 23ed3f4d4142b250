/**
 * The fragment shader's per-pixel keying function. GLSL's `distance` and
 * `pow(x, 1.5)` are expressed through a square root that each member receives as a
 * parameter and requires to be exact (`IsSqrt`): distance is the square root of the
 * squared distance, and x^1.5 is x times the square root of x.
 */
module Keying {

  import opened Chroma
  import opened RealFacts

  /** The domain of the square root. */
  ghost predicate InSqrtDomain(x: real) {
    0.0 <= x
  }

  /** `sqrt` is the square root on the non-negative reals. The property is only
      instantiated through `SqrtOf`, which keeps products of square roots out of
      unrelated proofs. */
  ghost predicate IsSqrt(sqrt: real -> real) {
    forall x: real {:trigger InSqrtDomain(x)} :: InSqrtDomain(x) ==> 0.0 <= sqrt(x) && sqrt(x) * sqrt(x) == x
  }

  lemma SqrtOf(sqrt: real -> real, x: real)
    requires IsSqrt(sqrt) && 0.0 <= x
    ensures 0.0 <= sqrt(x) && sqrt(x) * sqrt(x) == x
  {
    assert InSqrtDomain(x);
  }

  /** Two exact square roots agree: nothing computed from one depends on which is given. */
  lemma SqrtUnique(sqrt1: real -> real, sqrt2: real -> real, x: real)
    requires IsSqrt(sqrt1) && IsSqrt(sqrt2) && 0.0 <= x
    ensures sqrt1(x) == sqrt2(x)
  {
    SqrtOf(sqrt1, x);
    SqrtOf(sqrt2, x);
    SquareInjective(sqrt1(x), sqrt2(x));
  }

  lemma SqrtMonotone(sqrt: real -> real, x: real, y: real)
    requires IsSqrt(sqrt) && 0.0 <= x <= y
    ensures sqrt(x) <= sqrt(y)
  {
    SqrtOf(sqrt, x);
    SqrtOf(sqrt, y);
    SquareOrder(sqrt(x), sqrt(y));
  }

  lemma SqrtOfZeroAndOne(sqrt: real -> real)
    requires IsSqrt(sqrt)
    ensures sqrt(0.0) == 0.0 && sqrt(1.0) == 1.0
  {
    SqrtOf(sqrt, 0.0);
    SqrtOf(sqrt, 1.0);
    SquareInjective(sqrt(0.0), 0.0);
    SquareInjective(sqrt(1.0), 1.0);
  }

  /** The square root of a perfect square y * y (y >= 0) is y. */
  lemma SqrtOfSquare(sqrt: real -> real, y: real)
    requires IsSqrt(sqrt) && 0.0 <= y
    ensures sqrt(y * y) == y
  {
    MulMonotone(0.0, y, y);
    SqrtOf(sqrt, y * y);
    SquareInjective(sqrt(y * y), y);
  }

  /** GLSL `pow(x, 1.5)` for x >= 0: the non-negative real whose square is x cubed. */
  function Pow15(sqrt: real -> real, x: real): (y: real)
    requires IsSqrt(sqrt) && 0.0 <= x
    ensures 0.0 <= y
  {
    SqrtOf(sqrt, x);
    MulMonotone(0.0, x, sqrt(x));
    x * sqrt(x)
  }

  /** x^1.5 is the non-negative real whose square is x cubed. */
  lemma Pow15Squared(sqrt: real -> real, x: real)
    requires IsSqrt(sqrt) && 0.0 <= x
    ensures Pow15(sqrt, x) * Pow15(sqrt, x) == x * x * x
  {
    SqrtOf(sqrt, x);
    var s := sqrt(x);
    assert (x * s) * (x * s) == x * x * (s * s);
  }

  /** x^1.5 keeps 0 and 1 fixed, grows with x, and so maps [0, 1] into [0, 1]. */
  lemma Pow15Shape(sqrt: real -> real, x: real, y: real)
    requires IsSqrt(sqrt) && 0.0 <= x <= y
    ensures Pow15(sqrt, 0.0) == 0.0 && Pow15(sqrt, 1.0) == 1.0
    ensures Pow15(sqrt, x) <= Pow15(sqrt, y)
  {
    SqrtOfZeroAndOne(sqrt);
    SqrtMonotone(sqrt, x, y);
    SqrtOf(sqrt, x);
    MulMonotone(x, y, sqrt(x));
    MulMonotone(sqrt(x), sqrt(y), y);
    assert sqrt(x) * y == y * sqrt(x);
  }

  /** GLSL `clamp(x, lo, hi)`, which is `min(max(x, lo), hi)`. */
  function Clamp(x: real, lo: real, hi: real): (r: real)
    requires lo <= hi
    ensures lo <= r <= hi
    ensures lo <= x <= hi ==> r == x
    ensures x <= lo ==> r == lo
    ensures hi <= x ==> r == hi
  {
    var atLeastLo := if x < lo then lo else x;
    if atLeastLo > hi then hi else atLeastLo
  }

  lemma ClampMonotone(x: real, y: real, lo: real, hi: real)
    requires lo <= hi && x <= y
    ensures Clamp(x, lo, hi) <= Clamp(y, lo, hi)
  {
  }

  lemma DivMonotone(a: real, b: real, c: real)
    requires a <= b && 0.0 < c
    ensures a / c <= b / c
  {
    assert b / c - a / c == (b - a) / c;
  }

  /** `pow(clamp(baseMask / range, 0., 1.), 1.5)`: the shader's ramp, used once with
      the transition range (alpha) and once with the suppression range (spill). */
  function Ramp(sqrt: real -> real, baseMask: real, range: real): (r: real)
    requires IsSqrt(sqrt) && range != 0.0
    ensures 0.0 <= r <= 1.0
  {
    var t := Clamp(baseMask / range, 0.0, 1.0);
    Pow15Shape(sqrt, t, 1.0);
    Pow15(sqrt, t)
  }

  /** With a positive range the ramp is 0 up to baseMask 0, 1 from baseMask = range on,
      and never decreases in between. */
  lemma RampShape(sqrt: real -> real, m1: real, m2: real, range: real)
    requires IsSqrt(sqrt) && 0.0 < range && m1 <= m2
    ensures m2 <= 0.0 ==> Ramp(sqrt, m2, range) == 0.0
    ensures range <= m1 ==> Ramp(sqrt, m1, range) == 1.0
    ensures Ramp(sqrt, m1, range) <= Ramp(sqrt, m2, range)
  {
    DivMonotone(m1, m2, range);
    if m2 <= 0.0 {
      DivMonotone(m2, 0.0, range);
    }
    if range <= m1 {
      DivMonotone(range, m1, range);
    }
    ClampMonotone(m1 / range, m2 / range, 0.0, 1.0);
    Pow15Shape(sqrt, Clamp(m1 / range, 0.0, 1.0), Clamp(m2 / range, 0.0, 1.0));
  }

  /** A texel as `texture2D` returns it, and the colour `gl_FragColor` receives. */
  datatype Rgba = Rgba(r: real, g: real, b: real, a: real)

  function ColourOf(texel: Rgba): Rgb {
    Rgb(texel.r, texel.g, texel.b)
  }

  /** The values baked into the fragment shader's source text. */
  datatype KeyingParams = KeyingParams(
    keyColorUv: Uv,
    threshold: real,
    transitionRange: real,
    suppressionRange: real)

  /** Both ranges are divisors in the shader. */
  predicate RangesNonZero(p: KeyingParams) {
    p.transitionRange != 0.0 && p.suppressionRange != 0.0
  }

  /** The squared chroma distance between a texel and the key colour. */
  function SqChromaDist(p: KeyingParams, texel: Rgba): real {
    SqDist(RgbToUv(ColourOf(texel)), p.keyColorUv)
  }

  /** `distance(RGBtoUV(rgba.rgb), keyColorUV)`. */
  function ChromaDist(sqrt: real -> real, p: KeyingParams, texel: Rgba): (d: real)
    requires IsSqrt(sqrt)
    ensures 0.0 <= d
  {
    SqrtOf(sqrt, SqChromaDist(p, texel));
    sqrt(SqChromaDist(p, texel))
  }

  /** `fullMask`, the output alpha. */
  function Alpha(sqrt: real -> real, p: KeyingParams, texel: Rgba): (a: real)
    requires IsSqrt(sqrt) && RangesNonZero(p)
    ensures 0.0 <= a <= 1.0
  {
    Ramp(sqrt, ChromaDist(sqrt, p, texel) - p.threshold, p.transitionRange)
  }

  /** `spillVal`, the factor all three colour channels are multiplied by. */
  function Spill(sqrt: real -> real, p: KeyingParams, texel: Rgba): (s: real)
    requires IsSqrt(sqrt) && RangesNonZero(p)
    ensures 0.0 <= s <= 1.0
  {
    Ramp(sqrt, ChromaDist(sqrt, p, texel) - p.threshold, p.suppressionRange)
  }

  /** `rgba.a = fullMask` and `rgba.rgb *= spillVal`. */
  function Shade(texel: Rgba, spill: real, alpha: real): Rgba {
    Rgba(texel.r * spill, texel.g * spill, texel.b * spill, alpha)
  }

  /** The fragment shader's `main`: alpha from the transition ramp, colour scaled by
      the spill ramp. */
  function KeyPixel(sqrt: real -> real, p: KeyingParams, texel: Rgba): (out: Rgba)
    requires IsSqrt(sqrt) && RangesNonZero(p)
    ensures 0.0 <= out.a <= 1.0
  {
    Shade(texel, Spill(sqrt, p, texel), Alpha(sqrt, p, texel))
  }

  /** A texel whose chroma distance is within the threshold is fully transparent. */
  lemma TransparentWithinThreshold(sqrt: real -> real, p: KeyingParams, texel: Rgba)
    requires IsSqrt(sqrt) && RangesNonZero(p) && 0.0 < p.transitionRange
    requires ChromaDist(sqrt, p, texel) <= p.threshold
    ensures KeyPixel(sqrt, p, texel).a == 0.0
  {
    var m := ChromaDist(sqrt, p, texel) - p.threshold;
    RampShape(sqrt, m, m, p.transitionRange);
  }

  /** A texel at least threshold + transitionRange away from the key colour is opaque. */
  lemma OpaqueBeyondTransition(sqrt: real -> real, p: KeyingParams, texel: Rgba)
    requires IsSqrt(sqrt) && RangesNonZero(p) && 0.0 < p.transitionRange
    requires p.threshold + p.transitionRange <= ChromaDist(sqrt, p, texel)
    ensures KeyPixel(sqrt, p, texel).a == 1.0
  {
    var m := ChromaDist(sqrt, p, texel) - p.threshold;
    RampShape(sqrt, m, m, p.transitionRange);
  }

  /** The chroma distance grows with the squared chroma distance. */
  lemma ChromaDistMonotone(sqrt: real -> real, p: KeyingParams, t1: Rgba, t2: Rgba)
    requires IsSqrt(sqrt) && SqChromaDist(p, t1) <= SqChromaDist(p, t2)
    ensures ChromaDist(sqrt, p, t1) <= ChromaDist(sqrt, p, t2)
  {
    SqrtMonotone(sqrt, SqChromaDist(p, t1), SqChromaDist(p, t2));
  }

  /** With the parameters fixed, alpha never decreases as the chroma distance grows. */
  lemma AlphaMonotone(sqrt: real -> real, p: KeyingParams, t1: Rgba, t2: Rgba)
    requires IsSqrt(sqrt) && RangesNonZero(p) && 0.0 < p.transitionRange
    requires SqChromaDist(p, t1) <= SqChromaDist(p, t2)
    ensures KeyPixel(sqrt, p, t1).a <= KeyPixel(sqrt, p, t2).a
  {
    ChromaDistMonotone(sqrt, p, t1, t2);
    RampShape(sqrt, ChromaDist(sqrt, p, t1) - p.threshold,
              ChromaDist(sqrt, p, t2) - p.threshold, p.transitionRange);
  }

  /** The same holds for the spill factor, with the suppression range. */
  lemma SpillMonotone(sqrt: real -> real, p: KeyingParams, t1: Rgba, t2: Rgba)
    requires IsSqrt(sqrt) && RangesNonZero(p) && 0.0 < p.suppressionRange
    requires SqChromaDist(p, t1) <= SqChromaDist(p, t2)
    ensures Spill(sqrt, p, t1) <= Spill(sqrt, p, t2)
  {
    ChromaDistMonotone(sqrt, p, t1, t2);
    RampShape(sqrt, ChromaDist(sqrt, p, t1) - p.threshold,
              ChromaDist(sqrt, p, t2) - p.threshold, p.suppressionRange);
  }

  /** The output's channels are the input's scaled by the spill factor; its alpha is
      the transition ramp. */
  lemma KeyPixelParts(sqrt: real -> real, p: KeyingParams, texel: Rgba, c: Rgb, s: real, a: real)
    requires IsSqrt(sqrt) && RangesNonZero(p)
    requires c == ColourOf(texel) && s == Spill(sqrt, p, texel) && a == Alpha(sqrt, p, texel)
    ensures KeyPixel(sqrt, p, texel) == Rgba(c.r * s, c.g * s, c.b * s, a)
  {
  }

  /** Scaling a non-negative channel by a factor in [0, 1]. */
  lemma ScaleDown(c: real, s: real, x: real)
    requires 0.0 <= c && 0.0 <= s <= 1.0 && x == c * s
    ensures 0.0 <= x <= c
  {
    MulMonotone(0.0, s, c);
    MulMonotone(s, 1.0, c);
    assert c * s == s * c;
  }

  lemma ScaledColour(texel: Rgba, s: real, out: Rgba)
    requires 0.0 <= texel.r && 0.0 <= texel.g && 0.0 <= texel.b && 0.0 <= s <= 1.0
    requires out.r == texel.r * s && out.g == texel.g * s && out.b == texel.b * s
    ensures 0.0 <= out.r <= texel.r && 0.0 <= out.g <= texel.g && 0.0 <= out.b <= texel.b
  {
    ScaleDown(texel.r, s, out.r);
    ScaleDown(texel.g, s, out.g);
    ScaleDown(texel.b, s, out.b);
  }

  /** All three channels are scaled by one factor in [0, 1]: a non-negative channel
      stays non-negative and never brightens. */
  lemma ChannelsOnlyDarken(sqrt: real -> real, p: KeyingParams, texel: Rgba)
    requires IsSqrt(sqrt) && RangesNonZero(p)
    requires 0.0 <= texel.r && 0.0 <= texel.g && 0.0 <= texel.b
    ensures 0.0 <= KeyPixel(sqrt, p, texel).r <= texel.r
    ensures 0.0 <= KeyPixel(sqrt, p, texel).g <= texel.g
    ensures 0.0 <= KeyPixel(sqrt, p, texel).b <= texel.b
  {
    KeyPixelParts(sqrt, p, texel, ColourOf(texel), Spill(sqrt, p, texel), Alpha(sqrt, p, texel));
    ScaledColour(texel, Spill(sqrt, p, texel), KeyPixel(sqrt, p, texel));
  }

  /** Every channel is scaled by the same factor, so the ratios between the channels
      (the hue) are those of the input: the pixel is darkened toward black, never
      shifted toward another colour. */
  lemma ShadeKeepsHue(texel: Rgba, spill: real, alpha: real)
    ensures var out := Shade(texel, spill, alpha);
      out.r * texel.g == out.g * texel.r &&
      out.g * texel.b == out.b * texel.g &&
      out.r * texel.b == out.b * texel.r
  {
    ScaledCross(texel.r, texel.g, spill);
    ScaledCross(texel.g, texel.b, spill);
    ScaledCross(texel.r, texel.b, spill);
  }

  /** The keyed pixel has the hue of the texel, whatever the parameters. */
  lemma KeyPixelKeepsHue(sqrt: real -> real, p: KeyingParams, texel: Rgba)
    requires IsSqrt(sqrt) && RangesNonZero(p)
    ensures var out := KeyPixel(sqrt, p, texel);
      out.r * texel.g == out.g * texel.r &&
      out.g * texel.b == out.b * texel.g &&
      out.r * texel.b == out.b * texel.r
  {
    ShadeKeepsHue(texel, Spill(sqrt, p, texel), Alpha(sqrt, p, texel));
  }

  /** Within the threshold the colour is suppressed to black. */
  lemma BlackWithinThreshold(sqrt: real -> real, p: KeyingParams, texel: Rgba)
    requires IsSqrt(sqrt) && RangesNonZero(p) && 0.0 < p.suppressionRange
    requires ChromaDist(sqrt, p, texel) <= p.threshold
    ensures var out := KeyPixel(sqrt, p, texel); out.r == 0.0 && out.g == 0.0 && out.b == 0.0
  {
    var m := ChromaDist(sqrt, p, texel) - p.threshold;
    RampShape(sqrt, m, m, p.suppressionRange);
  }

  /** From threshold + suppressionRange on the colour passes through unchanged. */
  lemma ColourKeptBeyondSuppression(sqrt: real -> real, p: KeyingParams, texel: Rgba)
    requires IsSqrt(sqrt) && RangesNonZero(p) && 0.0 < p.suppressionRange
    requires p.threshold + p.suppressionRange <= ChromaDist(sqrt, p, texel)
    ensures ColourOf(KeyPixel(sqrt, p, texel)) == ColourOf(texel)
  {
    var m := ChromaDist(sqrt, p, texel) - p.threshold;
    RampShape(sqrt, m, m, p.suppressionRange);
  }

  /** A texel on the key colour's chroma point (the key colour itself, or any colour
      differing from it only in brightness) comes out transparent black whenever the
      threshold is not negative. */
  lemma KeyColourKeyedOut(sqrt: real -> real, p: KeyingParams, texel: Rgba)
    requires IsSqrt(sqrt) && 0.0 < p.transitionRange && 0.0 < p.suppressionRange
    requires 0.0 <= p.threshold
    requires RgbToUv(ColourOf(texel)) == p.keyColorUv
    ensures KeyPixel(sqrt, p, texel) == Rgba(0.0, 0.0, 0.0, 0.0)
  {
    assert SqChromaDist(p, texel) == 0.0;
    SqrtOfZeroAndOne(sqrt);
    TransparentWithinThreshold(sqrt, p, texel);
    BlackWithinThreshold(sqrt, p, texel);
  }

  /** The output depends on the texel's colour and the parameters only: not on the
      incoming alpha, and not on which exact square root evaluates it. */
  lemma KeyPixelDeterministic(sqrt1: real -> real, sqrt2: real -> real, p: KeyingParams, t1: Rgba, t2: Rgba)
    requires IsSqrt(sqrt1) && IsSqrt(sqrt2) && RangesNonZero(p)
    requires ColourOf(t1) == ColourOf(t2)
    ensures KeyPixel(sqrt1, p, t1) == KeyPixel(sqrt2, p, t2)
  {
    KeyPixelOfColour(sqrt1, p, t1, t2);
    KeyPixelSqrtIndependent(sqrt1, sqrt2, p, t2);
  }

  lemma KeyPixelOfColour(sqrt: real -> real, p: KeyingParams, t1: Rgba, t2: Rgba)
    requires IsSqrt(sqrt) && RangesNonZero(p)
    requires ColourOf(t1) == ColourOf(t2)
    ensures KeyPixel(sqrt, p, t1) == KeyPixel(sqrt, p, t2)
  {
    assert SqChromaDist(p, t1) == SqChromaDist(p, t2);
    assert Shade(t1, Spill(sqrt, p, t1), Alpha(sqrt, p, t1)) == Shade(t2, Spill(sqrt, p, t2), Alpha(sqrt, p, t2));
  }

  lemma KeyPixelSqrtIndependent(sqrt1: real -> real, sqrt2: real -> real, p: KeyingParams, t: Rgba)
    requires IsSqrt(sqrt1) && IsSqrt(sqrt2) && RangesNonZero(p)
    ensures KeyPixel(sqrt1, p, t) == KeyPixel(sqrt2, p, t)
  {
    RampsSqrtIndependent(sqrt1, sqrt2, p, t);
  }

  lemma RampsSqrtIndependent(sqrt1: real -> real, sqrt2: real -> real, p: KeyingParams, t: Rgba)
    requires IsSqrt(sqrt1) && IsSqrt(sqrt2) && RangesNonZero(p)
    ensures Alpha(sqrt1, p, t) == Alpha(sqrt2, p, t)
    ensures Spill(sqrt1, p, t) == Spill(sqrt2, p, t)
  {
    ChromaDistDeterministic(sqrt1, sqrt2, p, t, t);
    var m := ChromaDist(sqrt1, p, t) - p.threshold;
    RampDeterministic(sqrt1, sqrt2, m, p.transitionRange);
    RampDeterministic(sqrt1, sqrt2, m, p.suppressionRange);
  }

  lemma ChromaDistDeterministic(sqrt1: real -> real, sqrt2: real -> real, p: KeyingParams, t1: Rgba, t2: Rgba)
    requires IsSqrt(sqrt1) && IsSqrt(sqrt2)
    requires ColourOf(t1) == ColourOf(t2)
    ensures ChromaDist(sqrt1, p, t1) == ChromaDist(sqrt2, p, t2)
  {
    var sq := SqChromaDist(p, t1);
    assert sq == SqChromaDist(p, t2);
    SqrtUnique(sqrt1, sqrt2, sq);
  }

  lemma RampDeterministic(sqrt1: real -> real, sqrt2: real -> real, baseMask: real, range: real)
    requires IsSqrt(sqrt1) && IsSqrt(sqrt2) && range != 0.0
    ensures Ramp(sqrt1, baseMask, range) == Ramp(sqrt2, baseMask, range)
  {
    SqrtUnique(sqrt1, sqrt2, Clamp(baseMask / range, 0.0, 1.0));
  }
}
