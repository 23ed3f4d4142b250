/**
 * The `ChromaKeyVideo` component as far as it decides what the fragment shader
 * computes: the props with their defaults, the key colour's chroma point
 * `keyColorUV`, and the constants spliced into the shader's source text.
 */
module ChromaKeyVideo {

  import opened Chroma
  import opened HexColor
  import opened Keying
  import opened KeyColorCases

  /** The props that reach the shader, and the surface size. `videoSrc`, `className`
      and `style` only reach the DOM. */
  datatype Props = Props(
    width: int,
    height: int,
    keyColor: string,
    threshold: real,
    suppressionRange: real,
    transitionRange: real)

  /** The defaults of the component's parameter list. */
  const DefaultProps := Props(1080, 1080, "#00ff00", 0.4, 0.1, 0.08)

  /** `keyColorUV`: the key colour's chroma point, computed once in JavaScript with the
      shader's own coefficients. Whatever the string, it lies in the unit square. */
  function KeyColorUv(keyColor: string): (uv: Uv)
    ensures 0.0 <= uv.u <= 1.0 && 0.0 <= uv.v <= 1.0
  {
    UvOfUnitCube(HexToRgb(keyColor));
    RgbToUv(HexToRgb(keyColor))
  }

  /** The constants the fragment shader is built with. The key point spliced into
      the shader lies in the unit square, whatever the key colour string. */
  function FragmentParams(props: Props): (p: KeyingParams)
    ensures 0.0 <= p.keyColorUv.u <= 1.0 && 0.0 <= p.keyColorUv.v <= 1.0
  {
    KeyingParams(KeyColorUv(props.keyColor), props.threshold, props.transitionRange, props.suppressionRange)
  }

  /** With the defaults the shader is built with the green key's chroma point, a
      threshold of 0.4, a transition range of 0.08 and a suppression range of 0.1: both
      ranges are positive, so both ramps are well defined and rise with the distance. */
  lemma DefaultFragmentParams()
    ensures FragmentParams(DefaultProps) == KeyingParams(Uv(0.169, 0.081), 0.4, 0.08, 0.1)
    ensures RangesNonZero(FragmentParams(DefaultProps))
    ensures 0.0 < FragmentParams(DefaultProps).transitionRange
    ensures 0.0 < FragmentParams(DefaultProps).suppressionRange
  {
    DefaultKeyColorUv(DefaultProps.keyColor);
  }

  /** The colour the component draws for one video texel. */
  function RenderedPixel(sqrt: real -> real, props: Props, texel: Rgba): (out: Rgba)
    requires IsSqrt(sqrt) && props.transitionRange != 0.0 && props.suppressionRange != 0.0
    ensures 0.0 <= out.a <= 1.0
  {
    KeyPixel(sqrt, FragmentParams(props), texel)
  }

  /** The default key colour's chroma point is (0.169, 0.081). */
  lemma DefaultKeyColorUv(keyColor: string)
    requires keyColor == DefaultProps.keyColor
    ensures KeyColorUv(keyColor) == Uv(0.169, 0.081)
  {
    DefaultKeyColorIsGreen(keyColor);
  }

  /** Every pixel whose colour is the key colour, or the key colour with the same
      amount k added to all three channels, comes out as transparent black whenever
      the threshold is not negative and both ranges are positive: the JavaScript
      projection of the key and the shader's projection of the pixel meet. */
  lemma KeyColourRemoved(sqrt: real -> real, props: Props, texel: Rgba, k: real)
    requires IsSqrt(sqrt) && 0.0 <= props.threshold
    requires 0.0 < props.transitionRange && 0.0 < props.suppressionRange
    requires var key := HexToRgb(props.keyColor);
      ColourOf(texel) == Rgb(key.r + k, key.g + k, key.b + k)
    ensures RenderedPixel(sqrt, props, texel) == Rgba(0.0, 0.0, 0.0, 0.0)
  {
    UvIgnoresBrightness(HexToRgb(props.keyColor), k);
    KeyColourKeyedOut(sqrt, FragmentParams(props), texel);
  }

  /** With the defaults, a pure green texel is removed entirely. */
  lemma DefaultRemovesGreen(sqrt: real -> real, texel: Rgba)
    requires IsSqrt(sqrt)
    requires texel.r == 0.0 && texel.g == 1.0 && texel.b == 0.0
    ensures RenderedPixel(sqrt, DefaultProps, texel) == Rgba(0.0, 0.0, 0.0, 0.0)
  {
    DefaultKeyColorIsGreen(DefaultProps.keyColor);
    KeyColourRemoved(sqrt, DefaultProps, texel, 0.0);
  }

  /** With the defaults, a magenta texel is kept: its chroma distance from green is
      about 1.07, beyond both threshold + transitionRange = 0.48 and
      threshold + suppressionRange = 0.5, so it is opaque and its colour unchanged. */
  lemma DefaultKeepsMagenta(sqrt: real -> real, texel: Rgba)
    requires IsSqrt(sqrt)
    requires texel.r == 1.0 && texel.g == 0.0 && texel.b == 1.0
    ensures RenderedPixel(sqrt, DefaultProps, texel).a == 1.0
    ensures ColourOf(RenderedPixel(sqrt, DefaultProps, texel)) == ColourOf(texel)
  {
    var p := FragmentParams(DefaultProps);
    DefaultKeyColorUv(DefaultProps.keyColor);
    MagentaFarFromGreen(sqrt, p, texel);
    OpaqueBeyondTransition(sqrt, p, texel);
    ColourKeptBeyondSuppression(sqrt, p, texel);
  }

  /** Magenta projects to (0.831, 0.919); its squared distance from (0.169, 0.081)
      is 1.140488, more than 0.5 * 0.5. */
  lemma MagentaFarFromGreen(sqrt: real -> real, p: KeyingParams, texel: Rgba)
    requires IsSqrt(sqrt) && p.keyColorUv == Uv(0.169, 0.081)
    requires texel.r == 1.0 && texel.g == 0.0 && texel.b == 1.0
    ensures 0.5 <= ChromaDist(sqrt, p, texel)
  {
    assert RgbToUv(ColourOf(texel)) == Uv(0.831, 0.919);
    assert SqChromaDist(p, texel) == 1.140488;
    SqrtOfSquare(sqrt, 0.5);
    SqrtMonotone(sqrt, 0.25, 1.140488);
  }
}
