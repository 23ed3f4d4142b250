/**
 * Colours and the chroma plane. `RgbToUv` is the linear map that the component
 * applies twice with the same coefficients: once in JavaScript to the key colour
 * (`keyColorUV`) and once per pixel in the fragment shader (`RGBtoUV`).
 */
module Chroma {

  /** A colour with normalised channels (1.0 is full intensity). */
  datatype Rgb = Rgb(r: real, g: real, b: real)

  /** A point of the chroma plane. */
  datatype Uv = Uv(u: real, v: real)

  predicate InUnitCube(c: Rgb) {
    0.0 <= c.r <= 1.0 && 0.0 <= c.g <= 1.0 && 0.0 <= c.b <= 1.0
  }

  /** U = -0.169 R - 0.331 G + 0.5 B + 0.5 and V = 0.5 R - 0.419 G - 0.081 B + 0.5. */
  function RgbToUv(c: Rgb): Uv {
    Uv(c.r * -0.169 + c.g * -0.331 + c.b * 0.5 + 0.5,
       c.r * 0.5 + c.g * -0.419 + c.b * -0.081 + 0.5)
  }

  /** The squared Euclidean distance between two chroma points: never negative, and
      zero from a point to itself. */
  function SqDist(p: Uv, q: Uv): (d: real)
    ensures 0.0 <= d
    ensures p == q ==> d == 0.0
  {
    (p.u - q.u) * (p.u - q.u) + (p.v - q.v) * (p.v - q.v)
  }

  /** Each row of coefficients sums to zero, so adding the same amount to all three
      channels (a change of brightness only) leaves the chroma point where it was. */
  lemma UvIgnoresBrightness(c: Rgb, k: real)
    ensures RgbToUv(Rgb(c.r + k, c.g + k, c.b + k)) == RgbToUv(c)
  {
  }

  /** Every grey, black and white included, projects to the centre of the plane. */
  lemma GreyIsNeutral(x: real)
    ensures RgbToUv(Rgb(x, x, x)) == Uv(0.5, 0.5)
  {
    UvIgnoresBrightness(Rgb(0.0, 0.0, 0.0), x);
  }

  /** Colours of the unit cube land in the unit square: U reaches 0 at yellow and 1 at
      blue, V reaches 0 at cyan and 1 at red. */
  lemma UvOfUnitCube(c: Rgb)
    requires InUnitCube(c)
    ensures 0.0 <= RgbToUv(c).u <= 1.0 && 0.0 <= RgbToUv(c).v <= 1.0
  {
  }

  /** The bounds of `UvOfUnitCube` are attained. */
  lemma UvExtremes()
    ensures RgbToUv(Rgb(1.0, 1.0, 0.0)).u == 0.0 && RgbToUv(Rgb(0.0, 0.0, 1.0)).u == 1.0
    ensures RgbToUv(Rgb(0.0, 1.0, 1.0)).v == 0.0 && RgbToUv(Rgb(1.0, 0.0, 0.0)).v == 1.0
  {
    assert RgbToUv(Rgb(1.0, 1.0, 0.0)).u == 0.0;
    assert RgbToUv(Rgb(0.0, 0.0, 1.0)).u == 1.0;
    assert RgbToUv(Rgb(0.0, 1.0, 1.0)).v == 0.0;
  }
}
