# Chroma-key video: the keying arithmetic

`ChromaKeyVideo` is a React component. It draws a video onto a WebGL canvas and makes
every pixel close to a key colour transparent. The component's logic is all
arithmetic, in three parts, and this project models and verifies each of them:

1. **`hexToRgb`** turns the `keyColor` prop (default `#00ff00`) into three channels
   in [0, 1].
   - It calls `parseInt(hex.slice(1), 16)`, modelled as ECMAScript defines it:
     leading whitespace, an optional sign, an optional `0x` prefix, then the
     longest run of hex digits. No digits gives NaN. A long run is rounded to the
     nearest double.
   - It takes the bytes with `>> 16`, `>> 8` and `& 255`. These are modelled through
     ToInt32's reduction modulo 2^32, an arithmetic shift, and the low eight bits.
   - Modules: `JsNumber` and `HexColor`. The lemmas in `KeyColorCases` work out what
     particular strings give.
2. **The chroma projection.** `RGBtoUV` maps a colour to the (U, V) chroma plane. The
   component applies the same coefficients twice: in JavaScript to the key colour
   (`keyColorUV`) and in the fragment shader to every texel. Module `Chroma`.
3. **The fragment shader's `main`.**
   - The chroma distance to the key, minus `threshold`, is the base mask.
   - Alpha is `pow(clamp(baseMask / transitionRange, 0, 1), 1.5)`.
   - The colour is multiplied by the same ramp taken with `suppressionRange`.
   - Module `Keying`. `ChromaKeyVideo` ties the props and their defaults to it.

GLSL's `distance` and `pow(x, 1.5)` need a square root. Each keying member takes the
square root as a parameter `sqrt` and requires it to be exact (`IsSqrt`).
`distance` is the square root of the squared distance. `pow(t, 1.5)` is
`t * sqrt(t)`. The facts the proofs use about these are proved from `IsSqrt`:
monotone, 0 to 0, 1 to 1, and results in [0, 1]. All arithmetic is on exact reals
and unbounded integers.

## Model

| member | source | states |
|---|---|---|
| `HexColor.HexDigitValue` | src/index.js:34 | the value of a hex digit, either case, is below 16 |
| `HexColor.TrimStartSpec` | src/index.js:34 | `parseInt` skips exactly the leading whitespace and line terminators: the result is a suffix, everything dropped is whitespace, and the first character kept is not |
| `HexColor.HexRunSpec` | src/index.js:34 | the digit run `parseInt` reads is all hex digits and stops at the first character that is not one |
| `HexColor.HexValue` | src/index.js:34 | a run of n hex digits has a value below 2^(4n) |
| `HexColor.HexValueAppend` | src/index.js:34 | appending digits b to digits a gives value(a) * 2^(4·len(b)) + value(b) |
| `HexColor.DigitsOf` | src/index.js:34 | the digits `parseInt` converts are all hex digits |
| `HexColor.ParseIntHexOfDigits` | src/index.js:34 | a non-empty run of hex digits of value below 2^53 parses to exactly that value |
| `HexColor.ParseIntHexStopsAtNonHex` | src/index.js:34 | text after the digits, starting with a non-hex character, does not change the result (except a `0` followed by `x`, which is read as a prefix) |
| `HexColor.ParseIntHexSkipsWhitespace` | src/index.js:34 | a leading whitespace character does not change the result |
| `HexColor.ParseIntHexSign` | src/index.js:34 | a leading `+` changes nothing and a leading `-` negates the result, provided the character after the sign is neither whitespace nor another sign (`"- 5"` and `"+-5"` give NaN) |
| `HexColor.ParseIntHexPrefix` | src/index.js:34 | a leading `0x` or `0X` is skipped, provided what follows is neither whitespace, a sign nor another `0x` or `0X` (`"0x 5"` and `"0x-1"` give NaN) |
| `HexColor.ParseIntHex` | src/index.js:34 | `parseInt(s, 16)` is NaN exactly when no hex digit stands after the whitespace, the sign and the prefix; its other properties are the `ParseIntHex…` lemmas below |
| `HexColor.ParseIntHexNoDigits` | src/index.js:34 | every string with no hex digit after the whitespace, sign and prefix gives NaN: `""`, `"0x"`, `"- 5"`, `"0x-1"` |
| `HexColor.KeyColorNumber` | src/index.js:34 | `parseInt(hex.slice(1), 16)` on UTF-16 code units; its properties are `FirstCharIgnored`, `AstralFirstCharIsBlack`, `KeyWithoutDigitsIsBlack`, `KeyBytesOfDigits` and `NonFiniteIsBlack` |
| `HexColor.KeyWithoutDigitsIsBlack` | src/index.js:34-38 | a key of at most one character, or one with no hex digit after the first character's whitespace, sign and prefix, is black |
| `JsNumber.RoundToMultiple` | src/index.js:34 | the result is a multiple of 2^k within half a unit (2^(k-1)) of the exact value, and on a tie its quotient by 2^k is even (round half to even) |
| `JsNumber.RoundToDouble` | src/index.js:34 | the Number value of an exact digit value; its properties are `RoundToDoubleExact`, `RoundToDoubleOnGrid`, `RoundToDoubleNearest` and `RoundToDoubleFirstInexact` |
| `JsNumber.RoundToDoubleOnGrid` | src/index.js:34 | a finite result for a value of n > 53 bits is a multiple of 2^(n-53): it keeps a 53-bit significand |
| `JsNumber.RoundToDoubleNearest` | src/index.js:34 | a finite result differs from the exact value m by at most m / 2^53 |
| `JsNumber.RoundToDoubleExact` | src/index.js:34 | an integer below 2^53 converts to a Number exactly |
| `JsNumber.RoundToDoubleFirstInexact` | src/index.js:34 | 2^53 + 1 is not a double and rounds to 2^53 (a tie, to the even significand) |
| `JsNumber.NegateInvolutive` | src/index.js:34 | negating twice gives back every Number: finite values, the infinities and NaN |
| `JsNumber.ToInt32` | src/index.js:35-37 | the 32-bit conversion lies in [-2^31, 2^31) and sends NaN and the infinities to 0 |
| `JsNumber.ToInt32Congruent` | src/index.js:35-37 | the 32-bit conversion of an integer differs from it by a multiple of 2^32 |
| `JsNumber.BitAnd255` | src/index.js:35-37 | `& 255` gives a value in 0..255 |
| `JsNumber.SignedShiftRight` | src/index.js:35-36 | `>>` on a 32-bit value; its property is `ShiftRightIsFloor` |
| `JsNumber.ShiftRightIsFloor` | src/index.js:35-36 | `x >> k` is the floor of x / 2^k, negative x included: q·2^k ≤ x < (q+1)·2^k |
| `JsNumber.LowBytesOfInt32` | src/index.js:35-37 | `(x >> 16) & 255`, `(x >> 8) & 255` and `x & 255` of the 32-bit image of v are bits 16-23, 8-15 and 0-7 of v |
| `HexColor.KeyBytes` | src/index.js:34-37 | every byte lies in 0..255 |
| `HexColor.KeyBytesOfNumber` | src/index.js:34-37 | a finite parse result v gives the bytes of v's low 24 bits |
| `HexColor.KeyBytesOfDigits` | src/index.js:34-37 | a first character inside the Basic Multilingual Plane followed by 1 to 13 hex digits gives the bytes of the digits' value (an astral first character gives black, `AstralFirstCharIsBlack`) |
| `HexColor.SixDigitPairs` | src/index.js:33-37 | for `#RRGGBB` (or any other first character inside the Basic Multilingual Plane) the bytes are the digit pairs 1-2, 3-4 and 5-6 |
| `HexColor.OnlyLowSixDigitsMatter` | src/index.js:34-37 | after a first character inside the Basic Multilingual Plane, with 6 to 13 digits, only the last six reach the bytes |
| `HexColor.LowSixDigitPairs` | src/index.js:34-37 | after a first character inside the Basic Multilingual Plane, with 6 to 13 digits, the bytes are the pairs among the last six |
| `HexColor.FirstCharIgnored` | src/index.js:34 | a first character inside the Basic Multilingual Plane is dropped without being looked at: any two such characters give the same bytes |
| `HexColor.NonFiniteIsBlack` | src/index.js:34-38 | a NaN or infinite parse result gives the bytes (0, 0, 0) and the colour black |
| `HexColor.AstralFirstCharIsBlack` | src/index.js:34 | a first character outside the Basic Multilingual Plane leaves half a surrogate pair in front, so the colour is black |
| `HexColor.Normalise` | src/index.js:38 | bytes divided by 255 lie in the unit cube |
| `HexColor.HexToRgb` | src/index.js:33-39 | every key colour string, valid or not, gives channels in [0, 1] |
| `KeyColorCases.DefaultKeyColorIsGreen` | src/index.js:3 | the default `#00ff00` gives the bytes (0, 255, 0) and the colour (0, 1, 0) |
| `KeyColorCases.ShorthandIsNotExpanded` | src/index.js:34-37 | CSS shorthand `#0f0` is the number 0x0f0: bytes (0, 0, 240), not green |
| `KeyColorCases.SevenDigitsKeepLowSix` | src/index.js:34-37 | `#1234567` gives the bytes (0x23, 0x45, 0x67) |
| `KeyColorCases.CssAlphaShiftsChannels` | src/index.js:34-37 | CSS `#00ff00ff` gives the bytes (255, 0, 255): magenta |
| `KeyColorCases.ColourNames` | src/index.js:34-38 | `green` is black, and `red` gives the bytes (0, 0, 237) |
| `KeyColorCases.EmptyKeyIsBlack` | src/index.js:34-38 | `""` and `"#"` are black |
| `KeyColorCases.MinusOneIsWhite` | src/index.js:34-37 | `#-000001` parses to -1, whose low 24 bits give white |
| `KeyColorCases.PrefixAndWhitespaceSkipped` | src/index.js:34 | `#0x00ff00` and `# 00ff00` have the same bytes as `#00ff00` |
| `KeyColorCases.TrailingTextIgnored` | src/index.js:34 | `#00ff00;` has the same bytes as `#00ff00` |
| `KeyColorCases.RoundingReachesTheKey` | src/index.js:34-37 | `#20000000000001` parses to 2^53 after rounding, so the key is black |
| `KeyColorCases.ExactValueEndsInOne` | src/index.js:34-37 | the exact value of the same digits would have given the bytes (0, 0, 1) |
| `Chroma.RgbToUv` | src/index.js:51-56 | `RGBtoUV`, the same coefficients as `keyColorUV` at lines 42-45; its properties are `UvIgnoresBrightness`, `GreyIsNeutral`, `UvOfUnitCube` and `UvExtremes` |
| `Chroma.UvIgnoresBrightness` | src/index.js:51-56 | adding one amount to all three channels leaves the chroma point unchanged |
| `Chroma.GreyIsNeutral` | src/index.js:51-56 | every grey projects to (0.5, 0.5) |
| `Chroma.UvOfUnitCube` | src/index.js:51-56 | colours of the unit cube project into the unit square |
| `Chroma.UvExtremes` | src/index.js:51-56 | the bounds of the unit square are reached by yellow, blue, cyan and red |
| `Chroma.SqDist` | src/index.js:60 | the squared distance is non-negative, and zero from a point to itself |
| `ChromaKeyVideo.KeyColorUv` | src/index.js:41-45 | the key colour's chroma point lies in the unit square for every string |
| `ChromaKeyVideo.FragmentParams` | src/index.js:57-65 | the key's chroma point, `threshold`, `transitionRange` and `suppressionRange` spliced into the shader; the key point lies in the unit square for every key string, and `DefaultFragmentParams` states the default values |
| `ChromaKeyVideo.DefaultFragmentParams` | src/index.js:3 | the defaults build the shader with key point (0.169, 0.081), threshold 0.4, transition range 0.08 and suppression range 0.1, both ranges positive |
| `ChromaKeyVideo.DefaultKeyColorUv` | src/index.js:3 | the default key's chroma point is (0.169, 0.081) |
| `ChromaKeyVideo.KeyColourRemoved` | src/index.js:41-66 | the JavaScript key projection and the shader's texel projection agree: the key colour, shifted by any brightness, comes out as transparent black when threshold ≥ 0 and both ranges are positive |
| `ChromaKeyVideo.RenderedPixel` | src/index.js:57-68 | the drawn alpha lies in [0, 1] |
| `ChromaKeyVideo.DefaultRemovesGreen` | src/index.js:3 | with the defaults, a green texel becomes (0, 0, 0, 0) |
| `ChromaKeyVideo.DefaultKeepsMagenta` | src/index.js:3 | with the defaults, a magenta texel is opaque and keeps its colour |
| `ChromaKeyVideo.MagentaFarFromGreen` | src/index.js:60 | magenta lies at chroma distance at least 0.5 from the default key |
| `Keying.SqrtUnique` | src/index.js:60 | two exact square roots agree |
| `Keying.SqrtMonotone` | src/index.js:60 | the square root is monotone |
| `Keying.SqrtOfSquare` | src/index.js:60 | the square root of y·y is y for y ≥ 0 |
| `Keying.Pow15` | src/index.js:62 | `pow(t, 1.5)` is never negative |
| `Keying.Pow15Squared` | src/index.js:62 | the square of `pow(t, 1.5)` is t³ |
| `Keying.Pow15Shape` | src/index.js:62 | `pow(t, 1.5)` fixes 0 and 1 and is monotone |
| `Keying.Clamp` | src/index.js:62 | the result lies in [lo, hi]: x inside, lo below, hi above |
| `Keying.ClampMonotone` | src/index.js:62 | `clamp` is monotone in x |
| `Keying.Ramp` | src/index.js:62 | `pow(clamp(baseMask / range, 0, 1), 1.5)` lies in [0, 1] |
| `Keying.RampShape` | src/index.js:62 | for a positive range the ramp is 0 for baseMask ≤ 0, 1 for baseMask ≥ range, and monotone |
| `Keying.ChromaDist` | src/index.js:60 | the chroma distance is non-negative |
| `Keying.ChromaDistMonotone` | src/index.js:60 | the distance grows with the squared distance |
| `Keying.Alpha` | src/index.js:61-62 | `fullMask` lies in [0, 1] |
| `Keying.Spill` | src/index.js:61-65 | `spillVal` lies in [0, 1] |
| `Keying.KeyPixel` | src/index.js:58-68 | the output alpha lies in [0, 1] |
| `Keying.TransparentWithinThreshold` | src/index.js:61-63 | alpha is 0 when the distance is at most the threshold |
| `Keying.OpaqueBeyondTransition` | src/index.js:61-63 | alpha is 1 when the distance is at least threshold + transitionRange |
| `Keying.AlphaMonotone` | src/index.js:60-63 | alpha never decreases as the chroma distance grows |
| `Keying.SpillMonotone` | src/index.js:60-65 | the spill factor never decreases as the chroma distance grows |
| `Keying.Shade` | src/index.js:63-66 | `rgba.a = fullMask; rgba.rgb *= spillVal`; its property is `ShadeKeepsHue` |
| `Keying.ShadeKeepsHue` | src/index.js:65 | scaling all three channels by one factor keeps every cross ratio of the channels: the hue is kept, only the brightness changes |
| `Keying.KeyPixelKeepsHue` | src/index.js:58-66 | the keyed pixel has the texel's hue for every texel and every parameter set |
| `Keying.ChannelsOnlyDarken` | src/index.js:65-66 | every non-negative channel stays non-negative and never grows |
| `Keying.BlackWithinThreshold` | src/index.js:61-66 | the colour is black when the distance is at most the threshold |
| `Keying.ColourKeptBeyondSuppression` | src/index.js:61-66 | the colour is unchanged when the distance is at least threshold + suppressionRange |
| `Keying.KeyColourKeyedOut` | src/index.js:58-68 | a texel at the key's chroma point becomes (0, 0, 0, 0) when threshold ≥ 0 and both ranges are positive |
| `Keying.KeyPixelDeterministic` | src/index.js:58-68 | the output depends only on the texel's colour and the parameters: not on its incoming alpha, nor on which exact square root is used |
| `Keying.KeyPixelOfColour` | src/index.js:59-68 | the incoming alpha plays no part |
| `Keying.RampsSqrtIndependent` | src/index.js:60-65 | alpha and spill are the same for any two exact square roots |

## Left out

- WebGL resource setup (src/index.js:73-146) is not modelled. It creates the shaders, program, buffers, texture, viewport and draw call, through a GPU API whose behaviour is not visible here.
- The frame loop and teardown (src/index.js:148-169) are not modelled. They are event-driven code around `requestVideoFrameCallback`, a `play` listener, and the deletes on cleanup.
- React hooks and JSX (src/index.js:4-11, 172-193) are not modelled. `width` and `height` are carried in `Props` but only size the DOM elements.
- The effect that builds the shader depends on `videoSrc` alone. A later change of `keyColor`, `threshold` or either range does not reach the shader until the video source changes. The model takes the props the shader was built with.
- The assembly of the shader's source text is not modelled, only the arithmetic the text encodes. One consequence goes unmodelled: an integer-valued prop (say `threshold = 1`) prints as `1`, which GLSL ES 1.00 rejects as an int in a float expression.
- Floating point is not modelled, in JavaScript or on the GPU. Channels, distances and ramps are exact reals, `pow` and `distance` are exact, and the shader's `highp` precision plays no part. No precision claim is made.
- Keying.KeyPixel: requires both ranges to be non-zero (`RangesNonZero`). A zero range prints as `0`, an int literal, so `baseMask / 0` divides a float by an int. GLSL ES 1.00 rejects that at compile time: the shader never compiles, no pixel is keyed, and no division by zero takes place. The model has no compile step, so it excludes these parameters.
- The same requirement applies to Keying.Alpha, Keying.Spill, Keying.Ramp and ChromaKeyVideo.RenderedPixel.
- The lemmas about the ramp's end points and monotonicity also need the range to be positive. A negative range inverts the ramp, and the model computes it but states nothing about it.
- JsNumber.Number: -0 is folded into +0. `parseInt` can return -0 (for `-0`), but the only operator applied to its result, ToInt32, maps both zeros to 0.
- Keying.ChromaDist: states only that the distance is non-negative. That it is the square root of the squared distance is its definition, and the property holds through `IsSqrt`.
- `keyColor` is taken to be a string. An `undefined` prop never reaches `hexToRgb`, because the parameter default `'#00ff00'` (src/index.js:3) replaces it. A value without a `slice` method (a number, `null`) makes the call throw. An array's `slice` succeeds, and `parseInt` then reads its comma-joined text (`['#', 'f', 'f']` gives `"f,f"`, which is 15). Neither of the last two paths is modelled.
- Strings are sequences of Unicode scalar values, not of UTF-16 code units, so a key holding an unpaired surrogate cannot be expressed. `KeyColorNumber` models only the surrogate pair of a well-formed astral first character. In JavaScript a lone low surrogate in front (`"\uDC00" + "00ff00"`) is dropped by `slice(1)` like any other first character, so that key is green.
- `parseInt` of 256 or more hex digits can reach Infinity (256 `f`s are 2^1024 - 1, which rounds up to 2^1024). The model computes this, but only the cases listed above are worked out.
- dist/index.cjs.js is not modelled separately. It is the bundled build of src/index.js and holds the same logic: `hexToRgb` at dist/index.cjs.js:43-49 and the shader at :53.
