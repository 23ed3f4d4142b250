/**
 * The parts of ECMAScript Number semantics that the key-colour parser relies on:
 * the Number a `parseInt` call can return, the rounding of an exact integer to the
 * nearest double, and the 32-bit conversions behind the `>>` and `&` operators.
 */
module JsNumber {

  /** A Number as `parseInt` can produce it: NaN, an infinity, or an integer value.
      The two zeros are both `Finite(0)`: every operator used on them (ToInt32) treats
      -0 and +0 alike. */
  datatype Number = NaN | Infinity(negative: bool) | Finite(value: int)

  function Pow2(k: nat): (r: nat)
    ensures r >= 1
  {
    if k == 0 then 1 else 2 * Pow2(k - 1)
  }

  lemma {:induction false} Pow2Monotone(a: nat, b: nat)
    requires a <= b
    ensures Pow2(a) <= Pow2(b)
  {
    if a < b {
      Pow2Monotone(a, b - 1);
    }
  }

  lemma {:induction false} Pow2Add(a: nat, b: nat)
    ensures Pow2(a + b) == Pow2(a) * Pow2(b)
  {
    if b > 0 {
      Pow2Add(a, b - 1);
    }
  }

  /** The powers of two the 32-bit operators and the double format are built on. */
  lemma Pow2Values()
    ensures Pow2(8) == 0x100 && Pow2(16) == 0x1_0000
  {
    assert Pow2(4) == 16;
    Pow2Add(4, 4);
    Pow2Add(8, 8);
  }

  lemma Pow2Of24()
    ensures Pow2(24) == 0x100_0000
  {
    Pow2Values();
    Pow2Add(16, 8);
  }

  /** 2^53, the first power of two past the significand of a double. */
  lemma Pow2Of53()
    ensures Pow2(53) == 0x20_0000_0000_0000
  {
    Pow2Values();
    Pow2Add(16, 16);
    Pow2Add(32, 16);
    assert Pow2(4) == 16 && Pow2(1) == 2;
    Pow2Add(48, 4);
    Pow2Add(52, 1);
  }

  /** Number of binary digits of m (0 for 0): m lies in [2^(n-1), 2^n). */
  function BitLength(m: nat): (n: nat)
    ensures m < Pow2(n)
    ensures n > 0 ==> Pow2(n - 1) <= m
    ensures m == 0 <==> n == 0
  {
    if m == 0 then 0 else 1 + BitLength(m / 2)
  }

  /** m rounded to a multiple of 2^k (k >= 1): the result is a multiple of 2^k at
      most half a unit away, hence the nearer one, and on a tie (exactly half a unit
      away) its quotient by 2^k is even. */
  function RoundToMultiple(m: nat, k: nat): (r: nat)
    requires k >= 1
    ensures r % Pow2(k) == 0
    ensures m - Pow2(k - 1) <= r <= m + Pow2(k - 1)
    ensures (r - m == Pow2(k - 1) || m - r == Pow2(k - 1)) ==> (r / Pow2(k)) % 2 == 0
  {
    var unit := Pow2(k);
    var half := Pow2(k - 1);
    var rem := m % unit;
    var below := m - rem;
    assert unit == 2 * half;
    MultiplesAround(m, unit);
    if rem > half || (rem == half && (m / unit) % 2 == 1) then below + unit else below
  }

  /** The multiples of unit just below (or at) m and just above it, with their
      quotients. */
  lemma MultiplesAround(m: nat, unit: int)
    requires 0 < unit
    ensures 0 <= m - m % unit
    ensures (m - m % unit) % unit == 0 && (m - m % unit) / unit == m / unit
    ensures (m - m % unit + unit) % unit == 0 && (m - m % unit + unit) / unit == m / unit + 1
  {
    var q := m / unit;
    assert m - m % unit == q * unit;
    assert 0 <= q;
    MulNonNegative(q, unit);
    DivOfMultiple(q, unit);
    DivOfMultiple(q + 1, unit);
    assert (q + 1) * unit == q * unit + unit;
  }

  lemma MulNonNegative(a: int, b: int)
    requires 0 <= a && 0 <= b
    ensures 0 <= a * b
  {
  }

  lemma DivOfMultiple(q: int, unit: int)
    requires 0 < unit
    ensures (q * unit) % unit == 0 && (q * unit) / unit == q
  {
    var x := q * unit;
    var d, r := x / unit, x % unit;
    assert x == d * unit + r;
    assert (q - d) * unit == r;
    if q - d > 0 {
      MulMonotoneInt(1, q - d, unit);
    } else if q - d < 0 {
      assert (d - q) * unit == -r;
      MulMonotoneInt(1, d - q, unit);
    }
  }

  lemma MulMonotoneInt(a: int, b: int, c: int)
    requires a <= b && 0 <= c
    ensures a * c <= b * c
  {
    assert b * c - a * c == (b - a) * c;
    MulNonNegative(b - a, c);
  }

  /** The Number value of a non-negative integer m: m itself while it fits in the 53-bit
      significand of a double; otherwise m rounded to 53 significant bits, ties to even,
      and +Infinity once the rounded value reaches 2^1024 (needs more than 1024 bits). */
  function RoundToDouble(m: nat): Number
  {
    if BitLength(m) <= 53 then Finite(m)
    else
      var rounded := RoundToMultiple(m, BitLength(m) - 53);
      if BitLength(rounded) > 1024 then Infinity(false) else Finite(rounded)
  }

  /** Past 53 bits a finite result is a multiple of the unit in the last place of m's
      53-bit significand: it has at most 53 significant bits below that unit. */
  lemma RoundToDoubleOnGrid(m: nat)
    ensures RoundToDouble(m).Finite? && 53 < BitLength(m) ==>
      RoundToDouble(m).value % Pow2(BitLength(m) - 53) == 0
  {
  }

  /** A finite result differs from m by at most m / 2^53: the relative error of the
      conversion is at most 2^-53. */
  lemma RoundToDoubleNearest(m: nat)
    ensures RoundToDouble(m).Finite? ==>
      m - m / Pow2(53) <= RoundToDouble(m).value <= m + m / Pow2(53)
  {
    var n := BitLength(m);
    if 53 < n {
      var k := n - 53;
      var r := RoundToMultiple(m, k);
      HalfUlpBound(m, k);
      assert RoundToDouble(m).Finite? ==> RoundToDouble(m).value == r;
    } else {
      DivLowerBound(m, 0, Pow2(53));
    }
  }

  /** Half a unit in the last place is at most m / 2^53. */
  lemma HalfUlpBound(m: nat, k: nat)
    requires 1 <= k && Pow2(k + 52) <= m
    ensures Pow2(k - 1) <= m / Pow2(53)
  {
    Pow2Add(k - 1, 53);
    DivLowerBound(m, Pow2(k - 1), Pow2(53));
  }

  lemma DivLowerBound(a: nat, b: nat, c: nat)
    requires 0 < c && b * c <= a
    ensures b <= a / c
  {
    var d := a / c;
    assert a == d * c + a % c;
    if d < b {
      assert (d + 1) * c == d * c + c;
      MulMonotoneInt(d + 1, b, c);
    }
  }

  /** Every integer below 2^53 is a double: the conversion is exact. */
  lemma RoundToDoubleExact(m: nat)
    requires m < Pow2(53)
    ensures RoundToDouble(m) == Finite(m)
  {
    if BitLength(m) > 53 {
      Pow2Monotone(53, BitLength(m) - 1);
      assert false;
    }
  }

  lemma BitLengthIs(m: nat, n: nat)
    requires 0 < n && Pow2(n - 1) <= m < Pow2(n)
    ensures BitLength(m) == n
  {
    var b := BitLength(m);
    if b < n {
      Pow2Monotone(b, n - 1);
    } else if b > n {
      Pow2Monotone(n, b - 1);
    }
  }

  lemma BitLengthAbove2To53(m: nat)
    requires 0x20_0000_0000_0000 <= m <= 0x20_0000_0000_0001
    ensures BitLength(m) == 54
  {
    Pow2Of53();
    BitLengthIs(m, 54);
  }

  lemma RoundTieAt2To53(m: nat)
    requires m == 0x20_0000_0000_0001
    ensures RoundToMultiple(m, 1) == m - 1
  {
    assert Pow2(1) == 2 && Pow2(0) == 1;
  }

  /** 2^53 + 1 is the least positive integer that is not a double: it rounds (a tie,
      to the even significand) down to 2^53. */
  lemma RoundToDoubleFirstInexact(m: nat)
    requires m == 0x20_0000_0000_0001
    ensures RoundToDouble(m) == Finite(m - 1)
  {
    BitLengthAbove2To53(m);
    BitLengthAbove2To53(m - 1);
    RoundTieAt2To53(m);
  }

  /** -x for the sign `parseInt` applies after converting the digits. */
  function Negate(n: Number): Number {
    match n
    case NaN => NaN
    case Infinity(neg) => Infinity(!neg)
    case Finite(v) => Finite(-v)
  }

  /** Applying the sign twice gives back the Number. */
  lemma NegateInvolutive(n: Number)
    ensures Negate(Negate(n)) == n
  {
  }

  /** ToInt32: NaN and the infinities become 0; an integer is reduced modulo 2^32 into
      the signed 32-bit range [-2^31, 2^31). */
  function ToInt32(n: Number): (x: int)
    ensures -0x8000_0000 <= x < 0x8000_0000
    ensures !n.Finite? ==> x == 0
  {
    match n
    case NaN => 0
    case Infinity(_) => 0
    case Finite(v) =>
      var w := v % 0x1_0000_0000;
      if w >= 0x8000_0000 then w - 0x1_0000_0000 else w
  }

  /** ToInt32 of an integer differs from it by a multiple of 2^32. */
  lemma ToInt32Congruent(v: int)
    ensures (ToInt32(Finite(v)) - v) % 0x1_0000_0000 == 0
  {
  }

  /** `x >> k` on a signed 32-bit integer: an arithmetic shift, i.e. division by 2^k
      rounded toward negative infinity (Dafny's `/` by a positive divisor). */
  function SignedShiftRight(x: int, k: nat): int
    requires k < 32
  {
    x / Pow2(k)
  }

  /** `x >> k` is the largest integer whose product with 2^k does not exceed x. */
  lemma ShiftRightIsFloor(x: int, k: nat)
    requires k < 32
    ensures SignedShiftRight(x, k) * Pow2(k) <= x < (SignedShiftRight(x, k) + 1) * Pow2(k)
  {
    var q, unit := SignedShiftRight(x, k), Pow2(k);
    assert x == q * unit + x % unit;
    assert (q + 1) * unit == q * unit + unit;
  }

  /** `x & 255` on a signed 32-bit integer: the low eight bits of its two's complement
      form, which are its non-negative remainder modulo 256. */
  function BitAnd255(x: int): (b: int)
    ensures 0 <= b <= 255
  {
    x % 256
  }

  /** Two integers that agree modulo 2^32 agree modulo 2^24. */
  lemma Mod24OfMod32(v: int, x: int)
    requires (x - v) % 0x1_0000_0000 == 0
    ensures x % 0x100_0000 == v % 0x100_0000
  {
    var j := (x - v) / 0x1_0000_0000;
    assert x == v + (j * 256) * 0x100_0000;
  }

  /** Bits 16..23 of x, read either way. */
  lemma ThirdByte(x: int)
    ensures (x / 0x1_0000) % 256 == (x % 0x100_0000) / 0x1_0000
  {
    var q, r := x / 0x100_0000, x % 0x100_0000;
    var a, b := r / 0x1_0000, r % 0x1_0000;
    assert x == (q * 256 + a) * 0x1_0000 + b;
  }

  /** Bits 8..15 of x, read either way. */
  lemma SecondByte(x: int)
    ensures (x / 0x100) % 256 == (x % 0x1_0000) / 0x100
  {
    var q, r := x / 0x1_0000, x % 0x1_0000;
    var a, b := r / 0x100, r % 0x100;
    assert x == (q * 256 + a) * 0x100 + b;
  }

  /** Reducing modulo 2^24 keeps the low 16 and the low 8 bits. */
  lemma LowerMods(x: int)
    ensures (x % 0x100_0000) % 0x1_0000 == x % 0x1_0000
    ensures (x % 0x100_0000) % 0x100 == x % 0x100
  {
    var q, r := x / 0x100_0000, x % 0x100_0000;
    assert x == (q * 256) * 0x1_0000 + r;
    assert x == (q * 0x1_0000) * 0x100 + r;
  }

  /** The three bytes `(x >> 16) & 255`, `(x >> 8) & 255` and `x & 255` of the ToInt32
      image of an integer v are the bytes of v mod 2^24: only its low 24 bits matter. */
  lemma LowBytesOfInt32(v: int)
    ensures BitAnd255(SignedShiftRight(ToInt32(Finite(v)), 16)) == (v % 0x100_0000) / 0x1_0000
    ensures BitAnd255(SignedShiftRight(ToInt32(Finite(v)), 8)) == (v % 0x1_0000) / 0x100
    ensures BitAnd255(ToInt32(Finite(v))) == v % 0x100
  {
    var x := ToInt32(Finite(v));
    ToInt32Congruent(v);
    Pow2Values();
    assert SignedShiftRight(x, 16) == x / 0x1_0000;
    assert SignedShiftRight(x, 8) == x / 0x100;
    Mod24OfMod32(v, x);
    ThirdByte(x);
    SecondByte(x);
    LowerMods(x);
    LowerMods(v);
  }

  /** Adding a multiple of 2^24 does not change the low 24 bits. */
  lemma ModOfShifted(x: int, y: int)
    requires 0 <= y < 0x100_0000
    ensures (x * 0x100_0000 + y) % 0x100_0000 == y
  {
  }

  /** Three bytes put side by side are read back by the byte extractions. */
  lemma BytesOfThree(a: int, b: int, c: int)
    requires 0 <= a < 0x100 && 0 <= b < 0x100 && 0 <= c < 0x100
    ensures var v := a * 0x1_0000 + b * 0x100 + c;
      && (v % 0x100_0000) / 0x1_0000 == a
      && (v % 0x1_0000) / 0x100 == b
      && v % 0x100 == c
  {
    var v := a * 0x1_0000 + b * 0x100 + c;
    assert v % 0x100_0000 == v;
    assert v % 0x1_0000 == b * 0x100 + c;
  }
}
