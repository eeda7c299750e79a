/** The half-precision conversions of `src/libane/ane_f16.h`.

    Single-precision operations are IEEE 754-2008 with the default rounding: the exact result,
    rounded to nearest even.  Numbers are counted in units of 2^-149 (single precision) and
    2^-24 (half precision), the smallest subnormals of the two formats. */
module HalfFloat {
  import opened Words
  import opened Bits
  import opened Ieee

  const SIGN32: nat := 0x8000_0000
  const INF32: nat := 0x7F80_0000
  const QUIET_NAN32: nat := 0x7FC0_0000
  const SIGN16: nat := 0x8000
  const INF16: nat := 0x7C00
  const NAN16: nat := 0x7E00

  // ----- Reading the two formats -----

  predicate Negative32(w: u32) { w >= SIGN32 }
  function Abs32(w: u32): nat { if w >= SIGN32 then w - SIGN32 else w }
  predicate IsNan32(w: u32) { Abs32(w) > INF32 }

  predicate Negative16(h: u16) { h >= SIGN16 }
  function Abs16(h: u16): nat { if h >= SIGN16 then h - SIGN16 else h }
  predicate IsNan16(h: u16) { Abs16(h) > INF16 }

  /** The number `w` stands for, in units of 2^-149; an infinity stands at 2^128. */
  function Value32(w: u32): int {
    if Negative32(w) then 0 - Mag(23, Abs32(w)) else Mag(23, Abs32(w))
  }

  /** The number `h` stands for, in units of 2^-24; an infinity stands at 2^16. */
  function Value16(h: u16): int {
    if Negative16(h) then 0 - Mag(10, Abs16(h)) else Mag(10, Abs16(h))
  }

  function Negate32(w: u32): u32 { if Negative32(w) then w - SIGN32 else w + SIGN32 }
  function Negate16(h: u16): u16 { if Negative16(h) then h - SIGN16 else h + SIGN16 }

  // ----- Single-precision arithmetic -----

  function Sign32(negative: bool): nat { if negative then SIGN32 else 0 }

  /** Rounding into the format overflows to infinity. */
  function Round32(x: nat, d: nat): (m: nat)
    requires d > 0
    ensures m <= INF32
  {
    var m := Round(23, x, d);
    if m <= INF32 then m else INF32
  }

  /** The single-precision operations are correctly rounded; infinity stands at 2^128. */
  lemma Round32Nearest(x: nat, d: nat)
    requires d > 0
    ensures Nearest(23, INF32, x, d, Round32(x, d))
  {
    hide Round, Mag, Nearest, NearestUnbounded;
    RoundNearest(23, x, d);
    NearestCap(23, INF32, x, d, Round(23, x, d));
  }

  function FMul(a: u32, b: u32): u32 {
    var s, x, y := Sign32(Negative32(a) != Negative32(b)), Abs32(a), Abs32(b);
    if x > INF32 || y > INF32 then QUIET_NAN32
    else if x == INF32 || y == INF32 then (if x == 0 || y == 0 then QUIET_NAN32 else s + INF32)
    else s + Round32(Mag(23, x) * Mag(23, y), Pow2(149))
  }

  function FAdd(a: u32, b: u32): u32 {
    var x, y := Abs32(a), Abs32(b);
    if x > INF32 || y > INF32 then QUIET_NAN32
    else if x == INF32 then (if y == INF32 && Negative32(a) != Negative32(b) then QUIET_NAN32 else a)
    else if y == INF32 then b
    else
      var v := Value32(a) + Value32(b);
      if v == 0 then Sign32(Negative32(a) && Negative32(b))
      else Sign32(v < 0) + Round32(if v < 0 then -v else v, 1)
  }

  function FSub(a: u32, b: u32): u32 {
    FAdd(a, Negate32(b))
  }

  // ----- The conversions, as written -----

  const SCALE_TO_INF: u32 := 0x7780_0000   // 0x1.0p+112f
  const SCALE_TO_ZERO: u32 := 0x0880_0000  // 0x1.0p-110f
  const EXP_SCALE: u32 := 0x0780_0000      // 0x1.0p-112f
  const MAGIC_BIAS: u32 := 0x3F00_0000     // 0.5f

  /** `x + y` on `uint32_t`. */
  function Plus32(x: nat, y: nat): u32 {
    Powers();
    Low(x + y, 32)
  }

  /** `fabsf`. */
  function FAbs(w: u32): u32 {
    Abs32(w)
  }

  /** The argument, scaled so that everything from 2^16 up has become infinity. */
  function ScaledBase(w: u32): u32 {
    FMul(FMul(FAbs(w), SCALE_TO_INF), SCALE_TO_ZERO)
  }

  /** The power of two whose addition moves the rounding position to the half-precision one. */
  function BiasFloat(w: u32): u32 {
    var masked := And(Plus32(w, w), 0xFF00_0000);
    var bias := if masked < 0x7100_0000 then 0x7100_0000 else masked;
    Plus32(Shr(bias, 1), 0x0780_0000)
  }

  function F32ToF16(w: u32): u16 {
    Powers();
    var shl1_w := Plus32(w, w);
    var sign := And(w, 0x8000_0000);
    var bits := FAdd(BiasFloat(w), ScaledBase(w));
    var exp_bits := And(Shr(bits, 13), 0x7C00);
    var mantissa_bits := And(bits, 0x0FFF);
    var nonsign := exp_bits + mantissa_bits;
    Low(Or(Shr(sign, 16), if shl1_w > 0xFF00_0000 then 0x7E00 else nonsign), 16)
  }

  /** `two_w`: the half-precision word at the top of a 32-bit word, without its sign. */
  function TwoW(h: u16): u32 {
    Plus32(Shl(32, h, 16), Shl(32, h, 16))
  }

  function NormalizedValue(two_w: u32): u32 {
    FMul(Plus32(Shr(two_w, 4), Shl(32, 0xE0, 23)), EXP_SCALE)
  }

  function DenormalizedValue(two_w: u32): u32 {
    Powers();
    FSub(Low(Or(Shr(two_w, 17), Shl(32, 126, 23)), 32), MAGIC_BIAS)
  }

  function F16ToF32(h: u16): u32 {
    Powers();
    var sign := And(Shl(32, h, 16), 0x8000_0000);
    var two_w := TwoW(h);
    Low(Or(sign, if two_w < 0x800_0000 then DenormalizedValue(two_w) else NormalizedValue(two_w)), 32)
  }

  // ----- From single to half precision -----

  /** The fields that the conversion reads out of its argument. */
  lemma WordFields(w: u32)
    ensures Plus32(w, w) == 2 * Abs32(w)
    ensures And(w, 0x8000_0000) == Sign32(Negative32(w))
    ensures Shr(Abs32(w), 23) < 256
    ensures And(2 * Abs32(w), 0xFF00_0000) == Shr(Abs32(w), 23) * 0x100_0000
  {
    hide Pow2, And, Low;
    Powers();
    var a, s := Abs32(w), if Negative32(w) then 1 else 0;
    assert w == s * Pow2(31) + a && w + w == s * Pow2(32) + 2 * a;
    Join(s, 2 * a, 32);
    Join(s, a, 31);
    AndField(w, 31, 1);
    LowSmall(s, 1);
    ShrBound(a, 23, 8);
    AndField(2 * a, 24, 8);
    assert Shr(2 * a, 24) == Shr(a, 23);
    LowSmall(Shr(a, 23), 8);
    assert FieldMask(31, 1) == 0x8000_0000 && FieldMask(24, 8) == 0xFF00_0000;
  }

  /** The clamped exponent field of the argument. */
  function BiasExponent(a: nat): (e: nat)
    requires a < SIGN32
    ensures 113 <= e < 256
  {
    Powers();
    ShrBound(a, 23, 8);
    if Shr(a, 23) < 113 then 113 else Shr(a, 23)
  }

  lemma BiasFloatExact(w: u32)
    ensures BiasFloat(w) == (BiasExponent(Abs32(w)) + 15) * 0x80_0000
  {
    hide Pow2, And, Low;
    WordFields(w);
    Powers();
    var e := BiasExponent(Abs32(w));
    assert Shr(e * 0x100_0000, 1) == e * 0x80_0000;
    LowSmall((e + 15) * 0x80_0000, 32);
  }

  /** A pattern of the format overflows exactly when its number reaches 2^128. */
  lemma OverflowAt(m: nat)
    ensures m < INF32 <==> Mag(23, m) < Pow2(277)
  {
    hide Pow2, Mag;
    Powers();
    PowerPattern(23, 255);
    if m < INF32 {
      MagStrict(23, m, INF32);
    } else if m > INF32 {
      MagStrict(23, INF32, m);
    }
  }

  lemma FMulFinite(a: u32, b: u32)
    requires a < INF32 && b < INF32
    ensures FMul(a, b) == Round32(Mag(23, a) * Mag(23, b), Pow2(149))
  {
    hide Pow2, Mag, Round32;
  }

  lemma ScaledProduct(v: nat, i: nat, up: nat, k: nat, down: nat)
    requires i + up == k + down
    ensures Scale(v, i) * Pow2(up) == Scale(v, k) * Pow2(down)
  {
    ScaleIsProduct(Scale(v, i), up);
    ScaleIsProduct(Scale(v, k), down);
    ScaleScale(v, i, up);
    ScaleScale(v, k, down);
  }

  /** A number that fits the significand is stored unrounded unless it overflows. */
  lemma Round32Exact(x: nat, n: nat, j: nat, d: nat)
    requires d > 0 && n < Pow2(24) && x == Scale(n, j) * d
    ensures Scale(n, j) < Pow2(277) ==> Round32(x, d) < INF32 && Mag(23, Round32(x, d)) == Scale(n, j)
    ensures Scale(n, j) >= Pow2(277) ==> Round32(x, d) == INF32
  {
    RoundExact(23, n, j, d);
    OverflowAt(Round(23, x, d));
  }

  lemma ProductExact(a: u32, b: u32, n: nat, j: nat)
    requires a < INF32 && b < INF32 && n < Pow2(24)
    requires Mag(23, a) * Mag(23, b) == Scale(n, j) * Pow2(149)
    ensures Scale(n, j) < Pow2(277) ==> FMul(a, b) < INF32 && Mag(23, FMul(a, b)) == Scale(n, j)
    ensures Scale(n, j) >= Pow2(277) ==> FMul(a, b) == INF32
  {
    hide Pow2, Scale, Mag, Round32, FMul;
    var x: nat := Mag(23, a) * Mag(23, b);
    Round32Exact(x, n, j, Pow2(149));
    FMulFinite(a, b);
  }

  lemma ScalesArePowers()
    ensures Mag(23, SCALE_TO_INF) == Pow2(261) && Mag(23, SCALE_TO_ZERO) == Pow2(39)
    ensures Mag(23, EXP_SCALE) == Pow2(37)
  {
    hide Pow2, Mag;
    Powers();
    PowerPattern(23, 239);
    PowerPattern(23, 17);
    PowerPattern(23, 15);
  }

  /** Both scalings are exact below 2^16; from there on the first one overflows. */
  lemma ScaledBaseExact(w: u32)
    requires Abs32(w) < INF32
    ensures var v := Mag(23, Abs32(w));
      if v < Pow2(165) then ScaledBase(w) < INF32 && Mag(23, ScaledBase(w)) == 4 * v
      else ScaledBase(w) == INF32
  {
    hide Pow2, Mag, FMul;
    var a := Abs32(w);
    var v := Mag(23, a);
    var n, j := MagParts(23, a);
    ScaleUp(a, v, n, j);
    MultiplyInfinity(SCALE_TO_ZERO);
    if v < Pow2(165) {
      ScaleDown(FMul(a, SCALE_TO_INF), v, n, j);
    }
  }

  lemma ScaleUp(a: u32, v: nat, n: nat, j: nat)
    requires a < INF32 && n < Pow2(24) && v == Scale(n, j) == Mag(23, a)
    ensures v < Pow2(165) ==> FMul(a, SCALE_TO_INF) < INF32 && Mag(23, FMul(a, SCALE_TO_INF)) == Scale(v, 112)
    ensures v >= Pow2(165) ==> FMul(a, SCALE_TO_INF) == INF32
  {
    hide Pow2, Mag, FMul;
    ScalesArePowers();
    ScaleScale(n, j, 112);
    ScaledProduct(v, 0, 261, 112, 149);
    ProductExact(a, SCALE_TO_INF, n, j + 112);
    PowerThreshold(v, 165, 112);
  }

  lemma ScaleByFour(v: nat)
    ensures Scale(v, 2) == 4 * v
  {
    assert Scale(v, 1) == 2 * v;
  }

  lemma ScaleDownProduct(b: u32, v: nat)
    requires Mag(23, b) == Scale(v, 112)
    ensures Mag(23, b) * Mag(23, SCALE_TO_ZERO) == Scale(v, 2) * Pow2(149)
  {
    ScalesArePowers();
    ScaledProduct(v, 112, 39, 2, 149);
  }

  lemma ScaleDown(b: u32, v: nat, n: nat, j: nat)
    requires b < INF32 && n < Pow2(24) && v == Scale(n, j) < Pow2(165) && Mag(23, b) == Scale(v, 112)
    ensures FMul(b, SCALE_TO_ZERO) < INF32 && Mag(23, FMul(b, SCALE_TO_ZERO)) == 4 * v
  {
    hide Pow2, Mag, FMul, Scale;
    ScaleScale(n, j, 2);
    ScaleDownProduct(b, v);
    assert Scale(n, j + 2) < Pow2(277) by {
      PowerThreshold(v, 165, 2);
      Pow2Mono(167, 277);
    }
    ProductExact(b, SCALE_TO_ZERO, n, j + 2);
    ScaleByFour(v);
  }

  lemma PowerThreshold(v: nat, i: nat, j: nat)
    ensures v < Pow2(i) <==> Scale(v, j) < Pow2(i + j)
  {
    ScaleIsProduct(1, i);
    ScaleScale(1, i, j);
    ScaleIsProduct(1, i + j);
    if v < Pow2(i) {
      ScaleStrict(v, Pow2(i), j);
    } else if v > Pow2(i) {
      ScaleStrict(Pow2(i), v, j);
    }
  }

  lemma PatternBrackets(a: nat, e: nat)
    requires e * 0x80_0000 <= a < (e + 1) * 0x80_0000
    ensures Mag(23, a) < Pow2(e + 23) && (e > 0 ==> Pow2(e + 22) <= Mag(23, a))
  {
    Powers();
    PowerPattern(23, e + 1);
    MagStrict(23, a, (e + 1) * Pow2(23));
    if e > 0 {
      PowerPattern(23, e);
      if a > e * Pow2(23) {
        MagStrict(23, e * Pow2(23), a);
      }
    }
  }

  /** The clamped exponent brackets the number. */
  lemma ExponentBrackets(a: nat)
    requires a < INF32
    ensures var e := BiasExponent(a); Mag(23, a) < Pow2(e + 23) && (e > 113 ==> Pow2(e + 22) <= Mag(23, a))
    ensures BiasExponent(a) <= 142 <==> Mag(23, a) < Pow2(165)
  {
    hide Pow2, Mag;
    var e, k := BiasExponent(a), Shr(a, 23);
    assert k * 0x80_0000 <= a < (k + 1) * 0x80_0000 by {
      Powers();
      Split(a, 23);
    }
    PatternBrackets(a, k);
    Pow2Mono(k + 23, e + 23);
    if e <= 142 {
      Pow2Mono(e + 23, 165);
    } else {
      Pow2Mono(165, e + 22);
    }
  }

  /** The addition rounds at the half-precision position. */
  lemma AddRounds(bias: u32, e: nat, b: u32, v: nat)
    requires 113 <= e <= 142 && bias == (e + 15) * 0x80_0000
    requires b < INF32 && Mag(23, b) == 4 * v && v < Pow2(e + 23)
    ensures FAdd(bias, b) == (e + 15) * 0x80_0000 + RoundHalfEven(v, Pow2(e + 12))
    ensures RoundHalfEven(v, Pow2(e + 12)) <= 2048
  {
    hide Pow2, RoundHalfEven, Round, Mag;
    var x := Pow2(e + 37) + 4 * v;
    SumRounds(e, v);
    assert Mag(23, bias) == Pow2(e + 37) by {
      Powers();
      PowerPattern(23, e + 15);
    }
  }

  lemma SumRounds(e: nat, v: nat)
    requires 113 <= e <= 142 && v < Pow2(e + 23)
    ensures Round(23, Pow2(e + 37) + 4 * v, 1) == (e + 15) * 0x80_0000 + RoundHalfEven(v, Pow2(e + 12))
    ensures RoundHalfEven(v, Pow2(e + 12)) <= 2048
  {
    hide Pow2, Round, RoundHalfEven;
    Powers();
    Pow2Next(e + 12);
    Pow2Next(e + 23);
    Pow2Next(e + 37);
    var x, d := Pow2(e + 37) + 4 * v, Pow2(e + 14);
    Pow2Mono(e + 25, e + 37);
    RoundBinade(23, x, 1, e + 14);
    assert x == 4 * v + 0x80_0000 * d by { Pow2Add(23, e + 14); }
    RoundHalfEvenShift(4 * v, d, 0x80_0000, x);
    RoundHalfEvenDouble(2 * v, 2 * Pow2(e + 12));
    RoundHalfEvenDouble(v, Pow2(e + 12));
    Pow2Add(11, e + 12);
    RoundHalfEvenBounds(v, Pow2(e + 12), 0, 2048);
  }

  /** The half-precision rounding of a number, by its exponent. */
  lemma HalfRounds(e: nat, v: nat)
    requires 113 <= e && v < Pow2(e + 23) && (e > 113 ==> Pow2(e + 22) <= v)
    ensures Round(10, v, Pow2(125)) == (e - 113) * 0x400 + RoundHalfEven(v, Pow2(e + 12))
  {
    hide Pow2, Round, RoundHalfEven;
    var j := e - 113;
    Powers();
    Pow2Add(10 + j, 125);
    Pow2Add(11 + j, 125);
    Pow2Add(j, 125);
    RoundBinade(10, v, Pow2(125), j);
  }

  /** The exponent and mantissa that the conversion cuts out of the sum. */
  lemma Unpack(e: nat, r: nat)
    requires 113 <= e <= 142 && r <= 2048
    ensures var bits := (e + 15) * 0x80_0000 + r;
      And(Shr(bits, 13), 0x7C00) == (e - 113) * 0x400 && And(bits, 0x0FFF) == r
  {
    hide Pow2, And, Shr, Low;
    Powers();
    var bits := (e + 15) * 0x80_0000 + r;
    assert FieldMask(10, 5) == 0x7C00;
    AndField(Shr(bits, 13), 10, 5);
    ShrShr(bits, 13, 10);
    Join(e + 15, r, 23);
    Join(4, e - 113, 5);
    AndOnes(bits, 12);
    Join((e + 15) * 0x800, r, 12);
  }

  lemma UnpackInfinity()
    ensures And(Shr(INF32, 13), 0x7C00) == INF16 && And(INF32, 0x0FFF) == 0
  {
    hide Pow2, And, Shr, Low;
    Powers();
    assert FieldMask(10, 5) == 0x7C00;
    AndField(Shr(INF32, 13), 10, 5);
    ShrShr(INF32, 13, 10);
    Join(255, 0, 23);
    Join(7, 31, 5);
    AndOnes(INF32, 12);
    Join(255 * 0x800, 0, 12);
  }

  /** What the conversion is for: round to nearest even in the half-precision format. */
  function HalfMagnitude(a: nat): (m: nat)
    ensures m <= INF16
  {
    var m := Round(10, Mag(23, a), Pow2(125));
    if m <= INF16 then m else INF16
  }

  lemma HalfOverflows(a: nat)
    requires Mag(23, a) >= Pow2(165)
    ensures HalfMagnitude(a) == INF16
  {
    hide Round, Mag, Pow2;
    var v, d := Mag(23, a), Pow2(125);
    var m := Round(10, v, d);
    assert Mag(10, INF16) * d == Pow2(165) by {
      Powers();
      PowerPattern(10, 31);
      Pow2Add(40, 125);
    }
    RoundNearest(10, v, d);
    assert Beats(10, v, d, m, INF16);
    if m < INF16 {
      ScaledStrict(10, m, INF16, d);
    }
  }

  function Nonsign(bits: nat): nat {
    And(Shr(bits, 13), 0x7C00) + And(bits, 0x0FFF)
  }

  lemma NonsignIsRounding(w: u32)
    requires !IsNan32(w)
    ensures Nonsign(FAdd(BiasFloat(w), ScaledBase(w))) == HalfMagnitude(Abs32(w))
  {
    hide FAdd, BiasFloat, ScaledBase, Round, RoundHalfEven, Mag, And, Shr, Pow2;
    var a := Abs32(w);
    var e, v := BiasExponent(a), Mag(23, a);
    BiasFloatExact(w);
    if a < INF32 && v < Pow2(165) {
      ExponentBrackets(a);
      ScaledBaseExact(w);
      AddRounds(BiasFloat(w), e, ScaledBase(w), v);
      Unpack(e, RoundHalfEven(v, Pow2(e + 12)));
      HalfRounds(e, v);
    } else {
      InfiniteBase(w);
      HalfOverflows(a);
      UnpackInfinity();
    }
  }

  lemma AddInfinity(b: u32)
    requires !IsNan32(b) && b != SIGN32 + INF32
    ensures FAdd(b, INF32) == INF32
  {
  }

  lemma MultiplyInfinity(b: u32)
    requires 0 < b < INF32
    ensures FMul(INF32, b) == INF32
  {
  }

  lemma InfiniteBase(w: u32)
    requires !IsNan32(w) && (Abs32(w) == INF32 || Mag(23, Abs32(w)) >= Pow2(165))
    ensures FAdd(BiasFloat(w), ScaledBase(w)) == INF32
    ensures Mag(23, Abs32(w)) >= Pow2(165)
  {
    hide FAdd, FMul, BiasFloat, Pow2, Mag;
    BiasFloatExact(w);
    AddInfinity(BiasFloat(w));
    if Abs32(w) < INF32 {
      ScaledBaseExact(w);
    } else {
      MultiplyInfinity(SCALE_TO_INF);
      MultiplyInfinity(SCALE_TO_ZERO);
      OverflowAt(INF32);
      Pow2Mono(165, 277);
    }
  }

  lemma HalfSign(negative: bool, m: nat)
    requires m < SIGN16
    ensures Low(Or(Shr(Sign32(negative), 16), m), 16) == (if negative then SIGN16 else 0) + m
  {
    Powers();
    Join(if negative then 0x8000 else 0, 0, 16);
    OrLow(if negative then 1 else 0, m, 15);
    LowSmall((if negative then SIGN16 else 0) + m, 16);
  }

  /** The conversion keeps the sign and rounds the magnitude; a NaN becomes the quiet NaN. */
  lemma F32ToF16Is(w: u32)
    ensures F32ToF16(w) == (if Negative32(w) then SIGN16 else 0) +
                           (if IsNan32(w) then NAN16 else HalfMagnitude(Abs32(w)))
  {
    hide FAdd, FMul, BiasFloat, ScaledBase, And, Or, HalfMagnitude, Pow2, Shr, Low;
    WordFields(w);
    if IsNan32(w) {
      HalfSign(Negative32(w), NAN16);
    } else {
      NonsignIsRounding(w);
      HalfSign(Negative32(w), HalfMagnitude(Abs32(w)));
    }
  }

  // ----- The properties of the conversion -----

  /** The result is the half-precision number nearest to the argument, even on ties; the
      magnitude bits never exceed those of infinity, which stands at 2^16. */
  lemma F32ToF16Nearest(w: u32)
    requires !IsNan32(w)
    ensures var h := F32ToF16(w);
      (Negative16(h) <==> Negative32(w)) &&
      Nearest(10, INF16, Mag(23, Abs32(w)), Pow2(125), Abs16(h))
  {
    hide F32ToF16, Pow2, Mag, Round, Nearest, NearestUnbounded;
    F32ToF16Is(w);
    var v, d := Mag(23, Abs32(w)), Pow2(125);
    RoundNearest(10, v, d);
    NearestCap(10, INF16, v, d, Round(10, v, d));
  }

  /** Infinity stands at 65536, the largest finite half-precision number is 65504. */
  lemma LargestHalves()
    ensures Mag(10, INF16) * Pow2(125) == 65536 * Pow2(149)
    ensures Mag(10, INF16 - 1) * Pow2(125) == 65504 * Pow2(149)
  {
    hide Mag, Pow2;
    Powers();
    PowerPattern(10, 31);
    MagDecode(10, 30, 1023);
    Pow2Add(11, 29);
    Pow2Add(16, 24);
    Pow2Add(5, 24);
    Pow2Add(24, 125);
    MulAssoc(65536, Pow2(24), Pow2(125));
    MulAssoc(65504, Pow2(24), Pow2(125));
  }

  /** Infinity is returned exactly from 65520 up. */
  lemma F32ToF16Overflow(w: u32)
    requires !IsNan32(w)
    ensures Abs16(F32ToF16(w)) == INF16 <==> Mag(23, Abs32(w)) >= 65520 * Pow2(149)
  {
    hide F32ToF16, Mag, Pow2;
    F32ToF16Nearest(w);
    var v, d, m := Mag(23, Abs32(w)), Pow2(125), Abs16(F32ToF16(w));
    LargestHalves();
    if m == INF16 {
      assert Beats(10, v, d, m, INF16 - 1);
    } else {
      assert Beats(10, v, d, m, INF16);
      if m < INF16 - 1 {
        assert Beats(10, v, d, m, INF16 - 1);
        ScaledStrict(10, m, INF16 - 1, d);
      }
    }
  }

  /** Below 2^-14 the result is the nearest multiple of 2^-24. */
  lemma F32ToF16Subnormal(w: u32)
    requires Mag(23, Abs32(w)) < Pow2(135)
    ensures Abs16(F32ToF16(w)) == RoundHalfEven(Mag(23, Abs32(w)), Pow2(125)) <= 0x400
  {
    hide F32ToF16, RoundHalfEven, Mag;
    var v, d := Mag(23, Abs32(w)), Pow2(125);
    assert !IsNan32(w) by {
      if Abs32(w) > INF32 {
        OverflowAt(Abs32(w));
        Pow2Mono(135, 277);
      }
    }
    F32ToF16Is(w);
    Pow2Add(10, 125);
    RoundSubnormal(10, v, d);
    Powers();
  }

  lemma F32ToF16Nan(w: u32)
    requires IsNan32(w)
    ensures F32ToF16(w) == (if Negative32(w) then SIGN16 else 0) + NAN16
  {
    F32ToF16Is(w);
  }

  /** The conversion never reverses an order, infinities included. */
  lemma F32ToF16Monotone(w: u32, v: u32)
    requires !IsNan32(w) && !IsNan32(v) && Value32(w) <= Value32(v)
    ensures Value16(F32ToF16(w)) <= Value16(F32ToF16(v))
  {
    hide F32ToF16, Pow2;
    var x, y := Mag(23, Abs32(w)), Mag(23, Abs32(v));
    var m, n := Abs16(F32ToF16(w)), Abs16(F32ToF16(v));
    F32ToF16Nearest(w);
    F32ToF16Nearest(v);
    if x == 0 {
      NearestExact(10, INF16, Pow2(125), 0, m);
    }
    if y == 0 {
      NearestExact(10, INF16, Pow2(125), 0, n);
    }
    if x <= y {
      NearestMonotone(10, INF16, x, y, Pow2(125), m, n);
      if m < n { MagStrict(10, m, n); }
    }
    if y <= x {
      NearestMonotone(10, INF16, y, x, Pow2(125), n, m);
      if n < m { MagStrict(10, n, m); }
    }
  }

  lemma F32ToF16Negate(w: u32)
    ensures F32ToF16(Negate32(w)) == Negate16(F32ToF16(w))
  {
    hide F32ToF16, HalfMagnitude;
    F32ToF16Is(w);
    F32ToF16Is(Negate32(w));
  }

  // ----- From half to single precision -----

  lemma HalfFields(h: u16)
    ensures TwoW(h) == Abs16(h) * 0x2_0000
    ensures And(Shl(32, h, 16), 0x8000_0000) == Sign32(Negative16(h))
    ensures TwoW(h) < 0x800_0000 <==> Abs16(h) < 0x400
  {
    hide And, Low, Pow2;
    Powers();
    LowSmall(h * 0x1_0000, 32);
    WordFields(h * 0x1_0000);
  }

  lemma NormalizedInput(h: u16)
    ensures Plus32(Shr(TwoW(h), 4), Shl(32, 0xE0, 23)) == Abs16(h) * 0x2000 + 224 * 0x80_0000
  {
    hide Low, Pow2, Shr, TwoW;
    Powers();
    HalfFields(h);
    Join(Abs16(h) * 0x2000, 0, 4);
    LowSmall(224 * 0x80_0000, 32);
    LowSmall(Abs16(h) * 0x2000 + 224 * 0x80_0000, 32);
  }

  /** A normal half-precision number as a significand and a power of two, at both scales. */
  lemma NormalHalf(h: u16) returns (n: nat, j: nat)
    requires 0x400 <= Abs16(h)
    ensures n < Pow2(24) && Mag(10, Abs16(h)) * Pow2(125) == Scale(n, j)
    ensures Mag(23, Abs16(h) * 0x2000 + 224 * 0x80_0000) * Pow2(37) == Scale(n, j) * Pow2(149)
  {
    hide Mag, Pow2, Scale;
    Powers();
    var m := Abs16(h);
    var e, f := Shr(m, 10), Low(m, 10);
    Split(m, 10);
    assert e > 0;
    n, j := 0x400 + f, e + 124;
    MagDecode(10, e, f);
    MagDecode(23, e + 224, f * 0x2000);
    assert m * 0x2000 + 224 * 0x80_0000 == (e + 224) * Pow2(23) + f * 0x2000;
    NormalScales(n, e);
  }

  lemma NormalScales(n: nat, e: nat)
    requires e > 0
    ensures n * Pow2(e - 1) * Pow2(125) == Scale(n, e + 124)
    ensures n * 0x2000 * Pow2(e + 223) * Pow2(37) == Scale(n, e + 124) * Pow2(149)
  {
    hide Pow2;
    Powers();
    ScaleIsProduct(n, e - 1);
    ScaleIsProduct(Scale(n, e - 1), 125);
    ScaleScale(n, e - 1, 125);
    ScaleIsProduct(n, 13);
    ScaleIsProduct(Scale(n, 13), e + 223);
    ScaleScale(n, 13, e + 223);
    ScaledProduct(n, e + 236, 37, e + 124, 149);
  }

  lemma FiniteHalfBound(m: nat)
    requires m < INF16
    ensures Mag(10, m) * Pow2(125) < Pow2(277)
  {
    hide Mag, Pow2;
    Powers();
    PowerPattern(10, 31);
    ScaledStrict(10, m, INF16, Pow2(125));
    Pow2Add(40, 125);
    Pow2Mono(165, 277);
  }

  lemma NormalizedExact(h: u16)
    requires 0x400 <= Abs16(h)
    ensures var b := NormalizedValue(TwoW(h));
      if Abs16(h) < INF16 then b < INF32 && Mag(23, b) == Mag(10, Abs16(h)) * Pow2(125)
      else if Abs16(h) == INF16 then b == INF32
      else b == QUIET_NAN32
  {
    hide Mag, Pow2, FMul, TwoW, Plus32;
    var a: u32 := Abs16(h) * 0x2000 + 224 * 0x80_0000;
    NormalizedInput(h);
    if Abs16(h) < INF16 {
      var n, j := NormalHalf(h);
      assert Mag(23, EXP_SCALE) == Pow2(37) by { ScalesArePowers(); }
      FiniteHalfBound(Abs16(h));
      ProductExact(a, EXP_SCALE, n, j);
    } else if Abs16(h) == INF16 {
      MultiplyInfinity(EXP_SCALE);
    } else {
      MultiplyNan(a, EXP_SCALE);
    }
  }

  lemma MultiplyNan(a: u32, b: u32)
    requires IsNan32(a)
    ensures FMul(a, b) == QUIET_NAN32
  {
  }

  lemma DenormalizedInput(m: nat)
    requires m < 0x400
    ensures Low(Or(Shr(m * 0x2_0000, 17), Shl(32, 126, 23)), 32) == 126 * 0x80_0000 + m
  {
    hide Or, Shr, Low, Pow2;
    Powers();
    Join(m, 0, 17);
    LowSmall(126 * 0x80_0000, 32);
    OrComm(m, 126 * 0x80_0000);
    OrLow(126, m, 23);
    LowSmall(126 * 0x80_0000 + m, 32);
  }

  /** The magic number puts the subnormal under an exponent whose unit is the same. */
  lemma MagicNumber(m: nat)
    requires m < 0x80_0000
    ensures Mag(23, 126 * 0x80_0000 + m) == Mag(23, MAGIC_BIAS) + Scale(m, 125)
  {
    hide Mag, Pow2, Scale;
    Powers();
    MagDecode(23, 126, m);
    MagDecode(23, 126, 0);
    MulDistributes(Pow2(23), m, Pow2(125));
    ScaleIsProduct(m, 125);
  }

  lemma SubtractMagic(x: u32, m: nat)
    requires m < 0x400 && x == 126 * 0x80_0000 + m
    ensures FSub(x, MAGIC_BIAS) == if m == 0 then 0 else Round32(Scale(m, 125), 1)
  {
    hide Mag, Pow2, Scale, Round32;
    MagicNumber(m);
    if m == 0 {
      ScaleIsProduct(0, 125);
    } else {
      ScalePositive(m, 125);
    }
  }

  lemma {:induction false} ScalePositive(m: nat, j: nat)
    requires m > 0
    ensures Scale(m, j) > 0
  {
    if j > 0 {
      ScalePositive(m, j - 1);
    }
  }

  lemma DenormalizedExact(h: u16)
    requires Abs16(h) < 0x400
    ensures var b := DenormalizedValue(TwoW(h)); b < INF32 && Mag(23, b) == Mag(10, Abs16(h)) * Pow2(125)
  {
    hide Mag, Pow2, Scale, Round32, FSub, TwoW, Or, Shl, Shr, Low;
    var m := Abs16(h);
    HalfFields(h);
    DenormalizedInput(m);
    SubtractMagic(126 * 0x80_0000 + m, m);
    Powers();
    SubnormalMag(10, m);
    ScaleIsProduct(m, 125);
    FiniteHalfBound(m);
    Round32Exact(Scale(m, 125), m, 125, 1);
    if m == 0 {
      SubnormalMag(23, 0);
    }
  }

  lemma SubnormalMag(t: nat, m: nat)
    requires m < Pow2(t)
    ensures Mag(t, m) == m
  {
    Pow2Mono(t, t + 1);
  }

  lemma AttachSign(negative: bool, b: nat)
    requires b < SIGN32
    ensures Low(Or(Sign32(negative), b), 32) == Sign32(negative) + b
  {
    hide Or, Low, Pow2;
    Powers();
    OrLow(if negative then 1 else 0, b, 31);
    LowSmall(Sign32(negative) + b, 32);
  }

  /** Widening is exact: it keeps the sign and the number, infinities and the NaN class. */
  lemma F16ToF32Exact(h: u16)
    ensures var w := F16ToF32(h);
      (Negative32(w) <==> Negative16(h)) && (IsNan32(w) <==> IsNan16(h)) &&
      (Abs32(w) == INF32 <==> Abs16(h) == INF16) &&
      (Abs16(h) < INF16 ==> Mag(23, Abs32(w)) == Mag(10, Abs16(h)) * Pow2(125))
  {
    hide Mag, Pow2, Or, Low, Shl, And, TwoW, NormalizedValue, DenormalizedValue;
    HalfFields(h);
    if Abs16(h) < 0x400 {
      DenormalizedExact(h);
      AttachSign(Negative16(h), DenormalizedValue(TwoW(h)));
    } else {
      NormalizedExact(h);
      AttachSign(Negative16(h), NormalizedValue(TwoW(h)));
    }
  }

  /** Narrowing what was widened gives back the original bits; a NaN becomes the quiet NaN. */
  lemma RoundTrip(h: u16)
    ensures F32ToF16(F16ToF32(h)) == if IsNan16(h) then (if Negative16(h) then SIGN16 else 0) + NAN16 else h
  {
    hide Mag, Pow2, F16ToF32, F32ToF16, Nearest;
    var w := F16ToF32(h);
    F16ToF32Exact(h);
    if IsNan16(h) {
      F32ToF16Nan(w);
    } else {
      F32ToF16Nearest(w);
      if Abs16(h) < INF16 {
        NearestExact(10, INF16, Pow2(125), Abs16(h), Abs16(F32ToF16(w)));
      } else {
        InfinityStaysInfinity(w);
      }
    }
  }

  lemma InfinityStaysInfinity(w: u32)
    requires Abs32(w) == INF32
    ensures Abs16(F32ToF16(w)) == INF16
  {
    hide Mag, Pow2, F32ToF16;
    F32ToF16Is(w);
    OverflowAt(INF32);
    Pow2Mono(165, 277);
    HalfOverflows(INF32);
  }

  // ----- Rows -----

  /** What narrowing promises of one element: the nearest half-precision number with the same sign,
      even on ties, or the quiet NaN. */
  ghost predicate Narrowed(w: u32, h: u16) {
    (Negative16(h) <==> Negative32(w)) &&
    if IsNan32(w) then Abs16(h) == 0x7E00
    else Nearest(10, 0x7C00, Mag(23, Abs32(w)), Pow2(125), Abs16(h))
  }

  /** What widening promises: the same sign, class and number. */
  predicate Widened(h: u16, w: u32) {
    (Negative32(w) <==> Negative16(h)) && (IsNan32(w) <==> IsNan16(h)) &&
    (Abs32(w) == 0x7F80_0000 <==> Abs16(h) == 0x7C00) &&
    (Abs16(h) < 0x7C00 ==> Mag(23, Abs32(w)) == Mag(10, Abs16(h)) * Pow2(125))
  }

  lemma NarrowedIs(w: u32)
    ensures Narrowed(w, F32ToF16(w))
  {
    hide F32ToF16, Mag, Pow2, Nearest;
    if IsNan32(w) {
      F32ToF16Nan(w);
    } else {
      F32ToF16Nearest(w);
    }
  }

  lemma WidenedIs(h: u16)
    ensures Widened(h, F16ToF32(h))
  {
    hide F16ToF32, Mag, Pow2;
    F16ToF32Exact(h);
  }

  method F16ToF32Row(x: array<u16>, y: array<u32>, n: nat)
    requires n <= x.Length && n <= y.Length && x as object != y
    modifies y
    ensures forall i | 0 <= i < n :: y[i] == F16ToF32(x[i]) && Widened(x[i], y[i])
    ensures y[n..] == old(y[n..])
  {
    hide F16ToF32, Widened;
    for i := 0 to n
      invariant forall k | 0 <= k < i :: y[k] == F16ToF32(x[k]) && Widened(x[k], y[k])
      invariant y[n..] == old(y[n..])
    {
      WidenedIs(x[i]);
      y[i] := F16ToF32(x[i]);
    }
  }

  method F32ToF16Row(x: array<u32>, y: array<u16>, n: nat)
    requires n <= x.Length && n <= y.Length && x as object != y
    modifies y
    ensures forall i | 0 <= i < n :: y[i] == F32ToF16(x[i]) && Narrowed(x[i], y[i])
    ensures y[n..] == old(y[n..])
  {
    hide F32ToF16, Narrowed;
    for i := 0 to n
      invariant forall k | 0 <= k < i :: y[k] == F32ToF16(x[k]) && Narrowed(x[k], y[k])
      invariant y[n..] == old(y[n..])
    {
      NarrowedIs(x[i]);
      y[i] := F32ToF16(x[i]);
    }
  }

  /** There is only one way to narrow, */
  lemma NarrowedUnique(w: u32, g: u16, h: u16)
    requires Narrowed(w, g) && Narrowed(w, h)
    ensures g == h
  {
    hide Mag, Pow2, Nearest;
    if !IsNan32(w) {
      NearestUnique(10, 0x7C00, Mag(23, Abs32(w)), Pow2(125), Abs16(g), Abs16(h));
    }
  }

  /** and so whatever row of words has the values of a row without NaNs is narrowed to that row. */
  lemma RowRoundTrip(x: seq<u16>, y: seq<u32>, z: seq<u16>)
    requires |x| == |y| == |z| && forall i | 0 <= i < |x| :: !IsNan16(x[i])
    requires forall i | 0 <= i < |x| :: Widened(x[i], y[i])
    requires forall i | 0 <= i < |x| :: Narrowed(y[i], z[i])
    ensures z == x
  {
    hide Widened, Narrowed, F16ToF32, F32ToF16;
    forall i | 0 <= i < |x| ensures z[i] == x[i] {
      WidenedIs(x[i]);
      WidenedUnique(x[i], y[i], F16ToF32(x[i]));
      RoundTrip(x[i]);
      NarrowedIs(y[i]);
      NarrowedUnique(y[i], z[i], F32ToF16(y[i]));
    }
  }

  lemma WidenedUnique(h: u16, v: u32, w: u32)
    requires Widened(h, v) && Widened(h, w) && !IsNan16(h)
    ensures v == w
  {
    hide Mag, Pow2;
    if Abs16(h) < 0x7C00 {
      if Abs32(v) < Abs32(w) {
        MagStrict(23, Abs32(v), Abs32(w));
      } else if Abs32(w) < Abs32(v) {
        MagStrict(23, Abs32(w), Abs32(v));
      }
    }
  }
}
