/** libraries/builtins: binary32, binary64 and binary128 to 128-bit integers. The six C functions
    differ only in the macros of fp32.h, fp64.h and fp128.h, which are a Format here. */
module FloatToInt {
  import opened Bits
  import opened Ieee
  import opened IntToDouble
  import opened Rounding

  // ---- the C code ----

  /** aRep & absMask. */
  function AbsRep(f: Format, x: nat): (r: nat) {
    BitAnd(x, Pow2(f.significandBits + f.exponentBits) - 1)
  }

  /** aRep & signBit. */
  function SignSet(f: Format, x: nat): (r: bool) {
    BitAnd(x, Pow2(f.significandBits + f.exponentBits)) != 0
  }

  /** The unbiased exponent. */
  function Exponent(f: Format, x: nat): (r: int) {
    Shr(AbsRep(f, x), f.significandBits) - f.Bias()
  }

  /** The significand with the implicit bit or-ed in. */
  function ImplicitSignificand(f: Format, x: nat): (r: nat) {
    BitOr(BitAnd(AbsRep(f, x), Pow2(f.significandBits) - 1), Pow2(f.significandBits))
  }

  /** The final shift, in unsigned __int128. */
  function ShiftedSignificand(f: Format, x: nat): (r: nat)
    requires 0 <= Exponent(f, x)
  {
    var e, sig := Exponent(f, x), ImplicitSignificand(f, x);
    if e < f.significandBits then Shr(sig, f.significandBits - e)
    else Shl(sig, e - f.significandBits, 128)
  }

  /** ___fixunssfti, ___fixunsdfti, ___fixunstfti. */
  function FixUnsigned(f: Format, x: nat): (r: nat) {
    var e := Exponent(f, x);
    if SignSet(f, x) || e < 0 then 0
    else if e >= 128 then TWO_128 - 1
    else ShiftedSignificand(f, x)
  }

  /** The value of a 128-bit word read as __int128, and the wrap-around of its arithmetic. */
  function Wrap(i: int): (r: int) {
    var w := i % TWO_128;
    if w < TWO_127 then w else w - TWO_128
  }

  /** ___fixsfti, ___fixdfti, ___fixtfti. */
  function FixSigned(f: Format, x: nat): (r: int) {
    var e, sign := Exponent(f, x), if SignSet(f, x) then -1 else 1;
    if e < 0 then 0
    else if e >= 128 then if sign == 1 then TWO_127 - 1 else -(TWO_127 as int)
    else Wrap(sign * Wrap(ShiftedSignificand(f, x)))
  }

  // ---- meaning ----

  /** Rounding toward zero, section 5.8 of IEEE 754-2008. */
  ghost function Truncate(v: real): (r: int) {
    if v >= 0.0 then v.Floor else -((-v).Floor)
  }

  ghost function Clamp(i: int, lo: int, hi: int): (r: int) {
    if i < lo then lo else if i > hi then hi else i
  }

  lemma MasksAreFields(f: Format, x: nat)
    ensures SignSet(f, x) == f.Negative(x)
    ensures Exponent(f, x) == f.ExponentField(x) - f.Bias()
    ensures ImplicitSignificand(f, x) == Pow2(f.significandBits) + f.Fraction(x)
  {
    hide Pow2, Shr, Low, BitAnd, BitOr;
    var p, w := f.significandBits, f.exponentBits;
    AndMask(x, p + w);
    AndBit(x, p + w);
    LowSplit(x, p, w);
    LowBound(x, p);
    SplitOf(f.ExponentField(x), p, f.Fraction(x));
    AndMask(AbsRep(f, x), p);
    OrDisjoint(1, p, f.Fraction(x));
    OrCommutes(f.Fraction(x), Pow2(p));
  }

  lemma BiasPositive(f: Format)
    requires f.WellFormed()
    ensures f.Bias() >= 127 && f.MaxExponent() == 2 * f.Bias() + 1
  {
    hide Pow2;
    Pow2Succ(f.exponentBits - 1);
    Pow2Mono(7, f.exponentBits - 1);
    Pow2Of6();
    Pow2Succ(6);
  }

  lemma BelowOne(f: Format, x: nat)
    requires f.WellFormed() && f.ExponentField(x) < f.Bias()
    ensures 0.0 <= f.AbsValue(x) < 1.0
  {
    hide Pow2, Shr, Low, RPow2, Format.ExponentField, Format.Bias;
    AbsValueNonNegative(f, x);
    BiasPositive(f);
    var p := f.significandBits;
    LowBound(x, p);
    RPow2Zero();
    if f.ExponentField(x) == 0 {
      RPow2OfNat(p);
      ScaledBelow(f.Fraction(x), p, f.Scale(x));
      RPow2Mono(f.Scale(x) + p, 0);
    } else {
      Pow2Succ(p);
      ScaledBelow(Pow2(p) + f.Fraction(x), p + 1, f.Scale(x));
      RPow2Mono(f.Scale(x) + p + 1, 0);
    }
  }

  lemma ScaledBelow(sig: nat, n: nat, j: int)
    requires sig < Pow2(n)
    ensures sig as real * RPow2(j) < RPow2(j + n)
  {
    hide *;
    RPow2OfNat(n);
    RMulStrict(sig as real, RPow2(n), RPow2(j));
    RPow2Add(n, j);
  }

  lemma ScaledAtLeast(sig: nat, n: nat, j: int)
    requires sig >= Pow2(n)
    ensures sig as real * RPow2(j) >= RPow2(j + n)
  {
    hide *;
    RPow2OfNat(n);
    RMulMono(RPow2(n), sig as real, RPow2(j));
    RPow2Add(n, j);
  }

  /** A normal number lies between consecutive powers of two, at its unbiased exponent. */
  lemma NormalBinade(f: Format, x: nat)
    requires f.WellFormed() && f.ExponentField(x) > 0
    ensures var e := f.ExponentField(x) - f.Bias();
            && f.AbsValue(x) == (Pow2(f.significandBits) + f.Fraction(x)) as real * RPow2(e - f.significandBits)
            && RPow2(e) <= f.AbsValue(x) < RPow2(e + 1)
  {
    hide Pow2, Shr, Low, RPow2, Format.ExponentField, Format.Bias;
    var p := f.significandBits;
    LowBound(x, p);
    Pow2Succ(p);
    ScaledAtLeast(Pow2(p) + f.Fraction(x), p, f.Scale(x));
    ScaledBelow(Pow2(p) + f.Fraction(x), p + 1, f.Scale(x));
  }

  lemma FloorIs(v: real, i: int)
    requires i as real <= v < i as real + 1.0
    ensures v.Floor == i
  {
  }

  /** A right shift is division by a power of two, rounded down. */
  lemma FloorShift(sig: nat, n: nat)
    ensures (sig as real * RPow2(-(n as int))).Floor == Shr(sig, n)
  {
    hide *;
    var q, r := Shr(sig, n), Low(sig, n);
    Split(sig, n);
    var p, h := RPow2(n), RPow2(-(n as int));
    RPow2OfNat(n);
    RPow2Add(n, -(n as int));
    RPow2Zero();
    RealProduct(q, Pow2(n));
    assert sig as real == q as real * p + r as real;
    RProductAssoc(q as real, p, h);
    assert sig as real * h == q as real * p * h + r as real * h;
    RMulMono(0.0, r as real, h);
    RMulStrict(r as real, p, h);
    FloorIs(sig as real * h, q);
  }

  lemma FloorLeft(sig: nat, n: nat)
    ensures sig as real * RPow2(n) == (sig * Pow2(n)) as real
  {
    hide *;
    RPow2OfNat(n);
    RealProduct(sig, Pow2(n));
  }

  /** In range, the shifted significand is the magnitude truncated; the left shift loses nothing. */
  lemma ShiftTruncates(f: Format, x: nat)
    requires f.WellFormed() && 0 <= Exponent(f, x) < 128
    ensures ShiftedSignificand(f, x) == f.AbsValue(x).Floor < TWO_128
  {
    hide Pow2, Shr, Low, RPow2, Shl, Exponent, ImplicitSignificand, Format.AbsValue, Format.Bias, Format.ExponentField, Format.Fraction;
    MasksAreFields(f, x);
    BiasPositive(f);
    NormalBinade(f, x);
    var e, p, sig := Exponent(f, x), f.significandBits, ImplicitSignificand(f, x);
    RPow2OfNat(e + 1);
    Pow2Of128();
    Pow2Mono(e + 1, 128);
    if e < p {
      FloorShift(sig, p - e);
    } else {
      FloorLeft(sig, e - p);
      ShlFits(sig, e - p, 128);
      FloorIs(f.AbsValue(x), sig * Pow2(e - p));
    }
  }

  lemma FloorBounds(v: real, n: nat)
    ensures v < n as real ==> v.Floor < n
    ensures v >= n as real ==> v.Floor >= n
  {
  }

  /** The six functions see a real number only through its binade and its floor. */
  lemma MagnitudeCases(f: Format, x: nat)
    requires f.WellFormed() && f.Finite(x)
    ensures Exponent(f, x) < 0 <==> f.AbsValue(x) < 1.0
    ensures Exponent(f, x) >= 128 <==> f.AbsValue(x) >= TWO_128 as real
    ensures Exponent(f, x) >= 127 <==> f.AbsValue(x) >= TWO_127 as real
    ensures f.AbsValue(x) >= 0.0
  {
    hide Pow2, Shr, Low, RPow2, Exponent, Format.AbsValue, Format.Bias, Format.ExponentField, Format.Fraction;
    MasksAreFields(f, x);
    BiasPositive(f);
    AbsValueNonNegative(f, x);
    RPow2Zero();
    Pow2Of128();
    RPow2OfNat(128);
    RPow2OfNat(127);
    var e := Exponent(f, x);
    if e < 0 {
      BelowOne(f, x);
    } else {
      NormalBinade(f, x);
      RPow2Mono(0, e);
      if e >= 128 { RPow2Mono(128, e); } else { RPow2Mono(e + 1, 128); }
      if e >= 127 { RPow2Mono(127, e); } else { RPow2Mono(e + 1, 127); }
    }
  }

  /** ___fixuns*: truncation toward zero, saturating at 0 and 2^128 - 1. */
  lemma FixUnsignedTruncates(f: Format, x: nat)
    requires f.WellFormed() && f.Finite(x)
    ensures FixUnsigned(f, x) == Clamp(Truncate(f.Value(x)), 0, TWO_128 - 1)
  {
    hide Exponent, Format.AbsValue, Format.Finite, Format.Negative, ShiftedSignificand, SignSet, Format.WellFormed;
    MasksAreFields(f, x);
    MagnitudeCases(f, x);
    var v := f.AbsValue(x);
    FloorBounds(v, 1);
    FloorBounds(v, TWO_128);
    if 0 <= Exponent(f, x) < 128 { ShiftTruncates(f, x); }
  }

  /** What ___fix* compute from a real value: saturating truncation, except that a magnitude in
      [2^127, 2^128) is shifted into the sign bit and wraps. */
  ghost function SignedResult(v: real): (r: int) {
    var m := if v < 0.0 then -v else v;
    if TWO_127 as real <= m < TWO_128 as real then Wrap(if v < 0.0 then -m.Floor else m.Floor)
    else Clamp(Truncate(v), -(TWO_127 as int), TWO_127 - 1)
  }

  lemma WrapInBand(m: nat)
    requires TWO_127 <= m < TWO_128
    ensures Wrap(m) == m - TWO_128
    ensures Wrap(-(m as int)) == if m == TWO_127 then -(TWO_127 as int) else TWO_128 - m
  {
    DivModUnique(m, TWO_128, 0, m);
    DivModUnique(-(m as int), TWO_128, -1, TWO_128 - m);
  }

  lemma WrapSmall(i: int)
    requires -(TWO_127 as int) <= i < TWO_127
    ensures Wrap(i) == i
  {
    if i < 0 { DivModUnique(i, TWO_128, -1, i + TWO_128); } else { DivModUnique(i, TWO_128, 0, i); }
  }

  /** Wrapping before or after the change of sign gives the same word. */
  lemma WrapNegated(m: nat)
    requires m < TWO_128
    ensures Wrap(1 * Wrap(m)) == Wrap(m)
    ensures Wrap(-1 * Wrap(m)) == Wrap(-(m as int))
  {
    if m < TWO_127 {
      WrapSmall(m);
    } else {
      WrapInBand(m);
      WrapSmall(m - TWO_128);
      if m > TWO_127 { WrapSmall(TWO_128 - m); }
    }
  }

  lemma FixSignedComputes(f: Format, x: nat)
    requires f.WellFormed() && f.Finite(x)
    ensures FixSigned(f, x) == SignedResult(f.Value(x))
  {
    hide Exponent, Format.AbsValue, Format.Finite, Format.Negative, ShiftedSignificand, SignSet, Format.WellFormed, Wrap;
    MasksAreFields(f, x);
    MagnitudeCases(f, x);
    var v := f.AbsValue(x);
    FloorBounds(v, 0);
    FloorBounds(v, 1);
    FloorBounds(v, TWO_127);
    FloorBounds(v, TWO_128);
    if 0 <= Exponent(f, x) < 128 {
      ShiftTruncates(f, x);
      WrapNegated(v.Floor);
      if Exponent(f, x) < 127 {
        WrapSmall(v.Floor);
        WrapSmall(-v.Floor);
      }
    }
  }

  /** ___fix* saturate and truncate correctly exactly when the magnitude is not in [2^127, 2^128),
      or the value is -2^127 itself. */
  lemma FixSignedTruncatesIff(f: Format, x: nat)
    requires f.WellFormed() && f.Finite(x)
    ensures FixSigned(f, x) == Clamp(Truncate(f.Value(x)), -(TWO_127 as int), TWO_127 - 1)
            <==> (Exponent(f, x) != 127 || f.Value(x) == -(TWO_127 as real))
  {
    hide Exponent, Format.AbsValue, Format.Finite, Format.Negative, FixSigned, SignSet, Format.WellFormed;
    FixSignedComputes(f, x);
    MasksAreFields(f, x);
    MagnitudeCases(f, x);
    var v := f.AbsValue(x);
    FloorBounds(v, TWO_127);
    FloorBounds(v, TWO_128);
    if Exponent(f, x) == 127 {
      IntegralAt127(f, x);
      WrapInBand(v.Floor);
      assert v == TWO_127 as real <==> v.Floor == TWO_127;
      assert f.Negative(x) ==> -(-v) == v;
      assert SignedResult(f.Value(x)) == if f.Negative(x) then Wrap(-v.Floor) else Wrap(v.Floor);
    }
  }

  /** The failing family is not empty: 2^127 converts to -2^127. */
  lemma FixSignedWraps()
    ensures BINARY64.Finite(NearestBits(TWO_127)) && BINARY64.Value(NearestBits(TWO_127)) == TWO_127 as real
    ensures FixSigned(BINARY64, NearestBits(TWO_127)) == -(TWO_127 as int)
  {
    hide Pow2, BitLength, Shr, Low, FixSigned, Format.Value, Format.Finite, NearestBits;
    var k: nat := 75;
    Pow2Of128();
    Pow2Of52();
    BitLengthBounds(TWO_127);
    BitLengthAtMost(TWO_127, 128);
    if BitLength(TWO_127) < 128 { Pow2Mono(BitLength(TWO_127), 127); }
    Pow2Add(52, k);
    SplitOf(TWO_52, k, 0);
    ValueWhenLong(TWO_127, k);
    NearestValue(TWO_127);
    FixSignedComputes(BINARY64, NearestBits(TWO_127));
    WrapInBand(TWO_127);
  }

  /** At exponent 127 every format holds an integer. */
  lemma IntegralAt127(f: Format, x: nat)
    requires f.WellFormed() && f.Finite(x) && Exponent(f, x) == 127
    ensures f.AbsValue(x) == f.AbsValue(x).Floor as real
  {
    hide Pow2, RPow2, Exponent, Format.AbsValue, Format.Bias, Format.ExponentField, Format.Fraction, Format.Finite;
    MasksAreFields(f, x);
    BiasPositive(f);
    NormalBinade(f, x);
    ScaledIsIntegral(f.AbsValue(x), Pow2(f.significandBits) + f.Fraction(x), 127 - f.significandBits);
  }

  lemma ScaledIsIntegral(v: real, sig: nat, n: nat)
    requires v == sig as real * RPow2(n)
    ensures v == v.Floor as real
  {
    hide *;
    var i := sig * Pow2(n);
    FloorLeft(sig, n);
    assert v == i as real;
    FloorIs(v, i);
  }

  /** Infinities and NaNs go to the end of the range on their side. */
  lemma FixNonFinite(f: Format, x: nat)
    requires f.WellFormed() && x < Pow2(f.Width()) && f.ExponentField(x) == f.MaxExponent()
    ensures FixUnsigned(f, x) == if f.Negative(x) then 0 else TWO_128 - 1
    ensures FixSigned(f, x) == if f.Negative(x) then -(TWO_127 as int) else TWO_127 - 1
  {
    hide Exponent, SignSet, Format.Negative, Format.Bias, Format.ExponentField, Format.MaxExponent;
    MasksAreFields(f, x);
    BiasPositive(f);
  }

  /** Encodings of one real number in two formats convert to the same integer. */
  lemma FormatsAgree(f: Format, x: nat, g: Format, y: nat)
    requires f.WellFormed() && f.Finite(x) && g.WellFormed() && g.Finite(y)
    requires f.Value(x) == g.Value(y)
    ensures FixUnsigned(f, x) == FixUnsigned(g, y) && FixSigned(f, x) == FixSigned(g, y)
  {
    hide *;
    FixUnsignedTruncates(f, x);
    FixUnsignedTruncates(g, y);
    FixSignedComputes(f, x);
    FixSignedComputes(g, y);
  }

  // ---- round trip ----

  /** The integer a double nearest to a stands for; it can be 2^128. */
  function Rounded(a: nat): (r: nat) {
    var sd := BitLength(a);
    if sd <= 53 then a else RoundHalfEven(a, sd - 53) * Pow2(sd - 53)
  }

  lemma RoundedIsValue(a: nat)
    requires 0 < a < TWO_128
    ensures BINARY64.Value(NearestBits(a)) == Rounded(a) as real
  {
    hide Pow2, BitLength, RoundHalfEven, Format.Value, NearestBits;
    var sd := BitLength(a);
    if sd <= 53 {
      BitLengthBounds(a);
      Pow2Of52();
      Pow2Mono(sd, 53);
      ExactWhenShort(a);
    } else {
      ValueWhenLong(a, sd - 53);
    }
  }

  lemma RoundedError(a: nat)
    requires 0 < a < TWO_128
    ensures a < TWO_53 ==> Rounded(a) == a
    ensures a >= TWO_53 ==> BitLength(a) >= 54 && AbsInt(Rounded(a) - a) <= Pow2(BitLength(a) - 54)
    ensures Rounded(a) <= TWO_128
  {
    hide Pow2, BitLength, RoundHalfEven;
    var sd := BitLength(a);
    Pow2Of52();
    Pow2Of128();
    BitLengthAtMost(a, 128);
    BitLengthBounds(a);
    if a < TWO_53 {
      BitLengthAtMost(a, 53);
    } else {
      if sd <= 53 { Pow2Mono(sd, 53); }
      var k := sd - 53;
      RoundHalfEvenError(a, k);
      SignificandWidth(a);
      MulMono(RoundHalfEven(a, k), Pow2(53), Pow2(k));
      Pow2Add(53, k);
      Pow2Mono(sd, 128);
    }
  }

  /** To double and back is the rounded value: exact below 2^53, within half a unit above, and
      saturated precisely when rounding carried up to 2^128. */
  lemma RoundTrip(a: nat)
    requires a < TWO_128
    ensures FixUnsigned(BINARY64, NearestBits(a)) == if Rounded(a) == TWO_128 then TWO_128 - 1 else Rounded(a)
    ensures a < TWO_53 ==> FixUnsigned(BINARY64, NearestBits(a)) == a
    ensures a >= TWO_53 ==> BitLength(a) >= 54 && AbsInt(Rounded(a) - a) <= Pow2(BitLength(a) - 54)
  {
    hide Pow2, BitLength, RoundHalfEven, Rounded, FixUnsigned, Format.Value, Format.Finite;
    if a == 0 {
      FixZero();
    } else {
      NearestValue(a);
      RoundedIsValue(a);
      RoundedError(a);
      FixUnsignedTruncates(BINARY64, NearestBits(a));
    }
  }

  lemma FixZero()
    ensures FixUnsigned(BINARY64, 0) == 0 && Rounded(0) == 0
  {
    hide Pow2, Exponent, SignSet, Low, Shr;
    Binary64Numbers();
    FieldsOf(BINARY64, false, 0, 0);
    MasksAreFields(BINARY64, 0);
    assert BitLength(0) == 0;
  }

  /** The constants of fp32.h, fp64.h and fp128.h. */
  lemma SourceFormats()
    ensures BINARY32.WellFormed() && BINARY32.Width() == 32 && BINARY32.Bias() == 127 && BINARY32.MaxExponent() == 255
    ensures BINARY64.WellFormed() && BINARY64.Width() == 64 && BINARY64.Bias() == 1023 && BINARY64.MaxExponent() == 2047
    ensures BINARY128.WellFormed() && BINARY128.Width() == 128 && BINARY128.Bias() == 16383 && BINARY128.MaxExponent() == 32767
  {
    hide Pow2;
    Pow2Of6();
    Pow2Plus4(4);
    Pow2Succ(8);
    Pow2Succ(9);
    Pow2Succ(10);
    Pow2Plus4(11);
  }
}
