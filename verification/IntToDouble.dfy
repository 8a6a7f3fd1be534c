/** libraries/builtins: 128-bit integers to binary64, rounding to nearest with ties to even. */
module IntToDouble {
  import opened Bits

  const WORD: nat := 128        // N, the width of ti_int and tu_int
  const DBL_MANT_DIG: nat := 53
  const MAX_U64: nat := 0xFFFF_FFFF_FFFF_FFFF

  /** __builtin_clzll, which is undefined on 0. */
  function ClzLL(x: nat): (r: nat)
    requires 0 < x < TWO_64
  {
    Pow2Of64();
    BitLengthAtMost(x, 64);
    64 - BitLength(x)
  }

  /** f = -(high == 0), as the 64-bit word of an int64_t. */
  function ClzMask(a: nat): (r: nat) {
    if a / TWO_64 == 0 then MAX_U64 else 0
  }

  /** The word that __clzti2 selects with the mask f. */
  function ClzWord(a: nat): (r: nat) {
    var low, high, f := a % TWO_64, a / TWO_64, ClzMask(a);
    BitOr(BitAnd(high, MAX_U64 - f), BitAnd(low, f))
  }

  lemma ClzWordSelects(a: nat)
    requires a < TWO_128
    ensures ClzWord(a) == if a < TWO_64 then a else a / TWO_64
    ensures ClzWord(a) < TWO_64
  {
    hide Pow2, Shr, Low, BitAnd, BitOr, BitLength;
    var low, high := a % TWO_64, a / TWO_64;
    if high == 0 {
      AndZero(high);
      And64(low);
      OrZero(low);
    } else {
      And64(high);
      AndZero(low);
      OrZero(high);
    }
  }

  /** __clzti2: the leading zeros of a 128-bit value. */
  function ClzTi(a: nat): (r: nat)
    requires 0 < a < TWO_128
  {
    ClzWordSelects(a);
    ClzLL(ClzWord(a)) + BitAnd(ClzMask(a) % TWO_32, 64)
  }

  lemma ClzTiLow(a: nat)
    requires 0 < a < TWO_64
    ensures ClzTi(a) == ClzLL(a) + 64
  {
    hide Pow2, Shr, Low, BitAnd, BitOr, BitLength;
    ClzWordSelects(a);
    Pow2Of6();
    AndBit(ClzMask(a) % TWO_32, 6);
    ShrIsDiv(ClzMask(a) % TWO_32, 6);
  }

  lemma ClzTiHigh(a: nat)
    requires TWO_64 <= a < TWO_128
    ensures ClzTi(a) == ClzLL(a / TWO_64)
  {
    ClzWordSelects(a);
    assert ClzMask(a) == 0 && BitAnd(0, 64) == 0;
  }

  /** The branch-free count is the leading-zero count: 2^(127-c) <= a < 2^(128-c). */
  lemma ClzTiCounts(a: nat)
    requires 0 < a < TWO_128
    ensures ClzTi(a) == 128 - BitLength(a) && 0 <= ClzTi(a) < 128
    ensures Pow2(127 - ClzTi(a)) <= a < Pow2(128 - ClzTi(a))
  {
    hide Pow2, Shr, Low, BitAnd, BitOr, BitLength, ClzTi;
    BitLengthBounds(a);
    if a < TWO_64 {
      ClzTiLow(a);
    } else {
      ClzTiHigh(a);
      Pow2Of64();
      BitLengthShr(a, 64);
      ShrIsDiv(a, 64);
    }
  }

  // ---- specification ----

  /** a / 2^k rounded to the nearest integer, ties to even. */
  function RoundHalfEven(a: nat, k: nat): (r: nat)
    requires k > 0
  {
    var q, rest, half := Shr(a, k), Low(a, k), Pow2(k - 1);
    if rest > half || (rest == half && q % 2 == 1) then q + 1 else q
  }

  /** The 53-bit significand of the rounded value; 2^53 when rounding carries out. */
  function Significand(a: nat): (r: nat)
    requires a > 0
  {
    var sd := BitLength(a);
    if sd <= DBL_MANT_DIG then a * Pow2(DBL_MANT_DIG - sd) else RoundHalfEven(a, sd - DBL_MANT_DIG)
  }

  /** The encoding: a carried-out significand moves into the exponent field by the addition. */
  function NearestBits(a: nat): (r: nat) {
    if a == 0 then 0 else (BitLength(a) + 1021) * TWO_52 + Significand(a)
  }

  /** An integer with k bits beyond the significand leaves a quotient of full width. */
  lemma QuotientWidth(a: nat, k: nat)
    requires a > 0 && BitLength(a) == DBL_MANT_DIG + k
    ensures TWO_52 <= Shr(a, k) < TWO_53
  {
    BitLengthBounds(a);
    Pow2Mono(k, 52 + k);
    BitLengthShr(a, k);
    Pow2Of52();
    BitLengthBounds(Shr(a, k));
  }

  lemma ShortProduct(a: nat, n: nat)
    requires a > 0 && BitLength(a) + n == DBL_MANT_DIG
    ensures TWO_52 <= a * Pow2(n) < TWO_53
  {
    hide Pow2, Shr, Low, BitAnd, BitOr, BitLength;
    var sd := BitLength(a);
    BitLengthBounds(a);
    Pow2Of52();
    Pow2Add(sd - 1, n);
    Pow2Add(sd, n);
    MulMono(Pow2(sd - 1), a, Pow2(n));
    MulMono(a + 1, Pow2(sd), Pow2(n));
    assert (a + 1) * Pow2(n) == a * Pow2(n) + Pow2(n);
  }

  lemma SignificandWidth(a: nat)
    requires a > 0
    ensures TWO_52 <= Significand(a) <= TWO_53
  {
    var sd := BitLength(a);
    if sd <= DBL_MANT_DIG {
      ShortProduct(a, DBL_MANT_DIG - sd);
    } else {
      QuotientWidth(a, sd - DBL_MANT_DIG);
    }
  }

  // ---- the C code ----

  /** The three cases of the switch in floatuntidf.c: shift left by one, nothing, or shift right
      while or-ing every lost bit into the lowest one. */
  function Jam(a: nat, sd: nat): (j: nat)
    requires DBL_MANT_DIG < sd <= WORD
  {
    if sd == DBL_MANT_DIG + 1 then Shl(a, 1, WORD)
    else if sd == DBL_MANT_DIG + 2 then a
    else
      var mask := Shr(TWO_128 - 1, WORD + DBL_MANT_DIG + 2 - sd);
      BitOr(Shr(a, sd - (DBL_MANT_DIG + 2)), Flag(BitAnd(a, mask) != 0))
  }

  /** What the jamming leaves below the quotient: bit Q, then R, the "or" of everything lost. */
  ghost predicate Jammed(a: nat, k: nat, j: nat)
    requires k > 0
  {
    var rest, half := Low(a, k), Pow2(k - 1);
    && j / 4 == Shr(a, k)
    && (j % 4 == 3 <==> rest > half)
    && (j % 4 == 2 <==> rest == half)
  }

  /** All-ones shifted right is the mask of the remaining low bits. */
  lemma MaskShift(n: nat)
    requires n <= WORD
    ensures Shr(TWO_128 - 1, WORD - n) == Pow2(n) - 1
  {
    hide Pow2, Shr, Low, BitAnd, BitOr, BitLength;
    var h := Pow2(WORD - n);
    Pow2Of128();
    Pow2Add(n, WORD - n);
    assert (Pow2(n) - 1) * h == Pow2(n) * h - h;
    SplitOf(Pow2(n) - 1, WORD - n, h - 1);
  }

  lemma JamOneBit(a: nat)
    requires 0 < a < TWO_128 && BitLength(a) == DBL_MANT_DIG + 1
    ensures Jammed(a, 1, Jam(a, DBL_MANT_DIG + 1))
  {
    assert Pow2(1) == 2 && Pow2(0) == 1;
    assert Jam(a, DBL_MANT_DIG + 1) == 2 * a by {
      BitLengthBounds(a);
      Pow2Mono(55, 128);
      ShlFits(a, 1, WORD);
    }
    assert Shr(a, 1) == a / 2 && Low(a, 1) == a % 2;
  }

  lemma JamTwoBits(a: nat)
    ensures Jammed(a, 2, a)
  {
    Pow2Of6();
    ShrIsDiv(a, 2);
  }

  lemma JamSticky(a: nat, k: nat)
    requires 0 < a < TWO_128 && k >= 3 && BitLength(a) == DBL_MANT_DIG + k <= WORD
    ensures Jammed(a, k, Jam(a, DBL_MANT_DIG + k))
  {
    hide Pow2, Shr, Low, BitAnd, BitOr, BitLength;
    var x, r := Shr(a, k - 2), Low(a, k - 2);
    MaskShift(k - 2);
    AndMask(a, k - 2);
    OrFlag(x, r != 0);
    LowBound(a, k - 2);
    ShrShr(a, k - 2, 2);
    LowSplit(a, k - 2, 2);
    Pow2Of6();
    ShrIsDiv(x, 2);
    Pow2Succ(k - 2);
    JamArithmetic(x, Pow2(k - 2), r);
  }

  /** Comparing the dropped part against one half only needs two bits and the sticky flag. */
  lemma JamArithmetic(x: nat, low: nat, r: nat)
    requires r < low
    ensures var j := if r != 0 && x % 2 == 0 then x + 1 else x;
            && j / 4 == x / 4
            && (j % 4 == 3 <==> x % 4 * low + r > 2 * low)
            && (j % 4 == 2 <==> x % 4 * low + r == 2 * low)
  {
    var u := x % 4;
    assert u == 0 || u == 1 || u == 2 || u == 3;
  }

  lemma JamKeepsOrder(a: nat, sd: nat)
    requires 0 < a < TWO_128 && sd == BitLength(a) && DBL_MANT_DIG < sd <= WORD
    ensures Jammed(a, sd - DBL_MANT_DIG, Jam(a, sd))
  {
    if sd == DBL_MANT_DIG + 1 {
      JamOneBit(a);
    } else if sd == DBL_MANT_DIG + 2 {
      JamTwoBits(a);
    } else {
      JamSticky(a, sd - DBL_MANT_DIG);
    }
  }

  lemma AndFour(j: nat)
    ensures BitAnd(j, 4) != 0 <==> j / 4 % 2 == 1
  {
    hide Pow2, Shr, Low, BitAnd, BitOr, BitLength;
    Pow2Of6();
    AndBit(j, 2);
    ShrIsDiv(j, 2);
  }

  /** "Or P into R", increment, drop Q and R: together the rounding decision. */
  lemma RoundJammed(a: nat, k: nat, j: nat)
    requires k > 0 && Jammed(a, k, j)
    ensures (BitOr(j, Flag(BitAnd(j, 4) != 0)) + 1) / 4 == RoundHalfEven(a, k)
  {
    AndFour(j);
    OrFlag(j, BitAnd(j, 4) != 0);
  }

  lemma RoundStep(a: nat, sd: nat)
    requires 0 < a < TWO_128 && sd == BitLength(a) && DBL_MANT_DIG < sd <= WORD
    ensures var j := Jam(a, sd);
            Shr((BitOr(j, Flag(BitAnd(j, 4) != 0)) + 1) % TWO_128, 2) == Significand(a)
  {
    hide Pow2, Shr, Low, BitAnd, BitOr, BitLength;
    var j := Jam(a, sd);
    JamKeepsOrder(a, sd);
    RoundJammed(a, sd - DBL_MANT_DIG, j);
    SignificandWidth(a);
    var j' := BitOr(j, Flag(BitAnd(j, 4) != 0)) + 1;
    assert j' < TWO_128;
    Pow2Of6();
    ShrIsDiv(j', 2);
  }

  /** Testing bit 53 detects exactly the carried-out significand 2^53. */
  lemma CarryTest(a: nat)
    requires TWO_52 <= a <= TWO_53
    ensures BitAnd(a, Shl(1, DBL_MANT_DIG, WORD)) != 0 <==> a == TWO_53
    ensures Shr(TWO_53, 1) == TWO_52
  {
    hide Pow2, Shr, Low, BitAnd, BitOr, BitLength;
    Pow2Of52();
    Pow2Of6();
    Pow2Mono(DBL_MANT_DIG, WORD);
    ShlFits(1, DBL_MANT_DIG, WORD);
    ShrIsDiv(TWO_53, 1);
    AndBit(a, DBL_MANT_DIG);
    ShrIsDiv(a, DBL_MANT_DIG);
  }

  lemma SmallShift(a: nat)
    requires a > 0 && BitLength(a) <= DBL_MANT_DIG
    ensures Shl(a, DBL_MANT_DIG - BitLength(a), WORD) == Significand(a) < TWO_53
  {
    hide Pow2, Shr, Low, BitAnd, BitOr, BitLength;
    var n := DBL_MANT_DIG - BitLength(a);
    ShortProduct(a, n);
    Pow2Of52();
    Pow2Mono(DBL_MANT_DIG, WORD);
    ShlFits(a, n, WORD);
  }

  /** Lines 30-64 of floatuntidf.c, repeated in floattidf.c: the significand and exponent of a
      nonzero magnitude. */
  method RoundMagnitude(a0: nat) returns (a: nat, e: nat)
    requires 0 < a0 < TWO_128
    ensures TWO_52 <= a < TWO_53 && e < 1024
    ensures (e + 1022) * TWO_52 + a == NearestBits(a0)
  {
    ClzTiCounts(a0);
    a := a0;
    var sd := WORD - ClzTi(a);
    e := sd - 1;
    SignificandWidth(a0);
    if sd > DBL_MANT_DIG {
      RoundStep(a0, sd);
      a := Jam(a, sd);
      a := BitOr(a, Flag(BitAnd(a, 4) != 0));
      a := (a + 1) % TWO_128;
      a := Shr(a, 2);
      assert a == Significand(a0);
      CarryTest(a);
      if BitAnd(a, Shl(1, DBL_MANT_DIG, WORD)) != 0 {
        a := Shr(a, 1);
        e := e + 1;
      }
    } else {
      SmallShift(a0);
      a := Shl(a, DBL_MANT_DIG - sd, WORD);
    }
  }

  // ---- assembling the encoding ----

  /** The high and low words of double_bits, assembled from sign, exponent and mantissa. */
  function Pack(sign: nat, e: nat, m: nat): (r: nat) {
    var high := BitOr(BitOr(sign, Shl(e + 1023, 20, 32)), BitAnd(Shr(m, 32) % TWO_32, 0x000F_FFFF));
    var low := m % TWO_32;
    high * TWO_32 + low
  }

  /** The mantissa bits kept by the mask on the high word. */
  lemma MantissaHigh(m: nat)
    requires TWO_52 <= m < TWO_53
    ensures BitAnd(Shr(m, 32) % TWO_32, 0x000F_FFFF) == m / TWO_32 - 0x10_0000
    ensures 0x10_0000 <= m / TWO_32 < 0x20_0000
  {
    hide Pow2, Shr, Low, BitAnd, BitOr, BitLength;
    Pow2Of32();
    Pow2Of16();
    ShrIsDiv(m, 32);
    var h := m / TWO_32 % TWO_32;
    AndMask(h, 20);
    ShrIsDiv(h, 20);
  }

  lemma SignAndExponent(sign: nat, e: nat)
    requires sign == 0 || sign == 0x8000_0000
    requires e < 1024
    ensures BitOr(sign, Shl(e + 1023, 20, 32)) == sign + (e + 1023) * 0x10_0000
  {
    hide Pow2, Shr, Low, BitAnd, BitOr, BitLength;
    Pow2Of16();
    Pow2Of32();
    ShlFits(e + 1023, 20, 32);
    if sign == 0 {
      OrZero((e + 1023) * 0x10_0000);
    } else {
      OrDisjoint(1, 31, (e + 1023) * 0x10_0000);
    }
  }

  /** With 53 significant bits the three fields do not overlap. */
  lemma PackFields(sign: nat, e: nat, m: nat)
    requires sign == 0 || sign == 0x8000_0000
    requires e < 1024 && TWO_52 <= m < TWO_53
    ensures Pack(sign, e, m) == sign * TWO_32 + (e + 1022) * TWO_52 + m
  {
    hide Pow2, Shr, Low, BitAnd, BitOr, BitLength;
    var lo := m / TWO_32 - 0x10_0000;
    var k := sign / 0x10_0000 + e + 1023;
    MantissaHigh(m);
    var high := BitOr(BitOr(sign, Shl(e + 1023, 20, 32)), BitAnd(Shr(m, 32) % TWO_32, 0x000F_FFFF));
    assert high == k * 0x10_0000 + lo by {
      SignAndExponent(sign, e);
      Pow2Of16();
      OrDisjoint(k, 20, lo);
    }
    assert Pack(sign, e, m) == high * TWO_32 + m % TWO_32;
  }

  /** ___floatuntidf. */
  method FloatUnTiDf(a: nat) returns (bits: nat)
    requires a < TWO_128
    ensures bits == NearestBits(a)
  {
    if a == 0 { return 0; }
    var m, e := RoundMagnitude(a);
    PackFields(0, e, m);
    bits := Pack(0, e, m);
  }

  /** The magnitude's encoding with the sign bit set for negative integers. */
  function SignedBits(a: int): (r: nat) {
    if a < 0 then TWO_63 + NearestBits(-a) else NearestBits(a)
  }

  /** s = a >> 127, an all-ones or all-zeros word. */
  function SignWord(a: int): (s: nat) {
    if a < 0 then TWO_128 - 1 else 0
  }

  /** (a ^ s) - s on the two's-complement word of a. */
  function Magnitude(a: int): (r: nat) {
    var word := a % TWO_128;
    var flipped := if a < 0 then TWO_128 - 1 - word else word;
    (flipped - SignWord(a)) % TWO_128
  }

  /** The magnitude is |a| even for the most negative value, where it only fits unsigned. */
  lemma MagnitudeIsAbs(a: int)
    requires -(TWO_127 as int) <= a < TWO_127
    ensures Magnitude(a) == if a < 0 then -a else a
  {
    if a < 0 {
      DivModUnique(a, TWO_128, -1, a + TWO_128);
      DivModUnique(-a - TWO_128, TWO_128, -1, -a);
    } else {
      DivModUnique(a, TWO_128, 0, a);
    }
  }

  lemma SignMask(s: nat)
    requires s == 0 || s == TWO_128 - 1
    ensures BitAnd(s % TWO_32, 0x8000_0000) == if s == 0 then 0 else 0x8000_0000
  {
    hide Pow2, Shr, Low, BitAnd, BitOr, BitLength;
    Pow2Of32();
    AndBit(s % TWO_32, 31);
    ShrIsDiv(s % TWO_32, 31);
  }

  /** ___floattidf. */
  method FloatTiDf(a: int) returns (bits: nat)
    requires -(TWO_127 as int) <= a < TWO_127
    ensures bits == SignedBits(a)
  {
    if a == 0 { return 0; }
    MagnitudeIsAbs(a);
    var m, e := RoundMagnitude(Magnitude(a));
    var s := SignWord(a);
    SignMask(s);
    var sign := BitAnd(s % TWO_32, 0x8000_0000);
    PackFields(sign, e, m);
    bits := Pack(sign, e, m);
  }
}
