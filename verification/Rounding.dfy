/** What the encodings built by IntToDouble mean: nearest, ties to even, monotone. */
module Rounding {
  import opened Bits
  import opened Ieee
  import opened IntToDouble

  lemma Binary64Numbers()
    ensures Pow2(BINARY64.significandBits) == TWO_52 && Pow2(BINARY64.exponentBits) == 2048
    ensures BINARY64.MaxExponent() == 2047 && BINARY64.Bias() == 1023
    ensures Pow2(BINARY64.Width()) == TWO_64
  {
    Pow2Of52();
    Pow2Of64();
    Pow2Plus4(0);
    Pow2Plus4(4);
    Pow2Succ(8);
    Pow2Succ(9);
    Pow2Succ(10);
  }

  /** A positive normal number, from its exponent field and full significand. */
  lemma NormalValue(e: nat, m: nat)
    requires 0 < e < 2047 && TWO_52 <= m < TWO_53
    ensures var x := (e - 1) * TWO_52 + m;
            && BINARY64.Finite(x) && !BINARY64.Negative(x)
            && BINARY64.Value(x) == m as real * RPow2(e - 1075)
  {
    hide Low, Shr, Pow2, RPow2;
    Binary64Numbers();
    FieldsOf(BINARY64, false, e, m - TWO_52);
    var x := (e - 1) * TWO_52 + m;
    assert BINARY64.Significand(x) == m && BINARY64.Scale(x) == e - 1075;
  }

  /** The encoding is finite and positive, and its value is the rounded significand, scaled. */
  lemma NearestValue(a: nat)
    requires 0 < a < TWO_128
    ensures BINARY64.Finite(NearestBits(a)) && !BINARY64.Negative(NearestBits(a))
    ensures BINARY64.Value(NearestBits(a)) == Significand(a) as real * RPow2(BitLength(a) - 53)
  {
    hide RPow2, Pow2, BitLength, Significand, Format.Value, Format.Finite, Format.Negative;
    var sd: int, m := BitLength(a), Significand(a);
    Pow2Of128();
    BitLengthAtMost(a, 128);
    BitLengthBounds(a);
    SignificandWidth(a);
    if m < TWO_53 {
      NormalValue(sd + 1022, m);
    } else {
      NormalValue(sd + 1023, TWO_52);
      RPow2Step(sd - 53);
    }
  }

  /** RoundHalfEven is within half a unit, and only a tie is that far; ties are even. */
  lemma RoundHalfEvenError(a: nat, k: nat)
    requires k > 0
    ensures var d := RoundHalfEven(a, k) * Pow2(k) - a;
            && -(Pow2(k - 1) as int) <= d <= Pow2(k - 1)
            && (d == Pow2(k - 1) || d == -(Pow2(k - 1) as int) ==> RoundHalfEven(a, k) % 2 == 0)
  {
    hide Shr, Low;
    Split(a, k);
    var q, h := Shr(a, k), Pow2(k - 1);
    DoubleProduct(q, h);
    assert (q + 1) * (2 * h) == q * (2 * h) + 2 * h;
  }

  lemma MultiplesApart(s: int, t: int, p: nat)
    requires s != t && p > 0
    ensures s * p - t * p >= p || s * p - t * p <= -(p as int)
  {
    assert s * p - t * p == (s - t) * p;
    MultipleIsLarge(s - t, p);
  }

  ghost function AbsInt(i: int): (r: nat) {
    if i < 0 then -i else i
  }

  /** Among the multiples of 2^k, the rounded one is nearest, and even on a tie. */
  lemma GridNearest(a: nat, k: nat, t: int)
    requires k > 0
    ensures AbsInt(RoundHalfEven(a, k) * Pow2(k) - a) <= AbsInt(t * Pow2(k) - a)
    ensures AbsInt(RoundHalfEven(a, k) * Pow2(k) - a) == AbsInt(t * Pow2(k) - a) && t != RoundHalfEven(a, k)
            ==> RoundHalfEven(a, k) % 2 == 0
  {
    hide RoundHalfEven;
    RoundHalfEvenError(a, k);
    if t != RoundHalfEven(a, k) { MultiplesApart(t, RoundHalfEven(a, k), Pow2(k)); }
  }

  lemma RealProduct(a: nat, b: nat)
    ensures (a * b) as real == a as real * b as real
  {
  }

  lemma RProductAssoc(a: real, b: real, c: real)
    ensures a * b * c == a * (b * c)
  {
  }

  /** A short significand cannot reach the binade with a scale below k. */
  lemma ScaleTooSmall(sig: nat, j: int, k: nat)
    requires sig < Pow2(53) && j < k
    ensures sig as real * RPow2(j) < RPow2(52 + k)
  {
    hide *;
    var s, c := sig as real, RPow2(k - 1);
    assert 53 + (k - 1) == 52 + k;
    RPow2OfNat(53);
    RPow2Mono(j, k - 1);
    RPow2Add(53, k - 1);
    assert s < RPow2(53);
    RMulStrict(s, RPow2(53), c);
    RMulMono(RPow2(j), c, s);
    RMulCommutes(RPow2(j), s);
    RMulCommutes(c, s);
    assert s * RPow2(j) <= s * c;
    assert s * c < RPow2(52 + k);
    assert s * RPow2(j) < RPow2(52 + k);
  }

  lemma RMulCommutes(a: real, b: real)
    ensures a * b == b * a
  {
  }

  /** An encoding whose value lies in or above the binade of a k-bits-too-long integer is a
      multiple of 2^k. */
  lemma OnGrid(x: nat, k: nat) returns (t: nat)
    requires RPow2(52 + k) <= BINARY64.Value(x)
    ensures BINARY64.Value(x) == t as real * RPow2(k)
  {
    hide RPow2, Pow2, Low, Shr, Format.Significand, Format.Scale;
    var sig, j := BINARY64.Significand(x), BINARY64.Scale(x);
    AbsValueNonNegative(BINARY64, x);
    assert RPow2(52 + k) > 0.0;
    assert BINARY64.Value(x) == sig as real * RPow2(j);
    SignificandBound(BINARY64, x);
    if j < k { ScaleTooSmall(sig, j, k); }
    t := sig * Pow2(j - k);
    RPow2OfNat(j - k);
    RPow2Add(j - k, k);
    RProductAssoc(sig as real, RPow2(j - k), RPow2(k));
    RealProduct(sig, Pow2(j - k));
  }

  ghost function Distance(x: real, y: real): (r: real) {
    if x < y then y - x else x - y
  }

  /** The value v is no closer to a than r is, and if equally close and different, `even` holds. */
  ghost predicate NoCloser(r: real, v: real, a: int, even: bool) {
    && Distance(r, a as real) <= Distance(v, a as real)
    && (Distance(r, a as real) == Distance(v, a as real) && v != r ==> even)
  }

  lemma ExactWhenShort(a: nat)
    requires 0 < a < TWO_53
    ensures BINARY64.Value(NearestBits(a)) == a as real
  {
    hide RPow2, Pow2, BitLength, Format.Value;
    var n := 53 - BitLength(a);
    Pow2Of52();
    BitLengthAtMost(a, 53);
    NearestValue(a);
    RPow2OfNat(n);
    RPow2Add(n, -n);
    RPow2Zero();
    RealProduct(a, Pow2(n));
    RProductAssoc(a as real, RPow2(n), RPow2(-n));
  }

  lemma EvenShift(e: nat, m: nat)
    ensures (e * TWO_52 + m) % 2 == m % 2
  {
    var h := e * 0x8_0000_0000_0000;
    assert e * TWO_52 == 2 * h;
    DivModUnique(2 * h + m, 2, h + m / 2, m % 2);
  }

  lemma ValueWhenLong(a: nat, k: nat)
    requires 0 < a < TWO_128 && k > 0 && BitLength(a) == 53 + k
    ensures BINARY64.Value(NearestBits(a)) == (RoundHalfEven(a, k) * Pow2(k)) as real
    ensures NearestBits(a) % 2 == RoundHalfEven(a, k) % 2
  {
    hide RPow2, Pow2, BitLength, RoundHalfEven, Format.Value;
    NearestValue(a);
    EvenShift(BitLength(a) + 1021, RoundHalfEven(a, k));
    RPow2OfNat(k);
    RealProduct(RoundHalfEven(a, k), Pow2(k));
  }

  /** The distances compare as the distances of the integers involved. */
  lemma NoCloserOnGrid(a: nat, k: nat, t: nat)
    requires k > 0
    ensures NoCloser((RoundHalfEven(a, k) * Pow2(k)) as real, (t * Pow2(k)) as real, a,
                     RoundHalfEven(a, k) % 2 == 0)
  {
    hide RoundHalfEven, Pow2;
    GridNearest(a, k, t);
  }

  lemma OnIntegerGrid(x: nat, k: nat) returns (t: nat)
    requires RPow2(52 + k) <= BINARY64.Value(x)
    ensures BINARY64.Value(x) == (t * Pow2(k)) as real
  {
    hide *;
    t := OnGrid(x, k);
    RPow2OfNat(k);
    RealProduct(t, Pow2(k));
  }

  lemma NearestWhenLong(a: nat, k: nat, x: nat)
    requires 0 < a < TWO_128 && k > 0 && BitLength(a) == 53 + k
    ensures NoCloser(BINARY64.Value(NearestBits(a)), BINARY64.Value(x), a, NearestBits(a) % 2 == 0)
  {
    hide *;
    var r, even, v := BINARY64.Value(NearestBits(a)), NearestBits(a) % 2 == 0, BINARY64.Value(x);
    ValueWhenLong(a, k);
    assert even <==> RoundHalfEven(a, k) % 2 == 0;
    if v < RPow2(52 + k) {
      RPow2OfNat(52 + k);
      BitLengthBounds(a);
      Pow2Add(52, k);
      NoCloserOnGrid(a, k, Pow2(52));
      NoCloserBelow(r, Pow2(52 + k) as real, v, a, even);
    } else {
      var t := OnIntegerGrid(x, k);
      NoCloserOnGrid(a, k, t);
      assert NoCloser(r, v, a, even);
    }
  }

  lemma NoCloserBelow(r: real, l: real, v: real, a: nat, even: bool)
    requires NoCloser(r, l, a, even) && v < l <= a as real
    ensures NoCloser(r, v, a, even)
  {
  }

  /** Zero is encoded as positive zero. */
  lemma NearestOfZero()
    ensures NearestBits(0) == 0 && BINARY64.Finite(0) && !BINARY64.Negative(0) && BINARY64.Value(0) == 0.0
  {
    hide Low, Shr, Pow2, RPow2, Format.Negative, Format.ExponentField, Format.Fraction;
    Binary64Numbers();
    Pow2Mono(0, 11);
    FieldsOf(BINARY64, false, 0, 0);
  }

  /** roundTiesToEven (section 4.3.1): no finite binary64 number is closer to a, and when another
      is equally close, the encoding chosen has an even significand. */
  lemma NearestTiesToEven(a: nat, x: nat)
    requires a < TWO_128 && BINARY64.Finite(x)
    ensures BINARY64.Finite(NearestBits(a)) && !BINARY64.Negative(NearestBits(a))
    ensures NoCloser(BINARY64.Value(NearestBits(a)), BINARY64.Value(x), a, NearestBits(a) % 2 == 0)
  {
    hide Format.Value, Format.Finite, Format.Negative, NearestBits, Pow2, BitLength;
    if a == 0 {
      NearestOfZero();
    } else {
      NearestValue(a);
      var sd := BitLength(a);
      if sd <= 53 {
        BitLengthBounds(a);
        Pow2Of52();
        Pow2Mono(sd, 53);
        ExactWhenShort(a);
      } else {
        NearestWhenLong(a, sd - 53, x);
      }
    }
  }

  /** The encoding with the sign bit changed. */
  ghost function Flip(x: nat): (r: int) {
    if BINARY64.Negative(x) then x - TWO_63 else x + TWO_63
  }

  /** Flipping changes the sign field alone. */
  lemma FlipFields(x: nat)
    requires x < TWO_64
    ensures 0 <= Flip(x) < TWO_64 && BINARY64.Negative(Flip(x)) != BINARY64.Negative(x)
    ensures BINARY64.ExponentField(Flip(x)) == BINARY64.ExponentField(x) && BINARY64.Fraction(Flip(x)) == BINARY64.Fraction(x)
  {
    hide Low, Shr, Pow2, RPow2, Format.Negative, Format.ExponentField, Format.Fraction;
    Binary64Numbers();
    FieldsCompose(BINARY64, x);
    FieldsOf(BINARY64, !BINARY64.Negative(x), BINARY64.ExponentField(x), BINARY64.Fraction(x));
  }

  lemma FlipNegates(x: nat)
    requires BINARY64.Finite(x)
    ensures Flip(x) >= 0 && BINARY64.Finite(Flip(x)) && BINARY64.Value(Flip(x)) == -BINARY64.Value(x)
    ensures Flip(x) % 2 == x % 2 && BINARY64.Negative(Flip(x)) != BINARY64.Negative(x)
  {
    hide Low, Shr, Pow2, RPow2, Format.Negative, Format.ExponentField, Format.Fraction;
    Binary64Numbers();
    FlipFields(x);
  }

  /** ___floattidf is correctly rounded on every signed value, and negative exactly when that is. */
  lemma SignedNearestTiesToEven(a: int, x: nat)
    requires -(TWO_127 as int) <= a < TWO_127 && BINARY64.Finite(x)
    ensures BINARY64.Finite(SignedBits(a)) && (BINARY64.Negative(SignedBits(a)) <==> a < 0)
    ensures NoCloser(BINARY64.Value(SignedBits(a)), BINARY64.Value(x), a, SignedBits(a) % 2 == 0)
  {
    hide Format.Value, Format.Finite, Format.Negative, NearestBits;
    if a >= 0 {
      NearestTiesToEven(a, x);
    } else {
      var r := NearestBits(-a);
      FlipNegates(x);
      NearestTiesToEven(-a, Flip(x));
      FlipNegates(r);
    }
  }

  // ---- monotonicity ----

  lemma RoundHalfEvenMono(a: nat, b: nat, k: nat)
    requires k > 0 && a <= b
    ensures RoundHalfEven(a, k) <= RoundHalfEven(b, k)
  {
    hide Shr, Low;
    Split(a, k);
    Split(b, k);
    ShrMono(a, b, k);
  }

  /** The encodings are ordered as the integers are, across binades and rounding carries. */
  lemma NearestMonotone(a: nat, b: nat)
    requires a <= b < TWO_128
    ensures NearestBits(a) <= NearestBits(b)
  {
    hide Pow2, BitLength, RoundHalfEven;
    if a > 0 {
      BitLengthMono(a, b);
      SignificandWidth(a);
      SignificandWidth(b);
      var sd := BitLength(a);
      if sd == BitLength(b) {
        if sd <= 53 {
          MulMono(a, b, Pow2(53 - sd));
        } else {
          RoundHalfEvenMono(a, b, sd - 53);
        }
      }
    }
  }
}
