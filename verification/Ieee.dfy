/** The binary interchange encodings of IEEE 754-2008, section 3.4, and the values they stand for.
    fp32.h, fp64.h and fp128.h fix the two widths of each format. */
module Ieee {
  import opened Bits

  datatype Format = Format(significandBits: nat, exponentBits: nat) {
    /** Wide enough for infinity to lie above every 128-bit integer, as in all three formats. */
    ghost predicate WellFormed() {
      1 <= significandBits <= 112 && exponentBits >= 8
    }

    function MaxExponent(): (r: nat) {
      Pow2(exponentBits) - 1
    }

    function Bias(): (r: nat) {
      MaxExponent() / 2
    }

    /** Width of the encoding in bits. */
    function Width(): (r: nat) {
      significandBits + exponentBits + 1
    }

    function Negative(x: nat): (r: bool) {
      Shr(x, significandBits + exponentBits) % 2 == 1
    }

    function ExponentField(x: nat): (r: nat) {
      Low(Shr(x, significandBits), exponentBits)
    }

    function Fraction(x: nat): (r: nat) {
      Low(x, significandBits)
    }

    /** Neither an infinity nor a NaN. */
    ghost predicate Finite(x: nat) {
      x < Pow2(Width()) && ExponentField(x) < MaxExponent()
    }

    /** The integral significand, without the implicit bit for subnormal numbers. */
    ghost function Significand(x: nat): (r: nat) {
      if ExponentField(x) == 0 then Fraction(x) else Pow2(significandBits) + Fraction(x)
    }

    /** The power of two that scales the integral significand. */
    ghost function Scale(x: nat): (r: int) {
      (if ExponentField(x) == 0 then 1 else ExponentField(x)) - Bias() - significandBits
    }

    ghost function AbsValue(x: nat): (r: real) {
      Significand(x) as real * RPow2(Scale(x))
    }

    ghost function Value(x: nat): (r: real) {
      if Negative(x) then -AbsValue(x) else AbsValue(x)
    }
  }

  const BINARY32: Format := Format(23, 8)
  const BINARY64: Format := Format(52, 11)
  const BINARY128: Format := Format(112, 15)

  // ---- powers of two over the reals ----

  ghost function RPow2(i: int): (r: real)
    ensures r > 0.0
    decreases if i < 0 then -i else i
  {
    if i == 0 then 1.0 else if i > 0 then 2.0 * RPow2(i - 1) else RPow2(i + 1) / 2.0
  }

  lemma {:induction false} RPow2OfNat(n: nat)
    ensures RPow2(n) == Pow2(n) as real
  {
    if n > 0 { RPow2OfNat(n - 1); }
  }

  lemma RPow2Step(i: int)
    ensures RPow2(i + 1) == 2.0 * RPow2(i)
  {
  }

  lemma RPow2Zero()
    ensures RPow2(0) == 1.0
  {
  }

  lemma RDoubleProduct(a: real, b: real)
    ensures a * (2.0 * b) == 2.0 * (a * b)
  {
  }

  lemma {:induction false} RPow2AddNat(i: int, n: nat)
    ensures RPow2(i + n) == RPow2(i) * RPow2(n)
    decreases n
  {
    hide *;
    if n == 0 {
      RPow2Zero();
    } else {
      RPow2AddNat(i, n - 1);
      RPow2Step(i + n - 1);
      RPow2Step(n - 1);
      RDoubleProduct(RPow2(i), RPow2(n - 1));
    }
  }

  lemma RPow2Add(i: int, j: int)
    ensures RPow2(i + j) == RPow2(i) * RPow2(j)
  {
    hide *;
    if j >= 0 {
      RPow2AddNat(i, j);
    } else {
      RPow2AddNat(i + j, -j);
      RPow2AddNat(j, -j);
      RPow2Zero();
      RCancel(RPow2(i + j), RPow2(-j), RPow2(i), RPow2(j));
    }
  }

  lemma RCancel(sum: real, inv: real, x: real, y: real)
    requires x == sum * inv && y * inv == 1.0
    ensures sum == x * y
  {
    assert x * y == sum * (y * inv);
  }

  lemma {:induction false} RPow2Mono(i: int, j: int)
    requires i <= j
    ensures RPow2(i) <= RPow2(j)
    decreases j - i
  {
    if i < j {
      RPow2Mono(i, j - 1);
      RPow2Step(j - 1);
    }
  }

  lemma RMulMono(a: real, b: real, c: real)
    requires a <= b && c >= 0.0
    ensures a * c <= b * c
  {
  }

  lemma RMulStrict(a: real, b: real, c: real)
    requires a < b && c > 0.0
    ensures a * c < b * c
  {
  }

  lemma SignificandBound(f: Format, x: nat)
    ensures f.Significand(x) < Pow2(f.significandBits + 1)
  {
    hide Low, Shr;
    LowBound(x, f.significandBits);
  }

  lemma AbsValueNonNegative(f: Format, x: nat)
    ensures f.AbsValue(x) >= 0.0
  {
    hide Low, Shr, Pow2;
    RMulMono(0.0, f.Significand(x) as real, RPow2(f.Scale(x)));
  }

  /** Reading back an encoding assembled from its three fields. */
  lemma FieldsOf(f: Format, neg: bool, e: nat, m: nat)
    requires e < Pow2(f.exponentBits) && m < Pow2(f.significandBits)
    ensures var x := (Flag(neg) * Pow2(f.exponentBits) + e) * Pow2(f.significandBits) + m;
            && x < Pow2(f.Width())
            && f.Negative(x) == neg && f.ExponentField(x) == e && f.Fraction(x) == m
  {
    hide Low, Shr, Pow2;
    var p, w, s := Pow2(f.significandBits), Pow2(f.exponentBits), Flag(neg);
    var se := s * w + e;
    var x := se * p + m;
    SplitOf(se, f.significandBits, m);
    SplitOf(s, f.exponentBits, e);
    ShrShr(x, f.significandBits, f.exponentBits);
    assert x < Pow2(f.Width()) by {
      Pow2Succ(f.exponentBits);
      Pow2Add(f.exponentBits + 1, f.significandBits);
      if neg { assert se == w + e; } else { assert se == e; }
      MulMono(se + 1, 2 * w, p);
      assert (se + 1) * p == se * p + p;
    }
  }

  /** Every encoding is assembled from its three fields. */
  lemma FieldsCompose(f: Format, x: nat)
    requires x < Pow2(f.Width())
    ensures x == (Flag(f.Negative(x)) * Pow2(f.exponentBits) + f.ExponentField(x)) * Pow2(f.significandBits)
                 + f.Fraction(x)
    ensures f.ExponentField(x) < Pow2(f.exponentBits) && f.Fraction(x) < Pow2(f.significandBits)
  {
    hide Low, Shr, Pow2;
    var p, w := f.significandBits, f.exponentBits;
    var hi := Shr(x, p);
    Split(x, p);
    Split(hi, w);
    ShrShr(x, p, w);
    TopBit(x, p + w);
  }

  lemma TopBit(x: nat, n: nat)
    requires x < Pow2(n + 1)
    ensures Shr(x, n) == Flag(Shr(x, n) % 2 == 1)
  {
    hide Low, Shr;
    Split(x, n);
    if Shr(x, n) >= 2 { MulMono(2, Shr(x, n), Pow2(n)); }
  }
}
