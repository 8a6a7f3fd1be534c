/** Powers of two and the bitwise operators of C on unsigned integers, as functions on `nat` that
    recurse bit by bit, with the identities that turn masks and shifts into arithmetic. */
module Bits {

  const TWO_32: nat := 0x1_0000_0000
  const TWO_52: nat := 0x10_0000_0000_0000
  const TWO_53: nat := 0x20_0000_0000_0000
  const TWO_63: nat := 0x8000_0000_0000_0000
  const TWO_64: nat := 0x1_0000_0000_0000_0000
  const TWO_127: nat := 0x8000_0000_0000_0000_0000_0000_0000_0000
  const TWO_128: nat := 0x1_0000_0000_0000_0000_0000_0000_0000_0000

  function Pow2(n: nat): (r: nat)
    ensures r > 0
  {
    if n == 0 then 1 else 2 * Pow2(n - 1)
  }

  function BitAnd(x: nat, y: nat): (r: nat)
    decreases x
  {
    if x == 0 then 0
    else 2 * BitAnd(x / 2, y / 2) + (if x % 2 == 1 && y % 2 == 1 then 1 else 0)
  }

  function BitOr(x: nat, y: nat): (r: nat)
    decreases x + y
  {
    if x == 0 && y == 0 then 0
    else 2 * BitOr(x / 2, y / 2) + (if x % 2 == 1 || y % 2 == 1 then 1 else 0)
  }

  /** `x >> n` on an unsigned operand. */
  function Shr(x: nat, n: nat): (r: nat)
    decreases n
  {
    if n == 0 then x else Shr(x / 2, n - 1)
  }

  /** The low n bits of x. */
  function Low(x: nat, n: nat): (r: nat)
    decreases n
  {
    if n == 0 then 0 else 2 * Low(x / 2, n - 1) + x % 2
  }

  /** `x << n` in an unsigned type of `width` bits. */
  function Shl(x: nat, n: nat, width: nat): (r: nat) {
    Low(x * Pow2(n), width)
  }

  /** The C conversion of a comparison to an integer. */
  function Flag(b: bool): (r: nat) {
    if b then 1 else 0
  }

  /** Number of significant binary digits; 0 for 0. */
  function BitLength(x: nat): (r: nat) {
    if x == 0 then 0 else 1 + BitLength(x / 2)
  }

  // ---- products ----

  lemma MulMono(a: int, b: int, c: int)
    requires a <= b && c >= 0
    ensures a * c <= b * c
  {
  }

  lemma DoubleProduct(a: int, b: int)
    ensures a * (2 * b) == 2 * (a * b)
  {
  }

  lemma MultipleIsLarge(k: int, d: int)
    requires d > 0
    ensures k > 0 ==> k * d >= d
    ensures k < 0 ==> k * d <= -d
  {
  }

  lemma DivModUnique(x: int, d: int, q: int, r: int)
    requires d > 0 && x == q * d + r && 0 <= r < d
    ensures x / d == q && x % d == r
  {
    var k := x / d - q;
    assert k * d == (x / d) * d - q * d;
    assert k * d == r - x % d;
    MultipleIsLarge(k, d);
  }

  /** Quotient and remainder are determined by the split, whatever computed them. */
  lemma SplitUnique(d: int, q: int, r: int, q': int, r': int)
    requires q * d + r == q' * d + r' && 0 <= r < d && 0 <= r' < d
    ensures q == q' && r == r'
  {
    assert (q - q') * d == r' - r;
    MultipleIsLarge(q - q', d);
  }

  lemma QuotientAtLeast(d: nat, q: int, r: int, lo: int)
    requires 0 <= r < d && lo * d <= q * d + r
    ensures q >= lo
  {
    assert (q + 1) * d == q * d + d;
    if q < lo { MulMono(q + 1, lo, d); }
  }

  lemma QuotientBelow(d: nat, q: int, r: int, hi: int)
    requires 0 <= r < d && q * d + r < hi * d
    ensures q < hi
  {
    if q >= hi { MulMono(hi, q, d); }
  }

  // ---- powers of two ----

  lemma {:induction false} Pow2Add(m: nat, n: nat)
    ensures Pow2(m + n) == Pow2(m) * Pow2(n)
  {
    if m > 0 {
      Pow2Add(m - 1, n);
      assert Pow2(m + n) == 2 * Pow2(m - 1 + n);
    }
  }

  lemma {:induction false} Pow2Mono(m: nat, n: nat)
    requires m <= n
    ensures Pow2(m) <= Pow2(n)
    ensures m < n ==> 2 * Pow2(m) <= Pow2(n)
  {
    if m < n { Pow2Mono(m, n - 1); }
  }

  lemma Pow2Succ(n: nat)
    ensures Pow2(n + 1) == 2 * Pow2(n)
  {
  }

  lemma Pow2Plus4(n: nat)
    ensures Pow2(n + 4) == 16 * Pow2(n)
  {
    assert Pow2(n + 4) == 2 * Pow2(n + 3);
    assert Pow2(n + 3) == 2 * Pow2(n + 2);
    assert Pow2(n + 2) == 2 * Pow2(n + 1);
  }

  lemma Pow2Plus16(n: nat)
    ensures Pow2(n + 16) == 0x1_0000 * Pow2(n)
  {
    Pow2Plus4(n);
    Pow2Plus4(n + 4);
    Pow2Plus4(n + 8);
    Pow2Plus4(n + 12);
  }

  lemma Pow2Of6()
    ensures Pow2(0) == 1 && Pow2(1) == 2 && Pow2(2) == 4 && Pow2(4) == 16 && Pow2(5) == 32 && Pow2(6) == 64
  {
  }

  lemma Pow2Of16()
    ensures Pow2(16) == 0x1_0000 && Pow2(20) == 0x10_0000
  {
    Pow2Plus16(0);
    Pow2Plus4(16);
  }

  lemma Pow2Of32()
    ensures Pow2(32) == TWO_32 && Pow2(31) == 0x8000_0000
  {
    Pow2Of16();
    Pow2Plus16(16);
    assert Pow2(32) == 2 * Pow2(31);
  }

  lemma Pow2Of52()
    ensures Pow2(52) == TWO_52 && Pow2(53) == TWO_53
  {
    Pow2Of32();
    Pow2Plus16(32);
    Pow2Plus4(48);
    assert Pow2(53) == 2 * Pow2(52);
  }

  lemma Pow2Of64()
    ensures Pow2(64) == TWO_64 && Pow2(63) == TWO_63
  {
    Pow2Of32();
    Pow2Plus16(32);
    Pow2Plus16(48);
    assert Pow2(64) == 2 * Pow2(63);
  }

  lemma Pow2Of128()
    ensures Pow2(128) == TWO_128 && Pow2(127) == TWO_127
  {
    Pow2Of64();
    Pow2Plus16(64);
    Pow2Plus16(80);
    Pow2Plus16(96);
    Pow2Plus16(112);
    assert Pow2(128) == 2 * Pow2(127);
  }

  // ---- splitting at a bit ----

  lemma {:induction false} LowBound(x: nat, n: nat)
    ensures Low(x, n) < Pow2(n)
    decreases n
  {
    if n > 0 { LowBound(x / 2, n - 1); }
  }

  lemma {:induction false} Split(x: nat, n: nat)
    ensures x == Shr(x, n) * Pow2(n) + Low(x, n)
    ensures Low(x, n) < Pow2(n)
    decreases n
  {
    if n > 0 {
      Split(x / 2, n - 1);
      DoubleProduct(Shr(x, n), Pow2(n - 1));
    }
  }

  lemma LowParity(x: nat, n: nat)
    requires n > 0
    ensures Low(x, n) % 2 == x % 2
  {
  }

  /** A sum with a low part below 2^n is split by Shr and Low. */
  lemma SplitOf(hi: nat, n: nat, lo: nat)
    requires lo < Pow2(n)
    ensures Shr(hi * Pow2(n) + lo, n) == hi && Low(hi * Pow2(n) + lo, n) == lo
  {
    var x := hi * Pow2(n) + lo;
    Split(x, n);
    SplitUnique(Pow2(n), Shr(x, n), Low(x, n), hi, lo);
  }

  lemma ShrIsDiv(x: nat, n: nat)
    ensures Shr(x, n) == x / Pow2(n) && Low(x, n) == x % Pow2(n)
  {
    Split(x, n);
    DivModUnique(x, Pow2(n), Shr(x, n), Low(x, n));
  }

  lemma {:induction false} LowOfSmall(x: nat, n: nat)
    requires x < Pow2(n)
    ensures Low(x, n) == x && Shr(x, n) == 0
    decreases n
  {
    if n > 0 { LowOfSmall(x / 2, n - 1); }
  }

  lemma ShlFits(x: nat, n: nat, width: nat)
    requires x * Pow2(n) < Pow2(width)
    ensures Shl(x, n, width) == x * Pow2(n)
  {
    LowOfSmall(x * Pow2(n), width);
  }

  lemma {:induction false} ShrShr(x: nat, m: nat, n: nat)
    ensures Shr(Shr(x, m), n) == Shr(x, m + n)
    decreases m
  {
    if m > 0 { ShrShr(x / 2, m - 1, n); }
  }

  /** The low m+n bits, split at bit m. */
  lemma {:induction false} LowSplit(x: nat, m: nat, n: nat)
    ensures Low(x, m + n) == Low(Shr(x, m), n) * Pow2(m) + Low(x, m)
    decreases m
  {
    if m > 0 {
      LowSplit(x / 2, m - 1, n);
      DoubleProduct(Low(Shr(x, m), n), Pow2(m - 1));
    }
  }

  lemma {:induction false} ShrMono(x: nat, y: nat, n: nat)
    requires x <= y
    ensures Shr(x, n) <= Shr(y, n)
    decreases n
  {
    if n > 0 { ShrMono(x / 2, y / 2, n - 1); }
  }

  // ---- bit length ----

  lemma {:induction false} BitLengthBounds(x: nat)
    requires x > 0
    ensures BitLength(x) > 0
    ensures Pow2(BitLength(x) - 1) <= x < Pow2(BitLength(x))
  {
    if x > 1 { BitLengthBounds(x / 2); }
  }

  lemma {:induction false} BitLengthAtMost(x: nat, n: nat)
    requires x < Pow2(n)
    ensures BitLength(x) <= n
    decreases n
  {
    if n > 0 { BitLengthAtMost(x / 2, n - 1); }
  }

  lemma {:induction false} BitLengthMono(x: nat, y: nat)
    requires x <= y
    ensures BitLength(x) <= BitLength(y)
  {
    if x > 0 { BitLengthMono(x / 2, y / 2); }
  }

  lemma {:induction false} BitLengthShr(x: nat, n: nat)
    requires x >= Pow2(n)
    ensures BitLength(x) == BitLength(Shr(x, n)) + n
    decreases n
  {
    if n > 0 { BitLengthShr(x / 2, n - 1); }
  }

  // ---- masks ----

  lemma {:induction false} AndZero(x: nat)
    ensures BitAnd(x, 0) == 0
  {
    if x > 0 { AndZero(x / 2); }
  }

  /** One step of `&`, on the low bit of a mask written as 2h + b. */
  lemma AndStep(x: nat, h: nat, b: nat)
    requires b < 2
    ensures BitAnd(x, 2 * h + b) == 2 * BitAnd(x / 2, h) + (if x % 2 == 1 && b == 1 then 1 else 0)
  {
    assert (2 * h + b) / 2 == h && (2 * h + b) % 2 == b;
  }

  /** One step of `|`, on operands written as 2x + c and 2y + d. */
  lemma OrStep(x: nat, c: nat, y: nat, d: nat)
    requires c < 2 && d < 2
    ensures BitOr(2 * x + c, 2 * y + d) == 2 * BitOr(x, y) + (if c == 1 || d == 1 then 1 else 0)
  {
    assert (2 * x + c) / 2 == x && (2 * x + c) % 2 == c;
    assert (2 * y + d) / 2 == y && (2 * y + d) % 2 == d;
  }

  lemma {:induction false} AndMask(x: nat, n: nat)
    ensures BitAnd(x, Pow2(n) - 1) == Low(x, n)
    decreases n
  {
    if n == 0 {
      AndZero(x);
    } else {
      AndMask(x / 2, n - 1);
      AndStep(x, Pow2(n - 1) - 1, 1);
    }
  }

  lemma {:induction false} AndBit(x: nat, n: nat)
    ensures BitAnd(x, Pow2(n)) == if Shr(x, n) % 2 == 1 then Pow2(n) else 0
    decreases n
  {
    if n == 0 {
      AndStep(x, 0, 1);
      AndZero(x / 2);
    } else {
      AndBit(x / 2, n - 1);
      AndStep(x, Pow2(n - 1), 0);
    }
  }

  /** A mask of bits m .. m+n-1. */
  lemma {:induction false} AndField(x: nat, m: nat, n: nat)
    ensures Pow2(m) <= Pow2(m + n)
    ensures BitAnd(x, Pow2(m + n) - Pow2(m)) == Low(x, m + n) - Low(x, m)
    decreases m
  {
    hide BitAnd;
    Pow2Mono(m, m + n);
    if m == 0 {
      AndMask(x, n);
    } else {
      AndField(x / 2, m - 1, n);
      Pow2Succ(m - 1 + n);
      AndStep(x, Pow2(m - 1 + n) - Pow2(m - 1), 0);
    }
  }

  lemma And64(x: nat)
    ensures BitAnd(x, 0xFFFF_FFFF_FFFF_FFFF) == x % TWO_64
  {
    Pow2Of64();
    AndMask(x, 64);
    ShrIsDiv(x, 64);
  }

  lemma {:induction false} OrZero(x: nat)
    ensures BitOr(x, 0) == x && BitOr(0, x) == x
  {
    if x > 0 { OrZero(x / 2); }
  }

  lemma {:induction false} OrBounds(y: nat, z: nat, n: nat)
    requires y < Pow2(n) && z < Pow2(n)
    ensures BitOr(y, z) < Pow2(n) && BitOr(y, z) >= y && BitOr(y, z) >= z
    decreases n
  {
    if n > 0 {
      OrBounds(y / 2, z / 2, n - 1);
      OrStep(y / 2, y % 2, z / 2, z % 2);
    }
  }

  /** An `or` that only touches the low n bits leaves the high part in place. */
  lemma {:induction false} OrLow(x: nat, n: nat, z: nat)
    requires z < Pow2(n)
    ensures BitOr(x, z) == x - Low(x, n) + BitOr(Low(x, n), z)
    decreases n
  {
    if n == 0 {
      OrZero(x);
    } else {
      OrLow(x / 2, n - 1, z / 2);
      OrStep(x / 2, x % 2, z / 2, z % 2);
      OrStep(Low(x / 2, n - 1), x % 2, z / 2, z % 2);
    }
  }

  lemma OrDisjoint(hi: nat, n: nat, lo: nat)
    requires lo < Pow2(n)
    ensures BitOr(hi * Pow2(n), lo) == hi * Pow2(n) + lo
  {
    SplitOf(hi, n, 0);
    OrLow(hi * Pow2(n), n, lo);
    OrZero(lo);
  }

  lemma {:induction false} OrCommutes(x: nat, y: nat)
    ensures BitOr(x, y) == BitOr(y, x)
    decreases x + y
  {
    if x > 0 || y > 0 { OrCommutes(x / 2, y / 2); }
  }

  /** An `or` with a 0/1 flag only sets the lowest bit. */
  lemma OrFlag(x: nat, b: bool)
    ensures BitOr(x, Flag(b)) == if b && x % 2 == 0 then x + 1 else x
  {
    OrStep(x / 2, x % 2, 0, Flag(b));
    OrZero(x / 2);
  }

  /** A mask of all `width` bits but bit n clears that bit. */
  lemma {:induction false} ClearBit(x: nat, n: nat, width: nat)
    requires n < width && x < Pow2(width)
    ensures Pow2(n) < Pow2(width)
    ensures BitAnd(x, Pow2(width) - 1 - Pow2(n)) == x - (if Shr(x, n) % 2 == 1 then Pow2(n) else 0)
    decreases n
  {
    hide BitAnd;
    Pow2Mono(n, width);
    if n == 0 {
      AndStep(x, Pow2(width - 1) - 1, 0);
      AndMask(x / 2, width - 1);
      LowOfSmall(x / 2, width - 1);
    } else {
      Pow2Mono(n - 1, width - 1);
      ClearBit(x / 2, n - 1, width - 1);
      AndStep(x, Pow2(width - 1) - 1 - Pow2(n - 1), 1);
    }
  }

  lemma {:induction false} SetBit(x: nat, n: nat)
    ensures BitOr(x, Pow2(n)) == x + (if Shr(x, n) % 2 == 1 then 0 else Pow2(n))
    decreases n
  {
    hide BitOr;
    if n == 0 {
      OrStep(x / 2, x % 2, 0, 1);
      OrZero(x / 2);
    } else {
      SetBit(x / 2, n - 1);
      OrStep(x / 2, x % 2, Pow2(n - 1), 0);
    }
  }
}
