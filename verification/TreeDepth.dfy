/** libraries/chain/include/eosio/chain/incremental_merkle.hpp, namespace detail: the depth of a
    tree from its leaf count, by smearing and masking bits. */
module TreeDepth {
  import opened Bits
  import opened Merkle

  /** value |= value >> n. */
  function Smear(x: nat, n: nat): (r: nat) {
    BitOr(x, Shr(x, n))
  }

  /** next_power_of_2, in uint64_t. */
  function NextPowerOf2(value: nat): (r: nat) {
    var v0 := (value - 1) % TWO_64;
    var v := Smear(Smear(Smear(Smear(Smear(Smear(v0, 1), 2), 4), 8), 16), 32);
    (v + 1) % TWO_64
  }

  /** The value of lz after the seven tests. */
  function LzAfter(nonZero: bool, m32: bool, m16: bool, m8: bool, m4: bool, m2: bool, m1: bool): (lz: int) {
    64 - Flag(nonZero) - 32 * Flag(m32) - 16 * Flag(m16) - 8 * Flag(m8) - 4 * Flag(m4) - 2 * Flag(m2) - Flag(m1)
  }

  /** clz_power_2. */
  function ClzPower2(value: nat): (lz: int) {
    LzAfter(value != 0,
            BitAnd(value, 0x0000_0000_FFFF_FFFF) != 0,
            BitAnd(value, 0x0000_FFFF_0000_FFFF) != 0,
            BitAnd(value, 0x00FF_00FF_00FF_00FF) != 0,
            BitAnd(value, 0x0F0F_0F0F_0F0F_0F0F) != 0,
            BitAnd(value, 0x3333_3333_3333_3333) != 0,
            BitAnd(value, 0x5555_5555_5555_5555) != 0)
  }

  /** calcluate_max_depth. */
  function MaxDepth(nodeCount: nat): (d: int) {
    if nodeCount == 0 then 0 else ClzPower2(NextPowerOf2(nodeCount)) + 1
  }

  /** x has n bits, and its top t bits are ones. */
  ghost predicate TopOnes(x: nat, n: nat, t: nat) {
    x < Pow2(n) && (if t <= n then Pow2(n) - Pow2(n - t) else Pow2(n) - 1) <= x
  }

  /** Or-ing in a copy shifted by t doubles the number of leading ones. */
  lemma SmearDoubles(x: nat, n: nat, t: nat)
    requires TopOnes(x, n, t) && t > 0
    ensures TopOnes(Smear(x, t), n, 2 * t)
  {
    hide Shr, Low, BitOr, Pow2;
    if t >= n {
      Pow2Mono(n, t);
      LowOfSmall(x, t);
      OrZero(x);
      if t == n { Pow2Of6(); }
    } else {
      var m := n - t;
      var z := Shr(x, t);
      ShiftedOnes(x, m, t);
      LeadingOnes(x, m, t);
      LowBound(x, m);
      Split(x, m);
      OrLow(x, m, z);
      OrBounds(Low(x, m), z, m);
      Pow2Add(t, m);
      assert (Pow2(t) - 1) * Pow2(m) == Pow2(n) - Pow2(m);
    }
  }

  /** The t leading ones, as a quotient. */
  lemma LeadingOnes(x: nat, m: nat, t: nat)
    requires TopOnes(x, m + t, t)
    ensures Shr(x, m) == Pow2(t) - 1
  {
    hide Shr, Low, Pow2;
    Split(x, m);
    Pow2Add(t, m);
    var q, p := Shr(x, m), Pow2(m);
    DistributeMinus(Pow2(t), p);
    QuotientAtLeast(p, q, Low(x, m), Pow2(t) - 1);
    QuotientBelow(p, q, Low(x, m), Pow2(t));
  }

  lemma DistributeMinus(a: int, b: int)
    ensures (a - 1) * b == a * b - b
  {
  }

  /** The shifted copy has its own leading ones, t places lower. */
  lemma ShiftedOnes(x: nat, m: nat, t: nat)
    requires TopOnes(x, m + t, t)
    ensures TopOnes(Shr(x, t), m, t)
  {
    hide Shr, Low, Pow2;
    Split(x, t);
    Pow2Add(m, t);
    QuotientBelow(Pow2(t), Shr(x, t), Low(x, t), Pow2(m));
    if t <= m { ShiftedOnesWide(x, m, t); } else { ShiftedOnesNarrow(x, m, t); }
  }

  lemma ShiftedOnesWide(x: nat, m: nat, t: nat)
    requires TopOnes(x, m + t, t) && t <= m
    ensures Shr(x, t) >= Pow2(m) - Pow2(m - t)
  {
    hide Shr, Low, Pow2;
    Split(x, t);
    var p := Pow2(t);
    assert Pow2(m + t) == Pow2(m) * p by { Pow2Add(m, t); }
    assert Pow2(m) == Pow2(m - t) * p by { Pow2Add(m - t, t); }
    assert (Pow2(m) - Pow2(m - t)) * p == Pow2(m) * p - Pow2(m - t) * p;
    QuotientAtLeast(p, Shr(x, t), Low(x, t), Pow2(m) - Pow2(m - t));
  }

  lemma ShiftedOnesNarrow(x: nat, m: nat, t: nat)
    requires TopOnes(x, m + t, t) && t > m
    ensures Shr(x, t) >= Pow2(m) - 1
  {
    hide Shr, Low, Pow2;
    Split(x, t);
    var p := Pow2(t);
    assert Pow2(m + t) == Pow2(m) * p by { Pow2Add(m, t); }
    Pow2Mono(m, t);
    assert (Pow2(m) - 1) * p == Pow2(m) * p - p;
    QuotientAtLeast(p, Shr(x, t), Low(x, t), Pow2(m) - 1);
  }

  /** The smearing steps fill the word below its leading one: the result is the least power of two
      that is at least n, wrapping to 0 when that is 2^64. */
  lemma NextPowerOf2Is(n: nat)
    requires 0 < n < TWO_64
    ensures NextPowerOf2(n) == Pow2(Depth(n)) % TWO_64
    ensures Depth(n) <= 64
  {
    hide Shr, Low, BitOr, Pow2, BitLength, Smear;
    var v, d := n - 1, Depth(n);
    Pow2Of64();
    BitLengthAtMost(v, 64);
    if n == 1 {
      SmearZero();
      DepthOne();
      Pow2Of6();
    } else {
      BitLengthBounds(v);
      Pow2Succ(d - 1);
      var v1 := Smear(v, 1);
      SmearDoubles(v, d, 1);
      var v2 := Smear(v1, 2);
      SmearDoubles(v1, d, 2);
      var v3 := Smear(v2, 4);
      SmearDoubles(v2, d, 4);
      var v4 := Smear(v3, 8);
      SmearDoubles(v3, d, 8);
      var v5 := Smear(v4, 16);
      SmearDoubles(v4, d, 16);
      var v6 := Smear(v5, 32);
      SmearDoubles(v5, d, 32);
      AllOnes(v6, d);
    }
  }

  lemma SmearZero()
    ensures forall n: nat :: Smear(0, n) == 0
  {
    forall n: nat
      ensures Smear(0, n) == 0
    {
      LowOfSmall(0, n);
    }
  }

  lemma AllOnes(x: nat, d: nat)
    requires d <= 64 && TopOnes(x, d, 64)
    ensures x == Pow2(d) - 1
  {
    if d == 64 { assert Pow2(0) == 1; }
  }

  /** Blocks of b ones alternating with b zeros, ones lowest. */
  ghost function Alternating(b: nat, blocks: nat): (r: nat) {
    if blocks == 0 then 0 else Alternating(b, blocks - 1) * Pow2(2 * b) + (Pow2(b) - 1)
  }

  /** Bit k of an alternating mask is set when k falls into a block of ones. */
  lemma {:induction false} AlternatingBit(b: nat, blocks: nat, k: nat)
    requires b > 0 && k < 2 * b * blocks
    ensures Shr(Alternating(b, blocks), k) % 2 == 1 <==> k / b % 2 == 0
    decreases blocks
  {
    hide Shr, Low, Pow2;
    var hi := Alternating(b, blocks - 1);
    var m := hi * Pow2(2 * b) + (Pow2(b) - 1);
    Pow2Mono(b, 2 * b);
    SplitOf(hi, 2 * b, Pow2(b) - 1);
    assert 2 * b * blocks == 2 * b * (blocks - 1) + 2 * b;
    if k >= 2 * b {
      AlternatingBit(b, blocks - 1, k - 2 * b);
      ShrShr(m, 2 * b, k - 2 * b);
      BlockIndex(b, k);
    } else {
      LowBit(m, k, 2 * b);
      if k < b {
        LowOnes(b, k);
        DivModUnique(k, b, 0, k);
      } else {
        Pow2Mono(b, k);
        LowOfSmall(Pow2(b) - 1, k);
        DivModUnique(k, b, 1, k - b);
      }
    }
  }

  lemma BlockIndex(b: nat, k: nat)
    requires 0 < 2 * b <= k
    ensures k / b % 2 == (k - 2 * b) / b % 2
  {
    var q := (k - 2 * b) / b;
    assert k - 2 * b == q * b + (k - 2 * b) % b;
    assert (q + 2) * b == q * b + 2 * b;
    DivModUnique(k, b, q + 2, (k - 2 * b) % b);
  }

  /** A bit below position n only depends on the low n bits. */
  lemma LowBit(x: nat, k: nat, n: nat)
    requires k < n
    ensures Shr(x, k) % 2 == Shr(Low(x, n), k) % 2
  {
    hide Shr, Pow2, Low;
    LowSplit(x, k, n - k);
    LowBound(x, k);
    LowParity(Shr(x, k), n - k);
    SplitOf(Low(Shr(x, k), n - k), k, Low(x, k));
  }

  lemma {:induction false} LowOnes(b: nat, k: nat)
    requires k < b
    ensures Shr(Pow2(b) - 1, k) % 2 == 1
    decreases k
  {
    if k > 0 {
      assert (Pow2(b) - 1) / 2 == Pow2(b - 1) - 1;
      LowOnes(b - 1, k - 1);
    }
  }

  lemma {:induction false} AndCommutes(x: nat, y: nat)
    ensures BitAnd(x, y) == BitAnd(y, x)
  {
    if x > 0 { AndCommutes(x / 2, y / 2); } else { AndZero(y); }
  }

  lemma MaskTest(b: nat, blocks: nat, k: nat)
    requires b > 0 && k < 2 * b * blocks
    ensures BitAnd(Pow2(k), Alternating(b, blocks)) != 0 <==> k / b % 2 == 0
  {
    hide Shr, Pow2, BitAnd, Alternating;
    AlternatingBit(b, blocks, k);
    AndBit(Alternating(b, blocks), k);
    AndCommutes(Pow2(k), Alternating(b, blocks));
  }

  lemma {:induction false} AlternatingAdd(b: nat, m: nat, n: nat)
    ensures Alternating(b, m + n) == Alternating(b, m) * Pow2(2 * b * n) + Alternating(b, n)
    decreases n
  {
    hide Pow2;
    if n == 0 {
      Pow2Of6();
    } else {
      AlternatingAdd(b, m, n - 1);
      var p, q := Pow2(2 * b), Pow2(2 * b * (n - 1));
      assert 2 * b * n == 2 * b * (n - 1) + 2 * b;
      Pow2Add(2 * b * (n - 1), 2 * b);
      Distribute(Alternating(b, m), q, Alternating(b, n - 1), p);
    }
  }

  lemma Distribute(x: nat, q: nat, y: nat, p: nat)
    ensures (x * q + y) * p == x * (q * p) + y * p
  {
    assert x * q * p == x * (q * p);
  }

  lemma Mask32()
    ensures Alternating(32, 1) == 0x0000_0000_FFFF_FFFF
  {
    Pow2Of32();
  }

  lemma Mask16()
    ensures Alternating(16, 2) == 0x0000_FFFF_0000_FFFF
  {
    Pow2Of16();
    Pow2Of32();
    assert Alternating(16, 1) == 0xFFFF;
  }

  lemma Mask8()
    ensures Alternating(8, 4) == 0x00FF_00FF_00FF_00FF
  {
    Pow2Of16();
    Pow2Of32();
    Pow2Plus4(0);
    Pow2Plus4(4);
    assert Alternating(8, 1) == 0xFF;
    assert Alternating(8, 2) == 0x00FF_00FF;
    AlternatingAdd(8, 2, 2);
  }

  lemma Mask4()
    ensures Alternating(4, 8) == 0x0F0F_0F0F_0F0F_0F0F
  {
    Pow2Of16();
    Pow2Of32();
    Pow2Plus4(0);
    Pow2Plus4(4);
    assert Alternating(4, 1) == 0x0F;
    assert Alternating(4, 2) == 0x0F0F;
    AlternatingAdd(4, 2, 2);
    AlternatingAdd(4, 4, 4);
  }

  lemma Mask2()
    ensures Alternating(2, 16) == 0x3333_3333_3333_3333
  {
    Pow2Of16();
    Pow2Of32();
    Pow2Of6();
    Pow2Plus4(4);
    assert Alternating(2, 1) == 0x3;
    assert Alternating(2, 2) == 0x33;
    AlternatingAdd(2, 2, 2);
    AlternatingAdd(2, 4, 4);
    AlternatingAdd(2, 8, 8);
  }

  lemma Mask1()
    ensures Alternating(1, 32) == 0x5555_5555_5555_5555
  {
    Pow2Of16();
    Pow2Of32();
    Pow2Of6();
    Pow2Plus4(4);
    assert Alternating(1, 1) == 0x1;
    assert Alternating(1, 2) == 0x5;
    AlternatingAdd(1, 2, 2);
    AlternatingAdd(1, 4, 4);
    AlternatingAdd(1, 8, 8);
    AlternatingAdd(1, 16, 16);
  }

  lemma MaskTests(k: nat)
    requires k < 64
    ensures BitAnd(Pow2(k), 0x0000_0000_FFFF_FFFF) != 0 <==> k / 32 % 2 == 0
    ensures BitAnd(Pow2(k), 0x0000_FFFF_0000_FFFF) != 0 <==> k / 16 % 2 == 0
    ensures BitAnd(Pow2(k), 0x00FF_00FF_00FF_00FF) != 0 <==> k / 8 % 2 == 0
    ensures BitAnd(Pow2(k), 0x0F0F_0F0F_0F0F_0F0F) != 0 <==> k / 4 % 2 == 0
    ensures BitAnd(Pow2(k), 0x3333_3333_3333_3333) != 0 <==> k / 2 % 2 == 0
    ensures BitAnd(Pow2(k), 0x5555_5555_5555_5555) != 0 <==> k % 2 == 0
  {
    hide BitAnd, Pow2, Alternating;
    Mask32();
    MaskTest(32, 1, k);
    Mask16();
    MaskTest(16, 2, k);
    Mask8();
    MaskTest(8, 4, k);
    Mask4();
    MaskTest(4, 8, k);
    Mask2();
    MaskTest(2, 16, k);
    Mask1();
    MaskTest(1, 32, k);
  }

  /** On a power of two the mask tests read off the exponent bit by bit. */
  lemma ClzPower2Counts(k: nat)
    requires k < 64
    ensures ClzPower2(Pow2(k)) == k
  {
    hide BitAnd, Pow2, LzAfter;
    MaskTests(k);
    SixBits(k);
  }

  lemma SixBits(k: nat)
    requires k < 64
    ensures LzAfter(true, k / 32 % 2 == 0, k / 16 % 2 == 0, k / 8 % 2 == 0, k / 4 % 2 == 0, k / 2 % 2 == 0, k % 2 == 0) == k
  {
    hide LzAfter;
    var k1, k2, k3, k4, k5 := k / 2, k / 4, k / 8, k / 16, k / 32;
    Halves(k);
    LzSum(k5 % 2, k4 % 2, k3 % 2, k2 % 2, k1 % 2, k % 2);
  }

  lemma Halves(k: nat)
    ensures k / 4 == k / 2 / 2 && k / 8 == k / 4 / 2 && k / 16 == k / 8 / 2 && k / 32 == k / 16 / 2
  {
  }

  lemma LzSum(b5: nat, b4: nat, b3: nat, b2: nat, b1: nat, b0: nat)
    requires b5 < 2 && b4 < 2 && b3 < 2 && b2 < 2 && b1 < 2 && b0 < 2
    ensures LzAfter(true, b5 == 0, b4 == 0, b3 == 0, b2 == 0, b1 == 0, b0 == 0)
            == 32 * b5 + 16 * b4 + 8 * b3 + 4 * b2 + 2 * b1 + b0
  {
  }

  /** The depth is right for every 64-bit count, also where the next power of two wraps to 0. */
  lemma MaxDepthIs(n: nat)
    requires 0 < n < TWO_64
    ensures MaxDepth(n) == Depth(n) + 1
  {
    hide BitAnd, BitOr, Pow2, Shr, BitLength, NextPowerOf2, ClzPower2;
    NextPowerOf2Is(n);
    Pow2Of64();
    var d := Depth(n);
    if d < 64 {
      Pow2Mono(d, 63);
      ClzPower2Counts(d);
    } else {
      ClzZero();
    }
  }

  lemma ClzZero()
    ensures ClzPower2(0) == 64
  {
  }
}
