/** name_suffix of unittests/misc_tests.cpp: the part of a name after its last dot, by masks and
    shifts on the 64-bit value. */
module NameSuffix {
  import opened Bits
  import opened Names

  /** The last position below n with a dot, or -1. */
  ghost function LastDot(ds: seq<nat>, n: nat): (k: int)
    requires n <= |ds|
    ensures -1 <= k < n && (k >= 0 ==> ds[k] == 0) && forall j :: k < j < n ==> ds[j] != 0
  {
    if n == 0 then -1 else if ds[n - 1] == 0 then n - 1 else LastDot(ds, n - 1)
  }

  /** The last position below n without a dot, or -1. */
  ghost function LastSymbol(ds: seq<nat>, n: nat): (k: int)
    requires n <= |ds|
    ensures -1 <= k < n && (k >= 0 ==> ds[k] != 0) && forall j :: k < j < n ==> ds[j] == 0
  {
    if n == 0 then -1 else if ds[n - 1] != 0 then n - 1 else LastSymbol(ds, n - 1)
  }

  /** The last dot that some symbol below n follows, or -1. */
  ghost function ActualDot(ds: seq<nat>, n: nat): (k: int)
    requires n <= |ds|
  {
    var l := LastSymbol(ds, n);
    if l < 0 then -1 else LastDot(ds, l)
  }

  /** The bits to the right of symbol k, the encoding the loop keeps; 0 stands for no dot. */
  function BitsAfter(k: int): (r: int) {
    if k < 0 then 0 else 59 - 5 * k
  }

  /** The part of a string after its last dot. */
  ghost function AfterLastDot(s: string): (r: string) {
    if '.' !in s then s
    else if s[|s| - 1] == '.' then []
    else AfterLastDot(s[..|s| - 1]) + [s[|s| - 1]]
  }

  lemma {:induction false} AfterLastDotAt(s: string, k: nat)
    requires k < |s| && s[k] == '.' && forall j :: k < j < |s| ==> s[j] != '.'
    ensures AfterLastDot(s) == s[k + 1..]
    decreases |s|
  {
    if k < |s| - 1 {
      var front := s[..|s| - 1];
      AfterLastDotAt(front, k);
      assert s[k + 1..] == front[k + 1..] + [s[|s| - 1]];
    }
  }

  /** The symbols of the suffix: those after position k, moved to the front. */
  ghost function Moved(ds: seq<nat>, k: nat): (r: seq<nat>)
    requires |ds| == 13 && k < 12
    ensures |r| == 13
  {
    ds[k + 1..] + seq(k + 1, _ => 0)
  }

  lemma MovedIsSymbols(ds: seq<nat>, k: nat)
    requires IsSymbols(ds) && k < 12
    ensures IsSymbols(Moved(ds, k))
  {
  }

  /** The mask and the two shifts of the closing expression put every symbol into its new slot; the
      4-bit 13th symbol goes into a 5-bit one. */
  lemma SuffixValue(n: nat, k: nat)
    requires n < TWO_64 && k < 12
    ensures var rest := BitsAfter(k);
            var shift := 64 - rest;
            && 4 <= rest <= 59 && Shl(1, rest, 64) >= 16
            && (Shl(BitAnd(n, Shl(1, rest, 64) - 16), shift, 64) + Shl(Low(n, 4), shift - 1, 64)) % TWO_64
               == FromDigits(Moved(Digits(n, 13), k))
  {
    hide Pow2, Shl, BitAnd, Low, Shr, Base32, Digits, Digit;
    var rest, shift := 59 - 5 * k, 5 + 5 * k;
    var ds := Digits(n, 13);
    FromDigitsOf(n);
    MovedIsSymbols(ds, k);
    DigitsOfFrom(Moved(ds, k));
    MaskedPart(n, k);
    LastPart(n, k);
    MovedValue(ds, k);
    Pow2Mono(rest, 64);
    Pow2Of6();
    Pow2Mono(4, rest);
    ShlFits(1, rest, 64);
  }

  lemma MaskedPart(n: nat, k: nat)
    requires n < TWO_64 && k < 12
    ensures var rest := 59 - 5 * k;
            && Shl(1, rest, 64) >= 16
            && Shl(BitAnd(n, Shl(1, rest, 64) - 16), 5 + 5 * k, 64)
               == Base32(Digits(n, 13)[k + 1..12]) * 16 * Pow2(5 + 5 * k)
  {
    hide Pow2, Shl, BitAnd, Low, Shr, Base32, Digits, Digit;
    var rest, len := 59 - 5 * k, 55 - 5 * k;
    Pow2Of6();
    Pow2Mono(rest, 64);
    Pow2Mono(4, rest);
    ShlFits(1, rest, 64);
    AndField(n, 4, len);
    LowSplit(n, 4, len);
    MiddleSymbols(n, k);
    var b := Low(Shr(n, 4), len);
    LowBound(Shr(n, 4), len);
    Pow2Add(len, 4);
    Pow2Add(rest, 5 + 5 * k);
    MulMono(b + 1, Pow2(len), 16);
    MulMono(b * 16 + 1, Pow2(rest), Pow2(5 + 5 * k));
    assert (b * 16 + 1) * Pow2(5 + 5 * k) == b * 16 * Pow2(5 + 5 * k) + Pow2(5 + 5 * k);
    ShlFits(b * 16, 5 + 5 * k, 64);
  }

  /** The 5-bit symbols after position k, as a number. */
  lemma MiddleSymbols(n: nat, k: nat)
    requires n < TWO_64 && k < 12
    ensures Low(Shr(n, 4), 55 - 5 * k) == Base32(Digits(n, 13)[k + 1..12])
  {
    hide Pow2, Low, Shr, Base32, Digits, Digit;
    var ds, len := Digits(n, 13), 55 - 5 * k;
    FromDigitsOf(n);
    var mid := ds[k + 1..12];
    assert ds[..12] == ds[..k + 1] + mid;
    Base32Concat(ds[..k + 1], mid);
    Base32Bound(mid);
    Pow2Of6();
    SplitOf(Base32(ds[..12]), 4, ds[12]);
    SplitOf(Base32(ds[..k + 1]), len, Base32(mid));
  }

  lemma {:induction false} Base32Concat(a: seq<nat>, b: seq<nat>)
    ensures Base32(a + b) == Base32(a) * Pow2(5 * |b|) + Base32(b)
    decreases |b|
  {
    hide Pow2;
    Pow2Of6();
    if b == [] {
      assert a + b == a;
    } else {
      var front, last := b[..|b| - 1], b[|b| - 1];
      Base32Concat(a, front);
      assert (a + b)[..|a + b| - 1] == a + front;
      Pow2Add(5 * |front|, 5);
      Regroup(Base32(a), Pow2(5 * |front|), 32);
      assert (Base32(a) * Pow2(5 * |front|) + Base32(front)) * 32 + last
             == Base32(a) * Pow2(5 * |front|) * 32 + Base32(front) * 32 + last;
    }
  }

  lemma LastPart(n: nat, k: nat)
    requires n < TWO_64 && k < 12
    ensures Shl(Low(n, 4), 4 + 5 * k, 64) == Digits(n, 13)[12] * Pow2(4 + 5 * k)
  {
    hide Pow2, Shl, Low;
    LowBound(n, 4);
    Pow2Of6();
    MulMono(Low(n, 4) + 1, 16, Pow2(4 + 5 * k));
    assert (Low(n, 4) + 1) * Pow2(4 + 5 * k) == Low(n, 4) * Pow2(4 + 5 * k) + Pow2(4 + 5 * k);
    Pow2Add(4, 4 + 5 * k);
    Pow2Mono(8 + 5 * k, 64);
    ShlFits(Low(n, 4), 4 + 5 * k, 64);
  }

  lemma MovedValue(ds: seq<nat>, k: nat)
    requires IsSymbols(ds) && k < 12
    ensures FromDigits(Moved(ds, k)) == Base32(ds[k + 1..12]) * 16 * Pow2(5 + 5 * k) + ds[12] * Pow2(4 + 5 * k)
  {
    hide Pow2, Base32;
    var m, mid := Moved(ds, k), ds[k + 1..12];
    var j := 12 - k;
    Base32Zeros(m[..12], j);
    assert m[..12][..j] == ds[k + 1..] == mid + [ds[12]];
    Base32One(mid, ds[12]);
    Pow2Of6();
    Pow2Add(5 * k, 4);
    Pow2Add(5 * k, 5);
    Expand(Base32(mid), ds[12], Pow2(5 * k));
  }

  lemma Base32One(a: seq<nat>, d: nat)
    ensures Base32(a + [d]) == Base32(a) * 32 + d
  {
    assert (a + [d])[..|a|] == a;
  }

  lemma Expand(b: nat, d: nat, p: nat)
    ensures (b * 32 + d) * p * 16 == b * 16 * (p * 32) + d * (p * 16)
  {
    assert (b * 32 + d) * p == b * 32 * p + d * p;
    assert b * 32 * p * 16 == b * 16 * (p * 32);
  }

  /** The symbol the loop looks at. */
  lemma SymbolAt(n: nat, i: nat)
    requires i < 13
    ensures i < 12 ==> BitAnd(Shr(n, 59 - 5 * i), 0x1f) == Digits(n, 13)[i]
    ensures i == 12 ==> BitAnd(n, 0x0f) == Low(n, 4) == Digits(n, 13)[i]
  {
    hide Pow2, BitAnd, Low, Shr;
    Pow2Of6();
    if i < 12 { AndMask(Shr(n, 59 - 5 * i), 5); } else { AndMask(n, 4); }
  }

  /** The loop of name_suffix counts bits to the right: a dot is remembered until a symbol follows. */
  method BitsAfterLastActualDot(n: nat) returns (remaining: nat)
    ensures remaining == BitsAfter(ActualDot(Digits(n, 13), 13))
  {
    hide BitAnd, Shr, LastDot, LastSymbol, Digit, ActualDot;
    ghost var ds := Digits(n, 13);
    ghost var i := 0;
    EmptyPrefix(ds);
    var tmp := 0;
    remaining := 0;
    var bits := 59;
    while bits >= 4
      invariant 0 <= i <= 12 && bits == 59 - 5 * i
      invariant tmp == BitsAfter(LastDot(ds, i)) && remaining == BitsAfter(ActualDot(ds, i))
      decreases bits
    {
      DotStep(ds, i);
      SymbolAt(n, i);
      var c := BitAnd(Shr(n, bits), 0x1f);
      if c == 0 {
        tmp := bits;
      } else {
        remaining := tmp;
      }
      bits := bits - 5;
      i := i + 1;
    }
    DotStep(ds, 12);
    SymbolAt(n, 12);
    var thirteenth := BitAnd(n, 0x0f);
    if thirteenth != 0 {
      remaining := tmp;
    }
  }

  /** name_suffix: the suffix of a name, rendered, is the rendered name after its last dot. */
  method Suffix(n: nat) returns (r: nat)
    requires n < TWO_64
    ensures r < TWO_64 && Render(r) == AfterLastDot(Render(n))
  {
    hide Shl, BitAnd, Low, Render, AfterLastDot, FromDigits, ActualDot, Digits, Moved;
    var remaining := BitsAfterLastActualDot(n);
    var thirteenth := BitAnd(n, 0x0f);
    ghost var k := ActualDot(Digits(n, 13), 13);
    ActualDotBound(Digits(n, 13));
    SymbolAt(n, 12);
    if remaining == 0 {
      NoDot(n);
      return n;
    }
    SuffixValue(n, k);
    SuffixRenders(n, k);
    var mask := Shl(1, remaining, 64) - 16;
    var shift := 64 - remaining;
    r := (Shl(BitAnd(n, mask), shift, 64) + Shl(thirteenth, shift - 1, 64)) % TWO_64;
  }

  lemma EmptyPrefix(ds: seq<nat>)
    ensures LastDot(ds, 0) == -1 && ActualDot(ds, 0) == -1
  {
  }

  lemma DotStep(ds: seq<nat>, i: nat)
    requires i < |ds|
    ensures LastDot(ds, i + 1) == if ds[i] == 0 then i else LastDot(ds, i)
    ensures ActualDot(ds, i + 1) == if ds[i] == 0 then ActualDot(ds, i) else LastDot(ds, i)
  {
  }

  lemma ActualDotBound(ds: seq<nat>)
    requires |ds| == 13
    ensures -1 <= ActualDot(ds, 13) < 12
  {
  }

  /** The rendered name ends with its last symbol. */
  lemma RenderEnds(v: nat)
    requires v < TWO_64
    ensures var l := LastSymbol(Digits(v, 13), 13);
            |Render(v)| == l + 1 && forall i :: 0 <= i <= l ==>
              Digit(v, i) < 32 && Render(v)[i] == CHARMAP[Digit(v, i)] && (Render(v)[i] == '.' <==> Digit(v, i) == 0)
  {
    hide Low, Shr, Pow2, CHARMAP, Trim, Chars, Base32, Digit;
    var ds := Digits(v, 13);
    FromDigitsOf(v);
    CharsAboveDot(ds);
    TrimAt(Chars(ds), LastSymbol(ds, 13) + 1);
  }

  lemma NoDot(n: nat)
    requires n < TWO_64 && ActualDot(Digits(n, 13), 13) < 0
    ensures AfterLastDot(Render(n)) == Render(n)
  {
    hide Render, CHARMAP, Digit;
    RenderEnds(n);
    var s := Render(n);
    assert forall i :: 0 <= i < |s| ==> s[i] != '.';
  }

  /** The value with the moved symbols renders to as many characters as follow the dot, and to the
      same ones. */
  lemma MovedRenders(n: nat, k: nat)
    requires n < TWO_64 && k < 12 && ActualDot(Digits(n, 13), 13) == k
    ensures var r := FromDigits(Moved(Digits(n, 13), k));
            r < TWO_64 && |Render(r)| == |Render(n)| - k - 1 >= 0 && forall i :: 0 <= i < |Render(r)| ==> Render(r)[i] == Render(n)[k + 1 + i]
  {
    hide CHARMAP, Digit, Render, FromDigits, ActualDot;
    var ds := Digits(n, 13);
    FromDigitsOf(n);
    MovedIsSymbols(ds, k);
    DigitsOfFrom(Moved(ds, k));
    var r := FromDigits(Moved(ds, k));
    RenderEnds(n);
    RenderEnds(r);
    MovedEnds(ds, k);
    forall i | 0 <= i < |Render(r)|
      ensures Render(r)[i] == Render(n)[k + 1 + i]
    {
      assert Digits(r, 13)[i] == Digit(r, i);
      assert Moved(ds, k)[i] == ds[k + 1 + i] == Digit(n, k + 1 + i);
    }
  }

  /** Moving the symbols after the last dot to the front renders the part after the last dot. */
  lemma SuffixRenders(n: nat, k: nat)
    requires n < TWO_64 && k < 12 && ActualDot(Digits(n, 13), 13) == k
    ensures var r := FromDigits(Moved(Digits(n, 13), k));
            r < TWO_64 && Render(r) == AfterLastDot(Render(n))
  {
    hide CHARMAP, Digit, Render, FromDigits, AfterLastDot, LastSymbol, LastDot, Moved;
    var ds, s := Digits(n, 13), Render(n);
    MovedRenders(n, k);
    RenderEnds(n);
    MovedEnds(ds, k);
    assert s[k] == '.' by { assert ds[k] == Digit(n, k) == 0; }
    forall j | k < j < |s|
      ensures s[j] != '.'
    {
      assert ds[j] == Digit(n, j) != 0;
    }
    AfterLastDotAt(s, k);
  }

  lemma MovedEnds(ds: seq<nat>, k: nat)
    requires |ds| == 13 && k < 12 && ActualDot(ds, 13) == k
    ensures LastSymbol(Moved(ds, k), 13) == LastSymbol(ds, 13) - k - 1
    ensures k < LastSymbol(ds, 13) && LastDot(ds, LastSymbol(ds, 13)) == k
  {
    hide LastDot, LastSymbol;
    var l, ms := LastSymbol(ds, 13), Moved(ds, k);
    var m := LastSymbol(ms, 13);
    assert ms[l - k - 1] == ds[l];
    assert forall j :: l - k - 1 < j < 13 ==> ms[j] == 0;
  }
}
