/** libraries/chain/name.cpp and name.hpp: 64-bit account names as strings of at most 13 symbols,
    twelve of 5 bits and a last one of 4. */
module Names {
  import opened Bits

  const CHARMAP: string := ".12345abcdefghijklmnopqrstuvwxyz"

  // ---- digits ----

  /** Symbol i of a name value, counted from the left. */
  function Digit(v: nat, i: nat): (d: nat)
    requires i < 13
  {
    if i == 12 then Low(v, 4) else Low(Shr(v, 59 - 5 * i), 5)
  }

  /** The first k symbols. */
  ghost function Digits(v: nat, k: nat): (ds: seq<nat>)
    requires k <= 13
    ensures |ds| == k && forall i :: 0 <= i < k ==> ds[i] == Digit(v, i)
  {
    if k == 0 then [] else Digits(v, k - 1) + [Digit(v, k - 1)]
  }

  /** Symbols as a base-32 number, most significant first. */
  ghost function Base32(ds: seq<nat>): (v: nat) {
    if ds == [] then 0 else Base32(ds[..|ds| - 1]) * 32 + ds[|ds| - 1]
  }

  ghost predicate IsSymbols(ds: seq<nat>) {
    |ds| == 13 && ds[12] < 16 && forall i :: 0 <= i < 12 ==> ds[i] < 32
  }

  /** The value with the given 13 symbols. */
  ghost function FromDigits(ds: seq<nat>): (v: nat)
    requires |ds| == 13
  {
    Base32(ds[..12]) * 16 + ds[12]
  }

  lemma DigitBound(v: nat, i: nat)
    requires i < 13
    ensures Digit(v, i) < if i == 12 then 16 else 32
  {
    hide Low, Shr, Pow2;
    Pow2Of6();
    if i == 12 { LowBound(v, 4); } else { LowBound(Shr(v, 59 - 5 * i), 5); }
  }

  lemma {:induction false} PrefixIsShift(v: nat, k: nat)
    requires k <= 12 && v < TWO_64
    ensures Base32(Digits(v, k)) == Shr(v, 64 - 5 * k)
  {
    hide Shr, Low, Pow2;
    if k == 0 {
      Pow2Of64();
      LowOfSmall(v, 64);
    } else {
      PrefixIsShift(v, k - 1);
      var ds := Digits(v, k);
      assert ds[..k - 1] == Digits(v, k - 1);
      Split(Shr(v, 64 - 5 * k), 5);
      ShrShr(v, 64 - 5 * k, 5);
      Pow2Of6();
    }
  }

  /** A name value is determined by its symbols. */
  lemma FromDigitsOf(v: nat)
    requires v < TWO_64
    ensures FromDigits(Digits(v, 13)) == v && IsSymbols(Digits(v, 13))
  {
    hide Shr, Low, Pow2, Base32;
    PrefixIsShift(v, 12);
    var ds := Digits(v, 13);
    assert ds[..12] == Digits(v, 12);
    Split(v, 4);
    Pow2Of6();
    forall i | 0 <= i < 13
      ensures ds[i] < if i == 12 then 16 else 32
    {
      DigitBound(v, i);
    }
  }

  lemma {:induction false} Base32Bound(ds: seq<nat>)
    requires forall i :: 0 <= i < |ds| ==> ds[i] < 32
    ensures Base32(ds) < Pow2(5 * |ds|)
    decreases |ds|
  {
    hide Pow2;
    Pow2Of6();
    if ds != [] {
      Base32Bound(ds[..|ds| - 1]);
      Pow2Add(5 * (|ds| - 1), 5);
    }
  }

  lemma {:induction false} Base32Shift(ds: seq<nat>, k: nat)
    requires k <= |ds| && forall i :: 0 <= i < |ds| ==> ds[i] < 32
    ensures Shr(Base32(ds), 5 * (|ds| - k)) == Base32(ds[..k])
    decreases |ds|
  {
    hide Shr, Low, Pow2;
    if k == |ds| {
      assert ds[..k] == ds;
      ShrZero(Base32(ds));
    } else {
      var front := ds[..|ds| - 1];
      Base32Shift(front, k);
      assert front[..k] == ds[..k];
      Pow2Of6();
      SplitOf(Base32(front), 5, ds[|ds| - 1]);
      ShrShr(Base32(ds), 5, 5 * (|front| - k));
    }
  }

  lemma ShrZero(x: nat)
    ensures Shr(x, 0) == x
  {
  }

  /** Every choice of symbols is the symbols of a 64-bit value. */
  lemma DigitsOfFrom(ds: seq<nat>)
    requires IsSymbols(ds)
    ensures FromDigits(ds) < TWO_64 && Digits(FromDigits(ds), 13) == ds
  {
    hide Shr, Low, Pow2, Base32;
    var hi, v := Base32(ds[..12]), FromDigits(ds);
    Pow2Of6();
    Base32Bound(ds[..12]);
    Pow2Of64();
    Pow2Plus4(60);
    SplitOf(hi, 4, ds[12]);
    forall i | 0 <= i < 13
      ensures Digit(v, i) == ds[i]
    {
      if i < 12 { DigitOfFrom(ds, i); }
    }
  }

  lemma DigitOfFrom(ds: seq<nat>, i: nat)
    requires IsSymbols(ds) && i < 12
    ensures Digit(FromDigits(ds), i) == ds[i]
  {
    hide Shr, Low, Pow2;
    var hi := Base32(ds[..12]);
    Pow2Of6();
    SplitOf(hi, 4, ds[12]);
    ShrShr(FromDigits(ds), 4, 55 - 5 * i);
    Base32Shift(ds[..12], i + 1);
    assert ds[..12][..i + 1] == ds[..i + 1] && ds[..i + 1][..i] == ds[..i];
    SplitOf(Base32(ds[..i]), 5, ds[i]);
  }

  // ---- strings ----

  function Chars(ds: seq<nat>): (s: string)
    requires forall i :: 0 <= i < |ds| ==> ds[i] < 32
    ensures |s| == |ds| && forall i :: 0 <= i < |ds| ==> s[i] == CHARMAP[ds[i]]
  {
    if ds == [] then [] else Chars(ds[..|ds| - 1]) + [CHARMAP[ds[|ds| - 1]]]
  }

  /** A string without its trailing dots. */
  ghost function Trim(s: string): (t: string)
    ensures |t| <= |s|
  {
    if s == [] then []
    else
      var t := Trim(s[1..]);
      if t == [] && s[0] == '.' then [] else [s[0]] + t
  }

  /** name::operator string. */
  ghost function Render(v: nat): (s: string)
    requires v < TWO_64
  {
    FromDigitsOf(v);
    Trim(Chars(Digits(v, 13)))
  }

  /** The strict lexicographic order on strings. */
  ghost predicate LexLess(a: string, b: string) {
    b != [] && (a == [] || a[0] < b[0] || (a[0] == b[0] && LexLess(a[1..], b[1..])))
  }

  lemma {:induction false} TrimIsPrefix(s: string)
    ensures Trim(s) <= s && (forall i :: |Trim(s)| <= i < |s| ==> s[i] == '.')
    ensures Trim(s) != [] ==> Trim(s)[|Trim(s)| - 1] != '.'
  {
    if s != [] { TrimIsPrefix(s[1..]); }
  }

  /** Trimming is fixed by its result: the prefix up to the last symbol that is not a dot. */
  lemma {:induction false} TrimAt(s: string, n: nat)
    requires n <= |s| && (n > 0 ==> s[n - 1] != '.') && forall i :: n <= i < |s| ==> s[i] == '.'
    ensures Trim(s) == s[..n]
  {
    if s != [] {
      if n == 0 {
        TrimAt(s[1..], 0);
      } else {
        TrimAt(s[1..], n - 1);
        assert s[..n] == [s[0]] + s[1..][..n - 1];
      }
    }
  }

  /** Dots are the least symbols, so dropping them at the end keeps the order. */
  lemma {:induction false} TrimKeepsOrder(a: string, b: string)
    requires |a| == |b| && (forall i :: 0 <= i < |a| ==> a[i] >= '.' && b[i] >= '.')
    ensures LexLess(Trim(a), Trim(b)) <==> LexLess(a, b)
    decreases |a|
  {
    if a != [] {
      var a', b' := a[1..], b[1..];
      TrimKeepsOrder(a', b');
      if a[0] == b[0] {
        assert Trim(a) == [] || (Trim(a)[0] == a[0] && Trim(a)[1..] == Trim(a'));
        assert Trim(b) == [] || (Trim(b)[0] == b[0] && Trim(b)[1..] == Trim(b'));
      } else {
        assert LexLess(a, b) <==> a[0] < b[0];
        assert Trim(a) == [] || Trim(a)[0] == a[0];
        assert Trim(b) == [] || Trim(b)[0] == b[0];
      }
    }
  }

  lemma {:induction false} LexTotal(a: string, b: string)
    ensures !LexLess(a, a)
    ensures LexLess(a, b) ==> !LexLess(b, a)
    decreases |a|
  {
    if a != [] {
      LexTotal(a[1..], if b == [] then [] else b[1..]);
    }
  }

  lemma CharmapSize()
    ensures |CHARMAP| == 32
  {
  }

  /** The character map in three runs: dot, '1' to '5', 'a' to 'z'. */
  lemma CharmapRuns(d: nat)
    requires d < 32
    ensures |CHARMAP| == 32
    ensures CHARMAP[d] as int == if d == 0 then '.' as int else if d <= 5 then '1' as int + d - 1 else 'a' as int + d - 6
  {
  }

  lemma CharmapIncreasing(d: nat, e: nat)
    requires d < e < 32
    ensures CHARMAP[d] < CHARMAP[e]
  {
    hide CHARMAP;
    CharmapRuns(d);
    CharmapRuns(e);
  }

  /** Chars from position k on. */
  ghost function CharsFrom(v: nat, k: nat): (s: string)
    requires v < TWO_64 && k <= 13
    ensures |s| == 13 - k
  {
    FromDigitsOf(v);
    Chars(Digits(v, 13))[k..]
  }

  lemma CharsFromStep(v: nat, k: nat)
    requires v < TWO_64 && k < 13
    ensures Digit(v, k) < 32 && CharsFrom(v, k) == [CHARMAP[Digit(v, k)]] + CharsFrom(v, k + 1)
  {
    hide Digit, Chars, Digits, CHARMAP;
    FromDigitsOf(v);
  }

  /** Names that agree in their first k symbols compare as the rest does. */
  lemma {:induction false} OrderFrom(v: nat, w: nat, k: nat)
    requires v < w < TWO_64 && k <= 12 && Shr(v, 64 - 5 * k) == Shr(w, 64 - 5 * k)
    ensures LexLess(CharsFrom(v, k), CharsFrom(w, k))
    decreases 12 - k
  {
    hide Shr, Low, Pow2, CharsFrom, CHARMAP;
    CharsFromStep(v, k);
    CharsFromStep(w, k);
    Pow2Of6();
    if k == 12 {
      Split(v, 4);
      Split(w, 4);
      CharmapIncreasing(Digit(v, 12), Digit(w, 12));
    } else {
      var n := 59 - 5 * k;
      Split(Shr(v, n), 5);
      Split(Shr(w, n), 5);
      ShrShr(v, n, 5);
      ShrShr(w, n, 5);
      ShrMono(v, w, n);
      if Digit(v, k) == Digit(w, k) {
        OrderFrom(v, w, k + 1);
        assert CharsFrom(v, k)[1..] == CharsFrom(v, k + 1) && CharsFrom(w, k)[1..] == CharsFrom(w, k + 1);
      } else {
        CharmapIncreasing(Digit(v, k), Digit(w, k));
      }
    }
  }

  lemma DotIsLeast(d: nat)
    requires d < 32
    ensures CHARMAP[d] >= '.' && (CHARMAP[d] == '.' <==> d == 0)
  {
    hide CHARMAP;
    CharmapRuns(d);
  }

  lemma CharsAboveDot(ds: seq<nat>)
    requires forall i :: 0 <= i < |ds| ==> ds[i] < 32
    ensures forall i :: 0 <= i < |ds| ==> Chars(ds)[i] >= '.' && (Chars(ds)[i] == '.' <==> ds[i] == 0)
  {
    hide Chars, CHARMAP;
    forall i | 0 <= i < |ds|
      ensures Chars(ds)[i] >= '.' && (Chars(ds)[i] == '.' <==> ds[i] == 0)
    {
      DotIsLeast(ds[i]);
    }
  }

  lemma OrderOneWay(v: nat, w: nat)
    requires v < w < TWO_64
    ensures LexLess(Render(v), Render(w))
  {
    hide Shr, Low, Pow2, Chars, Digits, Trim, CHARMAP, LexLess;
    FromDigitsOf(v);
    FromDigitsOf(w);
    Pow2Of64();
    LowOfSmall(v, 64);
    LowOfSmall(w, 64);
    OrderFrom(v, w, 0);
    var a, b := Chars(Digits(v, 13)), Chars(Digits(w, 13));
    assert a[0..] == a && b[0..] == b;
    CharsAboveDot(Digits(v, 13));
    CharsAboveDot(Digits(w, 13));
    TrimKeepsOrder(a, b);
  }

  /** Rendering keeps the order of names, both ways, so it is injective. */
  lemma RenderKeepsOrder(v: nat, w: nat)
    requires v < TWO_64 && w < TWO_64
    ensures v < w <==> LexLess(Render(v), Render(w))
    ensures Render(v) == Render(w) ==> v == w
  {
    hide Render, LexLess;
    LexTotal(Render(v), Render(w));
    LexTotal(Render(w), Render(v));
    if v < w { OrderOneWay(v, w); }
    if w < v { OrderOneWay(w, v); }
  }

  // ---- the C++ code ----

  /** name::operator string: symbols are written from the right, then trailing dots are trimmed. */
  method ToString(value: nat) returns (str: string)
    requires value < TWO_64
    ensures str == Render(value)
  {
    hide Shr, Low, Pow2, BitAnd, Trim, CHARMAP;
    Pow2Of6();
    CharmapSize();
    ShrZero(value);
    str := seq(13, _ => '.');
    var tmp := value;
    for i := 0 to 13
      invariant |str| == 13 && tmp == Shr(value, if i == 0 then 0 else 5 * i - 1)
      invariant forall j :: 12 - i < j < 13 ==> Digit(value, j) < 32 && str[j] == CHARMAP[Digit(value, j)]
    {
      DigitBound(value, 12 - i);
      AndMask(tmp, if i == 0 then 4 else 5);
      var c := CHARMAP[BitAnd(tmp, if i == 0 then 0x0f else 0x1f)];
      str := str[12 - i := c];
      ShrShr(value, if i == 0 then 0 else 5 * i - 1, if i == 0 then 4 else 5);
      tmp := Shr(tmp, if i == 0 then 4 else 5);
    }
    FromDigitsOf(value);
    assert str == Chars(Digits(value, 13));
    ghost var full := str;
    while str != [] && str[|str| - 1] == '.'
      invariant |str| <= 13 && str == full[..|str|]
      invariant forall j :: |str| <= j < 13 ==> full[j] == '.'
    {
      str := str[..|str| - 1];
    }
    TrimAt(full, |str|);
  }

  /** char_to_symbol. */
  function SymbolOf(c: char): (d: nat) {
    if 'a' <= c <= 'z' then (c - 'a') as nat + 6
    else if '1' <= c <= '5' then (c - '1') as nat + 1
    else 0
  }

  /** The symbols string_to_name reads: a missing one is 0, the 13th loses its top bit. */
  ghost function SymbolsOf(str: string): (ds: seq<nat>)
    ensures IsSymbols(ds)
  {
    seq(13, i requires 0 <= i < 13 =>
      if i >= |str| then 0 else if i < 12 then SymbolOf(str[i]) else SymbolOf(str[i]) % 16)
  }

  ghost function NameOf(str: string): (v: nat)
    ensures v < TWO_64
  {
    DigitsOfFrom(SymbolsOf(str));
    FromDigits(SymbolsOf(str))
  }

  lemma Base32Next(ds: seq<nat>, i: nat)
    requires i < |ds|
    ensures Base32(ds[..i + 1]) == Base32(ds[..i]) * 32 + ds[i]
  {
    assert ds[..i + 1][..i] == ds[..i];
  }

  lemma {:induction false} Base32Zeros(ds: seq<nat>, i: nat)
    requires i <= |ds| && forall j :: i <= j < |ds| ==> ds[j] == 0
    ensures Base32(ds) == Base32(ds[..i]) * Pow2(5 * (|ds| - i))
    decreases |ds|
  {
    hide Pow2;
    Pow2Of6();
    if i == |ds| {
      assert ds[..i] == ds;
    } else {
      var front := ds[..|ds| - 1];
      Base32Zeros(front, i);
      assert front[..i] == ds[..i];
      Pow2Add(5 * (|front| - i), 5);
      Regroup(Base32(ds[..i]), Pow2(5 * (|front| - i)), 32);
    }
  }

  lemma Regroup(a: nat, b: nat, c: nat)
    ensures a * b * c == a * (b * c)
  {
  }

  /** One step of the loop of string_to_name: the new symbol lands below the ones already there. */
  lemma PlaceSymbol(ds: seq<nat>, i: nat)
    requires IsSymbols(ds) && i < 12
    ensures BitOr(Base32(ds[..i]) * Pow2(64 - 5 * i), Shl(ds[i], 59 - 5 * i, 64)) == Base32(ds[..i + 1]) * Pow2(59 - 5 * i)
  {
    hide Pow2, BitOr, Shl, Base32;
    var n := 59 - 5 * i;
    Pow2Of6();
    Pow2Add(5, n);
    MulMono(ds[i] + 1, 32, Pow2(n));
    assert (ds[i] + 1) * Pow2(n) == ds[i] * Pow2(n) + Pow2(n);
    Pow2Mono(n + 5, 64);
    ShlFits(ds[i], n, 64);
    OrDisjoint(Base32(ds[..i]), n + 5, ds[i] * Pow2(n));
    Base32Next(ds, i);
    Regroup(Base32(ds[..i]), 32, Pow2(n));
  }

  lemma AndSymbol(d: nat)
    ensures BitAnd(d, 0x1f) == d % 32 && BitAnd(d, 0x0f) == d % 16
  {
    hide BitAnd, Pow2, Low;
    Pow2Of6();
    AndMask(d, 5);
    AndMask(d, 4);
    ShrIsDiv(d, 5);
    ShrIsDiv(d, 4);
  }

  /** string_to_name, on the characters before the terminating zero. */
  method StringToName(str: string) returns (name: nat)
    ensures name == NameOf(str)
  {
    hide Pow2, BitOr, BitAnd, Shl, Base32, SymbolOf, Shr, Low;
    ghost var ds := SymbolsOf(str);
    name := 0;
    var i := 0;
    EmptyBase32();
    while i < |str| && i < 12
      invariant 0 <= i <= 12 && i <= |str| && name == Base32(ds[..i]) * Pow2(64 - 5 * i)
    {
      AndSymbol(SymbolOf(str[i]));
      SymbolBound(str[i]);
      PlaceSymbol(ds, i);
      name := BitOr(name, Shl(BitAnd(SymbolOf(str[i]), 0x1f), 64 - 5 * (i + 1), 64));
      i := i + 1;
    }
    Pow2Of6();
    Pow2Add(60 - 5 * i, 4);
    Base32Zeros(ds[..12], i);
    assert ds[..12][..i] == ds[..i];
    Regroup(Base32(ds[..i]), Pow2(60 - 5 * i), 16);
    if i == 12 {
      var last := if |str| > 12 then SymbolOf(str[12]) else 0;
      AndSymbol(last);
      OrDisjoint(Base32(ds[..12]), 4, last % 16);
      name := BitOr(name, BitAnd(last, 0x0F));
    }
  }

  lemma EmptyBase32()
    ensures forall ds: seq<nat> :: Base32(ds[..0]) == 0
  {
  }

  lemma SymbolBound(c: char)
    ensures SymbolOf(c) < 32
  {
  }

  // ---- round trips and acceptance ----

  lemma SymbolOfChar(d: nat)
    requires d < 32
    ensures SymbolOf(CHARMAP[d]) == d
  {
    hide CHARMAP;
    CharmapRuns(d);
  }

  /** A character of the map. */
  ghost predicate IsNameChar(c: char) {
    c == '.' || '1' <= c <= '5' || 'a' <= c <= 'z'
  }

  lemma CharOfSymbol(c: char)
    ensures SymbolOf(c) < 32 && IsNameChar(CHARMAP[SymbolOf(c)])
    ensures CHARMAP[SymbolOf(c)] == c <==> IsNameChar(c)
  {
    hide CHARMAP;
    CharmapRuns(SymbolOf(c));
  }

  /** The strings that name::set accepts. */
  ghost predicate Normalized(str: string) {
    && |str| <= 13
    && (forall i :: 0 <= i < |str| ==> IsNameChar(str[i]))
    && (str != [] ==> str[|str| - 1] != '.')
    && (|str| == 13 ==> SymbolOf(str[12]) < 16)
  }

  /** Rendering what a string was read as gives the string back exactly when it is normalized. */
  lemma SetAcceptsIff(str: string)
    ensures |str| <= 13 && Render(NameOf(str)) == str <==> Normalized(str)
  {
    hide Chars, Trim, CHARMAP, Digits, FromDigits, SymbolOf;
    if |str| <= 13 {
      var ds := SymbolsOf(str);
      DigitsOfFrom(ds);
      FromDigitsOf(NameOf(str));
      var full := Chars(ds);
      CharsAboveDot(ds);
      TrimIsPrefix(full);
      forall i | 0 <= i < |str|
        ensures full[i] == str[i] <==> IsNameChar(str[i]) && (i == 12 ==> SymbolOf(str[i]) < 16)
      {
        CharOfSymbol(str[i]);
        if i == 12 { SameChar(SymbolOf(str[i]) % 16, str[i]); }
      }
      if Normalized(str) {
        TrimAt(full, |str|);
        assert full[..|str|] == str;
      }
    }
  }

  /** The 13th symbol survives exactly when it fits 4 bits. */
  lemma SameChar(d: nat, c: char)
    requires d < 32
    ensures CHARMAP[d] == c <==> IsNameChar(c) && SymbolOf(c) == d
  {
    hide CHARMAP;
    CharmapRuns(d);
  }

  /** Reading a rendered name gives the name back. */
  lemma NameOfRender(v: nat)
    requires v < TWO_64
    ensures NameOf(Render(v)) == v && Normalized(Render(v))
  {
    hide Chars, Trim, CHARMAP, Digits, FromDigits, SymbolOf, IsNameChar;
    FromDigitsOf(v);
    var ds := Digits(v, 13);
    var full, str := Chars(ds), Render(v);
    CharsAboveDot(ds);
    TrimIsPrefix(full);
    forall i | 0 <= i < 13
      ensures SymbolsOf(str)[i] == ds[i]
    {
      SymbolOfChar(ds[i]);
    }
    assert SymbolsOf(str) == ds;
    SetAcceptsIff(str);
  }

  datatype SetResult = Set | TooLong | NotNormalized

  /** struct name. */
  class Name {
    var value: nat

    /** name::set: the value is assigned before the normalization check can fail. */
    method Set(str: string) returns (r: SetResult)
      modifies this
      ensures r.Set? <==> Normalized(str)
      ensures r.TooLong? <==> |str| > 13
      ensures value == if r.TooLong? then old(value) else NameOf(str)
      ensures r.Set? ==> Render(value) == str
    {
      hide Render, Normalized;
      SetAcceptsIff(str);
      var len := if |str| < 14 then |str| else 14;   // strnlen(str, 14)
      if len > 13 { return TooLong; }
      value := StringToName(str);
      var normalized := ToString(value);
      if normalized != str { return NotNormalized; }
      return SetResult.Set;
    }
  }
}
