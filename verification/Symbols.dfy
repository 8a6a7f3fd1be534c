/** libraries/chain/include/eosio/chain/symbol.hpp: a token symbol packed into 64 bits, the number
    of decimals in the low byte and the name in the bytes above it. */
module Symbols {
  import opened Bits
  import opened Wrappers
  import D = Decimal

  const MAX_PRECISION: nat := 18

  datatype Error =
    | EmptySymbol | MissingComma | PrecisionTooLarge | InvalidCharacter | InvalidSymbol   // symbol_type_exception
    | NotAnInteger            // parse_error_exception of fc::to_int64
    | Overflow | Underflow    // overflow_exception and underflow_exception of safe<int64_t>
    | NoSpace | NoFraction | AmountOutOfRange   // asset_type_exception
    | ShiftTooLarge           // an eighth letter: a shift by 64 or more, undefined in C++

  predicate IsUpper(c: char) {
    'A' <= c <= 'Z'
  }

  predicate ValidName(s: string) {
    forall i :: 0 <= i < |s| ==> IsUpper(s[i])
  }

  // ---- bytes ----

  /** Bytes, least significant first, as a number. */
  ghost function FromBytes(s: string): (v: nat)
    requires ValidName(s)
  {
    if s == [] then 0 else s[0] as nat + 256 * FromBytes(s[1..])
  }

  /** The bytes of a number up to its highest nonzero one. */
  function ToBytes(v: nat): (bs: seq<nat>) {
    if v == 0 then [] else [v % 256] + ToBytes(v / 256)
  }

  function Decimals(sym: nat): (d: nat) {
    sym % 256
  }

  function BytesOf(s: string): (bs: seq<nat>)
    ensures |bs| == |s| && forall i :: 0 <= i < |s| ==> bs[i] == s[i] as nat
  {
    if s == [] then [] else [s[0] as nat] + BytesOf(s[1..])
  }

  /** A symbol of the given precision and name. */
  ghost predicate IsSymbol(sym: nat, decimals: nat, name: string) {
    sym < TWO_64 && Decimals(sym) == decimals && ToBytes(sym / 256) == BytesOf(name)
  }

  lemma {:induction false} BytesRoundTrip(s: string)
    requires ValidName(s)
    ensures ToBytes(FromBytes(s)) == BytesOf(s)
  {
    if s != [] {
      BytesRoundTrip(s[1..]);
      var lo, hi := s[0] as nat, FromBytes(s[1..]);
      assert IsUpper(s[0]);
      assert (lo + 256 * hi) % 256 == lo && (lo + 256 * hi) / 256 == hi;
    }
  }

  lemma {:induction false} BytesDetermine(v: nat, w: nat)
    requires ToBytes(v) == ToBytes(w)
    ensures v == w
    decreases v
  {
    if v != 0 {
      assert ToBytes(v)[0] == v % 256 && ToBytes(w)[0] == w % 256;
      assert ToBytes(v)[1..] == ToBytes(v / 256) && ToBytes(w)[1..] == ToBytes(w / 256);
      BytesDetermine(v / 256, w / 256);
    }
  }

  /** A symbol is determined by its precision and its name. */
  lemma SymbolUnique(v: nat, w: nat, decimals: nat, name: string)
    requires IsSymbol(v, decimals, name) && IsSymbol(w, decimals, name)
    ensures v == w
  {
    BytesDetermine(v / 256, w / 256);
  }

  lemma {:induction false} ByteCount(v: nat, n: nat)
    requires v < Pow2(8 * n)
    ensures |ToBytes(v)| <= n
    decreases n
  {
    hide Pow2;
    if n == 0 {
      Pow2Of6();
    } else {
      Pow2Plus4(8 * (n - 1));
      Pow2Plus4(8 * (n - 1) + 4);
      ByteCount(v / 256, n - 1);
    }
  }

  // ---- the C++ code ----

  /** symbol::name. */
  method Name(sym: nat) returns (bytes: seq<nat>)
    ensures bytes == ToBytes(sym / 256)
  {
    var v: nat := sym / 256;
    bytes := [];
    while v > 0
      invariant bytes + ToBytes(v) == ToBytes(sym / 256)
    {
      assert bytes + ToBytes(v) == bytes + [v % 256] + ToBytes(v / 256);
      bytes := bytes + [v % 256];
      v := v / 256;
    }
  }

  /** symbol::precision. */
  method Precision(decimals: nat) returns (p10: nat)
    requires decimals <= MAX_PRECISION
    ensures p10 == D.Pow10(decimals)
  {
    p10 := 1;
    var p: nat := decimals;
    while p > 0
      invariant p <= decimals && p10 * D.Pow10(p) == D.Pow10(decimals)
    {
      PowStep(p10, p);
      p10 := p10 * 10;
      p := p - 1;
    }
  }

  lemma PowStep(a: nat, p: nat)
    requires p > 0
    ensures a * 10 * D.Pow10(p - 1) == a * D.Pow10(p)
  {
    assert a * 10 * D.Pow10(p - 1) == a * (10 * D.Pow10(p - 1));
  }

  /** The string a C function sees: up to the first zero character. */
  function CString(s: string): (t: string)
    ensures t <= s
  {
    s[..D.Find(s, '\0')]
  }

  /** The symbol that string_to_symbol builds, or its error. */
  ghost function Packed(p: nat, str: string): (r: Result<nat, Error>) {
    var bad := FirstNotUpper(str);
    if bad < |str| && bad <= 7 then Err(InvalidCharacter)
    else if |str| > 7 then Err(ShiftTooLarge)
    else Ok(p + 256 * FromBytes(str))
  }

  ghost function FirstNotUpper(s: string): (i: nat)
    ensures i <= |s| && ValidName(s[..i]) && (i < |s| ==> !IsUpper(s[i]))
  {
    if s == [] || !IsUpper(s[0]) then 0
    else
      var i := 1 + FirstNotUpper(s[1..]);
      assert s[..i] == [s[0]] + s[1..][..i - 1];
      i
  }

  lemma {:induction false} FromBytesSnoc(s: string, c: char)
    requires ValidName(s) && IsUpper(c)
    ensures ValidName(s + [c]) && FromBytes(s + [c]) == FromBytes(s) + c as nat * Pow2(8 * |s|)
    decreases |s|
  {
    hide Pow2;
    Pow2Of6();
    if s == [] {
      assert s + [c] == [c] && [c][1..] == [];
    } else {
      FromBytesSnoc(s[1..], c);
      assert (s + [c])[1..] == s[1..] + [c];
      Pow2Plus4(8 * |s[1..]|);
      Pow2Plus4(8 * |s[1..]| + 4);
      Times256(c as nat, Pow2(8 * |s[1..]|));
    }
  }

  lemma Times256(c: nat, p: nat)
    ensures 256 * (c * p) == c * (16 * (16 * p))
  {
  }

  lemma {:induction false} FromBytesBound(s: string)
    requires ValidName(s)
    ensures FromBytes(s) < Pow2(8 * |s|)
    decreases |s|
  {
    hide Pow2;
    Pow2Of6();
    if s != [] {
      assert IsUpper(s[0]);
      FromBytesBound(s[1..]);
      Pow2Plus4(8 * |s[1..]|);
      Pow2Plus4(8 * |s[1..]| + 4);
    }
  }

  /** One letter: its byte is or-ed in above the bytes already there. */
  lemma PlaceLetter(s: string, c: char)
    requires ValidName(s) && IsUpper(c) && |s| < 7
    ensures ValidName(s + [c])
    ensures BitOr(256 * FromBytes(s), Shl(c as nat, 8 * (|s| + 1), 64)) == 256 * FromBytes(s + [c])
  {
    hide Pow2, BitOr, Shl, FromBytes;
    var n := 8 * (|s| + 1);
    FromBytesSnoc(s, c);
    FromBytesBound(s);
    Pow2Plus4(8 * |s|);
    Pow2Plus4(8 * |s| + 4);
    Times256(c as nat, Pow2(8 * |s|));
    Pow2Plus4(n);
    Pow2Plus4(n + 4);
    Pow2Mono(n + 8, 64);
    MulMono(c as nat, 255, Pow2(n));
    ShlFits(c as nat, n, 64);
    OrDisjoint(c as nat, n, 256 * FromBytes(s));
    OrCommutes(256 * FromBytes(s), c as nat * Pow2(n));
  }

  /** string_to_symbol. */
  method StringToSymbol(p: nat, str: string) returns (r: Result<nat, Error>)
    requires p < 256
    ensures r == Packed(p, str)
  {
    hide BitOr, Shl, FromBytes;
    var result := 0;
    var i := 0;
    FromBytesEmpty();
    while i < |str|
      invariant 0 <= i <= |str| && i <= 7 && ValidName(str[..i]) && result == 256 * FromBytes(str[..i])
    {
      assert str[..i + 1] == str[..i] + [str[i]];
      NotUpperAt(str, i);
      if !IsUpper(str[i]) { return Err(InvalidCharacter); }
      if i >= 7 { return Err(ShiftTooLarge); }
      PlaceLetter(str[..i], str[i]);
      result := BitOr(result, Shl(str[i] as nat, 8 * (i + 1), 64));
      i := i + 1;
    }
    assert str[..i] == str;
    NotUpperAt(str, |str|);
    LowByte(FromBytes(str), p);
    result := BitOr(result, p);
    r := Ok(result);
  }

  lemma FromBytesEmpty()
    ensures ValidName([]) && FromBytes([]) == 0
  {
  }

  lemma NotUpperAt(s: string, i: nat)
    requires i <= |s| && ValidName(s[..i])
    ensures FirstNotUpper(s) >= i
    ensures i < |s| && !IsUpper(s[i]) ==> FirstNotUpper(s) == i
    ensures i < |s| && IsUpper(s[i]) ==> FirstNotUpper(s) > i
  {
    var k := FirstNotUpper(s);
    assert forall j :: 0 <= j < i ==> s[..i][j] == s[j];
    assert forall j :: 0 <= j < k ==> s[..k][j] == s[j];
  }

  lemma LowByte(hi: nat, p: nat)
    requires p < 256
    ensures BitOr(256 * hi, p) == 256 * hi + p
  {
    hide Pow2, BitOr;
    Pow2Of6();
    Pow2Plus4(4);
    OrDisjoint(hi, 8, p);
  }

  /** symbol::valid. */
  function Valid(sym: nat): (b: bool) {
    Decimals(sym) <= MAX_PRECISION && forall i :: 0 <= i < |ToBytes(sym / 256)| ==> 'A' as nat <= ToBytes(sym / 256)[i] <= 'Z' as nat
  }

  /** A packed name reads back: name() of string_to_symbol. */
  lemma PackedIsSymbol(p: nat, str: string)
    requires p < 256 && Packed(p, str).Ok?
    ensures ValidName(str) && |str| <= 7 && IsSymbol(Packed(p, str).value, p, str)
    ensures Valid(Packed(p, str).value) <==> p <= MAX_PRECISION
  {
    hide FromBytes, ToBytes, Pow2;
    assert str[..|str|] == str;
    BytesRoundTrip(str);
    FromBytesBound(str);
    Pow2Mono(8 * |str|, 56);
    Pow2Plus4(56);
    Pow2Plus4(60);
    Pow2Of64();
  }

  /** Every valid symbol has a name of at most seven upper-case letters that packs back to it. */
  lemma SymbolHasName(sym: nat) returns (name: string)
    requires sym < TWO_64 && Valid(sym)
    ensures ValidName(name) && |name| <= 7 && IsSymbol(sym, Decimals(sym), name)
    ensures Packed(Decimals(sym), name) == Ok(sym)
  {
    hide FromBytes, ToBytes, Pow2;
    var bs := ToBytes(sym / 256);
    name := Letters(bs);
    Pow2Of64();
    Pow2Plus4(56);
    Pow2Plus4(60);
    ByteCount(sym / 256, 7);
    assert BytesOf(name) == bs;
    NotUpperAll(name);
    PackedIsSymbol(Decimals(sym), name);
    SymbolUnique(sym, Packed(Decimals(sym), name).value, Decimals(sym), name);
  }

  lemma NotUpperAll(s: string)
    requires ValidName(s)
    ensures FirstNotUpper(s) == |s|
  {
  }

  /** The letters with the given codes. */
  function Letters(bs: seq<nat>): (s: string)
    requires forall i :: 0 <= i < |bs| ==> 'A' as nat <= bs[i] <= 'Z' as nat
    ensures |s| == |bs| && ValidName(s) && forall i :: 0 <= i < |bs| ==> s[i] as nat == bs[i]
  {
    if bs == [] then [] else [bs[0] as char] + Letters(bs[1..])
  }
}
