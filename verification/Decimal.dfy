/** Decimal numerals: fc::to_string, fc::to_int64 and fc::trim, whose sources are not part of the
    repository; they follow the conversions the unit tests of assets pin down. */
module Decimal {
  import opened Wrappers

  const MAX_INT64: int := 0x7FFF_FFFF_FFFF_FFFF
  const MIN_INT64: int := -0x8000_0000_0000_0000

  predicate IsDigit(c: char) {
    '0' <= c <= '9'
  }

  predicate IsDigits(s: string) {
    forall i :: 0 <= i < |s| ==> IsDigit(s[i])
  }

  function DigitValue(c: char): (d: nat)
    requires IsDigit(c)
  {
    (c - '0') as nat
  }

  function DigitChar(d: nat): (c: char)
    requires d < 10
    ensures IsDigit(c) && DigitValue(c) == d
  {
    '0' + d as char
  }

  function Pow10(n: nat): (r: nat)
    ensures r > 0
  {
    if n == 0 then 1 else 10 * Pow10(n - 1)
  }

  /** The decimal numeral of n. */
  function Dec(n: nat): (s: string)
    ensures s != [] && IsDigits(s)
  {
    if n < 10 then [DigitChar(n)] else Dec(n / 10) + [DigitChar(n % 10)]
  }

  /** The number a digit string stands for. */
  function DecValue(s: string): (n: nat)
    requires IsDigits(s)
  {
    if s == [] then 0 else DecValue(s[..|s| - 1]) * 10 + DigitValue(s[|s| - 1])
  }

  lemma DecValueSnoc(s: string, c: char)
    requires IsDigits(s) && IsDigit(c)
    ensures IsDigits(s + [c]) && DecValue(s + [c]) == DecValue(s) * 10 + DigitValue(c)
  {
    assert (s + [c])[..|s|] == s;
  }

  lemma {:induction false} DecValueOfDec(n: nat)
    ensures DecValue(Dec(n)) == n
  {
    if n < 10 {
      DecValueSnoc([], DigitChar(n));
      assert [] + [DigitChar(n)] == Dec(n);
    } else {
      DecValueOfDec(n / 10);
      DecValueSnoc(Dec(n / 10), DigitChar(n % 10));
    }
  }

  /** The digits are those of the decimal system. */
  lemma TenDigits()
    ensures IsDigits("1234567890") && DecValue("1234567890") == 1234567890
  {
    hide DecValue;
    DecValueEmpty();
    DecValueSnoc("", '1');
    assert "" + ['1'] == "1";
    DecValueSnoc("1", '2');
    assert "1" + ['2'] == "12";
    DecValueSnoc("12", '3');
    assert "12" + ['3'] == "123";
    DecValueSnoc("123", '4');
    assert "123" + ['4'] == "1234";
    DecValueSnoc("1234", '5');
    assert "1234" + ['5'] == "12345";
    DecValueSnoc("12345", '6');
    assert "12345" + ['6'] == "123456";
    DecValueSnoc("123456", '7');
    assert "123456" + ['7'] == "1234567";
    DecValueSnoc("1234567", '8');
    assert "1234567" + ['8'] == "12345678";
    DecValueSnoc("12345678", '9');
    assert "12345678" + ['9'] == "123456789";
    DecValueSnoc("123456789", '0');
    assert "123456789" + ['0'] == "1234567890";
  }

  /** A printed number has no leading zero, unless it is the number zero. */
  lemma {:induction false} DecCanonical(n: nat)
    ensures Dec(n)[0] == '0' <==> n == 0
    ensures n == 0 ==> Dec(n) == "0"
  {
    if n >= 10 { DecCanonical(n / 10); }
  }

  lemma DropDigit(q: nat, f: nat)
    ensures (10 * q + f) / 10 == q + f / 10 && (10 * q + f) % 10 == f % 10
  {
  }

  /** The digits after the leading one of 10^d + f: the zero-padded fraction f. */
  lemma {:induction false} PaddedFraction(d: nat, f: nat)
    requires f < Pow10(d)
    ensures |Dec(Pow10(d) + f)| == d + 1
    ensures DecValue(Dec(Pow10(d) + f)[1..]) == f
    decreases d
  {
    hide DecValue, Dec;
    var n := Pow10(d) + f;
    if d == 0 {
      DecDigit(n);
      DecValueEmpty();
      assert Dec(n)[1..] == [];
    } else {
      DropDigit(Pow10(d - 1), f);
      DecStep(n);
      PaddedFraction(d - 1, f / 10);
      var front, c := Dec(n / 10), DigitChar(f % 10);
      assert Dec(n)[1..] == front[1..] + [c];
      DecValueSnoc(front[1..], c);
    }
  }

  lemma DecDigit(n: nat)
    requires n < 10
    ensures Dec(n) == [DigitChar(n)]
  {
  }

  lemma DecStep(n: nat)
    requires n >= 10
    ensures Dec(n) == Dec(n / 10) + [DigitChar(n % 10)]
  {
  }

  lemma DecValueEmpty()
    ensures DecValue([]) == 0
  {
  }

  // ---- fc::to_int64 ----

  /** A decimal numeral with an optional sign, in the range of int64_t. */
  function ToInt64(s: string): (r: Option<int>) {
    var signed := s != [] && (s[0] == '-' || s[0] == '+');
    var digits := if signed then s[1..] else s;
    if digits == [] || !IsDigits(digits) then None
    else
      var n: int := if signed && s[0] == '-' then -(DecValue(digits) as int) else DecValue(digits);
      if MIN_INT64 <= n <= MAX_INT64 then Some(n) else None
  }

  /** Exactly the nonempty digit strings with at most one sign in front are read. */
  lemma ToInt64Iff(s: string)
    ensures ToInt64(s).Some? <==> exists k :: 0 <= k <= 1 && SignedNumeral(s, k) && MIN_INT64 <= NumeralValue(s, k) <= MAX_INT64
    ensures ToInt64(s).Some? ==> exists k :: 0 <= k <= 1 && SignedNumeral(s, k) && ToInt64(s).value == NumeralValue(s, k)
  {
    hide DecValue;
    if s != [] && (s[0] == '-' || s[0] == '+') {
      assert !SignedNumeral(s, 0) by { assert !IsDigit(s[0]); }
      assert SignedNumeral(s, 1) <==> s[1..] != [] && IsDigits(s[1..]);
    } else {
      assert !SignedNumeral(s, 1);
      assert s[0..] == s;
      assert SignedNumeral(s, 0) <==> s != [] && IsDigits(s);
    }
  }

  /** k signs, none or one, and then digits. */
  ghost predicate SignedNumeral(s: string, k: nat) {
    k < |s| && IsDigits(s[k..]) && (k == 1 ==> s[0] == '-' || s[0] == '+')
  }

  ghost function NumeralValue(s: string, k: nat): (n: int)
    requires SignedNumeral(s, k)
  {
    if k == 1 && s[0] == '-' then -(DecValue(s[k..]) as int) else DecValue(s[k..])
  }

  /** A digit string, with or without a minus sign, is read as its value when that fits. */
  lemma ToInt64OfDigits(neg: bool, s: string)
    requires s != [] && IsDigits(s)
    ensures var n: int := if neg then -(DecValue(s) as int) else DecValue(s);
            ToInt64((if neg then "-" else "") + s) == if MIN_INT64 <= n <= MAX_INT64 then Some(n) else None
  {
    hide DecValue;
    assert IsDigit(s[0]);
    if neg {
      var t := "-" + s;
      assert t[0] == '-' && t[1..] == s;
    } else {
      assert "" + s == s;
    }
  }

  /** safe<int64_t>: arithmetic that fails out of range. */
  function Safe(n: int): (r: Option<int>) {
    if MIN_INT64 <= n <= MAX_INT64 then Some(n) else None
  }

  // ---- fc::trim and find ----

  predicate IsSpace(c: char) {
    c == ' ' || c == '\t' || c == '\n' || c == '\r' || c == '\U{000B}' || c == '\U{000C}'
  }

  function TrimLeft(s: string): (t: string) {
    if s != [] && IsSpace(s[0]) then TrimLeft(s[1..]) else s
  }

  function TrimRight(s: string): (t: string) {
    if s != [] && IsSpace(s[|s| - 1]) then TrimRight(s[..|s| - 1]) else s
  }

  function Trim(s: string): (t: string) {
    TrimRight(TrimLeft(s))
  }

  ghost predicate White(s: string) {
    forall i :: 0 <= i < |s| ==> IsSpace(s[i])
  }

  /** Nothing to trim: empty, or no white space at either end. */
  ghost predicate Trimmed(s: string) {
    s != [] ==> !IsSpace(s[0]) && !IsSpace(s[|s| - 1])
  }

  lemma {:induction false} TrimLeftIs(s: string) returns (u: string)
    ensures White(u) && s == u + TrimLeft(s) && (TrimLeft(s) != [] ==> !IsSpace(TrimLeft(s)[0]))
    decreases |s|
  {
    u := [];
    if s != [] && IsSpace(s[0]) {
      var u1 := TrimLeftIs(s[1..]);
      u := [s[0]] + u1;
    }
  }

  lemma {:induction false} TrimRightIs(s: string) returns (w: string)
    ensures White(w) && s == TrimRight(s) + w && (TrimRight(s) != [] ==> !IsSpace(TrimRight(s)[|TrimRight(s)| - 1]))
    decreases |s|
  {
    w := [];
    if s != [] && IsSpace(s[|s| - 1]) {
      var w1 := TrimRightIs(s[..|s| - 1]);
      w := w1 + [s[|s| - 1]];
    }
  }

  /** Trimming takes white space off both ends, and all of it. */
  lemma TrimIs(s: string) returns (u: string, w: string)
    ensures s == u + Trim(s) + w && White(u) && White(w) && Trimmed(Trim(s))
  {
    hide TrimLeft, TrimRight;
    u := TrimLeftIs(s);
    w := TrimRightIs(TrimLeft(s));
    var t := Trim(s);
    assert TrimLeft(s) == t + w;
    if t != [] { assert TrimLeft(s)[0] == t[0]; }
  }

  /** White space around a trimmed text is what trimming removes. */
  lemma TrimPadded(u: string, t: string, w: string)
    requires White(u) && White(w) && t != [] && Trimmed(t)
    ensures Trim(u + t + w) == t
  {
    hide TrimLeft, TrimRight;
    LeftPadded(u, t + w);
    assert u + t + w == u + (t + w) && (t + w)[0] == t[0];
    RightPadded(t, w);
  }

  lemma {:induction false} LeftPadded(u: string, t: string)
    requires White(u) && t != [] && !IsSpace(t[0])
    ensures TrimLeft(u + t) == t
    decreases |u|
  {
    if u == [] {
      assert u + t == t;
    } else {
      assert (u + t)[0] == u[0] && (u + t)[1..] == u[1..] + t;
      LeftPadded(u[1..], t);
    }
  }

  lemma {:induction false} RightPadded(t: string, w: string)
    requires White(w) && t != [] && !IsSpace(t[|t| - 1])
    ensures TrimRight(t + w) == t
    decreases |w|
  {
    if w == [] {
      assert t + w == t;
    } else {
      var n := |t + w| - 1;
      assert (t + w)[n] == w[|w| - 1] && (t + w)[..n] == t + w[..|w| - 1];
      RightPadded(t, w[..|w| - 1]);
    }
  }

  lemma TrimIsIdentity(s: string)
    requires s != [] && !IsSpace(s[0]) && !IsSpace(s[|s| - 1])
    ensures Trim(s) == s
  {
  }

  /** string::find: the first position of c, or the length when there is none. */
  function Find(s: string, c: char): (i: nat)
    ensures i <= |s| && (i < |s| ==> s[i] == c) && forall j :: 0 <= j < i ==> s[j] != c
  {
    if s == [] || s[0] == c then 0 else 1 + Find(s[1..], c)
  }

  lemma FindAt(s: string, c: char, i: nat)
    requires i <= |s| && (i < |s| ==> s[i] == c) && forall j :: 0 <= j < i ==> s[j] != c
    ensures Find(s, c) == i
  {
    hide Find;
  }
}
