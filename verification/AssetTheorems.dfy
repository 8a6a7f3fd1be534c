/** Printing and parsing assets: what from_string yields on every decimal numeral, and when it undoes
    to_string. */
module AssetTheorems {
  import opened Bits
  import opened D = Decimal
  import opened S = Symbols
  import opened Assets
  import opened Wrappers

  /** An optional minus sign, digits, and optionally a dot and more digits. */
  datatype Number = Number(negative: bool, digits: string, fraction: string) {
    ghost predicate WellFormed() {
      digits != [] && IsDigits(digits) && IsDigits(fraction) && |fraction| <= MAX_INT64
    }

    ghost function SignedDigits(): (s: string) {
      (if negative then "-" else "") + digits
    }

    /** An empty fraction is written without the dot. */
    ghost function Text(): (s: string) {
      SignedDigits() + (if fraction == [] then "" else "." + fraction)
    }

    /** The number times 10 to the number of fraction digits. */
    ghost function Scaled(): (n: int)
      requires WellFormed()
    {
      Signed(DecValue(digits) * Pow10(|fraction|) + DecValue(fraction))
    }

    ghost function Signed(n: nat): (r: int) {
      if negative then -(n as int) else n
    }
  }

  /** A symbol name as it may follow the space: no white space at its ends, no zero character. */
  ghost predicate NameText(name: string) {
    name != [] && !IsSpace(name[0]) && !IsSpace(name[|name| - 1]) && '\0' !in name
  }

  // ---- taking the text apart ----

  lemma NoSpaceInside(x: Number, c: char)
    requires x.WellFormed() && (c == ' ' || c == ',' || c == '.')
    ensures forall j :: 0 <= j < |x.SignedDigits()| ==> x.SignedDigits()[j] != c
    ensures c != '.' ==> forall j :: 0 <= j < |x.Text()| ==> x.Text()[j] != c
    ensures !IsSpace(x.SignedDigits()[0])
  {
    assert forall j :: 0 <= j < |x.digits| ==> IsDigit(x.digits[j]);
    assert forall j :: 0 <= j < |x.fraction| ==> IsDigit(x.fraction[j]);
  }

  /** The split at the space. */
  lemma SplitAtSpace(x: Number, name: string)
    requires x.WellFormed() && NameText(name)
    ensures var s := x.Text() + " " + name;
            && Trim(s) == s && Find(s, ' ') == |x.Text()| < |s|
            && s[..|x.Text()|] == x.Text() && Trim(s[|x.Text()| + 1..]) == name
  {
    hide D.Trim, Find, Number.Text;
    var a := x.Text();
    var s := a + " " + name;
    NoSpaceInside(x, ' ');
    TextStarts(x);
    assert s[0] == a[0] && s[|s| - 1] == name[|name| - 1];
    TrimIsIdentity(s);
    FindAt(s, ' ', |a|);
    assert s[|a| + 1..] == name;
    TrimIsIdentity(name);
  }

  lemma TextStarts(x: Number)
    requires x.WellFormed()
    ensures x.Text() != [] && x.Text()[0] == x.SignedDigits()[0] && (x.Text()[0] == '-' <==> x.negative)
    ensures !IsSpace(x.Text()[0])
  {
    assert IsDigit(x.digits[0]);
  }

  /** The split at the dot. */
  lemma SplitAtDot(x: Number)
    requires x.WellFormed()
    ensures var a := x.Text();
            var dot := Find(a, '.');
            && dot == |x.SignedDigits()| && a[..dot] == x.SignedDigits()
            && (dot < |a| <==> x.fraction != [])
            && (dot < |a| ==> dot < |a| - 1 && a[dot + 1..] == x.fraction)
  {
    hide Find, Number.SignedDigits;
    NoSpaceInside(x, '.');
    FindAt(x.Text(), '.', |x.SignedDigits()|);
  }

  // ---- the symbol ----

  lemma DigitsHaveNoComma(s: string)
    requires IsDigits(s)
    ensures forall j :: 0 <= j < |s| ==> s[j] != ',' && !IsSpace(s[j])
  {
    assert forall j :: 0 <= j < |s| ==> IsDigit(s[j]);
  }

  lemma CStringOf(name: string)
    requires '\0' !in name
    ensures CString(name) == name
  {
    FindAt(name, '\0', |name|);
    assert name[..|name|] == name;
  }

  lemma SplitAtComma(n: nat, name: string)
    requires NameText(name)
    ensures var s := Dec(n) + "," + name;
            && Trim(s) == s && Find(s, ',') == |Dec(n)| < |s|
            && s[..|Dec(n)|] == Dec(n) && s[|Dec(n)| + 1..] == name
  {
    hide D.Trim, Find, Dec;
    var s := Dec(n) + "," + name;
    DigitsHaveNoComma(Dec(n));
    assert s[0] == Dec(n)[0] && s[|s| - 1] == name[|name| - 1];
    TrimIsIdentity(s);
    FindAt(s, ',', |Dec(n)|);
  }

  lemma ReadCount(n: nat)
    requires n <= MAX_INT64
    ensures ToInt64(Dec(n)) == Some(n)
  {
    hide ToInt64, Dec, DecValue;
    ToInt64OfDigits(false, Dec(n));
    assert "" + Dec(n) == Dec(n);
    DecValueOfDec(n);
  }

  /** The symbol built from a count of fraction digits; only its low byte is kept. */
  lemma ParseSymbolIs(n: nat, name: string)
    requires n <= MAX_INT64 && NameText(name)
    ensures ParseSymbol(Dec(n) + "," + name)
            == if n % 256 > MAX_PRECISION then Err(PrecisionTooLarge) else Packed(n % 256, name)
  {
    hide D.Trim, Find, Dec, ToInt64, Packed, CString, S.Valid, IsSymbol, IsDigits;
    SplitAtComma(n, name);
    ReadCount(n);
    CStringOf(name);
    if n % 256 <= MAX_PRECISION && Packed(n % 256, name).Ok? { PackedIsSymbol(n % 256, name); }
  }

  // ---- the amount ----

  /** The checked arithmetic succeeds exactly when the amount is in range, and then it is exact. */
  lemma CombineIs(i: nat, f: nat, negative: bool, p: nat)
    requires p > 0
    requires MIN_INT64 <= (if negative then -(i as int) else i) <= MAX_INT64 && f <= MAX_INT64
    ensures var r := Combine(if negative then -(i as int) else i, f, negative, p);
            var n: int := if negative then -(i * p + f) else i * p + f;
            && (r.Ok? <==> i * p + f <= MAX_AMOUNT)
            && (r.Ok? ==> r.value == n)
            && (r.Err? ==> r.error == if n > MAX_INT64 then Overflow else if n < MIN_INT64 then Underflow else AmountOutOfRange)
  {
    MulMono(0, i, p);
    if negative { assert -(i as int) * p == -(i * p); }
  }

  lemma InRange(i: nat, f: nat, p: nat)
    requires p > 0 && i * p + f <= MAX_AMOUNT
    ensures i <= MAX_AMOUNT && f <= MAX_AMOUNT
  {
    MulMono(1, p, i);
  }

  /** The decimals a parsed asset gets. */
  ghost function ParsedDecimals(x: Number): (d: nat) {
    |x.fraction| % 256
  }

  /** The magnitude it gets. */
  ghost function ParsedMagnitude(x: Number): (n: nat)
    requires x.WellFormed()
  {
    DecValue(x.digits) * Pow10(ParsedDecimals(x)) + DecValue(x.fraction)
  }

  lemma ReadParts(x: Number)
    requires x.WellFormed()
    ensures var i: int := if x.negative then -(DecValue(x.digits) as int) else DecValue(x.digits);
            ToInt64(x.SignedDigits()) == if MIN_INT64 <= i <= MAX_INT64 then Some(i) else None
    ensures x.fraction != [] ==>
              ToInt64(x.fraction) == if DecValue(x.fraction) <= MAX_INT64 then Some(DecValue(x.fraction)) else None
    ensures x.fraction == [] ==> DecValue(x.fraction) == 0
  {
    hide ToInt64, DecValue;
    ToInt64OfDigits(x.negative, x.digits);
    DecValueEmpty();
    if x.fraction != [] {
      ToInt64OfDigits(false, x.fraction);
      assert "" + x.fraction == x.fraction;
    }
  }

  /** Why a decimal numeral and a name are refused, in the order of the checks. */
  ghost function Refusal(x: Number, name: string): (e: Option<S.Error>)
    requires x.WellFormed()
  {
    var n := x.Signed(ParsedMagnitude(x));
    if ParsedDecimals(x) > MAX_PRECISION then Some(PrecisionTooLarge)
    else if !ValidName(if |name| > 8 then name[..8] else name) then Some(InvalidCharacter)
    else if |name| > 7 then Some(ShiftTooLarge)
    else if !(MIN_INT64 <= x.Signed(DecValue(x.digits)) <= MAX_INT64) || DecValue(x.fraction) > MAX_INT64 then Some(NotAnInteger)
    else if n > MAX_INT64 then Some(Overflow)
    else if n < MIN_INT64 then Some(Underflow)
    else if ParsedMagnitude(x) > MAX_AMOUNT then Some(AmountOutOfRange)
    else None
  }

  /** What a decimal numeral and a name must give: when they are accepted, as what, and the error
      otherwise. */
  ghost predicate ReadAs(x: Number, name: string, r: Result<Asset, S.Error>)
    requires x.WellFormed()
  {
    && (r.Ok? <==> (ParsedDecimals(x) <= MAX_PRECISION && ValidName(name) && |name| <= 7 && ParsedMagnitude(x) <= MAX_AMOUNT))
    && (r.Ok? ==> IsValid(r.value) && IsSymbol(r.value.sym, ParsedDecimals(x), name) && r.value.amount == x.Signed(ParsedMagnitude(x)))
    && (r.Err? ==> Refusal(x, name) == Some(r.error))
  }

  /** from_string on every decimal numeral. */
  lemma ParseNumber(x: Number, name: string)
    requires x.WellFormed() && NameText(name)
    ensures ReadAs(x, name, Parse(x.Text() + " " + name))
  {
    hide D.Trim, Find, Dec, DecValue, Packed, ParseSymbol, ToInt64, Combine, Pow10, IsSymbol, S.Valid, Number.Text, Number.SignedDigits;
    SplitAtSpace(x, name);
    SplitAtDot(x);
    TextStarts(x);
    ParseSymbolIs(|x.fraction|, name);
    ReadParts(x);
    var d := ParsedDecimals(x);
    PackedOkIff(d, name);
    var i, f, p := DecValue(x.digits), DecValue(x.fraction), Pow10(d);
    if Packed(d, name).Ok? {
      PackedIsSymbol(d, name);
      DecimalsOf(Packed(d, name).value, d, name);
    }
    if i * p + f <= MAX_AMOUNT { InRange(i, f, p); }
    if MIN_INT64 <= (if x.negative then -(i as int) else i) <= MAX_INT64 && f <= MAX_INT64 {
      CombineIs(i, f, x.negative, p);
      if x.fraction == [] { NoFractionCombine(i, x.negative, p); }
    }
  }

  lemma DecimalsOf(sym: nat, d: nat, name: string)
    requires IsSymbol(sym, d, name)
    ensures Decimals(sym) == d && sym < TWO_64
  {
  }

  /** Without a fraction the sign only sits on the digits. */
  lemma NoFractionCombine(i: nat, negative: bool, p: nat)
    ensures Combine(if negative then -(i as int) else i, 0, false, p) == Combine(if negative then -(i as int) else i, 0, negative, p)
  {
  }

  lemma PackedOkIff(p: nat, name: string)
    ensures Packed(p, name).Ok? <==> ValidName(name) && |name| <= 7
    ensures Packed(p, name) == Err(InvalidCharacter) <==> !ValidName(if |name| > 8 then name[..8] else name)
    ensures Packed(p, name).Err? ==> Packed(p, name).error == InvalidCharacter || Packed(p, name).error == ShiftTooLarge
  {
    var bad := FirstNotUpper(name);
    assert name[..|name|] == name;
    if ValidName(name) { NotUpperAll(name); }
    if |name| > 8 && bad >= 8 {
      assert forall i :: 0 <= i < 8 ==> name[..8][i] == name[..bad][i];
    } else if |name| > 8 {
      assert name[..8][bad] == name[bad];
    }
  }

  /** White space around the whole, and after the space that separates the parts, does not matter. */
  lemma WhiteSpaceIgnored(x: Number, name: string, u: string, v: string, w: string)
    requires x.WellFormed() && NameText(name) && White(u) && White(v) && White(w)
    ensures Parse(u + x.Text() + " " + v + name + w) == Parse(x.Text() + " " + name)
  {
    hide D.Trim, Find, ParseParts, Number.Text, White;
    var a := x.Text();
    var s := a + " " + v + name;
    SplitAtSpace(x, name);
    NoSpaceInside(x, ' ');
    TextStarts(x);
    assert u + a + " " + v + name + w == u + s + w;
    assert s[0] == a[0] && s[|s| - 1] == name[|name| - 1];
    TrimPadded(u, s, w);
    FindAt(s, ' ', |a|);
    assert s[..|a|] == a && s[|a| + 1..] == v + name + "";
    TrimPadded(v, name, "") by { assert White("") by { EmptyIsWhite(); } }
  }

  lemma EmptyIsWhite()
    ensures White("")
  {
  }

  /** The same for a symbol: white space is ignored around it, though not around the comma. */
  lemma SymbolWhiteSpaceIgnored(u: string, t: string, w: string)
    requires White(u) && White(w) && t != [] && Trimmed(t)
    ensures ParseSymbol(u + t + w) == ParseSymbol(t)
  {
    hide D.Trim, Find, ToInt64, Packed, CString, S.Valid, White;
    EmptyIsWhite();
    TrimPadded(u, t, w);
    TrimPadded("", t, "");
    assert "" + t + "" == t;
  }

  /** A symbol text of a numeral, a comma and a name: when it is accepted, and as what. */
  lemma SymbolText(p: string, name: string)
    requires p != [] && !IsSpace(p[0]) && ',' !in p && NameText(name)
    ensures var r := ParseSymbol(p + "," + name);
            && (r.Ok? <==> ToInt64(p).Some? && ToInt64(p).value % 256 <= MAX_PRECISION && ValidName(name) && |name| <= 7)
            && (r.Ok? ==> IsSymbol(r.value, ToInt64(p).value % 256, name))
            && (r == Err(NotAnInteger) <==> ToInt64(p).None?)
            && (r == Err(PrecisionTooLarge) <==> ToInt64(p).Some? && ToInt64(p).value % 256 > MAX_PRECISION)
  {
    hide D.Trim, Find, ToInt64, Packed, CString, S.Valid, IsSymbol;
    var s := p + "," + name;
    assert s[0] == p[0] && s[|s| - 1] == name[|name| - 1];
    TrimIsIdentity(s);
    FindAt(s, ',', |p|);
    assert s[..|p|] == p && s[|p| + 1..] == name;
    CStringOf(name);
    if ToInt64(p).Some? {
      var d := ToInt64(p).value % 256;
      PackedOkIff(d, name);
      if Packed(d, name).Ok? { PackedIsSymbol(d, name); }
    }
  }

  /** A zero character ends the name, whatever follows. */
  lemma NameEndsAtZero(p: string, name: string, rest: string)
    requires p != [] && !IsSpace(p[0]) && ',' !in p && NameText(name) && (rest == [] || !IsSpace(rest[|rest| - 1]))
    ensures ParseSymbol(p + "," + name + "\0" + rest) == ParseSymbol(p + "," + name)
  {
    hide D.Trim, Find, ToInt64, Packed, CString, S.Valid;
    var s, tail := p + "," + name, name + "\0" + rest;
    var z := p + "," + name + "\0" + rest;
    assert s[0] == p[0] && s[|s| - 1] == name[|name| - 1];
    assert z[0] == p[0] && z[|z| - 1] == (if rest == [] then '\0' else rest[|rest| - 1]);
    TrimIsIdentity(s);
    TrimIsIdentity(z);
    FindAt(s, ',', |p|);
    FindAt(z, ',', |p|);
    assert s[..|p|] == p && s[|p| + 1..] == name && z[..|p|] == p && z[|p| + 1..] == tail;
    CStringOf(name);
    CStringCut(name, rest);
  }

  lemma CStringCut(name: string, rest: string)
    requires '\0' !in name
    ensures CString(name + "\0" + rest) == name
  {
    var s := name + "\0" + rest;
    FindAt(s, '\0', |name|);
    assert s[..|name|] == name;
  }

  /** The two complaints about the form of a symbol: nothing but white space, and no comma. */
  lemma SymbolFormErrors(s: string)
    ensures ParseSymbol(s) == Err(EmptySymbol) <==> White(s)
    ensures ParseSymbol(s) == Err(MissingComma) <==> !White(s) && ',' !in s
  {
    hide D.Trim, ToInt64, CString, S.Valid, Packed;
    var u, w := TrimIs(s);
    var t := Trim(s);
    if t != [] { assert s[|u|] == t[0]; }
    forall p: nat, n: string ensures Packed(p, n) != Err(EmptySymbol) && Packed(p, n) != Err(MissingComma) { PackedOkIff(p, n); }
  }

  /** An integer, or two integers around a dot. */
  ghost predicate AmountText(a: string) {
    var dot := Find(a, '.');
    ToInt64(a[..dot]).Some? && (dot < |a| ==> dot < |a| - 1 && ToInt64(a[dot + 1..]).Some?)
  }

  ghost function TextDecimals(a: string): (d: nat) {
    var dot := Find(a, '.');
    if dot < |a| then (|a| - dot - 1) % 256 else 0
  }

  /** The first integer scaled, and the second with the sign the text begins with. */
  ghost function TextAmount(a: string): (n: int)
    requires AmountText(a)
  {
    var dot := Find(a, '.');
    var f := if dot < |a| then ToInt64(a[dot + 1..]).value else 0;
    ToInt64(a[..dot]).value * Pow10(TextDecimals(a)) + if dot < |a| && a[0] == '-' then -f else f
  }

  /** Every accepted string, whatever it is: white space, such a text without spaces, a space, white
      space, a symbol and white space; and the asset it stands for. */
  lemma AcceptedForm(s: string) returns (u: string, a: string, v: string, t: string, w: string)
    requires Parse(s).Ok?
    ensures s == u + a + " " + v + t + w && White(u) && White(v) && White(w) && ' ' !in a && Trimmed(t)
    ensures ValidName(CString(t)) && |CString(t)| <= 7 && AmountText(a)
    ensures Parse(s).value.amount == TextAmount(a) && IsSymbol(Parse(s).value.sym, TextDecimals(a), CString(t))
  {
    hide D.Trim, ParseParts, White, AmountText, TextAmount, TextDecimals, IsSymbol, CString;
    var l, r := TrimIs(s);
    var m := Trim(s);
    var space := Find(m, ' ');
    var x, y := TrimIs(m[space + 1..]);
    u, a, v, t := l, m[..space], x, Trim(m[space + 1..]);
    w := y + r;
    assert m == a + " " + (v + t + y);
    assert s == u + a + " " + v + t + w;
    WhiteConcat(y, r);
    AcceptedParts(a, t);
  }

  lemma WhiteConcat(a: string, b: string)
    requires White(a) && White(b)
    ensures White(a + b)
  {
  }

  lemma AcceptedParts(a: string, t: string)
    requires ParseParts(a, t).Ok? && Trimmed(t)
    ensures ValidName(CString(t)) && |CString(t)| <= 7 && AmountText(a)
    ensures ParseParts(a, t).value.amount == TextAmount(a) && IsSymbol(ParseParts(a, t).value.sym, TextDecimals(a), CString(t))
  {
    hide ParseSymbol, ToInt64, IsSymbol, CString, Dec, Pow10, S.Valid, Combine, Decimals, Find;
    var dot := Find(a, '.');
    var n := if dot < |a| then |a| - dot - 1 else 0;
    var sym := ParseSymbol(Dec(n) + "," + t).value;
    CountedSymbol(n, t);
    DecimalsOf(sym, n % 256, CString(t));
    var f := if dot < |a| then ToInt64(a[dot + 1..]).value else 0;
    CombineValue(ToInt64(a[..dot]).value, f, dot < |a| && a[0] == '-', Pow10(n % 256));
  }

  lemma CombineValue(i: int, f: int, negative: bool, p: nat)
    ensures Combine(i, f, negative, p).Ok? ==> Combine(i, f, negative, p).value == i * p + if negative then -f else f
  {
  }

  lemma CountedSymbol(n: nat, t: string)
    requires ParseSymbol(Dec(n) + "," + t).Ok? && Trimmed(t)
    ensures ValidName(CString(t)) && |CString(t)| <= 7
    ensures IsSymbol(ParseSymbol(Dec(n) + "," + t).value, n % 256, CString(t))
  {
    hide Find, Dec, ToInt64, Packed, CString, S.Valid, IsDigits, D.Trim, IsSymbol;
    var s := Dec(n) + "," + t;
    DigitsHaveNoComma(Dec(n));
    assert s[0] == Dec(n)[0] && s[|s| - 1] == if t == [] then ',' else t[|t| - 1];
    TrimIsIdentity(s);
    FindAt(s, ',', |Dec(n)|);
    assert s[..|Dec(n)|] == Dec(n) && s[|Dec(n)| + 1..] == t;
    ReadBack(n);
    PackedOkIff(n % 256, CString(t));
    PackedIsSymbol(n % 256, CString(t));
  }

  lemma ReadBack(n: nat)
    ensures ToInt64(Dec(n)).Some? ==> ToInt64(Dec(n)) == Some(n)
  {
    hide ToInt64, Dec, DecValue;
    ToInt64OfDigits(false, Dec(n));
    assert "" + Dec(n) == Dec(n);
    DecValueOfDec(n);
  }

  /** asset::from_string, statement by statement. */
  method FromString(from: string) returns (r: Result<Asset, Error>)
    ensures r == Parse(from)
    ensures forall x: Number, name, u, v, w ::
              (x.WellFormed() && NameText(name) && White(u) && White(v) && White(w) && from == u + x.Text() + " " + v + name + w) ==>
                ReadAs(x, name, r)
  {
    hide ParseSymbol, ToInt64, Dec, D.Trim, ReadAs, Number.Text, Number.WellFormed, NameText, White;
    forall x: Number, name, u, v, w | x.WellFormed() && NameText(name) && White(u) && White(v) && White(w)
                                      && from == u + x.Text() + " " + v + name + w
      ensures ReadAs(x, name, Parse(from))
    {
      ParseNumber(x, name);
      WhiteSpaceIgnored(x, name, u, v, w);
    }
    var s := Trim(from);
    var space := Find(s, ' ');
    if space == |s| { return Err(NoSpace); }
    var symbolStr, amountStr := Trim(s[space + 1..]), s[..space];
    var dot := Find(amountStr, '.');
    if dot != |amountStr| && dot == |amountStr| - 1 { return Err(NoFraction); }
    var precisionDigits := if dot != |amountStr| then Dec(|amountStr| - dot - 1) else Dec(0);
    var symResult := SymbolFromString(precisionDigits + "," + symbolStr);
    if symResult.Err? { return Err(symResult.error); }
    var sym := symResult.value;
    var precision := Precision(Decimals(sym));
    var fract := Some(0);
    var intPart := ToInt64(amountStr[..dot]);
    if intPart.None? { return Err(NotAnInteger); }
    if dot != |amountStr| {
      fract := ToInt64(amountStr[dot + 1..]);
      if fract.None? { return Err(NotAnInteger); }
    }
    var amount := Combine(intPart.value, fract.value, dot != |amountStr| && amountStr[0] == '-', precision);
    match amount
    case Err(e) => r := Err(e);
    case Ok(n) => r := Ok(Asset(n, sym));
  }

  // ---- exactness ----

  /** An accepted numeral keeps its value exactly when its fraction is shorter than 256 digits or
      zero: the precision is stored in one byte. */
  lemma ParseExactIff(x: Number, name: string)
    requires x.WellFormed() && NameText(name) && Parse(x.Text() + " " + name).Ok?
    ensures Parse(x.Text() + " " + name).value.amount * Pow10(|x.fraction|) == x.Scaled() * Pow10(ParsedDecimals(x))
            <==> (|x.fraction| < 256 || DecValue(x.fraction) == 0)
  {
    hide DecValue, Pow10, Parse, Number.Text, ParsedDecimals;
    ParseNumber(x, name);
    var n, d := |x.fraction|, ParsedDecimals(x);
    LowByteOfCount(n, d, x);
    ScalesDiffer(DecValue(x.digits), DecValue(x.fraction), Pow10(n), Pow10(d));
    SignsAgree(x.negative, ParsedMagnitude(x), Pow10(n), DecValue(x.digits) * Pow10(n) + DecValue(x.fraction), Pow10(d));
  }

  lemma LowByteOfCount(n: nat, d: nat, x: Number)
    requires n == |x.fraction| && d == ParsedDecimals(x)
    ensures Pow10(n) == Pow10(d) <==> n < 256
  {
    hide Pow10;
    Pow10Mono(d, n);
  }

  lemma ScalesDiffer(i: nat, f: nat, p: nat, q: nat)
    ensures (i * q + f) * p == (i * p + f) * q <==> (p == q || f == 0)
  {
    assert (i * q + f) * p == i * q * p + f * p && (i * p + f) * q == i * p * q + f * q;
    assert i * q * p == i * (q * p) && i * p * q == i * (p * q);
    assert f * p - f * q == f * (p - q);
  }

  lemma SignsAgree(negative: bool, a: nat, p: nat, b: nat, q: nat)
    ensures (if negative then -(a as int) else a) * p == (if negative then -(b as int) else b) * q <==> a * p == b * q
  {
    assert -(a as int) * p == -(a * p) && -(b as int) * q == -(b * q);
  }

  function Zeros(n: nat): (s: string)
    ensures |s| == n && IsDigits(s)
  {
    if n == 0 then "" else Zeros(n - 1) + "0"
  }

  lemma {:induction false} ZerosValue(n: nat)
    ensures DecValue(Zeros(n)) == 0
  {
    if n == 0 {
      DecValueEmpty();
    } else {
      ZerosValue(n - 1);
      DecValueSnoc(Zeros(n - 1), '0');
    }
  }

  ghost function LongNumber(): (x: Number) {
    Number(false, "0", Zeros(256) + "1")
  }

  /** The one digit after 256 zeros is read as a tenth. */
  lemma LongFractionMisread()
    ensures LongNumber().WellFormed() && |LongNumber().fraction| == 257
    ensures var r := Parse(LongNumber().Text() + " " + "A");
            r.Ok? && r.value.amount == 1 && Decimals(r.value.sym) == 1
  {
    hide Parse, Number.Text, Zeros, DecValue, Pow10;
    var x := LongNumber();
    ZerosValue(256);
    DecValueSnoc(Zeros(256), '1');
    assert "0" == Zeros(1) by { OneZero(); }
    ZerosValue(1);
    assert IsDigit('1');
    ParseNumber(x, "A");
  }

  lemma OneZero()
    ensures Zeros(1) == "0"
  {
    assert Zeros(0) == "";
  }

  // ---- round trip ----

  /** The numeral to_string prints. */
  ghost function NumberOf(a: Asset): (x: Number)
    requires IsValid(a)
  {
    var p := Pow10(Decimals(a.sym));
    Number(a.amount < 0, Dec(Whole(Abs(a.amount), p)),
           if Decimals(a.sym) == 0 then "" else Dec(p + Fraction(Abs(a.amount), p))[1..])
  }

  lemma PrintedNumber(a: Asset)
    requires IsValid(a)
    ensures var x := NumberOf(a);
            && x.WellFormed() && x.Text() == Numeral(a)
            && |x.fraction| == Decimals(a.sym) && ParsedMagnitude(x) == Abs(a.amount)
  {
    hide Dec, DecValue, Pow10, Whole, Fraction, S.Valid;
    var d := Decimals(a.sym);
    var p := Pow10(d);
    var whole, f := Whole(Abs(a.amount), p), Fraction(Abs(a.amount), p);
    DecimalsSmall(a);
    DecValueOfDec(whole);
    DecValueEmpty();
    PowZero();
    if d > 0 { PaddedFraction(d, f); }
  }

  lemma PowZero()
    ensures Pow10(0) == 1
  {
  }

  lemma DecimalsSmall(a: Asset)
    requires IsValid(a)
    ensures Decimals(a.sym) <= MAX_PRECISION
  {
  }

  lemma NameIsText(sym: nat)
    requires S.Valid(sym) && SymbolName(sym) != []
    ensures NameText(SymbolName(sym))
  {
    var name := SymbolName(sym);
    assert forall i :: 0 <= i < |name| ==> IsUpper(name[i]);
  }

  /** from_string undoes to_string exactly when the symbol has a name. */
  lemma PrintParse(a: Asset)
    requires IsValid(a)
    ensures Parse(Print(a)) == Ok(a) <==> SymbolName(a.sym) != []
    ensures SymbolName(a.sym) == [] ==> Parse(Print(a)) == Err(NoSpace)
  {
    hide Parse, Numeral, NumberOf, ParsedMagnitude, SymbolName, S.Valid, IsSymbol, Number.Text;
    var x := NumberOf(a);
    PrintedNumber(a);
    DecimalsSmall(a);
    var name := SymbolName(a.sym);
    if name == [] {
      NamelessFails(x);
      assert Print(a) == x.Text() + " ";
    } else {
      NameIsText(a.sym);
      ParseNumber(x, name);
      SymbolOfName(a);
      SymbolUnique(a.sym, Parse(Print(a)).value.sym, Decimals(a.sym), name);
      SignOf(a);
    }
  }

  lemma SignOf(a: Asset)
    requires IsValid(a)
    ensures NumberOf(a).Signed(Abs(a.amount)) == a.amount
  {
  }

  lemma SymbolOfName(a: Asset)
    requires IsValid(a)
    ensures IsSymbol(a.sym, Decimals(a.sym), SymbolName(a.sym)) && ValidName(SymbolName(a.sym)) && |SymbolName(a.sym)| <= 7
  {
    hide ToBytes, Packed;
    var name := SymbolHasName(a.sym);
    assert BytesOf(SymbolName(a.sym)) == BytesOf(name);
    assert |BytesOf(SymbolName(a.sym))| == |SymbolName(a.sym)|;
  }

  lemma TextEnds(x: Number)
    requires x.WellFormed()
    ensures x.Text() != [] && !IsSpace(x.Text()[|x.Text()| - 1])
  {
    var last := x.Text()[|x.Text()| - 1];
    if x.fraction == [] {
      assert last == x.digits[|x.digits| - 1];
    } else {
      assert last == x.fraction[|x.fraction| - 1];
    }
  }

  lemma TrimTrailing(s: string)
    requires s != [] && !IsSpace(s[0]) && !IsSpace(s[|s| - 1])
    ensures Trim(s + " ") == s
  {
    var t := s + " ";
    assert t[0] == s[0] && t[..|t| - 1] == s;
    assert TrimLeft(t) == t;
    assert TrimRight(t) == TrimRight(s);
  }

  /** The space a nameless symbol leaves at the end is trimmed, so nothing separates the parts. */
  lemma NamelessFails(x: Number)
    requires x.WellFormed()
    ensures Parse(x.Text() + " ") == Err(NoSpace)
  {
    hide Number.Text, ParseSymbol, ToInt64, Combine;
    var a := x.Text();
    NoSpaceInside(x, ' ');
    TextStarts(x);
    TextEnds(x);
    TrimTrailing(a);
    FindAt(a, ' ', |a|);
  }

  /** Printing loses nothing, whether or not the result can be parsed. */
  lemma PrintInjective(a: Asset, b: Asset)
    requires IsValid(a) && IsValid(b) && Print(a) == Print(b)
    ensures a == b
  {
    hide Parse, Numeral, NumberOf, ParsedMagnitude, SymbolName, S.Valid, IsSymbol, Number.Text;
    var x, y := NumberOf(a), NumberOf(b);
    PrintedNumber(a);
    PrintedNumber(b);
    NoSpaceInside(x, ' ');
    NoSpaceInside(y, ' ');
    FindAt(Print(a), ' ', |x.Text()|);
    FindAt(Print(b), ' ', |y.Text()|);
    assert Print(a)[..|x.Text()|] == x.Text() && Print(b)[..|y.Text()|] == y.Text();
    assert Print(a)[|x.Text()| + 1..] == SymbolName(a.sym) && Print(b)[|y.Text()| + 1..] == SymbolName(b.sym);
    DecimalsSmall(a);
    DecimalsSmall(b);
    ParseNumber(x, "A");
    ParseNumber(y, "A");
    SignOf(a);
    SignOf(b);
    DecimalsOf(Parse(x.Text() + " " + "A").value.sym, Decimals(a.sym), "A");
    DecimalsOf(Parse(y.Text() + " " + "A").value.sym, Decimals(b.sym), "A");
    SymbolOfName(a);
    SymbolOfName(b);
    SymbolUnique(a.sym, b.sym, Decimals(a.sym), SymbolName(a.sym));
  }

  /** Whatever text it came from, a parsed asset is valid, and printing and parsing it again changes
      nothing unless its symbol has no name. */
  lemma ParsedReparses(from: string)
    requires Parse(from).Ok?
    ensures IsValid(Parse(from).value)
    ensures Parse(Print(Parse(from).value)) == Parse(from) <==> SymbolName(Parse(from).value.sym) != []
  {
    ParsedIsValid(from);
    PrintParse(Parse(from).value);
  }

  lemma ParsedIsValid(from: string)
    requires Parse(from).Ok?
    ensures IsValid(Parse(from).value)
  {
    hide ParseSymbol, ToInt64, Dec, D.Trim, S.Valid, Pow10, Find;
  }

  /** A valid asset whose symbol has no name. */
  lemma NamelessAsset()
    ensures IsValid(Asset(1, 0)) && SymbolName(0) == [] && Parse(Print(Asset(1, 0))) == Err(NoSpace)
  {
    hide Parse, Print;
    assert ToBytes(0) == [];
    PrintParse(Asset(1, 0));
  }

  /** The printed text: a minus sign exactly for negative amounts, an integer part without leading zeros,
      as many fraction digits as the symbol has decimals, one space and the name. */
  lemma PrintCanonical(a: Asset)
    requires IsValid(a)
    ensures var x := NumberOf(a);
            && Print(a) == x.Text() + " " + SymbolName(a.sym) && x.WellFormed()
            && (x.negative <==> a.amount < 0)
            && (x.digits == "0" || x.digits[0] != '0')
            && |x.fraction| == Decimals(a.sym) && x.Scaled() == a.amount
  {
    hide Dec, DecValue, Pow10, Whole, Fraction, S.Valid, Numeral, Number.Text;
    PrintedNumber(a);
    DecimalsSmall(a);
    DecCanonical(Whole(Abs(a.amount), Pow10(Decimals(a.sym))));
  }

  /** The two complaints about the form: no space, and a dot at the end of the text before it. */
  lemma FormErrors(s: string)
    ensures Parse(s) == Err(NoSpace) <==> ' ' !in Trim(s)
    ensures Parse(s) == Err(NoFraction) <==>
              ' ' in Trim(s)
              && var a := Trim(s)[..Find(Trim(s), ' ')]; a != [] && a[|a| - 1] == '.' && '.' !in a[..|a| - 1]
  {
    hide D.Trim, ParseParts;
    var m := Trim(s);
    var space := Find(m, ' ');
    if space < |m| { PartsErrors(m[..space], Trim(m[space + 1..])); }
  }

  lemma PartsErrors(a: string, t: string)
    ensures ParseParts(a, t) != Err(NoSpace)
    ensures ParseParts(a, t) == Err(NoFraction) <==> a != [] && a[|a| - 1] == '.' && '.' !in a[..|a| - 1]
  {
    hide ToInt64, Combine, Dec, Pow10, ParseSymbol;
    var dot := Find(a, '.');
    var n := if dot < |a| then |a| - dot - 1 else 0;
    SymbolErrors(Dec(n) + "," + t);
    if dot == |a| - 1 { assert forall i :: 0 <= i < |a| - 1 ==> a[..|a| - 1][i] == a[i]; }
    forall i: int, f: int, neg: bool, p: nat ensures Combine(i, f, neg, p) != Err(NoSpace) && Combine(i, f, neg, p) != Err(NoFraction) {
      CombineErrors(i, f, neg, p);
    }
    if a != [] && a[|a| - 1] == '.' && '.' !in a[..|a| - 1] { FindAt(a, '.', |a| - 1); }
  }

  lemma SymbolErrors(s: string)
    ensures ParseSymbol(s) != Err(NoSpace) && ParseSymbol(s) != Err(NoFraction)
  {
    hide ToInt64, D.Trim, Find;
  }

  lemma CombineErrors(i: int, f: int, neg: bool, p: nat)
    ensures Combine(i, f, neg, p) != Err(NoSpace) && Combine(i, f, neg, p) != Err(NoFraction)
  {
  }
}
