/** libraries/chain/asset.cpp: printing and parsing amounts of a token. */
module Assets {
  import opened Bits
  import opened D = Decimal
  import opened S = Symbols
  import opened Wrappers

  const MAX_AMOUNT: int := 0x3FFF_FFFF_FFFF_FFFF   // 2^62 - 1

  datatype Asset = Asset(amount: int, sym: nat)

  /** asset::is_valid. */
  predicate IsValid(a: Asset) {
    -MAX_AMOUNT <= a.amount <= MAX_AMOUNT && a.sym < TWO_64 && S.Valid(a.sym)
  }

  /** The name of a valid symbol. */
  function SymbolName(sym: nat): (s: string)
    requires S.Valid(sym)
  {
    Letters(ToBytes(sym / 256))
  }

  function Abs(n: int): (r: nat) {
    if n < 0 then -n else n
  }

  /** n / p. */
  function Whole(n: nat, p: nat): (q: nat)
    requires p > 0
    ensures q * p <= n && q <= n
  {
    WholeBounds(n, p);
    n / p
  }

  lemma WholeBounds(n: nat, p: nat)
    requires p > 0
    ensures 0 <= n / p <= n && n / p * p <= n && n == n / p * p + n % p
  {
    var q := n / p;
    assert n == q * p + n % p;
    if q < 0 { MulMono(q, -1, p); } else { MulMono(1, p, q); }
  }

  /** n % p. */
  function Fraction(n: nat, p: nat): (f: nat)
    requires p > 0
    ensures f < p && n == Whole(n, p) * p + f
  {
    WholeBounds(n, p);
    n % p
  }

  /** The sign and numeral that to_string prints before the space. */
  function Numeral(a: Asset): (s: string)
    requires IsValid(a)
  {
    var p := Pow10(Decimals(a.sym));
    (if a.amount < 0 then "-" else "") + Dec(Whole(Abs(a.amount), p)) +
    (if Decimals(a.sym) == 0 then "" else "." + Dec(p + Fraction(Abs(a.amount), p))[1..])
  }

  /** What asset::to_string prints. */
  function Print(a: Asset): (s: string)
    requires IsValid(a)
  {
    Numeral(a) + " " + SymbolName(a.sym)
  }

  /** asset::to_string, with its intermediate values in int64_t. */
  method ToString(a: Asset) returns (result: string)
    requires IsValid(a)
    ensures result == Print(a)
  {
    hide Dec, ToBytes, Whole, Fraction, Pow10, SymbolName;
    Pow10Small(Decimals(a.sym));
    var sign := if a.amount < 0 then "-" else "";
    var abs := Abs(a.amount);
    var precision := Precision(Decimals(a.sym));
    result := Dec(Whole(abs, precision));
    if Decimals(a.sym) != 0 {
      var fract := Fraction(abs, precision);
      assert precision + fract <= MAX_INT64;
      result := result + ("." + Dec(precision + fract)[1..]);
    }
    result := sign + result + " " + SymbolName(a.sym);
    assert result == Print(a);
  }

  lemma Pow10Small(d: nat)
    requires d <= MAX_PRECISION
    ensures Pow10(d) <= 1_000_000_000_000_000_000
  {
    assert Pow10(6) == 1_000_000;
    if d <= 6 {
      Pow10Mono(d, 6);
    } else if d <= 12 {
      Pow10Add(6, d - 6);
      Pow10Mono(d - 6, 6);
    } else {
      Pow10Add(6, d - 6);
      Pow10Add(6, d - 12);
      Pow10Mono(d - 12, 6);
    }
  }

  lemma {:induction false} Pow10Mono(m: nat, n: nat)
    requires m <= n
    ensures Pow10(m) <= Pow10(n) && (m < n ==> Pow10(m) < Pow10(n))
  {
    if m < n { Pow10Mono(m, n - 1); }
  }

  lemma {:induction false} Pow10Add(m: nat, n: nat)
    ensures Pow10(m + n) == Pow10(m) * Pow10(n)
  {
    if m > 0 {
      Pow10Add(m - 1, n);
      assert Pow10(m + n) == 10 * Pow10(m - 1 + n);
      assert 10 * Pow10(m - 1) * Pow10(n) == 10 * (Pow10(m - 1) * Pow10(n));
    }
  }

  // ---- parsing ----

  /** symbol::from_string; the precision is stored in a uint8_t. */
  ghost function ParseSymbol(from: string): (r: Result<nat, Error>)
    ensures r.Ok? ==> r.value < TWO_64 && S.Valid(r.value)
  {
    var s := Trim(from);
    if s == [] then Err(EmptySymbol)
    else
      var comma := Find(s, ',');
      if comma == |s| then Err(MissingComma)
      else
        match ToInt64(s[..comma])
        case None => Err(NotAnInteger)
        case Some(n) =>
          var p := n % 256;
          if p > MAX_PRECISION then Err(PrecisionTooLarge)
          else
            match Packed(p, CString(s[comma + 1..]))
            case Err(e) => Err(e)
            case Ok(sym) =>
              PackedIsSymbol(p, CString(s[comma + 1..]));
              if S.Valid(sym) then Ok(sym) else Err(InvalidSymbol)
  }

  /** The exception of safe<int64_t> for a value out of range. */
  function RangeError(n: int): (e: Error) {
    if n > MAX_INT64 then Overflow else Underflow
  }

  /** The checked arithmetic on the parts, and the range check of the asset constructor. */
  function Combine(intPart: int, fractPart: int, negative: bool, precision: nat): (r: Result<int, Error>) {
    var fract := if negative then fractPart * -1 else fractPart;
    if Safe(fract).None? then Err(RangeError(fract))
    else if Safe(intPart * precision).None? then Err(RangeError(intPart * precision))
    else
      var amount := intPart * precision + fract;
      if Safe(amount).None? then Err(RangeError(amount))
      else if -MAX_AMOUNT <= amount <= MAX_AMOUNT then Ok(amount)
      else Err(AmountOutOfRange)
  }

  /** What asset::from_string makes of the text before the first space and the trimmed text after it. */
  ghost function ParseParts(amountStr: string, symbolStr: string): (r: Result<Asset, Error>) {
    var dot := Find(amountStr, '.');
    if dot < |amountStr| && dot == |amountStr| - 1 then Err(NoFraction)
    else
      var digits := if dot < |amountStr| then |amountStr| - dot - 1 else 0;
      match ParseSymbol(Dec(digits) + "," + symbolStr)
      case Err(e) => Err(e)
      case Ok(sym) =>
        match ToInt64(amountStr[..dot])
        case None => Err(NotAnInteger)
        case Some(i) =>
          match (if dot < |amountStr| then ToInt64(amountStr[dot + 1..]) else Some(0))
          case None => Err(NotAnInteger)
          case Some(f) =>
            match Combine(i, f, dot < |amountStr| && amountStr[0] == '-', Pow10(Decimals(sym)))
            case Err(e) => Err(e)
            case Ok(amount) => Ok(Asset(amount, sym))
  }

  /** What asset::from_string returns. */
  ghost function Parse(from: string): (r: Result<Asset, Error>) {
    var s := Trim(from);
    var space := Find(s, ' ');
    if space == |s| then Err(NoSpace) else ParseParts(s[..space], Trim(s[space + 1..]))
  }

  /** symbol::from_string, statement by statement. */
  method SymbolFromString(from: string) returns (r: Result<nat, Error>)
    ensures r == ParseSymbol(from)
  {
    hide Packed, ToInt64, D.Trim, CString;
    var s := Trim(from);
    if s == [] { return Err(EmptySymbol); }
    var comma := Find(s, ',');
    if comma == |s| { return Err(MissingComma); }
    var prec := ToInt64(s[..comma]);
    if prec.None? { return Err(NotAnInteger); }
    var p := prec.value % 256;
    var namePart := s[comma + 1..];
    if p > MAX_PRECISION { return Err(PrecisionTooLarge); }
    r := StringToSymbol(p, CString(namePart));
    if r.Ok? && !S.Valid(r.value) { return Err(InvalidSymbol); }
  }
}
