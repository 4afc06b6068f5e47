/**
 * Request-parameter parsing of the management backend's HTTP handlers:
 * an unsigned 32-bit path parameter and an integer query parameter with a
 * default. Both take the raw parameter text. Go's `int` is taken to be 64 bits.
 */
module Params {
  import opened Outcomes

  /** The error kinds of Go's decimal parser. */
  datatype NumError = ErrSyntax | ErrRange

  const MaxUint32: nat := 0x1_0000_0000 - 1
  const MaxUint64: nat := 0x1_0000_0000_0000_0000 - 1
  const MaxInt: int := 0x8000_0000_0000_0000 - 1
  const MinInt: int := -0x8000_0000_0000_0000

  predicate IsDigit(c: char)
  {
    '0' <= c <= '9'
  }

  function DigitValue(c: char): nat
    requires IsDigit(c)
  {
    (c as int - '0' as int) as nat
  }

  predicate AllDigits(s: string)
  {
    forall i :: 0 <= i < |s| ==> IsDigit(s[i])
  }

  /** The value of the digits `s` read left to right after an already read prefix worth `acc`. */
  function Fold(acc: nat, s: string): nat
    requires AllDigits(s)
    decreases s
  {
    if s == [] then acc else Fold(acc * 10 + DigitValue(s[0]), s[1..])
  }

  /** The value of a string of decimal digits. */
  function DigitsValue(s: string): nat
    requires AllDigits(s)
  {
    Fold(0, s)
  }

  /** Reading more digits never lowers the value. */
  lemma {:induction false} FoldAtLeast(acc: nat, s: string)
    requires AllDigits(s)
    ensures Fold(acc, s) >= acc
    decreases s
  {
    if s != [] {
      FoldAtLeast(acc * 10 + DigitValue(s[0]), s[1..]);
    }
  }

  /** A digit appended at the end multiplies the value read so far by ten and adds itself. */
  lemma {:induction false} FoldAppend(acc: nat, s: string, c: char)
    requires AllDigits(s) && IsDigit(c)
    ensures AllDigits(s + [c])
    ensures Fold(acc, s + [c]) == Fold(acc, s) * 10 + DigitValue(c)
    decreases s
  {
    if s != [] {
      assert (s + [c])[1..] == s[1..] + [c];
      FoldAppend(acc * 10 + DigitValue(s[0]), s[1..], c);
    }
  }

  /**
   * The digit loop of Go's unsigned parser: stops at the first non-digit with
   * a syntax error, and at the first digit that takes the value above `maxVal`
   * with a range error.
   */
  function Accumulate(s: string, acc: nat, maxVal: nat): (r: Result<nat, NumError>)
    requires acc <= maxVal
    ensures r.Ok? <==> AllDigits(s) && Fold(acc, s) <= maxVal
    ensures r.Ok? ==> r.value == Fold(acc, s)
  {
    if s == [] then Ok(acc)
    else if !IsDigit(s[0]) then
      assert !AllDigits(s);
      Err(ErrSyntax)
    else
      var next := acc * 10 + DigitValue(s[0]);
      assert AllDigits(s) <==> AllDigits(s[1..]) by {
        assert forall i :: 0 < i < |s| ==> s[i] == s[1..][i - 1];
      }
      if next > maxVal then
        if AllDigits(s[1..]) then
          FoldAtLeast(next, s[1..]);
          Err(ErrRange)
        else Err(ErrRange)
      else Accumulate(s[1..], next, maxVal)
  }

  /** Go's `strconv.ParseUint(s, 10, bitSize)` with `maxVal` = 2^bitSize - 1. */
  function ParseUint(s: string, maxVal: nat): (r: Result<nat, NumError>)
    ensures r.Ok? <==> s != [] && AllDigits(s) && DigitsValue(s) <= maxVal
    ensures r.Ok? ==> r.value == DigitsValue(s)
  {
    if s == [] then Err(ErrSyntax) else Accumulate(s, 0, maxVal)
  }

  /** An optional sign followed by at least one digit. */
  predicate IsDecimal(s: string)
  {
    var digits := if s != [] && (s[0] == '+' || s[0] == '-') then s[1..] else s;
    digits != [] && AllDigits(digits)
  }

  /** The value of a decimal with an optional sign. */
  function SignedValue(s: string): int
    requires IsDecimal(s)
  {
    if s[0] == '-' then -(DigitsValue(s[1..]) as int)
    else if s[0] == '+' then DigitsValue(s[1..])
    else DigitsValue(s)
  }

  /** Go's `strconv.Atoi` for a 64-bit `int`. */
  function Atoi(s: string): (r: Result<int, NumError>)
    ensures r.Ok? <==> IsDecimal(s) && MinInt <= SignedValue(s) <= MaxInt
    ensures r.Ok? ==> r.value == SignedValue(s)
  {
    if s == [] then Err(ErrSyntax)
    else
      var neg := s[0] == '-';
      var digits := if s[0] == '+' || s[0] == '-' then s[1..] else s;
      match ParseUint(digits, MaxUint64)
      case Err(e) => Err(e)
      case Ok(un) =>
        if !neg && un > MaxInt then Err(ErrRange)
        else if neg && un > -MinInt then Err(ErrRange)
        else Ok(if neg then -(un as int) else un)
  }

  /**
   * `parseUintParam`: the parameter's value when it is a base-10 string of
   * digits below 2^32, otherwise 0 together with the parser's error.
   */
  function ParseUintParam(param: string): (r: (nat, Option<NumError>))
    ensures r.1.None? <==> param != [] && AllDigits(param) && DigitsValue(param) <= MaxUint32
    ensures r.1.None? ==> r.0 == DigitsValue(param) && r.0 < 0x1_0000_0000
    ensures r.1.Some? ==> r.0 == 0
  {
    match ParseUint(param, MaxUint32)
    case Ok(id) => (id, None)
    case Err(e) => (0, Some(e))
  }

  /**
   * `parseQueryParamInt`: the parameter's value when it is a decimal that fits
   * an `int`; the default when it is empty or anything else.
   */
  function ParseQueryParamInt(param: string, defaultValue: int): (r: int)
    ensures param == [] ==> r == defaultValue
    ensures !(IsDecimal(param) && MinInt <= SignedValue(param) <= MaxInt) ==> r == defaultValue
    ensures IsDecimal(param) && MinInt <= SignedValue(param) <= MaxInt ==> r == SignedValue(param)
  {
    if param == [] then defaultValue
    else match Atoi(param)
      case Err(_) => defaultValue
      case Ok(value) => value
  }

  // ---------------------------------------------------------------------------
  // Rendering numbers in decimal, and the round trips

  function DigitChar(d: nat): (c: char)
    requires d < 10
    ensures IsDigit(c) && DigitValue(c) == d
  {
    ('0' as int + d) as char
  }

  /** The decimal digits of `n`, without leading zeros (`strconv.Itoa` of a non-negative number). */
  function Render(n: nat): (s: string)
    ensures s != [] && AllDigits(s)
  {
    if n < 10 then [DigitChar(n)] else Render(n / 10) + [DigitChar(n % 10)]
  }

  /** `strconv.Itoa`: a minus sign before the digits of a negative number. */
  function RenderInt(n: int): (s: string)
    ensures s != []
  {
    if n < 0 then "-" + Render(-n) else Render(n)
  }

  lemma {:induction false} RenderValue(n: nat)
    ensures DigitsValue(Render(n)) == n
  {
    if n >= 10 {
      RenderValue(n / 10);
      FoldAppend(0, Render(n / 10), DigitChar(n % 10));
      assert Render(n) == Render(n / 10) + [DigitChar(n % 10)];
      assert DigitsValue(Render(n)) == (n / 10) * 10 + n % 10;
    } else {
      assert Render(n)[1..] == [];
      assert Fold(0, Render(n)) == Fold(n, []);
    }
  }

  /** Every number below 2^32, written in decimal, parses back to itself without error. */
  lemma ParseUintParamRoundTrip(n: nat)
    requires n <= MaxUint32
    ensures ParseUintParam(Render(n)) == (n, None)
  {
    RenderValue(n);
  }

  /** Every `int`, written in decimal, parses back to itself whatever the default. */
  lemma ParseQueryParamIntRoundTrip(n: int, defaultValue: int)
    requires MinInt <= n <= MaxInt
    ensures ParseQueryParamInt(RenderInt(n), defaultValue) == n
  {
    var s := RenderInt(n);
    if n < 0 {
      RenderValue(-n);
      assert s[1..] == Render(-n);
    } else {
      RenderValue(n);
      assert s[0] != '-' && s[0] != '+';
    }
  }
}
