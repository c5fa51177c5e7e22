/**
 * The parts of Go's `strconv` and `fmt` that the option-code flag relies on:
 * `strconv.ParseUint(s, 10, 8)` and the `%d` rendering of an 8-bit code.
 */
module Strconv {

  import opened Wrappers

  /** An unsigned 8-bit integer; a DHCPv4 option code is one of these. */
  newtype uint8 = x: int | 0 <= x < 256

  predicate IsDigit(c: char) {
    '0' <= c <= '9'
  }

  predicate AllDigits(s: string) {
    forall i :: 0 <= i < |s| ==> IsDigit(s[i])
  }

  function DigitValue(c: char): (d: nat)
    requires IsDigit(c)
    ensures d < 10
  {
    c as int - '0' as int
  }

  function DigitChar(d: nat): (c: char)
    requires d < 10
    ensures IsDigit(c) && DigitValue(c) == d
  {
    ('0' as int + d) as char
  }

  /** The number denoted by a string of decimal digits; leading zeros are allowed. */
  function DecimalValue(s: string): nat
    requires AllDigits(s)
    decreases |s|
  {
    if s == [] then 0 else 10 * DecimalValue(s[..|s| - 1]) + DigitValue(s[|s| - 1])
  }

  /** The two kinds of `*strconv.NumError`, each carrying the rejected text. */
  datatype NumError = ErrSyntax(num: string) | ErrRange(num: string)

  /**
   * `strconv.ParseUint(s, 10, 8)`: the empty string is a syntax error; otherwise the
   * characters are scanned left to right, and the first non-digit is a syntax error
   * while the first prefix whose value exceeds 255 is a range error. No sign, no
   * underscores, no base prefix.
   */
  function ParseUint8(s: string): (r: Result<uint8, NumError>)
    ensures r.Failure? ==> r.error.num == s
    ensures r.Success? ==> s != [] && AllDigits(s)
  {
    if s == [] then Failure(ErrSyntax(s)) else Scan(s, 0, 0)
  }

  /** The scanning loop of `ParseUint`, with `n` the value of the digits `s[..i]`. */
  function Scan(s: string, i: nat, n: nat): (r: Result<uint8, NumError>)
    requires i <= |s| && n < 256
    ensures r.Failure? ==> r.error.num == s
    ensures r.Success? ==> forall k :: i <= k < |s| ==> IsDigit(s[k])
    decreases |s| - i
  {
    if i == |s| then Success(n as uint8)
    else if !IsDigit(s[i]) then Failure(ErrSyntax(s))
    else if 10 * n + DigitValue(s[i]) > 255 then Failure(ErrRange(s))
    else Scan(s, i + 1, 10 * n + DigitValue(s[i]))
  }

  /** `fmt.Sprintf("%d", n)`: decimal digits without leading zeros. */
  function Decimal(n: nat): (r: string)
    ensures r != [] && AllDigits(r)
    ensures |r| == 1 <==> n < 10
    decreases n
  {
    if n < 10 then [DigitChar(n)] else Decimal(n / 10) + [DigitChar(n % 10)]
  }

  /** The value of a digit string grows as digits are appended. */
  lemma {:induction false} DecimalValuePrefix(s: string, k: nat)
    requires AllDigits(s) && k <= |s|
    ensures DecimalValue(s[..k]) <= DecimalValue(s)
    decreases |s|
  {
    if k < |s| {
      var init := s[..|s| - 1];
      assert init[..k] == s[..k];
      DecimalValuePrefix(init, k);
    } else {
      assert s[..k] == s;
    }
  }

  lemma {:induction false} ScanSpec(s: string, i: nat, n: nat)
    requires i <= |s| && n < 256
    requires AllDigits(s[..i]) && n == DecimalValue(s[..i])
    ensures Scan(s, i, n).Success? <==> AllDigits(s) && DecimalValue(s) <= 255
    ensures Scan(s, i, n).Success? ==> Scan(s, i, n).value as int == DecimalValue(s)
    ensures AllDigits(s) && DecimalValue(s) > 255 ==> Scan(s, i, n) == Failure(ErrRange(s))
    decreases |s| - i
  {
    if i == |s| {
      assert s[..i] == s;
    } else if !IsDigit(s[i]) {
      assert !AllDigits(s);
    } else {
      var next := s[..i + 1];
      assert next[..i] == s[..i];
      assert AllDigits(next);
      assert DecimalValue(next) == 10 * n + DigitValue(s[i]);
      if 10 * n + DigitValue(s[i]) > 255 {
        if AllDigits(s) {
          DecimalValuePrefix(s, i + 1);
        }
      } else {
        ScanSpec(s, i + 1, 10 * n + DigitValue(s[i]));
      }
    }
  }

  /**
   * `ParseUint(s, 10, 8)` succeeds exactly on non-empty all-digit strings whose
   * value fits in 8 bits, and then yields that value; an all-digit string whose
   * value is larger is a range error and the empty string a syntax error.
   */
  lemma ParseUint8Spec(s: string)
    ensures ParseUint8(s).Success? <==> s != [] && AllDigits(s) && DecimalValue(s) <= 255
    ensures ParseUint8(s).Success? ==> ParseUint8(s).value as int == DecimalValue(s)
    ensures s != [] && AllDigits(s) && DecimalValue(s) > 255 ==> ParseUint8(s) == Failure(ErrRange(s))
    ensures s == [] ==> ParseUint8(s) == Failure(ErrSyntax(s))
  {
    if s != [] {
      assert s[..0] == [];
      ScanSpec(s, 0, 0);
    }
  }

  /** `%d` yields a non-empty digit string that denotes the number it renders. */
  lemma {:induction false} DecimalSpec(n: nat)
    ensures Decimal(n) != [] && AllDigits(Decimal(n))
    ensures DecimalValue(Decimal(n)) == n
    ensures |Decimal(n)| > 1 ==> Decimal(n)[0] != '0'
    decreases n
  {
    if n >= 10 {
      DecimalSpec(n / 10);
      var d := Decimal(n);
      assert d[..|d| - 1] == Decimal(n / 10);
    }
  }

  /** Rendering a code in decimal and parsing it back gives the code. */
  lemma ParseDecimal(c: uint8)
    ensures ParseUint8(Decimal(c as nat)) == Success(c)
  {
    DecimalSpec(c as nat);
    ParseUint8Spec(Decimal(c as nat));
  }
}
