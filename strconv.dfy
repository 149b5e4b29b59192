/** The pieces of Go's strconv package the core relies on: Itoa (used by
    Rebind to number placeholders), FormatInt, and ParseInt(s, 10, 64) (used
    by the add handler to read the Size field of the backend's reply). */
module Strconv {
  import opened Http

  newtype int64 = x: int | -0x8000_0000_0000_0000 <= x < 0x8000_0000_0000_0000

  predicate IsDigit(c: char) {
    '0' <= c <= '9'
  }

  predicate AllDigits(s: string) {
    forall i | 0 <= i < |s| :: IsDigit(s[i])
  }

  function DigitChar(d: nat): (c: char)
    requires d < 10
    ensures IsDigit(c) && c as int - '0' as int == d
  {
    ('0' as int + d) as char
  }

  /** The number a string of decimal digits denotes (leading zeros allowed). */
  function DecimalValue(s: string): nat
    requires AllDigits(s)
  {
    if s == [] then 0
    else DecimalValue(s[..|s| - 1]) * 10 + (s[|s| - 1] as int - '0' as int)
  }

  /** strconv.Itoa on a non-negative number: its shortest decimal spelling. */
  function Itoa(n: nat): (s: string)
    ensures |s| > 0 && AllDigits(s)
    ensures s[0] == '0' ==> n == 0
  {
    if n < 10 then [DigitChar(n)] else Itoa(n / 10) + [DigitChar(n % 10)]
  }

  /** Reading back what Itoa wrote gives the number again. */
  lemma {:induction false} ItoaDecimalValue(n: nat)
    ensures DecimalValue(Itoa(n)) == n
  {
    if n >= 10 {
      var s := Itoa(n);
      assert s[..|s| - 1] == Itoa(n / 10);
      ItoaDecimalValue(n / 10);
    }
  }

  /** Different numbers are spelled differently. */
  lemma ItoaInjective(m: nat, n: nat)
    requires Itoa(m) == Itoa(n)
    ensures m == n
  {
    ItoaDecimalValue(m);
    ItoaDecimalValue(n);
  }

  /** strconv.FormatInt(n, 10). */
  function FormatInt(n: int64): string {
    if n < 0 then "-" + Itoa(-(n as int)) else Itoa(n as int)
  }

  /** strconv.ParseInt(s, 10, 64), with its error collapsed to None: an
      optional '+' or '-', then one or more decimal digits (no underscores in
      base 10), whose value must fit in 64 signed bits. */
  function ParseInt64(s: string): (r: Option<int64>)
    ensures r.Some? ==> |s| > 0 && (IsDigit(s[0]) || s[0] == '+' || s[0] == '-')
    ensures r.Some? ==> forall i | 0 < i < |s| :: IsDigit(s[i])
  {
    if s == [] then None
    else
      var neg := s[0] == '-';
      var digits := if s[0] == '+' || s[0] == '-' then s[1..] else s;
      if digits == [] || !AllDigits(digits) then None
      else
        var u := DecimalValue(digits);
        if !neg && u < 0x8000_0000_0000_0000 then Some(u as int64)
        else if neg && u <= 0x8000_0000_0000_0000 then Some((-(u as int)) as int64)
        else None
  }

  /** Parsing what FormatInt wrote gives the number back. */
  lemma ParseFormatRoundTrip(n: int64)
    ensures ParseInt64(FormatInt(n)) == Some(n)
  {
    if n < 0 {
      var s := FormatInt(n);
      assert s[1..] == Itoa(-(n as int));
      ItoaDecimalValue(-(n as int));
    } else {
      ItoaDecimalValue(n as int);
    }
  }

  /** A string holding a character other than a digit past an optional
      leading sign is rejected. */
  lemma ParseRejectsNonDigit(s: string, i: nat)
    requires i < |s| && !IsDigit(s[i])
    requires i == 0 ==> s[0] != '+' && s[0] != '-'
    ensures ParseInt64(s) == None
  {
  }

  /** The empty string and a lone sign are refused. */
  lemma ParseRejectsBareSign()
    ensures ParseInt64("") == None
    ensures ParseInt64("+") == None && ParseInt64("-") == None
  {
  }

  /** A sign (or none) followed by one or more digits is read as the signed
      value of the digits when that value fits in 64 bits, and refused when
      it does not. */
  lemma ParseSignedDigits(sign: string, d: string)
    requires sign == "" || sign == "+" || sign == "-"
    requires d != [] && AllDigits(d)
    ensures var v := if sign == "-" then -(DecimalValue(d) as int) else DecimalValue(d) as int;
      ParseInt64(sign + d) ==
        if -0x8000_0000_0000_0000 <= v < 0x8000_0000_0000_0000 then Some(v as int64) else None
  {
    var s := sign + d;
    if sign == "" {
      assert s == d;
    } else {
      assert s[0] == sign[0] && s[1..] == d;
    }
  }
}
