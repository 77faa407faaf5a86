/** Decimal integer parsing and formatting: strconv.Atoi for route ids,
    strconv.Itoa as its inverse, and the `%06d` format of reset codes. */
module Strconv {

  /** Go's `int` is 64 bits wide on the platforms the service targets. */
  const MinInt64: int := -0x8000_0000_0000_0000
  const MaxInt64: int := 0x7FFF_FFFF_FFFF_FFFF

  /** strconv.Atoi either yields a value or an error; the handlers treat a
      syntax error and a range error alike, so one error value suffices. */
  datatype ParseResult = Parsed(value: int) | Invalid

  predicate IsDigit(c: char)
  {
    '0' <= c <= '9'
  }

  predicate AllDigits(s: string)
  {
    forall i :: 0 <= i < |s| ==> IsDigit(s[i])
  }

  predicate IsSign(c: char)
  {
    c == '+' || c == '-'
  }

  function DigitValue(c: char): (d: nat)
    requires IsDigit(c)
    ensures d < 10
  {
    c as int - '0' as int
  }

  function DigitChar(d: nat): (c: char)
    requires d < 10
    ensures IsDigit(c) && DigitValue(c) == d
  {
    ('0' as int + d) as char
  }

  /** The value of a string of decimal digits, most significant first. */
  function DigitsValue(s: string): nat
    requires AllDigits(s)
  {
    if s == [] then 0 else DigitsValue(s[..|s| - 1]) * 10 + DigitValue(s[|s| - 1])
  }

  /** Appending a digit multiplies the value by ten and adds the digit. */
  lemma DigitsValueAppend(d: string, c: char)
    requires AllDigits(d) && IsDigit(c)
    ensures AllDigits(d + [c])
    ensures DigitsValue(d + [c]) == DigitsValue(d) * 10 + DigitValue(c)
  {
    assert (d + [c])[..|d|] == d;
  }

  /** Reference definition of strconv.Atoi: an optional '+' or '-', then one
      or more ASCII digits and nothing else, whose value fits in 64 bits. */
  function ParseInt(s: string): (r: ParseResult)
    ensures r.Parsed? ==> MinInt64 <= r.value <= MaxInt64
    ensures r.Parsed? ==> s != [] && (IsDigit(s[0]) || IsSign(s[0]))
    ensures r.Parsed? ==> forall i :: 0 < i < |s| ==> IsDigit(s[i])
    ensures r.Parsed? ==> s != [] && (!IsSign(s[0]) || |s| >= 2)
    ensures s != [] && AllDigits(s) ==>
      r == if DigitsValue(s) <= MaxInt64 then Parsed(DigitsValue(s)) else Invalid
    ensures |s| >= 2 && s[0] == '+' && AllDigits(s[1..]) ==>
      r == if DigitsValue(s[1..]) <= MaxInt64 then Parsed(DigitsValue(s[1..])) else Invalid
    ensures |s| >= 2 && s[0] == '-' && AllDigits(s[1..]) ==>
      r == if DigitsValue(s[1..]) <= -MinInt64 then Parsed(-(DigitsValue(s[1..]) as int)) else Invalid
  {
    var digits := if s != [] && IsSign(s[0]) then s[1..] else s;
    if digits == [] || !AllDigits(digits) then Invalid
    else
      var v: int := if s[0] == '-' then -(DigitsValue(digits) as int) else DigitsValue(digits);
      if MinInt64 <= v <= MaxInt64 then Parsed(v) else Invalid
  }

  /** strconv.Atoi as the library computes it: strip one sign, accumulate
      the digits left to right, reject any other character, then check the
      64-bit range. It agrees with the reference definition on every input. */
  method Atoi(s: string) returns (r: ParseResult)
    ensures r == ParseInt(s)
  {
    if |s| == 0 {
      return Invalid;
    }
    var start := 0;
    var negative := false;
    if IsSign(s[0]) {
      negative := s[0] == '-';
      start := 1;
      if |s| == 1 {
        return Invalid;
      }
    }
    var n := 0;
    var i := start;
    while i < |s|
      invariant start <= i <= |s|
      invariant AllDigits(s[start..i])
      invariant n == DigitsValue(s[start..i])
    {
      if !IsDigit(s[i]) {
        assert !AllDigits(s[start..]) by {
          assert s[start..][i - start] == s[i];
        }
        return Invalid;
      }
      assert s[start..i + 1] == s[start..i] + [s[i]];
      DigitsValueAppend(s[start..i], s[i]);
      n := n * 10 + DigitValue(s[i]);
      i := i + 1;
    }
    assert s[start..i] == s[start..];
    if negative {
      n := -n;
    }
    if n < MinInt64 || n > MaxInt64 {
      return Invalid;
    }
    return Parsed(n);
  }

  /** The decimal digits of a natural number, without leading zeros. */
  function NatToDecimal(n: nat): (r: string)
    ensures r != [] && AllDigits(r)
    ensures DigitsValue(r) == n
    ensures n < 10 <==> |r| == 1
    decreases n
  {
    if n < 10 then [DigitChar(n)]
    else
      var r := NatToDecimal(n / 10) + [DigitChar(n % 10)];
      assert r[..|r| - 1] == NatToDecimal(n / 10);
      r
  }

  /** strconv.Itoa. */
  function Itoa(n: int): (r: string)
    ensures r != []
    ensures n < 0 <==> r[0] == '-'
  {
    if n < 0 then "-" + NatToDecimal(-n) else NatToDecimal(n)
  }

  /** Formatting and parsing are inverse: every 64-bit integer survives
      the trip through its decimal string. */
  lemma ParseIntItoa(n: int)
    requires MinInt64 <= n <= MaxInt64
    ensures ParseInt(Itoa(n)) == Parsed(n)
  {
    var s := Itoa(n);
    if n < 0 {
      assert s[1..] == NatToDecimal(-n);
    } else {
      assert !IsSign(s[0]);
    }
  }

  function Pow10(k: nat): (p: nat)
    ensures p >= 1
  {
    if k == 0 then 1 else 10 * Pow10(k - 1)
  }

  lemma {:induction false} NatToDecimalLength(n: nat, k: nat)
    requires 1 <= k && n < Pow10(k)
    ensures |NatToDecimal(n)| <= k
    decreases n
  {
    if n >= 10 {
      assert k >= 2;
      NatToDecimalLength(n / 10, k - 1);
    }
  }

  /** `%0wd` for a non-negative value: the decimal digits, left-padded with
      '0' to at least `width` characters. */
  function ZeroPad(s: string, width: nat): (r: string)
    requires AllDigits(s)
    ensures AllDigits(r)
    ensures |r| == if |s| >= width then |s| else width
    ensures DigitsValue(r) == DigitsValue(s)
    decreases width - |s|
  {
    if |s| >= width then s
    else
      LeadingZero(s);
      ZeroPad("0" + s, width)
  }

  lemma {:induction false} LeadingZero(s: string)
    requires AllDigits(s)
    ensures AllDigits("0" + s) && DigitsValue("0" + s) == DigitsValue(s)
    decreases |s|
  {
    if s != [] {
      var z := "0" + s;
      assert z[..|z| - 1] == "0" + s[..|s| - 1];
      LeadingZero(s[..|s| - 1]);
    }
  }

  /** fmt.Sprintf("%06d", n): the decimal digits of `n`, left-padded with
      zeros to six characters; a value below one million takes exactly six. */
  function Format06(n: nat): (r: string)
    ensures AllDigits(r) && DigitsValue(r) == n
    ensures |r| >= 6
    ensures n < 1000000 ==> |r| == 6
  {
    var digits := NatToDecimal(n);
    if n < 1000000 then
      assert Pow10(6) == 1000000;
      NatToDecimalLength(n, 6);
      ZeroPad(digits, 6)
    else ZeroPad(digits, 6)
  }

  /** A reset code drawn below one million prints as exactly six ASCII
      digits, and reading those digits back gives the number drawn, so
      distinct draws give distinct codes. */
  lemma Format06Digits(n: nat)
    requires n < 1000000
    ensures |Format06(n)| == 6 && AllDigits(Format06(n))
    ensures ParseInt(Format06(n)) == Parsed(n)
  {
  }
}
