/** Decimal numerals as the tools read and write them: Python's `int(token)`
    and the f-string renderings `{n}` and `{n:05d}` of a non-negative int. */
module Numerals {
  import opened Wrappers
  import opened Text

  predicate IsDigit(c: char) {
    '0' <= c <= '9'
  }

  predicate AllDigits(s: string) {
    forall i :: 0 <= i < |s| ==> IsDigit(s[i])
  }

  function DigitValue(c: char): nat
    requires IsDigit(c)
  {
    c as int - '0' as int
  }

  function DigitChar(d: nat): (c: char)
    requires d < 10
    ensures IsDigit(c) && DigitValue(c) == d
  {
    ('0' as int + d) as char
  }

  /** The value of an ASCII digit string, most significant digit first. */
  function DigitsValue(s: string): nat
    requires AllDigits(s)
    decreases |s|
  {
    if s == [] then 0 else DigitsValue(s[..|s| - 1]) * 10 + DigitValue(s[|s| - 1])
  }

  /** Python's `int(token)`: an optional sign and one or more ASCII digits;
      anything else raises, here `None`. */
  function ParseInt(s: string): Option<int>
  {
    if s != [] && (s[0] == '-' || s[0] == '+') then
      var body := s[1..];
      if body != [] && AllDigits(body) then
        var v: int := DigitsValue(body);
        Some(if s[0] == '-' then -v else v)
      else None
    else if s != [] && AllDigits(s) then Some(DigitsValue(s))
    else None
  }

  /** `f"{n}"` for a non-negative int. */
  function Decimal(n: nat): (r: string)
    ensures r != [] && AllDigits(r)
    ensures |r| == 1 <==> n < 10
  {
    if n < 10 then [DigitChar(n)] else Decimal(n / 10) + [DigitChar(n % 10)]
  }

  function Zeros(k: nat): (r: string)
    ensures |r| == k && forall i :: 0 <= i < k ==> r[i] == '0'
  {
    if k == 0 then [] else ['0'] + Zeros(k - 1)
  }

  /** `f"{n:05d}"`: the decimal numeral, left-padded with zeros to at least
      five characters. */
  function ZeroPad5(n: nat): (r: string)
    ensures |r| == if |Decimal(n)| < 5 then 5 else |Decimal(n)|
    ensures r[|r| - |Decimal(n)|..] == Decimal(n)
    ensures forall i :: 0 <= i < |r| - |Decimal(n)| ==> r[i] == '0'
  {
    var d := Decimal(n);
    if |d| < 5 then Zeros(5 - |d|) + d else d
  }

  lemma DigitsToken(s: string)
    requires s != [] && AllDigits(s)
    ensures IsToken(s)
  {
  }

  /** Reading back a rendered numeral gives the number. */
  lemma {:induction false} DecimalRoundTrip(n: nat)
    ensures DigitsValue(Decimal(n)) == n
    ensures ParseInt(Decimal(n)) == Some(n)
  {
    var d := Decimal(n);
    if n >= 10 {
      DecimalRoundTrip(n / 10);
      assert d[..|d| - 1] == Decimal(n / 10);
    }
  }

  /** Leading zeros do not change the value. */
  lemma {:induction false} LeadingZeros(k: nat, s: string)
    requires AllDigits(s)
    ensures AllDigits(Zeros(k) + s)
    ensures DigitsValue(Zeros(k) + s) == DigitsValue(s)
    decreases |s|
  {
    var z := Zeros(k) + s;
    if s == [] {
      assert z == Zeros(k);
      ZerosValue(k);
    } else {
      LeadingZeros(k, s[..|s| - 1]);
      assert z[..|z| - 1] == Zeros(k) + s[..|s| - 1];
    }
  }

  lemma {:induction false} ZerosValue(k: nat)
    ensures DigitsValue(Zeros(k)) == 0
  {
    if k > 0 {
      ZerosValue(k - 1);
      assert Zeros(k)[..k - 1] == Zeros(k - 1);
    }
  }

  /** A zero-padded frame name numeral reads back as its number. */
  lemma ZeroPadRoundTrip(n: nat)
    ensures ParseInt(ZeroPad5(n)) == Some(n)
  {
    DecimalRoundTrip(n);
    var d := Decimal(n);
    if |d| < 5 {
      LeadingZeros(5 - |d|, d);
    }
  }

  /** Distinct frame indices get distinct zero-padded numerals. */
  lemma ZeroPadInjective(m: nat, n: nat)
    requires m != n
    ensures ZeroPad5(m) != ZeroPad5(n)
  {
    ZeroPadRoundTrip(m);
    ZeroPadRoundTrip(n);
  }
}
