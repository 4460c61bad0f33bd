/** The two JavaScript string built-ins the proof-of-work loop relies on:
    `Number.prototype.toString()` applied to an integer, which produces the
    decimal text that is fed to the mining digest, and
    `String.prototype.substr(start, length)`, which cuts the digest's prefix. */
module JsText {

  function Min(a: int, b: int): (m: int) { if a <= b then a else b }

  predicate IsDigit(c: char) { '0' <= c <= '9' }

  predicate AllDigits(s: string) { forall i :: 0 <= i < |s| ==> IsDigit(s[i]) }

  /** The text `Number.prototype.toString()` gives for an integer: an optional
      minus sign followed by at least one decimal digit. */
  predicate IsNumeral(s: string) {
    |s| > 0 && if s[0] == '-' then |s| > 1 && AllDigits(s[1..]) else AllDigits(s)
  }

  function DigitChar(d: int): (c: char)
    requires 0 <= d < 10
    ensures IsDigit(c) && c as int - '0' as int == d
  {
    ('0' as int + d) as char
  }

  function DigitValue(c: char): (d: nat)
    requires IsDigit(c)
    ensures d < 10 && DigitChar(d) == c
  {
    c as int - '0' as int
  }

  /** Decimal digits of a non-negative integer, most significant first,
      without leading zeros. */
  function NatToDecimal(n: nat): (r: string)
    ensures |r| > 0 && AllDigits(r)
    ensures r[0] == '0' ==> n == 0
    decreases n
  {
    if n < 10 then [DigitChar(n)] else NatToDecimal(n / 10) + [DigitChar(n % 10)]
  }

  /** `n.toString()` for an integral JavaScript number. */
  function NumberToString(n: int): (r: string)
    ensures IsNumeral(r)
    ensures r[0] == '-' <==> n < 0
  {
    if n < 0 then "-" + NatToDecimal(-n) else NatToDecimal(n)
  }

  /** Value of a string of decimal digits (the inverse reading). */
  function DecimalValue(s: string): (n: nat)
    requires AllDigits(s)
    decreases |s|
  {
    if s == [] then 0 else DecimalValue(s[..|s| - 1]) * 10 + DigitValue(s[|s| - 1])
  }

  function ParseNumber(s: string): (n: int)
    requires IsNumeral(s)
  {
    if s[0] == '-' then -(DecimalValue(s[1..]) as int) else DecimalValue(s)
  }

  lemma {:induction false} DecimalRoundTrip(n: nat)
    ensures DecimalValue(NatToDecimal(n)) == n
    decreases n
  {
    if n >= 10 {
      var s := NatToDecimal(n);
      assert s[..|s| - 1] == NatToDecimal(n / 10);
      DecimalRoundTrip(n / 10);
    }
  }

  /** Reading back the text of `n.toString()` yields `n`. */
  lemma NumberRoundTrip(n: int)
    ensures ParseNumber(NumberToString(n)) == n
  {
    if n < 0 {
      assert NumberToString(n)[1..] == NatToDecimal(-n);
      DecimalRoundTrip(-n);
    } else {
      DecimalRoundTrip(n);
    }
  }

  /** Distinct integers have distinct decimal texts, so each mining attempt
      digests a different string. */
  lemma NumberToStringInjective(a: int, b: int)
    requires NumberToString(a) == NumberToString(b)
    ensures a == b
  {
    NumberRoundTrip(a);
    NumberRoundTrip(b);
  }

  /** `s.substr(start, length)` for non-negative arguments: the characters of
      `s` from `start` on, at most `length` of them, and none when `start`
      lies past the end. */
  function Substr(s: string, start: nat, length: nat): (r: string)
    ensures |r| == if start >= |s| then 0 else Min(length, |s| - start)
    ensures forall i :: 0 <= i < |r| ==> r[i] == s[start + i]
  {
    if start >= |s| then "" else s[start..start + Min(length, |s| - start)]
  }

  /** Comparing the first |p| characters against `p` is a prefix test; a
      string shorter than `p` never passes. */
  lemma SubstrPrefix(s: string, p: string)
    ensures Substr(s, 0, |p|) == p <==> p <= s
  {
  }
}
