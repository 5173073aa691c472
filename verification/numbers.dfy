/**
 Numeric text: Python's `int(s)` and `str(n)` for decimal integers, and the
 `int(round(float(s)))` coercion applied to personal-best times, restricted
 to plain decimal notation.
 */
module Numbers {
  import opened Wrappers
  import opened Text

  predicate AllDigits(s: string) {
    forall i :: 0 <= i < |s| ==> IsDigit(s[i])
  }

  function DigitValue(c: char): nat
    requires IsDigit(c)
  {
    c as int - '0' as int
  }

  /** The value of a run of decimal digits, most significant first. */
  function DigitsValue(s: string): nat
    requires AllDigits(s)
  {
    if s == [] then 0 else DigitsValue(s[..|s| - 1]) * 10 + DigitValue(s[|s| - 1])
  }

  function Pow10(k: nat): (p: nat)
    ensures p >= 1
  {
    if k == 0 then 1 else 10 * Pow10(k - 1)
  }

  /** The decimal digits of `n`, without leading zeros; they denote `n`. */
  function NatToDigits(n: nat): (s: string)
    ensures s != [] && AllDigits(s)
    ensures DigitsValue(s) == n
    ensures |s| > 1 ==> s[0] != '0'
  {
    if n < 10 then [('0' as int + n) as char]
    else
      var s := NatToDigits(n / 10) + [('0' as int + n % 10) as char];
      assert s[..|s| - 1] == NatToDigits(n / 10);
      s
  }

  /** `str(n)` for an integer. */
  function IntToString(n: int): (s: string)
    ensures s != [] && NoSpace(s)
  {
    if n < 0 then "-" + NatToDigits(-n) else NatToDigits(n)
  }

  /** Splits an optional leading sign off `t`: whether it was '-', and the rest. */
  function SplitSign(t: string): (bool, string)
  {
    if |t| > 0 && (t[0] == '-' || t[0] == '+') then (t[0] == '-', t[1..]) else (false, t)
  }

  /** `int(s)`: surrounding white space, an optional sign and one or more
      ASCII digits; anything else is Python's ValueError, here `None`. */
  function ParseInt(s: string): Option<int>
  {
    var (neg, digits) := SplitSign(Strip(s));
    if digits != [] && AllDigits(digits) then
      var v: int := DigitsValue(digits);
      Some(if neg then -v else v)
    else None
  }

  /** The text of an integer is already stripped and splits into its sign
      and the digits of its magnitude. */
  lemma ShowParts(n: int) returns (digits: string)
    ensures digits == NatToDigits(if n < 0 then -n else n)
    ensures Strip(IntToString(n)) == IntToString(n)
    ensures SplitSign(Strip(IntToString(n))) == (n < 0, digits)
  {
    digits := NatToDigits(if n < 0 then -n else n);
    ShowStripped(n);
    ShowSign(n);
  }

  lemma ShowStripped(n: int)
    ensures Strip(IntToString(n)) == IntToString(n)
  {
    assert NoSpace(IntToString(n));
  }

  lemma ShowSign(n: int)
    ensures SplitSign(IntToString(n)) == (n < 0, NatToDigits(if n < 0 then -n else n))
  {
    var s := IntToString(n);
    if n < 0 {
      assert s[1..] == NatToDigits(-n);
    } else {
      assert IsDigit(s[0]);
    }
  }

  /** Parsing the text of an integer gives the integer back. */
  lemma ParseIntShow(n: int)
    ensures ParseInt(IntToString(n)) == Some(n)
  {
    var digits := ShowParts(n);
  }

  /** An integer cell written as text compares equal, never lower, on re-reading. */
  lemma ParseIntShowInjective(m: int, n: int)
    requires IntToString(m) == IntToString(n)
    ensures m == n
  {
    ParseIntShow(m);
    ParseIntShow(n);
  }

  /** `float(s)` for plain decimal notation: surrounding white space, an
      optional sign, digits with at most one '.', and at least one digit
      on some side of it. The value is the exact decimal number. */
  function ParseDecimal(s: string): Option<real>
  {
    var (neg, body) := SplitSign(Strip(s));
    var dot := IndexOf(body, '.');
    var whole := body[..dot];
    var frac := if dot < |body| then body[dot + 1..] else "";
    if (whole == [] && frac == []) || !AllDigits(whole) || !AllDigits(frac) then None
    else
      var magnitude := DigitsValue(whole) as real + DigitsValue(frac) as real / Pow10(|frac|) as real;
      Some(if neg then -magnitude else magnitude)
  }

  /** Python's `round(x)`: the nearest integer, ties going to the even one. */
  function RoundHalfEven(x: real): (r: int)
    ensures -0.5 <= x - r as real <= 0.5
    ensures (x - r as real == 0.5 || x - r as real == -0.5) ==> r % 2 == 0
  {
    var f := x.Floor;
    var d := x - f as real;
    if d < 0.5 then f
    else if d > 0.5 then f + 1
    else if f % 2 == 0 then f
    else f + 1
  }

  /** The two properties of `RoundHalfEven` determine its result. */
  lemma RoundHalfEvenUnique(x: real, r: int)
    requires -0.5 <= x - r as real <= 0.5
    requires (x - r as real == 0.5 || x - r as real == -0.5) ==> r % 2 == 0
    ensures r == RoundHalfEven(x)
  {
  }

  /** `int(round(float(s)))`: a personal-best time in whole seconds. */
  function ParseSeconds(s: string): Option<int>
  {
    match ParseDecimal(s)
    case None => None
    case Some(x) => Some(RoundHalfEven(x))
  }

  /** The text of an integer is a decimal that denotes it exactly. */
  lemma ParseDecimalShow(n: int)
    ensures ParseDecimal(IntToString(n)) == Some(n as real)
  {
    var digits := ShowParts(n);
    assert IndexOf(digits, '.') == |digits| by {
      NoDotInDigits(digits);
    }
    assert digits[..|digits|] == digits;
  }

  lemma NoDotInDigits(s: string)
    requires AllDigits(s)
    ensures IndexOf(s, '.') == |s|
  {
    if s != [] {
      assert IsDigit(s[0]);
      NoDotInDigits(s[1..]);
    }
  }

  /** A whole number of seconds survives the time coercion unchanged. */
  lemma ParseSecondsShow(n: int)
    ensures ParseSeconds(IntToString(n)) == Some(n)
  {
    ParseDecimalShow(n);
    RoundHalfEvenUnique(n as real, n);
  }
}
