/**
 * Decimal digit strings: rendering a natural number (as Python's `str(int)`
 * and f-strings do for user ids) and reading the plain decimal literals the
 * interaction commands pass to `Decimal(...)`.
 */
module DecimalText {
  import opened Wrappers

  predicate IsDigit(c: char)
  {
    '0' <= c <= '9'
  }

  predicate AllDigits(s: string)
  {
    forall i :: 0 <= i < |s| ==> IsDigit(s[i])
  }

  function DigitChar(d: nat): (c: char)
    requires d < 10
    ensures IsDigit(c)
  {
    ('0' as int + d) as char
  }

  function DigitValue(c: char): (d: nat)
    requires IsDigit(c)
    ensures d < 10
  {
    c as int - '0' as int
  }

  /** The value of a string of decimal digits, most significant first. */
  function DigitsValue(s: string): nat
    requires AllDigits(s)
    decreases |s|
  {
    if |s| == 0 then 0 else DigitsValue(s[..|s| - 1]) * 10 + DigitValue(s[|s| - 1])
  }

  function Pow10(k: nat): (p: nat)
    ensures p >= 1
  {
    if k == 0 then 1 else 10 * Pow10(k - 1)
  }

  /** The shortest decimal spelling of `n`: at least one digit and no leading zero. */
  function NatToDigits(n: nat): (s: string)
    ensures |s| >= 1 && AllDigits(s)
    ensures |s| == 1 || s[0] != '0'
    ensures DigitsValue(s) == n
    decreases n
  {
    if n < 10 then [DigitChar(n)]
    else
      var prefix := NatToDigits(n / 10);
      var s := prefix + [DigitChar(n % 10)];
      assert s[..|s| - 1] == prefix;
      s
  }

  /** Index of the first occurrence of `c` in `s`, or `|s|` when there is none. */
  function IndexOf(s: string, c: char): (k: nat)
    ensures k <= |s|
    ensures k < |s| ==> s[k] == c
    ensures forall i :: 0 <= i < k ==> s[i] != c
    decreases |s|
  {
    if |s| == 0 then 0
    else if s[0] == c then 0
    else 1 + IndexOf(s[1..], c)
  }

  /**
   * The value of a plain decimal literal `[+|-]digits[.digits]` with at least
   * one digit, or `None` for any other string.
   */
  function ParseDecimal(s: string): (r: Option<real>)
  {
    var negative := |s| > 0 && s[0] == '-';
    var body := if |s| > 0 && (s[0] == '-' || s[0] == '+') then s[1..] else s;
    var dot := IndexOf(body, '.');
    var whole := body[..dot];
    var fraction := if dot < |body| then body[dot + 1..] else "";
    if AllDigits(whole) && AllDigits(fraction) && |whole| + |fraction| > 0 then
      var magnitude := DigitsValue(whole) as real
                       + (DigitsValue(fraction) as real) / (Pow10(|fraction|) as real);
      Some(if negative then -magnitude else magnitude)
    else
      None
  }

  /** Reading back the spelling of a natural number gives that number. */
  lemma ParseNatToDigits(n: nat)
    ensures ParseDecimal(NatToDigits(n)) == Some(n as real)
  {
    var s := NatToDigits(n);
    assert !IsDigit('-') && !IsDigit('+') && !IsDigit('.');
    assert s[0] != '-' && s[0] != '+';
    assert IndexOf(s, '.') == |s|;
    assert s[..|s|] == s;
  }

  /** The literal the event command adds is one half. */
  lemma ParseHalf()
    ensures ParseDecimal("0.5") == Some(0.5)
  {
  }
}
