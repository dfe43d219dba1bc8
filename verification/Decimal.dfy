/** Python's str(n) and int(s) for decimal integers. */
module Decimal {

  import opened Options
  import opened Text

  predicate IsDigit(c: char) {
    '0' <= c <= '9'
  }

  function DigitOf(d: nat): (c: char)
    requires d < 10
    ensures IsDigit(c) && DigitValue(c) == d
  {
    ('0' as int + d) as char
  }

  function DigitValue(c: char): nat
    requires IsDigit(c)
  {
    c as int - '0' as int
  }

  function NatText(n: nat): (s: string)
    ensures s != "" && forall c | c in s :: IsDigit(c)
  {
    if n < 10 then [DigitOf(n)] else NatText(n / 10) + [DigitOf(n % 10)]
  }

  /** str(n) */
  function IntText(n: int): (s: string)
    ensures s != "" && forall c | c in s :: IsDigit(c) || c == '-'
  {
    if n < 0 then "-" + NatText(-n) else NatText(n)
  }

  // The digits of an integer literal; single underscores may stand between digits.
  function DigitsValue(s: string): Option<nat>
    decreases |s|
  {
    if s == "" || !IsDigit(s[|s| - 1]) then None
    else
      var d := DigitValue(s[|s| - 1]);
      if |s| == 1 then Some(d)
      else
        var high := if s[|s| - 2] == '_' then s[..|s| - 2] else s[..|s| - 1];
        match DigitsValue(high)
        case None => None
        case Some(v) => Some(10 * v + d)
  }

  // An optional sign, then digits.
  function SignedValue(t: string): Option<int> {
    if t == "" then None
    else
      match DigitsValue(if t[0] == '-' || t[0] == '+' then t[1..] else t)
      case None => None
      case Some(v) => Some(if t[0] == '-' then 0 - v else v)
  }

  /** int(s); None stands for ValueError. */
  function IntValue(s: string): Option<int> {
    SignedValue(Strip(s))
  }

  lemma {:induction false} DigitsRoundTrip(n: nat)
    ensures DigitsValue(NatText(n)) == Some(n)
  {
    if n >= 10 {
      DigitsRoundTrip(n / 10);
      var s := NatText(n);
      assert s[..|s| - 1] == NatText(n / 10);
    }
  }

  lemma SignedRoundTrip(n: int)
    ensures SignedValue(IntText(n)) == Some(n)
  {
    DigitsRoundTrip(if n < 0 then -n else n);
    if n < 0 {
      assert IntText(n)[1..] == NatText(-n);
    } else {
      assert IntText(n)[0] in NatText(n);
    }
  }

  /** Every integer is read back from its printed form. */
  lemma IntRoundTrip(n: int)
    ensures IntValue(IntText(n)) == Some(n)
  {
    var s := IntText(n);
    assert s[0] in s && s[|s| - 1] in s;
    StripTrimmed(s);
    SignedRoundTrip(n);
  }
}
