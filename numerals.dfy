/** Decimal numerals: Rust's `str::parse::<i64>` and the canonical decimal
    rendering used to build encoded inputs. */
module Numerals {

  import opened Wrappers

  const MinI64: int := -0x8000_0000_0000_0000
  const MaxI64: int := 0x7FFF_FFFF_FFFF_FFFF

  predicate IsDigit(c: char)
  {
    '0' <= c <= '9'
  }

  predicate AllDigits(d: string)
  {
    forall i :: 0 <= i < |d| ==> IsDigit(d[i])
  }

  function DigitValue(c: char): (n: nat)
    requires IsDigit(c)
    ensures n < 10
  {
    c as int - '0' as int
  }

  function Digit(n: nat): (c: char)
    requires n < 10
    ensures IsDigit(c) && DigitValue(c) == n
  {
    ('0' as int + n) as char
  }

  /** The magnitude of a digit string, accumulated from the left as the
      standard library does (`acc * 10 + digit`). */
  function DigitsValue(d: string): nat
    requires AllDigits(d)
  {
    if |d| == 0 then 0 else DigitsValue(d[..|d| - 1]) * 10 + DigitValue(d[|d| - 1])
  }

  /** `i64::from_str`: an optional single `+` or `-`, then one or more ASCII
      digits, and a value inside the 64-bit signed range. Leading zeros, `-0`
      and a leading `+` are all accepted. */
  function ParseI64(s: string): (r: Option<int>)
    ensures r.Some? ==> |s| > 0 && MinI64 <= r.value <= MaxI64
  {
    if |s| == 0 then None
    else if (s[0] == '+' || s[0] == '-') && |s| == 1 then None
    else
      var digits := if s[0] == '+' || s[0] == '-' then s[1..] else s;
      if !AllDigits(digits) then None
      else
        var magnitude: int := DigitsValue(digits);
        if s[0] == '-' then
          if -magnitude < MinI64 then None else Some(-magnitude)
        else
          if magnitude > MaxI64 then None else Some(magnitude)
  }

  /** Shortest decimal rendering of a natural number (no leading zeros). */
  function NatToString(n: nat): (d: string)
    ensures |d| > 0 && AllDigits(d)
  {
    if n < 10 then [Digit(n)] else NatToString(n / 10) + [Digit(n % 10)]
  }

  /** Rendering of an integer with a single leading `-` when negative. */
  function IntToString(n: int): string
  {
    if n < 0 then "-" + NatToString(-n) else NatToString(n)
  }

  lemma {:induction false} DigitsValueOfNatToString(n: nat)
    ensures DigitsValue(NatToString(n)) == n
  {
    if n >= 10 {
      var d := NatToString(n);
      assert d[..|d| - 1] == NatToString(n / 10);
      DigitsValueOfNatToString(n / 10);
    }
  }

  /** Reading an unsigned or signed digit string. */
  lemma ParseSigned(sign: string, d: string)
    requires sign == "" || sign == "-"
    requires |d| > 0 && AllDigits(d)
    ensures var m: int := DigitsValue(d);
            ParseI64(sign + d) == if sign == "-" then (if -m < MinI64 then None else Some(-m))
                                  else (if m > MaxI64 then None else Some(m))
  {
    var s := sign + d;
    assert s[|sign|..] == d;
    assert s[0] == if sign == "-" then '-' else d[0];
  }

  /** The parser reads back every rendered 64-bit integer. */
  lemma ParseIntToString(n: int)
    requires MinI64 <= n <= MaxI64
    ensures ParseI64(IntToString(n)) == Some(n)
  {
    if n < 0 {
      DigitsValueOfNatToString(-n);
      ParseSigned("-", NatToString(-n));
    } else {
      DigitsValueOfNatToString(n);
      ParseSigned("", NatToString(n));
      assert "" + NatToString(n) == NatToString(n);
    }
  }

  lemma {:induction false} DigitsValueLeadingZero(d: string)
    requires AllDigits(d)
    ensures AllDigits("0" + d) && DigitsValue("0" + d) == DigitsValue(d)
  {
    if |d| > 0 {
      var z := "0" + d;
      assert z[..|z| - 1] == "0" + d[..|d| - 1];
      DigitsValueLeadingZero(d[..|d| - 1]);
    }
  }

  /** Non-canonical numerals are accepted: a leading zero changes nothing. */
  lemma ParseLeadingZero(d: string)
    requires |d| > 0 && AllDigits(d)
    ensures ParseI64("0" + d) == ParseI64(d)
  {
    DigitsValueLeadingZero(d);
  }

  /** Non-canonical numerals are accepted: so is an explicit `+`. */
  lemma ParsePlusSign(d: string)
    requires |d| > 0 && AllDigits(d)
    ensures ParseI64("+" + d) == ParseI64(d)
  {
    assert ("+" + d)[1..] == d;
  }

  /** Conversely, only `sign + digits` parses: a successful input is an
      optional single `+` or `-` followed by one or more ASCII digits, and the
      value is their magnitude, negated after a `-`. So a non-digit, a bare
      sign or a doubled sign such as `+-3` fails. */
  lemma ParseI64Accepts(s: string)
    requires ParseI64(s).Some?
    ensures var d := if s[0] == '+' || s[0] == '-' then s[1..] else s;
            |d| > 0 && AllDigits(d) &&
            var m: int := DigitsValue(d);
            ParseI64(s).value == if s[0] == '-' then -m else m
  {
  }

  /** Digit strings whose value leaves the 64-bit range are rejected. */
  lemma ParseRejectsOverflow(sign: string, d: string)
    requires sign == "" || sign == "+" || sign == "-"
    requires |d| > 0 && AllDigits(d)
    requires if sign == "-" then DigitsValue(d) > -MinI64 else DigitsValue(d) > MaxI64
    ensures ParseI64(sign + d) == None
  {
    assert (sign + d)[|sign|..] == d;
  }
}
