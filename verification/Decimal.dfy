/** Decimal printing of naturals, and the unsigned parsing of Rust's `str::parse`. */
module Decimal {
  import opened Wrappers

  const USIZE_MAX: nat := 0xFFFF_FFFF_FFFF_FFFF
  const U8_MAX: nat := 0xFF

  predicate IsDigit(c: char) {
    '0' <= c <= '9'
  }

  predicate AllDigits(s: string) {
    forall i | 0 <= i < |s| :: IsDigit(s[i])
  }

  function DigitChar(d: nat): (c: char)
    requires d < 10
    ensures IsDigit(c) && DigitValue(c) == d
  {
    (d + '0' as int) as char
  }

  function DigitValue(c: char): (d: nat)
    requires IsDigit(c)
    ensures d < 10
  {
    c as int - '0' as int
  }

  function Print(n: nat): (s: string)
    ensures s != [] && AllDigits(s)
  {
    if n < 10 then [DigitChar(n)] else Print(n / 10) + [DigitChar(n % 10)]
  }

  function Value(s: string): nat
    requires AllDigits(s)
  {
    if s == [] then 0 else 10 * Value(s[..|s| - 1]) + DigitValue(s[|s| - 1])
  }

  /** The longest run of digits at the front of `s`. */
  function DigitRun(s: string): (d: string)
    ensures AllDigits(d) && d <= s
    ensures |d| < |s| ==> !IsDigit(s[|d|])
  {
    if s != [] && IsDigit(s[0]) then [s[0]] + DigitRun(s[1..]) else []
  }

  /** `str::parse::<uN>`: an optional plus sign, at least one digit, no overflow. */
  function ParseUnsigned(s: string, max: nat): Option<nat> {
    var digits := if s != [] && s[0] == '+' then s[1..] else s;
    if digits != [] && AllDigits(digits) && Value(digits) <= max then Some(Value(digits)) else None
  }

  lemma {:induction false} DigitRunOf(d: string, rest: string)
    requires AllDigits(d) && (rest == [] || !IsDigit(rest[0]))
    ensures DigitRun(d + rest) == d
  {
    if d == [] {
      assert d + rest == rest;
    } else {
      assert (d + rest)[1..] == d[1..] + rest;
      DigitRunOf(d[1..], rest);
    }
  }

  lemma {:induction false} PrintThenValue(n: nat)
    ensures Value(Print(n)) == n
  {
    if n >= 10 {
      var s := Print(n);
      assert s[..|s| - 1] == Print(n / 10);
      PrintThenValue(n / 10);
    }
  }

  lemma PrintInjective(m: nat, n: nat)
    requires Print(m) == Print(n)
    ensures m == n
  {
    PrintThenValue(m);
    PrintThenValue(n);
  }

  /** Parsing a printed number gives it back exactly when it fits the target type. */
  lemma ParsePrinted(n: nat, max: nat)
    ensures ParseUnsigned(Print(n), max) == if n <= max then Some(n) else None
  {
    PrintThenValue(n);
    assert IsDigit(Print(n)[0]);
  }

  /** Only zero prints with a leading zero. */
  lemma {:induction false} NoLeadingZero(n: nat)
    ensures Print(n)[0] == '0' ==> n == 0
  {
    if n >= 10 {
      NoLeadingZero(n / 10);
      assert Print(n)[0] == Print(n / 10)[0];
    }
  }

  /** Rust's parser takes a plus sign in front, and nothing but digits after it. */
  lemma SignAllowed(n: nat, max: nat)
    ensures ParseUnsigned("+" + Print(n), max) == if n <= max then Some(n) else None
    ensures ParseUnsigned("", max) == None && ParseUnsigned("+", max) == None
  {
    assert ("+" + Print(n))[1..] == Print(n);
    PrintThenValue(n);
  }
}
