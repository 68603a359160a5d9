/** Decimal numerals: the value `str::parse::<i64>` gives a run of ASCII
    digits, and the canonical numeral of a natural number. */
module Decimal {

  /** `char::is_ascii_digit`: the ten ASCII digits, never the NUL char. */
  predicate IsDigit(c: char): (b: bool)
    ensures b ==> c as int < 128 && c != '\0'
  {
    '0' <= c <= '9'
  }

  predicate AllDigits(s: string) {
    forall i | 0 <= i < |s| :: IsDigit(s[i])
  }

  function DigitValue(c: char): (d: nat)
    requires IsDigit(c)
    ensures d < 10
  {
    c as int - '0' as int
  }

  function DigitChar(d: nat): (c: char)
    requires d < 10
    ensures IsDigit(c) && DigitValue(c) == d
  {
    (d + '0' as int) as char
  }

  /** The value of a digit run, most significant digit first; leading zeros
      are allowed, as `parse::<i64>` allows them. A run of `k` digits is
      below `10^k`. */
  function Value(s: string): (v: nat)
    requires AllDigits(s)
    ensures v < Pow10(|s|)
  {
    PrefixValueBound(s, |s|);
    PrefixValue(s, |s|)
  }

  function Pow10(k: nat): (p: nat)
    ensures p > 0
  {
    if k == 0 then 1 else 10 * Pow10(k - 1)
  }

  /** The value of the first `n` digits of `s`. */
  function PrefixValue(s: string, n: nat): nat
    requires n <= |s| && AllDigits(s)
    decreases n
  {
    if n == 0 then 0 else PrefixValue(s, n - 1) * 10 + DigitValue(s[n - 1])
  }

  /** The first `n` digits have a value below `10^n`. */
  lemma {:induction false} PrefixValueBound(s: string, n: nat)
    requires n <= |s| && AllDigits(s)
    ensures PrefixValue(s, n) < Pow10(n)
    decreases n
  {
    if n > 0 {
      PrefixValueBound(s, n - 1);
      assert PrefixValue(s, n - 1) * 10 <= (Pow10(n - 1) - 1) * 10;
    }
  }

  /** The numeral of `n` without leading zeros. */
  function Show(n: nat): (s: string)
    ensures |s| > 0 && AllDigits(s)
    ensures |s| == 1 || s[0] != '0'
    decreases n
  {
    if n < 10 then [DigitChar(n)] else Show(n / 10) + [DigitChar(n % 10)]
  }

  /** The value of a prefix depends on the digits in that prefix only. */
  lemma {:induction false} PrefixValueLocal(s: string, t: string, n: nat)
    requires n <= |s| && n <= |t| && AllDigits(s) && AllDigits(t)
    requires forall i | 0 <= i < n :: s[i] == t[i]
    ensures PrefixValue(s, n) == PrefixValue(t, n)
    decreases n
  {
    if n > 0 {
      PrefixValueLocal(s, t, n - 1);
    }
  }

  /** Dropping the last digit divides the value by ten. */
  lemma ValueOfInit(s: string)
    requires |s| > 0 && AllDigits(s)
    ensures AllDigits(s[..|s| - 1])
    ensures Value(s) == Value(s[..|s| - 1]) * 10 + DigitValue(s[|s| - 1])
  {
    PrefixValueLocal(s, s[..|s| - 1], |s| - 1);
  }

  /** Reading back a numeral gives the number it was made from. */
  lemma {:induction false} ValueOfShow(n: nat)
    ensures Value(Show(n)) == n
    decreases n
  {
    var s := Show(n);
    ValueOfInit(s);
    if n >= 10 {
      assert s[..|s| - 1] == Show(n / 10);
      ValueOfShow(n / 10);
    }
  }

  /** A numeral whose first digit is not zero has a positive value. */
  lemma {:induction false} ValuePositive(s: string)
    requires |s| > 0 && AllDigits(s) && s[0] != '0'
    ensures Value(s) > 0
    decreases |s|
  {
    if |s| > 1 {
      ValueOfInit(s);
      ValuePositive(s[..|s| - 1]);
    }
  }

  /** Every digit run without leading zeros is the numeral of its value, so
      `Show` and `Value` are inverse bijections on such runs. */
  lemma {:induction false} ShowOfValue(s: string)
    requires |s| > 0 && AllDigits(s)
    requires |s| == 1 || s[0] != '0'
    ensures Show(Value(s)) == s
    decreases |s|
  {
    var p := s[..|s| - 1];
    if |s| > 1 {
      ValueOfInit(s);
      ValuePositive(p);
      ShowOfValue(p);
      var n := Value(s);
      assert n / 10 == Value(p) && n % 10 == DigitValue(s[|s| - 1]);
      assert s == p + [s[|s| - 1]];
    }
  }
}
