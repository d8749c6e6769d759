/** Decimal numerals: what `snprintf("%d")` writes and what `atoi` and digit loops read. */
module Decimal {

  predicate IsDigit(c: char) { '0' <= c <= '9' }

  predicate AllDigits(s: string) { forall i | 0 <= i < |s| :: IsDigit(s[i]) }

  function DigitValue(c: char): nat
    requires IsDigit(c)
  {
    (c - '0') as nat
  }

  function DigitChar(d: nat): (c: char)
    requires d < 10
    ensures IsDigit(c) && DigitValue(c) == d
  {
    '0' + d as char
  }

  function Numeral(n: nat): (s: string)
    ensures |s| > 0
  {
    if n < 10 then [DigitChar(n)] else Numeral(n / 10) + [DigitChar(n % 10)]
  }

  function Value(s: string): nat
    requires AllDigits(s)
  {
    if s == "" then 0 else 10 * Value(s[..|s| - 1]) + DigitValue(s[|s| - 1])
  }

  lemma {:induction false} NumeralRoundTrip(n: nat)
    ensures AllDigits(Numeral(n)) && Value(Numeral(n)) == n
  {
    if n >= 10 {
      NumeralRoundTrip(n / 10);
      var s := Numeral(n);
      assert s[..|s| - 1] == Numeral(n / 10);
    }
  }

  lemma NumeralInjective(m: nat, n: nat)
    requires Numeral(m) == Numeral(n)
    ensures m == n
  {
    NumeralRoundTrip(m);
    NumeralRoundTrip(n);
  }

  function Pow10(k: nat): nat { if k == 0 then 1 else 10 * Pow10(k - 1) }

  lemma {:induction false} NumeralLength(n: nat, k: nat)
    requires n < Pow10(k) && k > 0
    ensures |Numeral(n)| <= k
  {
    if n >= 10 { NumeralLength(n / 10, k - 1); }
  }

  predicate IsSpace(c: char) {
    c == ' ' || '\t' <= c <= '\r'
  }

  function SkipSpaces(s: string): string {
    if s != "" && IsSpace(s[0]) then SkipSpaces(s[1..]) else s
  }

  function DigitPrefix(s: string): (r: string)
    ensures AllDigits(r)
  {
    if s != "" && IsDigit(s[0]) then [s[0]] + DigitPrefix(s[1..]) else ""
  }

  /** `atoi` on a string that is too short to overflow. */
  function Atoi(s: string): int {
    var t := SkipSpaces(s);
    if t != "" && t[0] == '-' then 0 - Value(DigitPrefix(t[1..]))
    else if t != "" && t[0] == '+' then Value(DigitPrefix(t[1..]))
    else Value(DigitPrefix(t))
  }

  lemma {:induction false} DigitPrefixStops(d: string, t: string)
    requires AllDigits(d) && (t == "" || !IsDigit(t[0]))
    ensures DigitPrefix(d + t) == d
  {
    if d == "" {
      assert d + t == t;
    } else {
      assert (d + t)[1..] == d[1..] + t;
      DigitPrefixStops(d[1..], t);
    }
  }

  /** A numeral reads back whatever non-digit text follows it. */
  lemma AtoiNumeral(n: nat, t: string)
    requires t == "" || !IsDigit(t[0])
    ensures Atoi(Numeral(n) + t) == n
  {
    NumeralRoundTrip(n);
    DigitPrefixStops(Numeral(n), t);
    assert IsDigit((Numeral(n) + t)[0]);
  }

  /** A minus sign in front of a numeral is read as such. */
  lemma AtoiNegative(n: nat, t: string)
    requires t == "" || !IsDigit(t[0])
    ensures Atoi("-" + Numeral(n) + t) == 0 - n
  {
    var s := "-" + Numeral(n) + t;
    assert s[0] == '-' && s[1..] == Numeral(n) + t;
    NumeralRoundTrip(n);
    DigitPrefixStops(Numeral(n), t);
    hide Numeral, DigitPrefix, Value;
    assert SkipSpaces(s) == s;
  }
}
