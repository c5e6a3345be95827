/**
 * Positional numerals in bases 2 to 16, as Python renders them with `str(n)` and
 * `hex(n)` (lower-case digits, no leading zeros) and reads them with `int(s, base)`.
 */
module Numerals {

  /** The digit characters, indexed by the value they stand for. */
  const Digits := "0123456789abcdef"

  /** The value of `c` as a digit; 16 for a character that is no digit in any base up to 16. */
  function DigitValue(c: char): nat {
    if '0' <= c <= '9' then (c as int) - ('0' as int)
    else if 'a' <= c <= 'f' then (c as int) - ('a' as int) + 10
    else 16
  }

  /** Every character of `s` is a digit of `base` (the empty string qualifies). */
  predicate AllDigits(s: string, base: nat) {
    forall k :: 0 <= k < |s| ==> DigitValue(s[k]) < base
  }

  /** `s` is a non-empty string of digits of `base`. */
  predicate IsNumeral(s: string, base: nat) {
    |s| > 0 && AllDigits(s, base)
  }

  /** The number a digit string denotes, most significant digit first. */
  function ValueOf(s: string, base: nat): nat
    requires AllDigits(s, base)
  {
    if |s| == 0 then 0 else ValueOf(s[..|s| - 1], base) * base + DigitValue(s[|s| - 1])
  }

  /** The canonical numeral of `n`: lower-case digits, no leading zero except for `0` itself. */
  function Numeral(n: nat, base: nat): (r: string)
    requires 2 <= base <= 16
    ensures IsNumeral(r, base)
    ensures n == 0 <==> r == "0"
    ensures n > 0 ==> r[0] != '0'
    decreases n
  {
    DigitRoundTrip(n % base);
    if n < base then [Digits[n]]
    else
      DivFacts(n, base);
      Numeral(n / base, base) + [Digits[n % base]]
  }

  /** Integer division by a base of at least two, as the numeral functions use it. */
  lemma DivFacts(n: nat, base: nat)
    requires 2 <= base <= n
    ensures 1 <= n / base < n && n % base < base
    ensures (n / base) * base + n % base == n
  {
  }

  /** Each digit character reads back as its own index. */
  lemma DigitRoundTrip(d: nat)
    requires d < 16
    ensures DigitValue(Digits[d]) == d
  {
  }

  /** Appending a digit shifts the value up one place. */
  lemma ValueOfSnoc(s: string, c: char, base: nat)
    requires AllDigits(s, base) && DigitValue(c) < base
    ensures AllDigits(s + [c], base)
    ensures ValueOf(s + [c], base) == ValueOf(s, base) * base + DigitValue(c)
  {
    assert (s + [c])[..|s|] == s;
  }

  /** Reading a canonical numeral gives back the number. */
  lemma {:induction false} NumeralRoundTrip(n: nat, base: nat)
    requires 2 <= base <= 16
    ensures ValueOf(Numeral(n, base), base) == n
    decreases n
  {
    if n < base {
      DigitRoundTrip(n);
      ValueOfSnoc("", Digits[n], base);
      assert "" + [Digits[n]] == Numeral(n, base);
    } else {
      DivFacts(n, base);
      NumeralRoundTrip(n / base, base);
      NumeralStep(n, base);
    }
  }

  /** One step of the round trip: the last digit of a numeral is the remainder. */
  lemma NumeralStep(n: nat, base: nat)
    requires 2 <= base <= n && base <= 16
    requires ValueOf(Numeral(n / base, base), base) == n / base
    ensures ValueOf(Numeral(n, base), base) == n
  {
    DivFacts(n, base);
    var d := n % base;
    var q := n / base;
    DigitRoundTrip(d);
    var hi := Numeral(q, base);
    ValueOfSnoc(hi, Digits[d], base);
    assert Numeral(n, base) == hi + [Digits[d]];
  }
}
