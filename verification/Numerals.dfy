/** Numbers as text, in bases up to sixteen. */
module Numerals {
  import opened Modular

  const DIGITS := "0123456789ABCDEF"

  function DigitOf(d: nat): (c: char)
    requires d < 16
    ensures c in DIGITS && DigitValue(c) == d && c != '.'
  {
    DIGITS[d]
  }

  function DigitValue(c: char): nat {
    if '0' <= c <= '9' then c as nat - '0' as nat
    else if 'A' <= c <= 'F' then c as nat - 'A' as nat + 10
    else 0
  }

  function Numeral(n: nat, base: nat): string
    requires 2 <= base <= 16
    decreases n
  {
    if n < base then [DigitOf(n)]
    else
      QuotientShrinks(n, base);
      Numeral(n / base, base) + [DigitOf(n % base)]
  }

  lemma QuotientShrinks(n: nat, base: nat)
    requires 2 <= base <= n
    ensures n / base < n && n == base * (n / base) + n % base
  {
    var q := n / base;
    assert n == base * q + n % base;
    MulMonotone(q, 2, base);
    MulCommutes(q, base);
  }

  lemma MulCommutes(a: nat, b: nat)
    ensures a * b == b * a
  {
  }

  /** `int(s, base)` */
  function Value(s: string, base: nat): nat {
    if s == [] then 0 else base * Value(s[..|s| - 1], base) + DigitValue(s[|s| - 1])
  }

  lemma ValueOneMore(s: string, base: nat, c: char)
    ensures Value(s + [c], base) == base * Value(s, base) + DigitValue(c)
  {
    hide DigitValue;
    assert (s + [c])[..|s|] == s;
  }

  /** A numeral reads back as the number it was made of. */
  lemma {:induction false} NumeralReadsBack(n: nat, base: nat)
    requires 2 <= base <= 16
    ensures Numeral(n, base) != [] && Value(Numeral(n, base), base) == n
    decreases n
  {
    hide DigitOf, DigitValue, Value;
    if n < base {
      ValueOneMore([], base, DigitOf(n));
      ValueOfNothing(base);
      assert [] + [DigitOf(n)] == [DigitOf(n)];
    } else {
      QuotientShrinks(n, base);
      NumeralReadsBack(n / base, base);
      ValueOneMore(Numeral(n / base, base), base, DigitOf(n % base));
    }
  }

  lemma ValueOfNothing(base: nat)
    ensures Value([], base) == 0 && base * 0 == 0
  {
  }

  lemma {:induction false} OnlyDigits(n: nat, base: nat)
    requires 2 <= base <= 16
    ensures forall c | c in Numeral(n, base) :: c in DIGITS && c != '.'
    ensures n >= base ==> |Numeral(n, base)| >= 2
    decreases n
  {
    hide DigitOf, DIGITS;
    if n >= base {
      QuotientShrinks(n, base);
      OnlyDigits(n / base, base);
      assert Numeral(n / base, base) != [];
    }
  }
}
