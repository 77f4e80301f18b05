// Decimal numerals, as str() and int() write and read them.
module Decimal {
  function Digit(d: nat): char
    requires d < 10
  {
    ('0' as int + d) as char
  }

  predicate IsDigit(c: char) { '0' <= c <= '9' }

  predicate AllDigits(s: string) { forall c | c in s :: IsDigit(c) }

  function DigitValue(c: char): nat
    requires IsDigit(c)
  {
    c as int - '0' as int
  }

  function Numeral(n: nat): (s: string)
    ensures s != [] && AllDigits(s)
  {
    if n < 10 then [Digit(n)] else Numeral(n / 10) + [Digit(n % 10)]
  }

  // int() of a nonempty string of ASCII digits.
  function Number(s: string): nat
    requires AllDigits(s)
  {
    if s == [] then 0 else
      assert forall c | c in s[..|s| - 1] :: c in s;
      Number(s[..|s| - 1]) * 10 + DigitValue(s[|s| - 1])
  }

  lemma {:induction false} NumberOfNumeral(n: nat)
    ensures Number(Numeral(n)) == n
  {
    if n >= 10 {
      NumberOfNumeral(n / 10);
      var s := Numeral(n);
      assert s[..|s| - 1] == Numeral(n / 10);
    } else {
      assert Number(Numeral(n)[..0]) == 0;
    }
  }

  /** A numeral without a leading zero is the one str() writes for its value. */
  lemma {:induction false} NumeralOfNumber(s: string)
    requires s != [] && AllDigits(s) && (s[0] != '0' || |s| == 1)
    ensures Numeral(Number(s)) == s
    ensures s[0] != '0' ==> Number(s) > 0
  {
    var init := s[..|s| - 1];
    assert s == init + [s[|s| - 1]];
    if |s| > 1 {
      assert init[0] == s[0] && forall c | c in init :: c in s;
      NumeralOfNumber(init);
      var x, d := Number(init), DigitValue(s[|s| - 1]);
      assert Number(s) == x * 10 + d && x > 0;
      assert (x * 10 + d) / 10 == x && (x * 10 + d) % 10 == d;
      assert Digit(d) == s[|s| - 1];
      assert s == Numeral(x) + [Digit(d)];
    } else {
      assert Number(init) == 0;
    }
  }

  /** The place value of a leading digit, and so of every digit. */
  lemma {:induction false} LeadingDigit(s: string)
    requires s != [] && AllDigits(s)
    ensures AllDigits(s[1..]) && Number(s) == (s[0] as int - '0' as int) * Pow10(|s| - 1) + Number(s[1..])
    ensures Pow10(0) == 1 && Pow10(|s|) == Pow10(|s| - 1) * 10
  {
    assert forall c | c in s[1..] :: c in s;
    if |s| > 1 {
      var init, last := s[..|s| - 1], s[|s| - 1];
      assert forall c | c in init :: c in s;
      LeadingDigit(init);
      var rest := s[1..];
      assert rest[..|rest| - 1] == init[1..] && rest[|rest| - 1] == last && init[0] == s[0];
      assert Number(rest) == Number(init[1..]) * 10 + DigitValue(last);
      TenTimes(s[0] as int - '0' as int, Pow10(|s| - 2), Number(init[1..]));
    } else {
      assert s[..0] == [];
    }
  }

  lemma TenTimes(d: int, p: int, x: int)
    ensures (d * p + x) * 10 == d * (10 * p) + x * 10
  {
  }

  // ---- fixed width, zero padded ------------------------------------------------------------

  function Padded(n: nat, width: nat): (s: string)
    ensures |s| == width && AllDigits(s)
  {
    if width == 0 then [] else Padded(n / 10, width - 1) + [Digit(n % 10)]
  }

  function Pow10(width: nat): nat {
    if width == 0 then 1 else 10 * Pow10(width - 1)
  }

  lemma {:induction false} NumberOfPadded(n: nat, width: nat)
    requires n < Pow10(width)
    ensures Number(Padded(n, width)) == n
  {
    if width > 0 {
      NumberOfPadded(n / 10, width - 1);
      var s := Padded(n, width);
      assert s[..|s| - 1] == Padded(n / 10, width - 1);
    }
  }
}
