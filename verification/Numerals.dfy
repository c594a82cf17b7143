/** Decimal numerals, and that they read back as their numbers. */
module Numerals {
  import opened CStrings

  function Digit(d: nat): (c: char)
    requires d < 10
    ensures IsDigit(c) && DigitValue(c) == d
  {
    ('0' as int + d) as char
  }

  function Numeral(n: nat): (t: string)
    ensures t != [] && AllDigits(t)
  {
    if n < 10 then [Digit(n)] else Numeral(n / 10) + [Digit(n % 10)]
  }

  /** A numeral reads back as its number. */
  lemma {:induction false} NumeralReadsBack(n: nat)
    ensures Decimal(Numeral(n)) == n
  {
    var t := Numeral(n);
    if n < 10 {
      assert t[..|t| - 1] == [];
    } else {
      NumeralReadsBack(n / 10);
      assert t[..|t| - 1] == Numeral(n / 10);
    }
  }

  /** Only zero has a numeral that begins with a zero. */
  lemma {:induction false} NoLeadingZero(n: nat)
    ensures Numeral(n)[0] == '0' ==> n == 0 && |Numeral(n)| == 1
  {
    if n >= 10 {
      NoLeadingZero(n / 10);
    }
  }

  /** The digits are these characters. */
  lemma DigitIsCharacter(d: nat)
    requires d < 10
    ensures Digit(d) == "0123456789"[d]
  {
  }
}
