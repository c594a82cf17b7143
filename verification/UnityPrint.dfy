/** The decimal printers of the vendored Unity (unity.c), for 64-bit integers. */
module UnityPrint {
  import opened CStrings
  import opened Numerals

  const WORD: int := 0x1_0000_0000_0000_0000

  type UInt = x: int | 0 <= x < WORD
  type SInt = x: int | -WORD / 2 <= x < WORD / 2

  /** What is printed for a signed number. */
  function Printed(v: SInt): string {
    if v < 0 then ['-'] + Numeral(0 - v as int) else Numeral(v)
  }

  /** Every printed number, the most negative one too, reads back as itself. */
  lemma PrintedReadsBack(v: SInt)
    ensures LeadingNumber(Printed(v)) == v
  {
    var n: nat := if v < 0 then 0 - v as int else v as int;
    NumeralReadsBack(n);
    DigitRunIs(Numeral(n), Numeral(n));
    assert Printed(v)[if v < 0 then 1 else 0..] == Numeral(n);
    assert IsDigit(Numeral(n)[0]);
  }

  // ---------------------------------------------------------------------- printing

  function Power10(k: nat): (p: nat)
    ensures p > 0
  {
    if k == 0 then 1 else 10 * Power10(k - 1)
  }

  lemma Regroup(p: nat, q: nat, r: nat)
    ensures p * (10 * q + r) == 10 * p * q + p * r
  {
  }

  lemma RemainderFits(p: nat, d: nat, r: nat)
    requires d <= 9 && r < p
    ensures p * d + r < 10 * p
  {
  }

  lemma DivideTwice(n: nat, p: nat)
    requires p > 0
    ensures n / (10 * p) == n / p / 10
  {
    var q, r := n / p, n % p;
    var q1, r1 := q / 10, q % 10;
    Regroup(p, q1, r1);
    RemainderFits(p, r1, r);
    QuotientIs(n, 10 * p, q1, p * r1 + r);
  }

  lemma ScaleOrder(d: nat, a: nat, b: nat)
    requires a <= b
    ensures d * a <= d * b
  {
  }

  lemma QuotientIs(n: nat, d: nat, q: nat, r: nat)
    requires d > 0 && n == d * q + r && r < d
    ensures n / d == q
  {
    var x := n / d;
    assert n == d * x + n % d;
    if x < q {
      ScaleOrder(d, x + 1, q);
    } else if x > q {
      ScaleOrder(d, q + 1, x);
    }
  }

  /** A number without its last `k` digits. */
  function Shift(n: nat, k: nat): nat {
    if k == 0 then n else Shift(n, k - 1) / 10
  }

  lemma {:induction false} QuotientIsShift(n: nat, k: nat)
    ensures n / Power10(k) == Shift(n, k)
  {
    if k > 0 {
      QuotientIsShift(n, k - 1);
      DivideTwice(n, Power10(k - 1));
    }
  }

  lemma PowerFits(n: nat, k: nat)
    requires Shift(n, k) > 9
    ensures 10 * Power10(k) <= n
  {
    QuotientIsShift(n, k);
    var p := Power10(k);
    ScaleOrder(p, 10, n / p);
    assert n == p * (n / p) + n % p;
  }

  lemma Negates(v: int)
    requires -0x8000_0000_0000_0000 <= v < 0x8000_0000_0000_0000
    ensures v >= 0 ==> v % WORD == v
    ensures v < 0 ==> (WORD - 1 - v % WORD + 1) % WORD == -v
  {
    if v < 0 {
      assert v % 0x1_0000_0000_0000_0000 == v + 0x1_0000_0000_0000_0000;
    }
  }

  lemma NumeralGrows(n: nat)
    ensures Numeral(n) == (if n > 9 then Numeral(n / 10) else []) + [Digit(n % 10)]
  {
  }

  class Output {
    var text: string

    /** UNITY_OUTPUT_CHAR */
    method Char(c: char)
      modifies this
      ensures text == old(text) + [c]
    {
      text := text + [c];
    }

    /** UnityPrintNumberUnsigned */
    method PrintNumberUnsigned(number: UInt)
      modifies this
      ensures text == old(text) + Numeral(number)
    {
      hide Power10, Shift, Numeral;
      var divisor: UInt := 1;
      ghost var k := 0;
      StartsAtOne(number);
      while number / divisor > 9
        invariant divisor == Power10(k) && text == old(text) && number / divisor == Shift(number, k)
        invariant k > 0 ==> Shift(number, k) > 0
        decreases Shift(number, k)
      {
        PowerFits(number, k);
        divisor := divisor * 10;
        k := k + 1;
        NextPower(number, k);
      }
      var more := true;
      while more
        invariant more ==> divisor == Power10(k) && number / divisor == Shift(number, k)
        invariant more ==> k > 0 ==> Shift(number, k) > 0
        invariant more ==> text == old(text) + if Shift(number, k) > 9 then Numeral(Shift(number, k) / 10) else []
        invariant !more ==> text == old(text) + Numeral(number)
        decreases more, divisor
      {
        NumeralGrows(Shift(number, k));
        Char(Digit(number / divisor % 10));
        if k > 0 {
          NextPower(number, k);
          k := k - 1;
        } else {
          StartsAtOne(number);
        }
        divisor := divisor / 10;
        more := divisor > 0;
      }
    }

    /** UnityPrintNumber */
    method PrintNumber(numberToPrint: SInt)
      modifies this
      ensures text == old(text) + Printed(numberToPrint)
    {
      hide Numeral;
      var number: UInt := numberToPrint % WORD;
      Negates(numberToPrint);
      if numberToPrint < 0 {
        Char('-');
        number := (WORD - 1 - number + 1) % WORD;
      }
      PrintNumberUnsigned(number);
    }
  }

  lemma StartsAtOne(n: nat)
    ensures Power10(0) == 1 && Shift(n, 0) == n == n / 1
  {
  }

  lemma NextPower(n: nat, k: nat)
    requires k > 0
    ensures Power10(k) == 10 * Power10(k - 1) && Shift(n, k) == Shift(n, k - 1) / 10
    ensures n / Power10(k) == Shift(n, k) && n / Power10(k - 1) == Shift(n, k - 1)
  {
    QuotientIsShift(n, k);
    QuotientIsShift(n, k - 1);
  }
}
