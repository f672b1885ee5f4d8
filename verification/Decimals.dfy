/**
  Numbers in decimal, as std::to_string prints them.
 */
module Decimals {
  function Digit(d: nat): char
    requires d < 10
  {
    '0' + d as char
  }

  function Decimal(n: nat): string {
    if n < 10 then [Digit(n)] else Decimal(n / 10) + [Digit(n % 10)]
  }

  function DecimalInt(i: int): string {
    if i < 0 then "-" + Decimal(-i) else Decimal(i)
  }

  lemma {:induction false} DecimalDigits(n: nat)
    ensures Decimal(n) != [] && '-' !in Decimal(n)
    ensures |Decimal(n)| == 1 <==> n < 10
    decreases n
  {
    if n >= 10 { DecimalDigits(n / 10); }
  }

  lemma {:induction false} DecimalInjective(n: nat, m: nat)
    requires Decimal(n) == Decimal(m)
    ensures n == m
    decreases n
  {
    DecimalDigits(n);
    DecimalDigits(m);
    if n >= 10 {
      var s := Decimal(n);
      assert s[..|s| - 1] == Decimal(n / 10) == Decimal(m / 10);
      assert s[|s| - 1] == Digit(n % 10) == Digit(m % 10);
      DecimalInjective(n / 10, m / 10);
    }
  }

  lemma DecimalIntInjective(i: int, j: int)
    requires DecimalInt(i) == DecimalInt(j)
    ensures i == j
  {
    SignShows(i);
    SignShows(j);
    if i < 0 {
      assert DecimalInt(i)[1..] == Decimal(-i) && DecimalInt(j)[1..] == Decimal(-j);
      DecimalInjective(-i, -j);
    } else {
      DecimalInjective(i, j);
    }
  }

  lemma SignShows(i: int)
    ensures DecimalInt(i) != [] && (DecimalInt(i)[0] == '-' <==> i < 0)
  {
    DecimalDigits(if i < 0 then -i else i);
    if i >= 0 { assert DecimalInt(i)[0] in Decimal(i); }
  }
}
