/** Decimal numerals: the text of a number and its value, each undoing the other. */
module Decimal {
  predicate IsDigit(c: char) {
    '0' <= c <= '9'
  }

  predicate AllDigits(s: string) {
    forall i :: 0 <= i < |s| ==> IsDigit(s[i])
  }

  predicate Numeral(s: string) {
    s != [] && AllDigits(s)
  }

  function DigitChar(d: nat): (c: char)
    requires d < 10
    ensures IsDigit(c) && c as int - '0' as int == d
  {
    ('0' as int + d) as char
  }

  function Digits(n: nat): (s: string)
    ensures Numeral(s)
  {
    if n < 10 then [DigitChar(n)] else Digits(n / 10) + [DigitChar(n % 10)]
  }

  function Value(s: string): nat
    requires AllDigits(s)
  {
    if s == [] then 0
    else
      assert IsDigit(s[|s| - 1]);
      10 * Value(s[..|s| - 1]) + (s[|s| - 1] as int - '0' as int)
  }

  lemma {:induction false} ValueOfDigits(n: nat)
    ensures Value(Digits(n)) == n
  {
    if n >= 10 {
      ValueOfDigits(n / 10);
      var s := Digits(n);
      assert s[..|s| - 1] == Digits(n / 10);
    }
  }

  /** An integer as text: a minus sign in front of the digits of a negative one. */
  function Show(n: int): string {
    if n < 0 then "-" + Digits(-n) else Digits(n)
  }

  /** Reads what Show writes; any other text is no integer here and reads as 0. */
  function Read(s: string): int {
    if Numeral(s) then Value(s) as int
    else if s != [] && s[0] == '-' && Numeral(s[1..]) then -(Value(s[1..]) as int)
    else 0
  }

  /** No integer's text looks like a flag. */
  lemma ReadOfShow(n: int)
    ensures Read(Show(n)) == n
    ensures !("--" <= Show(n))
  {
    var s := Show(n);
    if n < 0 {
      assert s[1..] == Digits(-n) && !IsDigit(s[0]);
      assert IsDigit(s[1]);
      ValueOfDigits(-n);
    } else {
      assert IsDigit(s[0]);
      ValueOfDigits(n);
    }
  }
}
