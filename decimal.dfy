/** Decimal text of Java integers: `Integer.toString` / `Long.toString` and
    `Integer.parseInt`, which the deserializer applies to a variable's text to get a
    length or a discriminant. Only ASCII digits are modelled. */
module Decimal {
  import opened Base

  predicate IsDigit(c: char) {
    '0' <= c <= '9'
  }

  predicate AllDigits(s: string) {
    forall i :: 0 <= i < |s| ==> IsDigit(s[i])
  }

  function DigitValue(c: char): nat
    requires IsDigit(c)
  {
    (c as int) - ('0' as int)
  }

  function DigitChar(d: nat): (c: char)
    requires d < 10
    ensures IsDigit(c) && DigitValue(c) == d
  {
    (('0' as int) + d) as char
  }

  /** The number a string of decimal digits denotes, most significant digit first. */
  function DigitsValue(s: string): nat
    requires AllDigits(s)
  {
    if s == [] then 0 else DigitsValue(s[..|s| - 1]) * 10 + DigitValue(s[|s| - 1])
  }

  /** The decimal digits of a non-negative number, without leading zeros. */
  function Digits(n: nat): (r: string)
    ensures |r| > 0 && AllDigits(r)
    ensures |r| > 1 ==> r[0] != '0'
  {
    if n < 10 then [DigitChar(n)] else Digits(n / 10) + [DigitChar(n % 10)]
  }

  /** The digits denote the number they were made from. */
  lemma {:induction false} DigitsDenote(n: nat)
    ensures DigitsValue(Digits(n)) == n
  {
    if n >= 10 {
      var r := Digits(n);
      assert r[..|r| - 1] == Digits(n / 10);
      DigitsDenote(n / 10);
    }
  }

  /** Integer.toString / Long.toString: a minus sign for negative numbers, then the
      digits of the magnitude. */
  function IntText(i: int): (r: string)
    ensures |r| > 0
  {
    if i < 0 then "-" + Digits(-i) else Digits(i)
  }

  /** Integer.parseInt: an optional sign, then at least one digit; NumberFormatException
      for anything else and for a value outside the 32-bit range. */
  function ParseInt(s: string): (r: Result<Int32>)
    ensures r.Err? ==> r.error == NumberFormat
    ensures |s| == 0 ==> r.Err?
    ensures |s| > 0 && !IsDigit(s[0]) && s[0] != '-' && s[0] != '+' ==> r.Err?
    ensures r.Ok? && s[0] != '-' ==> r.value >= 0
  {
    if |s| == 0 then Err(NumberFormat)
    else
      var digits := if s[0] == '-' || s[0] == '+' then s[1..] else s;
      if |digits| == 0 || !AllDigits(digits) then Err(NumberFormat)
      else
        var m: int := DigitsValue(digits);
        var v := if s[0] == '-' then -m else m;
        if -(TWO_31 as int) <= v < TWO_31 then Ok(v) else Err(NumberFormat)
  }

  /** parseInt reads back what toString wrote, for every value in the int range, and
      rejects the text of every long outside it. */
  lemma ParseIntText(i: int)
    ensures -(TWO_31 as int) <= i < TWO_31 ==> ParseInt(IntText(i)) == Ok(i)
    ensures !(-(TWO_31 as int) <= i < TWO_31) ==> ParseInt(IntText(i)) == Err(NumberFormat)
  {
    var s := IntText(i);
    if i < 0 {
      DigitsDenote(-i);
      assert s[1..] == Digits(-i);
    } else {
      DigitsDenote(i);
      assert s[0] != '-' && s[0] != '+';
    }
  }
}
