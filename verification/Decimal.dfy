/** Decimal numbers as text: what printf writes and strtol reads. */
module Decimal {
  import opened Ascii
  import opened Wrappers

  const OFF_T_MAX := 0x7FFF_FFFF_FFFF_FFFF

  function Digit(n: nat): (c: char)
    requires n < 10
    ensures IsDigit(c)
  {
    ('0' as int + n) as char
  }

  function Digits(n: nat): (s: string)
    ensures s != [] && forall c :: c in s ==> IsDigit(c)
  {
    if n < 10 then [Digit(n)] else Digits(n / 10) + [Digit(n % 10)]
  }

  function Print(n: int): string {
    if n < 0 then "-" + Digits(-n) else Digits(n)
  }

  function Value(digits: string): nat
    requires forall c :: c in digits ==> IsDigit(c)
  {
    if digits == [] then 0
    else Value(digits[..|digits| - 1]) * 10 + DigitValue(digits[|digits| - 1])
  }

  lemma {:induction false} ValueOfDigits(n: nat)
    ensures Value(Digits(n)) == n
  {
    if n >= 10 {
      ValueOfDigits(n / 10);
      assert Digits(n)[..|Digits(n)| - 1] == Digits(n / 10);
    } else {
      assert Digits(n)[..0] == "";
    }
  }

  /** A printed number starts with '0' only when it is 0. */
  lemma {:induction false} LeadingZero(n: nat)
    ensures Digits(n)[0] == '0' <==> n == 0
  {
    if n >= 10 {
      LeadingZero(n / 10);
      assert Digits(n)[0] == Digits(n / 10)[0];
    }
  }

  function SkipSpaces(s: string): string {
    if s != [] && IsSpace(s[0]) then SkipSpaces(s[1..]) else s
  }

  function LeadingDigits(s: string): (d: string)
    ensures d <= s && forall c :: c in d ==> IsDigit(c)
    ensures |d| < |s| ==> !IsDigit(s[|d|])
  {
    if s == [] || !IsDigit(s[0]) then [] else [s[0]] + LeadingDigits(s[1..])
  }

  /** A non-negative 64-bit number at the head of the text, after white space and perhaps a plus sign. */
  function ReadOff(s: string): Option<nat> {
    var t := SkipSpaces(s);
    if t != [] && t[0] == '-' then None
    else
      var d := LeadingDigits(if t != [] && t[0] == '+' then t[1..] else t);
      if d == [] || Value(d) > OFF_T_MAX then None else Some(Value(d))
  }

  lemma AllDigits(s: string)
    requires s != "" && forall c :: c in s ==> IsDigit(c)
    ensures LeadingDigits(s) == s && SkipSpaces(s) == s
  {
    assert forall i :: 0 <= i < |s| ==> s[i] in s;
    assert IsDigit(s[0]);
  }

  /** What is printed is read back exactly when it is not negative and fits. */
  lemma ReadPrinted(n: int)
    ensures ReadOff(Print(n)) == if 0 <= n <= OFF_T_MAX then Some(n) else None
  {
    hide Digits, Value, LeadingDigits;
    if n >= 0 {
      var s := Digits(n);
      AllDigits(s);
      assert s[0] in s;
      ValueOfDigits(n);
    } else {
      assert Print(n)[0] == '-';
    }
  }
}
