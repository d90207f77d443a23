/** Decimal numerals, as PHP prints an integer and as an (int) cast reads one back. */
module Decimal {

  const DIGITS: string := "0123456789"

  function Print(n: nat): (s: string)
    ensures s != [] && forall c | c in s :: c in DIGITS
  {
    if n < 10 then [DIGITS[n]] else Print(n / 10) + [DIGITS[n % 10]]
  }

  function DigitValue(c: char): nat
    requires c in DIGITS
  {
    c as int - '0' as int
  }

  /** The digits a string starts with. */
  function LeadingDigits(s: string): (d: string)
    ensures d <= s && forall c | c in d :: c in DIGITS
  {
    if s == "" || s[0] !in DIGITS then "" else [s[0]] + LeadingDigits(s[1..])
  }

  function Value(s: string): nat
    requires forall c | c in s :: c in DIGITS
  {
    if s == "" then 0 else 10 * Value(s[..|s| - 1]) + DigitValue(s[|s| - 1])
  }

  /** (int) of a string of unsigned decimal digits, possibly followed by other text; 0 when it starts with none. */
  function Parse(s: string): nat {
    Value(LeadingDigits(s))
  }

  lemma {:induction false} LeadingDigitsOfDigits(s: string)
    requires forall c | c in s :: c in DIGITS
    ensures LeadingDigits(s) == s
  {
    if s != "" {
      assert s[0] in s;
      LeadingDigitsOfDigits(s[1..]);
      assert s == [s[0]] + s[1..];
    }
  }

  lemma {:induction false} ValueOfPrint(n: nat)
    ensures Value(Print(n)) == n
  {
    if n < 10 {
      assert Print(n)[..0] == "";
    } else {
      ValueOfPrint(n / 10);
      var s := Print(n);
      assert s[..|s| - 1] == Print(n / 10);
    }
  }

  /** Reading back what was printed. */
  lemma ParsePrint(n: nat)
    ensures Parse(Print(n)) == n
  {
    LeadingDigitsOfDigits(Print(n));
    ValueOfPrint(n);
  }

  lemma PrintIsInjective(m: nat, n: nat)
    ensures Print(m) == Print(n) ==> m == n
  {
    ParsePrint(m);
    ParsePrint(n);
  }

  /** A number in full. */
  lemma {:induction false} PrintsInDigits()
    ensures Print(305) == "305" && Print(9) == "9" && Print(10) == "10"
  {
    assert Print(3) == "3" && Print(30) == "30";
  }
}
