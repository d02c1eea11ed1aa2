/**
  Character-level rules the program leans on: `str.isdigit()` and `int(...)` for
  typed numbers, `str(n)` and `"%03d"` for page names, and `str.lower()` for
  yes/no answers and file extensions. Only ASCII is modelled.
 */
module Text {

  predicate IsDigit(c: char) {
    '0' <= c <= '9'
  }

  predicate AllDigits(s: string) {
    forall i :: 0 <= i < |s| ==> IsDigit(s[i])
  }

  /** `s.isdigit()`: at least one character, and every character a digit. */
  predicate IsDigits(s: string) {
    |s| > 0 && AllDigits(s)
  }

  function DigitChar(d: nat): (c: char)
    requires d < 10
    ensures IsDigit(c)
  {
    (('0' as int) + d) as char
  }

  function DigitValue(c: char): (d: nat)
    requires IsDigit(c)
    ensures d < 10
  {
    (c as int) - ('0' as int)
  }

  /** `int(s)` for a string of digits; leading zeros are allowed, as in Python. */
  function ValueOf(s: string): nat
    requires AllDigits(s)
  {
    if |s| == 0 then 0 else 10 * ValueOf(s[..|s| - 1]) + DigitValue(s[|s| - 1])
  }

  /** `str(n)` for a natural number: its decimal digits without leading zeros. */
  function Show(n: nat): (s: string)
    ensures IsDigits(s)
    ensures s[0] == '0' ==> n == 0
    decreases n
  {
    if n < 10 then [DigitChar(n)] else Show(n / 10) + [DigitChar(n % 10)]
  }

  /** Reading back what `str` wrote gives the number again. */
  lemma {:induction false} ShowRoundTrip(n: nat)
    ensures ValueOf(Show(n)) == n
    decreases n
  {
    var s := Show(n);
    if n >= 10 {
      assert s[..|s| - 1] == Show(n / 10);
      ShowRoundTrip(n / 10);
    }
  }

  /** How many characters `str(n)` has, around the three-digit boundary of `"%03d"`. */
  lemma {:induction false} ShowLength(n: nat)
    ensures n < 10 ==> |Show(n)| == 1
    ensures 10 <= n < 100 ==> |Show(n)| == 2
    ensures 100 <= n < 1000 ==> |Show(n)| == 3
    ensures n >= 1000 ==> |Show(n)| > 3
    decreases n
  {
    if n >= 10 {
      ShowLength(n / 10);
    }
  }

  function Zeros(k: nat): (z: string)
    ensures |z| == k && AllDigits(z)
  {
    if k == 0 then [] else Zeros(k - 1) + ['0']
  }

  /** `"%03d" % n`: the decimal digits of `n`, padded on the left with zeros to width three. */
  function Pad3(n: nat): (s: string)
    ensures IsDigits(s)
    ensures n < 1000 ==> |s| == 3
    ensures n >= 1000 ==> s == Show(n)
  {
    ShowLength(n);
    var digits := Show(n);
    if |digits| >= 3 then digits else Zeros(3 - |digits|) + digits
  }

  /** Leading zeros do not change the value `int` reads. */
  lemma {:induction false} LeadingZerosIgnored(k: nat, s: string)
    requires AllDigits(s)
    ensures AllDigits(Zeros(k) + s)
    ensures ValueOf(Zeros(k) + s) == ValueOf(s)
    decreases |s|
  {
    var t := Zeros(k) + s;
    if |s| == 0 {
      assert t == Zeros(k);
      ZerosAreZero(k);
    } else {
      assert t[..|t| - 1] == Zeros(k) + s[..|s| - 1];
      LeadingZerosIgnored(k, s[..|s| - 1]);
    }
  }

  lemma {:induction false} ZerosAreZero(k: nat)
    ensures ValueOf(Zeros(k)) == 0
  {
    if k > 0 {
      assert Zeros(k)[..k - 1] == Zeros(k - 1);
      ZerosAreZero(k - 1);
    }
  }

  /** Reading back a `"%03d"` field gives the number again. */
  lemma Pad3RoundTrip(n: nat)
    ensures ValueOf(Pad3(n)) == n
  {
    ShowRoundTrip(n);
    var digits := Show(n);
    if |digits| < 3 {
      LeadingZerosIgnored(3 - |digits|, digits);
    }
  }

  function LowerChar(c: char): char {
    if 'A' <= c <= 'Z' then ((c as int) + 32) as char else c
  }

  /** `s.lower()` on ASCII letters; every other character is kept. */
  function Lower(s: string): (r: string)
    ensures |r| == |s|
    ensures forall i :: 0 <= i < |s| ==> r[i] == LowerChar(s[i])
  {
    if |s| == 0 then [] else Lower(s[..|s| - 1]) + [LowerChar(s[|s| - 1])]
  }

  /** `answer.lower() == "y"` accepts exactly the answers "y" and "Y". */
  lemma YesAnswers(answer: string)
    ensures Lower(answer) == "y" <==> answer == "y" || answer == "Y"
  {
    if Lower(answer) == "y" {
      assert LowerChar(answer[0]) == 'y';
    }
  }
}
