/** Decimal digits, as strconv.Atoi and big.Int.SetString read them. */
module Decimals {
  predicate IsDigit(c: char) {
    '0' <= c <= '9'
  }

  predicate AllDigits(s: string) {
    s != [] && forall i | 0 <= i < |s| :: IsDigit(s[i])
  }

  function DigitValue(c: char): nat
    requires IsDigit(c)
  {
    (c as int) - ('0' as int)
  }

  function Value(s: string): nat
    requires AllDigits(s)
  {
    var last := s[|s| - 1];
    if |s| == 1 then DigitValue(last) else Value(s[..|s| - 1]) * 10 + DigitValue(last)
  }

  /** The usual way to write a number, without leading zeros. */
  function Show(n: nat): (s: string)
    ensures AllDigits(s)
  {
    var last := [((n % 10) + ('0' as int)) as char];
    if n < 10 then last else Show(n / 10) + last
  }

  /** Reading undoes writing. */
  lemma {:induction false} ValueOfShow(n: nat)
    ensures Value(Show(n)) == n
  {
    if n >= 10 {
      ValueOfShow(n / 10);
      assert Show(n)[..|Show(n)| - 1] == Show(n / 10);
    }
  }

  /** Leading zeros change nothing, so "1" and "0001" are one version. */
  lemma {:induction false} LeadingZero(s: string)
    requires AllDigits(s)
    ensures AllDigits("0" + s) && Value("0" + s) == Value(s)
  {
    var t := "0" + s;
    assert t[..|t| - 1] == "0" + s[..|s| - 1];
    if |s| == 1 {
      assert t[..1] == "0";
      assert Value("0") == 0;
    } else {
      LeadingZero(s[..|s| - 1]);
    }
  }

  /** Each further digit counts ten times less than the one before it. */
  lemma PlaceValue(s: string, c: char)
    requires '0' <= c <= '9' && AllDigits(s)
    ensures Value([c]) == c as int - '0' as int
    ensures AllDigits(s + [c]) && Value(s + [c]) == 10 * Value(s) + (c as int - '0' as int)
  {
    assert (s + [c])[..|s|] == s;
  }
}
