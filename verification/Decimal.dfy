/** Decimal numerals: what `uintToString` (json_tool.h) prints and what the digit
    loop of `Reader::decodeNumber` reads back. */
module Decimal {

  predicate IsDigit(c: char) { '0' <= c <= '9' }

  function DigitValue(c: char): int { c as int - '0' as int }

  function DigitChar(d: nat): char
    requires d < 10
  {
    (d + '0' as int) as char
  }

  ghost predicate AllDigits(s: string) { forall i :: 0 <= i < |s| ==> IsDigit(s[i]) }

  /** The number a digit string denotes; the empty string denotes zero. */
  ghost function ValueOf(s: string): (n: nat)
    requires AllDigits(s)
  {
    if s == [] then 0 else 10 * ValueOf(s[..|s| - 1]) + DigitValue(s[|s| - 1])
  }

  /** The shortest decimal numeral of n. */
  function Numeral(n: nat): (s: string)
    ensures s != [] && AllDigits(s)
  {
    (if n < 10 then [] else Numeral(n / 10)) + [DigitChar(n % 10)]
  }

  /** The numeral is the shortest: no digit string that denotes the number is shorter. */
  lemma {:induction false} NumeralShortest(n: nat, s: string)
    requires AllDigits(s) && s != [] && ValueOf(s) == n
    ensures |Numeral(n)| <= |s|
  {
    if n >= 10 {
      var less := s[..|s| - 1];
      assert ValueOf(less) == n / 10;
      assert less != [];
      NumeralShortest(n / 10, less);
    }
  }

  /** What `%d` prints. */
  function IntText(i: int): string { if i < 0 then "-" + Numeral(-i) else Numeral(i) }

  lemma {:induction false} ValueOfNumeral(n: nat)
    ensures ValueOf(Numeral(n)) == n
  {
    var s := Numeral(n);
    if n < 10 {
      assert s[..|s| - 1] == [];
    } else {
      ValueOfNumeral(n / 10);
      assert s[..|s| - 1] == Numeral(n / 10);
    }
  }

  /** Reading digit by digit from the left, as the decoding loops do. */
  lemma ValueOfSnoc(s: string, i: nat)
    requires i < |s| && AllDigits(s)
    ensures ValueOf(s[..i + 1]) == 10 * ValueOf(s[..i]) + DigitValue(s[i])
  {
    assert s[..i + 1][..i] == s[..i];
  }

  /** A longer digit string never denotes a smaller number. */
  lemma {:induction false} ValueOfPrefix(s: string, i: nat, j: nat)
    requires i <= j <= |s| && AllDigits(s)
    ensures ValueOf(s[..i]) <= ValueOf(s[..j])
    decreases j - i
  {
    if i < j {
      ValueOfSnoc(s, j - 1);
      ValueOfPrefix(s, i, j - 1);
    }
  }

  /** A numeral of at most k digits; bounds the buffer `uintToString` needs. */
  lemma {:induction false} NumeralLength(n: nat, k: nat)
    requires n < Pow10(k) && 0 < k
    ensures |Numeral(n)| <= k
    decreases k
  {
    if n >= 10 {
      NumeralLength(n / 10, k - 1);
    }
  }

  ghost function Pow10(k: nat): (p: nat)
    ensures p > 0
  {
    if k == 0 then 1 else 10 * Pow10(k - 1)
  }
}
