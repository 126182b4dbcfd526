/** Exactly which integers `decodeNumber` reads exactly. */
module JsonNumbers {
  import opened Basics
  import opened Decimal
  import opened JsonValue
  import opened JsonText
  import opened JsonGrammar

  /** The number without its last k digits. */
  ghost function Lead(s: string, k: nat): nat
    requires AllDigits(s)
  {
    if k <= |s| then ValueOf(s[..|s| - k]) else 0
  }

  /** The gap in the overflow guard: the number is too large, yet its last digit is small enough
      and the digits before the last two have not reached the threshold. */
  ghost predicate Slips(s: string, max: UInt64)
    requires AllDigits(s)
  {
    s != [] && Lead(s, 1) > max / 10 && Lead(s, 2) < max / 10 && DigitValue(s[|s| - 1]) <= max % 10
  }

  /** The digit loop from digit i on, when the value so far has passed every check. */
  lemma {:induction false} DecodeFrom(s: string, i: nat, max: UInt64)
    requires AllDigits(s) && 100 <= max && i <= |s|
    requires ValueOf(s[..i]) < TWO64 && (i > 0 && i < |s| ==> ValueOf(s[..i - 1]) < max / 10)
    requires i < |s| || ValueOf(s) <= max
    ensures DecodeDigits(s[i..], ValueOf(s[..i]), max) ==
            if ValueOf(s) <= max || Slips(s, max) then Whole(ToUInt64(ValueOf(s))) else TooLong
    decreases |s| - i
  {
    hide ValueOf, Slips;
    assert s[..|s|] == s;
    if i < |s| {
      var v, d := ValueOf(s[..i]), DigitValue(s[i]);
      ValueOfSnoc(s, i);
      assert s[i..][1..] == s[i + 1..];
      if v < max / 10 {
        assert ToUInt64(v * 10 + d) == v * 10 + d <= max;
        DecodeFrom(s, i + 1, max);
      } else if i + 1 < |s| {
        NeverSlips(s, i, max);
      } else {
        LastDigit(s, max);
      }
    }
  }

  /** A value at the threshold before the last digit means the number is far too large. */
  lemma NeverSlips(s: string, i: nat, max: UInt64)
    requires AllDigits(s) && 100 <= max && i + 1 < |s| && ValueOf(s[..i]) >= max / 10
    ensures ValueOf(s) > max && !Slips(s, max)
  {
    assert s[..|s|] == s;
    ValueOfSnoc(s, |s| - 1);
    ValueOfSnoc(s, |s| - 2);
    ValueOfPrefix(s, i, |s| - 2);
    hide ValueOf;
    Far(max / 10, max, Lead(s, 2), DigitValue(s[|s| - 2]), DigitValue(s[|s| - 1]));
  }

  lemma Far(threshold: int, max: int, lead: int, d1: int, d0: int)
    requires 10 <= threshold <= lead && max < 10 * threshold + 10 && 0 <= d1 && 0 <= d0
    ensures 10 * (10 * lead + d1) + d0 > max
  {}

  lemma LastDigit(s: string, max: UInt64)
    requires AllDigits(s) && 100 <= max && s != [] && Lead(s, 1) >= max / 10
    requires |s| > 1 ==> Lead(s, 2) < max / 10
    ensures (DigitValue(s[|s| - 1]) <= max % 10) <==> (ValueOf(s) <= max || Slips(s, max))
  {
    assert s[..|s|] == s;
    ValueOfSnoc(s, |s| - 1);
  }

  /** What the digit loop makes of any digit string. */
  lemma DecodeAllDigits(s: string, max: UInt64)
    requires AllDigits(s) && 100 <= max
    ensures DecodeDigits(s, 0, max) ==
            if ValueOf(s) <= max || Slips(s, max) then Whole(ToUInt64(ValueOf(s))) else TooLong
    ensures Slips(s, max) ==> ValueOf(s) > max
  {
    assert s[0..] == s && s[..0] == [];
    assert s == [] ==> ValueOf(s) == 0;
    DecodeFrom(s, 0, max);
    if s != [] {
      assert s[..|s|] == s;
      ValueOfSnoc(s, |s| - 1);
    }
  }

  /** The value read is the integer i. */
  predicate Denotes(v: Value, i: int) { (v.Int? && v.i == i) || (v.UInt? && v.u == i) }

  lemma SignedText(digits: string, negative: bool)
    requires AllDigits(digits)
    ensures !LooksDouble(if negative then "-" + digits else digits)
  {
    var text := if negative then "-" + digits else digits;
    forall i | 0 <= i < |text| ensures !DoubleMark(text[i], i) {
      if negative && i > 0 {
        assert text[i] == digits[i - 1];
      }
    }
  }

  /** Read as the integer i, or left to the double scanner. */
  ghost predicate ExactOrDouble(lib: Libc, text: string, i: int) {
    var r := DecodeNumber(lib, text);
    r == DecodeDouble(lib, text) || (r.Good? && Denotes(r.result, i))
  }

  lemma NotDouble(lib: Libc, text: string, v: Value)
    requires !v.Real?
    ensures DecodeDouble(lib, text) != Good(v)
  {}

  lemma UnsignedExact(n: nat)
    ensures Denotes(Unsigned(ToUInt64(n)), n) <==> n < TWO64
    ensures n < TWO64 ==> ToUInt64(n) == n
  {}

  /** What becomes of a token of digits. */
  lemma DecodeUnsigned(lib: Libc, digits: string)
    requires AllDigits(digits)
    ensures DecodeNumber(lib, digits) ==
            if ValueOf(digits) < TWO64 || Slips(digits, TWO64 - 1) then Good(Unsigned(ToUInt64(ValueOf(digits))))
            else DecodeDouble(lib, digits)
  {
    SignedText(digits, false);
    DecodeAllDigits(digits, TWO64 - 1);
    assert digits != [] ==> IsDigit(digits[0]);
    hide DecodeDigits, Slips, LooksDouble, ValueOf, ToUInt64, Unsigned, DecodeDouble;
  }

  /** A token of digits is read exactly, or handed to the double scanner, if and only if it does not
      fall into the gap of the guard; in range it is read exactly. */
  lemma DecodeUnsignedExact(lib: Libc, digits: string)
    requires AllDigits(digits)
    ensures ExactOrDouble(lib, digits, ValueOf(digits)) <==> !Slips(digits, TWO64 - 1)
    ensures ValueOf(digits) < TWO64 ==> DecodeNumber(lib, digits) == Good(Unsigned(ValueOf(digits)))
  {
    var n := ValueOf(digits);
    DecodeUnsigned(lib, digits);
    DecodeAllDigits(digits, TWO64 - 1);
    UnsignedExact(n);
    NotDouble(lib, digits, Unsigned(ToUInt64(n)));
    hide DecodeNumber, DecodeDigits, Slips, ValueOf, ToUInt64, DecodeDouble, Unsigned;
  }

  /** What becomes of a minus sign and digits. */
  lemma DecodeSigned(lib: Libc, digits: string)
    requires AllDigits(digits)
    ensures DecodeNumber(lib, "-" + digits) ==
            if ValueOf(digits) <= TWO63 || Slips(digits, TWO63) then Good(Negated(ToUInt64(ValueOf(digits))))
            else DecodeDouble(lib, "-" + digits)
  {
    var text := "-" + digits;
    SignedText(digits, true);
    DecodeAllDigits(digits, TWO63);
    assert text[1..] == digits && text[0] == '-';
    hide DecodeDigits, Slips, LooksDouble, ValueOf, ToUInt64, Negated, DecodeDouble;
  }

  /** The same for a minus sign and digits, where the guard protects 2^63. */
  lemma DecodeSignedExact(lib: Libc, digits: string)
    requires AllDigits(digits)
    ensures ExactOrDouble(lib, "-" + digits, 0 - ValueOf(digits)) <==> !Slips(digits, TWO63)
    ensures ValueOf(digits) <= TWO63 ==> DecodeNumber(lib, "-" + digits) == Good(Int(0 - ValueOf(digits)))
  {
    hide DecodeNumber, DecodeDigits, Slips, ValueOf, ToUInt64, DecodeDouble, Negated;
    var n := ValueOf(digits);
    DecodeSigned(lib, digits);
    DecodeAllDigits(digits, TWO63);
    NegatedExact(n);
    NotDouble(lib, "-" + digits, Negated(ToUInt64(n)));
  }

  /** Negating through the signed type is exact only up to 2^63. */
  lemma NegatedExact(n: int)
    requires 0 <= n
    ensures Denotes(Negated(ToUInt64(n)), -n) <==> n <= TWO63
    ensures Negated(ToUInt64(n)).Int?
  {
    var u: int := ToUInt64(n);
    var i: int := ToInt64(u);
    var k: int := ToInt64(-i);
    Congruent(k + i, i - u, u - n);
    assert (k + n) % TWO64 == 0;
  }

  /** A minus sign without digits, which is no number by section 6 of RFC 8259, is read as 0. */
  lemma LoneMinus(lib: Libc)
    ensures DecodeNumber(lib, "-") == Good(Int(0))
  {
    DecodeSigned(lib, "");
    assert "-" + "" == "-";
  }

  lemma Congruent(a: int, b: int, c: int)
    requires a % TWO64 == 0 && b % TWO64 == 0 && c % TWO64 == 0
    ensures (a - b - c) % TWO64 == 0
  {}

  /** The comment in the source says a number beyond the largest integer is decoded as a double.
      18446744073709551620 is such a number, and it is read as 4. */
  lemma SlipExample(lib: Libc)
    ensures DecodeNumber(lib, Numeral(18446744073709551620)) == Good(Int(4))
  {
    hide DecodeNumber, ValueOf, Numeral;
    var n := 18446744073709551620;
    var s := Numeral(n);
    ValueOfNumeral(n);
    ValueOfNumeral(n / 10);
    ValueOfNumeral(n / 100);
    DecodeUnsigned(lib, s);
    Truncated(n);
    assert Slips(s, TWO64 - 1);
    assert ToUInt64(n) == 4;
  }

  lemma Truncated(n: nat)
    requires n >= 100
    ensures Numeral(n)[..|Numeral(n)| - 1] == Numeral(n / 10) && |Numeral(n)| >= 3
    ensures Numeral(n)[..|Numeral(n)| - 2] == Numeral(n / 100)
    ensures DigitValue(Numeral(n)[|Numeral(n)| - 1]) == n % 10
  {
    var m := n / 10;
    assert m / 10 == n / 100;
    assert Numeral(m) == Numeral(m / 10) + [DigitChar(m % 10)];
    assert Numeral(n) == Numeral(m) + [DigitChar(n % 10)];
  }

  /** `decodeNumber` inverts `valueToString` on every 64-bit integer. */
  lemma DecodeIntText(lib: Libc, i: int)
    requires -TWO63 <= i < TWO64
    ensures DecodeNumber(lib, IntText(i)) == Good(if i < TWO63 then Int(i) else UInt(i))
  {
    var n := if i < 0 then -i else i;
    ValueOfNumeral(n);
    if i < 0 {
      DecodeSignedExact(lib, Numeral(n));
    } else {
      DecodeUnsignedExact(lib, Numeral(n));
    }
  }
}
