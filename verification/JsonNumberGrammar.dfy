/** Number tokens against the grammar of section 6 of RFC 8259. */
module JsonNumberGrammar {
  import opened Basics
  import opened Decimal
  import opened JsonValue
  import opened JsonText
  import opened JsonGrammar
  import opened JsonNumbers

  // ----- The grammar -----

  ghost predicate IsInt(t: string) { t == "0" || (t != [] && '1' <= t[0] <= '9' && AllDigits(t)) }

  ghost predicate IsFraction(t: string) { t == [] || (|t| > 1 && t[0] == '.' && AllDigits(t[1..])) }

  ghost predicate IsExponent(t: string) {
    t == [] || ((t[0] == 'e' || t[0] == 'E') && IsSignedDigits(t[1..]))
  }

  ghost predicate IsSignedDigits(t: string) {
    var digits := if t != [] && (t[0] == '+' || t[0] == '-') then t[1..] else t;
    digits != [] && AllDigits(digits)
  }

  ghost predicate Parts(text: string, minus: string, int_: string, fraction: string, exponent: string) {
    && text == minus + int_ + fraction + exponent && (minus == "" || minus == "-")
    && IsInt(int_) && IsFraction(fraction) && IsExponent(exponent)
  }

  ghost predicate IsNumber(text: string) {
    exists minus, int_, fraction, exponent :: Parts(text, minus, int_, fraction, exponent)
  }

  // ----- Integer tokens -----

  /** A number token that `decodeNumber` does not hand to the double scanner at once. */
  ghost predicate IntegerToken(text: string) { NumberShaped(text) && !LooksDouble(text) }

  function Digits(text: string): string { if text != [] && text[0] == '-' then text[1..] else text }

  /** It is digits, with a minus sign in front or not. */
  lemma TokenDigits(text: string)
    requires IntegerToken(text)
    ensures AllDigits(Digits(text)) && text == if text[0] == '-' then "-" + Digits(text) else Digits(text)
  {
    var d := if text[0] == '-' then 1 else 0;
    forall i | 0 <= i < |Digits(text)| ensures IsDigit(Digits(text)[i]) {
      assert Digits(text)[i] == text[i + d];
      assert !DoubleMark(text[i + d], i + d) && IsNumberChar(text[i + d]);
    }
  }

  /** A zero in front of another digit. */
  predicate LeadingZero(text: string) { |Digits(text)| > 1 && Digits(text)[0] == '0' }

  /** A character at its place in a concatenation. */
  lemma PartAt(a: string, b: string, c: string)
    requires b != []
    ensures |a| < |a + b + c| && (a + b + c)[|a|] == b[0]
  {}

  /** Without a mark of a double, a number of the grammar has no fraction and no exponent. */
  lemma NoMarks(text: string, minus: string, int_: string, fraction: string, exponent: string)
    requires !LooksDouble(text) && Parts(text, minus, int_, fraction, exponent)
    ensures fraction == [] && exponent == [] && text == minus + int_
  {
    hide IsInt, IsSignedDigits, LooksDouble;
    var whole := minus + int_;
    if fraction != [] {
      PartAt(whole, fraction, exponent);
      Marked(text, |whole|);
    } else if exponent != [] {
      PartAt(whole + fraction, exponent, []);
      assert whole + fraction + exponent + [] == text;
      Marked(text, |whole + fraction|);
    }
    assert whole + [] + [] == whole;
  }

  lemma Marked(text: string, i: nat)
    requires i < |text| && (text[i] == '.' || text[i] == 'e' || text[i] == 'E')
    ensures LooksDouble(text)
  {
    assert DoubleMark(text[i], i);
  }

  /** An integer token is a number of the grammar if and only if it has a digit and no leading zero. */
  lemma IntegerTokenIff(text: string)
    requires IntegerToken(text)
    ensures IsNumber(text) <==> text != "-" && !LeadingZero(text)
  {
    TokenDigits(text);
    var digits := Digits(text);
    if IsNumber(text) {
      var minus, int_, fraction, exponent :| Parts(text, minus, int_, fraction, exponent);
      NoMarks(text, minus, int_, fraction, exponent);
      SignOff(text, minus, int_);
    }
    if text != "-" && !LeadingZero(text) {
      var minus := if text[0] == '-' then "-" else "";
      OneOrMore(digits);
      assert minus + digits + [] + [] == text;
      assert Parts(text, minus, digits, [], []);
    }
  }

  lemma SignOff(text: string, minus: string, int_: string)
    requires text == minus + int_ && (minus == "" || minus == "-") && IsInt(int_)
    ensures Digits(text) == int_
  {
    if minus == "" {
      assert text == int_;
    } else {
      assert text[1..] == int_;
    }
  }

  lemma OneOrMore(digits: string)
    requires AllDigits(digits) && digits != [] && !(|digits| > 1 && digits[0] == '0')
    ensures IsInt(digits)
  {
    if digits[0] == '0' {
      assert digits == ['0'];
    }
  }

  /** The source refuses no integer token: it reads an integer or asks the double scanner, whether or
      not the token is a number of the grammar; in range it reads the value of the digits. */
  lemma NoneRefused(lib: Libc, text: string)
    requires IntegerToken(text)
    ensures var r := DecodeNumber(lib, text);
            r == DecodeDouble(lib, text) || (r.Good? && (r.result.Int? || r.result.UInt?))
    ensures AllDigits(Digits(text))
    ensures var n := ValueOf(Digits(text));
            n <= TWO63 ==> DecodeNumber(lib, text).Good?
                           && Denotes(DecodeNumber(lib, text).result, if text[0] == '-' then 0 - n else n)
  {
    TokenDigits(text);
    var digits := Digits(text);
    if text[0] == '-' {
      DecodeSigned(lib, digits);
      DecodeSignedExact(lib, digits);
      NegatedExact(ValueOf(digits));
    } else {
      DecodeUnsigned(lib, digits);
      DecodeUnsignedExact(lib, digits);
    }
  }

  /** So the two tokens that the grammar refuses and the source reads. */
  lemma LeadingZeroRead(lib: Libc)
    ensures DecodeNumber(lib, "01") == Good(Int(1)) && !IsNumber("01")
    ensures DecodeNumber(lib, "-01") == Good(Int(-1)) && !IsNumber("-01")
  {
    var one := "01";
    assert AllDigits(one) && one[..1] == "0" && "0"[..0] == [];
    assert ValueOf("0") == 0 && ValueOf(one) == 1;
    assert "-" + one == "-01";
    DecodeUnsignedExact(lib, one);
    DecodeSignedExact(lib, one);
    SignedText(one, false);
    SignedText(one, true);
    IntegerTokenIff(one);
    assert Digits("-01") == one;
    IntegerTokenIff("-01");
  }
}
