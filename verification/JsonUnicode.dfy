/** `\u` escapes and their UTF-8 (section 7 of RFC 8259, sections 3 and 4 of RFC 3629). */
module JsonUnicode {
  import opened Basics
  import opened JsonText
  import opened JsonGrammar
  import opened JsonRoundTrip

  predicate IsScalar(cp: nat) { cp < 0xD800 || 0xE000 <= cp <= 0x10FFFF }

  // ----- UTF-8 -----

  predicate Tail(c: char) { 0x80 <= c as int <= 0xBF }

  /** The code point a character's octets denote, by the grammar of section 4 of RFC 3629: no
      overlong form, no surrogate, nothing beyond 0x10FFFF. */
  function DecodeUtf8(b: string): Option<nat> {
    if |b| == 1 && b[0] as int <= 0x7F then Some(b[0] as int)
    else if |b| == 2 && 0xC2 <= b[0] as int <= 0xDF && Tail(b[1]) then
      Some((b[0] as int - 0xC0) * 64 + (b[1] as int - 0x80))
    else if |b| == 3 && 0xE0 <= b[0] as int <= 0xEF && Tail(b[1]) && Tail(b[2])
            && (b[0] as int == 0xE0 ==> 0xA0 <= b[1] as int) && (b[0] as int == 0xED ==> b[1] as int <= 0x9F) then
      Some((b[0] as int - 0xE0) * 4096 + (b[1] as int - 0x80) * 64 + (b[2] as int - 0x80))
    else if |b| == 4 && 0xF0 <= b[0] as int <= 0xF4 && Tail(b[1]) && Tail(b[2]) && Tail(b[3])
            && (b[0] as int == 0xF0 ==> 0x90 <= b[1] as int) && (b[0] as int == 0xF4 ==> b[1] as int <= 0x8F) then
      Some((b[0] as int - 0xF0) * 262144 + (b[1] as int - 0x80) * 4096 + (b[2] as int - 0x80) * 64
           + (b[3] as int - 0x80))
    else None
  }

  /** The bytes of a scalar value are a well-formed UTF-8 character that denotes it. */
  lemma Utf8WellFormed(cp: nat)
    requires IsScalar(cp)
    ensures DecodeUtf8(CodePointToUTF8(cp)) == Some(cp)
  {
    Base64(cp);
  }

  /** Digits in base 64, from the last. */
  lemma Base64(n: nat)
    ensures n == n / 64 * 64 + n % 64 && n / 64 == n / 4096 * 64 + n / 64 % 64
    ensures n / 4096 == n / 262144 * 64 + n / 4096 % 64
  {
    assert n / 64 / 64 == n / 4096 && n / 4096 / 64 == n / 262144;
  }

  /** They are the only such character, and it denotes a scalar value. */
  lemma Utf8Unique(b: string, cp: nat)
    requires DecodeUtf8(b) == Some(cp)
    ensures IsScalar(cp) && b == CodePointToUTF8(cp)
  {
    if |b| == 1 {
      assert b == [cp as char];
    } else if |b| == 2 {
      UniqueTwo(b, cp);
    } else if |b| == 3 {
      UniqueThree(b, cp);
    } else {
      UniqueFour(b, cp);
    }
  }

  lemma UniqueTwo(b: string, cp: nat)
    requires DecodeUtf8(b) == Some(cp) && |b| == 2
    ensures IsScalar(cp) && b == CodePointToUTF8(cp)
  {
    Digits64(0, 0, b[0] as int - 0xC0, b[1] as int - 0x80);
    assert b == [b[0], b[1]];
  }

  lemma UniqueThree(b: string, cp: nat)
    requires DecodeUtf8(b) == Some(cp) && |b| == 3
    ensures IsScalar(cp) && b == CodePointToUTF8(cp)
  {
    Digits64(0, b[0] as int - 0xE0, b[1] as int - 0x80, b[2] as int - 0x80);
    assert b == [b[0], b[1], b[2]];
  }

  lemma UniqueFour(b: string, cp: nat)
    requires DecodeUtf8(b) == Some(cp) && |b| == 4
    ensures IsScalar(cp) && b == CodePointToUTF8(cp)
  {
    Digits64(b[0] as int - 0xF0, b[1] as int - 0x80, b[2] as int - 0x80, b[3] as int - 0x80);
    assert b == [b[0], b[1], b[2], b[3]];
  }

  lemma Digits64(a: nat, b: nat, c: nat, d: nat)
    requires b < 64 && c < 64 && d < 64
    ensures var n := a * 262144 + b * 4096 + c * 64 + d;
            n % 64 == d && n / 64 % 64 == c && n / 4096 % 64 == b && n / 262144 == a
            && n / 64 == (a * 64 + b) * 64 + c && n / 4096 == a * 64 + b
  {
    var n := a * 262144 + b * 4096 + c * 64 + d;
    assert n == ((a * 64 + b) * 64 + c) * 64 + d;
    assert n / 64 == (a * 64 + b) * 64 + c;
    assert n / 64 / 64 == a * 64 + b;
    assert n / 4096 / 64 == a;
  }

  // ----- Escapes -----

  /** The hexadecimal digit d, in either case. */
  predicate Spells(c: char, d: nat) { d < 16 && (c == HexDigit(d) || (d >= 10 && c == (d - 10 + 'a' as int) as char)) }

  /** Four digits that spell n. */
  predicate SpellsWord(h: string, n: nat) {
    |h| == 4 && n < 0x10000 && Spells(h[0], n / 4096) && Spells(h[1], n / 256 % 16)
    && Spells(h[2], n / 16 % 16) && Spells(h[3], n % 16)
  }

  lemma DecodeSpelled(h: string, n: nat, t: string)
    requires SpellsWord(h, n)
    ensures DecodeHex4(h + t) == Good(n)
  {
    HexRun4(h + t, n / 4096, n / 256 % 16, n / 16 % 16, n % 16);
    HexSplit(n);
  }

  /** How a scalar value is escaped: one `\u` word, or a surrogate pair of them. */
  datatype Escape = One(word: string) | Pair(high: string, low: string) {
    function Text(): string {
      match this
      case One(w) => "\\u" + w
      case Pair(h, l) => "\\u" + h + "\\u" + l
    }

    ghost predicate For(cp: nat) {
      match this
      case One(w) => IsScalar(cp) && SpellsWord(w, cp)
      case Pair(h, l) =>
        && 0x10000 <= cp <= 0x10FFFF
        && SpellsWord(h, 0xD800 + (cp - 0x10000) / 0x400)
        && SpellsWord(l, 0xDC00 + (cp - 0x10000) % 0x400)
    }
  }

  lemma DecodeWord(w: string, cp: nat, t: string)
    requires IsScalar(cp) && SpellsWord(w, cp)
    ensures DecodeCodePoint(w + t) == Good(CodePoint(cp, 4))
  {
    DecodeSpelled(w, cp, t);
    hide DecodeHex4;
  }

  lemma DecodePair(h: string, l: string, cp: nat, t: string)
    requires Pair(h, l).For(cp)
    ensures DecodeCodePoint(h + ("\\u" + (l + t))) == Good(CodePoint(cp, 10))
  {
    hide DecodeHex4, SpellsWord;
    var k := cp - 0x10000;
    assert |h| == |l| == 4 by { WordLength(h, 0xD800 + k / 0x400); WordLength(l, 0xDC00 + k % 0x400); }
    var s := h + ("\\u" + (l + t));
    DecodeSpelled(h, 0xD800 + k / 0x400, "\\u" + (l + t));
    DecodeSpelled(l, 0xDC00 + k % 0x400, t);
    assert s[6..] == l + t && s[4] == '\\' && s[5] == 'u';
    Surrogates(k);
  }

  lemma WordLength(h: string, n: nat)
    requires SpellsWord(h, n)
    ensures |h| == 4
  {}

  lemma DecodeOne(e: Escape, cp: nat, t: string)
    requires e.For(cp)
    ensures DecodeUnit(e.Text() + t) == Good(Unit(CodePointToUTF8(cp), |e.Text()|))
  {
    hide DecodeCodePoint, CodePointToUTF8;
    var text := e.Text() + t;
    match e
    case One(w) =>
      DecodeWord(w, cp, t);
      assert text[2..] == w + t;
    case Pair(h, l) =>
      DecodePair(h, l, cp, t);
      assert text[2..] == h + ("\\u" + (l + t));
  }

  lemma Surrogates(k: nat)
    requires k < 0x100000
    ensures (0xD800 + k / 0x400) % 0x400 == k / 0x400 && (0xDC00 + k % 0x400) % 0x400 == k % 0x400
    ensures 0xD800 <= 0xD800 + k / 0x400 <= 0xDBFF
  {}

  /** A body of escapes decodes to the UTF-8 form of the scalar values it escapes. */
  lemma {:induction false} DecodeEscapes(es: seq<Escape>, cps: seq<nat>)
    requires |es| == |cps| && forall i :: 0 <= i < |es| ==> es[i].For(cps[i])
    ensures DecodeString(Concat(seq(|es|, i requires 0 <= i < |es| => es[i].Text()))) ==
            Good(Concat(seq(|cps|, i requires 0 <= i < |cps| => CodePointToUTF8(cps[i]))))
  {
    var texts := seq(|es|, i requires 0 <= i < |es| => es[i].Text());
    var bytes := seq(|cps|, i requires 0 <= i < |cps| => CodePointToUTF8(cps[i]));
    if es != [] {
      hide DecodeUnit, CodePointToUTF8;
      DecodeEscapes(es[1..], cps[1..]);
      assert texts[1..] == seq(|es[1..]|, i requires 0 <= i < |es[1..]| => es[1..][i].Text());
      assert bytes[1..] == seq(|cps[1..]|, i requires 0 <= i < |cps[1..]| => CodePointToUTF8(cps[1..][i]));
      DecodeOne(es[0], cps[0], Concat(texts[1..]));
      var e := es[0].Text();
      assert (e + Concat(texts[1..]))[|e|..] == Concat(texts[1..]);
    }
  }
}
