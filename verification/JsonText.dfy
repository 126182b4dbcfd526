/** The text of a value: its tokens in the order of the RFC 8259 grammar (section 2),
    and the texts that spread those tokens out with insignificant whitespace. */
module JsonText {
  import opened Basics
  import opened Decimal
  import opened JsonValue

  // ----- Strings (section 7 of RFC 8259) -----

  /** Characters 1 to 31; bytes from 0x80 on are negative `char`s and do not count. */
  predicate IsControlCharacter(c: char) { '\0' < c <= 31 as char }

  function HexDigit(d: nat): char
    requires d < 16
  {
    if d < 10 then (d + '0' as int) as char else (d - 10 + 'A' as int) as char
  }

  /** `\u` and four upper-case hexadecimal digits. */
  function UnicodeEscape(n: nat): string
    requires n < 0x10000
  {
    ['\\', 'u', HexDigit(n / 4096), HexDigit(n / 256 % 16), HexDigit(n / 16 % 16), HexDigit(n % 16)]
  }

  const BACKSPACE := 8 as char
  const FORMFEED := 12 as char

  function EscapeChar(c: char): string {
    if c == '"' then "\\\""
    else if c == '\\' then "\\\\"
    else if c == BACKSPACE then "\\b"
    else if c == FORMFEED then "\\f"
    else if c == '\n' then "\\n"
    else if c == '\r' then "\\r"
    else if c == '\t' then "\\t"
    else if IsControlCharacter(c) then UnicodeEscape(c as int)
    else [c]
  }

  function FlatMap(f: char -> string, s: string): string {
    if s == [] then [] else f(s[0]) + FlatMap(f, s[1..])
  }

  function Escaped(s: string): string { FlatMap(EscapeChar, s) }

  function Quoted(s: string): string { "\"" + Escaped(s) + "\"" }

  lemma {:induction false} FlatMapAppend(f: char -> string, a: string, b: string)
    ensures FlatMap(f, a + b) == FlatMap(f, a) + FlatMap(f, b)
  {
    if a == [] {
      assert a + b == b;
    } else {
      FlatMapAppend(f, a[1..], b);
      assert (a + b)[1..] == a[1..] + b;
      Regroup(f(a[0]), FlatMap(f, a[1..]), FlatMap(f, b));
    }
  }

  // ----- Numbers (section 6 of RFC 8259) -----

  /** The characters `Reader::readNumber` collects. */
  predicate IsNumberChar(c: char) {
    IsDigit(c) || c == '.' || c == 'e' || c == 'E' || c == '+' || c == '-'
  }

  /** What the reader takes for a number token: number characters, first a digit or a minus sign. */
  ghost predicate NumberShaped(t: string) {
    && t != [] && (IsDigit(t[0]) || t[0] == '-')
    && forall i :: 0 <= i < |t| ==> IsNumberChar(t[i])
  }

  /** The C library's conversions between `double` and text (`sprintf`, `sscanf`). */
  datatype Libc = Libc(show: real -> string, scan: string -> Option<real>)

  /** A character that makes the number it stands in, at place i, a `double`. */
  predicate DoubleMark(c: char, i: nat) {
    c == '.' || c == 'e' || c == 'E' || c == '+' || (c == '-' && i != 0)
  }

  /** The scan of `decodeNumber` that sends a number token to `decodeDouble`. */
  predicate LooksDouble(text: string) { exists i :: 0 <= i < |text| && DoubleMark(text[i], i) }

  /** The library prints d as a number token with a fraction or exponent and scans it back exactly. */
  ghost predicate ExactReal(lib: Libc, d: real) {
    var t := lib.show(d);
    && t != [] && (IsDigit(t[0]) || t[0] == '-')
    && (forall i :: 0 <= i < |t| ==> IsNumberChar(t[i]))
    && LooksDouble(t)
    && lib.scan(t) == Some(d)
  }

  /** The library prints d without whitespace and quotes. */
  ghost predicate PlainReal(lib: Libc, d: real) {
    var t := lib.show(d);
    t != [] && forall i :: 0 <= i < |t| ==> !IsSpace(t[i]) && t[i] != '"'
  }

  /** Every real number in the tree is printed so. */
  ghost predicate PlainReals(lib: Libc, v: Value)
    decreases v
  {
    match v
    case Real(d) => PlainReal(lib, d)
    case Arr(items) => forall x :: x in items ==> PlainReals(lib, x)
    case Obj(ms) => forall m :: m in ms ==> PlainReals(lib, m.value)
    case _ => true
  }

  // ----- Tokens -----

  ghost function Tokens(lib: Libc, v: Value): (r: seq<string>)
    decreases v
  {
    match v
    case Null => ["null"]
    case Bool(b) => [if b then "true" else "false"]
    case Int(i) => [IntText(i)]
    case UInt(u) => [IntText(u)]
    case Real(d) => [lib.show(d)]
    case Str(s) => [Quoted(s)]
    case Arr(items) => ["["] + ItemTokens(lib, items) + ["]"]
    case Obj(ms) => ["{"] + MemberTokens(lib, ms) + ["}"]
  }

  ghost function ItemTokens(lib: Libc, items: seq<Value>): seq<string>
    decreases items
  {
    if items == [] then []
    else if |items| == 1 then Tokens(lib, items[0])
    else Tokens(lib, items[0]) + [","] + ItemTokens(lib, items[1..])
  }

  ghost function MemberTokens(lib: Libc, ms: seq<Member>): seq<string>
    decreases ms
  {
    if ms == [] then []
    else if |ms| == 1 then [Quoted(ms[0].key), ":"] + Tokens(lib, ms[0].value)
    else [Quoted(ms[0].key), ":"] + Tokens(lib, ms[0].value) + [","] + MemberTokens(lib, ms[1..])
  }

  ghost function Concat(toks: seq<string>): string {
    if toks == [] then [] else toks[0] + Concat(toks[1..])
  }

  lemma {:induction false} ConcatAppend(a: seq<string>, b: seq<string>)
    ensures Concat(a + b) == Concat(a) + Concat(b)
  {
    if a == [] {
      assert a + b == b;
    } else {
      ConcatAppend(a[1..], b);
      assert (a + b)[1..] == a[1..] + b;
      Regroup(a[0], Concat(a[1..]), Concat(b));
    }
  }

  // ----- Whitespace -----

  predicate IsSpace(c: char) { c == ' ' || c == '\t' || c == '\r' || c == '\n' }

  /** `text` is the tokens in order, with any amount of whitespace before, between and after them. */
  ghost predicate Spaced(text: string, toks: seq<string>)
    decreases |text|
  {
    if text != [] && IsSpace(text[0]) then Spaced(text[1..], toks)
    else if toks == [] then text == []
    else toks[0] != [] && toks[0] <= text && Spaced(text[|toks[0]|..], toks[1..])
  }

  lemma {:induction false} SpacedAppend(a: string, x: seq<string>, b: string, y: seq<string>)
    requires Spaced(a, x) && Spaced(b, y)
    ensures Spaced(a + b, x + y)
    decreases |a|
  {
    if a != [] && IsSpace(a[0]) {
      SpacedAppend(a[1..], x, b, y);
      assert (a + b)[1..] == a[1..] + b;
    } else if x == [] {
      assert a + b == b && x + y == y;
    } else {
      var k := |x[0]|;
      SpacedAppend(a[k..], x[1..], b, y);
      assert (a + b)[k..] == a[k..] + b;
      assert (x + y)[1..] == x[1..] + y;
    }
  }

  /** A token that may stand in a text: not empty and not starting with whitespace. */
  predicate Solid(tok: string) { tok != [] && !IsSpace(tok[0]) }

  lemma SpacedOne(tok: string)
    requires Solid(tok)
    ensures Spaced(tok, [tok])
  {
    assert tok[|tok|..] == [];
    assert [tok][1..] == [];
    assert Spaced(tok[|tok|..], [tok][1..]);
  }

  lemma {:induction false} SpacedGap(gap: string)
    requires forall i :: 0 <= i < |gap| ==> IsSpace(gap[i])
    ensures Spaced(gap, [])
  {
    if gap != [] {
      SpacedGap(gap[1..]);
    }
  }

  // ----- Removing insignificant whitespace -----

  datatype Mode = Outside | Inside | AfterBackslash

  function NextMode(m: Mode, c: char): Mode {
    match m
    case Outside => if c == '"' then Inside else Outside
    case Inside => if c == '"' then Outside else if c == '\\' then AfterBackslash else Inside
    case AfterBackslash => Inside
  }

  /** The text without the whitespace that stands outside string literals. */
  function Strip(text: string, m: Mode): string {
    if text == [] then []
    else (if m.Outside? && IsSpace(text[0]) then [] else [text[0]]) + Strip(text[1..], NextMode(m, text[0]))
  }

  ghost function EndMode(text: string, m: Mode): Mode {
    if text == [] then m else EndMode(text[1..], NextMode(m, text[0]))
  }

  lemma {:induction false} EndModeAppend(a: string, b: string, m: Mode)
    ensures EndMode(a + b, m) == EndMode(b, EndMode(a, m))
  {
    if a == [] {
      assert a + b == b;
    } else {
      EndModeAppend(a[1..], b, NextMode(m, a[0]));
      assert (a + b)[1..] == a[1..] + b;
    }
  }

  lemma {:induction false} StripAppend(a: string, b: string, m: Mode)
    ensures Strip(a + b, m) == Strip(a, m) + Strip(b, EndMode(a, m))
  {
    hide IsSpace, NextMode;
    if a == [] {
      assert a + b == b;
    } else {
      var next := NextMode(m, a[0]);
      var head := if m.Outside? && IsSpace(a[0]) then [] else [a[0]];
      StripAppend(a[1..], b, next);
      assert (a + b)[1..] == a[1..] + b;
      Regroup(head, Strip(a[1..], next), Strip(b, EndMode(a, m)));
    }
  }

  /** A token is kept whole by Strip and leaves it outside string literals. */
  ghost predicate Kept(tok: string) {
    Solid(tok) && Strip(tok, Outside) == tok && EndMode(tok, Outside) == Outside
  }

  lemma {:induction false} PlainKept(tok: string)
    requires forall i :: 0 <= i < |tok| ==> !IsSpace(tok[i]) && tok[i] != '"'
    ensures Strip(tok, Outside) == tok && EndMode(tok, Outside) == Outside
  {
    if tok != [] {
      PlainKept(tok[1..]);
    }
  }

  lemma EscapeCharKept(c: char)
    ensures Strip(EscapeChar(c), Inside) == EscapeChar(c) && EndMode(EscapeChar(c), Inside) == Inside
  {
    var e := EscapeChar(c);
    if |e| == 1 {
      assert e[1..] == [];
    } else {
      PairKept(e[1]);
      InsideKept(e[2..]);
      StripAppend(['\\', e[1]], e[2..], Inside);
      EndModeAppend(['\\', e[1]], e[2..], Inside);
      assert e == ['\\', e[1]] + e[2..];
    }
  }

  lemma PairKept(c: char)
    ensures Strip(['\\', c], Inside) == ['\\', c] && EndMode(['\\', c], Inside) == Inside
  {
    var p := ['\\', c];
    assert p[1..] == [c] && [c][1..] == [];
    assert Strip([c], AfterBackslash) == [c] && EndMode([c], AfterBackslash) == Inside;
  }

  lemma {:induction false} InsideKept(t: string)
    requires forall i :: 0 <= i < |t| ==> t[i] != '"' && t[i] != '\\'
    ensures Strip(t, Inside) == t && EndMode(t, Inside) == Inside
  {
    if t != [] {
      InsideKept(t[1..]);
    }
  }

  lemma {:induction false} EscapedKept(s: string)
    ensures Strip(Escaped(s), Inside) == Escaped(s) && EndMode(Escaped(s), Inside) == Inside
  {
    if s != [] {
      EscapedKept(s[1..]);
      EscapeCharKept(s[0]);
      StripAppend(EscapeChar(s[0]), Escaped(s[1..]), Inside);
      EndModeAppend(EscapeChar(s[0]), Escaped(s[1..]), Inside);
    }
  }

  lemma QuotedKept(s: string)
    ensures Kept(Quoted(s))
  {
    var q := Quoted(s);
    EscapedKept(s);
    StripAppend(Escaped(s), "\"", Inside);
    EndModeAppend(Escaped(s), "\"", Inside);
    assert q[1..] == Escaped(s) + "\"";
    assert "\""[1..] == [];
  }

  /** Whatever the spacing, stripping leaves exactly the tokens. */
  lemma {:induction false} StripSpaced(text: string, toks: seq<string>)
    requires Spaced(text, toks)
    requires forall t :: t in toks ==> Kept(t)
    ensures Strip(text, Outside) == Concat(toks)
    decreases |text|
  {
    if text != [] && IsSpace(text[0]) {
      StripSpaced(text[1..], toks);
    } else if toks != [] {
      var k := |toks[0]|;
      StripSpaced(text[k..], toks[1..]);
      StripAppend(toks[0], text[k..], Outside);
      assert text == toks[0] + text[k..];
      assert Kept(toks[0]);
    }
  }
}
