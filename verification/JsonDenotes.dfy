/** What a JSON text means, written down from sections 2 to 7 of RFC 8259 together with the liberties the
    reader takes. Nothing here speaks of the reader. */
module JsonDenotes {
  import opened Basics
  import opened Decimal
  import opened JsonValue
  import opened JsonText
  import opened JsonNumbers
  import opened JsonUnicode

  // ----- Gaps -----

  predicate IsBlank(c: char) { c == ' ' || c == '\t' || c == '\n' || c == '\r' }

  /** From the opening to the first closing mark behind it. */
  ghost predicate IsBlockComment(g: string) {
    && |g| >= 4 && g[..2] == "/*" && g[|g| - 2..] == "*/"
    && forall i :: 2 <= i < |g| - 2 ==> !(g[i] == '*' && g[i + 1] == '/')
  }

  /** Up to the end of the line or of the text. */
  ghost predicate IsLineComment(g: string) {
    |g| >= 2 && g[..2] == "//" && forall i :: 2 <= i < |g| - 1 ==> g[i] != '\n' && g[i] != '\r'
  }

  ghost predicate IsComment(g: string) { IsBlockComment(g) || IsLineComment(g) }

  ghost predicate IsGap(g: string) { (|g| == 1 && IsBlank(g[0])) || IsComment(g) }

  // ----- Lexemes -----

  predicate IsNumberCharacter(c: char) { '0' <= c <= '9' || c == '.' || c == 'e' || c == 'E' || c == '+' || c == '-' }

  /** A liberty: every text of these characters that starts with a digit or a minus sign. */
  ghost predicate IsNumberLexeme(t: string) {
    t != [] && ('0' <= t[0] <= '9' || t[0] == '-') && forall i :: 0 <= i < |t| ==> IsNumberCharacter(t[i])
  }

  /** A text whose first quote that no backslash precedes is its last character. */
  predicate EndsAtQuote(t: string) {
    if t == [] then false
    else if t[0] == '"' then |t| == 1
    else if t[0] == '\\' then |t| > 1 && EndsAtQuote(t[2..])
    else EndsAtQuote(t[1..])
  }

  predicate IsStringLexeme(t: string) { t != [] && t[0] == '"' && EndsAtQuote(t[1..]) }

  predicate IsWord(t: string) { t == "null" || t == "true" || t == "false" }

  predicate IsPunctuation(t: string) { t == "{" || t == "}" || t == "[" || t == "]" || t == "," || t == ":" }

  /** What is no lexeme is passed over one character at a time, or two behind a slash. */
  predicate IsStray(t: string) { |t| == 1 || (|t| == 2 && t[0] == '/') }

  ghost predicate IsAnything(t: string) {
    IsNumberLexeme(t) || IsStringLexeme(t) || IsWord(t) || IsPunctuation(t) || IsStray(t)
  }

  // ----- Strings -----

  /** A piece of a string body and what it means. */
  datatype Piece = Piece(text: string, means: string)

  /** The eight short escapes. */
  predicate IsShort(c: char, means: string) {
    || (c == '"' && means == "\"") || (c == '\\' && means == "\\") || (c == '/' && means == "/")
    || (c == 'b' && means == [8 as char]) || (c == 'f' && means == [12 as char])
    || (c == 'n' && means == [10 as char]) || (c == 'r' && means == [13 as char]) || (c == 't' && means == [9 as char])
  }

  /** The octets of a code point. A liberty: a lone low surrogate is written as if it were a character. */
  ghost predicate Octets(b: string, cp: nat) {
    if IsScalar(cp) then DecodeUtf8(b) == Some(cp)
    else
      && |b| == 3 && b[0] as int == 0xED && Tail(b[1]) && Tail(b[2])
      && cp == 0xD000 + (b[1] as int - 0x80) * 64 + (b[2] as int - 0x80)
  }

  ghost predicate IsSingle(text: string, means: string, n: nat) {
    |text| == 6 && text[..2] == "\\u" && SpellsWord(text[2..], n) && !(0xD800 <= n <= 0xDBFF) && Octets(means, n)
  }

  /** A liberty: behind a high surrogate any word is taken for a low one. */
  ghost predicate IsPair(text: string, means: string, n: nat, k: nat) {
    && |text| == 12 && text[..2] == "\\u" && SpellsWord(text[2..6], n) && 0xD800 <= n <= 0xDBFF
    && text[6..8] == "\\u" && SpellsWord(text[8..], k)
    && Octets(means, 0x10000 + (n - 0xD800) * 0x400 + k % 0x400)
  }

  /** A liberty: control characters may stand unescaped. */
  ghost predicate PieceOk(p: Piece) {
    || (|p.text| == 1 && p.text[0] != '"' && p.text[0] != '\\' && p.means == p.text)
    || (|p.text| == 2 && p.text[0] == '\\' && IsShort(p.text[1], p.means))
    || (exists n :: IsSingle(p.text, p.means, n))
    || (exists n, k :: IsPair(p.text, p.means, n, k))
  }

  ghost predicate PiecesOk(ps: seq<Piece>) { forall i :: 0 <= i < |ps| ==> PieceOk(ps[i]) }

  function Spelling(ps: seq<Piece>): string { if ps == [] then "" else ps[0].text + Spelling(ps[1..]) }

  function Meaning(ps: seq<Piece>): string { if ps == [] then "" else ps[0].means + Meaning(ps[1..]) }

  function QuoteText(ps: seq<Piece>): string { "\"" + Spelling(ps) + "\"" }

  // ----- Numbers -----

  function WithoutSign(t: string): string { if t != [] && t[0] == '-' then t[1..] else t }

  ghost predicate IsReal(lib: Libc, t: string, v: Value) { v.Real? && lib.scan(t) == Some(v.d) }

  /** Digits with a minus sign or not mean an integer of 64 bits: exactly where it fits, up to a multiple of
      2^64 in the gap of the overflow guard. Everything else is left to the C library. */
  ghost predicate NumberMeans(lib: Libc, t: string, v: Value) {
    var digits, negative := WithoutSign(t), t != [] && t[0] == '-';
    if !AllDigits(digits) then IsReal(lib, t, v)
    else
      var n := ValueOf(digits);
      var i, limit := if negative then 0 - n else n, if negative then TWO63 else TWO64 - 1;
      if n <= limit then v == if i < TWO63 then Int(i) else UInt(i)
      else if Slips(digits, limit) then
        || (v.Int? && (negative || v.i >= 0) && (v.i - i) % TWO64 == 0)
        || (v.UInt? && !negative && v.u >= TWO63 && (v.u - i) % TWO64 == 0)
      else IsReal(lib, t, v)
  }

  // ----- Values -----

  datatype Tree =
    | Word(text: string)
    | Number(text: string, value: Value)
    | Quote(pieces: seq<Piece>)
    | List(items: seq<Tree>, seps: seq<string>)
    | Record(fields: seq<Field>, marks: seq<Mark>)

  datatype Field = Field(name: seq<Piece>, value: Tree)

  /** Between members: a comma, or what passes for one behind a comment. */
  datatype Mark = Comma | Passed(comment: string, text: string)

  function Lexemes(t: Tree): seq<string>
    decreases t, 0
  {
    match t
    case Word(text) => [text]
    case Number(text, _) => [text]
    case Quote(ps) => [QuoteText(ps)]
    case List(items, seps) => ["["] + ItemLexemes(items, seps) + ["]"]
    case Record(fields, marks) => ["{"] + FieldLexemes(fields, marks) + ["}"]
  }

  function ItemLexemes(items: seq<Tree>, seps: seq<string>): seq<string>
    decreases items, 1
  {
    if items == [] then []
    else Lexemes(items[0]) + (if seps == [] then [] else [seps[0]] + ItemLexemes(items[1..], seps[1..]))
  }

  function FieldLexemes(fields: seq<Field>, marks: seq<Mark>): seq<string>
    decreases fields, 1
  {
    if fields == [] then []
    else
      [QuoteText(fields[0].name), ":"] + Lexemes(fields[0].value)
      + (if marks == [] then [] else MarkLexemes(marks[0]) + FieldLexemes(fields[1..], marks[1..]))
  }

  function MarkLexemes(m: Mark): seq<string> {
    match m
    case Comma => [","]
    case Passed(comment, text) => [comment, text]
  }

  ghost predicate Conforms(lib: Libc, t: Tree)
    decreases t, 0
  {
    match t
    case Word(text) => IsWord(text)
    case Number(text, v) => IsNumberLexeme(text) && NumberMeans(lib, text, v)
    case Quote(ps) => PiecesOk(ps)
    case List(items, seps) => ItemsConform(lib, items, seps)
    case Record(fields, marks) => FieldsConform(lib, fields, marks)
  }

  /** A liberty: anything but a closing bracket may stand between items. */
  ghost predicate ItemsConform(lib: Libc, items: seq<Tree>, seps: seq<string>)
    decreases items, 1
  {
    if items == [] then seps == []
    else
      Conforms(lib, items[0]) &&
      if seps == [] then |items| == 1
      else |items| > 1 && IsAnything(seps[0]) && seps[0] != "]" && ItemsConform(lib, items[1..], seps[1..])
  }

  /** A liberty: behind a member with the empty name a comma may end the object. */
  ghost predicate FieldsConform(lib: Libc, fields: seq<Field>, marks: seq<Mark>)
    decreases fields, 1
  {
    if fields == [] then marks == []
    else
      PiecesOk(fields[0].name) && Conforms(lib, fields[0].value) &&
      if marks == [] then |fields| == 1
      else
        MarkOk(marks[0]) &&
        if |fields| == 1 then |marks| == 1 && Meaning(fields[0].name) == ""
        else FieldsConform(lib, fields[1..], marks[1..])
  }

  ghost predicate MarkOk(m: Mark) {
    match m
    case Comma => true
    case Passed(comment, text) => IsComment(comment) && IsAnything(text) && text != "}"
  }

  /** The value of a tree. Of members with one name the last one counts. */
  function ValueOfTree(t: Tree): Value
    decreases t, 0
  {
    match t
    case Word(text) => if text == "true" then Bool(true) else if text == "false" then Bool(false) else Null
    case Number(_, v) => v
    case Quote(ps) => Str(CStr(Meaning(ps)))
    case List(items, _) => Arr(ItemValues(items))
    case Record(fields, _) => Obj(FieldValues([], fields))
  }

  function ItemValues(items: seq<Tree>): seq<Value>
    decreases items, 1
  {
    if items == [] then [] else [ValueOfTree(items[0])] + ItemValues(items[1..])
  }

  function FieldValues(ms: seq<Member>, fields: seq<Field>): seq<Member>
    decreases fields, 1
  {
    if fields == [] then ms
    else FieldValues(Store(ms, CStr(Meaning(fields[0].name)), ValueOfTree(fields[0].value)), fields[1..])
  }

  // ----- Texts -----

  datatype Part = Gap(text: string) | Lex(text: string)

  function TextOf(parts: seq<Part>): string { if parts == [] then "" else parts[0].text + TextOf(parts[1..]) }

  function LexemesOf(parts: seq<Part>): seq<string> {
    if parts == [] then []
    else (if parts[0].Lex? then [parts[0].text] else []) + LexemesOf(parts[1..])
  }

  ghost predicate GapsOk(parts: seq<Part>) {
    forall i :: 0 <= i < |parts| ==> (parts[i].Gap? ==> IsGap(parts[i].text))
  }

  /** The text is these lexemes with gaps between them. */
  ghost predicate Laid(text: string, parts: seq<Part>, lexemes: seq<string>) {
    text == TextOf(parts) && LexemesOf(parts) == lexemes && GapsOk(parts)
  }

  /** The text means the value. */
  ghost predicate DenotesValue(lib: Libc, text: string, v: Value) {
    exists t, parts :: Conforms(lib, t) && Laid(text, parts, Lexemes(t)) && v == ValueOfTree(t)
  }

  // ----- Joining texts -----

  lemma {:induction false} LaidAppend(a: string, p: seq<Part>, x: seq<string>, b: string, q: seq<Part>, y: seq<string>)
    requires Laid(a, p, x) && Laid(b, q, y)
    ensures Laid(a + b, p + q, x + y)
    decreases |p|
  {
    if p == [] {
      assert p + q == q && a + b == b && x + y == y;
    } else {
      var rest := TextOf(p[1..]);
      LaidAppend(rest, p[1..], LexemesOf(p[1..]), b, q, y);
      assert (p + q)[1..] == p[1..] + q;
      Regroup(p[0].text, rest, b);
      Regroup(if p[0].Lex? then [p[0].text] else [], LexemesOf(p[1..]), y);
      forall i | 0 <= i < |p + q| ensures (p + q)[i].Gap? ==> IsGap((p + q)[i].text) {
        assert i >= |p| ==> (p + q)[i] == q[i - |p|];
      }
    }
  }

  lemma LaidLex(t: string)
    ensures Laid(t, [Lex(t)], [t])
  {
    assert [Lex(t)][1..] == [] && t + "" == t && [t] + [] == [t];
  }

  lemma LaidGap(g: string)
    requires IsGap(g)
    ensures Laid(g, [Gap(g)], [])
  {
    assert [Gap(g)][1..] == [] && g + "" == g;
  }

  lemma LaidNone()
    ensures Laid("", [], [])
  {}
}
