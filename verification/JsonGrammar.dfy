/** What `Reader` computes, as functions of the text still to be read. The imperative
    reader in JsonReader.dfy is proved to compute exactly these. */
module JsonGrammar {
  import opened Basics
  import opened Decimal
  import opened JsonValue
  import opened JsonText

  // ----- Tokens (json_reader.cpp:215-446) -----

  datatype TokenKind =
    | EndOfStream | ObjectBegin | ObjectEnd | ArrayBegin | ArrayEnd
    | StringToken | NumberToken | TrueToken | FalseToken | NullToken
    | Separator | MemberSeparator | CommentToken | ErrorToken

  /** `left` is the number of characters from the token's start to the end of the document. */
  datatype Token = Token(kind: TokenKind, text: string, left: nat)

  datatype Lexed = Lexed(token: Token, rest: string)

  datatype Scan = Scan(ok: bool, rest: string)

  function SkipSpaces(s: string): (r: string)
    ensures |r| <= |s|
    ensures r != [] ==> !IsSpace(r[0])
  {
    if s != [] && IsSpace(s[0]) then SkipSpaces(s[1..]) else s
  }

  /** After an opening quote: up to and including the first quote not behind a backslash. */
  function ScanString(s: string): (r: Scan)
    ensures |r.rest| <= |s|
    ensures r.ok ==> |r.rest| < |s|
  {
    if s == [] then Scan(false, s)
    else if s[0] == '\\' then ScanString(if |s| > 1 then s[2..] else [])
    else if s[0] == '"' then Scan(true, s[1..])
    else ScanString(s[1..])
  }

  function ScanNumber(s: string): (r: string)
    ensures |r| <= |s|
    ensures r != [] ==> !IsNumberChar(r[0])
    ensures r == s[|s| - |r|..]
    ensures forall i :: 0 <= i < |s| - |r| ==> IsNumberChar(s[i])
  {
    if s != [] && IsNumberChar(s[0]) then ScanNumber(s[1..]) else s
  }

  function ScanCStyleComment(s: string): (r: Scan)
    ensures |r.rest| <= |s|
  {
    if s == [] then Scan(false, s)
    else if s[0] == '*' && |s| > 1 && s[1] == '/' then Scan(true, s[2..])
    else ScanCStyleComment(s[1..])
  }

  function ScanCppStyleComment(s: string): (r: string)
    ensures |r| <= |s|
  {
    if s == [] then s
    else if s[0] == '\r' || s[0] == '\n' then s[1..]
    else ScanCppStyleComment(s[1..])
  }

  function ScanComment(s: string): (r: Scan)
    ensures |r.rest| <= |s|
  {
    if s == [] then Scan(false, s)
    else if s[0] == '*' then ScanCStyleComment(s[1..])
    else if s[0] == '/' then Scan(true, ScanCppStyleComment(s[1..]))
    else Scan(false, s[1..])
  }

  function ScanWord(word: string, s: string): (r: Scan)
    ensures |r.rest| <= |s|
  {
    if word <= s then Scan(true, s[|word|..]) else Scan(false, s)
  }

  /** The kind and the extent of the token that starts with c, where u follows c. */
  function Classify(c: char, u: string): (r: (TokenKind, string))
    ensures |r.1| <= |u|
  {
    if c == '{' then (ObjectBegin, u)
    else if c == '}' then (ObjectEnd, u)
    else if c == '[' then (ArrayBegin, u)
    else if c == ']' then (ArrayEnd, u)
    else if c == '"' then var r := ScanString(u); (if r.ok then StringToken else ErrorToken, r.rest)
    else if c == '/' then var r := ScanComment(u); (if r.ok then CommentToken else ErrorToken, r.rest)
    else if IsDigit(c) || c == '-' then (NumberToken, ScanNumber(u))
    else if c == 't' then var r := ScanWord("rue", u); (if r.ok then TrueToken else ErrorToken, r.rest)
    else if c == 'f' then var r := ScanWord("alse", u); (if r.ok then FalseToken else ErrorToken, r.rest)
    else if c == 'n' then var r := ScanWord("ull", u); (if r.ok then NullToken else ErrorToken, r.rest)
    else if c == ',' then (Separator, u)
    else if c == ':' then (MemberSeparator, u)
    else if c == '\0' then (EndOfStream, u)
    else (ErrorToken, u)
  }

  function ReadToken(s: string): (r: Lexed)
    ensures |r.rest| <= |s|
    ensures !r.token.kind.EndOfStream? ==> |r.rest| < |s|
  {
    var t := SkipSpaces(s);
    if t == [] then Lexed(Token(EndOfStream, [], 0), [])
    else
      var (kind, rest) := Classify(t[0], t[1..]);
      Lexed(Token(kind, t[..|t| - |rest|], |t|), rest)
  }

  /** The next token that is not a comment. */
  function ReadPastComments(s: string): (r: Lexed)
    ensures |r.rest| <= |s|
    ensures !r.token.kind.EndOfStream? ==> |r.rest| < |s|
    ensures !r.token.kind.CommentToken?
    decreases |s|
  {
    var lx := ReadToken(s);
    if lx.token.kind.CommentToken? then ReadPastComments(lx.rest) else lx
  }

  /** Error recovery: skip to the closing token or the end of the stream. */
  function Recover(s: string, until: TokenKind): (r: string)
    ensures |r| <= |s|
    decreases |s|
  {
    var lx := ReadToken(s);
    if lx.token.kind == until || lx.token.kind.EndOfStream? then lx.rest else Recover(lx.rest, until)
  }

  // ----- Errors (json_reader.cpp:743-781) -----

  datatype ErrorKind =
    | ValueExpected | MissingColon | MissingCommaOrBrace | MissingBraceOrName | MissingCommaOrBracket
    | NotANumber | EmptyEscape | BadEscape
    | ShortUnicode | BadHexDigit | ShortSurrogate | NoSecondEscape | BadRoot

  datatype Error = Error(kind: ErrorKind, left: nat)

  // ----- Numbers (json_reader.cpp:551-627) -----

  datatype Number = Whole(n: UInt64) | TooLong | NoNumber

  /** The digit loop: `threshold` and `lastDigit` split the largest accepted magnitude `max`. */
  function DecodeDigits(s: string, value: UInt64, max: UInt64): (r: Number) {
    if s == [] then Whole(value)
    else if !IsDigit(s[0]) then NoNumber
    else
      var digit := DigitValue(s[0]);
      if value >= max / 10 && (|s| != 1 || digit > max % 10) then TooLong
      else DecodeDigits(s[1..], ToUInt64(value * 10 + digit), max)
  }

  datatype Decoded<+T> = Good(result: T) | Bad(error: ErrorKind)

  function DecodeDouble(lib: Libc, text: string): Decoded<Value> {
    match lib.scan(text)
    case Some(d) => Good(Real(d))
    case None => Bad(NotANumber)
  }

  function Unsigned(n: UInt64): Value { if n < TWO63 then Int(n) else UInt(n) }

  function Negated(n: UInt64): Value {
    var i: int := ToInt64(n);
    Int(ToInt64(-i))
  }

  function DecodeNumber(lib: Libc, text: string): Decoded<Value> {
    if LooksDouble(text) then DecodeDouble(lib, text)
    else
      var negative := text != [] && text[0] == '-';
      var digits := if negative then text[1..] else text;
      match DecodeDigits(digits, 0, if negative then TWO63 else TWO64 - 1)
      case NoNumber => Bad(NotANumber)
      case TooLong => DecodeDouble(lib, text)
      case Whole(n) => Good(if negative then Negated(n) else Unsigned(n))
  }

  // ----- Strings (json_reader.cpp:630-740, json_tool.h:18-53) -----

  /** The UTF-8 bytes of a code point, one character each; nothing beyond 0x10FFFF. */
  function CodePointToUTF8(cp: nat): string {
    if cp <= 0x7F then [cp as char]
    else if cp <= 0x7FF then
      [(0xC0 + cp / 64) as char, (0x80 + cp % 64) as char]
    else if cp <= 0xFFFF then
      [(0xE0 + cp / 4096) as char, (0x80 + cp / 64 % 64) as char, (0x80 + cp % 64) as char]
    else if cp <= 0x10FFFF then
      [(0xF0 + cp / 262144) as char, (0x80 + cp / 4096 % 64) as char,
       (0x80 + cp / 64 % 64) as char, (0x80 + cp % 64) as char]
    else []
  }

  function HexValue(c: char): (r: Option<nat>)
    ensures r.Some? ==> r.value < 16
  {
    if '0' <= c <= '9' then Some(c as int - '0' as int)
    else if 'a' <= c <= 'f' then Some(c as int - 'a' as int + 10)
    else if 'A' <= c <= 'F' then Some(c as int - 'A' as int + 10)
    else None
  }

  /** The first k hexadecimal digits of s, continuing from the value n. */
  function HexRun(s: string, k: nat, n: nat): Option<nat>
    requires k <= |s|
  {
    if k == 0 then Some(n)
    else match HexValue(s[0])
      case None => None
      case Some(d) => HexRun(s[1..], k - 1, n * 16 + d)
  }

  function DecodeHex4(s: string): Decoded<nat> {
    if |s| < 4 then Bad(ShortUnicode)
    else match HexRun(s, 4, 0)
      case None => Bad(BadHexDigit)
      case Some(n) => Good(n)
  }

  datatype CodePoint = CodePoint(cp: nat, used: nat)

  /** A code point from the text after `\u`, joining a surrogate pair. */
  function DecodeCodePoint(s: string): (r: Decoded<CodePoint>)
    ensures r.Good? ==> 0 < r.result.used <= |s|
  {
    match DecodeHex4(s)
    case Bad(e) => Bad(e)
    case Good(hi) =>
      if hi < 0xD800 || hi > 0xDBFF then Good(CodePoint(hi, 4))
      else if |s| - 4 < 6 then Bad(ShortSurrogate)
      else if s[4] == '\\' && s[5] == 'u' then
        match DecodeHex4(s[6..])
        case Bad(e) => Bad(e)
        case Good(lo) => Good(CodePoint(0x10000 + hi % 0x400 * 0x400 + lo % 0x400, 10))
      else Bad(NoSecondEscape)
  }

  function SimpleEscape(c: char): Option<char> {
    if c == '"' || c == '/' || c == '\\' then Some(c)
    else if c == 'b' then Some(BACKSPACE)
    else if c == 'f' then Some(FORMFEED)
    else if c == 'n' then Some('\n')
    else if c == 'r' then Some('\r')
    else if c == 't' then Some('\t')
    else None
  }

  function Prefixed(p: string, d: Decoded<string>): Decoded<string> {
    match d
    case Good(t) => Good(p + t)
    case Bad(e) => Bad(e)
  }

  /** One character or escape sequence at the start of a body, and its length there. */
  datatype Unit = Unit(text: string, used: nat)

  function DecodeUnit(body: string): (r: Decoded<Unit>)
    requires body != []
    ensures r.Good? ==> 0 < r.result.used <= |body|
  {
    if body[0] != '\\' then Good(Unit([body[0]], 1))
    else if |body| == 1 then Bad(EmptyEscape)
    else if body[1] == 'u' then
      match DecodeCodePoint(body[2..])
      case Bad(e) => Bad(e)
      case Good(p) => Good(Unit(CodePointToUTF8(p.cp), 2 + p.used))
    else match SimpleEscape(body[1])
      case None => Bad(BadEscape)
      case Some(c) => Good(Unit([c], 2))
  }

  /** The string a token body (the text between the quotes) denotes. */
  function DecodeString(body: string): Decoded<string> {
    if body == [] || body[0] == '"' then Good([])
    else match DecodeUnit(body)
      case Bad(e) => Bad(e)
      case Good(u) => Prefixed(u.text, DecodeString(body[u.used..]))
  }

  /** The text of a string token without its quotes. */
  function Body(text: string): string {
    if |text| < 2 then [] else text[1..|text| - 1]
  }

  // ----- Values (json_reader.cpp:164-212, 449-548) -----

  datatype Config = Config(lib: Libc, allowComments: bool, strictRoot: bool)

  datatype Outcome = Outcome(rest: string, value: Value, errors: seq<Error>)

  /** Read one value. `top` is what the slot held before; a syntax error leaves it there. */
  function ReadValue(cfg: Config, s: string, top: Value): (r: Outcome)
    ensures |r.rest| <= |s|
    ensures r.errors == [] ==> |r.rest| < |s|
    decreases |s|, 0
  {
    var lx := if cfg.allowComments then ReadPastComments(s) else ReadToken(s);
    var tok := lx.token;
    match tok.kind
    case ObjectBegin => ReadMembers(cfg, lx.rest, [], [])
    case ArrayBegin => ReadArray(cfg, lx.rest)
    case NumberToken => Settle(DecodeNumber(cfg.lib, tok.text), lx.rest, top, tok.left)
    case StringToken =>
      (match DecodeString(Body(tok.text))
       case Good(t) => Outcome(lx.rest, Str(CStr(t)), [])
       case Bad(e) => Outcome(lx.rest, top, [Error(e, tok.left)]))
    case TrueToken => Outcome(lx.rest, Bool(true), [])
    case FalseToken => Outcome(lx.rest, Bool(false), [])
    case NullToken => Outcome(lx.rest, Null, [])
    case _ => Outcome(lx.rest, top, [Error(ValueExpected, tok.left)])
  }

  function Settle(d: Decoded<Value>, rest: string, top: Value, left: nat): Outcome {
    match d
    case Good(v) => Outcome(rest, v, [])
    case Bad(e) => Outcome(rest, top, [Error(e, left)])
  }

  datatype Step = Close(rest: string) | Next(name: string, rest: string) | Broken(rest: string, error: Error)

  /** A member name and its colon, or the end of the object; `name` is the last name read, and
      only an empty one lets a brace stand here. */
  function ReadName(s: string, name: string): (r: Step)
    ensures |r.rest| <= |s| && (r.Next? ==> |r.rest| < |s|)
  {
    var lx := ReadPastComments(s);
    var tok := lx.token;
    if tok.kind.ObjectEnd? && name == [] then Close(lx.rest)
    else if !tok.kind.StringToken? then
      Broken(Recover(lx.rest, ObjectEnd), Error(MissingBraceOrName, tok.left))
    else match DecodeString(Body(tok.text))
      case Bad(e) => Broken(Recover(lx.rest, ObjectEnd), Error(e, tok.left))
      case Good(name') =>
        var colon := ReadToken(lx.rest);
        if colon.token.kind.MemberSeparator? then Next(name', colon.rest)
        else Broken(Recover(colon.rest, ObjectEnd), Error(MissingColon, colon.token.left))
  }

  /** What stands behind a member: a comma or a closing brace, comments allowed. Behind a comment
      any token but the brace passes for a comma. */
  function ReadComma(s: string, name: string): (r: Step)
    ensures |r.rest| <= |s| && (r.Next? ==> r.name == name)
  {
    var comma := ReadToken(s);
    var kind := comma.token.kind;
    if !kind.ObjectEnd? && !kind.Separator? && !kind.CommentToken? then
      Broken(Recover(comma.rest, ObjectEnd), Error(MissingCommaOrBrace, comma.token.left))
    else
      var lx := ReadPastComments(s);
      if lx.token.kind.ObjectEnd? then Close(lx.rest) else Next(name, lx.rest)
  }

  /** The members from here to the closing brace. */
  function ReadMembers(cfg: Config, s: string, ms: seq<Member>, name: string): (r: Outcome)
    ensures |r.rest| <= |s|
    decreases |s|, 1
  {
    match ReadName(s, name)
    case Close(rest) => Outcome(rest, Obj(ms), [])
    case Broken(rest, e) => Outcome(rest, Obj(ms), [e])
    case Next(name', s') =>
      var key := CStr(name');
      var r := ReadValue(cfg, s', Lookup(ms, key));
      var ms' := Store(ms, key, r.value);
      if r.errors != [] then Outcome(Recover(r.rest, ObjectEnd), Obj(ms'), r.errors)
      else AfterMember(cfg, r.rest, ms', name')
  }

  function AfterMember(cfg: Config, s: string, ms: seq<Member>, name: string): (r: Outcome)
    ensures |r.rest| <= |s|
    decreases |s|, 2
  {
    match ReadComma(s, name)
    case Close(rest) => Outcome(rest, Obj(ms), [])
    case Broken(rest, e) => Outcome(rest, Obj(ms), [e])
    case Next(_, s') => ReadMembers(cfg, s', ms, name)
  }

  function ReadArray(cfg: Config, s: string): (r: Outcome)
    ensures |r.rest| <= |s|
    decreases |s|, 2
  {
    var t := SkipSpaces(s);
    if t != [] && t[0] == ']' then Outcome(t[1..], Arr([]), []) else ReadItems(cfg, t, [])
  }

  /** The items from here to the closing bracket; any token that is not one separates items. */
  function ReadItems(cfg: Config, s: string, items: seq<Value>): (r: Outcome)
    ensures |r.rest| <= |s|
    decreases |s|, 1
  {
    var r := ReadValue(cfg, s, Null);
    if r.errors != [] then Outcome(Recover(r.rest, ArrayEnd), Arr(items + [r.value]), r.errors)
    else
      var next := ReadPastComments(r.rest);
      if next.token.kind.ArrayEnd? then Outcome(next.rest, Arr(items + [r.value]), [])
      else ReadItems(cfg, next.rest, items + [r.value])
  }

  /** A whole document (json_reader.cpp:121-161). Text after the first value is not looked at, and
      `isArray` and `isObject` hold of null too, so a strict root may be null. */
  function ParseDocument(cfg: Config, doc: string, root: Value): (r: Outcome) {
    var r := ReadValue(cfg, doc, root);
    var end := if cfg.allowComments then ReadPastComments(r.rest) else ReadToken(r.rest);
    if cfg.strictRoot && !r.value.Arr? && !r.value.Obj? && !r.value.Null? then
      Outcome(end.rest, r.value, r.errors + [Error(BadRoot, |doc|)])
    else Outcome(end.rest, r.value, r.errors)
  }
}
