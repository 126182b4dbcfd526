/** What the reader takes for a token looks like one (json_reader.cpp:243-446, 551-740). */
module JsonTokenShape {
  import opened Basics
  import opened Decimal
  import opened JsonValue
  import opened JsonText
  import opened JsonGrammar
  import opened JsonNumbers
  import opened JsonNumberGrammar
  import opened JsonUnicode
  import opened JsonDenotes

  // ----- Scanners -----

  /** What a scan has consumed. */
  function Used(s: string, rest: string): string
    requires |rest| <= |s|
  {
    s[..|s| - |rest|]
  }

  ghost predicate Suffix(s: string, rest: string) { |rest| <= |s| && s == Used(s, rest) + rest }

  lemma SuffixTail(s: string, rest: string, k: nat)
    requires k <= |s| && Suffix(s[k..], rest)
    ensures Suffix(s, rest) && Used(s, rest) == s[..k] + Used(s[k..], rest)
  {
    var n := |s| - |rest|;
    assert s == s[..k] + s[k..];
    assert s[..n] == s[..k] + s[k..][..n - k];
  }

  lemma {:induction false} StringScan(s: string)
    ensures Suffix(s, ScanString(s).rest)
    ensures ScanString(s).ok ==> EndsAtQuote(Used(s, ScanString(s).rest))
    ensures !ScanString(s).ok ==> ScanString(s).rest == []
  {
    var r := ScanString(s);
    if s == [] {
      assert s[..0] == [];
    } else if s[0] == '\\' {
      if |s| > 1 {
        StringScan(s[2..]);
        SuffixTail(s, r.rest, 2);
        var u, v := Used(s, r.rest), Used(s[2..], r.rest);
        assert u[2..] == v && |u| > 1 && u[0] == '\\';
      } else {
        assert s[..1] == s;
      }
    } else if s[0] == '"' {
      assert s == s[..1] + s[1..];
    } else {
      StringScan(s[1..]);
      SuffixTail(s, r.rest, 1);
      assert Used(s, r.rest)[1..] == Used(s[1..], r.rest);
    }
  }

  /** Behind the opening mark of a block comment. */
  ghost predicate EndsAtMark(u: string) {
    |u| >= 2 && u[|u| - 2..] == "*/" && forall i :: 0 <= i < |u| - 2 ==> !(u[i] == '*' && u[i + 1] == '/')
  }

  lemma {:induction false} BlockScan(s: string)
    ensures Suffix(s, ScanCStyleComment(s).rest)
    ensures ScanCStyleComment(s).ok ==> EndsAtMark(Used(s, ScanCStyleComment(s).rest))
    ensures !ScanCStyleComment(s).ok ==> ScanCStyleComment(s).rest == []
  {
    var r := ScanCStyleComment(s);
    if s == [] {
      assert s[..0] == [];
    } else if s[0] == '*' && |s| > 1 && s[1] == '/' {
      assert s == s[..2] + s[2..];
    } else {
      BlockScan(s[1..]);
      SuffixTail(s, r.rest, 1);
      if r.ok {
        var u, v := Used(s, r.rest), Used(s[1..], r.rest);
        assert u == [s[0]] + v && u[|u| - 2..] == v[|v| - 2..];
        forall i | 0 <= i < |u| - 2 ensures !(u[i] == '*' && u[i + 1] == '/') {
          if i > 0 {
            assert u[i] == v[i - 1] && u[i + 1] == v[i];
          } else {
            assert u[1] == s[1];
          }
        }
      }
    }
  }

  /** No line ends before the last character. */
  ghost predicate OneLine(u: string) { forall i :: 0 <= i < |u| - 1 ==> u[i] != '\n' && u[i] != '\r' }

  lemma OneLineCons(c: char, v: string)
    requires OneLine(v) && c != '\n' && c != '\r'
    ensures OneLine([c] + v)
  {
    var u := [c] + v;
    forall i | 0 <= i < |u| - 1 ensures u[i] != '\n' && u[i] != '\r' {
      assert i > 0 ==> u[i] == v[i - 1];
    }
  }

  lemma {:induction false} LineScan(s: string)
    ensures Suffix(s, ScanCppStyleComment(s)) && OneLine(Used(s, ScanCppStyleComment(s)))
  {
    hide Suffix, OneLine;
    if s == [] {
      Whole(s, 0);
      Single([]);
    } else if s[0] == '\r' || s[0] == '\n' {
      Whole(s, 1);
      Single(s[..1]);
    } else {
      LineScan(s[1..]);
      SuffixTail(s, ScanCppStyleComment(s), 1);
      OneLineCons(s[0], Used(s[1..], ScanCppStyleComment(s)));
      assert s[..1] == [s[0]];
    }
  }

  lemma Whole(s: string, k: nat)
    requires k <= |s|
    ensures Suffix(s, s[k..]) && Used(s, s[k..]) == s[..k]
  {}

  lemma Single(u: string)
    requires |u| <= 1
    ensures OneLine(u)
  {}

  ghost predicate CommentGood(u: string) {
    var r := ScanComment(u);
    && Suffix(u, r.rest)
    && (if r.ok then IsComment("/" + Used(u, r.rest)) else r.rest == [] || |Used(u, r.rest)| <= 1)
  }

  lemma CommentScan(u: string)
    ensures CommentGood(u)
  {
    hide Suffix, IsComment, OneLine, EndsAtMark;
    if u == [] {
      Whole(u, 0);
    } else if u[0] == '*' {
      BlockComment(u);
    } else if u[0] == '/' {
      LineComment(u);
    } else {
      Whole(u, 1);
    }
  }

  lemma BlockComment(u: string)
    requires u != [] && u[0] == '*'
    ensures CommentGood(u)
  {
    hide Suffix, EndsAtMark, ScanCStyleComment, IsBlockComment;
    var r := ScanCStyleComment(u[1..]);
    BlockScan(u[1..]);
    SuffixTail(u, r.rest, 1);
    if r.ok {
      BlockIs(Used(u[1..], r.rest));
      assert "/" + Used(u, r.rest) == "/*" + Used(u[1..], r.rest);
    }
  }

  lemma LineComment(u: string)
    requires u != [] && u[0] == '/'
    ensures CommentGood(u)
  {
    hide Suffix, OneLine, ScanCppStyleComment, IsLineComment;
    var rest := ScanCppStyleComment(u[1..]);
    LineScan(u[1..]);
    SuffixTail(u, rest, 1);
    LineIs(Used(u[1..], rest));
    assert "/" + Used(u, rest) == "//" + Used(u[1..], rest);
  }

  lemma BlockIs(v: string)
    requires EndsAtMark(v)
    ensures IsBlockComment("/*" + v)
  {
    var g := "/*" + v;
    assert g[|g| - 2..] == v[|v| - 2..];
    forall i | 2 <= i < |g| - 2 ensures !(g[i] == '*' && g[i + 1] == '/') {
      assert g[i] == v[i - 2] && g[i + 1] == v[i - 1];
    }
  }

  lemma LineIs(v: string)
    requires OneLine(v)
    ensures IsLineComment("//" + v)
  {
    var g := "//" + v;
    forall i | 2 <= i < |g| - 1 ensures g[i] != '\n' && g[i] != '\r' {
      assert g[i] == v[i - 2];
    }
  }

  // ----- Tokens -----

  /** The text of a token of each kind. */
  ghost predicate Shape(kind: TokenKind, text: string, rest: string) {
    match kind
    case ObjectBegin => text == "{"
    case ObjectEnd => text == "}"
    case ArrayBegin => text == "["
    case ArrayEnd => text == "]"
    case Separator => text == ","
    case MemberSeparator => text == ":"
    case TrueToken => text == "true"
    case FalseToken => text == "false"
    case NullToken => text == "null"
    case StringToken => IsStringLexeme(text)
    case NumberToken => IsNumberLexeme(text)
    case CommentToken => IsComment(text)
    case ErrorToken => (IsStray(text) && text != "]" && text != "}") || rest == []
    case EndOfStream => text == "\0" || (text == [] && rest == [])
  }

  lemma WordScan(word: string, u: string)
    ensures var r := ScanWord(word, u); Suffix(u, r.rest) && Used(u, r.rest) == if r.ok then word else []
  {
    var r := ScanWord(word, u);
    assert u == u[..|u| - |r.rest|] + r.rest;
  }

  lemma NumberScan(c: char, u: string)
    requires IsDigit(c) || c == '-'
    ensures var rest := ScanNumber(u); Suffix(u, rest) && IsNumberLexeme([c] + Used(u, rest))
  {
    hide ScanNumber;
    var rest := ScanNumber(u);
    var used := Used(u, rest);
    assert u == used + rest;
    forall i | 0 <= i < |used| ensures IsNumberCharacter(used[i]) {
      assert used[i] == u[i] && IsNumberChar(u[i]);
    }
  }

  ghost predicate Classed(c: char, u: string) {
    var (kind, rest) := Classify(c, u); Suffix(u, rest) && Shape(kind, [c] + Used(u, rest), rest)
  }

  lemma Classified(c: char, u: string)
    ensures Classed(c, u)
  {
    hide Classed;
    if c == '"' {
      QuoteClassed(u);
    } else if c == '/' {
      SlashClassed(u);
    } else if IsDigit(c) || c == '-' {
      NumberClassed(c, u);
    } else if c == 't' {
      TrueClassed(u);
    } else if c == 'f' {
      FalseClassed(u);
    } else if c == 'n' {
      NullClassed(u);
    } else {
      OtherClassed(c, u);
    }
  }

  lemma QuoteClassed(u: string)
    ensures Classed('"', u)
  {
    hide ScanString, Suffix, EndsAtQuote;
    StringScan(u);
    var rest := ScanString(u).rest;
    assert (['"'] + Used(u, rest))[1..] == Used(u, rest);
  }

  lemma SlashClassed(u: string)
    ensures Classed('/', u)
  {
    hide ScanComment, Suffix, IsComment;
    CommentScan(u);
    assert ['/'] == "/";
  }

  lemma NumberClassed(c: char, u: string)
    requires IsDigit(c) || c == '-'
    ensures Classed(c, u)
  {
    hide ScanNumber, Suffix, IsNumberLexeme;
    NumberScan(c, u);
  }

  lemma TrueClassed(u: string)
    ensures Classed('t', u)
  {
    hide ScanWord, Suffix;
    WordScan("rue", u);
    assert ['t'] + "rue" == "true" && ['t'] + [] == ['t'];
  }

  lemma FalseClassed(u: string)
    ensures Classed('f', u)
  {
    hide ScanWord, Suffix;
    WordScan("alse", u);
    assert ['f'] + "alse" == "false" && ['f'] + [] == ['f'];
  }

  lemma NullClassed(u: string)
    ensures Classed('n', u)
  {
    hide ScanWord, Suffix;
    WordScan("ull", u);
    assert ['n'] + "ull" == "null" && ['n'] + [] == ['n'];
  }

  lemma OtherClassed(c: char, u: string)
    requires c != '"' && c != '/' && !IsDigit(c) && c != '-' && c != 't' && c != 'f' && c != 'n'
    ensures Classed(c, u)
  {
    hide Suffix, Shape;
    Whole(u, 0);
    assert u[0..] == u && u[..0] == [] && [c] + [] == [c];
    OtherShape(c, u);
  }

  lemma OtherShape(c: char, u: string)
    requires c != '"' && c != '/' && !IsDigit(c) && c != '-' && c != 't' && c != 'f' && c != 'n'
    ensures Classify(c, u).1 == u && Shape(Classify(c, u).0, [c], u)
  {}

  /** The blanks in front of a token. */
  lemma {:induction false} Blanks(s: string) returns (gap: string, parts: seq<Part>)
    ensures s == gap + SkipSpaces(s) && Laid(gap, parts, [])
  {
    if s != [] && IsSpace(s[0]) {
      var more, rest := Blanks(s[1..]);
      LaidGap([s[0]]);
      LaidAppend([s[0]], [Gap([s[0]])], [], more, rest, []);
      gap, parts := [s[0]] + more, [Gap([s[0]])] + rest;
      assert s == [s[0]] + s[1..];
      Regroup([s[0]], more, SkipSpaces(s));
    } else {
      gap, parts := "", [];
      LaidNone();
      assert s == "" + s;
    }
  }

  /** A token, the blanks in front of it and what follows. */
  lemma TokenRead(s: string) returns (gap: string, parts: seq<Part>)
    ensures var lx := ReadToken(s); s == gap + lx.token.text + lx.rest && Laid(gap, parts, [])
    ensures var lx := ReadToken(s); Shape(lx.token.kind, lx.token.text, lx.rest)
  {
    hide Classify, Laid, Shape, SkipSpaces, Suffix;
    gap, parts := Blanks(s);
    var t, lx := SkipSpaces(s), ReadToken(s);
    if t == [] {
      AtEnd();
      assert gap + [] + [] == gap + [];
    } else {
      var u := t[1..];
      Classified(t[0], u);
      var (kind, rest) := Classify(t[0], u);
      assert Suffix(u, rest) && Shape(kind, [t[0]] + Used(u, rest), rest);
      Split(u, rest);
      assert t == [t[0]] + u;
      assert lx.token.text == [t[0]] + Used(u, rest);
      Regroup([t[0]], Used(u, rest), rest);
      Regroup(gap, lx.token.text, rest);
    }
  }

  lemma Split(u: string, rest: string)
    requires Suffix(u, rest)
    ensures |rest| <= |u| && u == Used(u, rest) + rest && |Used(u, rest)| == |u| - |rest|
  {}

  lemma AtEnd()
    ensures Shape(EndOfStream, [], [])
  {}

  /** The same past comments. */
  lemma {:induction false} PastRead(s: string) returns (gap: string, parts: seq<Part>)
    ensures var lx := ReadPastComments(s); s == gap + lx.token.text + lx.rest && Laid(gap, parts, [])
    ensures var lx := ReadPastComments(s); Shape(lx.token.kind, lx.token.text, lx.rest)
    decreases |s|
  {
    hide ReadToken, Laid;
    gap, parts := TokenRead(s);
    var lx := ReadToken(s);
    if lx.token.kind.CommentToken? {
      var comment := lx.token.text;
      var more, rest := PastRead(lx.rest);
      LaidGap(comment);
      LaidAppend(gap, parts, [], comment, [Gap(comment)], []);
      LaidAppend(gap + comment, parts + [Gap(comment)], [], more, rest, []);
      var last := ReadPastComments(lx.rest);
      Regroup(gap + comment, more, last.token.text);
      Regroup(gap + comment, more + last.token.text, last.rest);
      gap, parts := gap + comment + more, parts + [Gap(comment)] + rest;
    }
  }

  // ----- String bodies -----

  lemma HexSpells(c: char)
    ensures HexValue(c).Some? ==> Spells(c, HexValue(c).value)
  {}

  lemma {:induction false} HexTake(s: string, k: nat, n: nat)
    requires 0 < k <= |s| && HexRun(s, k, n).Some?
    ensures HexValue(s[0]).Some? && HexRun(s[1..], k - 1, n * 16 + HexValue(s[0]).value) == HexRun(s, k, n)
  {}

  /** Four hexadecimal digits spell the word that is read. */
  lemma HexWord(s: string)
    requires DecodeHex4(s).Good?
    ensures |s| >= 4 && SpellsWord(s[..4], DecodeHex4(s).result)
  {
    hide HexRun, HexValue, Spells;
    HexTake(s, 4, 0);
    var a := HexValue(s[0]).value;
    HexTake(s[1..], 3, a);
    var b := HexValue(s[1]).value;
    assert s[1..][1..] == s[2..] && s[2..][1..] == s[3..];
    HexTake(s[2..], 2, a * 16 + b);
    var c := HexValue(s[2]).value;
    HexTake(s[3..], 1, (a * 16 + b) * 16 + c);
    var d := HexValue(s[3]).value;
    HexEnd(s[3..][1..], ((a * 16 + b) * 16 + c) * 16 + d);
    HexSpells(s[0]); HexSpells(s[1]); HexSpells(s[2]); HexSpells(s[3]);
    Places(a, b, c, d);
  }

  lemma HexEnd(s: string, n: nat)
    ensures HexRun(s, 0, n) == Some(n)
  {}

  lemma Places(a: nat, b: nat, c: nat, d: nat)
    requires a < 16 && b < 16 && c < 16 && d < 16
    ensures var n := ((a * 16 + b) * 16 + c) * 16 + d;
            n < 0x10000 && n / 4096 == a && n / 256 % 16 == b && n / 16 % 16 == c && n % 16 == d
  {}

  lemma OctetsOf(cp: nat)
    requires cp <= 0x10FFFF && !(0xD800 <= cp <= 0xDBFF)
    ensures Octets(CodePointToUTF8(cp), cp)
  {
    if IsScalar(cp) {
      Utf8WellFormed(cp);
    } else {
      LowSurrogate(cp);
    }
  }

  lemma LowSurrogate(cp: nat)
    requires 0xDC00 <= cp <= 0xDFFF
    ensures cp / 4096 == 13 && cp == 0xD000 + (cp / 64 % 64) * 64 + cp % 64
  {}

  lemma SingleOk(body: string, p: CodePoint)
    requires |body| >= 2 && body[..2] == "\\u" && DecodeCodePoint(body[2..]) == Good(p) && p.used == 4
    ensures PieceOk(Piece(body[..6], CodePointToUTF8(p.cp)))
  {
    hide DecodeHex4, CodePointToUTF8, Octets, SpellsWord;
    HexWord(body[2..]);
    var n := DecodeHex4(body[2..]).result;
    WordBound(body[2..][..4], n);
    OctetsOf(n);
    assert body[..6][2..] == body[2..][..4] && body[..6][..2] == body[..2];
    assert IsSingle(body[..6], CodePointToUTF8(p.cp), n);
  }

  lemma WordBound(h: string, n: nat)
    requires SpellsWord(h, n)
    ensures n < 0x10000
  {}

  lemma PairOk(body: string, p: CodePoint)
    requires |body| >= 2 && body[..2] == "\\u" && DecodeCodePoint(body[2..]) == Good(p) && p.used == 10
    ensures |body| >= 12 && PieceOk(Piece(body[..12], CodePointToUTF8(p.cp)))
  {
    hide DecodeHex4, CodePointToUTF8, Octets, SpellsWord;
    var s := body[2..];
    HexWord(s);
    HexWord(s[6..]);
    var n, k := DecodeHex4(s).result, DecodeHex4(s[6..]).result;
    WordBound(s[6..][..4], k);
    Joins(n, k);
    OctetsOf(p.cp);
    var t := body[..12];
    assert t[..2] == body[..2] && t[2..6] == s[..4] && t[6..8] == [s[4], s[5]] && t[8..] == s[6..][..4];
    assert IsPair(t, CodePointToUTF8(p.cp), n, k);
  }

  lemma Joins(n: nat, k: nat)
    requires 0xD800 <= n <= 0xDBFF
    ensures n % 0x400 == n - 0xD800
    ensures 0x10000 <= 0x10000 + (n - 0xD800) * 0x400 + k % 0x400 <= 0x10FFFF
  {}

  /** A unit the decoder accepts is a piece of a string. */
  lemma UnitOk(body: string)
    requires body != [] && body[0] != '"' && DecodeUnit(body).Good?
    ensures var u := DecodeUnit(body).result; PieceOk(Piece(body[..u.used], u.text))
  {
    hide DecodeCodePoint, CodePointToUTF8, IsSingle, IsPair;
    if body[0] == '\\' && body[1] == 'u' {
      assert body[..2] == "\\u";
      UsedFourOrTen(body[2..]);
      var p := DecodeCodePoint(body[2..]).result;
      if p.used == 4 {
        SingleOk(body, p);
      } else {
        PairOk(body, p);
      }
    } else if body[0] == '\\' {
      assert body[..2][1] == body[1];
    }
  }

  lemma UsedFourOrTen(s: string)
    requires DecodeCodePoint(s).Good?
    ensures DecodeCodePoint(s).result.used == 4 || DecodeCodePoint(s).result.used == 10
  {}

  /** Plain characters do not end a string. */
  lemma {:induction false} PlainSkip(a: string, b: string)
    requires EndsAtQuote(a + b) && forall i :: 0 <= i < |a| ==> a[i] != '"' && a[i] != '\\'
    ensures EndsAtQuote(b)
  {
    if a == [] {
      assert a + b == b;
    } else {
      assert (a + b)[1..] == a[1..] + b;
      PlainSkip(a[1..], b);
    }
  }

  lemma WordPlain(h: string, n: nat)
    requires SpellsWord(h, n)
    ensures |h| == 4 && forall i :: 0 <= i < |h| ==> h[i] != '"' && h[i] != '\\'
  {}

  /** A piece is passed over as a whole in the search for the closing quote. */
  lemma PieceSkip(p: Piece, t: string)
    requires PieceOk(p) && EndsAtQuote(p.text + t)
    ensures EndsAtQuote(t)
  {
    hide SpellsWord, Octets;
    var x := p.text;
    if |x| == 1 {
      assert (x + t)[1..] == t;
    } else if |x| == 2 {
      assert (x + t)[2..] == t;
    } else if |x| == 6 {
      assert (exists n, k :: IsPair(x, p.means, n, k)) ==> |x| == 12;
      var n :| IsSingle(x, p.means, n);
      WordPlain(x[2..], n);
      assert x[0] == x[..2][0] == '\\';
      assert (x + t)[2..] == x[2..] + t;
      PlainSkip(x[2..], t);
    } else {
      assert (exists n :: IsSingle(x, p.means, n)) ==> |x| == 6;
      var n, k :| IsPair(x, p.means, n, k);
      WordPlain(x[2..6], n);
      WordPlain(x[8..], k);
      assert x[0] == x[..2][0] == '\\' && x[6] == x[6..8][0] == '\\';
      assert (x + t)[2..] == x[2..6] + (x[6..] + t);
      PlainSkip(x[2..6], x[6..] + t);
      assert (x[6..] + t)[2..] == x[8..] + t;
      PlainSkip(x[8..], t);
    }
  }

  /** A string body the decoder accepts is a sequence of pieces that mean what it returns. */
  lemma {:induction false} BodyPieces(body: string) returns (ps: seq<Piece>)
    requires EndsAtQuote(body + "\"") && DecodeString(body).Good?
    ensures PiecesOk(ps) && Spelling(ps) == body && Meaning(ps) == DecodeString(body).result
    decreases |body|
  {
    hide DecodeUnit, PieceOk;
    if body == [] {
      ps := [];
    } else {
      assert (body + "\"")[0] == body[0] && body[0] != '"';
      var u := DecodeUnit(body).result;
      var p := Piece(body[..u.used], u.text);
      UnitOk(body);
      assert body + "\"" == p.text + (body[u.used..] + "\"");
      PieceSkip(p, body[u.used..] + "\"");
      var more := BodyPieces(body[u.used..]);
      ps := [p] + more;
      assert ps[1..] == more;
    }
  }

  /** A string token that decodes is a quoted sequence of pieces. */
  lemma StringPieces(text: string) returns (ps: seq<Piece>)
    requires IsStringLexeme(text) && DecodeString(Body(text)).Good?
    ensures PiecesOk(ps) && QuoteText(ps) == text && Meaning(ps) == DecodeString(Body(text)).result
  {
    hide DecodeString, PiecesOk;
    LastQuote(text[1..]);
    var body := Body(text);
    assert text[1..] == body + "\"";
    assert text == "\"" + text[1..];
    ps := BodyPieces(body);
  }

  lemma {:induction false} LastQuote(t: string)
    requires EndsAtQuote(t)
    ensures t != [] && t[|t| - 1] == '"'
  {
    if t[0] == '\\' {
      LastQuote(t[2..]);
    } else if t[0] != '"' {
      LastQuote(t[1..]);
    }
  }

  // ----- Numbers -----

  lemma NumberLexemeIs(t: string)
    ensures IsNumberLexeme(t) <==> NumberShaped(t)
  {
    assert forall c :: IsNumberCharacter(c) <==> IsNumberChar(c);
  }

  /** A number token that decodes means what it decodes to. */
  lemma NumberRead(lib: Libc, text: string)
    requires IsNumberLexeme(text) && DecodeNumber(lib, text).Good?
    ensures NumberMeans(lib, text, DecodeNumber(lib, text).result)
  {
    NumberLexemeIs(text);
    if LooksDouble(text) {
      NotDigits(text);
    } else {
      TokenDigits(text);
      hide DecodeNumber, LooksDouble, NumberShaped, IsNumberLexeme;
      if text[0] == '-' {
        SignedRead(lib, text);
      } else {
        UnsignedRead(lib, text);
      }
    }
  }

  lemma NotDigits(text: string)
    requires LooksDouble(text) && text != []
    ensures !AllDigits(WithoutSign(text))
  {
    var i :| 0 <= i < |text| && DoubleMark(text[i], i);
    if text[0] == '-' {
      assert i > 0 && WithoutSign(text)[i - 1] == text[i];
    }
  }

  lemma UnsignedRead(lib: Libc, text: string)
    requires text != [] && text[0] != '-' && AllDigits(text) && DecodeNumber(lib, text).Good?
    ensures NumberMeans(lib, text, DecodeNumber(lib, text).result)
  {
    hide DecodeNumber, Slips, ValueOf;
    DecodeUnsigned(lib, text);
    var n := ValueOf(text);
    if n >= TWO64 && Slips(text, TWO64 - 1) {
      assert (ToUInt64(n) - n) % TWO64 == 0;
    }
  }

  lemma SignedRead(lib: Libc, text: string)
    requires text != [] && text[0] == '-' && AllDigits(text[1..]) && DecodeNumber(lib, text).Good?
    ensures NumberMeans(lib, text, DecodeNumber(lib, text).result)
  {
    hide DecodeNumber, Slips, ValueOf, Negated;
    var digits := text[1..];
    assert text == "-" + digits;
    DecodeSigned(lib, digits);
    var n: int := ValueOf(digits);
    NegatedExact(n);
    NegatedWraps(n);
  }

  lemma NegatedWraps(n: int)
    requires 0 <= n
    ensures Negated(ToUInt64(n)).Int? && (Negated(ToUInt64(n)).i - (0 - n)) % TWO64 == 0
  {
    var u: int := ToUInt64(n);
    var i: int := ToInt64(u);
    var r := ToInt64(-i);
    Sums(r + i, u - i, n - u);
  }

  lemma Sums(a: int, b: int, c: int)
    requires a % TWO64 == 0 && b % TWO64 == 0 && c % TWO64 == 0
    ensures (a + b + c) % TWO64 == 0
  {}
}
