/** Escapes, comments and recovery. */
module JsonDetails {
  import opened JsonValue
  import opened JsonText
  import opened JsonGrammar
  import opened JsonUnicode
  import opened JsonDenotes
  import opened JsonTokenShape

  // ----- Escapes (json_writer.cpp:101-162) -----

  /** A piece of a string by section 7 of RFC 8259, which lets no control character stand for itself. */
  ghost predicate ByTheBook(p: Piece) { PieceOk(p) && (|p.text| == 1 ==> p.text[0] as int >= 0x20) }

  /** What the writer prints for a character is a piece that means it. */
  lemma EscapeMeans(c: char)
    requires c != '\0'
    ensures ByTheBook(Piece(EscapeChar(c), [c]))
  {
    hide IsPair, Octets, SpellsWord, UnicodeEscape;
    var e := EscapeChar(c);
    if IsControlCharacter(c) && e == UnicodeEscape(c as int) {
      ControlMeans(c);
    }
  }

  lemma ControlMeans(c: char)
    requires IsControlCharacter(c)
    ensures IsSingle(UnicodeEscape(c as int), [c], c as int)
  {
    var e, n := UnicodeEscape(c as int), c as int;
    assert e[..2] == "\\u" && e[2..] == [e[2], e[3], e[4], e[5]];
    assert Octets([c], n);
  }

  /** No piece that means the character is shorter. */
  lemma EscapeShortest(c: char, p: Piece)
    requires c != '\0' && ByTheBook(p) && p.means == [c]
    ensures |EscapeChar(c)| <= |p.text|
  {
    hide IsSingle, IsPair, UnicodeEscape;
    Lengths(p);
    EscapeLength(c);
  }

  lemma Lengths(p: Piece)
    requires PieceOk(p)
    ensures |p.text| == 1 || |p.text| == 2 || |p.text| >= 6
    ensures |p.text| == 1 ==> p.text[0] != '"' && p.text[0] != '\\' && p.means == p.text
    ensures |p.text| == 2 ==> IsShort(p.text[1], p.means)
  {
    hide SpellsWord, Octets, IsShort;
  }

  lemma EscapeLength(c: char)
    requires c != '\0'
    ensures |EscapeChar(c)| == 1 <==> c != '"' && c != '\\' && c as int >= 0x20
    ensures |EscapeChar(c)| == 1 || |EscapeChar(c)| == 2 || |EscapeChar(c)| == 6
    ensures |EscapeChar(c)| == 6 ==> forall x :: !IsShort(x, [c])
  {}

  // ----- Comments (json_reader.cpp:215-230, 347-418) -----

  lemma {:induction false} BlockEnds(v: string, s: string)
    requires EndsAtMark(v)
    ensures ScanCStyleComment(v + s) == Scan(true, s)
  {
    var t := v + s;
    assert t[0] == v[0] && t[1] == v[1];
    if |v| == 2 {
      assert v[0] == v[|v| - 2..][0] && v[1] == v[|v| - 2..][1];
      assert t[2..] == s;
    } else {
      assert v[1..][|v| - 3..] == v[|v| - 2..];
      assert t[1..] == v[1..] + s;
      BlockEnds(v[1..], s);
    }
  }

  lemma {:induction false} LineEnds(v: string, s: string)
    requires OneLine(v) && v != [] && (v[|v| - 1] == '\n' || v[|v| - 1] == '\r')
    ensures ScanCppStyleComment(v + s) == s
  {
    var t := v + s;
    assert t[0] == v[0] && t[1..] == v[1..] + s;
    if |v| > 1 {
      LineEnds(v[1..], s);
    } else {
      assert v[1..] + s == s;
    }
  }

  /** A comment that ends before the end of the text. */
  ghost predicate Ended(g: string) {
    IsBlockComment(g) || (IsLineComment(g) && |g| > 2 && (g[|g| - 1] == '\n' || g[|g| - 1] == '\r'))
  }

  lemma CommentRead(g: string, s: string)
    requires Ended(g)
    ensures ReadToken(g + s).token.kind.CommentToken? && ReadToken(g + s).rest == s
  {
    var t, v := g + s, g[2..];
    assert g[0] == g[..2][0] && g[1] == g[..2][1];
    assert t[0] == '/' && t[1..] == [g[1]] + (v + s) && t[1..][1..] == v + s;
    assert SkipSpaces(t) == t;
    if IsBlockComment(g) {
      assert v[|v| - 2..] == g[|g| - 2..];
      forall i | 0 <= i < |v| - 2 ensures !(v[i] == '*' && v[i + 1] == '/') {
        assert v[i] == g[i + 2] && v[i + 1] == g[i + 3];
      }
      BlockEnds(v, s);
    } else {
      forall i | 0 <= i < |v| - 1 ensures v[i] != '\n' && v[i] != '\r' {
        assert v[i] == g[i + 2];
      }
      LineEnds(v, s);
    }
  }

  /** Where comments are allowed, a comment before a value changes nothing. */
  lemma CommentSkipped(cfg: Config, g: string, s: string, top: Value)
    requires cfg.allowComments && Ended(g)
    ensures ReadValue(cfg, g + s, top) == ReadValue(cfg, s, top)
  {
    hide ReadToken, DecodeNumber, DecodeString, ReadMembers, ReadArray, Ended;
    CommentRead(g, s);
  }

  /** Where they are not, it is an error. */
  lemma CommentRefused(cfg: Config, s: string, top: Value)
    requires !cfg.allowComments && SkipSpaces(s) != [] && SkipSpaces(s)[0] == '/'
    ensures ReadValue(cfg, s, top).errors != []
  {
    hide ScanComment;
    var u := SkipSpaces(s)[1..];
    assert Classify('/', u).0.CommentToken? || Classify('/', u).0.ErrorToken?;
  }

  /** An empty array may hold whitespace but no comment. */
  lemma CommentInEmpty(cfg: Config, g: string, s: string)
    requires Ended(g)
    ensures ReadArray(cfg, g + ("]" + s)).errors != []
  {
    hide ReadToken, DecodeNumber, DecodeString, ReadMembers, Ended, Recover;
    var t := g + ("]" + s);
    CommentRead(g, "]" + s);
    CommentStart(g);
    assert t[0] == g[0] && SkipSpaces(t) == t;
    Closing(s);
    BehindIt(t);
    assert ReadValue(cfg, t, Null).errors != [];
  }

  lemma CommentStart(g: string)
    requires Ended(g)
    ensures |g| >= 2 && g[0] == '/'
  {
    assert g[0] == g[..2][0];
  }

  lemma Closing(s: string)
    ensures ReadToken("]" + s).token.kind == ArrayEnd
  {
    assert SkipSpaces("]" + s) == "]" + s;
  }

  lemma BehindIt(t: string)
    ensures ReadToken(t).token.kind.CommentToken? && !ReadToken(ReadToken(t).rest).token.kind.CommentToken? ==>
              ReadPastComments(t) == ReadToken(ReadToken(t).rest)
  {
    hide ReadToken;
  }

  /** No comment may stand between a name and its colon. */
  lemma CommentBeforeColon(s: string, name: string)
    requires ReadPastComments(s).token.kind.StringToken? && DecodeString(Body(ReadPastComments(s).token.text)).Good?
    requires ReadToken(ReadPastComments(s).rest).token.kind.CommentToken?
    ensures ReadName(s, name).Broken? && ReadName(s, name).error.kind.MissingColon?
  {
    hide ReadToken, ReadPastComments, DecodeString, Body, Recover;
  }

  // ----- Recovery (json_reader.cpp:757-771) -----

  /** The text behind n tokens. */
  function Behind(s: string, n: nat): string
    decreases n
  {
    if n == 0 then s else Behind(ReadToken(s).rest, n - 1)
  }

  function KindAt(s: string, n: nat): TokenKind { ReadToken(Behind(s, n)).token.kind }

  /** Recovery stops behind the first token of the awaited kind, or at the end of the text. */
  lemma {:induction false} RecoverStops(s: string, until: TokenKind) returns (n: nat)
    ensures Recover(s, until) == Behind(s, n + 1)
    ensures KindAt(s, n) == until || KindAt(s, n).EndOfStream?
    ensures forall i: nat :: i < n ==> KindAt(s, i) != until && !KindAt(s, i).EndOfStream?
    decreases |s|
  {
    hide ReadToken;
    var lx := ReadToken(s);
    assert Behind(s, 0) == s;
    if lx.token.kind == until || lx.token.kind.EndOfStream? {
      n := 0;
      assert Behind(s, 1) == Behind(lx.rest, 0);
    } else {
      var m := RecoverStops(lx.rest, until);
      n := m + 1;
      forall i: nat | i < n ensures KindAt(s, i) != until && !KindAt(s, i).EndOfStream? {
        if i > 0 {
          assert Behind(s, i) == Behind(lx.rest, i - 1);
          assert KindAt(lx.rest, i - 1) != until;
        }
      }
    }
  }
}
