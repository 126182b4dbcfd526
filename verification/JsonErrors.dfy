/** Where an error is reported and what stands there (json_reader.cpp:743-797). */
module JsonErrors {
  import opened Basics
  import opened JsonValue
  import opened JsonText
  import opened JsonGrammar
  import opened JsonDenotes
  import opened JsonTokenShape

  /** A lexeme that starts a value. */
  ghost predicate StartsValue(t: string) {
    IsWord(t) || IsNumberLexeme(t) || IsStringLexeme(t) || t == "{" || t == "["
  }

  /** No such lexeme stands at the front of the text. */
  ghost predicate NoValue(tail: string) { forall n: nat :: n <= |tail| ==> !StartsValue(tail[..n]) }

  ghost predicate NoString(tail: string) { forall n: nat :: n <= |tail| ==> !IsStringLexeme(tail[..n]) }

  /** What the text from an error's place on looks like, for each kind of error. */
  ghost predicate Describes(kind: ErrorKind, tail: string) {
    match kind
    case ValueExpected => NoValue(tail)
    case MissingColon => tail == [] || tail[0] != ':'
    case MissingCommaOrBrace => tail == [] || (tail[0] != ',' && tail[0] != '}')
    case MissingBraceOrName => NoString(tail)
    case NotANumber => tail != [] && ('0' <= tail[0] <= '9' || tail[0] == '-')
    case MissingCommaOrBracket => false
    case BadRoot => false
    case _ => tail != [] && tail[0] == '"'
  }

  ghost predicate ErrorAt(e: Error, s: string) { e.left <= |s| && Describes(e.kind, s[|s| - e.left..]) }

  /** The last characters of a text are those of its tails. */
  lemma AtTail(e: Error, a: string, b: string)
    requires ErrorAt(e, b)
    ensures ErrorAt(e, a + b)
  {
    hide Describes;
    assert (a + b)[|a + b| - e.left..] == b[|b| - e.left..];
  }

  /** The text from a token on. */
  lemma TokenTail(s: string) returns (gap: string)
    ensures var lx := ReadToken(s);
            s == gap + (lx.token.text + lx.rest) && lx.token.left == |lx.token.text + lx.rest|
  {
    hide Classify, Shape, SkipSpaces;
    var parts;
    gap, parts := TokenRead(s);
    var lx := ReadToken(s);
    Regroup(gap, lx.token.text, lx.rest);
    if SkipSpaces(s) != [] {
      var t := SkipSpaces(s);
      assert lx.token.text == t[..|t| - |lx.rest|];
    }
  }

  lemma {:induction false} PastTail(s: string) returns (gap: string)
    ensures var lx := ReadPastComments(s);
            s == gap + (lx.token.text + lx.rest) && lx.token.left == |lx.token.text + lx.rest|
    decreases |s|
  {
    hide ReadToken;
    gap := TokenTail(s);
    var lx := ReadToken(s);
    if lx.token.kind.CommentToken? {
      var more := PastTail(lx.rest);
      var last := ReadPastComments(lx.rest);
      Regroup(gap, lx.token.text, more + (last.token.text + last.rest));
      Regroup(gap + lx.token.text, more, last.token.text + last.rest);
      gap := gap + lx.token.text + more;
    }
  }

  // ----- What a token is not -----

  lemma {:induction false} QuoteEnds(u: string, n: nat)
    requires n <= |u| && EndsAtQuote(u[..n])
    ensures ScanString(u).ok
  {
    var v := u[..n];
    if u[0] == '\\' {
      assert v[2..] == u[2..][..n - 2];
      QuoteEnds(u[2..], n - 2);
    } else if u[0] != '"' {
      assert v[1..] == u[1..][..n - 1];
      QuoteEnds(u[1..], n - 1);
    }
  }

  lemma StringKind(c: char, u: string, n: nat)
    requires n <= |[c] + u| && IsStringLexeme(([c] + u)[..n])
    ensures Classify(c, u).0.StringToken?
  {
    var t := ([c] + u)[..n];
    assert t[0] == c && t[1..] == u[..n - 1];
    QuoteEnds(u, n - 1);
  }

  predicate ValueKind(kind: TokenKind) {
    || kind.ObjectBegin? || kind.ArrayBegin? || kind.NumberToken? || kind.StringToken?
    || kind.TrueToken? || kind.FalseToken? || kind.NullToken?
  }

  lemma ValueKinds(c: char, u: string, n: nat)
    requires n <= |[c] + u| && StartsValue(([c] + u)[..n])
    ensures ValueKind(Classify(c, u).0)
  {
    hide ScanString, EndsAtQuote;
    var t := ([c] + u)[..n];
    if IsStringLexeme(t) {
      StringKind(c, u, n);
    } else if IsWord(t) {
      assert t[0] == c && t[1..] == u[..n - 1];
      assert "null"[1..] == "ull" && "true"[1..] == "rue" && "false"[1..] == "alse";
      assert t[1..] <= u;
    } else if IsNumberLexeme(t) {
      assert t[0] == c;
    } else {
      assert t[0] == c;
    }
  }

  /** A token that starts no value, or is no string, as its text shows. */
  lemma NotThere(s: string)
    ensures var lx := ReadToken(s); !ValueKind(lx.token.kind) ==> NoValue(lx.token.text + lx.rest)
    ensures var lx := ReadToken(s); !lx.token.kind.StringToken? ==> NoString(lx.token.text + lx.rest)
    ensures var lx := ReadToken(s); Punctual(lx.token.kind, lx.token.text + lx.rest)
  {
    hide Classify, SkipSpaces, StartsValue, IsStringLexeme, Shape;
    var lx, t := ReadToken(s), SkipSpaces(s);
    if t == [] {
      EmptyTail();
    } else {
      var u := t[1..];
      Classified(t[0], u);
      assert t == [t[0]] + u;
      Rejoined(t, lx.rest);
      forall n: nat | n <= |t| && StartsValue(t[..n]) ensures ValueKind(lx.token.kind) {
        ValueKinds(t[0], u, n);
      }
      forall n: nat | n <= |t| && IsStringLexeme(t[..n]) ensures lx.token.kind.StringToken? {
        StringKind(t[0], u, n);
      }
      Marks(t[0], u);
    }
  }

  lemma Rejoined(t: string, rest: string)
    requires t != [] && Suffix(t[1..], rest)
    ensures t[..|t| - |rest|] + rest == t
  {
    assert t == [t[0]] + t[1..];
    assert t[..|t| - |rest|] == [t[0]] + Used(t[1..], rest);
  }

  /** The characters that make a colon, a comma or a brace. */
  ghost predicate Punctual(kind: TokenKind, tail: string) {
    && (!kind.MemberSeparator? ==> tail == [] || tail[0] != ':')
    && (!kind.Separator? && !kind.ObjectEnd? ==> tail == [] || (tail[0] != ',' && tail[0] != '}'))
    && (kind.StringToken? ==> tail != [] && tail[0] == '"')
    && (kind.NumberToken? ==> tail != [] && ('0' <= tail[0] <= '9' || tail[0] == '-'))
  }

  lemma Marks(c: char, u: string)
    ensures Punctual(Classify(c, u).0, [c] + u)
  {
    hide ScanString, ScanComment, ScanWord, ScanNumber;
  }

  lemma EmptyTail()
    ensures NoValue([] + []) && NoString([] + []) && Punctual(EndOfStream, [] + [])
  {}

  lemma {:induction false} NotPast(s: string)
    ensures var lx := ReadPastComments(s); !ValueKind(lx.token.kind) ==> NoValue(lx.token.text + lx.rest)
    ensures var lx := ReadPastComments(s); !lx.token.kind.StringToken? ==> NoString(lx.token.text + lx.rest)
    ensures var lx := ReadPastComments(s); Punctual(lx.token.kind, lx.token.text + lx.rest)
    decreases |s|
  {
    hide ReadToken, NoValue, NoString, Punctual;
    NotThere(s);
    if ReadToken(s).token.kind.CommentToken? {
      NotPast(ReadToken(s).rest);
    }
  }

  /** An error reported at a token. */
  lemma Here(kind: ErrorKind, gap: string, tail: string)
    requires Describes(kind, tail)
    ensures ErrorAt(Error(kind, |tail|), gap + tail)
  {
    hide Describes;
    assert (gap + tail)[|gap + tail| - |tail|..] == tail;
  }

  // ----- Kinds of decoding errors -----

  predicate EscapeKind(k: ErrorKind) {
    k.EmptyEscape? || k.BadEscape? || k.ShortUnicode? || k.BadHexDigit? || k.ShortSurrogate? || k.NoSecondEscape?
  }

  lemma {:induction false} StringErrors(body: string)
    ensures DecodeString(body).Bad? ==> EscapeKind(DecodeString(body).error)
    decreases |body|
  {
    hide DecodeCodePoint, CodePointToUTF8;
    if body != [] && body[0] != '"' {
      UnitErrors(body);
      if DecodeUnit(body).Good? {
        StringErrors(body[DecodeUnit(body).result.used..]);
      }
    }
  }

  lemma UnitErrors(body: string)
    requires body != []
    ensures DecodeUnit(body).Bad? ==> EscapeKind(DecodeUnit(body).error)
  {}

  lemma NumberErrors(lib: Libc, text: string)
    ensures DecodeNumber(lib, text).Bad? ==> DecodeNumber(lib, text).error == NotANumber
  {}

  // ----- The reader -----

  /** At most one error, described by the text at its place; without one, a suffix is left. */
  ghost predicate Told(r: Outcome, s: string) {
    || (r.errors == [] && Suffix(s, r.rest))
    || (|r.errors| == 1 && ErrorAt(r.errors[0], s))
  }

  ghost predicate StepTold(r: Step, s: string) { if r.Broken? then ErrorAt(r.error, s) else Suffix(s, r.rest) }

  lemma Front(a: string, b: string)
    ensures Suffix(a + b, b)
  {
    assert Used(a + b, b) == a;
  }

  /** What is told of a tail is told of the whole. */
  lemma Deeper(r: Outcome, out: Outcome, s: string, tail: string)
    requires Suffix(s, tail) && Told(r, tail) && out.errors == r.errors && (r.errors == [] ==> out.rest == r.rest)
    ensures Told(out, s)
  {
    hide ErrorAt;
    if r.errors == [] {
      Regroup(Used(s, tail), Used(tail, r.rest), r.rest);
      Front(Used(s, tail) + Used(tail, r.rest), r.rest);
    } else {
      AtTail(r.errors[0], Used(s, tail), tail);
    }
  }

  lemma StepDeeper(r: Step, s: string, tail: string)
    requires Suffix(s, tail) && StepTold(r, tail)
    ensures StepTold(r, s)
  {
    hide ErrorAt;
    if r.Broken? {
      AtTail(r.error, Used(s, tail), tail);
    } else {
      Regroup(Used(s, tail), Used(tail, r.rest), r.rest);
      Front(Used(s, tail) + Used(tail, r.rest), r.rest);
    }
  }

  /** A token read: the text behind it is a suffix, and an error that fits it may be put at it. */
  ghost predicate Placed(lx: Lexed, s: string) {
    && Suffix(s, lx.rest)
    && (forall kind :: Describes(kind, lx.token.text + lx.rest) ==> ErrorAt(Error(kind, lx.token.left), s))
  }

  lemma Standing(s: string, lx: Lexed, gap: string)
    requires s == gap + (lx.token.text + lx.rest) && lx.token.left == |lx.token.text + lx.rest|
    ensures Placed(lx, s)
  {
    hide Describes, ErrorAt;
    Regroup(gap, lx.token.text, lx.rest);
    Front(gap + lx.token.text, lx.rest);
    forall kind | Describes(kind, lx.token.text + lx.rest) ensures ErrorAt(Error(kind, lx.token.left), s) {
      Here(kind, gap, lx.token.text + lx.rest);
    }
  }

  function First(cfg: Config, s: string): Lexed { if cfg.allowComments then ReadPastComments(s) else ReadToken(s) }

  /** What the next token says about the errors that may be put at it. */
  ghost predicate Fits(kind: TokenKind, tail: string) {
    && (!ValueKind(kind) ==> Describes(ValueExpected, tail))
    && (!kind.StringToken? ==> Describes(MissingBraceOrName, tail))
    && (!kind.MemberSeparator? ==> Describes(MissingColon, tail))
    && (!kind.Separator? && !kind.ObjectEnd? ==> Describes(MissingCommaOrBrace, tail))
    && (kind.NumberToken? ==> Describes(NotANumber, tail))
    && (kind.StringToken? ==> forall k | EscapeKind(k) :: Describes(k, tail))
  }

  lemma Token(s: string)
    ensures Placed(ReadToken(s), s) && Fits(ReadToken(s).token.kind, ReadToken(s).token.text + ReadToken(s).rest)
  {
    hide ReadToken, Placed, NoValue, NoString;
    var gap := TokenTail(s);
    Standing(s, ReadToken(s), gap);
    NotThere(s);
  }

  lemma PastToken(s: string)
    ensures Placed(ReadPastComments(s), s)
    ensures Fits(ReadPastComments(s).token.kind, ReadPastComments(s).token.text + ReadPastComments(s).rest)
  {
    hide ReadPastComments, Placed, NoValue, NoString;
    var gap := PastTail(s);
    Standing(s, ReadPastComments(s), gap);
    NotPast(s);
  }

  /** Every error says what stands at its place. */
  lemma {:induction false} ValueTold(cfg: Config, s: string, top: Value)
    ensures Told(ReadValue(cfg, s, top), s)
    decreases |s|, 0
  {
    hide ReadToken, ReadPastComments, ReadMembers, ReadArray, Describes, ErrorAt, Suffix, DecodeNumber, DecodeString;
    var lx := First(cfg, s);
    Token(s);
    PastToken(s);
    match lx.token.kind
    case ObjectBegin =>
      MembersTold(cfg, lx.rest, [], []);
      Deeper(ReadMembers(cfg, lx.rest, [], []), ReadValue(cfg, s, top), s, lx.rest);
    case ArrayBegin =>
      ArrayTold(cfg, lx.rest);
      Deeper(ReadArray(cfg, lx.rest), ReadValue(cfg, s, top), s, lx.rest);
    case NumberToken => NumberErrors(cfg.lib, lx.token.text);
    case StringToken => StringErrors(Body(lx.token.text));
    case _ =>
  }

  lemma NameTold(s: string, name: string)
    ensures StepTold(ReadName(s, name), s)
  {
    hide ReadToken, ReadPastComments, Describes, ErrorAt, Suffix, DecodeString, Recover;
    var lx := ReadPastComments(s);
    PastToken(s);
    StringErrors(Body(lx.token.text));
    var colon := ReadToken(lx.rest);
    Token(lx.rest);
    var st := if colon.token.kind.MemberSeparator? then Close(colon.rest)
              else Broken([], Error(MissingColon, colon.token.left));
    assert StepTold(st, lx.rest);
    StepDeeper(st, s, lx.rest);
  }

  lemma CommaTold(s: string, name: string)
    ensures StepTold(ReadComma(s, name), s)
  {
    hide ReadToken, ReadPastComments, Describes, ErrorAt, Suffix, Recover;
    Token(s);
    PastToken(s);
  }

  lemma {:induction false} MembersTold(cfg: Config, s: string, ms: seq<Member>, name: string)
    ensures Told(ReadMembers(cfg, s, ms, name), s)
    decreases |s|, 1
  {
    hide ReadName, ReadValue, AfterMember, ErrorAt, Suffix, Recover, Lookup, Store;
    NameTold(s, name);
    match ReadName(s, name)
    case Close(_) =>
    case Broken(_, _) =>
    case Next(name', s') =>
      var r := ReadValue(cfg, s', Lookup(ms, CStr(name')));
      ValueTold(cfg, s', Lookup(ms, CStr(name')));
      var out := ReadMembers(cfg, s, ms, name);
      if r.errors == [] {
        var ms' := Store(ms, CStr(name'), r.value);
        AfterTold(cfg, r.rest, ms', name');
        Deeper(AfterMember(cfg, r.rest, ms', name'), out, s', r.rest);
        Deeper(out, out, s, s');
      } else {
        Deeper(r, out, s, s');
      }
  }

  lemma {:induction false} AfterTold(cfg: Config, s: string, ms: seq<Member>, name: string)
    ensures Told(AfterMember(cfg, s, ms, name), s)
    decreases |s|, 2
  {
    hide ReadComma, ReadMembers, ErrorAt, Suffix;
    CommaTold(s, name);
    match ReadComma(s, name)
    case Close(_) =>
    case Broken(_, _) =>
    case Next(_, s') =>
      MembersTold(cfg, s', ms, name);
      Deeper(ReadMembers(cfg, s', ms, name), AfterMember(cfg, s, ms, name), s, s');
  }

  lemma {:induction false} SpacesTold(s: string)
    ensures Suffix(s, SkipSpaces(s))
  {
    if s != [] && SkipSpaces(s) != s {
      SpacesTold(s[1..]);
      SuffixTail(s, SkipSpaces(s), 1);
    } else {
      Front([], s);
      assert [] + s == s;
    }
  }

  lemma {:induction false} ArrayTold(cfg: Config, s: string)
    ensures Told(ReadArray(cfg, s), s)
    decreases |s|, 2
  {
    hide SkipSpaces, ReadItems, ErrorAt, Suffix;
    var t := SkipSpaces(s);
    SpacesTold(s);
    if t != [] && t[0] == ']' {
      assert t == t[..1] + t[1..];
      Front(t[..1], t[1..]);
      Deeper(ReadArray(cfg, s), ReadArray(cfg, s), s, t);
    } else {
      ItemsTold(cfg, t, []);
      Deeper(ReadItems(cfg, t, []), ReadArray(cfg, s), s, t);
    }
  }

  lemma {:induction false} ItemsTold(cfg: Config, s: string, items: seq<Value>)
    ensures Told(ReadItems(cfg, s, items), s)
    decreases |s|, 1
  {
    hide ReadValue, ReadPastComments, ErrorAt, Suffix, Fits, Recover;
    var r := ReadValue(cfg, s, Null);
    ValueTold(cfg, s, Null);
    if r.errors == [] {
      var next, out := ReadPastComments(r.rest), ReadItems(cfg, s, items);
      PastToken(r.rest);
      if !next.token.kind.ArrayEnd? {
        ItemsTold(cfg, next.rest, items + [r.value]);
        Deeper(ReadItems(cfg, next.rest, items + [r.value]), out, r.rest, next.rest);
      }
      Deeper(out, out, s, r.rest);
    }
  }

  /** A document: an error of its value says what stands at its place, and the one about the root
      comes last and exactly when a strict root is a scalar. */
  lemma ErrorsTold(cfg: Config, doc: string, root: Value)
    ensures var r := ParseDocument(cfg, doc, root);
            var scalar := cfg.strictRoot && !r.value.Arr? && !r.value.Obj? && !r.value.Null?;
            var n := if scalar then |r.errors| - 1 else |r.errors|;
            && 0 <= n <= 1
            && (n == 1 ==> ErrorAt(r.errors[0], doc))
            && (scalar ==> r.errors[n] == Error(BadRoot, |doc|))
  {
    hide ReadValue, ReadToken, ReadPastComments, ErrorAt, Suffix;
    ValueTold(cfg, doc, root);
  }
}
