/** `Reader` (json_reader.cpp): a cursor, a stack of the nodes being filled and an error list. */
module JsonReader {
  import opened Basics
  import opened Decimal
  import opened JsonValue
  import opened JsonText
  import opened JsonGrammar

  /** A token with its place in the document. */
  datatype Lexeme = Lexeme(kind: TokenKind, start: nat, end: nat)

  class Reader {
    const cfg: Config
    var document: string
    var current: nat
    /** The values on the path from the root to the node being read, the latter last. A child is
        written into its parent when it is popped. */
    var nodes: seq<Value>
    var errors: seq<Error>

    constructor (cfg: Config)
      ensures this.cfg == cfg && Valid()
    {
      this.cfg := cfg;
      document, current, nodes, errors := "", 0, [], [];
    }

    ghost predicate Valid()
      reads this`document, this`current
    {
      current <= |document|
    }

    /** The text still to be read. */
    ghost function Rest(): string
      requires Valid()
      reads this`document, this`current
    {
      document[current..]
    }

    /** `*current_`: at the end it reads the NUL behind the document. */
    function Peek(): char
      requires Valid()
      reads this`document, this`current
    {
      if current == |document| then '\0' else document[current]
    }

    // ----- Characters and tokens -----

    method GetNextChar() returns (c: char)
      requires Valid()
      modifies this`current
      ensures Valid()
      ensures old(Rest()) == [] ==> c == '\0' && current == old(current)
      ensures old(Rest()) != [] ==> c == old(Rest())[0] && Rest() == old(Rest())[1..]
    {
      if current == |document| {
        return '\0';
      }
      c := document[current];
      current := current + 1;
    }

    method SkipSpaces()
      requires Valid()
      modifies this`current
      ensures Valid() && Rest() == JsonGrammar.SkipSpaces(old(Rest()))
    {
      while current != |document|
        invariant Valid() && JsonGrammar.SkipSpaces(Rest()) == JsonGrammar.SkipSpaces(old(Rest()))
        decreases |document| - current
      {
        if IsSpace(document[current]) {
          assert document[current..][1..] == document[current + 1..];
          current := current + 1;
        } else {
          break;
        }
      }
    }

    /** Compares from the last character of the pattern backwards. */
    method Match(pattern: string) returns (ok: bool)
      requires Valid()
      modifies this`current
      ensures Valid() && Scan(ok, Rest()) == ScanWord(pattern, old(Rest()))
    {
      if |document| - current < |pattern| {
        return false;
      }
      var index := |pattern|;
      while index > 0
        invariant 0 <= index <= |pattern|
        invariant forall i :: index <= i < |pattern| ==> Rest()[i] == pattern[i]
      {
        index := index - 1;
        if document[current + index] != pattern[index] {
          assert Rest()[index] != pattern[index];
          return false;
        }
      }
      assert document[current + |pattern|..] == document[current..][|pattern|..];
      current := current + |pattern|;
      return true;
    }

    method ReadString() returns (ok: bool)
      requires Valid()
      modifies this`current
      ensures Valid() && Scan(ok, Rest()) == ScanString(old(Rest()))
    {
      var c := '\0';
      while current != |document|
        invariant Valid() && c != '"'
        invariant ScanString(Rest()) == ScanString(old(Rest()))
        decreases |document| - current
      {
        ghost var before := Rest();
        c := GetNextChar();
        if c == '\\' {
          var _ := GetNextChar();
          assert Rest() == if |before| > 1 then before[2..] else [];
        } else if c == '"' {
          break;
        }
      }
      ok := c == '"';
    }

    method ReadCStyleComment() returns (ok: bool)
      requires Valid()
      modifies this`current
      ensures Valid() && Scan(ok, Rest()) == ScanCStyleComment(old(Rest()))
    {
      while current != |document|
        invariant Valid() && ScanCStyleComment(Rest()) == ScanCStyleComment(old(Rest()))
        decreases |document| - current
      {
        ghost var before := Rest();
        var c := GetNextChar();
        if c == '*' && Peek() == '/' {
          assert before[1] == '/';
          c := GetNextChar();
          return c == '/';
        }
      }
      var last := GetNextChar();
      ok := last == '/';
    }

    method ReadCppStyleComment()
      requires Valid()
      modifies this`current
      ensures Valid() && Rest() == ScanCppStyleComment(old(Rest()))
    {
      while current != |document|
        invariant Valid() && ScanCppStyleComment(Rest()) == ScanCppStyleComment(old(Rest()))
        decreases |document| - current
      {
        var c := GetNextChar();
        if c == '\r' || c == '\n' {
          return;
        }
      }
    }

    method ReadComment() returns (ok: bool)
      requires Valid()
      modifies this`current
      ensures Valid() && Scan(ok, Rest()) == ScanComment(old(Rest()))
    {
      var c := GetNextChar();
      if c == '*' {
        ok := ReadCStyleComment();
      } else if c == '/' {
        ReadCppStyleComment();
        ok := true;
      } else {
        ok := false;
      }
    }

    method ReadNumber()
      requires Valid()
      modifies this`current
      ensures Valid() && Rest() == ScanNumber(old(Rest()))
    {
      while current != |document|
        invariant Valid() && ScanNumber(Rest()) == ScanNumber(old(Rest()))
        decreases |document| - current
      {
        if !IsNumberChar(document[current]) {
          break;
        }
        assert document[current..][1..] == document[current + 1..];
        current := current + 1;
      }
    }

    /** A token and where it stands, as the grammar sees it. */
    ghost predicate Is(t: Lexeme, token: Token)
      reads this`document
    {
      && t.start <= t.end <= |document|
      && token == Token(t.kind, document[t.start..t.end], |document| - t.start)
    }

    /** The kind of the token that starts with c, reading on to its end. */
    method ScanToken(c: char) returns (kind: TokenKind)
      requires Valid()
      modifies this`current
      ensures Valid() && (kind, Rest()) == Classify(c, old(Rest()))
    {
      kind := ErrorToken;
      var ok := true;
      match c {
        case '{' => kind := ObjectBegin;
        case '}' => kind := ObjectEnd;
        case '[' => kind := ArrayBegin;
        case ']' => kind := ArrayEnd;
        case '"' =>
          kind := StringToken;
          ok := ReadString();
        case '/' =>
          kind := CommentToken;
          ok := ReadComment();
        case 't' =>
          kind := TrueToken;
          ok := Match("rue");
        case 'f' =>
          kind := FalseToken;
          ok := Match("alse");
        case 'n' =>
          kind := NullToken;
          ok := Match("ull");
        case ',' => kind := Separator;
        case ':' => kind := MemberSeparator;
        case '\0' => kind := EndOfStream;
        case _ =>
          if IsDigit(c) || c == '-' {
            kind := NumberToken;
            ReadNumber();
          } else {
            ok := false;
          }
      }
      if !ok {
        kind := ErrorToken;
      }
    }

    /** Every token but the end of the stream advances the cursor. */
    method ReadToken() returns (t: Lexeme)
      requires Valid()
      modifies this`current
      ensures Valid() && t.end == current
      ensures Is(t, JsonGrammar.ReadToken(old(Rest())).token)
      ensures Rest() == JsonGrammar.ReadToken(old(Rest())).rest
      ensures !t.kind.EndOfStream? ==> old(current) < current && t.start < t.end
      ensures t.kind.StringToken? ==> t.start + 2 <= t.end
    {
      SkipSpaces();
      var start := current;
      ghost var text := Rest();
      var c := GetNextChar();
      ClassifyString(c, Rest());
      hide Classify;
      var kind := ScanToken(c);
      assert text[..|text| - |Rest()|] == document[start..current];
      t := Lexeme(kind, start, current);
    }

    /** The next token that is not a comment. */
    method ReadPastComments() returns (t: Lexeme)
      requires Valid()
      modifies this`current
      ensures Valid() && t.end == current
      ensures Is(t, JsonGrammar.ReadPastComments(old(Rest())).token)
      ensures Rest() == JsonGrammar.ReadPastComments(old(Rest())).rest
      ensures old(current) <= current
      ensures !t.kind.EndOfStream? ==> old(current) < current && t.start < t.end
      ensures t.kind.StringToken? ==> t.start + 2 <= t.end
    {
      t := ReadToken();
      while t.kind == CommentToken
        invariant Valid() && t.end == current && old(current) <= current
        invariant t.kind.StringToken? ==> t.start + 2 <= t.end
        invariant !t.kind.EndOfStream? ==> old(current) < current && t.start < t.end
        invariant t.kind.CommentToken? ==>
                    JsonGrammar.ReadPastComments(Rest()) == JsonGrammar.ReadPastComments(old(Rest()))
        invariant !t.kind.CommentToken? ==>
                    Is(t, JsonGrammar.ReadPastComments(old(Rest())).token)
                    && Rest() == JsonGrammar.ReadPastComments(old(Rest())).rest
        decreases |document| - current, t.kind.CommentToken?
      {
        t := ReadToken();
      }
    }

    method SkipCommentTokens() returns (t: Lexeme)
      requires Valid()
      modifies this`current
      ensures Valid() && t.end == current
      ensures var lx := if cfg.allowComments then JsonGrammar.ReadPastComments(old(Rest()))
                        else JsonGrammar.ReadToken(old(Rest()));
              Is(t, lx.token) && Rest() == lx.rest
      ensures !t.kind.EndOfStream? ==> old(current) < current && t.start < t.end
      ensures t.kind.StringToken? ==> t.start + 2 <= t.end
    {
      if cfg.allowComments {
        t := ReadPastComments();
      } else {
        t := ReadToken();
      }
    }

    // ----- Errors -----

    method AddError(kind: ErrorKind, t: Lexeme) returns (ok: bool)
      requires t.start <= |document|
      modifies this`errors
      ensures !ok && errors == old(errors) + [Error(kind, |document| - t.start)]
    {
      errors := errors + [Error(kind, |document| - t.start)];
      return false;
    }

    /** Skips to the closing token or the end of the stream; the error list stays as it was. */
    method RecoverFromError(until: TokenKind) returns (ok: bool)
      requires Valid()
      modifies this`current, this`errors
      ensures Valid() && !ok && errors == old(errors)
      ensures Rest() == Recover(old(Rest()), until)
    {
      var errorCount := |errors|;
      while true
        invariant Valid() && errors == old(errors)
        invariant Recover(Rest(), until) == Recover(old(Rest()), until)
        decreases |document| - current
      {
        var skip := ReadToken();
        if skip.kind == until || skip.kind == EndOfStream {
          break;
        }
      }
      errors := errors[..errorCount];
      return false;
    }

    method AddErrorAndRecover(kind: ErrorKind, t: Lexeme, until: TokenKind) returns (ok: bool)
      requires Valid() && t.start <= |document|
      modifies this`current, this`errors
      ensures Valid() && !ok && errors == old(errors) + [Error(kind, |document| - t.start)]
      ensures Rest() == Recover(old(Rest()), until)
    {
      var _ := AddError(kind, t);
      ok := RecoverFromError(until);
    }

    // ----- Strings -----

    /** Four hexadecimal digits at `from`; the value and the place behind them. */
    method DecodeUnicodeEscapeSequence(t: Lexeme, from: nat, end: nat) returns (ok: bool, unicode: nat, cur: nat)
      requires t.start <= from <= end <= |document|
      modifies this`errors
      ensures match DecodeHex4(document[from..end])
              case Good(n) => ok && unicode == n && cur == from + 4 && cur <= end && errors == old(errors)
              case Bad(e) => !ok && errors == old(errors) + [Error(e, |document| - t.start)]
    {
      unicode, cur := 0, from;
      if end - from < 4 {
        ok := AddError(ShortUnicode, t);
        return;
      }
      ghost var s := document[from..end];
      for index := 0 to 4
        invariant cur == from + index && errors == old(errors)
        invariant HexRun(s[index..], 4 - index, unicode) == HexRun(s, 4, 0)
      {
        assert s[index..][1..] == s[index + 1..];
        match HexValue(document[cur])
        case None =>
          ok := AddError(BadHexDigit, t);
          return;
        case Some(d) =>
          cur := cur + 1;
          unicode := unicode * 16 + d;
      }
      ok := true;
    }

    method DecodeUnicodeCodePoint(t: Lexeme, from: nat, end: nat) returns (ok: bool, unicode: nat, cur: nat)
      requires t.start <= from <= end <= |document|
      modifies this`errors
      ensures match DecodeCodePoint(document[from..end])
              case Good(p) => ok && unicode == p.cp && cur == from + p.used && cur <= end && errors == old(errors)
              case Bad(e) => !ok && errors == old(errors) + [Error(e, |document| - t.start)]
    {
      ok, unicode, cur := DecodeUnicodeEscapeSequence(t, from, end);
      if !ok {
        return;
      }
      if 0xD800 <= unicode <= 0xDBFF {
        if end - cur < 6 {
          ok := AddError(ShortSurrogate, t);
          return;
        }
        if document[cur] == '\\' && document[cur + 1] == 'u' {
          var surrogatePair;
          assert document[cur + 2..end] == document[from..end][6..];
          ok, surrogatePair, cur := DecodeUnicodeEscapeSequence(t, cur + 2, end);
          if ok {
            unicode := 0x10000 + unicode % 0x400 * 0x400 + surrogatePair % 0x400;
          }
        } else {
          ok := AddError(NoSecondEscape, t);
        }
      }
    }

    /** The escape sequence behind a backslash; `from` is the place of the backslash. */
    method DecodeEscape(t: Lexeme, from: nat, end: nat) returns (ok: bool, text: string, cur: nat)
      requires t.start <= from < end <= |document| && document[from] == '\\'
      modifies this`errors
      ensures match DecodeUnit(document[from..end])
              case Good(u) => ok && text == u.text && cur == from + u.used && cur <= end && errors == old(errors)
              case Bad(e) => !ok && errors == old(errors) + [Error(e, |document| - t.start)]
    {
      text, cur := "", from + 1;
      if cur == end {
        ok := AddError(EmptyEscape, t);
        return;
      }
      var escape := document[cur];
      cur := cur + 1;
      if escape == 'u' {
        var unicode;
        assert document[from..end][2..] == document[cur..end];
        ok, unicode, cur := DecodeUnicodeCodePoint(t, cur, end);
        if ok {
          text := CodePointToUTF8(unicode);
        }
      } else {
        match SimpleEscape(escape)
        case None => ok := AddError(BadEscape, t);
        case Some(c) => ok, text := true, [c];
      }
    }

    method DecodeString(t: Lexeme) returns (ok: bool, decoded: string)
      requires t.start + 2 <= t.end <= |document|
      modifies this`errors
      ensures match JsonGrammar.DecodeString(Body(document[t.start..t.end]))
              case Good(s) => ok && decoded == s && errors == old(errors)
              case Bad(e) => !ok && errors == old(errors) + [Error(e, |document| - t.start)]
    {
      hide DecodeUnit, Body;
      decoded := "";
      var cur, end := t.start + 1, t.end - 1;
      ghost var body := document[cur..end];
      BodyOf(document, t.start, t.end);
      PrefixedNone(JsonGrammar.DecodeString(body));
      while cur != end
        invariant t.start + 1 <= cur <= end && errors == old(errors)
        invariant JsonGrammar.DecodeString(body) == Prefixed(decoded, JsonGrammar.DecodeString(document[cur..end]))
        decreases end - cur
      {
        ghost var s, start := document[cur..end], cur;
        var c := document[cur];
        var piece := [c];
        if c == '"' {
          break;
        } else if c == '\\' {
          ok, piece, cur := DecodeEscape(t, cur, end);
          if !ok {
            return;
          }
        } else {
          PlainUnit(s);
          cur := cur + 1;
        }
        assert s[cur - start..] == document[cur..end];
        PrefixedTwice(decoded, piece, JsonGrammar.DecodeString(document[cur..end]));
        decoded := decoded + piece;
      }
      assert decoded + [] == decoded;
      ok := true;
    }

    // ----- Values -----

    /** The node being filled. */
    ghost function Top(): Value
      requires nodes != []
      reads this`nodes
    {
      nodes[|nodes| - 1]
    }

    method SetTop(v: Value)
      requires nodes != []
      modifies this`nodes
      ensures SameBelow(nodes, old(nodes)) && Top() == v
    {
      nodes := nodes[|nodes| - 1 := v];
    }

    /** Two stacks of the same depth that differ at most in their top. */
    static ghost predicate SameBelow(a: seq<Value>, b: seq<Value>) {
      |a| == |b| > 0 && forall i :: 0 <= i < |a| - 1 ==> a[i] == b[i]
    }

    /** The state an outcome describes: only the top node and the error list have changed. */
    ghost predicate Reached(r: Outcome, nodes0: seq<Value>, errors0: seq<Error>)
      reads this`document, this`current, this`nodes, this`errors
    {
      && Valid() && Rest() == r.rest
      && SameBelow(nodes, nodes0) && nodes[|nodes| - 1] == r.value
      && errors == errors0 + r.errors
    }

    method DecodeDouble(t: Lexeme) returns (ok: bool)
      requires t.start <= t.end <= |document| && nodes != [] && Valid()
      modifies this`nodes, this`errors
      ensures var d := JsonGrammar.DecodeDouble(cfg.lib, document[t.start..t.end]);
              ok == d.Good? && Reached(Settle(d, Rest(), old(Top()), |document| - t.start), old(nodes), old(errors))
    {
      match cfg.lib.scan(document[t.start..t.end])
      case Some(d) =>
        SetTop(Real(d));
        return true;
      case None =>
        ok := AddError(NotANumber, t);
    }

    method InspectDouble(t: Lexeme) returns (isDouble: bool)
      requires t.start <= t.end <= |document|
      ensures isDouble == LooksDouble(document[t.start..t.end])
    {
      ghost var text := document[t.start..t.end];
      isDouble := false;
      for inspect := t.start to t.end
        invariant isDouble <==> LooksDouble(text[..inspect - t.start])
      {
        var c := document[inspect];
        ghost var i := inspect - t.start;
        DoubleSnoc(text, i);
        isDouble := isDouble || c == '.' || c == 'e' || c == 'E' || c == '+' || (c == '-' && inspect != t.start);
      }
      assert text[..t.end - t.start] == text;
    }

    /** The digit loop. */
    method DecodeInteger(from: nat, end: nat, maxIntegerValue: UInt64) returns (r: Number)
      requires from <= end <= |document|
      ensures r == DecodeDigits(document[from..end], 0, maxIntegerValue)
    {
      var threshold, lastDigitThreshold := maxIntegerValue / 10, maxIntegerValue % 10;
      var value: UInt64 := 0;
      var cur := from;
      while cur < end
        invariant from <= cur <= end
        invariant DecodeDigits(document[cur..end], value, maxIntegerValue) ==
                  DecodeDigits(document[from..end], 0, maxIntegerValue)
      {
        assert document[cur..end][1..] == document[cur + 1..end];
        var c := document[cur];
        cur := cur + 1;
        if c < '0' || c > '9' {
          return NoNumber;
        }
        var digit := DigitValue(c);
        if value >= threshold {
          if cur != end || digit > lastDigitThreshold {
            return TooLong;
          }
        }
        value := ToUInt64(value * 10 + digit);
      }
      r := Whole(value);
    }

    method DecodeNumber(t: Lexeme) returns (ok: bool)
      requires t.start < t.end <= |document| && nodes != [] && Valid()
      modifies this`nodes, this`errors
      ensures var d := JsonGrammar.DecodeNumber(cfg.lib, document[t.start..t.end]);
              ok == d.Good? && Reached(Settle(d, Rest(), old(Top()), |document| - t.start), old(nodes), old(errors))
    {
      var isDouble := InspectDouble(t);
      if isDouble {
        ok := DecodeDouble(t);
        return;
      }
      var isNegative := document[t.start] == '-';
      var from := if isNegative then t.start + 1 else t.start;
      assert document[t.start..t.end][1..] == document[t.start + 1..t.end];
      var number := DecodeInteger(from, t.end, if isNegative then TWO63 else TWO64 - 1);
      match number
      case NoNumber => ok := AddError(NotANumber, t);
      case TooLong => ok := DecodeDouble(t);
      case Whole(value) =>
        if isNegative {
          SetTop(Negated(value));
        } else {
          SetTop(Unsigned(value));
        }
        ok := true;
    }

    /** Reads one value into the top node. The node stack returns to its depth in every case, and
        the result is true exactly when no error was recorded. */
    method ReadValue() returns (ok: bool)
      requires Valid() && nodes != []
      modifies this`current, this`nodes, this`errors
      ensures Reached(JsonGrammar.ReadValue(cfg, old(Rest()), old(Top())), old(nodes), old(errors))
      ensures ok <==> errors == old(errors)
      decreases |document| - current, 0
    {
      hide JsonGrammar.ReadToken, JsonGrammar.ReadPastComments, JsonGrammar.DecodeString, JsonGrammar.DecodeNumber;
      hide ReadMembers, JsonGrammar.ReadArray, Body, CStr;
      var t := SkipCommentTokens();
      match t.kind
      case ObjectBegin => ok := ReadObject();
      case ArrayBegin => ok := ReadArray();
      case NumberToken => ok := DecodeNumber(t);
      case StringToken =>
        var decoded;
        ok, decoded := DecodeString(t);
        if ok {
          SetTop(Str(CStr(decoded)));
        }
      case TrueToken =>
        SetTop(Bool(true));
        ok := true;
      case FalseToken =>
        SetTop(Bool(false));
        ok := true;
      case NullToken =>
        SetTop(Null);
        ok := true;
      case _ => ok := AddError(ValueExpected, t);
    }

    method ReadObject() returns (ok: bool)
      requires Valid() && nodes != []
      modifies this`current, this`nodes, this`errors
      ensures Reached(ReadMembers(cfg, old(Rest()), [], []), old(nodes), old(errors))
      ensures ok <==> errors == old(errors)
      decreases |document| - current, 1
    {
      hide ReadName, ReadComma, JsonGrammar.ReadValue, Recover, Store, Lookup;
      ghost var goal := ReadMembers(cfg, Rest(), [], []);
      var step := Next("", "");
      SetTop(Obj([]));
      while true
        invariant Valid() && old(current) <= current && step.Next?
        invariant SameBelow(nodes, old(nodes)) && Top().Obj?
        invariant errors == old(errors) && goal == ReadMembers(cfg, Rest(), Top().members, step.name)
        decreases |document| - current
      {
        step := ReadMemberName(step.name);
        if !step.Next? {
          return step.Close?;
        }
        ok := ReadMember(CStr(step.name));
        if !ok {
          ok := RecoverFromError(ObjectEnd);
          return;
        }
        step := ReadMemberEnd(step.name);
        if !step.Next? {
          return step.Close?;
        }
      }
    }

    /** A step of the grammar has been taken; a broken one has recorded its error. */
    ghost predicate Took(step: Step, g: Step, errors0: seq<Error>)
      reads this`document, this`current, this`errors
    {
      && Valid() && Rest() == g.rest
      && errors == (if g.Broken? then errors0 + [g.error] else errors0)
      && (step.Close? <==> g.Close?) && (step.Next? <==> g.Next?) && (g.Next? ==> step.name == g.name)
    }

    method ReadMemberName(name: string) returns (step: Step)
      requires Valid()
      modifies this`current, this`errors
      ensures Took(step, ReadName(old(Rest()), name), old(errors))
      ensures old(current) <= current && (step.Next? ==> old(current) < current)
    {
      hide JsonGrammar.ReadToken, JsonGrammar.ReadPastComments, Recover, JsonGrammar.DecodeString, Body;
      var failed := Broken("", Error(MissingColon, 0));
      var tokenName := ReadPastComments();
      if tokenName.kind == ObjectEnd && name == "" {
        return Close("");
      }
      if tokenName.kind != StringToken {
        var _ := AddErrorAndRecover(MissingBraceOrName, tokenName, ObjectEnd);
        return failed;
      }
      var ok, decoded := DecodeString(tokenName);
      if !ok {
        var _ := RecoverFromError(ObjectEnd);
        return failed;
      }
      var colon := ReadToken();
      if colon.kind != MemberSeparator {
        var _ := AddErrorAndRecover(MissingColon, colon, ObjectEnd);
        return failed;
      }
      return Next(decoded, "");
    }

    method ReadMemberEnd(name: string) returns (step: Step)
      requires Valid()
      modifies this`current, this`errors
      ensures Took(step, ReadComma(old(Rest()), name), old(errors))
      ensures old(current) <= current
    {
      hide JsonGrammar.ReadToken, Recover;
      var comma := ReadToken();
      if comma.kind != ObjectEnd && comma.kind != Separator && comma.kind != CommentToken {
        var _ := AddErrorAndRecover(MissingCommaOrBrace, comma, ObjectEnd);
        return Broken("", Error(MissingCommaOrBrace, 0));
      }
      if comma.kind == CommentToken {
        comma := ReadPastComments();
      }
      return if comma.kind == ObjectEnd then Close("") else Next(name, "");
    }

    /** Reads a value into the member `key` of the object on top. */
    method ReadMember(key: CString) returns (ok: bool)
      requires Valid() && nodes != [] && Top().Obj?
      modifies this`current, this`nodes, this`errors
      ensures var ms := old(Top()).members;
              var r := JsonGrammar.ReadValue(cfg, old(Rest()), Lookup(ms, key));
              Reached(r.(value := Obj(Store(ms, key, r.value))), old(nodes), old(errors))
      ensures ok <==> errors == old(errors)
      decreases |document| - current, 3
    {
      hide JsonGrammar.ReadValue, Store, Lookup;
      nodes := nodes + [Lookup(nodes[|nodes| - 1].members, key)];
      ok := ReadValue();
      var value := nodes[|nodes| - 1];
      nodes := nodes[..|nodes| - 1];
      SetTop(Obj(Store(nodes[|nodes| - 1].members, key, value)));
    }

    method ReadArray() returns (ok: bool)
      requires Valid() && nodes != []
      modifies this`current, this`nodes, this`errors
      ensures Reached(JsonGrammar.ReadArray(cfg, old(Rest())), old(nodes), old(errors))
      ensures ok <==> errors == old(errors)
      decreases |document| - current, 2
    {
      hide JsonGrammar.ReadToken, JsonGrammar.ReadPastComments, JsonGrammar.ReadValue, JsonGrammar.SkipSpaces, Recover;
      SetTop(Arr([]));
      SkipSpaces();
      if Peek() == ']' {
        ClosingBracket(Rest());
        var endArray := ReadToken();
        return true;
      }
      ghost var goal := ReadItems(cfg, Rest(), []);
      while true
        invariant Valid() && old(current) <= current
        invariant SameBelow(nodes, old(nodes)) && Top().Arr?
        invariant errors == old(errors) && goal == ReadItems(cfg, Rest(), Top().items)
        decreases |document| - current
      {
        ok := ReadItem();
        if !ok {
          ok := RecoverFromError(ArrayEnd);
          return;
        }
        var t := ReadPastComments();
        var badTokenType := t.kind == Separator && t.kind == ArrayEnd;
        if badTokenType {
          assert false;  // no token has both kinds: the source's error branch is dead
        }
        if t.kind == ArrayEnd {
          break;
        }
      }
      return true;
    }

    /** Reads a value behind the items of the array on top. */
    method ReadItem() returns (ok: bool)
      requires Valid() && nodes != [] && Top().Arr?
      modifies this`current, this`nodes, this`errors
      ensures var items := old(Top()).items;
              var r := JsonGrammar.ReadValue(cfg, old(Rest()), Null);
              Reached(r.(value := Arr(items + [r.value])), old(nodes), old(errors))
      ensures ok <==> errors == old(errors)
      decreases |document| - current, 1
    {
      hide JsonGrammar.ReadValue;
      nodes := nodes + [Null];
      ok := ReadValue();
      var value := nodes[|nodes| - 1];
      nodes := nodes[..|nodes| - 1];
      SetTop(Arr(nodes[|nodes| - 1].items + [value]));
    }

    /** Parses a document into `root`; true exactly when the error list stays empty. */
    method Parse(doc: string, root: Value) returns (ok: bool, result: Value)
      modifies this
      ensures Valid() && document == doc
      ensures var r := ParseDocument(cfg, doc, root);
              result == r.value && errors == r.errors && Rest() == r.rest && nodes == [result]
      ensures ok <==> errors == []
    {
      hide JsonGrammar.ReadToken, JsonGrammar.ReadPastComments, JsonGrammar.ReadValue;
      document := doc;
      current := 0;
      errors := [];
      while |nodes| > 0
        invariant document == doc && current == 0 && errors == []
      {
        nodes := nodes[..|nodes| - 1];
      }
      nodes := [root];
      assert Rest() == doc;
      ok := ReadValue();
      var t := SkipCommentTokens();
      result := nodes[0];
      if cfg.strictRoot {
        if !result.Arr? && !result.Obj? && !result.Null? {
          ok := AddError(BadRoot, Lexeme(ErrorToken, 0, |document|));
        }
      }
    }
  }

  lemma DoubleSnoc(text: string, i: nat)
    requires i < |text|
    ensures LooksDouble(text[..i + 1]) <==> LooksDouble(text[..i]) || DoubleMark(text[i], i)
  {
    hide DoubleMark;
    var less, more := text[..i], text[..i + 1];
    assert forall j :: 0 <= j < i ==> more[j] == less[j];
    assert more[i] == text[i];
    if LooksDouble(less) {
      var j :| 0 <= j < |less| && DoubleMark(less[j], j);
      assert DoubleMark(more[j], j);
    }
    if LooksDouble(more) {
      var j :| 0 <= j < |more| && DoubleMark(more[j], j);
      assert j < i ==> DoubleMark(less[j], j);
    }
  }

  lemma ClosingBracket(s: string)
    requires s != [] && s[0] == ']'
    ensures JsonGrammar.ReadToken(s).rest == s[1..] && JsonGrammar.SkipSpaces(s) == s
  {}

  lemma ClassifyString(c: char, u: string)
    ensures Classify(c, u).0.StringToken? ==> |Classify(c, u).1| < |u|
    ensures c == '\0' ==> Classify(c, u) == (EndOfStream, u)
  {}

  lemma BodyOf(doc: string, start: nat, end: nat)
    requires start + 2 <= end <= |doc|
    ensures Body(doc[start..end]) == doc[start + 1..end - 1]
  {
    var s := doc[start..end];
    var a, b := s[1..|s| - 1], doc[start + 1..end - 1];
    assert |a| == |b| && forall i :: 0 <= i < |a| ==> a[i] == s[i + 1] == b[i];
  }

  lemma PlainUnit(body: string)
    requires body != [] && body[0] != '\\'
    ensures DecodeUnit(body) == Good(Unit([body[0]], 1))
  {}

  lemma PrefixedNone(d: Decoded<string>)
    ensures Prefixed("", d) == d
  {
    if d.Good? {
      assert "" + d.result == d.result;
    }
  }

  lemma PrefixedTwice(a: string, b: string, d: Decoded<string>)
    ensures Prefixed(a, Prefixed(b, d)) == Prefixed(a + b, d)
  {
    if d.Good? {
      assert a + (b + d.result) == a + b + d.result;
    }
  }
}
