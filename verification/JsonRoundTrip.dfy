/** Reading undoes writing: every spacing of a value's tokens is read back as that value. */
module JsonRoundTrip {
  import opened Basics
  import opened Decimal
  import opened JsonValue
  import opened JsonText
  import opened JsonGrammar
  import opened JsonNumbers

  // ----- One token ahead -----

  lemma {:induction false} Ahead(s: string, toks: seq<string>) returns (rest: string)
    requires Spaced(s, toks)
    ensures toks == [] ==> SkipSpaces(s) == []
    ensures toks != [] ==> SkipSpaces(s) == toks[0] + rest && Spaced(rest, toks[1..])
    decreases |s|
  {
    if s != [] && IsSpace(s[0]) {
      rest := Ahead(s[1..], toks);
    } else if toks != [] {
      rest := s[|toks[0]|..];
    } else {
      rest := [];
    }
  }

  /** A token is read as soon as its first character classifies it. */
  lemma TokenOf(s: string, t: string, rest: string, kind: TokenKind)
    requires SkipSpaces(s) == t + rest && t != []
    requires Classify(t[0], t[1..] + rest) == (kind, rest) && !kind.CommentToken?
    ensures ReadToken(s) == Lexed(Token(kind, t, |t| + |rest|), rest)
    ensures ReadPastComments(s) == ReadToken(s)
  {
    hide Classify, SkipSpaces;
    var whole := t + rest;
    assert whole[1..] == t[1..] + rest;
    assert whole[..|t|] == t;
  }

  function PunctuationKind(c: char): Option<TokenKind> {
    if c == '{' then Some(ObjectBegin) else if c == '}' then Some(ObjectEnd)
    else if c == '[' then Some(ArrayBegin) else if c == ']' then Some(ArrayEnd)
    else if c == ',' then Some(Separator) else if c == ':' then Some(MemberSeparator)
    else None
  }

  lemma ReadPunctuation(s: string, c: char, q: seq<string>) returns (rest: string)
    requires Spaced(s, [[c]] + q) && PunctuationKind(c).Some?
    ensures ReadToken(s).token.kind == PunctuationKind(c).value
    ensures ReadToken(s).rest == rest && ReadPastComments(s) == ReadToken(s)
    ensures Spaced(rest, q)
  {
    rest := Ahead(s, [[c]] + q);
    assert ([[c]] + q)[1..] == q;
    assert [c][1..] + rest == rest;
    TokenOf(s, [c], rest, PunctuationKind(c).value);
  }

  // ----- Strings -----

  lemma ScanEscape(c: char, t: string)
    ensures ScanString(EscapeChar(c) + t) == ScanString(t)
  {
    var e := EscapeChar(c);
    if |e| == 1 {
      assert (e + t)[1..] == t;
    } else if |e| == 2 {
      assert (e + t)[2..] == t;
    } else {
      assert (e + t)[2..] == e[2..] + t;
      ScanPlain(e[2..], t);
    }
  }

  lemma {:induction false} ScanPlain(p: string, t: string)
    requires forall i :: 0 <= i < |p| ==> p[i] != '"' && p[i] != '\\'
    ensures ScanString(p + t) == ScanString(t)
  {
    if p == [] {
      assert p + t == t;
    } else {
      assert (p + t)[1..] == p[1..] + t;
      ScanPlain(p[1..], t);
    }
  }

  /** The tokenizer stops exactly behind the closing quote, whatever follows it. */
  lemma {:induction false} ScanQuoted(s: string, t: string)
    ensures ScanString(Escaped(s) + "\"" + t) == Scan(true, t)
  {
    if s == [] {
      assert Escaped(s) + "\"" + t == "\"" + t;
      assert ("\"" + t)[1..] == t;
    } else {
      var e := EscapeChar(s[0]);
      assert Escaped(s) + "\"" + t == e + (Escaped(s[1..]) + "\"" + t);
      ScanEscape(s[0], Escaped(s[1..]) + "\"" + t);
      ScanQuoted(s[1..], t);
    }
  }

  lemma HexDigitValue(d: nat)
    requires d < 16
    ensures HexValue(HexDigit(d)) == Some(d)
  {}

  /** Four digits, in either case of the letters, denote the number they spell. */
  lemma HexRun4(s: string, a: nat, b: nat, c: nat, d: nat)
    requires |s| >= 4
    requires HexValue(s[0]) == Some(a) && HexValue(s[1]) == Some(b)
    requires HexValue(s[2]) == Some(c) && HexValue(s[3]) == Some(d)
    ensures DecodeHex4(s) == Good(((a * 16 + b) * 16 + c) * 16 + d)
  {
    hide HexValue;
    var n3 := (a * 16 + b) * 16 + c;
    assert s[1..][1..] == s[2..] && s[2..][1..] == s[3..];
    assert HexRun(s[3..], 1, n3) == HexRun(s[3..][1..], 0, n3 * 16 + d);
    assert HexRun(s[2..], 2, a * 16 + b) == HexRun(s[3..], 1, n3);
    assert HexRun(s[1..], 3, a) == HexRun(s[2..], 2, a * 16 + b);
    assert HexRun(s, 4, 0) == HexRun(s[1..], 3, a);
  }

  lemma DecodeHexDigits(n: nat, t: string)
    requires n < 0x10000
    ensures DecodeHex4(UnicodeEscape(n)[2..] + t) == Good(n)
  {
    var a, b, c, d := n / 4096, n / 256 % 16, n / 16 % 16, n % 16;
    HexDigitValue(a); HexDigitValue(b); HexDigitValue(c); HexDigitValue(d);
    HexSplit(n);
    hide DecodeHex4, HexValue, HexDigit;
    HexRun4(UnicodeEscape(n)[2..] + t, a, b, c, d);
  }

  lemma HexSplit(n: nat)
    ensures ((n / 4096 * 16 + n / 256 % 16) * 16 + n / 16 % 16) * 16 + n % 16 == n
  {
    assert n / 256 == n / 4096 * 16 + n / 256 % 16 by { assert n / 256 / 16 == n / 4096; }
    assert n / 16 == n / 256 * 16 + n / 16 % 16 by { assert n / 16 / 16 == n / 256; }
  }

  lemma DecodeEscape(c: char, t: string)
    ensures EscapeChar(c)[0] != '"' && DecodeUnit(EscapeChar(c) + t) == Good(Unit([c], |EscapeChar(c)|))
  {
    var e := EscapeChar(c);
    if |e| > 2 {
      var n := c as int;
      assert (e + t)[2..] == UnicodeEscape(n)[2..] + t;
      DecodeHexDigits(n, t);
    }
  }

  /** Decoding undoes escaping. */
  lemma {:induction false} DecodeEscaped(s: string)
    ensures DecodeString(Escaped(s)) == Good(s)
  {
    if s != [] {
      var e := EscapeChar(s[0]);
      DecodeEscape(s[0], Escaped(s[1..]));
      DecodeEscaped(s[1..]);
      assert (e + Escaped(s[1..]))[|e|..] == Escaped(s[1..]);
      assert s == [s[0]] + s[1..];
    }
  }

  lemma ReadQuoted(s: string, key: string, q: seq<string>) returns (rest: string)
    requires Spaced(s, [Quoted(key)] + q)
    ensures ReadToken(s).token.kind == StringToken && ReadToken(s).rest == rest
    ensures ReadPastComments(s) == ReadToken(s)
    ensures DecodeString(Body(ReadToken(s).token.text)) == Good(key)
    ensures Spaced(rest, q)
  {
    rest := Ahead(s, [Quoted(key)] + q);
    assert ([Quoted(key)] + q)[1..] == q;
    assert Quoted(key)[1..] + rest == Escaped(key) + "\"" + rest;
    ScanQuoted(key, rest);
    TokenOf(s, Quoted(key), rest, StringToken);
    assert Body(Quoted(key)) == Escaped(key);
    DecodeEscaped(key);
  }

  // ----- Numbers -----

  lemma {:induction false} ScanDigits(t: string, rest: string)
    requires forall i :: 0 <= i < |t| ==> IsNumberChar(t[i])
    requires rest == [] || !IsNumberChar(rest[0])
    ensures ScanNumber(t + rest) == rest
  {
    if t == [] {
      assert t + rest == rest;
    } else {
      assert (t + rest)[1..] == t[1..] + rest;
      ScanDigits(t[1..], rest);
    }
  }

  lemma NumeralPlain(n: nat)
    ensures forall i :: 0 <= i < |Numeral(n)| ==> IsNumberChar(Numeral(n)[i])
  {
    var t := Numeral(n);
    forall i | 0 <= i < |t| ensures IsDigit(t[i]) {}
  }

  /** The tokens that may follow a value. */
  ghost predicate Follows(q: seq<string>) {
    q == [] || q[0] == "," || q[0] == "]" || q[0] == "}"
  }

  lemma SpacedHead(s: string, q: seq<string>)
    requires Spaced(s, q) && Follows(q)
    ensures s == [] || !IsNumberChar(s[0])
  {}

  lemma ReadNumber(s: string, t: string, q: seq<string>) returns (rest: string)
    requires Spaced(s, [t] + q) && NumberShaped(t) && Follows(q)
    ensures ReadToken(s).token.kind == NumberToken && ReadToken(s).token.text == t
    ensures ReadToken(s).rest == rest && ReadPastComments(s) == ReadToken(s)
    ensures Spaced(rest, q)
  {
    hide ReadToken, JsonGrammar.ReadPastComments, Spaced, SkipSpaces, ScanNumber;
    rest := Ahead(s, [t] + q);
    assert ([t] + q)[1..] == q;
    SpacedHead(rest, q);
    ScanDigits(t[1..], rest);
    TokenOf(s, t, rest, NumberToken);
  }

  lemma IntTextShaped(i: int)
    ensures NumberShaped(IntText(i))
  {
    NumeralPlain(if i < 0 then -i else i);
  }

  lemma ReadWord(s: string, w: string, q: seq<string>) returns (rest: string)
    requires Spaced(s, [w] + q) && (w == "null" || w == "true" || w == "false")
    ensures ReadToken(s).rest == rest && ReadPastComments(s) == ReadToken(s)
    ensures ReadToken(s).token.kind ==
            if w == "null" then NullToken else if w == "true" then TrueToken else FalseToken
    ensures Spaced(rest, q)
  {
    rest := Ahead(s, [w] + q);
    assert ([w] + q)[1..] == q;
    assert "null"[1..] == "ull" && "true"[1..] == "rue" && "false"[1..] == "alse";
    assert (w[1..] + rest)[|w| - 1..] == rest;
    TokenOf(s, w, rest, if w == "null" then NullToken else if w == "true" then TrueToken else FalseToken);
  }

  // ----- Values -----

  /** The value the reader gives back: an unsigned integer that fits `Int` returns as one. */
  function Restored(v: Value): Value
    decreases v
  {
    match v
    case UInt(u) => if u < TWO63 then Int(u) else v
    case Arr(items) => Arr(RestoredItems(items))
    case Obj(ms) => Obj(RestoredMembers(ms))
    case _ => v
  }

  function RestoredItems(items: seq<Value>): seq<Value>
    decreases items
  {
    if items == [] then [] else [Restored(items[0])] + RestoredItems(items[1..])
  }

  function RestoredMembers(ms: seq<Member>): seq<Member>
    decreases ms
  {
    if ms == [] then []
    else [Member(ms[0].key, Restored(ms[0].value))] + RestoredMembers(ms[1..])
  }

  /** Every real number in the tree survives the C library. */
  ghost predicate ExactReals(lib: Libc, v: Value)
    decreases v
  {
    match v
    case Real(d) => ExactReal(lib, d)
    case Arr(items) => forall x :: x in items ==> ExactReals(lib, x)
    case Obj(ms) => forall m :: m in ms ==> ExactReals(lib, m.value)
    case _ => true
  }

  lemma {:induction false} StoreLast(ms: seq<Member>, key: CString, v: Value)
    requires forall i :: 0 <= i < |ms| ==> KeyLess(ms[i].key, key)
    ensures Store(ms, key, v) == ms + [Member(key, v)]
  {
    if ms != [] {
      StoreLast(ms[1..], key, v);
      KeyLessIrreflexive(key);
      if KeyLess(key, ms[0].key) {
        KeyLessTransitive(key, ms[0].key, key);
      }
      assert ms == [ms[0]] + ms[1..];
    }
  }

  lemma ReadsNumber(cfg: Config, s: string, t: string, v: Value, q: seq<string>, top: Value) returns (rest: string)
    requires Spaced(s, [t] + q) && NumberShaped(t) && Follows(q)
    requires DecodeNumber(cfg.lib, t) == Good(v)
    ensures ReadValue(cfg, s, top) == Outcome(rest, v, [])
    ensures Spaced(rest, q)
  {
    hide ReadToken, JsonGrammar.ReadPastComments, Spaced, DecodeNumber;
    rest := ReadNumber(s, t, q);
  }

  lemma ExactDecodes(lib: Libc, d: real)
    requires ExactReal(lib, d)
    ensures NumberShaped(lib.show(d)) && DecodeNumber(lib, lib.show(d)) == Good(Real(d))
  {}

  lemma ReadsScalar(cfg: Config, v: Value, s: string, q: seq<string>, top: Value) returns (rest: string)
    requires !v.Arr? && !v.Obj? && ExactReals(cfg.lib, v)
    requires Spaced(s, Tokens(cfg.lib, v) + q) && Follows(q)
    ensures ReadValue(cfg, s, top) == Outcome(rest, Restored(v), [])
    ensures Spaced(rest, q)
  {
    hide ReadToken, JsonGrammar.ReadPastComments, Spaced, DecodeNumber, DecodeString, Body, IntText, CStr;
    match v
    case Null => rest := ReadWord(s, "null", q);
    case Bool(b) => rest := ReadWord(s, if b then "true" else "false", q);
    case Int(i) =>
      IntTextShaped(i);
      DecodeIntText(cfg.lib, i);
      rest := ReadsNumber(cfg, s, IntText(i), v, q, top);
    case UInt(u) =>
      IntTextShaped(u);
      DecodeIntText(cfg.lib, u);
      rest := ReadsNumber(cfg, s, IntText(u), Restored(v), q, top);
    case Real(d) =>
      ExactDecodes(cfg.lib, d);
      rest := ReadsNumber(cfg, s, cfg.lib.show(d), v, q, top);
    case Str(t) =>
      rest := ReadQuoted(s, t, q);
      CStrOfNulFree(t);
  }

  /** The heart of the round trip: any spacing of a value's tokens is read as that value. */
  lemma {:induction false} ReadsBack(cfg: Config, v: Value, s: string, q: seq<string>, top: Value)
    returns (rest: string)
    requires WellFormed(v) && ExactReals(cfg.lib, v)
    requires Spaced(s, Tokens(cfg.lib, v) + q) && Follows(q)
    ensures ReadValue(cfg, s, top) == Outcome(rest, Restored(v), [])
    ensures Spaced(rest, q)
    decreases v, 0
  {
    hide ReadToken, JsonGrammar.ReadPastComments, Spaced, ReadItems, ReadMembers;
    match v
    case Arr(items) =>
      var inner := ItemTokens(cfg.lib, items) + ["]"] + q;
      assert Tokens(cfg.lib, v) + q == [['[']] + inner;
      var s' := ReadPunctuation(s, '[', inner);
      rest := ReadsArray(cfg, items, s', q);
    case Obj(ms) =>
      var inner := MemberTokens(cfg.lib, ms) + ["}"] + q;
      assert Tokens(cfg.lib, v) + q == [['{']] + inner;
      var s' := ReadPunctuation(s, '{', inner);
      rest := ReadsObject(cfg, ms, s', q);
    case _ => rest := ReadsScalar(cfg, v, s, q, top);
  }

  lemma {:induction false} ReadsObject(cfg: Config, ms: seq<Member>, s: string, q: seq<string>)
    returns (rest: string)
    requires Sorted(ms) && forall m :: m in ms ==> WellFormed(m.value) && ExactReals(cfg.lib, m.value)
    requires Spaced(s, MemberTokens(cfg.lib, ms) + ["}"] + q)
    ensures ReadMembers(cfg, s, [], []) == Outcome(rest, Obj(RestoredMembers(ms)), [])
    ensures Spaced(rest, q)
    decreases ms, 2
  {
    if ms == [] {
      assert MemberTokens(cfg.lib, ms) + ["}"] + q == [['}']] + q;
      rest := ReadPunctuation(s, '}', q);
    } else {
      rest := ReadsMembers(cfg, ms, s, q, [], []);
      assert [] + RestoredMembers(ms) == RestoredMembers(ms);
    }
  }

  lemma {:induction false} ReadsArray(cfg: Config, items: seq<Value>, s: string, q: seq<string>)
    returns (rest: string)
    requires forall x :: x in items ==> WellFormed(x) && ExactReals(cfg.lib, x)
    requires Spaced(s, ItemTokens(cfg.lib, items) + ["]"] + q)
    ensures ReadArray(cfg, s) == Outcome(rest, Arr(RestoredItems(items)), [])
    ensures Spaced(rest, q)
    decreases items, 2
  {
    var toks := ItemTokens(cfg.lib, items) + ["]"] + q;
    var after := Ahead(s, toks);
    if items == [] {
      assert toks == ["]"] + q;
      assert toks[1..] == q;
      assert ("]" + after)[1..] == after;
      rest := after;
    } else {
      var t := SkipSpaces(s);
      FirstToken(cfg.lib, items[0]);
      assert toks[0] == Tokens(cfg.lib, items[0])[0];
      SkipKeepsSpaced(s, toks);
      rest := ReadsItems(cfg, items, t, q, []);
      assert [] + RestoredItems(items) == RestoredItems(items);
    }
  }

  lemma {:induction false} SkipKeepsSpaced(s: string, toks: seq<string>)
    requires Spaced(s, toks)
    ensures Spaced(SkipSpaces(s), toks)
  {
    if s != [] && IsSpace(s[0]) {
      SkipKeepsSpaced(s[1..], toks);
    }
  }

  /** A value never starts with a closing bracket. */
  lemma FirstToken(lib: Libc, v: Value)
    requires ExactReals(lib, v)
    ensures Tokens(lib, v) != [] && Tokens(lib, v)[0] != [] && Tokens(lib, v)[0][0] != ']'
  {
    match v
    case Int(i) => IntTextShaped(i);
    case UInt(u) => IntTextShaped(u);
    case _ =>
  }

  /** The tokens of an array split behind its first item. */
  lemma ItemTokensSplit(lib: Libc, items: seq<Value>, q: seq<string>)
    requires items != []
    ensures ItemTokens(lib, items) + ["]"] + q == Tokens(lib, items[0]) + ItemTail(lib, items[1..], q)
  {
    hide Tokens;
    var first := Tokens(lib, items[0]);
    if |items| == 1 {
      Regroup(first, ["]"], q);
    } else {
      var more := ItemTokens(lib, items[1..]);
      Regroup(first, [","], more);
      Regroup(first, [","] + more, ["]"]);
      Regroup(first, [","] + more + ["]"], q);
      Regroup([","], more, ["]"]);
      Regroup([","], more + ["]"], q);
    }
  }

  ghost function ItemTail(lib: Libc, more: seq<Value>, q: seq<string>): seq<string> {
    if more == [] then [[']']] + q else [[',']] + (ItemTokens(lib, more) + ["]"] + q)
  }

  lemma {:induction false} ReadsItems(cfg: Config, items: seq<Value>, s: string, q: seq<string>, done: seq<Value>)
    returns (rest: string)
    requires items != [] && forall x :: x in items ==> WellFormed(x) && ExactReals(cfg.lib, x)
    requires Spaced(s, ItemTokens(cfg.lib, items) + ["]"] + q)
    ensures ReadItems(cfg, s, done) == Outcome(rest, Arr(done + RestoredItems(items)), [])
    ensures Spaced(rest, q)
    decreases items, 1
  {
    hide ReadToken, JsonGrammar.ReadPastComments, ReadValue, WellFormed, ExactReals, Spaced, Tokens, ItemTokens;
    hide Restored;
    var v, more := items[0], items[1..];
    var w := Restored(v);
    ItemTokensSplit(cfg.lib, items, q);
    var s' := ReadsBack(cfg, v, s, ItemTail(cfg.lib, more, q), Null);
    if more == [] {
      rest := ReadPunctuation(s', ']', q);
      assert RestoredItems(items) == [w];
    } else {
      var s'' := ReadPunctuation(s', ',', ItemTokens(cfg.lib, more) + ["]"] + q);
      rest := ReadsItems(cfg, more, s'', q, done + [w]);
      Regroup(done, [w], RestoredItems(more));
    }
  }

  /** What follows the value of a member when `more` members remain. */
  ghost function MemberTail(lib: Libc, more: seq<Member>, q: seq<string>): seq<string> {
    if more == [] then [['}']] + q else [[',']] + (MemberTokens(lib, more) + ["}"] + q)
  }

  lemma MemberTokensSplit(lib: Libc, ms: seq<Member>, q: seq<string>)
    requires ms != []
    ensures MemberTokens(lib, ms) + ["}"] + q ==
            [Quoted(ms[0].key), ":"] + Tokens(lib, ms[0].value) + MemberTail(lib, ms[1..], q)
  {
    var first := [Quoted(ms[0].key), ":"] + Tokens(lib, ms[0].value);
    Regroup(first, ["}"], q);
    if |ms| > 1 {
      var more := MemberTokens(lib, ms[1..]);
      Regroup(first + [","], more, ["}"]);
      Regroup(first + [","], more + ["}"], q);
      Regroup(first, [","], more + ["}"] + q);
    }
  }

  /** `ms` may still be read into an object that holds `done`. */
  ghost predicate Readable(lib: Libc, done: seq<Member>, ms: seq<Member>) {
    && Sorted(ms)
    && (forall m :: m in ms ==> WellFormed(m.value) && ExactReals(lib, m.value))
    && forall i, j :: 0 <= i < |done| && 0 <= j < |ms| ==> KeyLess(done[i].key, ms[j].key)
  }

  lemma ReadableStep(lib: Libc, done: seq<Member>, ms: seq<Member>, next: Member)
    requires ms != [] && Readable(lib, done, ms) && next.key == ms[0].key
    ensures Readable(lib, done + [next], ms[1..])
  {
    forall m | m in ms[1..] ensures m in ms {}
  }

  /** One member: name, colon, value. */
  lemma MemberStep(cfg: Config, s: string, done: seq<Member>, name: string,
                   key: CString, s1: string, s2: string, s3: string, w: Value)
    requires ReadPastComments(s).token.kind.StringToken? && ReadPastComments(s).rest == s1
    requires DecodeString(Body(ReadPastComments(s).token.text)) == Good(key)
    requires ReadToken(s1).token.kind.MemberSeparator? && ReadToken(s1).rest == s2
    requires ReadValue(cfg, s2, Lookup(done, key)) == Outcome(s3, w, [])
    ensures ReadMembers(cfg, s, done, name) == AfterMember(cfg, s3, Store(done, key, w), key)
  {
    CStrOfNulFree(key);
  }

  lemma {:induction false} ReadsMembers(cfg: Config, ms: seq<Member>, s: string, q: seq<string>,
                                        done: seq<Member>, name: string)
    returns (rest: string)
    requires ms != [] && Readable(cfg.lib, done, ms)
    requires Spaced(s, MemberTokens(cfg.lib, ms) + ["}"] + q)
    ensures ReadMembers(cfg, s, done, name) == Outcome(rest, Obj(done + RestoredMembers(ms)), [])
    ensures Spaced(rest, q)
    decreases ms, 1
  {
    var m, more := ms[0], ms[1..];
    var next := Member(m.key, Restored(m.value));
    MemberTokensSplit(cfg.lib, ms, q);
    var s' := ReadsMember(cfg, m, s, MemberTail(cfg.lib, more, q), done, name);
    ReadableStep(cfg.lib, done, ms, next);
    rest := ReadsAfterMember(cfg, more, s', q, done + [next], m.key);
    Regroup(done, [next], RestoredMembers(more));
  }

  lemma {:induction false} ReadsMember(cfg: Config, m: Member, s: string, q: seq<string>,
                                       done: seq<Member>, name: string)
    returns (rest: string)
    requires WellFormed(m.value) && ExactReals(cfg.lib, m.value) && Follows(q)
    requires forall i :: 0 <= i < |done| ==> KeyLess(done[i].key, m.key)
    requires Spaced(s, [Quoted(m.key), ":"] + Tokens(cfg.lib, m.value) + q)
    ensures ReadMembers(cfg, s, done, name) ==
            AfterMember(cfg, rest, done + [Member(m.key, Restored(m.value))], m.key)
    ensures Spaced(rest, q)
    decreases m, 1
  {
    var value := Tokens(cfg.lib, m.value) + q;
    assert [Quoted(m.key), ":"] + Tokens(cfg.lib, m.value) + q == [Quoted(m.key)] + ([[':']] + value);
    var s1 := ReadQuoted(s, m.key, [[':']] + value);
    var s2 := ReadPunctuation(s1, ':', value);
    rest := ReadsBack(cfg, m.value, s2, q, Lookup(done, m.key));
    MemberStep(cfg, s, done, name, m.key, s1, s2, rest, Restored(m.value));
    StoreLast(done, m.key, Restored(m.value));
  }

  lemma {:induction false} ReadsAfterMember(cfg: Config, more: seq<Member>, s: string, q: seq<string>,
                                            done: seq<Member>, name: string)
    returns (rest: string)
    requires Readable(cfg.lib, done, more)
    requires Spaced(s, MemberTail(cfg.lib, more, q))
    ensures AfterMember(cfg, s, done, name) == Outcome(rest, Obj(done + RestoredMembers(more)), [])
    ensures Spaced(rest, q)
    decreases more, 2
  {
    hide ReadToken, ReadMembers, Readable;
    if more == [] {
      rest := ReadPunctuation(s, '}', q);
      assert done + RestoredMembers(more) == done;
    } else {
      var s' := ReadPunctuation(s, ',', MemberTokens(cfg.lib, more) + ["}"] + q);
      rest := ReadsMembers(cfg, more, s', q, done, name);
    }
  }

  /** The one error a correct document can meet: a scalar root where the root must be a container. */
  function RootErrors(cfg: Config, v: Value, doc: string): seq<Error> {
    if cfg.strictRoot && !v.Arr? && !v.Obj? && !v.Null? then [Error(BadRoot, |doc|)] else []
  }

  /** Every spacing of a value's tokens parses to that value. */
  lemma ParseSpaced(cfg: Config, v: Value, doc: string, root: Value)
    requires WellFormed(v) && ExactReals(cfg.lib, v)
    requires Spaced(doc, Tokens(cfg.lib, v))
    ensures ParseDocument(cfg, doc, root) == Outcome([], Restored(v), RootErrors(cfg, v, doc))
  {
    hide ReadValue, Tokens, ExactReals, WellFormed;
    assert Tokens(cfg.lib, v) + [] == Tokens(cfg.lib, v);
    var rest := ReadsBack(cfg, v, doc, [], root);
    var _ := Ahead(rest, []);
  }
}
