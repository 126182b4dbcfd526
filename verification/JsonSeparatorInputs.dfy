/** Texts in which something else passes for a comma. */
module JsonSeparatorInputs {
  import opened Decimal
  import opened JsonValue
  import opened JsonText
  import opened JsonGrammar
  import opened JsonNumbers
  import opened JsonRoundTrip
  import opened JsonSeparators

  // ----- Single tokens -----

  lemma NoBlank(s: string)
    requires s != [] && !IsSpace(s[0])
    ensures SkipSpaces(s) == s
  {}

  lemma ClassifyPunctuation(c: char, u: string)
    requires PunctuationKind(c).Some?
    ensures Classify(c, u) == (PunctuationKind(c).value, u) && !IsSpace(c)
    ensures !PunctuationKind(c).value.CommentToken?
  {}

  lemma ClassifyDigit(d: nat, u: string)
    requires d < 10
    ensures Classify(DigitChar(d), u) == (NumberToken, ScanNumber(u)) && !IsSpace(DigitChar(d))
  {
    assert IsDigit(DigitChar(d));
    ClassifyNumber(DigitChar(d), u);
  }

  lemma ClassifyNumber(c: char, u: string)
    requires IsDigit(c)
    ensures Classify(c, u) == (NumberToken, ScanNumber(u)) && !IsSpace(c)
  {
    hide ScanNumber, ScanString, ScanComment, ScanWord;
  }

  lemma Punctuation(c: char, rest: string)
    requires PunctuationKind(c).Some?
    ensures ReadToken([c] + rest) == Lexed(Token(PunctuationKind(c).value, [c], 1 + |rest|), rest)
    ensures ReadPastComments([c] + rest) == ReadToken([c] + rest)
  {
    hide ReadToken, JsonGrammar.ReadPastComments, SkipSpaces, Classify, PunctuationKind, IsSpace;
    ClassifyPunctuation(c, rest);
    NoBlank([c] + rest);
    assert [c][1..] == [] && [] + rest == rest;
    TokenOf([c] + rest, [c], rest, PunctuationKind(c).value);
  }

  /** A number of one digit before something else. */
  lemma DigitToken(d: nat, rest: string)
    requires d < 10 && rest != [] && !IsNumberChar(rest[0])
    ensures ReadToken([DigitChar(d)] + rest) == Lexed(Token(NumberToken, [DigitChar(d)], 1 + |rest|), rest)
    ensures ReadPastComments([DigitChar(d)] + rest) == ReadToken([DigitChar(d)] + rest)
  {
    hide ScanNumber, ReadToken, JsonGrammar.ReadPastComments, SkipSpaces, Classify, DigitChar, IsSpace, IsNumberChar;
    var t := [DigitChar(d)];
    ClassifyDigit(d, rest);
    NoBlank(t + rest);
    assert t[1..] == [] && [] + rest == rest;
    ScanDigits([], rest);
    TokenOf(t + rest, t, rest, NumberToken);
  }

  lemma ReadDigit(cfg: Config, d: nat, rest: string, top: Value)
    requires d < 10 && rest != [] && !IsNumberChar(rest[0])
    ensures ReadValue(cfg, [DigitChar(d)] + rest, top) == Outcome(rest, Int(d), [])
  {
    hide ReadToken, JsonGrammar.ReadPastComments, DecodeNumber, IntText, DigitChar, IsNumberChar;
    DigitToken(d, rest);
    DigitText(d);
    DecodeIntText(cfg.lib, d);
  }

  lemma DigitText(d: nat)
    requires d < 10
    ensures IntText(d) == [DigitChar(d)]
  {}

  /** A blank in front changes nothing. */
  lemma Blank(cfg: Config, s: string, top: Value)
    ensures ReadToken(" " + s) == ReadToken(s) && ReadPastComments(" " + s) == ReadPastComments(s)
    ensures ReadValue(cfg, " " + s, top) == ReadValue(cfg, s, top)
  {
    hide Classify, DecodeNumber, DecodeString;
    assert (" " + s)[1..] == s;
    assert SkipSpaces(" " + s) == SkipSpaces(s);
  }

  // ----- Lists -----

  /** One turn of the loop. */
  lemma ItemRead(cfg: Config, s: string, items: seq<Value>, v: Value, rest: string)
    requires ReadValue(cfg, s, Null) == Outcome(rest, v, [])
    ensures var next := ReadPastComments(rest);
            ReadItems(cfg, s, items) ==
            if next.token.kind.ArrayEnd? then Outcome(next.rest, Arr(items + [v]), [])
            else ReadItems(cfg, next.rest, items + [v])
  {
    hide ReadValue, JsonGrammar.ReadPastComments;
  }

  /** The items of `[1 2 3]`. */
  lemma CommaFree(cfg: Config, rest: string)
    ensures ReadItems(cfg, "1 2 3]" + rest, []) == Outcome(rest, Arr([Int(1), Int(3)]), [])
    ensures !ItemsSeparated(cfg, "1 2 3]" + rest)
  {
    hide ReadValue, ReadItems, JsonGrammar.ReadPastComments, ReadToken, Separated;
    var after1, after2, after3 := " 2 3]" + rest, " 3]" + rest, "]" + rest;
    assert "1 2 3]" + rest == [DigitChar(1)] + after1;
    assert after1 == " " + ([DigitChar(2)] + after2) && after2 == " " + ([DigitChar(3)] + after3);
    ReadDigit(cfg, 1, after1, Null);
    Blank(cfg, [DigitChar(2)] + after2, Null);
    DigitToken(2, after2);
    Blank(cfg, [DigitChar(3)] + after3, Null);
    ReadDigit(cfg, 3, after3, Null);
    Punctuation(']', rest);
    ItemRead(cfg, "1 2 3]" + rest, [], Int(1), after1);
    ItemRead(cfg, after2, [Int(1)], Int(3), after3);
    assert [] + [Int(1)] == [Int(1)] && [Int(1)] + [Int(3)] == [Int(1), Int(3)];
  }

  /** An array whose text does not start with a blank or the closing bracket. */
  lemma Opened(cfg: Config, s: string, top: Value)
    requires s != [] && !IsSpace(s[0]) && s[0] != ']'
    ensures ReadValue(cfg, "[" + s, top) == ReadItems(cfg, s, [])
    ensures Separated(cfg, "[" + s, top) <==> ItemsSeparated(cfg, s)
  {
    hide ReadItems, ItemsSeparated, ReadToken, JsonGrammar.ReadPastComments;
    Punctuation('[', s);
    assert SkipSpaces(s) == s;
  }

  lemma ReadsList(cfg: Config, rest: string, top: Value)
    ensures ReadValue(cfg, "[1 2 3]" + rest, top) == Outcome(rest, Arr([Int(1), Int(3)]), [])
    ensures !Separated(cfg, "[1 2 3]" + rest, top)
  {
    hide ReadValue, ReadItems, Separated, ItemsSeparated;
    CommaFree(cfg, rest);
    assert "[1 2 3]" + rest == "[" + ("1 2 3]" + rest);
    Opened(cfg, "1 2 3]" + rest, top);
  }

  /** A document that ends with its value. */
  lemma Ended(cfg: Config, doc: string, root: Value, v: Value)
    requires ReadValue(cfg, doc, root) == Outcome([], v, []) && (v.Arr? || v.Obj?)
    ensures ParseDocument(cfg, doc, root) == Outcome([], v, [])
  {
    hide ReadValue, ReadToken, JsonGrammar.ReadPastComments;
    Nothing();
  }

  /** `[1 2 3]` is read without error, and its second number passes for a comma. */
  lemma NumberPassesForComma(cfg: Config, root: Value)
    ensures ParseDocument(cfg, "[1 2 3]", root) == Outcome([], Arr([Int(1), Int(3)]), [])
    ensures StrictDocument(cfg, "[1 2 3]", root).errors != []
  {
    hide ReadValue, Separated, ParseDocument, StrictDocument;
    ReadsList(cfg, "", root);
    assert "[1 2 3]" + "" == "[1 2 3]";
    Ended(cfg, "[1 2 3]", root, Arr([Int(1), Int(3)]));
    DocumentIff(cfg, "[1 2 3]", root);
  }

  /** The same in an array inside another. */
  lemma NestedPassesForComma(cfg: Config, root: Value)
    ensures ParseDocument(cfg, "[[1 2 3]]", root) == Outcome([], Arr([Arr([Int(1), Int(3)])]), [])
    ensures StrictDocument(cfg, "[[1 2 3]]", root).errors != []
  {
    hide ReadValue, ReadItems, Separated, ParseDocument, StrictDocument, ReadToken, JsonGrammar.ReadPastComments;
    var inner, v := "[1 2 3]" + "]", Arr([Int(1), Int(3)]);
    assert "[[1 2 3]]" == "[" + inner;
    ReadsList(cfg, "]", Null);
    Opened(cfg, inner, root);
    assert "]" + "" == "]";
    Punctuation(']', "");
    ItemRead(cfg, inner, [], v, "]");
    assert [] + [v] == [v];
    Ended(cfg, "[[1 2 3]]", root, Arr([v]));
    DocumentIff(cfg, "[[1 2 3]]", root);
  }

  // ----- An object -----

  lemma Name(key: string, rest: string, name: string)
    ensures ReadName(Quoted(key) + (":" + rest), name) == Next(key, rest)
  {
    hide ReadToken, JsonGrammar.ReadPastComments, DecodeString, Body, Escaped;
    var q, more := Quoted(key), ":" + rest;
    assert SkipSpaces(q + more) == q + more;
    assert q[1..] + more == Escaped(key) + "\"" + more;
    ScanQuoted(key, more);
    TokenOf(q + more, q, more, StringToken);
    QuotedBody(key);
    DecodeEscaped(key);
    Punctuation(':', rest);
  }

  lemma QuotedBody(key: string)
    ensures Body(Quoted(key)) == Escaped(key)
  {}

  /** A comment, and then a number in place of the comma. */
  lemma NumberBehindComment(rest: string, name: string)
    requires rest != [] && !IsNumberChar(rest[0])
    ensures ReadComma("/**/2" + rest, name) == Next(name, rest) && !CommaOrBrace("/**/2" + rest)
  {
    hide ReadToken, JsonGrammar.ReadPastComments, Recover;
    CommentToken("2" + rest);
    assert "/**/2" + rest == "/**/" + ("2" + rest);
    assert "2" + rest == [DigitChar(2)] + rest;
    DigitToken(2, rest);
  }

  lemma CommentToken(rest: string)
    ensures ReadToken("/**/" + rest).token.kind.CommentToken?
    ensures ReadPastComments("/**/" + rest) == ReadPastComments(rest)
  {
    var s := "/**/" + rest;
    assert s[1..] == "**/" + rest && s[1..][1..] == "*/" + rest && s[1..][1..][2..] == rest;
  }

  /** A member whose value is one digit. */
  lemma MemberRead(cfg: Config, key: CString, d: nat, rest: string, ms: seq<Member>, name: string)
    requires d < 10 && rest != [] && !IsNumberChar(rest[0])
    ensures var s := Quoted(key) + (":" + ([DigitChar(d)] + rest));
            ReadMembers(cfg, s, ms, name) == AfterMember(cfg, rest, Store(ms, key, Int(d)), key)
            && (MembersSeparated(cfg, s, ms, name) ==> AfterSeparated(cfg, rest, Store(ms, key, Int(d)), key))
  {
    hide ReadName, ReadValue, AfterMember, AfterSeparated, Separated, CStr, Store, Quoted, DigitChar;
    Name(key, [DigitChar(d)] + rest, name);
    CStrOfNulFree(key);
    ReadDigit(cfg, d, rest, Lookup(ms, key));
  }

  lemma LastMember(cfg: Config, ms: seq<Member>, name: string)
    ensures AfterMember(cfg, "}", ms, name) == Outcome([], Obj(ms), [])
  {
    hide ReadToken, JsonGrammar.ReadPastComments;
    assert "}" + "" == "}";
    Punctuation('}', "");
  }

  lemma Stored()
    ensures Store([], "a", Int(1)) == [Member("a", Int(1))]
    ensures Store([Member("a", Int(1))], "b", Int(3)) == [Member("a", Int(1)), Member("b", Int(3))]
  {
    var ms := [Member("a", Int(1))];
    assert ms[1..] == [];
    assert Store(ms, "b", Int(3)) == [ms[0]] + Store([], "b", Int(3));
  }

  const OBJECT := "{\"a\":1/**/2\"b\":3}"

  lemma ObjectRead(cfg: Config, top: Value)
    ensures ReadValue(cfg, OBJECT, top) == Outcome([], Obj([Member("a", Int(1)), Member("b", Int(3))]), [])
    ensures !Separated(cfg, OBJECT, top)
  {
    hide ReadMembers, AfterMember, MembersSeparated, AfterSeparated, Store, ReadToken, JsonGrammar.ReadPastComments;
    var second := Quoted("b") + (":" + ([DigitChar(3)] + "}"));
    var gap := "/**/2" + second;
    var first := Quoted("a") + (":" + ([DigitChar(1)] + gap));
    ObjectText();
    Punctuation('{', first);
    Stored();
    var ms := [Member("a", Int(1))];
    MemberRead(cfg, "a", 1, gap, [], []);
    Gap(cfg, second, ms, "a");
    MemberRead(cfg, "b", 3, "}", ms, "a");
    LastMember(cfg, ms + [Member("b", Int(3))], "b");
    assert ms + [Member("b", Int(3))] == [Member("a", Int(1)), Member("b", Int(3))];
  }

  lemma ObjectText()
    ensures var second := Quoted("b") + (":" + ([DigitChar(3)] + "}"));
            OBJECT == "{" + (Quoted("a") + (":" + ([DigitChar(1)] + ("/**/2" + second))))
    ensures Quoted("b")[0] == '"'
  {
    assert Escaped("a") == "a" && Escaped("b") == "b";
  }

  lemma Gap(cfg: Config, rest: string, ms: seq<Member>, name: string)
    requires rest != [] && !IsNumberChar(rest[0])
    ensures AfterMember(cfg, "/**/2" + rest, ms, name) == ReadMembers(cfg, rest, ms, name)
    ensures !AfterSeparated(cfg, "/**/2" + rest, ms, name)
  {
    hide ReadComma, CommaOrBrace, ReadMembers;
    NumberBehindComment(rest, name);
  }

  /** Behind a member and a comment a number passes for a comma. */
  lemma MemberPassesForComma(cfg: Config, root: Value)
    ensures ParseDocument(cfg, "{\"a\":1/**/2\"b\":3}", root) ==
            Outcome([], Obj([Member("a", Int(1)), Member("b", Int(3))]), [])
    ensures StrictDocument(cfg, "{\"a\":1/**/2\"b\":3}", root).errors != []
  {
    hide ReadValue, Separated, ParseDocument, StrictDocument;
    ObjectRead(cfg, root);
    Ended(cfg, OBJECT, root, Obj([Member("a", Int(1)), Member("b", Int(3))]));
    DocumentIff(cfg, OBJECT, root);
  }
}
