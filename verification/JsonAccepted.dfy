/** A text the reader accepts means the value it returns (json_reader.cpp:121-212, 449-548). */
module JsonAccepted {
  import opened Basics
  import opened JsonValue
  import opened JsonText
  import opened JsonGrammar
  import opened JsonReader
  import opened JsonSeparators
  import opened JsonDenotes
  import opened JsonTokenShape

  /** A gap and a lexeme. */
  lemma GapLex(gap: string, parts: seq<Part>, text: string)
    requires Laid(gap, parts, [])
    ensures Laid(gap + text, parts + [Lex(text)], [text])
  {
    hide Laid;
    LaidLex(text);
    LaidAppend(gap, parts, [], text, [Lex(text)], [text]);
    assert [] + [text] == [text];
  }

  /** A value, its text and what is left. */
  ghost predicate Sound(cfg: Config, s: string, r: Outcome, t: Tree, used: string, parts: seq<Part>) {
    && Conforms(cfg.lib, t) && Laid(used, parts, Lexemes(t))
    && s == used + r.rest && r.value == ValueOfTree(t)
  }

  /** The token a value starts with. */
  lemma FirstRead(cfg: Config, s: string) returns (gap: string, parts: seq<Part>)
    ensures var lx := if cfg.allowComments then ReadPastComments(s) else ReadToken(s);
            s == gap + lx.token.text + lx.rest && Laid(gap, parts, []) && Shape(lx.token.kind, lx.token.text, lx.rest)
  {
    hide ReadToken, ReadPastComments, Shape, Laid;
    if cfg.allowComments {
      gap, parts := PastRead(s);
    } else {
      gap, parts := TokenRead(s);
    }
  }

  lemma {:induction false} ValueSound(cfg: Config, s: string, top: Value)
    returns (t: Tree, used: string, parts: seq<Part>)
    requires ReadValue(cfg, s, top).errors == []
    ensures Sound(cfg, s, ReadValue(cfg, s, top), t, used, parts)
    decreases |s|, 0
  {
    hide ReadToken, ReadPastComments, ReadMembers, ReadArray, DecodeNumber, DecodeString, Body, CStr, Laid, Sound;
    var gap, front := FirstRead(cfg, s);
    var lx := if cfg.allowComments then ReadPastComments(s) else ReadToken(s);
    var text := lx.token.text;
    used, parts := gap + text, front + [Lex(text)];
    GapLex(gap, front, text);
    match lx.token.kind {
      case ObjectBegin =>
        var fields, marks, more, rest := FieldsSound(cfg, lx.rest, [], []);
        t := Record(fields, marks);
        used, parts := used + more, parts + rest;
        Wrap(cfg, s, gap, front, text, lx.rest, ReadMembers(cfg, lx.rest, [], []), t, more, rest);
      case ArrayBegin =>
        var items, seps, more, rest := ArraySound(cfg, lx.rest);
        t := List(items, seps);
        used, parts := used + more, parts + rest;
        Wrap(cfg, s, gap, front, text, lx.rest, ReadArray(cfg, lx.rest), t, more, rest);
      case NumberToken =>
        NumberRead(cfg.lib, text);
        t := Number(text, DecodeNumber(cfg.lib, text).result);
        ScalarSound(cfg, s, ReadValue(cfg, s, top), t, used, parts);
      case StringToken =>
        var ps := StringPieces(text);
        t := Quote(ps);
        ScalarSound(cfg, s, ReadValue(cfg, s, top), t, used, parts);
      case _ =>
        t := Word(text);
        ScalarSound(cfg, s, ReadValue(cfg, s, top), t, used, parts);
    }
  }

  lemma ScalarSound(cfg: Config, s: string, r: Outcome, t: Tree, used: string, parts: seq<Part>)
    requires !t.List? && !t.Record? && Conforms(cfg.lib, t) && Laid(used, parts, Lexemes(t))
    requires s == used + r.rest && r.value == ValueOfTree(t)
    ensures Sound(cfg, s, r, t, used, parts)
  {}

  /** The body of an array or object behind its opening bracket. */
  ghost predicate BodySound(cfg: Config, s: string, r: Outcome, t: Tree, more: string, rest: seq<Part>) {
    && (t.List? || t.Record?) && Conforms(cfg.lib, t)
    && Laid(more, rest, Lexemes(t)[1..]) && s == more + r.rest && r.value == ValueOfTree(t)
  }

  lemma Wrap(cfg: Config, s: string, gap: string, front: seq<Part>, open: string, tail: string, r: Outcome, t: Tree,
             more: string, rest: seq<Part>)
    requires Laid(gap + open, front + [Lex(open)], [open]) && s == gap + open + tail
    requires BodySound(cfg, tail, r, t, more, rest) && open == (if t.List? then "[" else "{")
    ensures Sound(cfg, s, r, t, gap + open + more, front + [Lex(open)] + rest)
  {
    hide Laid, Conforms, ValueOfTree, ItemLexemes, FieldLexemes;
    LaidAppend(gap + open, front + [Lex(open)], [open], more, rest, Lexemes(t)[1..]);
    assert [open] + Lexemes(t)[1..] == Lexemes(t);
    Regroup(gap + open, more, r.rest);
  }

  // ----- Arrays -----

  lemma {:induction false} ArraySound(cfg: Config, s: string)
    returns (items: seq<Tree>, seps: seq<string>, used: string, parts: seq<Part>)
    requires ReadArray(cfg, s).errors == []
    ensures BodySound(cfg, s, ReadArray(cfg, s), List(items, seps), used, parts)
    decreases |s|, 2
  {
    hide ReadItems, Laid, SkipSpaces;
    var gap, front := JsonTokenShape.Blanks(s);
    var t := SkipSpaces(s);
    if t != [] && t[0] == ']' {
      items, seps, used, parts := [], [], gap + "]", front + [Lex("]")];
      GapLex(gap, front, "]");
      EmptyList();
      assert t == "]" + t[1..];
      Regroup(gap, "]", t[1..]);
    } else {
      var more, rest;
      items, seps, more, rest := ItemsSound(cfg, t, []);
      used, parts := gap + more, front + rest;
      ListBody(cfg, s, gap, front, t, items, seps, more, rest, ReadItems(cfg, t, []));
    }
  }

  lemma EmptyList()
    ensures Lexemes(List([], []))[1..] == ["]"]
  {}

  lemma ListBody(cfg: Config, s: string, gap: string, front: seq<Part>, t: string, items: seq<Tree>,
                 seps: seq<string>, more: string, rest: seq<Part>, r: Outcome)
    requires s == gap + t && Laid(gap, front, []) && t == more + r.rest
    requires ItemsConform(cfg.lib, items, seps) && Laid(more, rest, ItemLexemes(items, seps) + ["]"])
    requires r.value == Arr([] + ItemValues(items))
    ensures BodySound(cfg, s, r, List(items, seps), gap + more, front + rest)
  {
    hide Laid, ItemsConform, ItemLexemes, ItemValues;
    LaidAppend(gap, front, [], more, rest, ItemLexemes(items, seps) + ["]"]);
    assert [] + (ItemLexemes(items, seps) + ["]"]) == ItemLexemes(items, seps) + ["]"];
    assert Lexemes(List(items, seps))[1..] == ItemLexemes(items, seps) + ["]"];
    assert [] + ItemValues(items) == ItemValues(items);
    Regroup(gap, more, r.rest);
  }

  /** What passes for a separator. */
  lemma Passing(kind: TokenKind, text: string, rest: string)
    requires Shape(kind, text, rest) && !kind.CommentToken? && rest != []
    ensures IsAnything(text)
    ensures !kind.ArrayEnd? ==> text != "]"
    ensures !kind.ObjectEnd? ==> text != "}"
  {}

  lemma {:induction false} ItemsSound(cfg: Config, s: string, done: seq<Value>)
    returns (items: seq<Tree>, seps: seq<string>, used: string, parts: seq<Part>)
    requires ReadItems(cfg, s, done).errors == []
    ensures items != [] && ItemsConform(cfg.lib, items, seps)
    ensures Laid(used, parts, ItemLexemes(items, seps) + ["]"]) && s == used + ReadItems(cfg, s, done).rest
    ensures ReadItems(cfg, s, done).value == Arr(done + ItemValues(items))
    decreases |s|, 1
  {
    hide ReadValue, ReadPastComments, Recover, Laid, Conforms, Lexemes, ValueOfTree, IsAnything;
    var r := ReadValue(cfg, s, Null);
    var t, first, p := ValueSound(cfg, s, Null);
    var next := ReadPastComments(r.rest);
    var gap, q := PastRead(r.rest);
    var text := next.token.text;
    GapLex(gap, q, text);
    LaidAppend(first, p, Lexemes(t), gap + text, q + [Lex(text)], [text]);
    Regroup(first, gap + text, next.rest);
    if next.token.kind.ArrayEnd? {
      items, seps, used, parts := [t], [], first + (gap + text), p + (q + [Lex(text)]);
      OneItem(cfg.lib, t);
    } else {
      EndOfItems(cfg, done + [r.value]);
      Passing(next.token.kind, text, next.rest);
      var items', seps', more, rest := ItemsSound(cfg, next.rest, done + [r.value]);
      items, seps := [t] + items', [text] + seps';
      used, parts := first + (gap + text) + more, p + (q + [Lex(text)]) + rest;
      LaidAppend(first + (gap + text), p + (q + [Lex(text)]), Lexemes(t) + [text], more, rest,
                 ItemLexemes(items', seps') + ["]"]);
      MoreItems(cfg.lib, t, text, items', seps', done);
      Regroup(first + (gap + text), more, ReadItems(cfg, s, done).rest);
    }
  }

  lemma OneItem(lib: Libc, t: Tree)
    requires Conforms(lib, t)
    ensures ItemsConform(lib, [t], []) && ItemLexemes([t], []) == Lexemes(t) && ItemValues([t]) == [ValueOfTree(t)]
  {
    hide Conforms, Lexemes, ValueOfTree;
    assert Lexemes(t) + [] == Lexemes(t);
    assert [t][1..] == [];
  }

  lemma MoreItems(lib: Libc, t: Tree, sep: string, items: seq<Tree>, seps: seq<string>, done: seq<Value>)
    requires Conforms(lib, t) && items != [] && ItemsConform(lib, items, seps) && IsAnything(sep) && sep != "]"
    ensures ItemsConform(lib, [t] + items, [sep] + seps)
    ensures Lexemes(t) + [sep] + (ItemLexemes(items, seps) + ["]"]) == ItemLexemes([t] + items, [sep] + seps) + ["]"]
    ensures done + [ValueOfTree(t)] + ItemValues(items) == done + ItemValues([t] + items)
  {
    hide Conforms, Lexemes, ValueOfTree, IsAnything;
    assert ([t] + items)[1..] == items && ([sep] + seps)[1..] == seps;
    var a, b := Lexemes(t), ItemLexemes(items, seps);
    Regroup(a, [sep], b);
    Regroup(a, [sep] + b, ["]"]);
    Regroup([sep], b, ["]"]);
    Regroup(a, [sep], b + ["]"]);
    Regroup(done, [ValueOfTree(t)], ItemValues(items));
  }

  // ----- Objects -----

  /** A member's name and colon. */
  lemma NameSound(s: string, name: string) returns (ps: seq<Piece>, used: string, parts: seq<Part>)
    requires ReadName(s, name).Next?
    ensures var r := ReadName(s, name);
            && PiecesOk(ps) && Meaning(ps) == r.name && s == used + r.rest
            && Laid(used, parts, [QuoteText(ps), ":"])
  {
    hide ReadToken, ReadPastComments, Recover, DecodeString, Body, Laid, PiecesOk;
    var lx := ReadPastComments(s);
    var gap, p := PastRead(s);
    ps := StringPieces(lx.token.text);
    var colon := ReadToken(lx.rest);
    var gap', q := TokenRead(lx.rest);
    var a, b := lx.token.text, colon.token.text;
    GapLex(gap, p, a);
    GapLex(gap', q, b);
    LaidAppend(gap + a, p + [Lex(a)], [a], gap' + b, q + [Lex(b)], [b]);
    used, parts := gap + a + (gap' + b), p + [Lex(a)] + (q + [Lex(b)]);
    assert [a] + [b] == [a, b];
    Regroup(gap + a, gap' + b, colon.rest);
  }

  /** The end of an object. */
  lemma CloseSound(s: string, name: string) returns (used: string, parts: seq<Part>)
    requires ReadName(s, name).Close?
    ensures name == [] && Laid(used, parts, ["}"]) && s == used + ReadName(s, name).rest
  {
    hide ReadToken, ReadPastComments, Recover, DecodeString, Body, Laid;
    var lx := ReadPastComments(s);
    var gap, p := PastRead(s);
    GapLex(gap, p, lx.token.text);
    used, parts := gap + lx.token.text, p + [Lex(lx.token.text)];
  }

  /** What stands behind a member. */
  lemma MarkSound(s: string, name: string) returns (mark: Mark, used: string, parts: seq<Part>)
    requires ReadComma(s, name).Next? && ReadComma(s, name).rest != []
    ensures MarkOk(mark) && Laid(used, parts, MarkLexemes(mark)) && s == used + ReadComma(s, name).rest
  {
    hide ReadToken, ReadPastComments, Recover, Laid, IsAnything, IsComment;
    var first, lx := ReadToken(s), ReadPastComments(s);
    var gap, p := PastRead(s);
    var text := lx.token.text;
    if lx.token.kind.Separator? {
      mark, used, parts := Comma, gap + text, p + [Lex(text)];
      GapLex(gap, p, text);
    } else {
      var gap1, p1 := TokenRead(s);
      var comment := first.token.text;
      BehindComment(s);
      var gap2, p2 := PastRead(first.rest);
      Passing(lx.token.kind, text, lx.rest);
      mark := Passed(comment, text);
      GapLex(gap1, p1, comment);
      GapLex(gap2, p2, text);
      LaidAppend(gap1 + comment, p1 + [Lex(comment)], [comment], gap2 + text, p2 + [Lex(text)], [text]);
      used, parts := gap1 + comment + (gap2 + text), p1 + [Lex(comment)] + (p2 + [Lex(text)]);
      assert [comment] + [text] == [comment, text];
      Regroup(gap1 + comment, gap2 + text, lx.rest);
    }
  }

  lemma BehindComment(s: string)
    ensures ReadToken(s).token.kind.CommentToken? ==> ReadPastComments(s) == ReadPastComments(ReadToken(s).rest)
    ensures !ReadToken(s).token.kind.CommentToken? ==> ReadPastComments(s) == ReadToken(s)
    ensures !ReadPastComments(s).token.kind.CommentToken?
  {
    hide ReadToken;
  }

  lemma BraceSound(s: string, name: string) returns (used: string, parts: seq<Part>)
    requires ReadComma(s, name).Close?
    ensures Laid(used, parts, ["}"]) && s == used + ReadComma(s, name).rest
  {
    hide ReadToken, ReadPastComments, Recover, Laid;
    var lx := ReadPastComments(s);
    var gap, p := PastRead(s);
    GapLex(gap, p, lx.token.text);
    used, parts := gap + lx.token.text, p + [Lex(lx.token.text)];
  }

  ghost predicate FieldsRead(cfg: Config, s: string, ms: seq<Member>, r: Outcome, fields: seq<Field>, marks: seq<Mark>,
                             used: string, parts: seq<Part>) {
    && FieldsConform(cfg.lib, fields, marks) && Laid(used, parts, FieldLexemes(fields, marks) + ["}"])
    && s == used + r.rest && r.value == Obj(FieldValues(ms, fields))
  }

  lemma {:induction false} FieldsSound(cfg: Config, s: string, ms: seq<Member>, name: string)
    returns (fields: seq<Field>, marks: seq<Mark>, used: string, parts: seq<Part>)
    requires ReadMembers(cfg, s, ms, name).errors == []
    ensures FieldsRead(cfg, s, ms, ReadMembers(cfg, s, ms, name), fields, marks, used, parts)
    ensures fields == [] ==> name == []
    ensures ms == [] ==> BodySound(cfg, s, ReadMembers(cfg, s, ms, name), Record(fields, marks), used, parts)
    decreases |s|, 1
  {
    hide ReadName, ReadValue, AfterMember, Recover, CStr, Store, Lookup, Laid, FieldsRead, Conforms;
    match ReadName(s, name) {
      case Close(rest) =>
        used, parts := CloseSound(s, name);
        fields, marks := [], [];
        NoFields(cfg, s, ms, ReadMembers(cfg, s, ms, name), used, parts);
      case Next(name', s') =>
        var ps, u, p := NameSound(s, name);
        var key := CStr(name');
        var top := Lookup(ms, key);
        var r := ReadValue(cfg, s', top);
        var t, v, q := ValueSound(cfg, s', top);
        var more, rest;
        fields, marks, more, rest := AfterSound(cfg, r.rest, Store(ms, key, r.value), name', ps, t);
        used, parts := u + v + more, p + q + rest;
        OneMore(cfg, s, ms, ps, u, p, t, v, q, fields, marks, more, rest, s', r, ReadMembers(cfg, s, ms, name));
      case Broken(_, _) =>
    }
    if ms == [] {
      RecordBody(cfg, s, ReadMembers(cfg, s, ms, name), fields, marks, used, parts);
    }
  }

  lemma RecordBody(cfg: Config, s: string, r: Outcome, fields: seq<Field>, marks: seq<Mark>, used: string,
                   parts: seq<Part>)
    requires FieldsRead(cfg, s, [], r, fields, marks, used, parts)
    ensures BodySound(cfg, s, r, Record(fields, marks), used, parts)
  {
    hide Laid, FieldsConform, FieldLexemes, FieldValues;
    assert Lexemes(Record(fields, marks))[1..] == FieldLexemes(fields, marks) + ["}"];
  }

  lemma NoFields(cfg: Config, s: string, ms: seq<Member>, r: Outcome, used: string, parts: seq<Part>)
    requires Laid(used, parts, ["}"]) && s == used + r.rest && r.value == Obj(ms)
    ensures FieldsRead(cfg, s, ms, r, [], [], used, parts)
  {
    hide Laid;
    assert [] + ["}"] == ["}"];
  }

  /** Behind a member: the fields with it in front, and the text from here on. */
  ghost predicate AfterRead(cfg: Config, s: string, ms: seq<Member>, r: Outcome, name: seq<Piece>, t: Tree,
                            fields: seq<Field>, marks: seq<Mark>, used: string, parts: seq<Part>) {
    && fields != [] && fields[0] == Field(name, t) && FieldsConform(cfg.lib, fields, marks)
    && Laid(used, parts, Remaining(fields, marks)) && s == used + r.rest
    && r.value == Obj(FieldValues(ms, fields[1..]))
  }

  /** The lexemes behind the first field. */
  function Remaining(fields: seq<Field>, marks: seq<Mark>): seq<string>
    requires fields != []
  {
    (if marks == [] then [] else MarkLexemes(marks[0]) + FieldLexemes(fields[1..], marks[1..])) + ["}"]
  }

  lemma {:induction false} AfterSound(cfg: Config, s: string, ms: seq<Member>, name: string, ps: seq<Piece>, t: Tree)
    returns (fields: seq<Field>, marks: seq<Mark>, used: string, parts: seq<Part>)
    requires AfterMember(cfg, s, ms, name).errors == [] && PiecesOk(ps) && Meaning(ps) == name && Conforms(cfg.lib, t)
    ensures AfterRead(cfg, s, ms, AfterMember(cfg, s, ms, name), ps, t, fields, marks, used, parts)
    decreases |s|, 2
  {
    hide ReadComma, ReadMembers, Laid, AfterRead, Conforms, PiecesOk, FieldsRead;
    match ReadComma(s, name) {
      case Close(rest) =>
        used, parts := BraceSound(s, name);
        fields, marks := [Field(ps, t)], [];
        LastField(cfg, s, ms, AfterMember(cfg, s, ms, name), ps, t, used, parts);
      case Next(_, s') =>
        EndOfMembers(cfg, ms, name);
        var mark, u, p := MarkSound(s, name);
        var more, rest;
        fields, marks, more, rest := FieldsSound(cfg, s', ms, name);
        FieldBefore(cfg, s, ms, s', AfterMember(cfg, s, ms, name), ps, t, mark, u, p, fields, marks, more, rest);
        fields, marks, used, parts := [Field(ps, t)] + fields, [mark] + marks, u + more, p + rest;
      case Broken(_, _) =>
    }
  }

  lemma LastField(cfg: Config, s: string, ms: seq<Member>, r: Outcome, ps: seq<Piece>, t: Tree, used: string,
                  parts: seq<Part>)
    requires PiecesOk(ps) && Conforms(cfg.lib, t) && Laid(used, parts, ["}"])
    requires s == used + r.rest && r.value == Obj(ms)
    ensures AfterRead(cfg, s, ms, r, ps, t, [Field(ps, t)], [], used, parts)
  {
    hide Laid, Conforms, PiecesOk;
    assert [] + ["}"] == ["}"] && [Field(ps, t)][1..] == [];
  }

  lemma FieldBefore(cfg: Config, s: string, ms: seq<Member>, s': string, r: Outcome, ps: seq<Piece>, t: Tree,
                    mark: Mark, u: string, p: seq<Part>, fields: seq<Field>, marks: seq<Mark>, more: string,
                    rest: seq<Part>)
    requires PiecesOk(ps) && Conforms(cfg.lib, t) && MarkOk(mark) && Laid(u, p, MarkLexemes(mark)) && s == u + s'
    requires FieldsRead(cfg, s', ms, r, fields, marks, more, rest) && (fields == [] ==> Meaning(ps) == [])
    ensures AfterRead(cfg, s, ms, r, ps, t, [Field(ps, t)] + fields, [mark] + marks, u + more, p + rest)
  {
    hide Laid, Conforms, PiecesOk, MarkOk, MarkLexemes;
    var fs, mks := [Field(ps, t)] + fields, [mark] + marks;
    assert fs[1..] == fields && mks[1..] == marks;
    var a, b := MarkLexemes(mark), FieldLexemes(fields, marks);
    LaidAppend(u, p, a, more, rest, b + ["}"]);
    Regroup(a, b, ["}"]);
    Regroup(u, more, r.rest);
  }

  lemma OneMore(cfg: Config, s: string, ms: seq<Member>, ps: seq<Piece>, u: string, p: seq<Part>, t: Tree, v: string,
                q: seq<Part>, fields: seq<Field>, marks: seq<Mark>, more: string, rest: seq<Part>, s': string,
                r: Outcome, out: Outcome)
    requires PiecesOk(ps) && Laid(u, p, [QuoteText(ps), ":"]) && s == u + s' && Sound(cfg, s', r, t, v, q)
    requires AfterRead(cfg, r.rest, Store(ms, CStr(Meaning(ps)), r.value), out, ps, t, fields, marks, more, rest)
    ensures FieldsRead(cfg, s, ms, out, fields, marks, u + v + more, p + q + rest)
  {
    hide Laid, Conforms, PiecesOk, CStr, Store, Lexemes, ValueOfTree, FieldsConform, QuoteText, MarkLexemes;
    var head, tail := [QuoteText(ps), ":"], Remaining(fields, marks);
    LaidAppend(u, p, head, v, q, Lexemes(t));
    LaidAppend(u + v, p + q, head + Lexemes(t), more, rest, tail);
    assert head + Lexemes(t) + tail == FieldLexemes(fields, marks) + ["}"] by {
      var mid := if marks == [] then [] else MarkLexemes(marks[0]) + FieldLexemes(fields[1..], marks[1..]);
      Regroup(head + Lexemes(t), mid, ["}"]);
    }
    Regroup(u, v, r.rest);
    Regroup(u + v, more, out.rest);
  }

  // ----- Documents -----

  /** A document that is parsed without error starts with a text that means the value returned. */
  lemma ParsedMeans(cfg: Config, doc: string, root: Value) returns (k: nat)
    requires ParseDocument(cfg, doc, root).errors == []
    ensures k <= |doc| && DenotesValue(cfg.lib, doc[..k], ParseDocument(cfg, doc, root).value)
  {
    hide ReadValue, ReadToken, ReadPastComments, Conforms, Laid, Lexemes, ValueOfTree;
    var t, used, parts := ValueSound(cfg, doc, root);
    k := |used|;
    assert doc[..k] == used;
  }

  /** So whenever the reader reports success. */
  method ParseMeans(reader: Reader, doc: string, root: Value) returns (ok: bool, result: Value)
    modifies reader
    ensures ok ==> exists k :: 0 <= k <= |doc| && DenotesValue(reader.cfg.lib, doc[..k], result)
  {
    hide DenotesValue, ParseDocument;
    ok, result := reader.Parse(doc, root);
    if ok {
      ghost var k := ParsedMeans(reader.cfg, doc, root);
    }
  }
}
