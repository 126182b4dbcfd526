/** Every JSON text is read, with the value it means (json_reader.cpp:121-212, 449-740). */
module JsonComplete {
  import opened Basics
  import opened Decimal
  import opened JsonValue
  import opened JsonText
  import opened JsonGrammar
  import opened JsonNumbers
  import opened JsonNumberGrammar
  import opened JsonRoundTrip
  import opened JsonUnicode
  import opened JsonDenotes
  import opened JsonTokenShape

  // ----- Strings -----

  lemma OctetsUnique(b: string, cp: nat)
    requires Octets(b, cp) && cp <= 0x10FFFF && !(0xD800 <= cp <= 0xDBFF)
    ensures b == CodePointToUTF8(cp)
  {
    if IsScalar(cp) {
      Utf8Unique(b, cp);
    } else {
      Digits64(0, 13, b[1] as int - 0x80, b[2] as int - 0x80);
      assert b == [b[0], b[1], b[2]];
    }
  }

  lemma SingleDecodes(x: string, means: string, n: nat, t: string)
    requires IsSingle(x, means, n)
    ensures DecodeUnit(x + t) == Good(Unit(means, 6))
  {
    hide DecodeHex4, SpellsWord, Octets, CodePointToUTF8;
    var h, body := x[2..], x + t;
    assert x[0] == x[..2][0] && x[1] == x[..2][1];
    assert body[2..] == h + t;
    DecodeSpelled(h, n, t);
    WordBound(h, n);
    OctetsUnique(means, n);
  }

  lemma PairDecodes(x: string, means: string, n: nat, k: nat, t: string)
    requires IsPair(x, means, n, k)
    ensures DecodeUnit(x + t) == Good(Unit(means, 12))
  {
    hide DecodeHex4, SpellsWord, Octets, CodePointToUTF8;
    var body := x + t;
    assert x[0] == x[..2][0] && x[1] == x[..2][1] && x[6] == x[6..8][0] && x[7] == x[6..8][1];
    assert body[2..] == x[2..6] + (x[6..] + t);
    DecodeSpelled(x[2..6], n, x[6..] + t);
    assert body[2..][6..] == x[8..] + t;
    DecodeSpelled(x[8..], k, t);
    assert body[2..][4] == x[6] && body[2..][5] == x[7];
    Joins(n, k);
    OctetsUnique(means, 0x10000 + (n - 0xD800) * 0x400 + k % 0x400);
  }

  /** A piece decodes to what it means. */
  lemma PieceDecodes(p: Piece, t: string)
    requires PieceOk(p)
    ensures p.text != [] && p.text[0] != '"' && DecodeUnit(p.text + t) == Good(Unit(p.means, |p.text|))
  {
    hide IsSingle, IsPair;
    var x := p.text;
    if n :| IsSingle(x, p.means, n) {
      SingleDecodes(x, p.means, n, t);
      PairLengths(x, p.means);
    } else if n, k :| IsPair(x, p.means, n, k) {
      PairDecodes(x, p.means, n, k, t);
      PairLengths(x, p.means);
    } else if |x| == 1 {
      assert (x + t)[0] == x[0] && x == [x[0]];
    } else {
      assert (x + t)[0] == x[0] && (x + t)[1] == x[1];
    }
  }

  lemma PairLengths(x: string, means: string)
    ensures (exists n :: IsSingle(x, means, n)) ==> |x| == 6 && x[0] == '\\'
    ensures (exists n, k :: IsPair(x, means, n, k)) ==> |x| == 12 && x[0] == '\\'
  {
    hide SpellsWord, Octets;
    if n :| IsSingle(x, means, n) {
      assert x[0] == x[..2][0];
    }
    if n, k :| IsPair(x, means, n, k) {
      assert x[0] == x[..2][0];
    }
  }

  lemma {:induction false} BodyDecodes(ps: seq<Piece>)
    requires PiecesOk(ps)
    ensures DecodeString(Spelling(ps)) == Good(Meaning(ps))
  {
    hide PieceOk, DecodeUnit;
    if ps != [] {
      var p, more := ps[0], Spelling(ps[1..]);
      PieceDecodes(p, more);
      BodyDecodes(ps[1..]);
      assert (p.text + more)[|p.text|..] == more;
    }
  }

  // ----- Their ends -----

  lemma {:induction false} PlainScan(a: string, b: string)
    requires forall i :: 0 <= i < |a| ==> a[i] != '"' && a[i] != '\\'
    ensures ScanString(a + b) == ScanString(b)
  {
    if a == [] {
      assert a + b == b;
    } else {
      assert (a + b)[1..] == a[1..] + b;
      PlainScan(a[1..], b);
    }
  }

  lemma PieceScan(p: Piece, t: string)
    requires PieceOk(p)
    ensures ScanString(p.text + t) == ScanString(t)
  {
    hide IsSingle, IsPair;
    var x := p.text;
    PairLengths(x, p.means);
    if n :| IsSingle(x, p.means, n) {
      SingleScan(x, p.means, n, t);
    } else if n, k :| IsPair(x, p.means, n, k) {
      PairScan(x, p.means, n, k, t);
    } else if |x| == 1 {
      assert (x + t)[1..] == t;
    } else {
      assert (x + t)[2..] == t;
    }
  }

  lemma SingleScan(x: string, means: string, n: nat, t: string)
    requires IsSingle(x, means, n)
    ensures ScanString(x + t) == ScanString(t)
  {
    hide SpellsWord, Octets;
    WordPlain(x[2..], n);
    assert x[0] == x[..2][0];
    assert (x + t)[2..] == x[2..] + t;
    PlainScan(x[2..], t);
  }

  lemma PairScan(x: string, means: string, n: nat, k: nat, t: string)
    requires IsPair(x, means, n, k)
    ensures ScanString(x + t) == ScanString(t)
  {
    hide SpellsWord, Octets;
    WordPlain(x[2..6], n);
    WordPlain(x[8..], k);
    assert x[0] == x[..2][0] && x[6] == x[6..8][0];
    assert (x + t)[2..] == x[2..6] + (x[6..] + t);
    PlainScan(x[2..6], x[6..] + t);
    assert (x[6..] + t)[2..] == x[8..] + t;
    PlainScan(x[8..], t);
  }

  lemma {:induction false} BodyScan(ps: seq<Piece>, t: string)
    requires PiecesOk(ps)
    ensures ScanString(Spelling(ps) + "\"" + t) == Scan(true, t)
  {
    hide PieceOk;
    if ps == [] {
      assert "" + "\"" + t == "\"" + t && ("\"" + t)[1..] == t;
    } else {
      var more := Spelling(ps[1..]) + "\"" + t;
      assert Spelling(ps) + "\"" + t == ps[0].text + more;
      PieceScan(ps[0], more);
      BodyScan(ps[1..], t);
    }
  }

  /** A quoted sequence of pieces is one token, which decodes to their meaning. */
  lemma QuoteRead(s: string, ps: seq<Piece>, q: seq<string>) returns (rest: string)
    requires PiecesOk(ps) && Spaced(s, [QuoteText(ps)] + q)
    ensures ReadToken(s).token.kind == StringToken && ReadToken(s).rest == rest
    ensures ReadPastComments(s) == ReadToken(s)
    ensures DecodeString(Body(ReadToken(s).token.text)) == Good(Meaning(ps))
    ensures Spaced(rest, q)
  {
    hide ScanString, DecodeString, ReadToken, JsonGrammar.ReadPastComments, Spaced, PiecesOk, Spelling;
    var text := QuoteText(ps);
    rest := Ahead(s, [text] + q);
    assert ([text] + q)[1..] == q;
    BodyScan(ps, rest);
    assert text[1..] == Spelling(ps) + "\"";
    TokenOf(s, text, rest, StringToken);
    assert Body(text) == Spelling(ps);
    BodyDecodes(ps);
  }

  // ----- Numbers -----

  /** A number lexeme decodes to what it means. */
  lemma NumberDecodes(lib: Libc, text: string, v: Value)
    requires IsNumberLexeme(text) && NumberMeans(lib, text, v)
    ensures DecodeNumber(lib, text) == Good(v)
  {
    NumberLexemeIs(text);
    if LooksDouble(text) {
      NotDigits(text);
    } else {
      TokenDigits(text);
      hide DecodeNumber, LooksDouble, NumberShaped, IsNumberLexeme;
      if text[0] == '-' {
        SignedDecodes(lib, text, v);
      } else {
        UnsignedDecodes(lib, text, v);
      }
    }
  }

  lemma UnsignedDecodes(lib: Libc, text: string, v: Value)
    requires text != [] && text[0] != '-' && AllDigits(text) && NumberMeans(lib, text, v)
    ensures DecodeNumber(lib, text) == Good(v)
  {
    hide DecodeNumber, Slips, ValueOf;
    DecodeUnsigned(lib, text);
    var n := ValueOf(text);
    if n >= TWO64 && Slips(text, TWO64 - 1) {
      var u: int := if v.Int? then v.i else v.u;
      SameWord(u, ToUInt64(n), n);
    }
  }

  /** Words that agree with one number modulo 2^64 are equal. */
  lemma SameWord(a: int, b: int, n: int)
    requires 0 <= a < TWO64 && 0 <= b < TWO64 && (a - n) % TWO64 == 0 && (b - n) % TWO64 == 0
    ensures a == b
  {}

  lemma SignedDecodes(lib: Libc, text: string, v: Value)
    requires text != [] && text[0] == '-' && AllDigits(text[1..]) && NumberMeans(lib, text, v)
    ensures DecodeNumber(lib, text) == Good(v)
  {
    hide DecodeNumber, Slips, ValueOf, Negated;
    var digits := text[1..];
    assert text == "-" + digits;
    DecodeSigned(lib, digits);
    var n: int := ValueOf(digits);
    NegatedExact(n);
    NegatedWraps(n);
    if n > TWO63 && Slips(digits, TWO63) {
      var i: int := v.i;
      var j: int := Negated(ToUInt64(n)).i;
      SameWord(i + TWO63, j + TWO63, TWO63 - n);
    }
  }

  // ----- Values -----

  /** Only commas stand between items and between members, and none behind the last. */
  ghost predicate Commas(t: Tree)
    decreases t, 0
  {
    match t
    case List(items, seps) =>
      && (items == [] || |seps| == |items| - 1) && (forall i :: 0 <= i < |seps| ==> seps[i] == ",")
      && forall x :: x in items ==> Commas(x)
    case Record(fields, marks) =>
      && (fields == [] || |marks| == |fields| - 1) && (forall i :: 0 <= i < |marks| ==> marks[i].Comma?)
      && forall f :: f in fields ==> Commas(f.value)
    case _ => true
  }

  ghost predicate Proper(lib: Libc, t: Tree) { Conforms(lib, t) && Commas(t) }

  lemma {:induction false} TreeRead(cfg: Config, t: Tree, s: string, q: seq<string>, top: Value) returns (rest: string)
    requires Proper(cfg.lib, t) && Spaced(s, Lexemes(t) + q) && Follows(q)
    ensures ReadValue(cfg, s, top) == Outcome(rest, ValueOfTree(t), [])
    ensures Spaced(rest, q)
    decreases t, 0
  {
    hide ReadToken, JsonGrammar.ReadPastComments, Spaced, ReadItems, ReadMembers, DecodeString, DecodeNumber, Body;
    hide CStr;
    match t
    case Word(text) => rest := ReadWord(s, text, q);
    case Number(text, v) =>
      NumberLexemeIs(text);
      NumberDecodes(cfg.lib, text, v);
      rest := ReadsNumber(cfg, s, text, v, q, top);
    case Quote(ps) => rest := QuoteRead(s, ps, q);
    case List(items, seps) =>
      var inner := ItemLexemes(items, seps) + ["]"] + q;
      Opening("[", ItemLexemes(items, seps), "]", q);
      var s' := ReadPunctuation(s, '[', inner);
      rest := ListRead(cfg, items, seps, s', q);
    case Record(fields, marks) =>
      var inner := FieldLexemes(fields, marks) + ["}"] + q;
      Opening("{", FieldLexemes(fields, marks), "}", q);
      var s' := ReadPunctuation(s, '{', inner);
      rest := RecordRead(cfg, fields, marks, s', q);
  }

  lemma Opening(open: string, body: seq<string>, close: string, q: seq<string>)
    ensures [open] + body + [close] + q == [open] + (body + [close] + q)
  {
    Regroup([open], body, [close]);
    Regroup([open], body + [close], q);
  }

  lemma {:induction false} ListRead(cfg: Config, items: seq<Tree>, seps: seq<string>, s: string, q: seq<string>)
    returns (rest: string)
    requires Proper(cfg.lib, List(items, seps)) && Spaced(s, ItemLexemes(items, seps) + ["]"] + q)
    ensures ReadArray(cfg, s) == Outcome(rest, Arr(ItemValues(items)), [])
    ensures Spaced(rest, q)
    decreases items, 2
  {
    hide ReadItems, SkipSpaces, Spaced;
    var toks := ItemLexemes(items, seps) + ["]"] + q;
    var after := Ahead(s, toks);
    if items == [] {
      assert toks == ["]"] + q && toks[1..] == q && ("]" + after)[1..] == after;
      rest := after;
    } else {
      ProperItem(cfg.lib, items, seps);
      FirstLexeme(cfg.lib, items[0]);
      assert toks[0] == Lexemes(items[0])[0];
      SkipKeepsSpaced(s, toks);
      rest := ItemsRead(cfg, items, seps, SkipSpaces(s), q, []);
      assert [] + ItemValues(items) == ItemValues(items);
    }
  }

  lemma FirstLexeme(lib: Libc, t: Tree)
    requires Conforms(lib, t)
    ensures Lexemes(t) != [] && Lexemes(t)[0] != [] && Lexemes(t)[0][0] != ']' && !IsSpace(Lexemes(t)[0][0])
  {
    hide NumberMeans, PiecesOk;
  }

  ghost function ItemsTail(items: seq<Tree>, seps: seq<string>, q: seq<string>): seq<string> {
    if items == [] then ["]"] + q else [","] + (ItemLexemes(items, seps) + ["]"] + q)
  }

  lemma ItemsSplit(items: seq<Tree>, seps: seq<string>, q: seq<string>)
    requires items != [] && |seps| == |items| - 1 && forall i :: 0 <= i < |seps| ==> seps[i] == ","
    ensures var more := if seps == [] then [] else seps[1..];
            ItemLexemes(items, seps) + ["]"] + q == Lexemes(items[0]) + ItemsTail(items[1..], more, q)
  {
    hide Lexemes;
    var first := Lexemes(items[0]);
    if |items| == 1 {
      assert first + [] == first;
      Regroup(first, ["]"], q);
    } else {
      var more := ItemLexemes(items[1..], seps[1..]);
      Opening(",", more, "]", q);
      Regroup(first, [","] + more, ["]"]);
      Regroup(first, [","] + more + ["]"], q);
    }
  }

  lemma {:induction false} ItemsRead(cfg: Config, items: seq<Tree>, seps: seq<string>, s: string, q: seq<string>,
                                     done: seq<Value>)
    returns (rest: string)
    requires items != [] && Proper(cfg.lib, List(items, seps)) && Spaced(s, ItemLexemes(items, seps) + ["]"] + q)
    ensures ReadItems(cfg, s, done) == Outcome(rest, Arr(done + ItemValues(items)), [])
    ensures Spaced(rest, q)
    decreases items, 1
  {
    hide ReadToken, JsonGrammar.ReadPastComments, ReadValue, Spaced, Lexemes, ValueOfTree, ItemLexemes;
    var t, more := items[0], items[1..];
    var seps' := if seps == [] then [] else seps[1..];
    ItemsSplit(items, seps, q);
    ProperItem(cfg.lib, items, seps);
    assert ItemValues(items) == [ValueOfTree(t)] + ItemValues(more);
    var s' := TreeRead(cfg, t, s, ItemsTail(more, seps', q), Null);
    if more == [] {
      rest := ReadPunctuation(s', ']', q);
      assert ItemValues(items) == [ValueOfTree(t)];
    } else {
      var s'' := ReadPunctuation(s', ',', ItemLexemes(more, seps') + ["]"] + q);
      rest := ItemsRead(cfg, more, seps', s'', q, done + [ValueOfTree(t)]);
      Regroup(done, [ValueOfTree(t)], ItemValues(more));
    }
  }

  lemma ProperItem(lib: Libc, items: seq<Tree>, seps: seq<string>)
    requires items != [] && Proper(lib, List(items, seps))
    ensures Proper(lib, items[0])
    ensures |items| > 1 ==> Proper(lib, List(items[1..], seps[1..]))
  {
    hide IsAnything;
    assert ItemsConform(lib, items, seps);
    assert |items| > 1 ==> ItemsConform(lib, items[1..], seps[1..]);
    assert items[0] in items;
    forall x | x in items[1..] ensures Commas(x) {
      assert x in items;
    }
  }

  lemma {:induction false} RecordRead(cfg: Config, fields: seq<Field>, marks: seq<Mark>, s: string, q: seq<string>)
    returns (rest: string)
    requires Proper(cfg.lib, Record(fields, marks)) && Spaced(s, FieldLexemes(fields, marks) + ["}"] + q)
    ensures ReadMembers(cfg, s, [], []) == Outcome(rest, Obj(FieldValues([], fields)), [])
    ensures Spaced(rest, q)
    decreases fields, 2
  {
    if fields == [] {
      assert FieldLexemes(fields, marks) + ["}"] + q == [['}']] + q;
      rest := ReadPunctuation(s, '}', q);
    } else {
      rest := FieldsRead(cfg, fields, marks, s, q, [], []);
    }
  }

  ghost function FieldsTail(fields: seq<Field>, marks: seq<Mark>, q: seq<string>): seq<string> {
    if fields == [] then ["}"] + q else [","] + (FieldLexemes(fields, marks) + ["}"] + q)
  }

  lemma FieldsSplit(fields: seq<Field>, marks: seq<Mark>, q: seq<string>)
    requires fields != [] && |marks| == |fields| - 1 && forall i :: 0 <= i < |marks| ==> marks[i].Comma?
    ensures var more := if marks == [] then [] else marks[1..];
            FieldLexemes(fields, marks) + ["}"] + q ==
            [QuoteText(fields[0].name)] + ([":"] + (Lexemes(fields[0].value) + FieldsTail(fields[1..], more, q)))
  {
    hide Lexemes, QuoteText, FieldLexemes;
    var name, body := QuoteText(fields[0].name), Lexemes(fields[0].value);
    var first := [name, ":"] + body;
    if |fields| == 1 {
      OneField(fields[0]);
      assert fields == [fields[0]] && marks == [];
      Regroup(first, ["}"], q);
      NameFirst(name, body, ["}"] + q);
    } else {
      var more := FieldLexemes(fields[1..], marks[1..]);
      MoreFields(fields, marks);
      Opening(",", more, "}", q);
      Regroup(first, [","] + more, ["}"]);
      Regroup(first, [","] + more + ["}"], q);
      NameFirst(name, body, [","] + more + ["}"] + q);
    }
  }

  lemma OneField(f: Field)
    ensures FieldLexemes([f], []) == [QuoteText(f.name), ":"] + Lexemes(f.value)
  {
    hide Lexemes, QuoteText;
    var first := [QuoteText(f.name), ":"] + Lexemes(f.value);
    assert first + [] == first;
  }

  lemma MoreFields(fields: seq<Field>, marks: seq<Mark>)
    requires fields != [] && marks != [] && marks[0].Comma?
    ensures FieldLexemes(fields, marks) ==
            [QuoteText(fields[0].name), ":"] + Lexemes(fields[0].value)
            + ([","] + FieldLexemes(fields[1..], marks[1..]))
  {
    hide Lexemes, QuoteText;
  }

  lemma NameFirst(name: string, body: seq<string>, tail: seq<string>)
    ensures [name, ":"] + body + tail == [name] + ([":"] + (body + tail))
  {
    assert [name, ":"] == [name] + [":"];
    Regroup([name], [":"], body);
    Regroup([name], [":"] + body, tail);
    Regroup([":"], body, tail);
  }

  lemma {:induction false} FieldsRead(cfg: Config, fields: seq<Field>, marks: seq<Mark>, s: string, q: seq<string>,
                                      ms: seq<Member>, name: string)
    returns (rest: string)
    requires fields != [] && Proper(cfg.lib, Record(fields, marks))
    requires Spaced(s, FieldLexemes(fields, marks) + ["}"] + q)
    ensures ReadMembers(cfg, s, ms, name) == Outcome(rest, Obj(FieldValues(ms, fields)), [])
    ensures Spaced(rest, q)
    decreases fields, 1
  {
    hide ReadToken, JsonGrammar.ReadPastComments, ReadValue, Spaced, Lexemes, ValueOfTree, FieldLexemes, QuoteText;
    hide AfterMember, DecodeString, Body, CStr, Store, Lookup, Recover;
    var f, more := fields[0], fields[1..];
    var marks' := if marks == [] then [] else marks[1..];
    FieldsSplit(fields, marks, q);
    ProperField(cfg.lib, fields, marks);
    var tail := FieldsTail(more, marks', q);
    var s1 := QuoteRead(s, f.name, [":"] + (Lexemes(f.value) + tail));
    var s2 := ReadPunctuation(s1, ':', Lexemes(f.value) + tail);
    var key := CStr(Meaning(f.name));
    var s3 := TreeRead(cfg, f.value, s2, tail, Lookup(ms, key));
    rest := AfterRead(cfg, more, marks', s3, q, Store(ms, key, ValueOfTree(f.value)), Meaning(f.name));
  }

  lemma ProperField(lib: Libc, fields: seq<Field>, marks: seq<Mark>)
    requires fields != [] && Proper(lib, Record(fields, marks))
    ensures PiecesOk(fields[0].name) && Proper(lib, fields[0].value)
    ensures |fields| > 1 ==> Proper(lib, Record(fields[1..], marks[1..]))
  {
    hide PiecesOk, IsAnything;
    assert FieldsConform(lib, fields, marks);
    assert |fields| > 1 ==> FieldsConform(lib, fields[1..], marks[1..]);
    assert fields[0] in fields;
    forall f | f in fields[1..] ensures Commas(f.value) {
      assert f in fields;
    }
  }

  lemma {:induction false} AfterRead(cfg: Config, fields: seq<Field>, marks: seq<Mark>, s: string, q: seq<string>,
                                     ms: seq<Member>, name: string)
    returns (rest: string)
    requires fields != [] ==> Proper(cfg.lib, Record(fields, marks))
    requires Spaced(s, FieldsTail(fields, marks, q))
    ensures AfterMember(cfg, s, ms, name) == Outcome(rest, Obj(FieldValues(ms, fields)), [])
    ensures Spaced(rest, q)
    decreases fields, 2
  {
    hide ReadToken, ReadMembers, Spaced, Proper, FieldLexemes;
    if fields == [] {
      rest := ReadPunctuation(s, '}', q);
    } else {
      var s' := ReadPunctuation(s, ',', FieldLexemes(fields, marks) + ["}"] + q);
      rest := FieldsRead(cfg, fields, marks, s', q, ms, name);
    }
  }

  // ----- Documents -----

  /** Only whitespace between the lexemes. */
  ghost predicate BlankGaps(parts: seq<Part>) {
    forall i :: 0 <= i < |parts| ==> (parts[i].Gap? ==> |parts[i].text| == 1 && IsBlank(parts[i].text[0]))
  }

  ghost predicate AllSolid(ls: seq<string>) { forall i :: 0 <= i < |ls| ==> Solid(ls[i]) }

  lemma {:induction false} LaidSpaced(parts: seq<Part>)
    requires BlankGaps(parts) && AllSolid(LexemesOf(parts))
    ensures Spaced(TextOf(parts), LexemesOf(parts))
  {
    if parts != [] {
      var p, more := parts[0], parts[1..];
      var ls := LexemesOf(more);
      forall i | 0 <= i < |ls| ensures Solid(ls[i]) {
        assert p.Lex? ==> LexemesOf(parts)[i + 1] == ls[i];
        assert p.Gap? ==> LexemesOf(parts) == ls;
      }
      LaidSpaced(more);
      if p.Gap? {
        assert parts[0].Gap?;
        SpacedGap(p.text);
        SpacedAppend(p.text, [], TextOf(more), ls);
        assert [] + ls == ls;
      } else {
        assert Solid(LexemesOf(parts)[0]);
        SpacedOne(p.text);
        SpacedAppend(p.text, [p.text], TextOf(more), ls);
      }
    }
  }

  lemma SolidAppend(a: seq<string>, b: seq<string>)
    requires AllSolid(a) && AllSolid(b)
    ensures AllSolid(a + b)
  {}

  lemma {:induction false} TreeSolid(lib: Libc, t: Tree)
    requires Proper(lib, t)
    ensures AllSolid(Lexemes(t))
    decreases t, 0
  {
    hide NumberMeans, PiecesOk;
    match t
    case Number(text, _) => NumberSolid(text);
    case List(items, seps) =>
      ItemsSolid(lib, items, seps);
      SolidAppend(["["], ItemLexemes(items, seps));
      SolidAppend(["["] + ItemLexemes(items, seps), ["]"]);
    case Record(fields, marks) =>
      FieldsSolid(lib, fields, marks);
      SolidAppend(["{"], FieldLexemes(fields, marks));
      SolidAppend(["{"] + FieldLexemes(fields, marks), ["}"]);
    case _ =>
  }

  lemma NumberSolid(text: string)
    requires IsNumberLexeme(text)
    ensures Solid(text)
  {}

  lemma {:induction false} ItemsSolid(lib: Libc, items: seq<Tree>, seps: seq<string>)
    requires Proper(lib, List(items, seps))
    ensures AllSolid(ItemLexemes(items, seps))
    decreases items, 1
  {
    hide Lexemes, AllSolid;
    if items == [] {
      NoneSolid();
    } else {
      ProperItem(lib, items, seps);
      TreeSolid(lib, items[0]);
      if seps == [] {
        assert Lexemes(items[0]) + [] == Lexemes(items[0]);
      } else {
        ItemsSolid(lib, items[1..], seps[1..]);
        PunctuationSolid();
        SolidAppend([","], ItemLexemes(items[1..], seps[1..]));
        SolidAppend(Lexemes(items[0]), [","] + ItemLexemes(items[1..], seps[1..]));
      }
    }
  }

  lemma NoneSolid()
    ensures AllSolid([])
  {}

  lemma PunctuationSolid()
    ensures AllSolid([","]) && AllSolid([":"])
  {}

  lemma NameSolid(ps: seq<Piece>)
    ensures AllSolid([QuoteText(ps), ":"])
  {}

  lemma {:induction false} FieldsSolid(lib: Libc, fields: seq<Field>, marks: seq<Mark>)
    requires Proper(lib, Record(fields, marks))
    ensures AllSolid(FieldLexemes(fields, marks))
    decreases fields, 1
  {
    hide Lexemes, AllSolid, QuoteText;
    if fields == [] {
      NoneSolid();
    } else {
      var f := fields[0];
      ProperField(lib, fields, marks);
      TreeSolid(lib, f.value);
      NameSolid(f.name);
      SolidAppend([QuoteText(f.name), ":"], Lexemes(f.value));
      if marks == [] {
        assert fields == [f];
        OneField(f);
      } else {
        FieldsSolid(lib, fields[1..], marks[1..]);
        PunctuationSolid();
        MoreFields(fields, marks);
        SolidAppend([","], FieldLexemes(fields[1..], marks[1..]));
        SolidAppend([QuoteText(f.name), ":"] + Lexemes(f.value), [","] + FieldLexemes(fields[1..], marks[1..]));
      }
    }
  }

  /** Every text of the lexemes of a tree whose separators are commas, with whitespace anywhere between
      them, is parsed without error to the value of the tree, unless a strict root forbids it. */
  lemma MeansParsed(cfg: Config, t: Tree, doc: string, parts: seq<Part>, root: Value)
    requires Proper(cfg.lib, t) && Laid(doc, parts, Lexemes(t)) && BlankGaps(parts)
    ensures ParseDocument(cfg, doc, root) ==
            Outcome([], ValueOfTree(t), RootErrors(cfg, ValueOfTree(t), doc))
  {
    hide ReadValue, ReadToken, JsonGrammar.ReadPastComments, Lexemes, ValueOfTree, Proper, Spaced;
    TreeSolid(cfg.lib, t);
    LaidSpaced(parts);
    assert Lexemes(t) + [] == Lexemes(t);
    var rest := TreeRead(cfg, t, doc, [], root);
    NothingLeft(rest);
  }

  lemma NothingLeft(rest: string)
    requires Spaced(rest, [])
    ensures ReadToken(rest).rest == [] && ReadPastComments(rest).rest == []
  {
    var _ := Ahead(rest, []);
  }
}
