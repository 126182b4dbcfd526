/** The indentation of styled text, read off the text alone. */
module JsonIndent {
  import opened Basics
  import opened Decimal
  import opened JsonValue
  import opened JsonText
  import opened JsonRoundTrip
  import opened JsonWriter
  import opened JsonLayout

  // ----- Open brackets -----

  function Step(c: char): int {
    if c == '[' || c == '{' then 1 else if c == ']' || c == '}' then -1 else 0
  }

  predicate Closes(c: char) { c == ']' || c == '}' }

  /** How many more brackets a text opens than it closes, outside strings. */
  function Open(text: string, m: Mode): int {
    if text == [] then 0
    else (if m.Outside? then Step(text[0]) else 0) + Open(text[1..], NextMode(m, text[0]))
  }

  lemma {:induction false} OpenAppend(a: string, b: string, m: Mode)
    ensures Open(a + b, m) == Open(a, m) + Open(b, EndMode(a, m))
  {
    if a == [] {
      assert a + b == b;
    } else {
      OpenAppend(a[1..], b, NextMode(m, a[0]));
      assert (a + b)[1..] == a[1..] + b;
    }
  }

  /** A piece of a line: no newline in it, it leaves strings closed, and opens this many brackets. */
  ghost predicate Piece(s: string, open: int) {
    '\n' !in s && EndMode(s, Outside) == Outside && Open(s, Outside) == open
  }

  lemma PieceAppend(a: string, x: int, b: string, y: int)
    requires Piece(a, x) && Piece(b, y)
    ensures Piece(a + b, x + y)
  {
    hide Open, EndMode;
    OpenAppend(a, b, Outside);
    EndModeAppend(a, b, Outside);
  }

  /** Without quotes and brackets. */
  ghost predicate Bare(s: string) {
    forall i :: 0 <= i < |s| ==> s[i] != '"' && s[i] != '\n' && Step(s[i]) == 0
  }

  lemma {:induction false} BarePiece(s: string)
    requires Bare(s)
    ensures Piece(s, 0)
  {
    if s != [] {
      BarePiece(s[1..]);
      assert s == [s[0]] + s[1..];
    }
  }

  lemma BracketPiece(c: char)
    requires Step(c) != 0
    ensures Piece([c], Step(c))
  {
    assert [c][1..] == [];
  }

  /** Inside a string brackets do not count. */
  ghost predicate Within(s: string) { '\n' !in s && EndMode(s, Inside) == Inside && Open(s, Inside) == 0 }

  lemma {:induction false} InsideOpen(s: string, m: Mode)
    requires !m.Outside? && forall i :: 0 <= i < |s| ==> s[i] != '"'
    ensures Open(s, m) == 0
  {
    if s != [] {
      InsideOpen(s[1..], NextMode(m, s[0]));
    }
  }

  lemma EscapeChars(c: char)
    ensures forall i :: 0 <= i < |EscapeChar(c)| ==> EscapeChar(c)[i] != '\n' && (EscapeChar(c)[i] == '"' ==> c == '"')
  {
    assert forall d: nat :: d < 16 ==> HexDigit(d) != '\n' && HexDigit(d) != '"';
  }

  lemma EscapeWithin(c: char)
    ensures Within(EscapeChar(c))
  {
    EscapeCharKept(c);
    EscapeChars(c);
    if c == '"' {
      QuoteWithin();
    } else {
      hide EscapeChar;
      InsideOpen(EscapeChar(c), Inside);
    }
  }

  lemma QuoteWithin()
    ensures Open("\\\"", Inside) == 0 && EscapeChar('"') == "\\\""
  {
    assert "\\\""[1..] == "\"" && "\""[1..] == [];
    assert Open("\"", AfterBackslash) == 0;
  }

  lemma {:induction false} EscapedWithin(s: string)
    ensures Within(Escaped(s))
  {
    hide EscapeChar;
    if s != [] {
      EscapeWithin(s[0]);
      EscapedWithin(s[1..]);
      OpenAppend(EscapeChar(s[0]), Escaped(s[1..]), Inside);
      EndModeAppend(EscapeChar(s[0]), Escaped(s[1..]), Inside);
    }
  }

  lemma QuotedPiece(s: string)
    ensures Piece(Quoted(s), 0)
  {
    hide Escaped;
    var e := Escaped(s);
    EscapedWithin(s);
    assert Quoted(s) == "\"" + (e + "\"");
    assert "\""[1..] == [];
    OpenAppend(e, "\"", Inside);
    EndModeAppend(e, "\"", Inside);
    assert ("\"" + (e + "\""))[1..] == e + "\"";
  }

  // ----- The texts on a line -----

  /** Every real number in the tree is printed without whitespace, quotes and brackets. */
  ghost predicate TameReals(lib: Libc, v: Value)
    decreases v
  {
    match v
    case Real(d) => PlainReal(lib, d) && Bare(lib.show(d))
    case Arr(items) => forall x :: x in items ==> TameReals(lib, x)
    case Obj(ms) => forall m :: m in ms ==> TameReals(lib, m.value)
    case _ => true
  }

  lemma {:induction false} TamePlain(lib: Libc, v: Value)
    requires TameReals(lib, v)
    ensures PlainReals(lib, v)
  {
    match v
    case Arr(items) =>
      forall x | x in items ensures PlainReals(lib, x) {
        TamePlain(lib, x);
      }
    case Obj(ms) =>
      forall m | m in ms ensures PlainReals(lib, m.value) {
        TamePlain(lib, m.value);
      }
    case _ =>
  }

  lemma LeafPiece(lib: Libc, v: Value)
    requires IsLeaf(v) && TameReals(lib, v)
    ensures Piece(FlatText(lib, v), 0) && FlatText(lib, v) != [] && FlatText(lib, v)[0] != ' '
    ensures !Closes(FlatText(lib, v)[0])
  {
    match v
    case Null => BarePiece("null");
    case Bool(b) => BarePiece("true"); BarePiece("false");
    case Int(i) => NumberPiece(i);
    case UInt(u) => NumberPiece(u);
    case Real(d) => BarePiece(lib.show(d));
    case Str(s) => QuotedPiece(s);
    case Arr(_) =>
      BracketPiece('['); BracketPiece(']');
      PieceAppend("[", 1, "]", -1);
      assert "[" + "]" == "[]";
    case Obj(_) =>
      BracketPiece('{'); BracketPiece('}');
      PieceAppend("{", 1, "}", -1);
      assert "{" + "}" == "{}";
  }

  lemma NumberPiece(i: int)
    ensures Piece(IntText(i), 0) && IntText(i) != [] && IntText(i)[0] != ' ' && !Closes(IntText(i)[0])
  {
    IntTextShaped(i);
    BarePiece(IntText(i));
  }

  lemma {:induction false} ListedPiece(lib: Libc, items: seq<Value>, n: nat)
    requires n <= |items| && AllLeaves(items) && TameReals(lib, Arr(items))
    ensures Piece(Listed(lib, items, n), 0)
  {
    hide FlatText, Plain, Piece;
    if n == 0 {
      BarePiece("");
    } else {
      var v := items[n - 1];
      assert v in items;
      PlainFlat(lib, v);
      LeafPiece(lib, v);
      if n > 1 {
        ListedPiece(lib, items, n - 1);
        BarePiece(", ");
        PieceAppend(Listed(lib, items, n - 1), 0, ", ", 0);
        PieceAppend(Listed(lib, items, n - 1) + ", ", 0, Plain(lib, v), 0);
      }
    }
  }

  lemma InlinePiece(lib: Libc, v: Value)
    requires TameReals(lib, v) && (IsLeaf(v) || (v.Arr? && AllLeaves(v.items)))
    ensures Piece(Inline(lib, v), 0) && Inline(lib, v) != [] && Inline(lib, v)[0] != ' ' && !Closes(Inline(lib, v)[0])
  {
    hide FlatText, Plain, Piece, Listed;
    if v.Arr? && v.items != [] {
      var list := Listed(lib, v.items, |v.items|);
      ListedPiece(lib, v.items, |v.items|);
      BracketPiece('[');
      BracketPiece(']');
      BarePiece(" ");
      PieceAppend("[", 1, " ", 0);
      assert "[" + " " == "[ " && " " + "]" == " ]";
      PieceAppend(" ", 0, "]", -1);
      PieceAppend("[ ", 1, list, 0);
      PieceAppend("[ " + list, 1, " ]", -1);
    } else {
      PlainFlat(lib, v);
      LeafPiece(lib, v);
    }
  }

  // ----- Indented lines -----

  function LeadingBlanks(s: string): (k: nat)
    ensures k <= |s| && (k < |s| ==> s[k] != ' ') && forall i :: 0 <= i < k ==> s[i] == ' '
  {
    if s == [] || s[0] != ' ' then 0 else 1 + LeadingBlanks(s[1..])
  }

  /** What stands behind a line break where this many brackets are open: three blanks for each of them, not
      counting one that the next character closes. */
  predicate Indented(s: string, open: int) {
    var k := LeadingBlanks(s);
    k < |s| && k == 3 * (open - if Closes(s[k]) then 1 else 0)
  }

  lemma IndentedIs(n: nat, rest: string, open: int)
    requires rest != [] && rest[0] != ' ' && n == 3 * (open - if Closes(rest[0]) then 1 else 0)
    ensures Indented(Blanks(n) + rest, open)
  {
    var s := Blanks(n) + rest;
    assert s[n] == rest[0];
    LeadingIs(s, n);
  }

  lemma {:induction false} LeadingIs(s: string, k: nat)
    requires k < |s| && s[k] != ' ' && forall i :: 0 <= i < k ==> s[i] == ' '
    ensures LeadingBlanks(s) == k
  {
    if k > 0 {
      LeadingIs(s[1..], k - 1);
    }
  }

  function Sum(lines: seq<string>): int {
    if lines == [] then 0 else Sum(lines[..|lines| - 1]) + Open(lines[|lines| - 1], Outside)
  }

  lemma {:induction false} SumAppend(a: seq<string>, b: seq<string>)
    ensures Sum(a + b) == Sum(a) + Sum(b)
  {
    hide Open;
    if b == [] {
      assert a + b == a;
    } else {
      var n := |b| - 1;
      SumAppend(a, b[..n]);
      assert (a + b)[..|a + b| - 1] == a + b[..n];
    }
  }

  /** Lines that stand where `open` brackets are open. */
  ghost predicate Tidy(lines: seq<string>, open: int) {
    forall i :: 0 <= i < |lines| ==> TidyLine(lines[i]) && Indented(lines[i], open + Sum(lines[..i]))
  }

  ghost predicate TidyLine(s: string) { '\n' !in s && EndMode(s, Outside) == Outside }

  lemma TidyAppend(a: seq<string>, b: seq<string>, open: int)
    requires Tidy(a, open) && Tidy(b, open + Sum(a))
    ensures Tidy(a + b, open)
  {
    hide Tidy, Sum;
    forall i | 0 <= i < |a + b| ensures TidyAt(a + b, open, i) {
      if i < |a| {
        TidyFront(a, b, open, i);
      } else {
        TidyBack(a, b, open, i);
      }
    }
    AllTidy(a + b, open);
  }

  ghost predicate TidyAt(lines: seq<string>, open: int, i: nat)
    requires i < |lines|
  {
    TidyLine(lines[i]) && Indented(lines[i], open + Sum(lines[..i]))
  }

  lemma AllTidy(lines: seq<string>, open: int)
    requires forall i :: 0 <= i < |lines| ==> TidyAt(lines, open, i)
    ensures Tidy(lines, open)
  {
    hide TidyLine, Indented, Sum;
    forall i | 0 <= i < |lines| ensures TidyLine(lines[i]) && Indented(lines[i], open + Sum(lines[..i])) {
      assert TidyAt(lines, open, i);
    }
  }

  lemma TidyFront(a: seq<string>, b: seq<string>, open: int, i: nat)
    requires Tidy(a, open) && i < |a|
    ensures TidyAt(a + b, open, i)
  {
    hide Indented, TidyLine, Sum;
    assert (a + b)[..i] == a[..i];
  }

  lemma TidyBack(a: seq<string>, b: seq<string>, open: int, i: nat)
    requires Tidy(b, open + Sum(a)) && |a| <= i < |a + b|
    ensures TidyAt(a + b, open, i)
  {
    hide Indented, TidyLine, Sum;
    var j := i - |a|;
    assert (a + b)[..i] == a + b[..j];
    SumAppend(a, b[..j]);
    assert TidyLine(b[j]) && Indented(b[j], open + Sum(a) + Sum(b[..j]));
  }

  lemma TidyOne(s: string, x: int, open: int)
    requires Piece(s, x) && Indented(s, open)
    ensures Tidy([s], open) && Sum([s]) == x
  {
    assert [s][..0] == [];
    assert Sum([]) == 0;
  }

  /** A block at some depth. */
  ghost predicate Block(lines: seq<string>, depth: nat) { Tidy(lines, depth) && Sum(lines) == 0 }

  lemma BlockAppend(a: seq<string>, b: seq<string>, depth: nat)
    requires Block(a, depth) && Block(b, depth)
    ensures Block(a + b, depth)
  {
    hide Tidy, Sum;
    TidyAppend(a, b, depth);
    SumAppend(a, b);
  }

  lemma NoBlock(depth: nat)
    ensures Block([], depth)
  {}

  /** The start of a value's first line: the indentation and perhaps a name. */
  ghost predicate Lead(lead: string, depth: nat) {
    Piece(lead, 0) && (lead == Blanks(3 * depth) || (exists key :: lead == NameLead(depth, key)))
  }

  lemma BlankLead(depth: nat)
    ensures Lead(Blanks(3 * depth), depth)
  {
    BarePiece(Blanks(3 * depth));
  }

  lemma NameIsLead(depth: nat, key: string)
    ensures Lead(NameLead(depth, key), depth)
  {
    hide Quoted, Piece;
    BarePiece(Blanks(3 * depth));
    QuotedPiece(key);
    BarePiece(" : ");
    PieceAppend(Blanks(3 * depth), 0, Quoted(key), 0);
    PieceAppend(Blanks(3 * depth) + Quoted(key), 0, " : ", 0);
  }

  /** A first line. */
  lemma FirstLine(lead: string, depth: nat, text: string, x: int)
    requires Lead(lead, depth) && Piece(text, x) && text != [] && text[0] != ' ' && !Closes(text[0])
    ensures Tidy([lead + text], depth) && Sum([lead + text]) == x
  {
    hide Piece, Tidy, Sum, Indented, Quoted;
    PieceAppend(lead, 0, text, x);
    if lead == Blanks(3 * depth) {
      IndentedIs(3 * depth, text, depth);
    } else {
      var key :| lead == NameLead(depth, key);
      QuotedStart(key);
      var rest := Quoted(key) + (" : " + text);
      Regroup(Blanks(3 * depth) + Quoted(key), " : ", text);
      Regroup(Blanks(3 * depth), Quoted(key), " : " + text);
      IndentedIs(3 * depth, rest, depth);
    }
    TidyOne(lead + text, x, depth);
  }

  lemma QuotedStart(key: string)
    ensures Quoted(key) != [] && Quoted(key)[0] == '"'
  {}

  /** A last line, which closes a bracket. */
  lemma LastLine(depth: nat, c: char, tail: string)
    requires Closes(c) && (tail == "" || tail == ",")
    ensures Tidy([Blanks(3 * depth) + [c] + tail], depth + 1) && Sum([Blanks(3 * depth) + [c] + tail]) == -1
  {
    hide Piece, Tidy, Sum, Indented;
    BarePiece(Blanks(3 * depth));
    BracketPiece(c);
    BarePiece(tail);
    PieceAppend(Blanks(3 * depth), 0, [c], -1);
    PieceAppend(Blanks(3 * depth) + [c], -1, tail, 0);
    Regroup(Blanks(3 * depth), [c], tail);
    IndentedIs(3 * depth, [c] + tail, depth + 1);
    TidyOne(Blanks(3 * depth) + [c] + tail, -1, depth + 1);
  }

  /** An opening line, a block one level deeper, and a closing line. */
  lemma Enclosed(first: seq<string>, inner: seq<string>, last: seq<string>, depth: nat)
    requires Tidy(first, depth) && Sum(first) == 1 && Block(inner, depth + 1)
    requires Tidy(last, depth + 1) && Sum(last) == -1
    ensures Block(first + inner + last, depth)
  {
    hide Tidy, Sum;
    SumAppend(first, inner);
    SumAppend(first + inner, last);
    TidyAppend(first, inner, depth);
    TidyAppend(first + inner, last, depth);
  }

  /** The lines of a value are a block. */
  lemma {:induction false} LinesBlock(lib: Libc, v: Value, depth: nat, lead: string, tail: string)
    requires TameReals(lib, v) && Lead(lead, depth) && (tail == "" || tail == ",")
    ensures Block(Lines(lib, v, depth, lead, tail), depth)
    decreases v, 1, 0
  {
    hide MemberLines, ItemLines, Inline, Tidy, Sum, Piece, Lead, Block;
    if v.Obj? && v.members != [] {
      var n, last := |v.members| - 1, v.members[|v.members| - 1];
      var key := NameLead(depth + 1, last.key);
      assert last in v.members;
      MembersBlock(lib, v.members, n, depth + 1);
      NameIsLead(depth + 1, last.key);
      LinesBlock(lib, last.value, depth + 1, key, "");
      BlockAppend(MemberLines(lib, v.members, n, depth + 1), Lines(lib, last.value, depth + 1, key, ""), depth + 1);
      Wrapped(lead, depth, '{', MemberLines(lib, v.members, n, depth + 1),
              Lines(lib, last.value, depth + 1, key, ""), '}', tail);
    } else if v.Arr? && v.items != [] && !Narrow(lib, v.items) {
      var n := |v.items| - 1;
      var blanks := Blanks(3 * (depth + 1));
      assert v.items[n] in v.items;
      ItemsBlock(lib, v.items, n, depth + 1);
      BlankLead(depth + 1);
      LinesBlock(lib, v.items[n], depth + 1, blanks, "");
      BlockAppend(ItemLines(lib, v.items, n, depth + 1), Lines(lib, v.items[n], depth + 1, blanks, ""), depth + 1);
      Wrapped(lead, depth, '[', ItemLines(lib, v.items, n, depth + 1),
              Lines(lib, v.items[n], depth + 1, blanks, ""), ']', tail);
    } else {
      InlineBlock(lib, v, depth, lead, tail);
    }
  }

  lemma InlineBlock(lib: Libc, v: Value, depth: nat, lead: string, tail: string)
    requires TameReals(lib, v) && Lead(lead, depth) && (tail == "" || tail == ",")
    requires IsLeaf(v) || (v.Arr? && AllLeaves(v.items))
    ensures Block([lead + Inline(lib, v) + tail], depth)
  {
    hide Inline, Tidy, Sum, Piece, Lead;
    InlinePiece(lib, v);
    BarePiece(tail);
    PieceAppend(Inline(lib, v), 0, tail, 0);
    FirstLine(lead, depth, Inline(lib, v) + tail, 0);
    Regroup(lead, Inline(lib, v), tail);
  }

  lemma Wrapped(lead: string, depth: nat, c: char, a: seq<string>, b: seq<string>, d: char, tail: string)
    requires Lead(lead, depth) && Step(c) == 1 && Closes(d) && Block(a + b, depth + 1) && (tail == "" || tail == ",")
    ensures Block([lead + [c]] + a + b + [Blanks(3 * depth) + [d] + tail], depth)
  {
    hide Tidy, Sum, Piece, Lead, Block;
    BracketPiece(c);
    FirstLine(lead, depth, [c], 1);
    LastLine(depth, d, tail);
    Enclosed([lead + [c]], a + b, [Blanks(3 * depth) + [d] + tail], depth);
    Regroup([lead + [c]], a, b);
  }

  lemma {:induction false} MembersBlock(lib: Libc, ms: seq<Member>, n: nat, depth: nat)
    requires n <= |ms| && TameReals(lib, Obj(ms))
    ensures Block(MemberLines(lib, ms, n, depth), depth)
    decreases ms, 0, n
  {
    hide Block, Lines, NameLead, Lead;
    if n == 0 {
      NoBlock(depth);
    } else {
      var m := ms[n - 1];
      assert m in ms;
      MembersBlock(lib, ms, n - 1, depth);
      NameIsLead(depth, m.key);
      LinesBlock(lib, m.value, depth, NameLead(depth, m.key), ",");
      BlockAppend(MemberLines(lib, ms, n - 1, depth), Lines(lib, m.value, depth, NameLead(depth, m.key), ","), depth);
    }
  }

  lemma {:induction false} ItemsBlock(lib: Libc, items: seq<Value>, n: nat, depth: nat)
    requires n <= |items| && TameReals(lib, Arr(items))
    ensures Block(ItemLines(lib, items, n, depth), depth)
    decreases items, 0, n
  {
    hide Block, Lines, Lead;
    if n == 0 {
      NoBlock(depth);
    } else {
      var v := items[n - 1];
      assert v in items;
      ItemsBlock(lib, items, n - 1, depth);
      BlankLead(depth);
      LinesBlock(lib, v, depth, Blanks(3 * depth), ",");
      BlockAppend(ItemLines(lib, items, n - 1, depth), Lines(lib, v, depth, Blanks(3 * depth), ","), depth);
    }
  }

  // ----- The text -----

  /** A line break in joined lines ends one of them. */
  lemma {:induction false} BreakAt(lines: seq<string>, p: nat) returns (i: nat)
    requires lines != [] && (forall j :: 0 <= j < |lines| ==> '\n' !in lines[j])
    requires p < |Joined(lines)| && Joined(lines)[p] == '\n'
    ensures i < |lines| && Joined(lines)[..p] == Joined(lines[..i]) && lines[i] <= Joined(lines)[p + 1..]
    decreases |lines|
  {
    i := 0;
    hide Joined;
    var n := |lines| - 1;
    var less, last := lines[..n], lines[n];
    assert lines == less + [last];
    JoinedSnoc(less, last);
    if n > 0 {
      LastBreak(Joined(less), last);
      if p < |Joined(less)| {
        i := BreakAt(less, p);
        assert lines[..i] == less[..i];
        Longer(Joined(less), "\n" + last, p, less[i]);
        Regroup(Joined(less), "\n", last);
      } else {
        i := n;
        assert (Joined(less) + "\n" + last)[|Joined(less)| + 1..] == last;
      }
    } else {
      LastBreak("", last);
    }
  }

  /** No line break behind the last. */
  lemma LastBreak(before: string, last: string)
    requires '\n' !in last
    ensures forall q :: |before| < q < |before + "\n" + last| ==> (before + "\n" + last)[q] != '\n'
    ensures forall q :: 0 <= q < |last| ==> last[q] != '\n'
  {
    forall q | |before| < q < |before + "\n" + last| ensures (before + "\n" + last)[q] != '\n' {
      assert (before + "\n" + last)[q] == last[q - |before| - 1];
    }
  }

  lemma Longer(text: string, more: string, p: nat, line: string)
    requires p < |text| && line <= text[p + 1..]
    ensures (text + more)[..p] == text[..p] && (text + more)[p] == text[p] && line <= (text + more)[p + 1..]
  {
    assert (text + more)[p + 1..] == text[p + 1..] + more;
  }

  lemma {:induction false} JoinedOpen(lines: seq<string>)
    requires forall j :: 0 <= j < |lines| ==> TidyLine(lines[j])
    ensures Open(Joined(lines), Outside) == Sum(lines) && EndMode(Joined(lines), Outside) == Outside
    decreases |lines|
  {
    hide Open, EndMode;
    if |lines| > 1 {
      var n := |lines| - 1;
      var less, last := lines[..n], lines[n];
      JoinedOpen(less);
      NewlineNeutral();
      OpenAppend(Joined(less), "\n", Outside);
      EndModeAppend(Joined(less), "\n", Outside);
      OpenAppend(Joined(less) + "\n", last, Outside);
      EndModeAppend(Joined(less) + "\n", last, Outside);
    } else if |lines| == 1 {
      assert lines[..0] == [] && Sum([]) == 0;
    } else {
      Nothing();
    }
  }

  lemma Nothing()
    ensures Open("", Outside) == 0 && EndMode("", Outside) == Outside
  {}

  lemma NewlineNeutral()
    ensures Open("\n", Outside) == 0 && EndMode("\n", Outside) == Outside
  {
    assert "\n"[1..] == [];
  }

  lemma {:induction false} BlanksOf(s: string, t: string)
    requires LeadingBlanks(s) < |s|
    ensures LeadingBlanks(s + t) == LeadingBlanks(s)
  {
    LeadingIs(s + t, LeadingBlanks(s));
  }

  /** Every line break in styled text stands outside strings and is followed by three blanks for every
      bracket open there, not counting one that the next character closes. */
  lemma Indentation(lib: Libc, v: Value, p: nat)
    requires TameReals(lib, v)
    ensures var text := StyledText(lib, "", "", v);
            p < |text| && text[p] == '\n' ==>
              EndMode(text[..p], Outside) == Outside && Indented(text[p + 1..], Open(text[..p], Outside))
  {
    hide StyledText, Lines, Joined, Open, EndMode, Indented, Sum;
    var lines, text := Lines(lib, v, 0, "", ""), StyledText(lib, "", "", v);
    TamePlain(lib, v);
    StyledLines(lib, v);
    BlankLead(0);
    assert Blanks(3 * 0) == "";
    LinesBlock(lib, v, 0, "", "");
    if p < |text| && text[p] == '\n' {
      var i := BreakAt(lines, p);
      JoinedOpen(lines[..i]);
      assert Indented(lines[i], 0 + Sum(lines[..i]));
      var rest := text[p + 1..];
      assert rest == lines[i] + rest[|lines[i]|..];
      Prolonged(lines[i], rest[|lines[i]|..], Sum(lines[..i]));
    }
  }

  lemma Prolonged(s: string, t: string, open: int)
    requires Indented(s, open)
    ensures Indented(s + t, open)
  {
    BlanksOf(s, t);
  }

  /** So in what the writer returns, whatever it wrote before. */
  method WriteIndented(writer: StyledWriter, v: Value) returns (text: string)
    requires TameReals(writer.lib, v)
    modifies writer
    ensures text != [] && text[|text| - 1] == '\n'
    ensures forall p :: 0 <= p < |text| - 1 && text[p] == '\n' ==>
              EndMode(text[..p], Outside) == Outside && Indented(text[p + 1..], Open(text[..p], Outside))
  {
    hide StyledText, Open, EndMode, Indented, TameReals;
    ghost var lib := writer.lib;
    text := writer.Write(v);
    ghost var body := StyledText(lib, "", "", v);
    forall p | 0 <= p < |text| - 1 && text[p] == '\n'
      ensures EndMode(text[..p], Outside) == Outside && Indented(text[p + 1..], Open(text[..p], Outside))
    {
      Indentation(lib, v, p);
      assert text[..p] == body[..p] && text[p + 1..] == body[p + 1..] + "\n";
      Prolonged(body[p + 1..], "\n", Open(body[..p], Outside));
    }
  }
}
