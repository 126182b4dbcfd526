/** Both writers print the tokens of the value, and the reader undoes both. */
module JsonLaws {
  import opened Basics
  import opened Decimal
  import opened JsonValue
  import opened JsonText
  import opened JsonGrammar
  import opened JsonRoundTrip
  import opened JsonWriter
  import opened JsonReader

  // ----- Tokens, seen from the end -----

  lemma {:induction false} ItemTokensSnoc(lib: Libc, items: seq<Value>, v: Value)
    ensures ItemTokens(lib, items + [v]) == Then(ItemTokens(lib, items), |items|) + Tokens(lib, v)
  {
    if items == [] {
      assert items + [v] == [v];
    } else {
      var first, more := Tokens(lib, items[0]), items[1..];
      assert (items + [v])[1..] == more + [v];
      ItemTokensSnoc(lib, more, v);
      if more == [] {
        assert more + [v] == [v];
      } else {
        Regroup(first + [","], Then(ItemTokens(lib, more), |more|), Tokens(lib, v));
        assert ItemTokens(lib, items) + [","] == first + [","] + Then(ItemTokens(lib, more), |more|);
      }
    }
  }

  lemma {:induction false} MemberTokensSnoc(lib: Libc, ms: seq<Member>, m: Member)
    ensures MemberTokens(lib, ms + [m]) ==
            Then(MemberTokens(lib, ms), |ms|) + [Quoted(m.key), ":"] + Tokens(lib, m.value)
  {
    var last := [Quoted(m.key), ":"] + Tokens(lib, m.value);
    if ms == [] {
      assert ms + [m] == [m];
    } else {
      var first, more := [Quoted(ms[0].key), ":"] + Tokens(lib, ms[0].value), ms[1..];
      assert (ms + [m])[1..] == more + [m];
      MemberTokensSnoc(lib, more, m);
      if more == [] {
        assert more + [m] == [m];
      } else {
        Regroup(Then(MemberTokens(lib, more), |more|), [Quoted(m.key), ":"], Tokens(lib, m.value));
        Regroup(first + [","], Then(MemberTokens(lib, more), |more|), last);
        assert MemberTokens(lib, ms) + [","] == first + [","] + Then(MemberTokens(lib, more), |more|);
      }
    }
    Regroup(Then(MemberTokens(lib, ms), |ms|), [Quoted(m.key), ":"], Tokens(lib, m.value));
  }

  /** The separator behind n printed elements. */
  ghost function Then(toks: seq<string>, n: nat): seq<string> {
    if n > 0 then toks + [","] else toks
  }

  lemma {:induction false} TokensKept(lib: Libc, v: Value)
    requires PlainReals(lib, v)
    ensures forall t :: t in Tokens(lib, v) ==> Kept(t)
    decreases v, 0
  {
    match v
    case Int(i) => IntTextKept(i);
    case UInt(u) => IntTextKept(u);
    case Real(d) => PlainKept(lib.show(d));
    case Str(s) => QuotedKept(s);
    case Arr(items) =>
      ItemTokensKept(lib, items);
      PlainKept("["); PlainKept("]");
    case Obj(ms) =>
      MemberTokensKept(lib, ms);
      PlainKept("{"); PlainKept("}");
    case Null => PlainKept("null");
    case Bool(b) => PlainKept("true"); PlainKept("false");
  }

  lemma IntTextKept(i: int)
    ensures Kept(IntText(i))
  {
    IntTextShaped(i);
    PlainKept(IntText(i));
  }

  lemma {:induction false} ItemTokensKept(lib: Libc, items: seq<Value>)
    requires forall x :: x in items ==> PlainReals(lib, x)
    ensures forall t :: t in ItemTokens(lib, items) ==> Kept(t)
    decreases items, 1
  {
    if items != [] {
      TokensKept(lib, items[0]);
      ItemTokensKept(lib, items[1..]);
      PlainKept(",");
    }
  }

  lemma {:induction false} MemberTokensKept(lib: Libc, ms: seq<Member>)
    requires forall m :: m in ms ==> PlainReals(lib, m.value)
    ensures forall t :: t in MemberTokens(lib, ms) ==> Kept(t)
    decreases ms, 1
  {
    if ms != [] {
      QuotedKept(ms[0].key);
      TokensKept(lib, ms[0].value);
      MemberTokensKept(lib, ms[1..]);
      PlainKept(","); PlainKept(":");
    }
  }

  // ----- Compact output -----

  lemma AppendToken(doc: string, toks: seq<string>, t: string)
    requires Spaced(doc, toks) && Solid(t)
    ensures Spaced(doc + t, toks + [t])
  {
    SpacedOne(t);
    SpacedAppend(doc, toks, t, [t]);
  }

  lemma AppendGap(doc: string, toks: seq<string>, gap: string)
    requires Spaced(doc, toks) && forall i :: 0 <= i < |gap| ==> IsSpace(gap[i])
    ensures Spaced(doc + gap, toks)
  {
    SpacedGap(gap);
    SpacedAppend(doc, toks, gap, []);
    assert toks + [] == toks;
  }

  lemma FlatSpaced(lib: Libc, doc: string, toks: seq<string>, v: Value)
    requires Spaced(doc, toks) && PlainReals(lib, v) && Size(v) == 0
    ensures Spaced(doc + FlatText(lib, v), toks + Tokens(lib, v))
  {
    TokensKept(lib, v);
    match v
    case Arr(items) =>
      AppendPair(doc, toks, "[", "]");
      assert Tokens(lib, v) == ["[", "]"] && "[" + "]" == "[]";
    case Obj(ms) =>
      AppendPair(doc, toks, "{", "}");
      assert Tokens(lib, v) == ["{", "}"] && "{" + "}" == "{}";
    case _ => AppendToken(doc, toks, FlatText(lib, v));
  }

  lemma AppendPair(doc: string, toks: seq<string>, a: string, b: string)
    requires Spaced(doc, toks) && Solid(a) && Solid(b)
    ensures Spaced(doc + (a + b), toks + [a, b])
  {
    AppendToken(doc, toks, a);
    AppendToken(doc + a, toks + [a], b);
    Regroup(doc, a, b);
    assert toks + [a] + [b] == toks + [a, b];
  }

  lemma AppendComma(doc: string, toks: seq<string>, n: nat)
    requires Spaced(doc, toks)
    ensures Spaced(Comma(doc, n), Then(toks, n))
  {
    AppendToken(doc, toks, ",");
  }

  /** The compact text, with or without YAML blanks, is a spacing of the value's tokens. */
  lemma {:induction false} FastSpaced(lib: Libc, yaml: bool, doc: string, toks: seq<string>, v: Value)
    requires Spaced(doc, toks) && PlainReals(lib, v)
    ensures Spaced(FastText(lib, yaml, doc, v), toks + Tokens(lib, v))
    decreases v, 0
  {
    match v
    case Arr(items) =>
      AppendToken(doc, toks, "[");
      FastItemsSpaced(lib, yaml, doc + "[", toks + ["["], items, |items|);
      assert items[..|items|] == items;
      AppendToken(FastItems(lib, yaml, doc + "[", items, |items|), toks + ["["] + ItemTokens(lib, items), "]");
      Regroup(toks, ["["], ItemTokens(lib, items));
      Regroup(toks, ["["] + ItemTokens(lib, items), ["]"]);
    case Obj(ms) =>
      AppendToken(doc, toks, "{");
      FastMembersSpaced(lib, yaml, doc + "{", toks + ["{"], ms, |ms|);
      assert ms[..|ms|] == ms;
      AppendToken(FastMembers(lib, yaml, doc + "{", ms, |ms|), toks + ["{"] + MemberTokens(lib, ms), "}");
      Regroup(toks, ["{"], MemberTokens(lib, ms));
      Regroup(toks, ["{"] + MemberTokens(lib, ms), ["}"]);
    case _ => FlatSpaced(lib, doc, toks, v);
  }

  lemma {:induction false} FastItemsSpaced(lib: Libc, yaml: bool, doc: string, toks: seq<string>, items: seq<Value>,
                                           n: nat)
    requires Spaced(doc, toks) && n <= |items| && forall x :: x in items ==> PlainReals(lib, x)
    ensures Spaced(FastItems(lib, yaml, doc, items, n), toks + ItemTokens(lib, items[..n]))
    decreases items, n
  {
    if n == 0 {
      assert toks + ItemTokens(lib, items[..0]) == toks;
    } else {
      var before, sofar := FastItems(lib, yaml, doc, items, n - 1), ItemTokens(lib, items[..n - 1]);
      FastItemsSpaced(lib, yaml, doc, toks, items, n - 1);
      AppendComma(before, toks + sofar, n - 1);
      FastSpaced(lib, yaml, Comma(before, n - 1), Then(toks + sofar, n - 1), items[n - 1]);
      ItemTokensStep(lib, toks, items, n);
    }
  }

  lemma ItemTokensStep(lib: Libc, toks: seq<string>, items: seq<Value>, n: nat)
    requires 0 < n <= |items|
    ensures Then(toks + ItemTokens(lib, items[..n - 1]), n - 1) + Tokens(lib, items[n - 1]) ==
            toks + ItemTokens(lib, items[..n])
  {
    var sofar := ItemTokens(lib, items[..n - 1]);
    assert items[..n] == items[..n - 1] + [items[n - 1]];
    ItemTokensSnoc(lib, items[..n - 1], items[n - 1]);
    Regroup(toks, sofar, [","]);
    Regroup(toks, Then(sofar, n - 1), Tokens(lib, items[n - 1]));
  }

  lemma MemberTokensStep(lib: Libc, toks: seq<string>, ms: seq<Member>, n: nat)
    requires 0 < n <= |ms|
    ensures Then(toks + MemberTokens(lib, ms[..n - 1]), n - 1) + [Quoted(ms[n - 1].key)] + [":"]
            + Tokens(lib, ms[n - 1].value) == toks + MemberTokens(lib, ms[..n])
  {
    var m, sofar := ms[n - 1], MemberTokens(lib, ms[..n - 1]);
    assert ms[..n] == ms[..n - 1] + [m];
    MemberTokensSnoc(lib, ms[..n - 1], m);
    Regroup(toks, sofar, [","]);
    Regroup(toks, Then(sofar, n - 1), [Quoted(m.key), ":"]);
    Regroup(toks, Then(sofar, n - 1) + [Quoted(m.key), ":"], Tokens(lib, m.value));
    assert toks + Then(sofar, n - 1) + [Quoted(m.key)] + [":"] ==
           toks + Then(sofar, n - 1) + [Quoted(m.key), ":"];
  }

  lemma {:induction false} FastMembersSpaced(lib: Libc, yaml: bool, doc: string, toks: seq<string>, ms: seq<Member>,
                                             n: nat)
    requires Spaced(doc, toks) && n <= |ms| && forall m :: m in ms ==> PlainReals(lib, m.value)
    ensures Spaced(FastMembers(lib, yaml, doc, ms, n), toks + MemberTokens(lib, ms[..n]))
    decreases ms, n
  {
    if n == 0 {
      assert toks + MemberTokens(lib, ms[..0]) == toks;
    } else {
      var m := ms[n - 1];
      var before, sofar := FastMembers(lib, yaml, doc, ms, n - 1), MemberTokens(lib, ms[..n - 1]);
      FastMembersSpaced(lib, yaml, doc, toks, ms, n - 1);
      AppendComma(before, toks + sofar, n - 1);
      var t := Then(toks + sofar, n - 1);
      var named := Comma(before, n - 1) + Quoted(m.key);
      AppendName(Comma(before, n - 1), t, m.key, if yaml then ": " else ":");
      FastSpaced(lib, yaml, named + (if yaml then ": " else ":"), t + [Quoted(m.key)] + [":"], m.value);
      MemberTokensStep(lib, toks, ms, n);
    }
  }

  lemma AppendName(doc: string, toks: seq<string>, key: string, colon: string)
    requires Spaced(doc, toks) && (colon == ":" || colon == ": " || colon == " : ")
    ensures Spaced(doc + Quoted(key) + colon, toks + [Quoted(key)] + [":"])
  {
    var d, t := doc + Quoted(key), toks + [Quoted(key)];
    AppendToken(doc, toks, Quoted(key));
    if colon == " : " {
      AppendGap(d, t, " ");
      AppendToken(d + " ", t, ":");
      AppendGap(d + " " + ":", t + [":"], " ");
      assert d + " " + ":" + " " == d + colon;
    } else {
      AppendToken(d, t, ":");
      AppendGap(d + ":", t + [":"], " ");
      assert d + ":" + " " == d + ": ";
    }
  }

  /** Without YAML blanks the compact text is the tokens and nothing else. */
  lemma {:induction false} FastExact(lib: Libc, doc: string, v: Value)
    ensures FastText(lib, false, doc, v) == doc + Concat(Tokens(lib, v))
    decreases v, 0
  {
    match v
    case Arr(items) =>
      FastItemsExact(lib, doc + "[", items, |items|);
      assert items[..|items|] == items;
      Enclosed(doc, "[", ItemTokens(lib, items), "]");
    case Obj(ms) =>
      FastMembersExact(lib, doc + "{", ms, |ms|);
      assert ms[..|ms|] == ms;
      Enclosed(doc, "{", MemberTokens(lib, ms), "}");
    case _ => ConcatOne(FlatText(lib, v));
  }

  lemma ConcatOne(t: string)
    ensures Concat([t]) == t
  {
    assert [t][1..] == [];
    assert Concat([t]) == t + Concat([]);
  }

  lemma Enclosed(doc: string, open: string, toks: seq<string>, close: string)
    ensures doc + open + Concat(toks) + close == doc + Concat([open] + toks + [close])
  {
    ConcatAppend([open] + toks, [close]);
    ConcatAppend([open], toks);
    ConcatOne(open);
    ConcatOne(close);
  }

  lemma {:induction false} FastItemsExact(lib: Libc, doc: string, items: seq<Value>, n: nat)
    requires n <= |items|
    ensures FastItems(lib, false, doc, items, n) == doc + Concat(ItemTokens(lib, items[..n]))
    decreases items, n
  {
    if n > 0 {
      var sofar := ItemTokens(lib, items[..n - 1]);
      FastItemsExact(lib, doc, items, n - 1);
      FastExact(lib, Comma(doc + Concat(sofar), n - 1), items[n - 1]);
      ConcatThen(doc, sofar, n - 1, Tokens(lib, items[n - 1]));
      ItemTokensStep(lib, [], items, n);
      assert [] + sofar == sofar && [] + ItemTokens(lib, items[..n]) == ItemTokens(lib, items[..n]);
    }
  }

  lemma ConcatThen(doc: string, sofar: seq<string>, n: nat, next: seq<string>)
    ensures Comma(doc + Concat(sofar), n) + Concat(next) == doc + Concat(Then(sofar, n) + next)
  {
    ConcatAppend(Then(sofar, n), next);
    ConcatAppend(sofar, [","]);
    ConcatOne(",");
    Regroup(doc, Concat(sofar), ",");
    Regroup(doc, Concat(Then(sofar, n)), Concat(next));
  }

  lemma {:induction false} FastMembersExact(lib: Libc, doc: string, ms: seq<Member>, n: nat)
    requires n <= |ms|
    ensures FastMembers(lib, false, doc, ms, n) == doc + Concat(MemberTokens(lib, ms[..n]))
    decreases ms, n
  {
    if n > 0 {
      var m, sofar := ms[n - 1], MemberTokens(lib, ms[..n - 1]);
      FastMembersExact(lib, doc, ms, n - 1);
      var before := Comma(doc + Concat(sofar), n - 1);
      FastExact(lib, before + Quoted(m.key) + ":", m.value);
      ConcatNamed(before, m.key, Tokens(lib, m.value));
      var next := [Quoted(m.key)] + ([":"] + Tokens(lib, m.value));
      ConcatThen(doc, sofar, n - 1, next);
      MemberTokensUpTo(lib, ms, n);
    }
  }

  lemma MemberTokensUpTo(lib: Libc, ms: seq<Member>, n: nat)
    requires 0 < n <= |ms|
    ensures MemberTokens(lib, ms[..n]) == Then(MemberTokens(lib, ms[..n - 1]), n - 1)
            + ([Quoted(ms[n - 1].key)] + ([":"] + Tokens(lib, ms[n - 1].value)))
  {
    var m, sofar := ms[n - 1], MemberTokens(lib, ms[..n - 1]);
    MemberTokensStep(lib, [], ms, n);
    assert [] + sofar == sofar && [] + MemberTokens(lib, ms[..n]) == MemberTokens(lib, ms[..n]);
    Regroup(Then(sofar, n - 1) + [Quoted(m.key)], [":"], Tokens(lib, m.value));
    Regroup(Then(sofar, n - 1), [Quoted(m.key)], [":"] + Tokens(lib, m.value));
  }

  lemma ConcatNamed(doc: string, key: string, value: seq<string>)
    ensures doc + Quoted(key) + ":" + Concat(value) == doc + Concat([Quoted(key)] + ([":"] + value))
  {
    ConcatAppend([Quoted(key)], [":"] + value);
    ConcatAppend([":"], value);
    ConcatOne(Quoted(key));
    ConcatOne(":");
    Regroup(doc + Quoted(key), ":", Concat(value));
    Regroup(doc, Quoted(key), ":" + Concat(value));
  }

  // ----- Styled output -----

  ghost predicate Blank(indent: string) { forall i :: 0 <= i < |indent| ==> indent[i] == ' ' }

  lemma IndentSpaced(doc: string, toks: seq<string>, indent: string)
    requires Spaced(doc, toks) && Blank(indent)
    ensures Spaced(WithIndent(doc, indent), toks)
  {
    AppendGap(doc, toks, indent);
    AppendGap(doc, toks, "\n");
    AppendGap(doc + "\n", toks, indent);
  }

  /** The styled text is a spacing of the value's tokens. */
  lemma {:induction false} StyledSpaced(lib: Libc, doc: string, indent: string, toks: seq<string>, v: Value)
    requires Spaced(doc, toks) && PlainReals(lib, v) && Blank(indent)
    ensures Spaced(StyledText(lib, doc, indent, v), toks + Tokens(lib, v))
    decreases v, 0
  {
    if Size(v) == 0 {
      FlatIsStyled(lib, doc, indent, v);
      FlatSpaced(lib, doc, toks, v);
    } else {
      match v
      case Arr(items) =>
        if MultiLine(lib, items) {
          StyledArraySpaced(lib, doc, indent, toks, items);
        } else {
          LineSpaced(lib, doc, toks, items);
        }
      case Obj(ms) => StyledObjectSpaced(lib, doc, indent, toks, ms);
    }
  }

  lemma {:induction false} StyledArraySpaced(lib: Libc, doc: string, indent: string, toks: seq<string>,
                                             items: seq<Value>)
    requires Spaced(doc, toks) && Blank(indent) && forall x :: x in items ==> PlainReals(lib, x)
    ensures Spaced(WithIndent(StyledItems(lib, WithIndent(doc, indent) + "[", indent + INDENT, items, |items|),
                              indent) + "]",
                   toks + (["["] + ItemTokens(lib, items) + ["]"]))
    decreases items, |items| + 1
  {
    var open := WithIndent(doc, indent) + "[";
    var inner := StyledItems(lib, open, indent + INDENT, items, |items|);
    IndentSpaced(doc, toks, indent);
    AppendToken(WithIndent(doc, indent), toks, "[");
    StyledItemsSpaced(lib, open, indent + INDENT, toks + ["["], items, |items|);
    assert items[..|items|] == items;
    IndentSpaced(inner, toks + ["["] + ItemTokens(lib, items), indent);
    AppendToken(WithIndent(inner, indent), toks + ["["] + ItemTokens(lib, items), "]");
    Regroup(toks, ["["], ItemTokens(lib, items));
    Regroup(toks, ["["] + ItemTokens(lib, items), ["]"]);
  }

  lemma {:induction false} StyledItemsSpaced(lib: Libc, doc: string, indent: string, toks: seq<string>,
                                             items: seq<Value>, n: nat)
    requires Spaced(doc, toks) && n <= |items| && Blank(indent) && forall x :: x in items ==> PlainReals(lib, x)
    ensures Spaced(StyledItems(lib, doc, indent, items, n), toks + ItemTokens(lib, items[..n]))
    decreases items, n
  {
    if n == 0 {
      assert toks + ItemTokens(lib, items[..0]) == toks;
    } else {
      var before, sofar := StyledItems(lib, doc, indent, items, n - 1), ItemTokens(lib, items[..n - 1]);
      StyledItemsSpaced(lib, doc, indent, toks, items, n - 1);
      AppendComma(before, toks + sofar, n - 1);
      var t := Then(toks + sofar, n - 1);
      IndentSpaced(Comma(before, n - 1), t, indent);
      StyledSpaced(lib, WithIndent(Comma(before, n - 1), indent), indent, t, items[n - 1]);
      ItemTokensStep(lib, toks, items, n);
    }
  }

  lemma LineSpaced(lib: Libc, doc: string, toks: seq<string>, items: seq<Value>)
    requires Spaced(doc, toks) && !HasNested(items) && forall x :: x in items ==> PlainReals(lib, x)
    ensures Spaced(LineItems(lib, doc + "[ ", items, |items|) + " ]", toks + (["["] + ItemTokens(lib, items) + ["]"]))
  {
    AppendToken(doc, toks, "[");
    AppendGap(doc + "[", toks + ["["], " ");
    assert doc + "[" + " " == doc + "[ ";
    LineItemsSpaced(lib, doc + "[ ", toks + ["["], items, |items|);
    assert items[..|items|] == items;
    var line, t := LineItems(lib, doc + "[ ", items, |items|), toks + ["["] + ItemTokens(lib, items);
    AppendGap(line, t, " ");
    AppendToken(line + " ", t, "]");
    assert line + " " + "]" == line + " ]";
    Regroup(toks, ["["], ItemTokens(lib, items));
    Regroup(toks, ["["] + ItemTokens(lib, items), ["]"]);
  }

  lemma {:induction false} LineItemsSpaced(lib: Libc, doc: string, toks: seq<string>, items: seq<Value>, n: nat)
    requires Spaced(doc, toks) && n <= |items| && !HasNested(items) && forall x :: x in items ==> PlainReals(lib, x)
    ensures Spaced(LineItems(lib, doc, items, n), toks + ItemTokens(lib, items[..n]))
  {
    if n == 0 {
      assert toks + ItemTokens(lib, items[..0]) == toks;
    } else {
      var before, sofar := LineItems(lib, doc, items, n - 1), ItemTokens(lib, items[..n - 1]);
      LineItemsSpaced(lib, doc, toks, items, n - 1);
      AppendComma(before, toks + sofar, n - 1);
      var t := Then(toks + sofar, n - 1);
      if n > 1 {
        AppendGap(before + ",", t, " ");
        assert before + "," + " " == before + ", ";
      }
      FlatSpaced(lib, if n > 1 then before + ", " else before, t, items[n - 1]);
      ItemTokensStep(lib, toks, items, n);
    }
  }

  lemma {:induction false} StyledObjectSpaced(lib: Libc, doc: string, indent: string, toks: seq<string>,
                                              ms: seq<Member>)
    requires Spaced(doc, toks) && Blank(indent) && forall m :: m in ms ==> PlainReals(lib, m.value)
    ensures Spaced(WithIndent(StyledMembers(lib, WithIndent(doc, indent) + "{", indent + INDENT, ms, |ms|),
                              indent) + "}",
                   toks + (["{"] + MemberTokens(lib, ms) + ["}"]))
    decreases ms, |ms| + 1
  {
    var open := WithIndent(doc, indent) + "{";
    var inner := StyledMembers(lib, open, indent + INDENT, ms, |ms|);
    IndentSpaced(doc, toks, indent);
    AppendToken(WithIndent(doc, indent), toks, "{");
    StyledMembersSpaced(lib, open, indent + INDENT, toks + ["{"], ms, |ms|);
    assert ms[..|ms|] == ms;
    IndentSpaced(inner, toks + ["{"] + MemberTokens(lib, ms), indent);
    AppendToken(WithIndent(inner, indent), toks + ["{"] + MemberTokens(lib, ms), "}");
    Regroup(toks, ["{"], MemberTokens(lib, ms));
    Regroup(toks, ["{"] + MemberTokens(lib, ms), ["}"]);
  }

  lemma {:induction false} StyledMembersSpaced(lib: Libc, doc: string, indent: string, toks: seq<string>,
                                               ms: seq<Member>, n: nat)
    requires Spaced(doc, toks) && n <= |ms| && Blank(indent) && forall m :: m in ms ==> PlainReals(lib, m.value)
    ensures Spaced(StyledMembers(lib, doc, indent, ms, n), toks + MemberTokens(lib, ms[..n]))
    decreases ms, n
  {
    if n == 0 {
      assert toks + MemberTokens(lib, ms[..0]) == toks;
    } else {
      var m := ms[n - 1];
      var before, sofar := StyledMembers(lib, doc, indent, ms, n - 1), MemberTokens(lib, ms[..n - 1]);
      StyledMembersSpaced(lib, doc, indent, toks, ms, n - 1);
      AppendComma(before, toks + sofar, n - 1);
      var t := Then(toks + sofar, n - 1);
      var line := WithIndent(Comma(before, n - 1), indent);
      IndentSpaced(Comma(before, n - 1), t, indent);
      AppendName(line, t, m.key, " : ");
      StyledSpaced(lib, line + Quoted(m.key) + " : ", indent, t + [Quoted(m.key)] + [":"], m.value);
      MemberTokensStep(lib, toks, ms, n);
    }
  }

  // ----- The laws -----

  lemma Finished(doc: string, toks: seq<string>)
    requires Spaced(doc, [] + toks)
    ensures Spaced(doc + "\n", toks)
  {
    assert [] + toks == toks;
    AppendGap(doc, toks, "\n");
  }

  /** A number token has no whitespace and no quotes. */
  lemma {:induction false} ExactIsPlain(lib: Libc, v: Value)
    requires ExactReals(lib, v)
    ensures PlainReals(lib, v)
  {
    match v
    case Arr(items) =>
      forall x | x in items ensures PlainReals(lib, x) {
        ExactIsPlain(lib, x);
      }
    case Obj(ms) =>
      forall m | m in ms ensures PlainReals(lib, m.value) {
        ExactIsPlain(lib, m.value);
      }
    case _ =>
  }

  /** Parsing what `FastWriter` writes, in either mode, gives the value back. */
  lemma FastRoundTrip(cfg: Config, yaml: bool, v: Value, root: Value)
    requires WellFormed(v) && ExactReals(cfg.lib, v)
    ensures var doc := FastText(cfg.lib, yaml, "", v) + "\n";
            ParseDocument(cfg, doc, root) == Outcome([], Restored(v), RootErrors(cfg, v, doc))
  {
    ExactIsPlain(cfg.lib, v);
    FastSpaced(cfg.lib, yaml, "", [], v);
    Finished(FastText(cfg.lib, yaml, "", v), Tokens(cfg.lib, v));
    ParseSpaced(cfg, v, FastText(cfg.lib, yaml, "", v) + "\n", root);
  }

  /** Parsing what `StyledWriter` writes gives the value back. */
  lemma StyledRoundTrip(cfg: Config, v: Value, root: Value)
    requires WellFormed(v) && ExactReals(cfg.lib, v)
    ensures var doc := StyledText(cfg.lib, "", "", v) + "\n";
            ParseDocument(cfg, doc, root) == Outcome([], Restored(v), RootErrors(cfg, v, doc))
  {
    ExactIsPlain(cfg.lib, v);
    StyledSpaced(cfg.lib, "", "", [], v);
    Finished(StyledText(cfg.lib, "", "", v), Tokens(cfg.lib, v));
    ParseSpaced(cfg, v, StyledText(cfg.lib, "", "", v) + "\n", root);
  }

  /** Styled output without the whitespace outside its strings is compact output. */
  lemma StyledStripsToFast(lib: Libc, v: Value)
    requires PlainReals(lib, v)
    ensures Strip(StyledText(lib, "", "", v) + "\n", Outside) == FastText(lib, false, "", v)
  {
    StyledSpaced(lib, "", "", [], v);
    Finished(StyledText(lib, "", "", v), Tokens(lib, v));
    TokensKept(lib, v);
    StripSpaced(StyledText(lib, "", "", v) + "\n", Tokens(lib, v));
    FastExact(lib, "", v);
    assert "" + Concat(Tokens(lib, v)) == Concat(Tokens(lib, v));
  }

  /** Write with `FastWriter`, then parse: the value comes back, and the parse succeeds unless a
      strict root forbids a scalar. */
  method WriteThenParse(cfg: Config, yaml: bool, v: Value, root: Value) returns (ok: bool, result: Value, text: string)
    requires WellFormed(v) && ExactReals(cfg.lib, v)
    ensures result == Restored(v)
    ensures ok <==> !cfg.strictRoot || v.Arr? || v.Obj? || v.Null?
    ensures text == FastText(cfg.lib, yaml, "", v) + "\n"
  {
    hide FastText, ParseDocument, Restored, WellFormed, ExactReals;
    var writer := new FastWriter(cfg.lib);
    if yaml {
      writer.EnableYamlCompatibility();
    }
    text := writer.Write(v);
    var reader := new Reader(cfg);
    ok, result := reader.Parse(text, root);
    FastRoundTrip(cfg, yaml, v, root);
  }

  /** The same with `StyledWriter`. */
  method StyleThenParse(cfg: Config, v: Value, root: Value) returns (ok: bool, result: Value, text: string)
    requires WellFormed(v) && ExactReals(cfg.lib, v)
    ensures result == Restored(v)
    ensures ok <==> !cfg.strictRoot || v.Arr? || v.Obj? || v.Null?
    ensures Strip(text, Outside) == FastText(cfg.lib, false, "", v)
  {
    hide FastText, StyledText, ParseDocument, Restored, WellFormed, ExactReals, PlainReals, Strip;
    var writer := new StyledWriter(cfg.lib);
    text := writer.Write(v);
    var reader := new Reader(cfg);
    ok, result := reader.Parse(text, root);
    StyledRoundTrip(cfg, v, root);
    ExactIsPlain(cfg.lib, v);
    StyledStripsToFast(cfg.lib, v);
  }
}
