/** The lines the styled writer prints (json_writer.cpp:266-471), written down line by line. */
module JsonLayout {
  import opened Basics
  import opened JsonValue
  import opened JsonText
  import opened JsonRoundTrip
  import opened JsonWriter
  import opened JsonLaws

  function Blanks(n: nat): (s: string)
    ensures |s| == n && forall i :: 0 <= i < n ==> s[i] == ' '
  {
    seq(n, i => ' ')
  }

  /** Not a container with something in it. */
  predicate IsLeaf(v: Value) { !(v.Arr? && v.items != []) && !(v.Obj? && v.members != []) }

  /** The tokens of a value without anything between them. */
  ghost function Plain(lib: Libc, v: Value): string { Concat(Tokens(lib, v)) }

  ghost function Listed(lib: Libc, items: seq<Value>, n: nat): string
    requires n <= |items|
  {
    if n == 0 then ""
    else if n == 1 then Plain(lib, items[0])
    else Listed(lib, items, n - 1) + ", " + Plain(lib, items[n - 1])
  }

  /** An array on one line. */
  ghost function OneLine(lib: Libc, items: seq<Value>): string { "[ " + Listed(lib, items, |items|) + " ]" }

  /** It is written so if it holds no container with something in it and is shorter than 74 characters. */
  ghost predicate Narrow(lib: Libc, items: seq<Value>) {
    (forall x :: x in items ==> IsLeaf(x)) && 3 * |items| < 74 && |OneLine(lib, items)| < 74
  }

  ghost function NameLead(depth: nat, key: string): string { Blanks(3 * depth) + Quoted(key) + " : " }

  /** The lines of a value at some depth: `lead` stands before it on its first line, and `tail` behind it on
      its last. */
  ghost function Lines(lib: Libc, v: Value, depth: nat, lead: string, tail: string): (lines: seq<string>)
    ensures lines != []
    decreases v, 1, 0
  {
    if v.Obj? && v.members != [] then
      var n, last := |v.members| - 1, v.members[|v.members| - 1];
      [lead + "{"] + MemberLines(lib, v.members, n, depth + 1)
      + Lines(lib, last.value, depth + 1, NameLead(depth + 1, last.key), "") + [Blanks(3 * depth) + "}" + tail]
    else if v.Arr? && v.items != [] && !Narrow(lib, v.items) then
      var n := |v.items| - 1;
      [lead + "["] + ItemLines(lib, v.items, n, depth + 1)
      + Lines(lib, v.items[n], depth + 1, Blanks(3 * (depth + 1)), "") + [Blanks(3 * depth) + "]" + tail]
    else [lead + Inline(lib, v) + tail]
  }

  ghost function Inline(lib: Libc, v: Value): string {
    if v.Arr? && v.items != [] then OneLine(lib, v.items) else Plain(lib, v)
  }

  /** The first n members, a comma behind each. */
  ghost function MemberLines(lib: Libc, ms: seq<Member>, n: nat, depth: nat): seq<string>
    requires n <= |ms|
    decreases ms, 0, n
  {
    if n == 0 then []
    else MemberLines(lib, ms, n - 1, depth) + Lines(lib, ms[n - 1].value, depth, NameLead(depth, ms[n - 1].key), ",")
  }

  /** The first n items, a comma behind each. */
  ghost function ItemLines(lib: Libc, items: seq<Value>, n: nat, depth: nat): seq<string>
    requires n <= |items|
    decreases items, 0, n
  {
    if n == 0 then []
    else ItemLines(lib, items, n - 1, depth) + Lines(lib, items[n - 1], depth, Blanks(3 * depth), ",")
  }

  // ----- Joining lines -----

  function Joined(lines: seq<string>): string {
    if lines == [] then "" else if |lines| == 1 then lines[0]
    else Joined(lines[..|lines| - 1]) + "\n" + lines[|lines| - 1]
  }

  lemma JoinedSnoc(lines: seq<string>, x: string)
    ensures Joined(lines + [x]) == if lines == [] then x else Joined(lines) + "\n" + x
  {
    assert (lines + [x])[..|lines|] == lines;
  }

  /** What is written behind the last line lengthens it. */
  lemma JoinedLonger(lines: seq<string>, x: string, y: string)
    ensures Joined(lines + [x]) + y == Joined(lines + [x + y])
  {
    JoinedSnoc(lines, x);
    JoinedSnoc(lines, x + y);
    if lines != [] {
      Regroup(Joined(lines) + "\n", x, y);
    }
  }

  /** A different tail on the last line. */
  lemma TailOf(lib: Libc, v: Value, depth: nat, lead: string, tail: string)
    ensures var a, b := Lines(lib, v, depth, lead, ""), Lines(lib, v, depth, lead, tail);
            |a| == |b| && a[..|a| - 1] == b[..|a| - 1] && b[|a| - 1] == a[|a| - 1] + tail
  {
    hide MemberLines, ItemLines, Inline, Narrow;
    var a, b := Lines(lib, v, depth, lead, ""), Lines(lib, v, depth, lead, tail);
    if v.Obj? && v.members != [] {
      assert Blanks(3 * depth) + "}" + "" == Blanks(3 * depth) + "}";
    } else if v.Arr? && v.items != [] && !Narrow(lib, v.items) {
      assert Blanks(3 * depth) + "]" + "" == Blanks(3 * depth) + "]";
    } else {
      assert lead + Inline(lib, v) + "" == lead + Inline(lib, v);
    }
  }

  lemma JoinedTail(lib: Libc, pre: seq<string>, v: Value, depth: nat, lead: string, tail: string)
    ensures Joined(pre + Lines(lib, v, depth, lead, "")) + tail == Joined(pre + Lines(lib, v, depth, lead, tail))
  {
    hide Lines;
    var a, b := Lines(lib, v, depth, lead, ""), Lines(lib, v, depth, lead, tail);
    var n := |a| - 1;
    TailOf(lib, v, depth, lead, tail);
    JoinedLonger(pre + a[..n], a[n], tail);
    assert pre + a == pre + a[..n] + [a[n]] && pre + b == pre + a[..n] + [b[n]];
  }

  // ----- Values on one line -----

  lemma LeafSize(v: Value)
    ensures IsLeaf(v) <==> Size(v) == 0
  {}

  lemma PlainFlat(lib: Libc, v: Value)
    requires IsLeaf(v)
    ensures FlatText(lib, v) == Plain(lib, v)
  {
    var toks := Tokens(lib, v);
    match v
    case Arr(_) =>
      assert toks == ["["] + ["]"];
      ConcatAppend(["["], ["]"]);
      ConcatOne("["); ConcatOne("]");
    case Obj(_) =>
      assert toks == ["{"] + ["}"];
      ConcatAppend(["{"], ["}"]);
      ConcatOne("{"); ConcatOne("}");
    case _ => ConcatOne(toks[0]);
  }

  ghost predicate AllLeaves(items: seq<Value>) { forall x :: x in items ==> IsLeaf(x) }

  lemma {:induction false} ListedIs(lib: Libc, doc: string, items: seq<Value>, n: nat)
    requires n <= |items| && AllLeaves(items)
    ensures LineItems(lib, doc, items, n) == doc + Listed(lib, items, n)
  {
    hide FlatText, Plain;
    if n == 0 {
      assert doc + "" == doc;
    } else {
      ListedIs(lib, doc, items, n - 1);
      assert items[n - 1] in items;
      PlainFlat(lib, items[n - 1]);
      if n == 1 {
        assert doc + "" == doc;
      } else {
        Regroup(doc, Listed(lib, items, n - 1), ", ");
        Regroup(doc, Listed(lib, items, n - 1) + ", ", Plain(lib, items[n - 1]));
      }
    }
  }

  lemma {:induction false} ListedLength(lib: Libc, items: seq<Value>, n: nat)
    requires 0 < n <= |items| && AllLeaves(items)
    ensures |Listed(lib, items, n)| == FlatLength(lib, items, n) + 2 * (n - 1)
  {
    hide FlatText, Plain;
    assert items[n - 1] in items;
    PlainFlat(lib, items[n - 1]);
    if n > 1 {
      ListedLength(lib, items, n - 1);
    }
  }

  lemma NarrowIff(lib: Libc, items: seq<Value>)
    requires items != []
    ensures MultiLine(lib, items) <==> !Narrow(lib, items)
  {
    hide FlatText, Listed;
    if HasNested(items) {
      var i :| 0 <= i < |items| && Size(items[i]) > 0;
      LeafSize(items[i]);
      assert items[i] in items && !IsLeaf(items[i]);
    } else {
      forall x | x in items ensures IsLeaf(x) {
        var i :| 0 <= i < |items| && items[i] == x;
        assert Size(items[i]) == 0;
        LeafSize(x);
      }
      ListedLength(lib, items, |items|);
    }
  }

  /** An array on one line is shorter than 74 characters. */
  lemma OneLineText(lib: Libc, doc: string, indent: string, items: seq<Value>)
    requires items != [] && Narrow(lib, items)
    ensures StyledText(lib, doc, indent, Arr(items)) == doc + OneLine(lib, items)
  {
    hide FlatText, Listed, MultiLine;
    NarrowIff(lib, items);
    ListedIs(lib, doc + "[ ", items, |items|);
    Regroup(doc, "[ ", Listed(lib, items, |items|));
    Regroup(doc, "[ " + Listed(lib, items, |items|), " ]");
  }

  // ----- Ends of lines -----

  ghost predicate Solidly(s: string) { s != [] && s[|s| - 1] != ' ' && s[|s| - 1] != '\n' }

  lemma PlainEnd(lib: Libc, v: Value)
    requires IsLeaf(v) && PlainReals(lib, v)
    ensures Solidly(FlatText(lib, v))
  {
    match v
    case Int(i) => IntTextShaped(i);
    case UInt(u) => IntTextShaped(u);
    case _ =>
  }

  lemma LinesEnd(lib: Libc, v: Value, depth: nat, lead: string, tail: string)
    requires PlainReals(lib, v) && (tail == "" || tail == ",")
    ensures var lines := Lines(lib, v, depth, lead, tail); Solidly(lines[|lines| - 1])
  {
    hide MemberLines, ItemLines, Listed, FlatText, Plain;
    if IsLeaf(v) {
      PlainEnd(lib, v);
      PlainFlat(lib, v);
    }
  }

  lemma JoinedEnd(lines: seq<string>)
    requires lines != [] && Solidly(lines[|lines| - 1])
    ensures Solidly(Joined(lines))
  {}

  /** Behind a solid line a new line starts. */
  lemma Breaks(lines: seq<string>, indent: string)
    requires lines != [] && Solidly(lines[|lines| - 1])
    ensures WithIndent(Joined(lines), indent) == Joined(lines + [indent])
  {
    hide Joined;
    JoinedEnd(lines);
    JoinedSnoc(lines, indent);
  }

  /** Where a value may start: at the very beginning, or behind a blank. */
  ghost predicate Start(pre: seq<string>, lead: string, depth: nat) {
    (pre == [] && lead == "" && depth == 0) || (lead != "" && lead[|lead| - 1] == ' ')
  }

  lemma Stays(pre: seq<string>, lead: string, depth: nat)
    requires Start(pre, lead, depth)
    ensures WithIndent(Joined(pre + [lead]), Blanks(3 * depth)) == Joined(pre + [lead])
  {
    JoinedSnoc(pre, lead);
    if pre == [] && lead == "" {
      assert "" + Blanks(0) == "";
    } else {
      var text := Joined(pre + [lead]);
      assert text[|text| - 1] == ' ';
    }
  }

  lemma Deeper(depth: nat)
    ensures Blanks(3 * depth) + INDENT == Blanks(3 * (depth + 1))
  {}

  // ----- The writer prints these lines -----

  /** The document so far is these lines, and the value is written behind the last of them. */
  lemma {:induction false} WritesLines(lib: Libc, pre: seq<string>, lead: string, depth: nat, v: Value)
    requires PlainReals(lib, v) && Start(pre, lead, depth)
    ensures StyledText(lib, Joined(pre + [lead]), Blanks(3 * depth), v) ==
            Joined(pre + Lines(lib, v, depth, lead, ""))
    decreases v, 1, 0
  {
    hide StyledItems, StyledMembers, MemberLines, ItemLines, MultiLine, Narrow, WithIndent, FlatText, Listed;
    hide Plain, Joined;
    if v.Obj? && v.members != [] {
      WritesObject(lib, pre, lead, depth, v.members);
    } else if v.Arr? && v.items != [] && !Narrow(lib, v.items) {
      NarrowIff(lib, v.items);
      WritesArray(lib, pre, lead, depth, v.items);
    } else {
      if v.Arr? && v.items != [] {
        OneLineText(lib, Joined(pre + [lead]), Blanks(3 * depth), v.items);
      } else {
        LeafSize(v);
        FlatIsStyled(lib, Joined(pre + [lead]), Blanks(3 * depth), v);
        PlainFlat(lib, v);
      }
      JoinedLonger(pre, lead, Inline(lib, v));
      assert lead + Inline(lib, v) + "" == lead + Inline(lib, v);
    }
  }

  lemma ObjectLines(lib: Libc, pre: seq<string>, ms: seq<Member>, depth: nat, lead: string, tail: string)
    requires ms != []
    ensures var n, last := |ms| - 1, ms[|ms| - 1];
            pre + Lines(lib, Obj(ms), depth, lead, tail) ==
            pre + [lead + "{"] + MemberLines(lib, ms, n, depth + 1)
            + Lines(lib, last.value, depth + 1, NameLead(depth + 1, last.key), "") + [Blanks(3 * depth) + "}" + tail]
  {
    hide MemberLines;
    var n, last := |ms| - 1, ms[|ms| - 1];
    var a := MemberLines(lib, ms, n, depth + 1);
    var b := Lines(lib, last.value, depth + 1, NameLead(depth + 1, last.key), "");
    Regroup(pre, [lead + "{"], a);
    Regroup(pre, [lead + "{"] + a, b);
    Regroup(pre, [lead + "{"] + a + b, [Blanks(3 * depth) + "}" + tail]);
  }

  lemma ObjectText(lib: Libc, doc: string, indent: string, ms: seq<Member>)
    requires ms != []
    ensures StyledText(lib, doc, indent, Obj(ms)) ==
            WithIndent(StyledMembers(lib, WithIndent(doc, indent) + "{", indent + INDENT, ms, |ms|), indent) + "}"
  {}

  lemma {:induction false} WritesObject(lib: Libc, pre: seq<string>, lead: string, depth: nat, ms: seq<Member>)
    requires ms != [] && PlainReals(lib, Obj(ms)) && Start(pre, lead, depth)
    ensures StyledText(lib, Joined(pre + [lead]), Blanks(3 * depth), Obj(ms)) ==
            Joined(pre + Lines(lib, Obj(ms), depth, lead, ""))
    decreases ms, 2, 0
  {
    hide StyledText, StyledMembers, Lines, MemberLines, WithIndent, Joined, Blanks, NameLead;
    var n, last := |ms| - 1, ms[|ms| - 1];
    var start, indent := pre + [lead + "{"], Blanks(3 * depth);
    ObjectText(lib, Joined(pre + [lead]), indent, ms);
    Stays(pre, lead, depth);
    JoinedLonger(pre, lead, "{");
    Deeper(depth);
    WritesMembers(lib, start, depth + 1, ms, |ms|);
    var body := Lines(lib, last.value, depth + 1, NameLead(depth + 1, last.key), "");
    var lines := start + MemberLines(lib, ms, n, depth + 1) + body;
    assert last in ms;
    LinesEnd(lib, last.value, depth + 1, NameLead(depth + 1, last.key), "");
    assert lines[|lines| - 1] == body[|body| - 1];
    Breaks(lines, indent);
    JoinedLonger(lines, indent, "}");
    ObjectLines(lib, pre, ms, depth, lead, "");
    assert indent + "}" + "" == indent + "}";
  }

  lemma {:induction false} WritesMembers(lib: Libc, start: seq<string>, depth: nat, ms: seq<Member>, n: nat)
    requires 0 < n <= |ms| && PlainReals(lib, Obj(ms)) && start != [] && Solidly(start[|start| - 1])
    ensures StyledMembers(lib, Joined(start), Blanks(3 * depth), ms, n) ==
            Joined(start + MemberLines(lib, ms, n - 1, depth)
                   + Lines(lib, ms[n - 1].value, depth, NameLead(depth, ms[n - 1].key), ""))
    decreases ms, 0, 2 * n
  {
    hide WithIndent, Joined, StyledText, Lines, Quoted;
    var m, indent := ms[n - 1], Blanks(3 * depth);
    var lines := start + MemberLines(lib, ms, n - 1, depth);
    MembersBefore(lib, start, depth, ms, n);
    assert m in ms;
    Breaks(lines, indent);
    JoinedLonger(lines, indent, Quoted(m.key));
    JoinedLonger(lines, indent + Quoted(m.key), " : ");
    WritesLines(lib, lines, NameLead(depth, m.key), depth, m.value);
  }

  /** The document before the n-th member: its predecessors, with a comma behind the last. */
  lemma {:induction false} MembersBefore(lib: Libc, start: seq<string>, depth: nat, ms: seq<Member>, n: nat)
    requires 0 < n <= |ms| && PlainReals(lib, Obj(ms)) && start != [] && Solidly(start[|start| - 1])
    ensures var lines := start + MemberLines(lib, ms, n - 1, depth);
            Solidly(lines[|lines| - 1])
            && Comma(StyledMembers(lib, Joined(start), Blanks(3 * depth), ms, n - 1), n - 1) == Joined(lines)
    decreases ms, 0, 2 * n - 1
  {
    hide WithIndent, Joined, StyledText, Lines, Quoted;
    var lines := start + MemberLines(lib, ms, n - 1, depth);
    if n > 1 {
      var m := ms[n - 2];
      var lead := NameLead(depth, m.key);
      var before := start + MemberLines(lib, ms, n - 2, depth);
      assert m in ms;
      WritesMembers(lib, start, depth, ms, n - 1);
      JoinedTail(lib, before, m.value, depth, lead, ",");
      LinesEnd(lib, m.value, depth, lead, ",");
      var more := Lines(lib, m.value, depth, lead, ",");
      assert lines == before + more;
      assert lines[|lines| - 1] == more[|more| - 1];
    } else {
      assert lines == start;
    }
  }

  lemma ArrayLines(lib: Libc, pre: seq<string>, items: seq<Value>, depth: nat, lead: string, tail: string)
    requires items != [] && !Narrow(lib, items)
    ensures var n := |items| - 1;
            pre + Lines(lib, Arr(items), depth, lead, tail) ==
            pre + [lead + "["] + ItemLines(lib, items, n, depth + 1)
            + Lines(lib, items[n], depth + 1, Blanks(3 * (depth + 1)), "") + [Blanks(3 * depth) + "]" + tail]
  {
    hide ItemLines, Narrow;
    var n := |items| - 1;
    var a, b := ItemLines(lib, items, n, depth + 1), Lines(lib, items[n], depth + 1, Blanks(3 * (depth + 1)), "");
    Regroup(pre, [lead + "["], a);
    Regroup(pre, [lead + "["] + a, b);
    Regroup(pre, [lead + "["] + a + b, [Blanks(3 * depth) + "]" + tail]);
  }

  lemma ArrayText(lib: Libc, doc: string, indent: string, items: seq<Value>)
    requires items != [] && !Narrow(lib, items)
    ensures StyledText(lib, doc, indent, Arr(items)) ==
            WithIndent(StyledItems(lib, WithIndent(doc, indent) + "[", indent + INDENT, items, |items|), indent) + "]"
  {
    hide Narrow, MultiLine;
    NarrowIff(lib, items);
  }

  lemma {:induction false} WritesArray(lib: Libc, pre: seq<string>, lead: string, depth: nat, items: seq<Value>)
    requires items != [] && !Narrow(lib, items) && PlainReals(lib, Arr(items)) && Start(pre, lead, depth)
    ensures StyledText(lib, Joined(pre + [lead]), Blanks(3 * depth), Arr(items)) ==
            Joined(pre + Lines(lib, Arr(items), depth, lead, ""))
    decreases items, 2, 0
  {
    hide StyledText, StyledItems, Lines, ItemLines, Narrow, WithIndent, Joined, Blanks;
    var n := |items| - 1;
    var start, indent := pre + [lead + "["], Blanks(3 * depth);
    ArrayText(lib, Joined(pre + [lead]), indent, items);
    Stays(pre, lead, depth);
    JoinedLonger(pre, lead, "[");
    Deeper(depth);
    WritesItems(lib, start, depth + 1, items, |items|);
    var body := Lines(lib, items[n], depth + 1, Blanks(3 * (depth + 1)), "");
    var lines := start + ItemLines(lib, items, n, depth + 1) + body;
    assert items[n] in items;
    LinesEnd(lib, items[n], depth + 1, Blanks(3 * (depth + 1)), "");
    assert lines[|lines| - 1] == body[|body| - 1];
    Breaks(lines, indent);
    JoinedLonger(lines, indent, "]");
    ArrayLines(lib, pre, items, depth, lead, "");
    assert indent + "]" + "" == indent + "]";
  }

  lemma {:induction false} WritesItems(lib: Libc, start: seq<string>, depth: nat, items: seq<Value>, n: nat)
    requires 0 < n <= |items| && 0 < depth && PlainReals(lib, Arr(items)) && start != [] && Solidly(start[|start| - 1])
    ensures StyledItems(lib, Joined(start), Blanks(3 * depth), items, n) ==
            Joined(start + ItemLines(lib, items, n - 1, depth)
                   + Lines(lib, items[n - 1], depth, Blanks(3 * depth), ""))
    decreases items, 0, 2 * n
  {
    hide WithIndent, Joined, StyledText, Lines;
    var lines := start + ItemLines(lib, items, n - 1, depth);
    ItemsBefore(lib, start, depth, items, n);
    assert items[n - 1] in items;
    Breaks(lines, Blanks(3 * depth));
    WritesLines(lib, lines, Blanks(3 * depth), depth, items[n - 1]);
  }

  lemma {:induction false} ItemsBefore(lib: Libc, start: seq<string>, depth: nat, items: seq<Value>, n: nat)
    requires 0 < n <= |items| && 0 < depth && PlainReals(lib, Arr(items)) && start != [] && Solidly(start[|start| - 1])
    ensures var lines := start + ItemLines(lib, items, n - 1, depth);
            Solidly(lines[|lines| - 1])
            && Comma(StyledItems(lib, Joined(start), Blanks(3 * depth), items, n - 1), n - 1) == Joined(lines)
    decreases items, 0, 2 * n - 1
  {
    hide WithIndent, Joined, StyledText, Lines;
    var lines := start + ItemLines(lib, items, n - 1, depth);
    if n > 1 {
      var v, lead := items[n - 2], Blanks(3 * depth);
      var before := start + ItemLines(lib, items, n - 2, depth);
      assert v in items;
      WritesItems(lib, start, depth, items, n - 1);
      JoinedTail(lib, before, v, depth, lead, ",");
      LinesEnd(lib, v, depth, lead, ",");
      var more := Lines(lib, v, depth, lead, ",");
      assert lines == before + more;
      assert lines[|lines| - 1] == more[|more| - 1];
    } else {
      assert lines == start;
    }
  }

  /** The styled text of a value is its lines, one below the other. */
  lemma StyledLines(lib: Libc, v: Value)
    requires PlainReals(lib, v)
    ensures StyledText(lib, "", "", v) == Joined(Lines(lib, v, 0, "", ""))
  {
    hide StyledText, Lines, Joined;
    WritesLines(lib, [], "", 0, v);
    JoinedSnoc([], "");
    assert [] + Lines(lib, v, 0, "", "") == Lines(lib, v, 0, "", "");
    assert [] + [""] == [""] && Blanks(0) == "";
  }

  // ----- Own lines -----

  /** A block of lines inside others. */
  ghost predicate BlockAt(lines: seq<string>, k: nat, block: seq<string>) {
    k + |block| <= |lines| && lines[k..k + |block|] == block
  }

  /** A block starts with its lead. */
  lemma LeadFirst(lib: Libc, v: Value, depth: nat, lead: string, tail: string, lines: seq<string>, k: nat)
    requires BlockAt(lines, k, Lines(lib, v, depth, lead, tail))
    ensures k < |lines| && lead <= lines[k]
  {
    hide MemberLines, ItemLines, Inline, Narrow;
    var block := Lines(lib, v, depth, lead, tail);
    assert block[0] == lines[k..k + |block|][0];
  }

  lemma BlockIn(a: seq<string>, block: seq<string>, b: seq<string>)
    ensures BlockAt(a + block + b, |a|, block)
  {
    assert (a + block + b)[|a|..|a| + |block|] == block;
  }

  lemma BlockLater(a: seq<string>, lines: seq<string>, b: seq<string>, k: nat, block: seq<string>)
    requires BlockAt(lines, k, block)
    ensures BlockAt(a + lines + b, |a| + k, block)
  {
    assert (a + lines + b)[|a| + k..|a| + k + |block|] == lines[k..k + |block|];
  }

  lemma {:induction false} MemberAt(lib: Libc, ms: seq<Member>, n: nat, depth: nat, i: nat) returns (k: nat)
    requires i < n <= |ms|
    ensures BlockAt(MemberLines(lib, ms, n, depth), k,
                    Lines(lib, ms[i].value, depth, NameLead(depth, ms[i].key), ","))
  {
    hide Lines, BlockAt;
    var before := MemberLines(lib, ms, n - 1, depth);
    var last := Lines(lib, ms[n - 1].value, depth, NameLead(depth, ms[n - 1].key), ",");
    if i == n - 1 {
      k := |before|;
      BlockIn(before, last, []);
      assert before + last + [] == before + last;
    } else {
      k := MemberAt(lib, ms, n - 1, depth, i);
      BlockLater([], before, last, k, Lines(lib, ms[i].value, depth, NameLead(depth, ms[i].key), ","));
      assert [] + before + last == before + last;
    }
  }

  /** Every member of an object starts its own line with its name. */
  lemma MemberOwnLine(lib: Libc, ms: seq<Member>, depth: nat, lead: string, tail: string, i: nat)
    returns (k: nat, comma: string)
    requires i < |ms|
    ensures k > 0 && BlockAt(Lines(lib, Obj(ms), depth, lead, tail), k,
                             Lines(lib, ms[i].value, depth + 1, NameLead(depth + 1, ms[i].key), comma))
    ensures k < |Lines(lib, Obj(ms), depth, lead, tail)|
    ensures NameLead(depth + 1, ms[i].key) <= Lines(lib, Obj(ms), depth, lead, tail)[k]
  {
    hide Lines, MemberLines, BlockAt, Blanks;
    ObjectLines(lib, [], ms, depth, lead, tail);
    assert [] + Lines(lib, Obj(ms), depth, lead, tail) == Lines(lib, Obj(ms), depth, lead, tail);
    assert [] + [lead + "{"] == [lead + "{"];
    var n, last := |ms| - 1, ms[|ms| - 1];
    var first, before := [lead + "{"], MemberLines(lib, ms, n, depth + 1);
    var body := Lines(lib, last.value, depth + 1, NameLead(depth + 1, last.key), "");
    var close := [Blanks(3 * depth) + "}" + tail];
    if i == n {
      k, comma := |first + before|, "";
      BlockIn(first + before, body, close);
    } else {
      k := MemberAt(lib, ms, n, depth + 1, i);
      comma := ",";
      BlockLater(first, before, body + close, k,
                 Lines(lib, ms[i].value, depth + 1, NameLead(depth + 1, ms[i].key), ","));
      Regroup(first + before, body, close);
      k := 1 + k;
    }
    LeadFirst(lib, ms[i].value, depth + 1, NameLead(depth + 1, ms[i].key), comma,
              Lines(lib, Obj(ms), depth, lead, tail), k);
  }

  lemma {:induction false} ItemAt(lib: Libc, items: seq<Value>, n: nat, depth: nat, i: nat) returns (k: nat)
    requires i < n <= |items|
    ensures BlockAt(ItemLines(lib, items, n, depth), k, Lines(lib, items[i], depth, Blanks(3 * depth), ","))
  {
    hide Lines, BlockAt;
    var before, last := ItemLines(lib, items, n - 1, depth), Lines(lib, items[n - 1], depth, Blanks(3 * depth), ",");
    if i == n - 1 {
      k := |before|;
      BlockIn(before, last, []);
      assert before + last + [] == before + last;
    } else {
      k := ItemAt(lib, items, n - 1, depth, i);
      BlockLater([], before, last, k, Lines(lib, items[i], depth, Blanks(3 * depth), ","));
      assert [] + before + last == before + last;
    }
  }

  /** Every item of an array that holds a container with something in it starts its own line. */
  lemma ItemOwnLine(lib: Libc, items: seq<Value>, depth: nat, lead: string, tail: string, i: nat)
    returns (k: nat, comma: string)
    requires i < |items| && !AllLeaves(items)
    ensures k > 0 && BlockAt(Lines(lib, Arr(items), depth, lead, tail), k,
                             Lines(lib, items[i], depth + 1, Blanks(3 * (depth + 1)), comma))
    ensures k < |Lines(lib, Arr(items), depth, lead, tail)|
    ensures Blanks(3 * (depth + 1)) <= Lines(lib, Arr(items), depth, lead, tail)[k]
  {
    hide Lines, ItemLines, BlockAt, Blanks;
    assert !Narrow(lib, items);
    ArrayLines(lib, [], items, depth, lead, tail);
    assert [] + Lines(lib, Arr(items), depth, lead, tail) == Lines(lib, Arr(items), depth, lead, tail);
    assert [] + [lead + "["] == [lead + "["];
    var n := |items| - 1;
    var first, before := [lead + "["], ItemLines(lib, items, n, depth + 1);
    var body := Lines(lib, items[n], depth + 1, Blanks(3 * (depth + 1)), "");
    var close := [Blanks(3 * depth) + "]" + tail];
    if i == n {
      k, comma := |first + before|, "";
      BlockIn(first + before, body, close);
    } else {
      k := ItemAt(lib, items, n, depth + 1, i);
      comma := ",";
      BlockLater(first, before, body + close, k, Lines(lib, items[i], depth + 1, Blanks(3 * (depth + 1)), ","));
      Regroup(first + before, body, close);
      k := 1 + k;
    }
    LeadFirst(lib, items[i], depth + 1, Blanks(3 * (depth + 1)), comma, Lines(lib, Arr(items), depth, lead, tail), k);
  }

  // ----- The compact writer -----

  /** The compact text of a value, with this text for a colon. */
  ghost function Compact(lib: Libc, colon: string, v: Value): string
    decreases v, 1, 0
  {
    match v
    case Arr(items) => "[" + CompactItems(lib, colon, items, |items|) + "]"
    case Obj(ms) => "{" + CompactMembers(lib, colon, ms, |ms|) + "}"
    case _ => Plain(lib, v)
  }

  ghost function CompactItems(lib: Libc, colon: string, items: seq<Value>, n: nat): string
    requires n <= |items|
    decreases items, 0, n
  {
    if n == 0 then ""
    else CompactItems(lib, colon, items, n - 1) + Mark(n) + Compact(lib, colon, items[n - 1])
  }

  ghost function CompactMembers(lib: Libc, colon: string, ms: seq<Member>, n: nat): string
    requires n <= |ms|
    decreases ms, 0, n
  {
    if n == 0 then ""
    else
      CompactMembers(lib, colon, ms, n - 1) + Mark(n)
      + (Quoted(ms[n - 1].key) + colon + Compact(lib, colon, ms[n - 1].value))
  }

  /** A comma in front of every element but the first. */
  function Mark(n: nat): string { if n > 1 then "," else "" }

  lemma MarkComma(doc: string, sofar: string, n: nat)
    requires n > 0
    ensures Comma(doc + sofar, n - 1) == doc + (sofar + Mark(n))
  {
    Regroup(doc, sofar, Mark(n));
    assert doc + sofar + "" == doc + sofar;
  }

  /** YAML compatibility puts one blank behind each colon and changes nothing else. */
  lemma {:induction false} FastIsCompact(lib: Libc, yaml: bool, doc: string, v: Value)
    ensures FastText(lib, yaml, doc, v) == doc + Compact(lib, if yaml then ": " else ":", v)
    decreases v, 1, 0
  {
    hide FlatText, Plain, FastItems, FastMembers, CompactItems, CompactMembers;
    var colon := if yaml then ": " else ":";
    match v
    case Arr(items) =>
      FastItemsCompact(lib, yaml, doc + "[", items, |items|);
      Regroup(doc, "[", CompactItems(lib, colon, items, |items|));
      Regroup(doc, "[" + CompactItems(lib, colon, items, |items|), "]");
    case Obj(ms) =>
      FastMembersCompact(lib, yaml, doc + "{", ms, |ms|);
      Regroup(doc, "{", CompactMembers(lib, colon, ms, |ms|));
      Regroup(doc, "{" + CompactMembers(lib, colon, ms, |ms|), "}");
    case _ => PlainFlat(lib, v);
  }

  lemma {:induction false} FastItemsCompact(lib: Libc, yaml: bool, doc: string, items: seq<Value>, n: nat)
    requires n <= |items|
    ensures FastItems(lib, yaml, doc, items, n) == doc + CompactItems(lib, if yaml then ": " else ":", items, n)
    decreases items, 0, n
  {
    hide FastText, Compact;
    var colon := if yaml then ": " else ":";
    if n == 0 {
      assert doc + "" == doc;
    } else {
      var sofar := CompactItems(lib, colon, items, n - 1);
      FastItemsCompact(lib, yaml, doc, items, n - 1);
      MarkComma(doc, sofar, n);
      FastIsCompact(lib, yaml, doc + (sofar + Mark(n)), items[n - 1]);
      Regroup(doc, sofar + Mark(n), Compact(lib, colon, items[n - 1]));
    }
  }

  lemma {:induction false} FastMembersCompact(lib: Libc, yaml: bool, doc: string, ms: seq<Member>, n: nat)
    requires n <= |ms|
    ensures FastMembers(lib, yaml, doc, ms, n) == doc + CompactMembers(lib, if yaml then ": " else ":", ms, n)
    decreases ms, 0, n
  {
    hide FastText, Compact, Quoted;
    var colon := if yaml then ": " else ":";
    if n == 0 {
      assert doc + "" == doc;
    } else {
      var sofar, m := CompactMembers(lib, colon, ms, n - 1), ms[n - 1];
      var rest := Compact(lib, colon, m.value);
      FastMembersCompact(lib, yaml, doc, ms, n - 1);
      MarkComma(doc, sofar, n);
      FastIsCompact(lib, yaml, doc + (sofar + Mark(n)) + Quoted(m.key) + colon, m.value);
      Regroup(doc + (sofar + Mark(n)), Quoted(m.key), colon);
      Regroup(doc + (sofar + Mark(n)), Quoted(m.key) + colon, rest);
      Regroup(doc, sofar + Mark(n), Quoted(m.key) + colon + rest);
    }
  }
}
