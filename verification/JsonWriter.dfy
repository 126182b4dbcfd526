/** `FastWriter`, `StyledWriter` and their text helpers (json_writer.cpp, json_tool.h). */
module JsonWriter {
  import opened Basics
  import opened Decimal
  import opened JsonValue
  import opened JsonText

  // ----- Numbers and strings -----

  lemma NumeralLength20(value: UInt64)
    ensures |Numeral(value)| <= 20
  {
    assert Pow10(5) == 100000;
    assert Pow10(10) == 100000 * Pow10(5);
    assert Pow10(15) == 100000 * Pow10(10);
    assert Pow10(20) == 100000 * Pow10(15);
    NumeralLength(value, 20);
  }

  /** Writes the numeral backwards, behind it a NUL; never more than 21 characters. */
  method UIntToString(value: UInt64, buffer: array<char>, current: nat) returns (cur: nat)
    requires 21 <= current <= buffer.Length
    modifies buffer
    ensures current - 21 <= cur < current
    ensures buffer[cur..current] == Numeral(value) + ['\0']
    ensures buffer[..cur] == old(buffer[..cur])
  {
    hide Numeral;
    NumeralLength20(value);
    cur := current - 1;
    buffer[cur] := '\0';
    cur := cur - 1;
    buffer[cur] := DigitChar(value % 10);
    var v := value / 10;
    ghost var w := [DigitChar(value % 10)];
    NumeralShift(value, []);
    assert Numeral(value) + [] == Numeral(value) && w + [] == w;
    while v != 0
      invariant 0 <= cur < current - 1 && 0 <= v && buffer[current - 1] == '\0'
      invariant Numeral(value) == (if v == 0 then [] else Numeral(v)) + w
      invariant |w| == current - 1 - cur && forall i :: 0 <= i < |w| ==> buffer[cur + i] == w[i]
      invariant forall i :: 0 <= i < cur ==> buffer[i] == old(buffer[i])
      decreases v
    {
      NumeralShift(v, w);
      cur := cur - 1;
      buffer[cur] := DigitChar(v % 10);
      w := [DigitChar(v % 10)] + w;
      v := v / 10;
    }
    assert buffer[cur..current] == w + ['\0'];
  }

  lemma NumeralShift(v: nat, w: string)
    ensures Numeral(v) + w == (if v / 10 == 0 then [] else Numeral(v / 10)) + ([DigitChar(v % 10)] + w)
  {}

  /** The text up to the NUL at the end of the buffer. */
  method ValueToStringInt(value: Int64) returns (r: string)
    ensures r == IntText(value)
  {
    hide Numeral, ToInt64, ToUInt64;
    var buffer := new char[25];
    var isNegative := value < 0;
    var v: int := value;
    if isNegative {
      v := ToInt64(-v);
    }
    var magnitude := ToUInt64(v);
    Magnitude(value);
    var current := UIntToString(magnitude, buffer, buffer.Length);
    assert buffer[current..24] == buffer[current..25][..24 - current];
    if isNegative {
      ghost var digits := buffer[current..24];
      current := current - 1;
      buffer[current] := '-';
      assert buffer[current..24] == ['-'] + digits;
    }
    r := buffer[current..24];
  }

  /** Negating and converting gives the absolute value, of the smallest integer too. */
  lemma Magnitude(value: int)
    requires -TWO63 <= value < TWO63
    ensures value < 0 ==> ToUInt64(ToInt64(-value)) == -value
    ensures value >= 0 ==> ToUInt64(value) == value
  {}

  method ValueToStringUInt(value: UInt64) returns (r: string)
    ensures r == IntText(value)
  {
    var buffer := new char[25];
    var current := UIntToString(value, buffer, buffer.Length);
    assert buffer[current..24] == buffer[current..25][..24 - current];
    r := buffer[current..24];
  }

  function ValueToStringBool(b: bool): string { if b then "true" else "false" }

  /** Neither `strpbrk` nor `containsControlCharacter` finds a character to escape. */
  method NeedsEscape(value: CString) returns (found: bool)
    ensures found <==> exists i :: 0 <= i < |value| && EscapeChar(value[i]) != [value[i]]
  {
    found := false;
    for i := 0 to |value|
      invariant found <==> exists j :: 0 <= j < i && EscapeChar(value[j]) != [value[j]]
    {
      var c := value[i];
      if c == '"' || c == '\\' || c == BACKSPACE || c == FORMFEED || c == '\n' || c == '\r' || c == '\t'
         || IsControlCharacter(c) {
        found := true;
      }
    }
  }

  lemma {:induction false} NothingToEscape(s: string)
    requires forall i :: 0 <= i < |s| ==> EscapeChar(s[i]) == [s[i]]
    ensures Escaped(s) == s
  {
    if s != [] {
      assert forall i :: 0 <= i < |s[1..]| ==> s[1..][i] == s[i + 1];
      NothingToEscape(s[1..]);
    }
  }

  lemma EscapedSnoc(s: string, i: nat)
    requires i < |s|
    ensures Escaped(s[..i + 1]) == Escaped(s[..i]) + EscapeChar(s[i])
  {
    FlatMapAppend(EscapeChar, s[..i], [s[i]]);
    assert s[..i + 1] == s[..i] + [s[i]];
    assert [s[i]][1..] == [];
    assert FlatMap(EscapeChar, [s[i]]) == EscapeChar(s[i]) + [];
  }

  /** The fast path (no character to escape) and the slow path agree. */
  method ValueToQuotedString(value: CString) returns (r: string)
    ensures r == Quoted(value)
  {
    var slow := NeedsEscape(value);
    if !slow {
      NothingToEscape(value);
      return "\"" + value + "\"";
    }
    r := "\"";
    for i := 0 to |value|
      invariant r == "\"" + Escaped(value[..i])
    {
      EscapedSnoc(value, i);
      r := r + EscapeChar(value[i]);
    }
    assert value[..|value|] == value;
    r := r + "\"";
  }

  // ----- Compact output -----

  /** The text of a scalar or of an empty container. */
  ghost function FlatText(lib: Libc, v: Value): string {
    match v
    case Null => "null"
    case Bool(b) => ValueToStringBool(b)
    case Int(i) => IntText(i)
    case UInt(u) => IntText(u)
    case Real(d) => lib.show(d)
    case Str(s) => Quoted(s)
    case Arr(_) => "[]"
    case Obj(_) => "{}"
  }

  /** The document after the compact text of v has been written behind `doc`. YAML compatibility
      puts a blank behind each colon. */
  ghost function FastText(lib: Libc, yaml: bool, doc: string, v: Value): string
    decreases v
  {
    match v
    case Arr(items) => FastItems(lib, yaml, doc + "[", items, |items|) + "]"
    case Obj(ms) => FastMembers(lib, yaml, doc + "{", ms, |ms|) + "}"
    case _ => doc + FlatText(lib, v)
  }

  /** A comma, unless nothing precedes it. */
  function Comma(doc: string, n: nat): string { if n > 0 then doc + "," else doc }

  /** The first n items, separated by commas. */
  ghost function FastItems(lib: Libc, yaml: bool, doc: string, items: seq<Value>, n: nat): string
    requires n <= |items|
    decreases items, n
  {
    if n == 0 then doc
    else
      FastText(lib, yaml, Comma(FastItems(lib, yaml, doc, items, n - 1), n - 1), items[n - 1])
  }

  ghost function FastMembers(lib: Libc, yaml: bool, doc: string, ms: seq<Member>, n: nat): string
    requires n <= |ms|
    decreases ms, n
  {
    if n == 0 then doc
    else
      var before := Comma(FastMembers(lib, yaml, doc, ms, n - 1), n - 1);
      FastText(lib, yaml, before + Quoted(ms[n - 1].key) + (if yaml then ": " else ":"), ms[n - 1].value)
  }

  class FastWriter {
    const lib: Libc
    var document: string
    var yamlCompatibility: bool

    constructor (lib: Libc)
      ensures this.lib == lib && !yamlCompatibility
    {
      this.lib := lib;
      document := "";
      yamlCompatibility := false;
    }

    method EnableYamlCompatibility()
      modifies this
      ensures yamlCompatibility && document == old(document)
    {
      yamlCompatibility := true;
    }

    method Write(root: Value) returns (r: string)
      modifies this
      ensures r == document == FastText(lib, yamlCompatibility, "", root) + "\n"
      ensures yamlCompatibility == old(yamlCompatibility)
    {
      document := "";
      WriteValue(root);
      document := document + "\n";
      r := document;
    }

    method WriteValue(value: Value)
      modifies this`document
      ensures document == FastText(lib, yamlCompatibility, old(document), value)
      decreases value
    {
      hide Quoted, IntText;
      match value
      case Null => document := document + "null";
      case Bool(b) => document := document + ValueToStringBool(b);
      case Int(i) =>
        var t := ValueToStringInt(i);
        document := document + t;
      case UInt(u) =>
        var t := ValueToStringUInt(u);
        document := document + t;
      case Real(d) => document := document + lib.show(d);
      case Str(s) =>
        var t := ValueToQuotedString(s);
        document := document + t;
      case Arr(items) =>
        document := document + "[";
        for index := 0 to |items|
          invariant document == FastItems(lib, yamlCompatibility, old(document) + "[", items, index)
        {
          if index > 0 {
            document := document + ",";
          }
          WriteValue(items[index]);
        }
        document := document + "]";
      case Obj(ms) =>
        document := document + "{";
        for k := 0 to |ms|
          invariant document == FastMembers(lib, yamlCompatibility, old(document) + "{", ms, k)
        {
          if k > 0 {
            document := document + ",";
          }
          var name := ValueToQuotedString(ms[k].key);
          document := document + name;
          document := document + (if yamlCompatibility then ": " else ":");
          WriteValue(ms[k].value);
        }
        document := document + "}";
    }
  }

  // ----- Styled output -----

  const RIGHT_MARGIN := 74
  const INDENT := "   "

  /** `writeIndent`: a fresh indented line, unless a blank already ends the document. */
  function WithIndent(doc: string, indent: string): string {
    if doc == "" then doc + indent
    else
      var last := doc[|doc| - 1];
      if last == ' ' then doc
      else if last != '\n' then doc + "\n" + indent
      else doc + indent
  }

  /** `size()` of an array or object; zero for every other value. */
  function Size(v: Value): nat {
    match v
    case Arr(items) => |items|
    case Obj(ms) => |ms|
    case _ => 0
  }

  ghost function FlatLength(lib: Libc, items: seq<Value>, n: nat): nat
    requires n <= |items|
  {
    if n == 0 then 0 else FlatLength(lib, items, n - 1) + |FlatText(lib, items[n - 1])|
  }

  ghost predicate HasNested(items: seq<Value>) { exists i :: 0 <= i < |items| && Size(items[i]) > 0 }

  /** One item per line: too many items, a non-empty container among them, or too long a line. */
  ghost predicate MultiLine(lib: Libc, items: seq<Value>) {
    || |items| * 3 >= RIGHT_MARGIN
    || HasNested(items)
    || 4 + (|items| - 1) * 2 + FlatLength(lib, items, |items|) >= RIGHT_MARGIN
  }

  /** The document after the value has been written behind `doc`. */
  ghost function StyledText(lib: Libc, doc: string, indent: string, v: Value): string
    decreases v
  {
    match v
    case Arr(items) =>
      if items == [] then doc + "[]"
      else if MultiLine(lib, items) then
        WithIndent(StyledItems(lib, WithIndent(doc, indent) + "[", indent + INDENT, items, |items|), indent) + "]"
      else LineItems(lib, doc + "[ ", items, |items|) + " ]"
    case Obj(ms) =>
      if ms == [] then doc + "{}"
      else
        WithIndent(StyledMembers(lib, WithIndent(doc, indent) + "{", indent + INDENT, ms, |ms|), indent) + "}"
    case _ => doc + FlatText(lib, v)
  }

  /** The first n items of a one-line array. */
  ghost function LineItems(lib: Libc, doc: string, items: seq<Value>, n: nat): string
    requires n <= |items|
  {
    if n == 0 then doc
    else
      var before := LineItems(lib, doc, items, n - 1);
      (if n > 1 then before + ", " else before) + FlatText(lib, items[n - 1])
  }

  ghost function StyledItems(lib: Libc, doc: string, indent: string, items: seq<Value>, n: nat): string
    requires n <= |items|
    decreases items, n
  {
    if n == 0 then doc
    else
      var before := Comma(StyledItems(lib, doc, indent, items, n - 1), n - 1);
      StyledText(lib, WithIndent(before, indent), indent, items[n - 1])
  }

  ghost function StyledMembers(lib: Libc, doc: string, indent: string, ms: seq<Member>, n: nat): string
    requires n <= |ms|
    decreases ms, n
  {
    if n == 0 then doc
    else
      var before := Comma(StyledMembers(lib, doc, indent, ms, n - 1), n - 1);
      StyledText(lib, WithIndent(before, indent) + Quoted(ms[n - 1].key) + " : ", indent, ms[n - 1].value)
  }

  class StyledWriter {
    const lib: Libc
    var document: string
    var indentString: string
    var childValues: seq<string>
    var addChildValues: bool

    constructor (lib: Libc)
      ensures this.lib == lib
    {
      this.lib := lib;
      document, indentString, childValues, addChildValues := "", "", [], false;
    }

    method Write(root: Value) returns (r: string)
      modifies this
      ensures r == StyledText(lib, "", "", root) + "\n"
    {
      document := "";
      addChildValues := false;
      indentString := "";
      WriteValue(root);
      document := document + "\n";
      r := document;
    }

    /** A scalar or an empty container goes to the scratch buffer while a line is being measured. */
    method WriteValue(value: Value)
      requires addChildValues ==> Size(value) == 0
      modifies this`document, this`indentString, this`childValues, this`addChildValues
      ensures addChildValues == old(addChildValues) && indentString == old(indentString)
      ensures addChildValues ==>
                document == old(document) && childValues == old(childValues) + [FlatText(lib, value)]
      ensures !addChildValues ==> document == StyledText(lib, old(document), indentString, value)
      decreases value, 1
    {
      match value
      case Null => PushValue("null");
      case Bool(b) => PushValue(ValueToStringBool(b));
      case Int(i) =>
        var t := ValueToStringInt(i);
        PushValue(t);
      case UInt(u) =>
        var t := ValueToStringUInt(u);
        PushValue(t);
      case Real(d) => PushValue(lib.show(d));
      case Str(s) =>
        var t := ValueToQuotedString(s);
        PushValue(t);
      case Arr(items) => WriteArrayValue(items);
      case Obj(ms) =>
        if ms == [] {
          PushValue("{}");
        } else {
          WriteMembers(ms);
        }
    }

    method WriteMembers(ms: seq<Member>)
      requires ms != [] && !addChildValues
      modifies this`document, this`indentString, this`childValues, this`addChildValues
      ensures !addChildValues && indentString == old(indentString)
      ensures document == StyledText(lib, old(document), indentString, Obj(ms))
      decreases ms, 2
    {
      hide Quoted, WithIndent;
      WriteWithIndent("{");
      Indent();
      ghost var start := document;
      var k := 0;
      while true
        invariant 0 <= k < |ms| && !addChildValues && indentString == old(indentString) + INDENT
        invariant document == Comma(StyledMembers(lib, start, indentString, ms, k), k)
        decreases |ms| - k
      {
        var name := ValueToQuotedString(ms[k].key);
        WriteWithIndent(name);
        document := document + " : ";
        WriteValue(ms[k].value);
        k := k + 1;
        assert document == StyledMembers(lib, start, indentString, ms, k);
        if k == |ms| {
          break;
        }
        document := document + ",";
      }
      Unindent();
      assert indentString == old(indentString);
      WriteWithIndent("}");
    }

    method WriteArrayValue(items: seq<Value>)
      requires addChildValues ==> items == []
      modifies this`document, this`indentString, this`childValues, this`addChildValues
      ensures addChildValues == old(addChildValues) && indentString == old(indentString)
      ensures addChildValues ==> document == old(document) && childValues == old(childValues) + ["[]"]
      ensures !addChildValues ==> document == StyledText(lib, old(document), indentString, Arr(items))
      decreases items, 3
    {
      if |items| == 0 {
        PushValue("[]");
      } else {
        var isArrayMultiLine := IsMultilineArray(items);
        if isArrayMultiLine {
          WriteWithIndent("[");
          Indent();
          WriteLines(items);
          Unindent();
          WriteWithIndent("]");
        } else {
          WriteLine(items);
        }
      }
    }

    /** One item per line, from the scratch buffer when the measuring pass filled it. */
    method WriteLines(items: seq<Value>)
      requires items != [] && !addChildValues
      requires childValues == [] || Measured(items)
      modifies this`document, this`indentString, this`childValues, this`addChildValues
      ensures !addChildValues && indentString == old(indentString)
      ensures document == StyledItems(lib, old(document), indentString, items, |items|)
      decreases items, 2
    {
      var hasChildValue := |childValues| != 0;
      var index := 0;
      while true
        invariant 0 <= index < |items| && !addChildValues && indentString == old(indentString)
        invariant hasChildValue ==> Measured(items)
        invariant document == Comma(StyledItems(lib, old(document), indentString, items, index), index)
        decreases |items| - index
      {
        ghost var before := document;
        if hasChildValue {
          FlatIsStyled(lib, WithIndent(before, indentString), indentString, items[index]);
          WriteWithIndent(childValues[index]);
        } else {
          WriteIndent();
          WriteValue(items[index]);
        }
        assert document == StyledText(lib, WithIndent(before, indentString), indentString, items[index]);
        index := index + 1;
        assert document == StyledItems(lib, old(document), indentString, items, index);
        if index == |items| {
          break;
        }
        document := document + ",";
      }
    }

    method WriteLine(items: seq<Value>)
      requires Measured(items)
      modifies this`document
      ensures document == LineItems(lib, old(document) + "[ ", items, |items|) + " ]"
    {
      document := document + "[ ";
      for index := 0 to |items|
        invariant document == LineItems(lib, old(document) + "[ ", items, index)
      {
        if index > 0 {
          document := document + ", ";
        }
        document := document + childValues[index];
      }
      document := document + " ]";
    }

    /** The scratch buffer holds the text of every item, and every item is flat. */
    ghost predicate Measured(items: seq<Value>)
      reads this`childValues
    {
      |childValues| == |items| &&
      forall i :: 0 <= i < |items| ==> Size(items[i]) == 0 && childValues[i] == FlatText(lib, items[i])
    }

    method IsMultilineArray(items: seq<Value>) returns (isMultiLine: bool)
      requires items != [] && !addChildValues
      modifies this`document, this`indentString, this`childValues, this`addChildValues
      ensures isMultiLine <==> MultiLine(lib, items)
      ensures childValues == [] || Measured(items)
      ensures !isMultiLine ==> Measured(items)
      ensures !addChildValues && document == old(document) && indentString == old(indentString)
      decreases items, 2
    {
      hide FlatText, StyledText;
      isMultiLine := |items| * 3 >= RIGHT_MARGIN;
      childValues := [];
      var index := 0;
      while index < |items| && !isMultiLine
        invariant 0 <= index <= |items|
        invariant isMultiLine ==> |items| * 3 >= RIGHT_MARGIN || HasNested(items)
        invariant !isMultiLine ==> |items| * 3 < RIGHT_MARGIN && forall i :: 0 <= i < index ==> Size(items[i]) == 0
      {
        isMultiLine := Size(items[index]) > 0;
        index := index + 1;
      }
      if !isMultiLine {
        addChildValues := true;
        var lineLength := 4 + (|items| - 1) * 2;
        for k := 0 to |items|
          invariant addChildValues && document == old(document) && indentString == old(indentString)
          invariant |childValues| == k
          invariant forall i :: 0 <= i < k ==> childValues[i] == FlatText(lib, items[i])
          invariant lineLength == 4 + (|items| - 1) * 2 + FlatLength(lib, items, k)
        {
          WriteValue(items[k]);
          lineLength := lineLength + |childValues[k]|;
        }
        addChildValues := false;
        isMultiLine := lineLength >= RIGHT_MARGIN;
      }
    }

    method PushValue(value: string)
      modifies this`document, this`childValues
      ensures addChildValues ==> document == old(document) && childValues == old(childValues) + [value]
      ensures !addChildValues ==> document == old(document) + value && childValues == old(childValues)
    {
      if addChildValues {
        childValues := childValues + [value];
      } else {
        document := document + value;
      }
    }

    method WriteIndent()
      modifies this`document
      ensures document == WithIndent(old(document), indentString)
    {
      if |document| != 0 {
        var last := document[|document| - 1];
        if last == ' ' {
          return;
        }
        if last != '\n' {
          document := document + "\n";
        }
      }
      document := document + indentString;
    }

    method WriteWithIndent(value: string)
      modifies this`document
      ensures document == WithIndent(old(document), indentString) + value
    {
      WriteIndent();
      document := document + value;
    }

    method Indent()
      modifies this`indentString
      ensures indentString == old(indentString) + INDENT
    {
      indentString := indentString + INDENT;
    }

    method Unindent()
      requires |indentString| >= |INDENT|
      modifies this`indentString
      ensures indentString == old(indentString)[..|old(indentString)| - |INDENT|]
    {
      indentString := indentString[..|indentString| - |INDENT|];
    }
  }

  /** A flat value is written the same way by both writers. */
  lemma FlatIsStyled(lib: Libc, doc: string, indent: string, v: Value)
    requires Size(v) == 0
    ensures StyledText(lib, doc, indent, v) == doc + FlatText(lib, v)
  {}
}
