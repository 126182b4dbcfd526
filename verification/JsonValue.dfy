/** The JSON value tree of `Json::Value`, its 64-bit integers, its C strings and
    the ordered member map of an object. */
module JsonValue {
  import opened Basics

  type Int64 = x: int | -TWO63 <= x < TWO63
  type UInt64 = x: int | 0 <= x < TWO64

  /** Conversion of an integer to `Int`: the representative modulo 2^64 in signed range. */
  function ToInt64(x: int): (r: Int64)
    ensures (r - x) % TWO64 == 0
  {
    var m := x % TWO64;
    if m < TWO63 then m else m - TWO64
  }

  /** Conversion of an integer to `UInt`. */
  function ToUInt64(x: int): (r: UInt64)
    ensures (r - x) % TWO64 == 0
  {
    x % TWO64
  }

  /** A zero-terminated character string; every C++ `char` is the character of the
      same unsigned byte value. */
  type CString = s: string | NulFree(s)

  predicate NulFree(s: string) { '\0' !in s }

  /** What `c_str()` hands on: the text before the first NUL. */
  function CStr(s: string): (r: CString)
    ensures r <= s
    ensures |r| < |s| ==> s[|r|] == '\0'
  {
    if s == [] || s[0] == '\0' then [] else [s[0]] + CStr(s[1..])
  }

  lemma {:induction false} CStrOfNulFree(s: string)
    ensures NulFree(s) ==> CStr(s) == s
  {
    var r := CStr(s);
    if |r| < |s| {
      assert s[|r|] in s;
    }
  }

  datatype Value =
    | Null
    | Bool(b: bool)
    | Int(i: Int64)
    | UInt(u: UInt64)
    | Real(d: real)
    | Str(s: CString)
    | Arr(items: seq<Value>)
    | Obj(members: seq<Member>)

  datatype Member = Member(key: CString, value: Value)

  /** `strcmp(a, b) < 0` on zero-terminated strings. */
  predicate KeyLess(a: string, b: string) {
    if b == [] then false
    else if a == [] then true
    else if a[0] != b[0] then a[0] < b[0]
    else KeyLess(a[1..], b[1..])
  }

  lemma {:induction false} KeyLessIrreflexive(a: string)
    ensures !KeyLess(a, a)
  {
    if a != [] {
      KeyLessIrreflexive(a[1..]);
    }
  }

  lemma {:induction false} KeyLessTotal(a: string, b: string)
    ensures KeyLess(a, b) || a == b || KeyLess(b, a)
  {
    if a != [] && b != [] && a[0] == b[0] {
      KeyLessTotal(a[1..], b[1..]);
      assert a == [a[0]] + a[1..] && b == [b[0]] + b[1..];
    }
  }

  lemma {:induction false} KeyLessTransitive(a: string, b: string, c: string)
    requires KeyLess(a, b) && KeyLess(b, c)
    ensures KeyLess(a, c)
  {
    if a != [] && a[0] == b[0] && b[0] == c[0] {
      KeyLessTransitive(a[1..], b[1..], c[1..]);
    }
  }

  /** The characters before i agree and those at i decide. */
  ghost predicate DifferAt(a: string, b: string, i: nat) {
    i < |a| && i < |b| && a[..i] == b[..i] && a[i] < b[i]
  }

  lemma Heads(a: string, b: string)
    ensures forall i: nat :: DifferAt(a, b, i) ==> if i == 0 then a[0] < b[0] else a[0] == b[0]
  {
    forall i: nat | DifferAt(a, b, i) ensures if i == 0 then a[0] < b[0] else a[0] == b[0] {
      if i > 0 {
        assert a[..i][0] == b[..i][0];
      }
    }
  }

  /** It is the order of `strcmp`: a proper prefix comes first, and otherwise the smaller character at the
      first difference. */
  lemma {:induction false} KeyLessIff(a: string, b: string)
    ensures KeyLess(a, b) <==> (a <= b && a != b) || exists i: nat :: DifferAt(a, b, i)
  {
    if a != [] && b != [] && a[0] == b[0] {
      KeyLessIff(a[1..], b[1..]);
      assert a == [a[0]] + a[1..] && b == [b[0]] + b[1..];
      if i: nat :| DifferAt(a[1..], b[1..], i) {
        assert a[..i + 1] == [a[0]] + a[1..][..i] && b[..i + 1] == [b[0]] + b[1..][..i];
        assert DifferAt(a, b, i + 1);
      }
      if i: nat :| DifferAt(a, b, i) {
        assert i > 0;
        assert a[1..][..i - 1] == a[..i][1..] && b[1..][..i - 1] == b[..i][1..];
        assert DifferAt(a[1..], b[1..], i - 1);
      }
    } else if a != [] && b != [] {
      if a[0] < b[0] {
        assert DifferAt(a, b, 0);
      }
      Heads(a, b);
    }
  }

  /** The members of an object stand in strictly increasing key order (std::map). */
  ghost predicate Sorted(ms: seq<Member>) {
    forall i, j :: 0 <= i < j < |ms| ==> KeyLess(ms[i].key, ms[j].key)
  }

  ghost predicate WellFormed(v: Value) {
    match v
    case Arr(items) => forall x :: x in items ==> WellFormed(x)
    case Obj(ms) => Sorted(ms) && forall m :: m in ms ==> WellFormed(m.value)
    case _ => true
  }

  /** `object[key]`: the member's value, or null for a new member. */
  function Lookup(ms: seq<Member>, key: CString): (v: Value) {
    if ms == [] then Null
    else if ms[0].key == key then ms[0].value
    else Lookup(ms[1..], key)
  }

  /** Store a value under a key, keeping the order. */
  function Store(ms: seq<Member>, key: CString, v: Value): (r: seq<Member>) {
    if ms == [] then [Member(key, v)]
    else if ms[0].key == key then [Member(key, v)] + ms[1..]
    else if KeyLess(key, ms[0].key) then [Member(key, v)] + ms
    else [ms[0]] + Store(ms[1..], key, v)
  }
}
