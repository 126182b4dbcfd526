/** Server entries of config.ini (utils/scidb_config.py): the list of instance ids of a server, its
    text `n,m-p,q-s,...`, and adding and removing instances. */
module ServerConfig {
  import opened Basics
  import opened Decimal

  datatype Error =
    | NotANumber
    | InvalidEntry
    | InvalidRange
    | DuplicateInEntry
    | NoInstances
    | InvalidSpecification
    | DuplicateServer
    | DifferentServer
    | DuplicateInstance(id: int)
    | NoSuchInstance(id: int)

  datatype Result<+T> = Ok(value: T) | Err(error: Error)

  datatype Range = Range(left: int, right: int)

  // ----- Instance ids -----

  ghost predicate Increasing(ids: seq<int>) { forall i, j :: 0 <= i < j < |ids| ==> ids[i] < ids[j] }

  /** Instance lists as entries hold them. */
  ghost predicate InstanceList(ids: seq<int>) { Increasing(ids) && forall x :: x in ids ==> 0 <= x }

  function Elems(s: seq<int>): (r: set<int>)
    ensures forall x :: x in r <==> x in s
  {
    set x | x in s
  }

  lemma ElemsSnoc(s: seq<int>, k: nat)
    requires k < |s|
    ensures Elems(s[..k + 1]) == Elems(s[..k]) + {s[k]}
  {
    assert s[..k + 1] == s[..k] + [s[k]];
  }

  /** Removing the largest id. */
  lemma ElemsInit(s: seq<int>)
    requires Increasing(s) && s != []
    ensures Elems(s[..|s| - 1]) == Elems(s) - {s[|s| - 1]}
  {
    var m := |s| - 1;
    ElemsSnoc(s, m);
    assert s[..m + 1] == s;
    assert forall i :: 0 <= i < m ==> s[i] < s[m];
    assert s[m] !in s[..m];
  }

  lemma LastAtMost(a: seq<int>, b: seq<int>)
    requires Increasing(b) && a != [] && Elems(a) <= Elems(b)
    ensures b != [] && a[|a| - 1] <= b[|b| - 1]
  {
    var x := a[|a| - 1];
    assert x in a && x in Elems(a) && x in b;
    var j :| 0 <= j < |b| && b[j] == x;
  }

  /** Python's `range(left, right + 1)`. */
  function Run(left: int, right: int): (ids: seq<int>)
    ensures |ids| == if left > right then 0 else right - left + 1
    ensures forall i :: 0 <= i < |ids| ==> ids[i] == left + i
    decreases right - left
  {
    if left > right then [] else Run(left, right - 1) + [right]
  }

  ghost function Expand(ranges: seq<Range>): (ids: seq<int>)
  {
    if ranges == [] then []
    else Expand(ranges[..|ranges| - 1]) + Run(ranges[|ranges| - 1].left, ranges[|ranges| - 1].right)
  }

  lemma ExpandSnoc(ranges: seq<Range>, r: Range)
    ensures Expand(ranges + [r]) == Expand(ranges) + Run(r.left, r.right)
  {
    assert (ranges + [r])[..|ranges|] == ranges;
  }

  /** One past the last id of the ranges. */
  ghost function Bound(ranges: seq<Range>): int { if ranges == [] then 0 else ranges[|ranges| - 1].right + 1 }

  /** What the parser checks of the ranges: none is empty or negative, and each starts after the one
      before it. Its documentation asks for more, `0<n<m<p<q<s`; the code also takes `0` and `3-3`. */
  ghost predicate Ascending(ranges: seq<Range>) {
    && (forall i :: 0 <= i < |ranges| ==> ranges[i].left <= ranges[i].right)
    && (forall i :: 0 < i < |ranges| ==> ranges[i - 1].right < ranges[i].left)
    && (ranges != [] ==> 0 <= ranges[0].left)
  }

  lemma AscendingSnoc(ranges: seq<Range>, r: Range)
    ensures Ascending(ranges + [r]) <==> Ascending(ranges) && r.left <= r.right && Bound(ranges) <= r.left
  {
    var more := ranges + [r];
    assert more[|ranges|] == r;
    assert forall i :: 0 <= i < |ranges| ==> more[i] == ranges[i];
    if Ascending(more) {
      assert forall i :: 0 <= i < |ranges| ==> ranges[i].left <= ranges[i].right by {
        assert forall i :: 0 <= i < |ranges| ==> more[i].left <= more[i].right;
      }
      assert forall i :: 0 < i < |ranges| ==> ranges[i - 1].right < ranges[i].left by {
        assert forall i :: 0 < i < |ranges| ==> more[i - 1].right < more[i].left;
      }
    }
  }

  /** Ascending ranges expand to an instance list. */
  lemma {:induction false} ExpandIncreasing(ranges: seq<Range>)
    requires Ascending(ranges)
    ensures InstanceList(Expand(ranges)) && 0 <= Bound(ranges)
    ensures forall i :: 0 <= i < |Expand(ranges)| ==> Expand(ranges)[i] < Bound(ranges)
  {
    if ranges != [] {
      var less, r := ranges[..|ranges| - 1], ranges[|ranges| - 1];
      assert ranges == less + [r];
      AscendingSnoc(less, r);
      ExpandIncreasing(less);
    }
  }

  /** An increasing list is determined by its elements. */
  lemma {:induction false} IncreasingUnique(a: seq<int>, b: seq<int>)
    requires Increasing(a) && Increasing(b) && Elems(a) == Elems(b)
    ensures a == b
    decreases |a|
  {
    hide Increasing, Elems;
    if a != [] {
      LastAtMost(a, b);
      LastAtMost(b, a);
      ElemsInit(a);
      ElemsInit(b);
      InitIncreasing(a);
      InitIncreasing(b);
      IncreasingUnique(a[..|a| - 1], b[..|b| - 1]);
      assert a == a[..|a| - 1] + [a[|a| - 1]] && b == b[..|b| - 1] + [b[|b| - 1]];
    } else if b != [] {
      LastAtMost(b, a);
    }
  }

  lemma InitIncreasing(s: seq<int>)
    requires Increasing(s) && s != []
    ensures Increasing(s[..|s| - 1])
  {}

  // ----- Reading the text -----

  /** Python's `s.split(sep)` for a one-character separator. */
  function Split(s: string, sep: char): (parts: seq<string>)
    ensures |parts| > 0 && sep !in parts[0]
  {
    if s == "" then [""]
    else
      var parts := Split(s[1..], sep);
      if s[0] == sep then [""] + parts else [[s[0]] + parts[0]] + parts[1..]
  }

  /** Python's `int`, of which only this is used: it reads back the numerals `%d` prints, and refuses
      the empty string. */
  ghost predicate ReadsNumerals(pyInt: string -> Option<int>) {
    pyInt("") == None && forall n: nat :: pyInt(Numeral(n)) == Some(n)
  }

  /** The range an element of the list denotes; `n` alone is 0-n, and only in front. */
  function RangeOf(text: string, first: bool, pyInt: string -> Option<int>): Result<Range> {
    var r := Split(text, '-');
    if first && |r| == 1 then
      match pyInt(r[0])
      case Some(n) => Ok(Range(0, n))
      case None => Err(NotANumber)
    else if |r| == 2 then
      match pyInt(r[0])
      case None => Err(NotANumber)
      case Some(m) =>
        match pyInt(r[1])
        case None => Err(NotANumber)
        case Some(n) => Ok(Range(m, n))
    else Err(InvalidEntry)
  }

  /** The texts denote these ranges, in order. */
  ghost predicate Denote(texts: seq<string>, ranges: seq<Range>, pyInt: string -> Option<int>) {
    |texts| == |ranges| && forall i :: 0 <= i < |texts| ==> RangeOf(texts[i], i == 0, pyInt) == Ok(ranges[i])
  }

  /** Element k is the first at fault, and this is its fault. */
  ghost predicate FaultAt(texts: seq<string>, k: nat, ranges: seq<Range>, e: Error, pyInt: string -> Option<int>) {
    && k < |texts| && Denote(texts[..k], ranges, pyInt) && Ascending(ranges)
    && match RangeOf(texts[k], k == 0, pyInt)
       case Err(f) => e == f
       case Ok(r) => if r.left > r.right then e == InvalidRange else r.left < Bound(ranges) && e == DuplicateInEntry
  }

  ghost predicate Fault(texts: seq<string>, e: Error, pyInt: string -> Option<int>) {
    exists k: nat, ranges :: FaultAt(texts, k, ranges, e, pyInt)
  }

  lemma DenoteSnoc(texts: seq<string>, k: nat, ranges: seq<Range>, r: Range, pyInt: string -> Option<int>)
    requires k < |texts| && Denote(texts[..k], ranges, pyInt) && RangeOf(texts[k], k == 0, pyInt) == Ok(r)
    ensures Denote(texts[..k + 1], ranges + [r], pyInt)
  {
    hide RangeOf;
    forall i | 0 <= i < k + 1 ensures RangeOf(texts[..k + 1][i], i == 0, pyInt) == Ok((ranges + [r])[i]) {
      if i < k {
        assert texts[..k][i] == texts[i];
      }
    }
  }

  /** The ids of a list of ranges, or the first fault. */
  method ParseServerInstanceIds(texts: seq<string>, pyInt: string -> Option<int>) returns (res: Result<seq<int>>)
    ensures res.Ok? ==>
              exists ranges :: Denote(texts, ranges, pyInt) && Ascending(ranges) && res.value == Expand(ranges)
    ensures res.Ok? ==> InstanceList(res.value)
    ensures res.Err? ==> Fault(texts, res.error, pyInt)
  {
    hide RangeOf, Ascending;
    var instances: seq<int> := [];
    var isFirst, last := true, 0;
    ghost var ranges: seq<Range> := [];
    assert Ascending([]) by { Nothing(); }
    for k := 0 to |texts|
      invariant isFirst == (k == 0) && last == Bound(ranges) && instances == Expand(ranges)
      invariant Denote(texts[..k], ranges, pyInt) && Ascending(ranges)
    {
      var read := RangeOf(texts[k], isFirst, pyInt);
      if read.Err? {
        assert FaultAt(texts, k, ranges, read.error, pyInt);
        return Err(read.error);
      }
      var r := read.value;
      isFirst := false;
      if r.left > r.right {
        assert FaultAt(texts, k, ranges, InvalidRange, pyInt);
        return Err(InvalidRange);
      } else if r.left < last {
        assert FaultAt(texts, k, ranges, DuplicateInEntry, pyInt);
        return Err(DuplicateInEntry);
      }
      last := r.right + 1;
      instances := instances + Run(r.left, last - 1);
      DenoteSnoc(texts, k, ranges, r, pyInt);
      AscendingSnoc(ranges, r);
      ExpandSnoc(ranges, r);
      ranges := ranges + [r];
    }
    assert texts[..|texts|] == texts;
    ExpandIncreasing(ranges);
    res := Ok(instances);
  }

  lemma Nothing()
    ensures Ascending([]) && Maximal([])
  {}

  /** The texts denote ascending ranges. */
  ghost predicate Readable(texts: seq<string>, pyInt: string -> Option<int>) {
    exists ranges :: Denote(texts, ranges, pyInt) && Ascending(ranges)
  }

  lemma NothingDenoted(texts: seq<string>, pyInt: string -> Option<int>)
    ensures Readable(texts[..0], pyInt)
  {
    Nothing();
    assert Denote(texts[..0], [], pyInt);
  }

  /** A list without fault: no element is at fault if and only if they denote ascending ranges. */
  lemma AcceptedIff(texts: seq<string>, pyInt: string -> Option<int>)
    ensures Readable(texts, pyInt) <==> !exists e :: Fault(texts, e, pyInt)
  {
    hide RangeOf, Ascending;
    if Readable(texts, pyInt) {
      var ranges :| Denote(texts, ranges, pyInt) && Ascending(ranges);
      forall e ensures !Fault(texts, e, pyInt) {
        NoFault(texts, ranges, e, pyInt);
      }
    } else {
      var e := FindFault(texts, |texts|, pyInt);
    }
  }

  lemma NoFault(texts: seq<string>, ranges: seq<Range>, e: Error, pyInt: string -> Option<int>)
    requires Denote(texts, ranges, pyInt) && Ascending(ranges)
    ensures !Fault(texts, e, pyInt)
  {
    hide RangeOf;
    forall k: nat, before ensures !FaultAt(texts, k, before, e, pyInt) {
      if k < |texts| && Denote(texts[..k], before, pyInt) {
        forall i | 0 <= i < k ensures before[i] == ranges[i] {
          assert texts[..k][i] == texts[i];
        }
        assert before == ranges[..k];
        assert RangeOf(texts[k], k == 0, pyInt) == Ok(ranges[k]);
      }
    }
  }

  lemma {:induction false} FindFault(texts: seq<string>, k: nat, pyInt: string -> Option<int>) returns (e: Error)
    requires k <= |texts| && !Readable(texts[..k], pyInt)
    ensures Fault(texts, e, pyInt)
  {
    hide RangeOf, Ascending;
    NothingDenoted(texts, pyInt);
    if Readable(texts[..k - 1], pyInt) {
      var ranges :| Denote(texts[..k - 1], ranges, pyInt) && Ascending(ranges);
      match RangeOf(texts[k - 1], k - 1 == 0, pyInt) {
        case Err(f) => e := f;
        case Ok(r) =>
          AscendingSnoc(ranges, r);
          DenoteSnoc(texts, k - 1, ranges, r, pyInt);
          e := if r.left > r.right then InvalidRange else DuplicateInEntry;
      }
      assert FaultAt(texts, k - 1, ranges, e, pyInt);
    } else {
      e := FindFault(texts, k - 1, pyInt);
    }
  }

  // ----- Printing -----

  function RangeText(r: Range): string { IntText(r.left) + "-" + IntText(r.right) }

  ghost function RangesText(ranges: seq<Range>): string {
    if ranges == [] then "" else "," + RangeText(ranges[0]) + RangesText(ranges[1..])
  }

  lemma {:induction false} RangesTextSnoc(ranges: seq<Range>, r: Range)
    ensures RangesText(ranges + [r]) == RangesText(ranges) + "," + RangeText(r)
  {
    hide RangeText;
    var more := ranges + [r];
    if ranges == [] {
      assert more[1..] == [];
    } else {
      RangesTextSnoc(ranges[1..], r);
      assert more[1..] == ranges[1..] + [r];
    }
  }

  ghost function Texts(ranges: seq<Range>): (texts: seq<string>)
    ensures |texts| == |ranges| && forall i :: 0 <= i < |texts| ==> texts[i] == RangeText(ranges[i])
  {
    seq(|ranges|, i requires 0 <= i < |ranges| => RangeText(ranges[i]))
  }

  lemma {:induction false} SplitAtom(p: string, sep: char)
    requires sep !in p
    ensures Split(p, sep) == [p]
  {
    if p != "" {
      SplitAtom(p[1..], sep);
      assert [p[0]] + p[1..] == p;
    }
  }

  lemma {:induction false} SplitFirst(p: string, sep: char, s: string)
    requires sep !in p
    ensures Split(p + [sep] + s, sep) == [p] + Split(s, sep)
  {
    var t := p + [sep] + s;
    if p == "" {
      assert t[1..] == s;
    } else {
      assert t[1..] == p[1..] + [sep] + s;
      SplitFirst(p[1..], sep, s);
      assert [t[0]] + p[1..] == p;
    }
  }

  lemma TextsCons(ranges: seq<Range>)
    requires ranges != []
    ensures Texts(ranges) == [RangeText(ranges[0])] + Texts(ranges[1..])
  {
    hide Texts, RangeText;
    forall i | 0 <= i < |ranges| ensures Texts(ranges)[i] == ([RangeText(ranges[0])] + Texts(ranges[1..]))[i] {
      if i > 0 {
        assert ranges[1..][i - 1] == ranges[i];
      }
    }
  }

  /** Splitting what is printed after the host gives the host and the printed ranges. */
  lemma {:induction false} SplitRanges(host: string, ranges: seq<Range>)
    requires ',' !in host
    ensures Split(host + RangesText(ranges), ',') == [host] + Texts(ranges)
    decreases |ranges|
  {
    hide Split, RangeText, Texts;
    if ranges == [] {
      assert host + "" == host;
      SplitAtom(host, ',');
    } else {
      var text, more := RangeText(ranges[0]), RangesText(ranges[1..]);
      NoComma(ranges[0]);
      Regroup(",", text, more);
      Regroup(host, ",", text + more);
      SplitFirst(host, ',', text + more);
      SplitRanges(text, ranges[1..]);
      TextsCons(ranges);
    }
  }

  lemma NumeralPlain(n: nat, c: char)
    requires !IsDigit(c)
    ensures c !in Numeral(n)
  {
    assert forall i :: 0 <= i < |Numeral(n)| ==> IsDigit(Numeral(n)[i]);
  }

  lemma NoComma(r: Range)
    ensures ',' !in RangeText(r)
  {
    hide Numeral;
    NumeralPlain(if r.left < 0 then -r.left else r.left, ',');
    NumeralPlain(if r.right < 0 then -r.right else r.right, ',');
  }

  lemma RangeReadsBack(r: Range, first: bool, pyInt: string -> Option<int>)
    requires ReadsNumerals(pyInt) && 0 <= r.left && 0 <= r.right
    ensures RangeOf(RangeText(r), first, pyInt) == Ok(r)
  {
    hide Split, Numeral;
    NumeralPlain(r.left, '-');
    NumeralPlain(r.right, '-');
    SplitFirst(Numeral(r.left), '-', Numeral(r.right));
    SplitAtom(Numeral(r.right), '-');
  }

  lemma {:induction false} AscendingNatural(ranges: seq<Range>, i: nat)
    requires Ascending(ranges) && i < |ranges|
    ensures 0 <= ranges[i].left <= ranges[i].right
  {
    if i > 0 {
      AscendingNatural(ranges, i - 1);
    }
  }

  lemma TextsDenote(ranges: seq<Range>, pyInt: string -> Option<int>)
    requires ReadsNumerals(pyInt) && Ascending(ranges)
    ensures Denote(Texts(ranges), ranges, pyInt)
  {
    hide RangeOf, RangeText, Ascending, ReadsNumerals;
    forall i | 0 <= i < |ranges| ensures RangeOf(Texts(ranges)[i], i == 0, pyInt) == Ok(ranges[i]) {
      AscendingNatural(ranges, i);
      RangeReadsBack(ranges[i], i == 0, pyInt);
    }
  }

  /** No two neighbouring ranges could be joined. */
  ghost predicate Maximal(ranges: seq<Range>) {
    forall i :: 0 < i < |ranges| ==> ranges[i - 1].right + 1 < ranges[i].left
  }

  lemma MaximalSnoc(ranges: seq<Range>, r: Range)
    ensures Maximal(ranges + [r]) <==> Maximal(ranges) && (ranges != [] ==> Bound(ranges) < r.left)
  {
    var more := ranges + [r];
    assert forall i :: 0 <= i < |ranges| ==> more[i] == ranges[i];
    if Maximal(more) {
      assert forall i :: 0 < i < |ranges| ==> more[i - 1].right + 1 < more[i].left;
      assert ranges != [] ==> more[|ranges| - 1].right + 1 < more[|ranges|].left;
    }
  }

  /** The fewest ranges that expand to the ids. */
  method Ranges(ids: seq<int>) returns (ranges: seq<Range>)
    requires InstanceList(ids)
    ensures Ascending(ranges) && Maximal(ranges) && Expand(ranges) == ids
    ensures ranges == [] <==> ids == []
  {
    hide Ascending, Maximal, Run;
    ranges := [];
    Nothing();
    if ids == [] {
      return;
    }
    var r := Range(ids[0], ids[0]);
    assert ids[0] in ids;
    First(ids[0]);
    assert ids[..1] == [ids[0]];
    for k := 1 to |ids|
      invariant Ascending(ranges + [r]) && Maximal(ranges + [r]) && Expand(ranges + [r]) == ids[..k]
      invariant r.right == ids[k - 1]
    {
      assert ids[..k + 1] == ids[..k] + [ids[k]];
      if ids[k] - r.right > 1 {
        Opened(ranges, r, ids[k]);
        ranges := ranges + [r];
        r := Range(ids[k], ids[k]);
      } else {
        Extended(ranges, r);
        r := r.(right := ids[k]);
      }
    }
    assert ids[..|ids|] == ids;
    ranges := ranges + [r];
  }

  lemma First(n: int)
    requires 0 <= n
    ensures Ascending([] + [Range(n, n)]) && Maximal([] + [Range(n, n)]) && Expand([] + [Range(n, n)]) == [n]
  {
    ExpandSnoc([], Range(n, n));
  }

  lemma Opened(ranges: seq<Range>, r: Range, n: int)
    requires Ascending(ranges + [r]) && Maximal(ranges + [r]) && n - r.right > 1
    ensures var more := ranges + [r] + [Range(n, n)];
            Ascending(more) && Maximal(more) && Expand(more) == Expand(ranges + [r]) + [n]
  {
    hide Ascending, Maximal;
    AscendingSnoc(ranges + [r], Range(n, n));
    MaximalSnoc(ranges + [r], Range(n, n));
    ExpandSnoc(ranges + [r], Range(n, n));
    assert Run(n, n) == [n];
  }

  lemma Extended(ranges: seq<Range>, r: Range)
    requires Ascending(ranges + [r]) && Maximal(ranges + [r])
    ensures var more := ranges + [r.(right := r.right + 1)];
            Ascending(more) && Maximal(more) && Expand(more) == Expand(ranges + [r]) + [r.right + 1]
  {
    hide Ascending, Maximal;
    var s := r.(right := r.right + 1);
    AscendingSnoc(ranges, r);
    AscendingSnoc(ranges, s);
    MaximalSnoc(ranges, r);
    MaximalSnoc(ranges, s);
    ExpandSnoc(ranges, r);
    ExpandSnoc(ranges, s);
  }

  // ----- Server entries -----

  /** Some id of `more` cannot be added; k is the first. */
  ghost predicate Clash(ids: seq<int>, more: seq<int>, k: nat) {
    k < |more| && more[k] in Elems(ids) + Elems(more[..k])
    && forall j :: 0 <= j < k ==> more[j] !in Elems(ids) + Elems(more[..j])
  }

  /** Some id of `less` cannot be removed; k is the first. */
  ghost predicate Missing(ids: seq<int>, less: seq<int>, k: nat) {
    k < |less| && less[k] !in Elems(ids) - Elems(less[..k])
    && forall j :: 0 <= j < k ==> less[j] in Elems(ids) - Elems(less[..j])
  }

  /** Python's `sorted` of a set. */
  method SortedIds(ids: set<int>) returns (s: seq<int>)
    ensures Increasing(s) && Elems(s) == ids
  {
    hide Increasing, Elems;
    s := [];
    NoIds();
    var rest := ids;
    while rest != {}
      invariant rest <= ids && Increasing(s) && Elems(s) == ids - rest
      decreases rest
    {
      assert exists x :: x in rest by { Member(rest); }
      var x :| x in rest;
      s := Insert(s, x);
      rest := rest - {x};
    }
  }

  lemma Member(ids: set<int>)
    ensures ids == {} || exists x :: x in ids
  {
    if forall x :: x !in ids {
      assert ids == {};
    }
  }

  lemma NoIds()
    ensures Increasing([]) && Elems([]) == {}
  {}

  method Insert(s: seq<int>, x: int) returns (t: seq<int>)
    requires Increasing(s) && x !in Elems(s)
    ensures Increasing(t) && Elems(t) == Elems(s) + {x}
  {
    hide Elems;
    var i := |s|;
    while i > 0 && x < s[i - 1]
      invariant 0 <= i <= |s| && forall j :: i <= j < |s| ==> x < s[j]
    {
      i := i - 1;
    }
    if i > 0 {
      assert s[i - 1] in Elems(s);
    }
    t := s[..i] + [x] + s[i..];
    InsertElems(s, i, x);
    InsertIncreasing(s, i, x);
  }

  lemma InsertElems(s: seq<int>, i: nat, x: int)
    requires i <= |s|
    ensures Elems(s[..i] + [x] + s[i..]) == Elems(s) + {x}
  {
    assert s == s[..i] + s[i..];
  }

  lemma InsertIncreasing(s: seq<int>, i: nat, x: int)
    requires Increasing(s) && i <= |s| && (i > 0 ==> s[i - 1] < x) && forall j :: i <= j < |s| ==> x < s[j]
    ensures Increasing(s[..i] + [x] + s[i..])
  {
    var t := s[..i] + [x] + s[i..];
    assert forall j :: 0 <= j < i ==> t[j] == s[j] && s[j] < x;
    assert forall j :: i < j < |t| ==> t[j] == s[j - 1];
  }

  lemma StillNatural(a: seq<int>, b: seq<int>, ids: seq<int>)
    requires InstanceList(a) && InstanceList(b) && Increasing(ids) && Elems(ids) <= Elems(a) + Elems(b)
    ensures InstanceList(ids)
  {
    assert forall x :: x in ids ==> x in Elems(ids);
  }

  class ServerEntry {
    const sid: int
    const host: string
    var instances: seq<int>

    ghost predicate Valid()
      reads this
    {
      InstanceList(instances)
    }

    constructor (sid: int, host: string, instances: seq<int>)
      requires InstanceList(instances)
      ensures this.sid == sid && this.host == host && this.instances == instances && Valid()
    {
      this.sid, this.host, this.instances := sid, host, instances;
    }

    /** The option's key and value; printing an entry without instances is an error. */
    method ToConfigOpt() returns (res: Result<(string, string)>)
      requires Valid()
      ensures instances == [] ==> res == Err(NoInstances)
      ensures instances != [] ==> res.Ok? && res.value.0 == "server-" + IntText(sid)
      ensures instances != [] ==> exists ranges :: Ascending(ranges) && Maximal(ranges) && Expand(ranges) == instances
                                            && res.value.1 == host + RangesText(ranges)
    {
      hide Ascending, Maximal, Expand, RangeText;
      var ranges := Ranges(instances);
      if ranges == [] {
        return Err(NoInstances);
      }
      var val := host;
      for i := 0 to |ranges|
        invariant val == host + RangesText(ranges[..i])
      {
        RangesTextSnoc(ranges[..i], ranges[i]);
        assert ranges[..i + 1] == ranges[..i] + [ranges[i]];
        Regroup(RangesText(ranges[..i]), ",", RangeText(ranges[i]));
        Regroup(host, RangesText(ranges[..i]), "," + RangeText(ranges[i]));
        val := val + ("," + RangeText(ranges[i]));
      }
      assert ranges[..|ranges|] == ranges;
      res := Ok(("server-" + IntText(sid), val));
    }

    /** Adds the ids of another entry, all or none. */
    method AddInstances(srv: ServerEntry) returns (error: Option<Error>)
      requires Valid() && srv.Valid()
      modifies this
      ensures Valid()
      ensures sid != srv.sid <==> error == Some(DifferentServer)
      ensures error.Some? ==> instances == old(instances)
      ensures error.Some? && sid == srv.sid ==>
                exists k: nat :: Clash(old(instances), old(srv.instances), k)
                                 && error == Some(DuplicateInstance(old(srv.instances)[k]))
      ensures error.None? ==>
                && Elems(instances) == old(Elems(instances)) + old(Elems(srv.instances))
                && forall k: nat :: !Clash(old(instances), old(srv.instances), k)
    {
      if sid != srv.sid {
        return Some(DifferentServer);
      }
      var temp := Elems(instances);
      var more := srv.instances;
      for k := 0 to |more|
        invariant instances == old(instances)
        invariant temp == Elems(instances) + Elems(more[..k])
        invariant forall j :: 0 <= j < k ==> more[j] !in Elems(instances) + Elems(more[..j])
      {
        if more[k] in temp {
          assert Clash(instances, more, k);
          return Some(DuplicateInstance(more[k]));
        }
        temp := temp + {more[k]};
        ElemsSnoc(more, k);
      }
      assert more[..|more|] == more;
      instances := SortedIds(temp);
      StillNatural(old(instances), old(srv.instances), instances);
      error := None;
    }

    /** Removes the ids of another entry, all or none. */
    method RemoveInstances(srv: ServerEntry) returns (error: Option<Error>)
      requires Valid() && srv.Valid()
      modifies this
      ensures Valid()
      ensures sid != srv.sid <==> error == Some(DifferentServer)
      ensures error.Some? ==> instances == old(instances)
      ensures error.Some? && sid == srv.sid ==>
                exists k: nat :: Missing(old(instances), old(srv.instances), k)
                                 && error == Some(NoSuchInstance(old(srv.instances)[k]))
      ensures error.None? ==>
                && Elems(instances) == old(Elems(instances)) - old(Elems(srv.instances))
                && forall k: nat :: !Missing(old(instances), old(srv.instances), k)
    {
      if sid != srv.sid {
        return Some(DifferentServer);
      }
      var temp := Elems(instances);
      var less := srv.instances;
      for k := 0 to |less|
        invariant instances == old(instances)
        invariant temp == Elems(instances) - Elems(less[..k])
        invariant forall j :: 0 <= j < k ==> less[j] in Elems(instances) - Elems(less[..j])
      {
        if less[k] !in temp {
          assert Missing(instances, less, k);
          return Some(NoSuchInstance(less[k]));
        }
        temp := temp - {less[k]};
        ElemsSnoc(less, k);
      }
      assert less[..|less|] == less;
      instances := SortedIds(temp);
      StillNatural(old(instances), old(srv.instances), instances);
      error := None;
    }
  }

  /** Adding an entry that shares no id and removing it again changes nothing. */
  method AddThenRemove(a: ServerEntry, b: ServerEntry) returns (added: Option<Error>, removed: Option<Error>)
    requires a.Valid() && b.Valid() && a.sid == b.sid && Elems(a.instances) !! Elems(b.instances)
    modifies a
    ensures added == None && removed == None && a.instances == old(a.instances)
  {
    ghost var ids, more := a.instances, b.instances;
    added := a.AddInstances(b);
    if a == b {
      assert ids == [] by { SelfDisjoint(ids); }
    }
    removed := a.RemoveInstances(b);
    IncreasingUnique(a.instances, ids);
  }

  lemma SelfDisjoint(ids: seq<int>)
    ensures Elems(ids) !! Elems(ids) ==> ids == []
  {
    if ids != [] {
      assert ids[0] in Elems(ids);
    }
  }

  /** A `server-<sid>` option as `parseConfig` reads it, after options for the servers in `seen`. */
  method ReadConfigOpt(key: string, value: string, seen: set<int>, pyInt: string -> Option<int>)
    returns (res: Result<ServerEntry>)
    requires "server-" <= key
    ensures |Split(key, '-')| >= 2
    ensures var sid := pyInt(Split(key, '-')[1]);
            && (sid.None? ==> res == Err(NotANumber))
            && (sid.Some? && |Split(value, ',')| < 2 ==> res == Err(InvalidSpecification))
            && (sid.Some? && |Split(value, ',')| >= 2 && sid.value in seen ==> res == Err(DuplicateServer))
            && (sid.Some? && |Split(value, ',')| >= 2 && sid.value !in seen && res.Err? ==>
                  Fault(Split(value, ',')[1..], res.error, pyInt))
            && (res.Ok? ==> sid == Some(res.value.sid))
    ensures res.Ok? ==>
              && fresh(res.value) && res.value.Valid() && res.value.host == Split(value, ',')[0]
              && exists ranges :: Denote(Split(value, ',')[1..], ranges, pyInt) && Ascending(ranges)
                                  && res.value.instances == Expand(ranges)
  {
    hide Split, Ascending, RangeOf;
    var keys, values := Split(key, '-'), Split(value, ',');
    assert key == "server" + "-" + key[7..];
    SplitFirst("server", '-', key[7..]);
    var sid := pyInt(keys[1]);
    if sid.None? {
      return Err(NotANumber);
    }
    if |values| < 2 {
      return Err(InvalidSpecification);
    }
    if sid.value in seen {
      return Err(DuplicateServer);
    }
    var ids := ParseServerInstanceIds(values[1..], pyInt);
    if ids.Err? {
      return Err(ids.error);
    }
    var entry := new ServerEntry(sid.value, values[0], ids.value);
    res := Ok(entry);
  }

  /** The id read back from a printed key: the id itself, or nothing if it is negative. */
  lemma KeyReadsBack(sid: int, pyInt: string -> Option<int>)
    requires ReadsNumerals(pyInt)
    ensures var parts := Split("server-" + IntText(sid), '-');
            |parts| >= 2 && pyInt(parts[1]) == if sid >= 0 then Some(sid) else None
  {
    hide Split, Numeral;
    assert "server-" + IntText(sid) == "server" + "-" + IntText(sid);
    SplitFirst("server", '-', IntText(sid));
    if sid >= 0 {
      NumeralPlain(sid, '-');
      SplitAtom(Numeral(sid), '-');
    } else {
      assert IntText(sid) == "" + "-" + Numeral(-sid);
      SplitFirst("", '-', Numeral(-sid));
    }
  }

  lemma DenoteUnique(texts: seq<string>, r: seq<Range>, s: seq<Range>, pyInt: string -> Option<int>)
    requires Denote(texts, r, pyInt) && Denote(texts, s, pyInt)
    ensures r == s
  {
    hide RangeOf;
    forall i | 0 <= i < |r| ensures r[i] == s[i] {
      assert RangeOf(texts[i], i == 0, pyInt) == Ok(r[i]);
    }
  }

  /** What is printed from a non-empty list of ranges is read back, whatever the host, up to its
      first comma. */
  lemma ValueReadsBack(host: string, ranges: seq<Range>, pyInt: string -> Option<int>)
    requires ReadsNumerals(pyInt) && Ascending(ranges) && ',' !in host
    ensures var parts := Split(host + RangesText(ranges), ',');
            parts[0] == host && |parts| == |ranges| + 1 && Denote(parts[1..], ranges, pyInt)
  {
    hide Split, RangesText, Texts, Ascending, ReadsNumerals, Denote;
    SplitRanges(host, ranges);
    TextsDenote(ranges, pyInt);
    assert ([host] + Texts(ranges))[1..] == Texts(ranges);
  }

  /** Printing an entry and reading the option back restores it if and only if its server id is not
      negative and its host has no comma. */
  method PrintThenRead(e: ServerEntry, pyInt: string -> Option<int>) returns (back: Result<ServerEntry>)
    requires e.Valid() && e.instances != [] && ReadsNumerals(pyInt)
    ensures e.sid >= 0 && ',' !in e.host <==>
            back.Ok? && back.value.sid == e.sid && back.value.host == e.host && back.value.instances == e.instances
  {
    hide Split, Ascending, RangeOf, Denote, Maximal, Expand, RangesText, IntText, ReadsNumerals, Fault;
    var opt := e.ToConfigOpt();
    var (key, value) := opt.value;
    ghost var ranges :| Ascending(ranges) && Maximal(ranges) && Expand(ranges) == e.instances
                        && value == e.host + RangesText(ranges);
    KeyReadsBack(e.sid, pyInt);
    assert key[..7] == "server-";
    back := ReadConfigOpt(key, value, {}, pyInt);
    if e.sid >= 0 && ',' !in e.host {
      ValueReadsBack(e.host, ranges, pyInt);
      assert ranges != [] by { SomeRange(ranges); }
      var texts := Split(value, ',')[1..];
      if back.Err? {
        NoFault(texts, ranges, back.error, pyInt);
        assert false;
      } else {
        ghost var read :| Denote(texts, read, pyInt) && Ascending(read) && back.value.instances == Expand(read);
        DenoteUnique(texts, ranges, read, pyInt);
      }
    }
  }

  lemma SomeRange(ranges: seq<Range>)
    ensures Expand(ranges) != [] ==> ranges != []
  {}

  // ----- The short form -----

  lemma LoneIsRange(n: nat, pyInt: string -> Option<int>)
    requires ReadsNumerals(pyInt)
    ensures RangeOf(Numeral(n), true, pyInt) == RangeOf("0-" + Numeral(n), true, pyInt) == Ok(Range(0, n))
    ensures RangeOf(Numeral(n), false, pyInt) == Err(InvalidEntry)
  {
    hide Split;
    NumeralPlain(n, '-');
    SplitAtom(Numeral(n), '-');
    assert Numeral(0) == "0";
    assert "0-" + Numeral(n) == Numeral(0) + "-" + Numeral(n);
    hide Numeral;
    RangeReadsBack(Range(0, n), true, pyInt);
  }

  /** A list has one fault at most, and none if it is read. */
  lemma FaultOnce(texts: seq<string>, k: nat, r: seq<Range>, e: Error, l: nat, s: seq<Range>, f: Error,
                  pyInt: string -> Option<int>)
    requires FaultAt(texts, k, r, e, pyInt) && FaultAt(texts, l, s, f, pyInt) && k <= l
    ensures k == l && e == f
  {
    hide RangeOf, Ascending;
    if k < l {
      assert texts[..l][..k] == texts[..k] && texts[..l][k] == texts[k];
      assert FaultAt(texts[..l], k, r, e, pyInt);
      NoFault(texts[..l], s, e, pyInt);
      assert false;
    } else {
      DenoteUnique(texts[..k], r, s, pyInt);
    }
  }

  lemma FaultUnique(texts: seq<string>, e: Error, f: Error, pyInt: string -> Option<int>)
    requires Fault(texts, e, pyInt) && Fault(texts, f, pyInt)
    ensures e == f
  {
    hide FaultAt;
    var k: nat, r :| FaultAt(texts, k, r, e, pyInt);
    var l: nat, s :| FaultAt(texts, l, s, f, pyInt);
    if k <= l {
      FaultOnce(texts, k, r, e, l, s, f, pyInt);
    } else {
      FaultOnce(texts, l, s, f, k, r, e, pyInt);
    }
  }

  /** The outcome of a parse as its contract describes it. */
  ghost predicate Parsed(texts: seq<string>, res: Result<seq<int>>, pyInt: string -> Option<int>) {
    if res.Ok? then exists ranges :: Denote(texts, ranges, pyInt) && Ascending(ranges) && res.value == Expand(ranges)
    else Fault(texts, res.error, pyInt)
  }

  lemma ParsedUnique(texts: seq<string>, a: Result<seq<int>>, b: Result<seq<int>>, pyInt: string -> Option<int>)
    requires Parsed(texts, a, pyInt) && Parsed(texts, b, pyInt)
    ensures a == b
  {
    hide Denote, Ascending, Fault;
    if a.Ok? && b.Ok? {
      var r :| Denote(texts, r, pyInt) && Ascending(r) && a.value == Expand(r);
      var s :| Denote(texts, s, pyInt) && Ascending(s) && b.value == Expand(s);
      DenoteUnique(texts, r, s, pyInt);
    } else if a.Ok? {
      var r :| Denote(texts, r, pyInt) && Ascending(r) && a.value == Expand(r);
      NoFault(texts, r, b.error, pyInt);
    } else if b.Ok? {
      var s :| Denote(texts, s, pyInt) && Ascending(s) && b.value == Expand(s);
      NoFault(texts, s, a.error, pyInt);
    } else {
      FaultUnique(texts, a.error, b.error, pyInt);
    }
  }

  /** Texts that read alike element by element parse alike. */
  lemma ReadAlike(a: seq<string>, b: seq<string>, res: Result<seq<int>>, pyInt: string -> Option<int>)
    requires |a| == |b| && forall i :: 0 <= i < |a| ==> RangeOf(a[i], i == 0, pyInt) == RangeOf(b[i], i == 0, pyInt)
    requires Parsed(a, res, pyInt)
    ensures Parsed(b, res, pyInt)
  {
    hide RangeOf, Ascending, Expand;
    if res.Err? {
      var k: nat, ranges :| FaultAt(a, k, ranges, res.error, pyInt);
      forall i | 0 <= i < k ensures RangeOf(b[..k][i], i == 0, pyInt) == Ok(ranges[i]) {
        assert RangeOf(a[..k][i], i == 0, pyInt) == Ok(ranges[i]);
      }
      assert FaultAt(b, k, ranges, res.error, pyInt);
    } else {
      var ranges :| Denote(a, ranges, pyInt) && Ascending(ranges) && res.value == Expand(ranges);
      assert Denote(b, ranges, pyInt);
    }
  }

  /** A number alone in front stands for the range from 0 to it, whatever follows. */
  method ShortForm(n: nat, tail: seq<string>, pyInt: string -> Option<int>)
    returns (short: Result<seq<int>>, long: Result<seq<int>>)
    requires ReadsNumerals(pyInt)
    ensures short == long
    ensures tail == [] ==> short.Ok? && |short.value| == n + 1 && forall i :: 0 <= i <= n ==> short.value[i] == i
  {
    hide RangeOf, Ascending, ReadsNumerals;
    var a, b := [Numeral(n)] + tail, ["0-" + Numeral(n)] + tail;
    short := ParseServerInstanceIds(a, pyInt);
    long := ParseServerInstanceIds(b, pyInt);
    LoneIsRange(n, pyInt);
    ReadAlike(a, b, short, pyInt);
    ParsedUnique(b, short, long, pyInt);
    if tail == [] {
      OneRange(a, n, pyInt);
      ParsedUnique(a, short, Ok(Run(0, n)), pyInt);
    }
  }

  lemma OneRange(texts: seq<string>, n: nat, pyInt: string -> Option<int>)
    requires |texts| == 1 && RangeOf(texts[0], true, pyInt) == Ok(Range(0, n))
    ensures Parsed(texts, Ok(Run(0, n)), pyInt)
  {
    hide RangeOf;
    var r := [Range(0, n)];
    assert r == [] + r;
    ExpandSnoc([], Range(0, n));
    assert [] + Run(0, n) == Run(0, n);
    assert Denote(texts, r, pyInt) && Ascending(r);
  }

  /** A number alone anywhere else is refused, once what stands before it is read. */
  method LoneLater(before: seq<string>, n: nat, tail: seq<string>, pyInt: string -> Option<int>)
    returns (first: Result<seq<int>>, whole: Result<seq<int>>)
    requires ReadsNumerals(pyInt) && before != []
    ensures first.Ok? ==> whole == Err(InvalidEntry)
  {
    hide RangeOf, Ascending, ReadsNumerals, Expand;
    var texts := before + ([Numeral(n)] + tail);
    first := ParseServerInstanceIds(before, pyInt);
    whole := ParseServerInstanceIds(texts, pyInt);
    if first.Ok? {
      LoneIsRange(n, pyInt);
      ghost var ranges :| Denote(before, ranges, pyInt) && Ascending(ranges) && first.value == Expand(ranges);
      assert texts[..|before|] == before && texts[|before|] == Numeral(n);
      assert FaultAt(texts, |before|, ranges, InvalidEntry, pyInt);
      ParsedUnique(texts, whole, Err(InvalidEntry), pyInt);
    }
  }
}
