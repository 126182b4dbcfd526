/** The separators of arrays and objects. The test behind an array item (json_reader.cpp:536-537) never
    fails, so any token but the closing bracket passes for a comma; behind a member and a comment
    (json_reader.cpp:495-500) any token but the closing brace does. */
module JsonSeparators {
  import opened JsonValue
  import opened JsonGrammar

  // ----- The reader its messages announce -----

  /** Behind a member: a comma or the closing brace, comments skipped. */
  function StrictComma(s: string, name: string): (r: Step)
    ensures |r.rest| <= |s|
  {
    var lx := ReadPastComments(s);
    if lx.token.kind.ObjectEnd? then Close(lx.rest)
    else if lx.token.kind.Separator? then Next(name, lx.rest)
    else Broken(Recover(lx.rest, ObjectEnd), Error(MissingCommaOrBrace, lx.token.left))
  }

  function StrictValue(cfg: Config, s: string, top: Value): (r: Outcome)
    ensures |r.rest| <= |s|
    decreases |s|, 0
  {
    var lx := if cfg.allowComments then ReadPastComments(s) else ReadToken(s);
    match lx.token.kind
    case ObjectBegin => StrictMembers(cfg, lx.rest, [], [])
    case ArrayBegin => StrictArray(cfg, lx.rest)
    case _ => ReadValue(cfg, s, top)
  }

  function StrictMembers(cfg: Config, s: string, ms: seq<Member>, name: string): (r: Outcome)
    ensures |r.rest| <= |s|
    decreases |s|, 1
  {
    match ReadName(s, name)
    case Close(rest) => Outcome(rest, Obj(ms), [])
    case Broken(rest, e) => Outcome(rest, Obj(ms), [e])
    case Next(name', s') =>
      var key := CStr(name');
      var r := StrictValue(cfg, s', Lookup(ms, key));
      var ms' := Store(ms, key, r.value);
      if r.errors != [] then Outcome(Recover(r.rest, ObjectEnd), Obj(ms'), r.errors)
      else StrictAfter(cfg, r.rest, ms', name')
  }

  function StrictAfter(cfg: Config, s: string, ms: seq<Member>, name: string): (r: Outcome)
    ensures |r.rest| <= |s|
    decreases |s|, 2
  {
    match StrictComma(s, name)
    case Close(rest) => Outcome(rest, Obj(ms), [])
    case Broken(rest, e) => Outcome(rest, Obj(ms), [e])
    case Next(_, s') => StrictMembers(cfg, s', ms, name)
  }

  function StrictArray(cfg: Config, s: string): (r: Outcome)
    ensures |r.rest| <= |s|
    decreases |s|, 2
  {
    var t := SkipSpaces(s);
    if t != [] && t[0] == ']' then Outcome(t[1..], Arr([]), []) else StrictItems(cfg, t, [])
  }

  /** Behind an item: a comma or the closing bracket, comments skipped. */
  function StrictItems(cfg: Config, s: string, items: seq<Value>): (r: Outcome)
    ensures |r.rest| <= |s|
    decreases |s|, 1
  {
    var r := StrictValue(cfg, s, Null);
    if r.errors != [] then Outcome(Recover(r.rest, ArrayEnd), Arr(items + [r.value]), r.errors)
    else
      var next := ReadPastComments(r.rest);
      if next.token.kind.ArrayEnd? then Outcome(next.rest, Arr(items + [r.value]), [])
      else if next.token.kind.Separator? then StrictItems(cfg, next.rest, items + [r.value])
      else
        Outcome(Recover(next.rest, ArrayEnd), Arr(items + [r.value]),
                [Error(MissingCommaOrBracket, next.token.left)])
  }

  // ----- When the source reads the same -----

  /** Every separator the reader meets, in every array and object it enters, is a comma. */
  predicate Separated(cfg: Config, s: string, top: Value)
    decreases |s|, 0
  {
    var lx := if cfg.allowComments then ReadPastComments(s) else ReadToken(s);
    match lx.token.kind
    case ObjectBegin => MembersSeparated(cfg, lx.rest, [], [])
    case ArrayBegin => ArraySeparated(cfg, lx.rest)
    case _ => true
  }

  predicate MembersSeparated(cfg: Config, s: string, ms: seq<Member>, name: string)
    decreases |s|, 1
  {
    match ReadName(s, name)
    case Next(name', s') =>
      var top := Lookup(ms, CStr(name'));
      var r := ReadValue(cfg, s', top);
      && Separated(cfg, s', top)
      && (r.errors == [] ==> AfterSeparated(cfg, r.rest, Store(ms, CStr(name'), r.value), name'))
    case _ => true
  }

  predicate AfterSeparated(cfg: Config, s: string, ms: seq<Member>, name: string)
    decreases |s|, 2
  {
    && CommaOrBrace(s)
    && match ReadComma(s, name)
       case Next(_, s') => MembersSeparated(cfg, s', ms, name)
       case _ => true
  }

  /** A comment behind a member is followed by a comma or the closing brace. */
  predicate CommaOrBrace(s: string) {
    ReadToken(s).token.kind.CommentToken? ==>
      ReadPastComments(s).token.kind.ObjectEnd? || ReadPastComments(s).token.kind.Separator?
  }

  predicate ArraySeparated(cfg: Config, s: string)
    decreases |s|, 2
  {
    var t := SkipSpaces(s);
    (t != [] && t[0] == ']') || ItemsSeparated(cfg, t)
  }

  predicate ItemsSeparated(cfg: Config, s: string)
    decreases |s|, 1
  {
    var r := ReadValue(cfg, s, Null);
    && Separated(cfg, s, Null)
    && (r.errors == [] ==>
          var next := ReadPastComments(r.rest);
          next.token.kind.ArrayEnd? || (next.token.kind.Separator? && ItemsSeparated(cfg, next.rest)))
  }

  // ----- Where errors stand -----

  /** A token ends behind its start, except for the end of the text. */
  lemma TokenPlace(s: string)
    ensures var lx := ReadToken(s);
            lx.token.left <= |s| && (|lx.rest| < lx.token.left || (lx.token.left == 0 && lx.rest == []))
  {}

  lemma {:induction false} PastPlace(s: string)
    ensures var lx := ReadPastComments(s);
            lx.token.left <= |s| && (|lx.rest| < lx.token.left || (lx.token.left == 0 && lx.rest == []))
    decreases |s|
  {
    hide ReadToken;
    TokenPlace(s);
    if ReadToken(s).token.kind.CommentToken? {
      PastPlace(ReadToken(s).rest);
    }
  }

  /** The errors stand in the text read. */
  ghost predicate ErrorsIn(r: Outcome, s: string) { forall e :: e in r.errors ==> e.left <= |s| }

  lemma NamePlace(s: string, name: string)
    ensures ReadName(s, name).Broken? ==> ReadName(s, name).error.left <= |s|
  {
    hide ReadToken, ReadPastComments, Recover, DecodeString;
    PastPlace(s);
    TokenPlace(ReadPastComments(s).rest);
  }

  lemma CommaPlace(s: string, name: string)
    ensures ReadComma(s, name).Broken? ==> ReadComma(s, name).error.left <= |s|
  {
    hide ReadToken, ReadPastComments, Recover;
    TokenPlace(s);
  }

  lemma {:induction false} ValueErrors(cfg: Config, s: string, top: Value)
    ensures ErrorsIn(ReadValue(cfg, s, top), s)
    decreases |s|, 0
  {
    hide ReadToken, ReadPastComments, DecodeNumber, DecodeString, ReadMembers, ReadArray, CStr;
    TokenPlace(s);
    PastPlace(s);
    var lx := if cfg.allowComments then ReadPastComments(s) else ReadToken(s);
    match lx.token.kind
    case ObjectBegin => MemberErrors(cfg, lx.rest, [], []);
    case ArrayBegin => ArrayErrors(cfg, lx.rest);
    case _ =>
  }

  lemma {:induction false} MemberErrors(cfg: Config, s: string, ms: seq<Member>, name: string)
    ensures ErrorsIn(ReadMembers(cfg, s, ms, name), s)
    decreases |s|, 1
  {
    hide ReadName, ReadValue, AfterMember, Recover, CStr, Store, Lookup;
    NamePlace(s, name);
    match ReadName(s, name)
    case Next(name', s') =>
      var r := ReadValue(cfg, s', Lookup(ms, CStr(name')));
      ValueErrors(cfg, s', Lookup(ms, CStr(name')));
      if r.errors == [] {
        AfterErrors(cfg, r.rest, Store(ms, CStr(name'), r.value), name');
      }
    case _ =>
  }

  lemma {:induction false} AfterErrors(cfg: Config, s: string, ms: seq<Member>, name: string)
    ensures ErrorsIn(AfterMember(cfg, s, ms, name), s)
    decreases |s|, 2
  {
    hide ReadComma, ReadMembers;
    CommaPlace(s, name);
    match ReadComma(s, name)
    case Next(_, s') => MemberErrors(cfg, s', ms, name);
    case _ =>
  }

  lemma {:induction false} ArrayErrors(cfg: Config, s: string)
    ensures ErrorsIn(ReadArray(cfg, s), s)
    decreases |s|, 2
  {
    hide ReadItems;
    ItemErrors(cfg, SkipSpaces(s), []);
  }

  lemma {:induction false} ItemErrors(cfg: Config, s: string, items: seq<Value>)
    ensures ErrorsIn(ReadItems(cfg, s, items), s)
    decreases |s|, 1
  {
    hide ReadValue, ReadPastComments, Recover;
    var r := ReadValue(cfg, s, Null);
    ValueErrors(cfg, s, Null);
    if r.errors == [] {
      var next := ReadPastComments(r.rest);
      if !next.token.kind.ArrayEnd? {
        ItemErrors(cfg, next.rest, items + [r.value]);
      }
    }
  }

  // ----- The two readers compared -----

  /** The source's reader went on behind the place of this error. */
  ghost predicate WentOn(r: Outcome, e: Error) { e !in r.errors && (r.errors == [] ==> |r.rest| < e.left) }

  /** Equal where the separators are commas; otherwise the strict reader reports an error that the
      source's reader has passed over. */
  ghost predicate Compared(read: Outcome, strict: Outcome, separated: bool) {
    if separated then read == strict
    else
      && |strict.errors| == 1 && WentOn(read, strict.errors[0])
      && (strict.errors[0].kind.MissingCommaOrBracket? || strict.errors[0].kind.MissingCommaOrBrace?)
  }

  lemma {:induction false} ValueCompared(cfg: Config, s: string, top: Value)
    ensures Compared(ReadValue(cfg, s, top), StrictValue(cfg, s, top), Separated(cfg, s, top))
    decreases |s|, 0
  {
    hide ReadToken, ReadPastComments, DecodeNumber, DecodeString, ReadMembers, ReadArray, CStr, Body, Compared;
    hide StrictMembers, StrictArray, MembersSeparated, ArraySeparated;
    var lx := if cfg.allowComments then ReadPastComments(s) else ReadToken(s);
    match lx.token.kind
    case ObjectBegin => MembersCompared(cfg, lx.rest, [], []);
    case ArrayBegin => ArrayCompared(cfg, lx.rest);
    case _ => Same(ReadValue(cfg, s, top));
  }

  lemma Same(r: Outcome)
    ensures Compared(r, r, true)
  {}

  lemma {:induction false} MembersCompared(cfg: Config, s: string, ms: seq<Member>, name: string)
    ensures Compared(ReadMembers(cfg, s, ms, name), StrictMembers(cfg, s, ms, name), MembersSeparated(cfg, s, ms, name))
    decreases |s|, 1
  {
    hide ReadName, ReadValue, AfterMember, Recover, CStr, Store, Lookup;
    hide StrictValue, StrictAfter, Separated, AfterSeparated;
    match ReadName(s, name)
    case Next(name', s') =>
      var key := CStr(name');
      var top := Lookup(ms, key);
      var r := ReadValue(cfg, s', top);
      ValueCompared(cfg, s', top);
      if Separated(cfg, s', top) {
        if r.errors == [] {
          AfterCompared(cfg, r.rest, Store(ms, key, r.value), name');
        }
      } else if r.errors == [] {
        AfterErrors(cfg, r.rest, Store(ms, key, r.value), name');
      }
    case _ =>
  }

  lemma {:induction false} AfterCompared(cfg: Config, s: string, ms: seq<Member>, name: string)
    ensures Compared(AfterMember(cfg, s, ms, name), StrictAfter(cfg, s, ms, name), AfterSeparated(cfg, s, ms, name))
    decreases |s|, 2
  {
    hide ReadComma, StrictComma, ReadMembers, StrictMembers, MembersSeparated, CommaOrBrace, Compared;
    CommaCompared(s, name);
    if CommaOrBrace(s) {
      match ReadComma(s, name)
      case Next(_, s') => MembersCompared(cfg, s', ms, name);
      case _ => Same(AfterMember(cfg, s, ms, name));
    } else {
      PassedOver(cfg, s, ms, name);
    }
  }

  lemma CommaCompared(s: string, name: string)
    ensures CommaOrBrace(s) <==> ReadComma(s, name) == StrictComma(s, name)
  {
    hide ReadToken, Recover;
  }

  /** Behind a comment the source takes some other token for a comma. */
  lemma PassedOver(cfg: Config, s: string, ms: seq<Member>, name: string)
    requires !CommaOrBrace(s)
    ensures Compared(AfterMember(cfg, s, ms, name), StrictAfter(cfg, s, ms, name), false)
  {
    hide ReadToken, ReadPastComments, Recover, ReadMembers;
    var lx := ReadPastComments(s);
    PastPlace(s);
    MemberErrors(cfg, lx.rest, ms, name);
    EndOfMembers(cfg, ms, name);
  }

  /** At the end of the text a name is missing. */
  lemma EndOfMembers(cfg: Config, ms: seq<Member>, name: string)
    ensures ReadMembers(cfg, [], ms, name).errors == [Error(MissingBraceOrName, 0)]
  {
    hide Recover;
    Nothing();
  }

  lemma {:induction false} ArrayCompared(cfg: Config, s: string)
    ensures Compared(ReadArray(cfg, s), StrictArray(cfg, s), ArraySeparated(cfg, s))
    decreases |s|, 2
  {
    hide ReadItems, StrictItems, ItemsSeparated, Compared;
    var t := SkipSpaces(s);
    if t != [] && t[0] == ']' {
      Same(ReadArray(cfg, s));
    } else {
      ItemsCompared(cfg, t, []);
    }
  }

  lemma {:induction false} ItemsCompared(cfg: Config, s: string, items: seq<Value>)
    ensures Compared(ReadItems(cfg, s, items), StrictItems(cfg, s, items), ItemsSeparated(cfg, s))
    decreases |s|, 1
  {
    hide ReadValue, StrictValue, Separated, ReadPastComments, Recover;
    var r := ReadValue(cfg, s, Null);
    ValueCompared(cfg, s, Null);
    if r.errors == [] {
      var next := ReadPastComments(r.rest);
      PastPlace(r.rest);
      if !Separated(cfg, s, Null) {
        ItemErrors(cfg, next.rest, items + [r.value]);
      } else if next.token.kind.Separator? {
        ItemsCompared(cfg, next.rest, items + [r.value]);
      } else if !next.token.kind.ArrayEnd? {
        ItemErrors(cfg, next.rest, items + [r.value]);
        EndOfItems(cfg, items + [r.value]);
      }
    }
  }

  /** At the end of the text a value is missing. */
  lemma EndOfItems(cfg: Config, items: seq<Value>)
    ensures ReadItems(cfg, [], items).errors == [Error(ValueExpected, 0)]
  {
    hide Recover;
    Nothing();
  }

  /** The source's reader reads a value as the strict one if and only if every separator it meets, at
      every depth, is a comma. */
  lemma StrictIff(cfg: Config, s: string, top: Value)
    ensures ReadValue(cfg, s, top) == StrictValue(cfg, s, top) <==> Separated(cfg, s, top)
  {
    hide ReadValue, StrictValue, Separated;
    ValueCompared(cfg, s, top);
  }

  /** A whole document, read strictly. */
  function StrictDocument(cfg: Config, doc: string, root: Value): (r: Outcome) {
    var r := StrictValue(cfg, doc, root);
    var end := if cfg.allowComments then ReadPastComments(r.rest) else ReadToken(r.rest);
    if cfg.strictRoot && !r.value.Arr? && !r.value.Obj? && !r.value.Null? then
      Outcome(end.rest, r.value, r.errors + [Error(BadRoot, |doc|)])
    else Outcome(end.rest, r.value, r.errors)
  }

  /** And so a whole document. */
  lemma DocumentIff(cfg: Config, doc: string, root: Value)
    ensures ParseDocument(cfg, doc, root) == StrictDocument(cfg, doc, root) <==> Separated(cfg, doc, root)
    ensures !Separated(cfg, doc, root) ==> StrictDocument(cfg, doc, root).errors != []
  {
    hide ReadValue, StrictValue, Separated, ReadToken, ReadPastComments;
    ValueCompared(cfg, doc, root);
    if !Separated(cfg, doc, root) {
      var e := StrictValue(cfg, doc, root).errors[0];
      assert e in StrictDocument(cfg, doc, root).errors && e !in ParseDocument(cfg, doc, root).errors;
    }
  }

  lemma Nothing()
    ensures ReadToken("") == Lexed(Token(EndOfStream, [], 0), []) && ReadPastComments("") == ReadToken("")
  {}
}
