/** Writing what has been read changes nothing. */
module JsonReparse {
  import opened Basics
  import opened JsonValue
  import opened JsonText
  import opened JsonGrammar
  import opened JsonRoundTrip
  import opened JsonShape
  import opened JsonWriter
  import opened JsonLaws

  /** Unsigned integers only where a signed one would not do. */
  predicate Settled(v: Value) {
    match v
    case UInt(u) => u >= TWO63
    case Arr(items) => forall x :: x in items ==> Settled(x)
    case Obj(ms) => forall m :: m in ms ==> Settled(m.value)
    case _ => true
  }

  predicate NoReals(v: Value) {
    match v
    case Real(_) => false
    case Arr(items) => forall x :: x in items ==> NoReals(x)
    case Obj(ms) => forall m :: m in ms ==> NoReals(m.value)
    case _ => true
  }

  lemma {:induction false} NoRealsExact(lib: Libc, v: Value)
    requires NoReals(v)
    ensures ExactReals(lib, v)
  {
    match v
    case Arr(items) =>
      forall x | x in items ensures ExactReals(lib, x) {
        NoRealsExact(lib, x);
      }
    case Obj(ms) =>
      forall m | m in ms ensures ExactReals(lib, m.value) {
        NoRealsExact(lib, m.value);
      }
    case _ =>
  }

  // ----- Settled values are restored as they are -----

  lemma {:induction false} SettledRestored(v: Value)
    requires Settled(v)
    ensures Restored(v) == v
    decreases v, 0
  {
    match v
    case Arr(items) => SettledItems(items);
    case Obj(ms) => SettledMembers(ms);
    case _ =>
  }

  lemma {:induction false} SettledItems(items: seq<Value>)
    requires forall x :: x in items ==> Settled(x)
    ensures RestoredItems(items) == items
    decreases items, 1
  {
    if items != [] {
      SettledRestored(items[0]);
      SettledItems(items[1..]);
      assert items == [items[0]] + items[1..];
    }
  }

  lemma {:induction false} SettledMembers(ms: seq<Member>)
    requires forall m :: m in ms ==> Settled(m.value)
    ensures RestoredMembers(ms) == ms
    decreases ms, 1
  {
    if ms != [] {
      SettledRestored(ms[0].value);
      SettledMembers(ms[1..]);
      assert ms == [ms[0]] + ms[1..];
    }
  }

  // ----- Values read are settled -----

  lemma NumberSettled(lib: Libc, text: string)
    ensures DecodeNumber(lib, text).Good? ==> Settled(DecodeNumber(lib, text).result)
  {}

  lemma {:induction false} LookupSettled(ms: seq<Member>, key: CString)
    requires Settled(Obj(ms))
    ensures Settled(Lookup(ms, key))
  {
    if ms != [] && ms[0].key != key {
      LookupSettled(ms[1..], key);
    }
  }

  lemma {:induction false} StoreSettled(ms: seq<Member>, key: CString, v: Value)
    requires Settled(Obj(ms)) && Settled(v)
    ensures Settled(Obj(Store(ms, key, v)))
  {
    hide KeyLess;
    if ms != [] {
      assert Settled(ms[0].value);
      StoreSettled(ms[1..], key, v);
    }
  }

  lemma {:induction false} ReadSettled(cfg: Config, s: string, top: Value)
    requires Settled(top)
    ensures Settled(ReadValue(cfg, s, top).value)
    decreases |s|, 0
  {
    hide DecodeNumber, DecodeString, ReadToken, ReadPastComments, ReadMembers, ReadArray, CStr;
    var lx := if cfg.allowComments then ReadPastComments(s) else ReadToken(s);
    match lx.token.kind
    case ObjectBegin => MembersSettled(cfg, lx.rest, [], []);
    case ArrayBegin => ArraySettled(cfg, lx.rest);
    case NumberToken => NumberSettled(cfg.lib, lx.token.text);
    case _ =>
  }

  lemma {:induction false} ArraySettled(cfg: Config, s: string)
    ensures Settled(ReadArray(cfg, s).value)
    decreases |s|, 2
  {
    hide ReadItems;
    ItemsSettled(cfg, SkipSpaces(s), []);
  }

  lemma {:induction false} ItemsSettled(cfg: Config, s: string, items: seq<Value>)
    requires Settled(Arr(items))
    ensures Settled(ReadItems(cfg, s, items).value)
    decreases |s|, 1
  {
    hide ReadValue, ReadPastComments, Recover;
    var r := ReadValue(cfg, s, Null);
    ReadSettled(cfg, s, Null);
    if r.errors == [] {
      var next := ReadPastComments(r.rest);
      if !next.token.kind.ArrayEnd? {
        ItemsSettled(cfg, next.rest, items + [r.value]);
      }
    }
  }

  lemma {:induction false} MembersSettled(cfg: Config, s: string, ms: seq<Member>, name: string)
    requires Settled(Obj(ms))
    ensures Settled(ReadMembers(cfg, s, ms, name).value)
    decreases |s|, 1
  {
    hide ReadValue, ReadName, ReadComma, Recover, CStr, Store, Lookup;
    match ReadName(s, name)
    case Next(name', s') =>
      var key := CStr(name');
      LookupSettled(ms, key);
      ReadSettled(cfg, s', Lookup(ms, key));
      var r := ReadValue(cfg, s', Lookup(ms, key));
      StoreSettled(ms, key, r.value);
      if r.errors == [] {
        match ReadComma(r.rest, name')
        case Next(_, s'') => MembersSettled(cfg, s'', Store(ms, key, r.value), name');
        case _ =>
      }
    case _ =>
  }

  /** A value read without error does not depend on what the slot held. */
  lemma TopIgnored(cfg: Config, s: string, top: Value)
    requires ReadValue(cfg, s, top).errors == []
    ensures ReadValue(cfg, s, Null) == ReadValue(cfg, s, top)
  {
    hide ReadMembers, ReadArray, ReadToken, ReadPastComments, DecodeNumber, DecodeString;
  }

  /** What a parse without error returns, if it holds no reals, is returned again by parsing what
      either writer makes of it. */
  lemma ReparseSame(cfg: Config, doc: string, root: Value, yaml: bool, root': Value)
    requires ParseDocument(cfg, doc, root).errors == [] && NoReals(ParseDocument(cfg, doc, root).value)
    ensures var v := ParseDocument(cfg, doc, root).value;
            && ParseDocument(cfg, FastText(cfg.lib, yaml, "", v) + "\n", root') == Outcome([], v, [])
            && ParseDocument(cfg, StyledText(cfg.lib, "", "", v) + "\n", root') == Outcome([], v, [])
  {
    hide ReadValue, FastText, StyledText, ReadToken, ReadPastComments, WellFormed, Settled, NoReals, ExactReals;
    hide Restored;
    var v := ParseDocument(cfg, doc, root).value;
    TopIgnored(cfg, doc, root);
    NullFine();
    ReadWellFormed(cfg, doc, Null);
    ReadSettled(cfg, doc, Null);
    SettledRestored(v);
    NoRealsExact(cfg.lib, v);
    FastRoundTrip(cfg, yaml, v, root');
    StyledRoundTrip(cfg, v, root');
  }

  lemma NullFine()
    ensures WellFormed(Null) && Settled(Null)
  {}
}
