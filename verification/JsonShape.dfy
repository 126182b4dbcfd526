/** What every parse keeps, whatever the document. */
module JsonShape {
  import opened JsonValue
  import opened JsonText
  import opened JsonGrammar

  /** Storing keeps the members in order, whether the key is new or not. */
  lemma {:induction false} StoreSorted(ms: seq<Member>, key: CString, v: Value)
    requires Sorted(ms)
    ensures Sorted(Store(ms, key, v))
    ensures forall m :: m in Store(ms, key, v) ==> m in ms || m == Member(key, v)
  {
    if ms != [] {
      var tail := ms[1..];
      StoreSorted(tail, key, v);
      if ms[0].key != key {
        KeyLessTotal(ms[0].key, key);
        if KeyLess(key, ms[0].key) {
          forall j | 0 <= j < |ms| ensures KeyLess(key, ms[j].key) {
            if j > 0 {
              KeyLessTransitive(key, ms[0].key, ms[j].key);
            }
          }
        } else {
          var r := Store(tail, key, v);
          forall j | 0 <= j < |r| ensures KeyLess(ms[0].key, r[j].key) {
            assert r[j] in r;
          }
        }
      }
    }
  }

  /** A stored key reads back its value and leaves every other key alone. */
  lemma {:induction false} StoreLookup(ms: seq<Member>, key: CString, v: Value, k: CString)
    ensures Lookup(Store(ms, key, v), k) == if k == key then v else Lookup(ms, k)
  {
    if ms != [] {
      StoreLookup(ms[1..], key, v, k);
      var r := Store(ms, key, v);
      if ms[0].key == key {
        assert r[1..] == ms[1..];
      } else if KeyLess(key, ms[0].key) {
        assert r[1..] == ms;
      } else {
        assert r[1..] == Store(ms[1..], key, v);
      }
    } else {
      assert Store(ms, key, v)[1..] == [];
    }
  }

  lemma {:induction false} LookupWellFormed(ms: seq<Member>, key: CString)
    requires forall m :: m in ms ==> WellFormed(m.value)
    ensures WellFormed(Lookup(ms, key))
  {
    if ms != [] && ms[0].key != key {
      LookupWellFormed(ms[1..], key);
    }
  }

  lemma StoreWellFormed(ms: seq<Member>, key: CString, v: Value)
    requires WellFormed(Obj(ms)) && WellFormed(v)
    ensures WellFormed(Obj(Store(ms, key, v)))
  {
    StoreSorted(ms, key, v);
  }

  /** Every value read, with or without errors, has its object members in order. */
  lemma {:induction false} ReadWellFormed(cfg: Config, s: string, top: Value)
    requires WellFormed(top)
    ensures WellFormed(ReadValue(cfg, s, top).value)
    decreases |s|, 0
  {
    hide DecodeNumber, DecodeString, ReadToken, ReadPastComments, ReadMembers, ReadArray, CStr;
    var lx := if cfg.allowComments then ReadPastComments(s) else ReadToken(s);
    match lx.token.kind
    case ObjectBegin => ReadMembersWellFormed(cfg, lx.rest, [], []);
    case ArrayBegin =>
      ArrayWellFormed(cfg, lx.rest);
    case NumberToken => NumberWellFormed(cfg.lib, lx.token.text);
    case _ =>
  }

  lemma NumberWellFormed(lib: Libc, text: string)
    ensures DecodeNumber(lib, text).Good? ==> WellFormed(DecodeNumber(lib, text).result)
  {}

  lemma {:induction false} ArrayWellFormed(cfg: Config, s: string)
    ensures WellFormed(ReadArray(cfg, s).value)
    decreases |s|, 2
  {
    hide ReadItems;
    ReadItemsWellFormed(cfg, SkipSpaces(s), []);
  }

  lemma {:induction false} ReadItemsWellFormed(cfg: Config, s: string, items: seq<Value>)
    requires forall x :: x in items ==> WellFormed(x)
    ensures WellFormed(ReadItems(cfg, s, items).value)
    decreases |s|, 1
  {
    hide ReadValue, ReadPastComments, Recover;
    var r := ReadValue(cfg, s, Null);
    ReadWellFormed(cfg, s, Null);
    var items' := items + [r.value];
    if r.errors == [] {
      var next := ReadPastComments(r.rest);
      if !next.token.kind.ArrayEnd? {
        ReadItemsWellFormed(cfg, next.rest, items');
      }
    }
  }

  lemma {:induction false} ReadMembersWellFormed(cfg: Config, s: string, ms: seq<Member>, name: string)
    requires WellFormed(Obj(ms))
    ensures WellFormed(ReadMembers(cfg, s, ms, name).value)
    decreases |s|, 1
  {
    hide ReadValue, ReadName, ReadComma, Recover, CStr, Store, Lookup;
    match ReadName(s, name)
    case Next(name', s') =>
      var key := CStr(name');
      LookupWellFormed(ms, key);
      ReadWellFormed(cfg, s', Lookup(ms, key));
      var r := ReadValue(cfg, s', Lookup(ms, key));
      StoreWellFormed(ms, key, r.value);
      if r.errors == [] {
        match ReadComma(r.rest, name')
        case Next(_, s'') => ReadMembersWellFormed(cfg, s'', Store(ms, key, r.value), name');
        case _ =>
      }
    case _ =>
  }
}
