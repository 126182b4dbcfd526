/** Chunk keys of persistent arrays (include/array/AddressMeta.h, include/array/Address.h): their
    order, and the multi-version lookup that rests on it. */
module AddressKeys {

  datatype StoreKey = StoreKey(nsid: nat, dsid: nat)

  /** `_nDims` is the length of the coordinates; zero dimensions mark the maximum key. */
  datatype Key = Key(dsk: StoreKey, attId: nat, coords: seq<int>, version: nat)

  // ----- Reference order -----

  /** The chunk a key belongs to, as numbers to be compared from the left: more dimensions first. */
  ghost function ChunkCode(k: Key): seq<int> {
    [k.dsk.nsid, k.dsk.dsid, -|k.coords|, k.attId] + k.coords
  }

  ghost predicate LexLess(a: seq<int>, b: seq<int>) {
    if b == [] then false
    else if a == [] then true
    else a[0] < b[0] || (a[0] == b[0] && LexLess(a[1..], b[1..]))
  }

  ghost predicate SameChunk(a: Key, b: Key) { a.(version := b.version) == b }

  /** By chunk, and within a chunk the newest version first. */
  ghost predicate Less(a: Key, b: Key) {
    LexLess(ChunkCode(a), ChunkCode(b)) || (SameChunk(a, b) && a.version > b.version)
  }

  lemma {:induction false} LexIrreflexive(a: seq<int>)
    ensures !LexLess(a, a)
  {
    if a != [] {
      LexIrreflexive(a[1..]);
    }
  }

  lemma {:induction false} LexTransitive(a: seq<int>, b: seq<int>, c: seq<int>)
    requires LexLess(a, b) && LexLess(b, c)
    ensures LexLess(a, c)
  {
    if a != [] && a[0] == b[0] && b[0] == c[0] {
      LexTransitive(a[1..], b[1..], c[1..]);
    }
  }

  lemma {:induction false} LexTotal(a: seq<int>, b: seq<int>)
    ensures LexLess(a, b) || a == b || LexLess(b, a)
  {
    if a != [] && b != [] && a[0] == b[0] {
      LexTotal(a[1..], b[1..]);
      assert a == [a[0]] + a[1..] && b == [b[0]] + b[1..];
    }
  }

  /** The code tells chunks apart. */
  lemma CodeInjective(a: Key, b: Key)
    requires ChunkCode(a) == ChunkCode(b)
    ensures SameChunk(a, b)
  {
    var x, y := ChunkCode(a), ChunkCode(b);
    assert x[0] == y[0] && x[1] == y[1] && x[3] == y[3];
    assert a.coords == x[4..] && b.coords == y[4..];
  }

  /** A strict total order whose ties are equality. */
  lemma StrictTotalOrder(a: Key, b: Key, c: Key)
    ensures !Less(a, a)
    ensures Less(a, b) && Less(b, c) ==> Less(a, c)
    ensures Less(a, b) || Less(b, a) || a == b
    ensures !(Less(a, b) && Less(b, a))
  {
    hide LexLess, ChunkCode;
    var x, y, z := ChunkCode(a), ChunkCode(b), ChunkCode(c);
    LexIrreflexive(x);
    LexTotal(x, y);
    SameCode(a, b); SameCode(b, c); SameCode(a, c);
    if LexLess(x, y) && LexLess(y, z) {
      LexTransitive(x, y, z);
    }
    if x == y {
      CodeInjective(a, b);
    }
    if LexLess(x, y) && LexLess(y, x) {
      LexTransitive(x, y, x);
    }
  }

  lemma SameCode(a: Key, b: Key)
    ensures SameChunk(a, b) ==> ChunkCode(a) == ChunkCode(b)
  {}

  // ----- The comparison functions (AddressMeta.h:343-399) -----

  /** The sign of the first difference from coordinate i on, then `tie`. */
  ghost predicate CoordsLess(a: seq<int>, b: seq<int>, i: nat, tie: bool)
    requires |a| == |b| && i <= |a|
    decreases |a| - i
  {
    if i == |a| then tie
    else if a[i] != b[i] then a[i] < b[i]
    else CoordsLess(a, b, i + 1, tie)
  }

  lemma {:induction false} CoordsLessLex(a: seq<int>, b: seq<int>, i: nat, tie: bool)
    requires |a| == |b| && i <= |a|
    ensures CoordsLess(a, b, i, tie) <==> LexLess(a[i..], b[i..]) || (a[i..] == b[i..] && tie)
    decreases |a| - i
  {
    if i < |a| {
      CoordsLessLex(a, b, i + 1, tie);
      assert a[i..][1..] == a[i + 1..] && b[i..][1..] == b[i + 1..];
      assert a[i..] == [a[i]] + a[i + 1..] && b[i..] == [b[i]] + b[i + 1..];
    }
  }

  function StoreLess(a: StoreKey, b: StoreKey): bool {
    if a.nsid == b.nsid then a.dsid < b.dsid else a.nsid < b.nsid
  }

  method KeyLess(key1: Key, key2: Key) returns (r: bool)
    ensures r <==> Less(key1, key2)
  {
    CodeSteps(key1, key2);
    hide LexLess, ChunkCode;
    if key1.dsk != key2.dsk {
      return StoreLess(key1.dsk, key2.dsk);
    }
    if |key1.coords| != |key2.coords| {
      return |key1.coords| > |key2.coords|;
    }
    if key1.attId != key2.attId {
      return key1.attId < key2.attId;
    }
    ghost var newer := key1.version > key2.version;
    CoordsLessLex(key1.coords, key2.coords, 0, newer);
    assert key1.coords[0..] == key1.coords && key2.coords[0..] == key2.coords;
    for i := 0 to |key1.coords|
      invariant CoordsLess(key1.coords, key2.coords, 0, newer) == CoordsLess(key1.coords, key2.coords, i, newer)
    {
      if key1.coords[i] != key2.coords[i] {
        return key1.coords[i] < key2.coords[i];
      }
    }
    if key1.version != key2.version {
      return key1.version > key2.version;
    }
    return false;
  }

  /** How the code comparison falls out, field by field. */
  lemma CodeSteps(a: Key, b: Key)
    ensures a.dsk != b.dsk ==> (LexLess(ChunkCode(a), ChunkCode(b)) <==> StoreLess(a.dsk, b.dsk))
    ensures a.dsk == b.dsk && |a.coords| != |b.coords| ==>
              (LexLess(ChunkCode(a), ChunkCode(b)) <==> |a.coords| > |b.coords|)
    ensures a.dsk == b.dsk && |a.coords| == |b.coords| && a.attId != b.attId ==>
              (LexLess(ChunkCode(a), ChunkCode(b)) <==> a.attId < b.attId)
    ensures a.dsk == b.dsk && |a.coords| == |b.coords| && a.attId == b.attId ==>
              (LexLess(ChunkCode(a), ChunkCode(b)) <==> LexLess(a.coords, b.coords))
  {
    var x, y := ChunkCode(a), ChunkCode(b);
    assert x[1..][1..] == x[2..] && x[2..][1..] == x[3..] && x[3..][1..] == x[4..] == a.coords;
    assert y[1..][1..] == y[2..] && y[2..][1..] == y[3..] && y[3..][1..] == y[4..] == b.coords;
    assert LexLess(x[3..], y[3..]) <==> a.attId < b.attId || (a.attId == b.attId && LexLess(a.coords, b.coords));
    assert LexLess(x[2..], y[2..]) <==>
           |a.coords| > |b.coords| || (|a.coords| == |b.coords| && LexLess(x[3..], y[3..]));
    assert LexLess(x[1..], y[1..]) <==>
           a.dsk.dsid < b.dsk.dsid || (a.dsk.dsid == b.dsk.dsid && LexLess(x[2..], y[2..]));
  }

  method KeyEqual(key1: Key, key2: Key, ignoreVersion: bool) returns (r: bool)
    ensures r <==> SameChunk(key1, key2) && (ignoreVersion || key1.version == key2.version)
    ensures !ignoreVersion ==> (r <==> !Less(key1, key2) && !Less(key2, key1))
  {
    StrictTotalOrder(key1, key2, key2);
    StrictTotalOrder(key2, key1, key1);
    hide Less;
    if key1.dsk != key2.dsk {
      return false;
    }
    if |key1.coords| != |key2.coords| {
      return false;
    }
    if key1.attId != key2.attId {
      return false;
    }
    for i := 0 to |key1.coords|
      invariant key1.coords[..i] == key2.coords[..i]
    {
      if key1.coords[i] != key2.coords[i] {
        return false;
      }
    }
    assert key1.coords[..|key1.coords|] == key1.coords && key2.coords[..|key2.coords|] == key2.coords;
    return ignoreVersion || key1.version == key2.version;
  }

  /** What decides, in order: the store, the number of dimensions, the attribute, the first coordinate that
      differs, the version. More dimensions and later versions come first. */
  lemma OrderDecides(a: Key, b: Key)
    ensures a.dsk.nsid != b.dsk.nsid ==> (Less(a, b) <==> a.dsk.nsid < b.dsk.nsid)
    ensures a.dsk.nsid == b.dsk.nsid && a.dsk.dsid != b.dsk.dsid ==> (Less(a, b) <==> a.dsk.dsid < b.dsk.dsid)
    ensures a.dsk == b.dsk && |a.coords| != |b.coords| ==> (Less(a, b) <==> |a.coords| > |b.coords|)
    ensures a.dsk == b.dsk && |a.coords| == |b.coords| && a.attId != b.attId ==> (Less(a, b) <==> a.attId < b.attId)
    ensures a.dsk == b.dsk && |a.coords| == |b.coords| && a.attId == b.attId ==>
              forall i :: 0 <= i < |a.coords| && a.coords[..i] == b.coords[..i] && a.coords[i] != b.coords[i] ==>
                (Less(a, b) <==> a.coords[i] < b.coords[i])
    ensures SameChunk(a, b) ==> (Less(a, b) <==> a.version > b.version)
  {
    hide LexLess, ChunkCode;
    CodeSteps(a, b);
    SameCode(a, b);
    LexIrreflexive(ChunkCode(a));
    forall i | 0 <= i < |a.coords| && |a.coords| == |b.coords| && a.coords[..i] == b.coords[..i]
               && a.coords[i] != b.coords[i]
      ensures LexLess(a.coords, b.coords) <==> a.coords[i] < b.coords[i]
    {
      FirstDecides(a.coords, b.coords, i);
    }
  }

  lemma {:induction false} FirstDecides(a: seq<int>, b: seq<int>, i: nat)
    requires i < |a| && i < |b| && a[..i] == b[..i] && a[i] != b[i]
    ensures LexLess(a, b) <==> a[i] < b[i]
  {
    if i > 0 {
      assert a[0] == a[..i][0] && b[0] == b[..i][0];
      assert a[1..][..i - 1] == a[..i][1..] && b[1..][..i - 1] == b[..i][1..];
      FirstDecides(a[1..], b[1..], i - 1);
    }
  }

  /** `KeyMax`: the sentinel of a store. */
  function KeyMax(dsk: StoreKey): Key { Key(dsk, 0, [], 0) }

  /** Every key with a dimension is below the sentinel of its store; of the others only a later
      version of the sentinel itself is. */
  lemma MaxAboveAll(k: Key)
    ensures Less(k, KeyMax(k.dsk)) <==> k.coords != [] || (k.attId == 0 && k.version > 0)
  {
    CodeSteps(k, KeyMax(k.dsk));
    LexIrreflexive([]);
    hide LexLess, ChunkCode;
  }

  // ----- Addresses (Address.h:197-231) -----

  /** `PersistentAddress::operator<`, which puts fewer dimensions first. */
  ghost predicate AddressLess(a: Key, b: Key) {
    if a.attId != b.attId then a.attId < b.attId
    else if |a.coords| != |b.coords| then |a.coords| < |b.coords|
    else CoordsLess(a.coords, b.coords, 0, a.version > b.version)
  }

  /** In one store the two orders agree on keys of equal dimension count, and on keys of unequal
      count exactly when the attribute decides as the count does. */
  lemma OrdersAgree(a: Key, b: Key)
    requires a.dsk == b.dsk
    ensures (Less(a, b) <==> AddressLess(a, b)) <==>
            (|a.coords| == |b.coords| || (|a.coords| > |b.coords| && a.attId < b.attId)
             || (|a.coords| < |b.coords| && a.attId > b.attId))
  {
    CodeSteps(a, b);
    if |a.coords| == |b.coords| && a.attId == b.attId {
      CoordsLessLex(a.coords, b.coords, 0, a.version > b.version);
      assert a.coords[0..] == a.coords && b.coords[0..] == b.coords;
    }
    hide LexLess, ChunkCode, CoordsLess;
  }

  // ----- Multi-version lookup -----

  ghost predicate SortedKeys(ks: seq<Key>) { forall i, j :: 0 <= i < j < |ks| ==> Less(ks[i], ks[j]) }

  /** i is where a search for the first key not less than `probe` ends. */
  ghost predicate LowerBound(ks: seq<Key>, probe: Key, i: nat) {
    && i <= |ks|
    && (forall j :: 0 <= j < i ==> Less(ks[j], probe))
    && (i < |ks| ==> !Less(ks[i], probe))
  }

  /** A version of the probed chunk that is not after the probed version. */
  ghost predicate Visible(k: Key, probe: Key) { SameChunk(k, probe) && k.version <= probe.version }

  lemma BetweenSameChunk(a: Key, b: Key, c: Key)
    requires SameChunk(a, c) && !Less(b, a) && (b == c || Less(b, c))
    ensures SameChunk(a, b) && c.version <= b.version <= a.version
  {
    hide LexLess, ChunkCode;
    var x, y := ChunkCode(a), ChunkCode(b);
    SameCode(a, c);
    SameCode(b, c);
    LexTotal(x, y);
    LexIrreflexive(x);
    if LexLess(x, y) && LexLess(y, x) {
      LexTransitive(x, y, x);
    }
    if x == y {
      CodeInjective(a, b);
    }
  }

  lemma VisibleNotLess(k: Key, probe: Key)
    requires Visible(k, probe)
    ensures !Less(k, probe)
  {
    SameCode(k, probe);
    LexIrreflexive(ChunkCode(k));
  }

  /** The key at the lower bound is the newest visible version of the chunk when there is one, and
      otherwise does not belong to the chunk: one search answers the versioned lookup. */
  lemma LookupFindsLatest(ks: seq<Key>, probe: Key, i: nat)
    requires SortedKeys(ks) && LowerBound(ks, probe, i)
    ensures (exists k :: k in ks && Visible(k, probe)) <==> i < |ks| && SameChunk(ks[i], probe)
    ensures i < |ks| && SameChunk(ks[i], probe) ==>
              Visible(ks[i], probe) && forall k :: k in ks && Visible(k, probe) ==> k.version <= ks[i].version
  {
    hide Less;
    forall k | k in ks && Visible(k, probe)
      ensures i < |ks| && SameChunk(ks[i], probe) && k.version <= ks[i].version
    {
      var j :| 0 <= j < |ks| && ks[j] == k;
      VisibleNotLess(k, probe);
      assert i <= j;
      BetweenSameChunk(probe, ks[i], k);
    }
    if i < |ks| && SameChunk(ks[i], probe) {
      NotLessVisible(ks[i], probe);
      assert ks[i] in ks;
    }
  }

  lemma NotLessVisible(k: Key, probe: Key)
    requires SameChunk(k, probe) && !Less(k, probe)
    ensures Visible(k, probe)
  {}
}
