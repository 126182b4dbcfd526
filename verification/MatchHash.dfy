/** The hashed grid index of examples/match/MatchArray.cpp and the neighbour join built on it.
    The hash step is a parameter: the join is right for every total function in its place, so in
    particular for HashStep. Coordinates are mathematical integers. */
module MatchHash {
  import opened Basics

  type Coords = seq<int>

  const HASH_MULTIPLIER := 1000003
  const HASH_TABLE_RESERVE := 1009

  type Mix = (int, int) -> int

  /** Exclusive or, bit by bit. */
  function Xor(a: nat, b: nat): nat
    decreases a + b
  {
    if a == 0 && b == 0 then 0 else 2 * Xor(a / 2, b / 2) + (a + b) % 2
  }

  /** The source's step on signed 64-bit integers: `hash * HASH_MULTIPLIER ^ cell`. */
  function HashStep(hash: int, cell: int): int {
    var h := Xor(hash * HASH_MULTIPLIER % TWO64, cell % TWO64);
    if h < TWO64 / 2 then h else h - TWO64
  }

  lemma {:induction false} XorZero(x: nat)
    ensures Xor(0, x) == x
  {
    if x > 0 {
      XorZero(x / 2);
    }
  }

  lemma {:induction false} XorSelf(x: nat)
    ensures Xor(x, x) == 0
  {
    if x > 0 {
      XorSelf(x / 2);
    }
  }

  // ----- Truncating division -----

  /** Integer division as the source's language defines it: the quotient is rounded towards zero. */
  function TruncDiv(a: int, b: int): int
    requires b != 0
  {
    if a >= 0 then (if b > 0 then a / b else -(a / -b))
    else (if b > 0 then -(-a / b) else -a / -b)
  }

  /** The remainder is smaller than the divisor and has the sign of the dividend. */
  lemma TruncDivExact(a: int, b: int)
    requires b != 0
    ensures var r := a - TruncDiv(a, b) * b;
            Abs(r) < Abs(b) && (r != 0 ==> (r < 0 <==> a < 0))
  {
    hide TruncDiv;
    TruncDivIs(a, b);
    var y := Abs(b);
    var q, s := Abs(a) / y, Abs(a) % y;
    Quotient(Abs(a), y);
    Signs(q, y);
    assert TruncDiv(a, b) * b == if a >= 0 then q * y else -(q * y);
    assert a == if a >= 0 then q * y + s else -(q * y) - s;
  }

  lemma TruncDivIs(a: int, b: int)
    requires b != 0
    ensures TruncDiv(a, b) == if (a >= 0) == (b > 0) then Abs(a) / Abs(b) else -(Abs(a) / Abs(b))
  {}

  lemma Quotient(x: nat, y: nat)
    requires y > 0
    ensures x == x / y * y + x % y && 0 <= x % y < y
  {}

  lemma Signs(q: int, y: int)
    ensures (-q) * y == -(q * y) && q * (-y) == -(q * y) && (-q) * (-y) == q * y
  {}

  /** It is monotone in the dividend, across zero too. */
  lemma TruncDivMonotone(x: int, y: int, e: int)
    requires x <= y && e > 0
    ensures TruncDiv(x, e) <= TruncDiv(y, e)
  {
    if 0 <= x {
      DivMonotone(x, y, e);
    } else if y < 0 {
      DivMonotone(-y, -x, e);
    } else {
      DivMonotone(0, -x, e);
      DivMonotone(0, y, e);
    }
  }

  lemma DivMonotone(x: int, y: int, e: int)
    requires 0 <= x <= y && e > 0
    ensures x / e <= y / e
  {
    var p, q, r, s := x / e, y / e, x % e, y % e;
    assert x == p * e + r && y == q * e + s;
    assert (p - q) * e < e;
    MulBound(p - q, e);
  }

  lemma MulBound(k: int, e: int)
    requires e > 0 && k * e < e
    ensures k <= 0
  {
    assert k > 0 ==> k * e >= e;
  }

  function Abs(x: int): nat { if x < 0 then -x else x }

  /** The cell of a position within |e| of q lies between the cells of the two ends. */
  lemma CellBetween(p: int, q: int, e: int)
    requires e != 0 && q - Abs(e) <= p <= q + Abs(e)
    ensures TruncDiv(q - e, e) <= TruncDiv(p, e) <= TruncDiv(q + e, e)
  {
    var a := Abs(e);
    TruncDivMonotone(q - a, p, a);
    TruncDivMonotone(p, q + a, a);
    if e < 0 {
      TruncDivNegated(q - a, a);
      TruncDivNegated(p, a);
      TruncDivNegated(q + a, a);
    }
  }

  lemma TruncDivNegated(x: int, a: int)
    requires a > 0
    ensures TruncDiv(x, -a) == -TruncDiv(x, a)
  {}

  // ----- Cells -----

  /** `getCatalogHash`: the hash of the cell a position lies in, from coordinate i on. */
  ghost function CellHash(mix: Mix, pos: Coords, i: nat, hash: int, error: int): int
    requires i <= |pos| && error != 0
    decreases |pos| - i
  {
    if i == |pos| then hash else CellHash(mix, pos, i + 1, mix(hash, TruncDiv(pos[i], error)), error)
  }

  /** The hashes of all cells an entry is filed under, from coordinate i on. */
  ghost function NearHashes(mix: Mix, pos: Coords, i: nat, hash: int, error: int): set<int>
    requires i <= |pos| && error != 0
    decreases |pos| - i, 0, 0
  {
    if i == |pos| then {hash}
    else NearHashesBelow(mix, pos, i, hash, error, TruncDiv(pos[i] - error, error), TruncDiv(pos[i] + error, error) + 1)
  }

  /** Those whose cell number on coordinate i lies in [from, end). */
  ghost function NearHashesBelow(mix: Mix, pos: Coords, i: nat, hash: int, error: int, from: int, end: int): set<int>
    requires i < |pos| && error != 0
    decreases |pos| - i - 1, 1, end - from
  {
    if end <= from then {}
    else NearHashesBelow(mix, pos, i, hash, error, from, end - 1)
         + NearHashes(mix, pos, i + 1, mix(hash, end - 1), error)
  }

  lemma {:induction false} CellCovered(mix: Mix, pos: Coords, i: nat, hash: int, error: int, from: int, end: int,
                                       c: int)
    requires i < |pos| && error != 0 && from <= c < end
    ensures NearHashes(mix, pos, i + 1, mix(hash, c), error) <= NearHashesBelow(mix, pos, i, hash, error, from, end)
    decreases end - from
  {
    if c < end - 1 {
      CellCovered(mix, pos, i, hash, error, from, end - 1, c);
    }
  }

  /** Within `error` on every coordinate. */
  ghost predicate Neighbors(p: Coords, q: Coords, error: int) {
    |p| == |q| && forall i :: 0 <= i < |p| ==> p[i] - error <= q[i] <= p[i] + error
  }

  /** A neighbour's cell is among the cells an entry is filed under. */
  lemma {:induction false} NeighborCell(mix: Mix, p: Coords, q: Coords, i: nat, hash: int, error: int)
    requires Neighbors(p, q, Abs(error)) && error != 0 && i <= |p|
    ensures CellHash(mix, p, i, hash, error) in NearHashes(mix, q, i, hash, error)
    decreases |p| - i
  {
    if i < |p| {
      var c := TruncDiv(p[i], error);
      var from, till := TruncDiv(q[i] - error, error), TruncDiv(q[i] + error, error);
      CellBetween(p[i], q[i], error);
      NeighborCell(mix, p, q, i + 1, mix(hash, c), error);
      CellCovered(mix, q, i, hash, error, from, till + 1, c);
    }
  }

  method GetCatalogHash(mix: Mix, pos: Coords, error: int) returns (hash: int)
    requires error != 0
    ensures hash == CellHash(mix, pos, 0, 0, error)
  {
    hash := 0;
    for i := 0 to |pos|
      invariant CellHash(mix, pos, i, hash, error) == CellHash(mix, pos, 0, 0, error)
    {
      hash := mix(hash, TruncDiv(pos[i], error));
    }
  }

  method IsNeighbor(from: Coords, till: Coords, error: int) returns (ok: bool)
    requires |from| == |till|
    ensures ok <==> Neighbors(from, till, error)
  {
    for i := 0 to |from|
      invariant forall k :: 0 <= k < i ==> from[k] - error <= till[k] <= from[k] + error
    {
      var diff := till[i] - from[i];
      if (if diff < 0 then -diff else diff) > error {
        return false;
      }
    }
    return true;
  }

  // ----- The table -----

  /** A chain of `Elem` records; a record never changes once it is linked. */
  datatype Chain = End | Elem(coords: Coords, hash: int, next: Chain)

  ghost function Entries(c: Chain): set<(Coords, int)> {
    match c
    case End => {}
    case Elem(pos, h, next) => {(pos, h)} + Entries(next)
  }

  /** How often a chain holds an entry. */
  ghost function Count(c: Chain, pos: Coords, hash: int): nat {
    match c
    case End => 0
    case Elem(q, h, next) => (if q == pos && h == hash then 1 else 0) + Count(next, pos, hash)
  }

  /** `hash % table.size()`, where the signed hash is first converted to an unsigned 64-bit size. */
  function Bucket(hash: int, size: nat): (b: nat)
    requires size > 0
    ensures b < size
  {
    hash % TWO64 % size
  }

  ghost function Tagged(pos: Coords, hashes: set<int>): set<(Coords, int)> {
    set h | h in hashes :: (pos, h)
  }

  /** The entries filed for a position, one for each cell near it, from coordinate i on. */
  ghost function Filing(mix: Mix, pos: Coords, i: nat, hash: int, error: int): multiset<(Coords, int)>
    requires i <= |pos| && error != 0
    decreases |pos| - i, 0, 0
  {
    if i == |pos| then multiset{(pos, hash)}
    else FilingBelow(mix, pos, i, hash, error, TruncDiv(pos[i] - error, error), TruncDiv(pos[i] + error, error) + 1)
  }

  /** Those whose cell number on coordinate i lies in [from, end). */
  ghost function FilingBelow(mix: Mix, pos: Coords, i: nat, hash: int, error: int, from: int, end: int)
    : multiset<(Coords, int)>
    requires i < |pos| && error != 0
    decreases |pos| - i - 1, 1, end - from
  {
    if end <= from then multiset{}
    else FilingBelow(mix, pos, i, hash, error, from, end - 1) + Filing(mix, pos, i + 1, mix(hash, end - 1), error)
  }

  /** The entries filed for a catalog. */
  ghost function FilingAll(mix: Mix, catalog: seq<Coords>, error: int): multiset<(Coords, int)>
    requires error != 0
  {
    if catalog == [] then multiset{}
    else
      var n := |catalog| - 1;
      FilingAll(mix, catalog[..n], error) + Filing(mix, catalog[n], 0, 0, error)
  }

  // ----- One cell after the other -----

  lemma NoneNear(mix: Mix, pos: Coords, i: nat, hash: int, error: int, from: int, end: int)
    requires i < |pos| && error != 0 && end <= from
    ensures Tagged(pos, NearHashesBelow(mix, pos, i, hash, error, from, end)) == {}
    ensures FilingBelow(mix, pos, i, hash, error, from, end) == multiset{}
  {}

  lemma LastNear(mix: Mix, pos: Coords, hash: int, error: int)
    requires error != 0
    ensures Tagged(pos, NearHashes(mix, pos, |pos|, hash, error)) == {(pos, hash)}
    ensures Filing(mix, pos, |pos|, hash, error) == multiset{(pos, hash)}
  {}

  lemma AllNear(mix: Mix, pos: Coords, i: nat, hash: int, error: int)
    requires i < |pos| && error != 0
    ensures var from, end := TruncDiv(pos[i] - error, error), TruncDiv(pos[i] + error, error) + 1;
            && NearHashes(mix, pos, i, hash, error) == NearHashesBelow(mix, pos, i, hash, error, from, end)
            && Filing(mix, pos, i, hash, error) == FilingBelow(mix, pos, i, hash, error, from, end)
  {}

  lemma OneMore(mix: Mix, pos: Coords, i: nat, hash: int, error: int, from: int, hi: int,
                contents: set<(Coords, int)>, tally: multiset<(Coords, int)>)
    requires i < |pos| && error != 0 && from <= hi
    ensures contents + Tagged(pos, NearHashesBelow(mix, pos, i, hash, error, from, hi))
            + Tagged(pos, NearHashes(mix, pos, i + 1, mix(hash, hi), error))
            == contents + Tagged(pos, NearHashesBelow(mix, pos, i, hash, error, from, hi + 1))
    ensures tally + FilingBelow(mix, pos, i, hash, error, from, hi) + Filing(mix, pos, i + 1, mix(hash, hi), error)
            == tally + FilingBelow(mix, pos, i, hash, error, from, hi + 1)
  {
    hide NearHashes, Filing;
    var a, b := NearHashesBelow(mix, pos, i, hash, error, from, hi), NearHashes(mix, pos, i + 1, mix(hash, hi), error);
    assert NearHashesBelow(mix, pos, i, hash, error, from, hi + 1) == a + b;
    TaggedUnion(pos, a, b);
  }

  lemma TaggedUnion(pos: Coords, a: set<int>, b: set<int>)
    ensures Tagged(pos, a + b) == Tagged(pos, a) + Tagged(pos, b)
  {}

  class Table {
    var table: array<Chain>
    ghost var contents: set<(Coords, int)>
    /** The entries with their multiplicity. */
    ghost var tally: multiset<(Coords, int)>

    /** Every entry is in the chain of its hash, and a chain holds nothing else. */
    ghost predicate Valid()
      reads this, table
    {
      && table.Length > 0
      && (forall b, e :: 0 <= b < table.Length && e in Entries(table[b]) ==>
            e in contents && Bucket(e.1, table.Length) == b)
      && (forall e :: e in contents ==> e in Entries(table[Bucket(e.1, table.Length)]))
      && Counted()
    }

    ghost predicate Counted()
      requires table.Length > 0
      reads this, table
    {
      forall pos, h :: tally[(pos, h)] == Count(table[Bucket(h, table.Length)], pos, h)
    }

    constructor (size: nat)
      ensures Valid() && fresh(table) && table.Length == size + HASH_TABLE_RESERVE
      ensures contents == {} && tally == multiset{}
    {
      table := new Chain[size + HASH_TABLE_RESERVE](_ => End);
      contents := {};
      tally := multiset{};
    }

    /** Prepends a record to the chain of its hash. */
    method Add(pos: Coords, hash: int)
      requires Valid()
      modifies this`contents, this`tally, table
      ensures Valid() && contents == old(contents) + {(pos, hash)} && tally == old(tally) + multiset{(pos, hash)}
      ensures var b := Bucket(hash, table.Length);
              forall k :: 0 <= k < table.Length ==>
                table[k] == if k == b then Elem(pos, hash, old(table[b])) else old(table[k])
    {
      var b := Bucket(hash, table.Length);
      table[b] := Elem(pos, hash, table[b]);
      contents := contents + {(pos, hash)};
      tally := tally + multiset{(pos, hash)};
    }

    /** The entries with a given hash are the records of its chain that carry it. */
    lemma Lookup(hash: int, dim: nat)
      requires Valid() && forall e :: e in contents ==> |e.0| == dim
      ensures table.Length > 0
      ensures var chain := table[Bucket(hash, table.Length)];
              && ChainOfDim(chain, dim)
              && (forall pos :: (pos, hash) in contents <==> (pos, hash) in Entries(chain))
              && (forall pos :: tally[(pos, hash)] == Count(chain, pos, hash))
    {
      hide Count;
    }

    method AddCatalogEntry(mix: Mix, pos: Coords, i: nat, hash: int, error: int)
      requires Valid() && i < |pos| && error != 0
      modifies this`contents, this`tally, table
      ensures Valid()
      ensures tally == old(tally) + Filing(mix, pos, i, hash, error)
      ensures contents == old(contents) + Tagged(pos, NearHashes(mix, pos, i, hash, error))
      decreases |pos| - i
    {
      hide Valid, TruncDiv, Tagged, NearHashes, NearHashesBelow, Filing, FilingBelow;
      var from := TruncDiv(pos[i] - error, error);
      var till := TruncDiv(pos[i] + error, error);
      var hi := from;
      NoneNear(mix, pos, i, hash, error, from, from);
      while hi <= till
        invariant Valid() && from <= hi && (from <= till ==> hi <= till + 1) && (till < from ==> hi == from)
        invariant contents == old(contents) + Tagged(pos, NearHashesBelow(mix, pos, i, hash, error, from, hi))
        invariant tally == old(tally) + FilingBelow(mix, pos, i, hash, error, from, hi)
        decreases till - hi
      {
        var h := mix(hash, hi);
        if i + 1 < |pos| {
          AddCatalogEntry(mix, pos, i + 1, h, error);
        } else {
          LastNear(mix, pos, h, error);
          Add(pos, h);
        }
        OneMore(mix, pos, i, hash, error, from, hi, old(contents), old(tally));
        hi := hi + 1;
      }
      if till < from {
        NoneNear(mix, pos, i, hash, error, from, till + 1);
      }
      AllNear(mix, pos, i, hash, error);
    }
  }

  // ----- The join -----

  /** The records of a chain that match item n at position p, filed under n. */
  ghost function Selected(c: Chain, n: int, hash: int, p: Coords, error: int): set<(Coords, int)> {
    match c
    case End => {}
    case Elem(pos, h, next) =>
      (if h == hash && Neighbors(p, pos, error) then {(pos, n)} else {}) + Selected(next, n, hash, p, error)
  }

  lemma {:induction false} SelectedIff(c: Chain, n: int, hash: int, p: Coords, error: int, pos: Coords, m: int)
    ensures (pos, m) in Selected(c, n, hash, p, error) <==>
            m == n && (pos, hash) in Entries(c) && Neighbors(p, pos, error)
  {
    match c
    case End =>
    case Elem(_, _, next) =>
      hide Neighbors;
      SelectedIff(next, n, hash, p, error, pos, m);
  }

  /** The same with their multiplicity. */
  ghost function SelectedTimes(c: Chain, n: int, hash: int, p: Coords, error: int): multiset<(Coords, int)> {
    match c
    case End => multiset{}
    case Elem(pos, h, next) =>
      (if h == hash && Neighbors(p, pos, error) then multiset{(pos, n)} else multiset{})
      + SelectedTimes(next, n, hash, p, error)
  }

  lemma {:induction false} SelectedCount(c: Chain, n: int, hash: int, p: Coords, error: int, pos: Coords, m: int)
    ensures SelectedTimes(c, n, hash, p, error)[(pos, m)] ==
            if m == n && Neighbors(p, pos, error) then Count(c, pos, hash) else 0
  {
    match c
    case End =>
    case Elem(_, _, next) =>
      hide Neighbors;
      SelectedCount(next, n, hash, p, error, pos, m);
  }

  lemma NoneSelected(n: int, hash: int, p: Coords, error: int)
    ensures Selected(End, n, hash, p, error) == {} && SelectedTimes(End, n, hash, p, error) == multiset{}
  {}

  /** The first record of a chain is selected or not. */
  lemma SelectedFirst(c: Chain, n: int, hash: int, p: Coords, error: int,
                      contents: set<(Coords, int)>, tally: multiset<(Coords, int)>)
    requires c.Elem?
    ensures var picked := c.hash == hash && Neighbors(p, c.coords, error);
            var e := (c.coords, n);
            && contents + Selected(c, n, hash, p, error) ==
               (if picked then contents + {e} else contents) + Selected(c.next, n, hash, p, error)
            && tally + SelectedTimes(c, n, hash, p, error) ==
               (if picked then tally + multiset{e} else tally) + SelectedTimes(c.next, n, hash, p, error)
  {
    hide Neighbors;
  }

  ghost predicate OfDim(ps: seq<Coords>, dim: nat) { forall p :: p in ps ==> |p| == dim }

  ghost predicate ChainOfDim(c: Chain, dim: nat) { forall e :: e in Entries(c) ==> |e.0| == dim }

  /** The entries are the catalog positions, each under the hashes of all cells near it. */
  ghost predicate Indexed(mix: Mix, catalog: seq<Coords>, error: int, entries: set<(Coords, int)>)
    requires error != 0
  {
    forall pos, h :: (pos, h) in entries <==> pos in catalog && h in NearHashes(mix, pos, 0, 0, error)
  }

  /** The entries are the catalog positions near one of the first k pattern items, under its number. */
  ghost predicate Joined(entries: set<(Coords, int)>, pattern: seq<Coords>, k: nat, catalog: seq<Coords>, error: int)
    requires k <= |pattern|
  {
    forall pos, n :: (pos, n) in entries <==> 0 <= n < k && pos in catalog && Neighbors(pattern[n], pos, error)
  }

  /** How often the join of the first k pattern items records a position under n: as often as it was
      filed under the hash of the item's cell. */
  ghost function Times(mix: Mix, pattern: seq<Coords>, k: nat, catalog: seq<Coords>, error: int, pos: Coords,
                       n: int): nat
    requires error != 0 && k <= |pattern|
  {
    if 0 <= n < k && Neighbors(pattern[n], pos, error)
    then FilingAll(mix, catalog, error)[(pos, CellHash(mix, pattern[n], 0, 0, error))] else 0
  }

  ghost predicate JoinedTimes(tally: multiset<(Coords, int)>, mix: Mix, pattern: seq<Coords>, k: nat,
                              catalog: seq<Coords>, error: int)
    requires error != 0 && k <= |pattern|
  {
    forall pos, n :: tally[(pos, n)] == Times(mix, pattern, k, catalog, error, pos, n)
  }

  /** Files the catalog under every cell near each of its positions. */
  method IndexCatalog(mix: Mix, catalog: seq<Coords>, dim: nat, error: int) returns (catalogHash: Table)
    requires error != 0 && dim > 0 && OfDim(catalog, dim)
    ensures fresh(catalogHash) && fresh(catalogHash.table) && catalogHash.Valid()
    ensures Indexed(mix, catalog, error, catalogHash.contents)
    ensures catalogHash.tally == FilingAll(mix, catalog, error)
  {
    hide NearHashes, Filing, Table.Valid;
    catalogHash := new Table(|catalog|);
    for k := 0 to |catalog|
      invariant fresh(catalogHash.table) && catalogHash.Valid()
      invariant forall pos, h :: (pos, h) in catalogHash.contents <==>
                  pos in catalog[..k] && h in NearHashes(mix, pos, 0, 0, error)
      invariant catalogHash.tally == FilingAll(mix, catalog[..k], error)
    {
      catalogHash.AddCatalogEntry(mix, catalog[k], 0, 0, error);
      assert catalog[..k + 1] == catalog[..k] + [catalog[k]];
      assert catalog[..k + 1][..k] == catalog[..k];
    }
    assert catalog[..|catalog|] == catalog;
  }

  /** Walks one collision chain and records the matches of item n. */
  method MatchItem(patternHash: Table, n: int, p: Coords, chain: Chain, hash: int, error: int)
    requires patternHash.Valid() && ChainOfDim(chain, |p|)
    modifies patternHash`contents, patternHash`tally, patternHash.table
    ensures patternHash.Valid()
    ensures patternHash.contents == old(patternHash.contents) + Selected(chain, n, hash, p, error)
    ensures patternHash.tally == old(patternHash.tally) + SelectedTimes(chain, n, hash, p, error)
  {
    hide Neighbors, Table.Valid, Selected, SelectedTimes;
    var elem := chain;
    NoneSelected(n, hash, p, error);
    while elem.Elem?
      invariant patternHash.Valid() && Entries(elem) <= Entries(chain)
      invariant patternHash.contents + Selected(elem, n, hash, p, error) ==
                old(patternHash.contents) + Selected(chain, n, hash, p, error)
      invariant patternHash.tally + SelectedTimes(elem, n, hash, p, error) ==
                old(patternHash.tally) + SelectedTimes(chain, n, hash, p, error)
      decreases elem
    {
      assert (elem.coords, elem.hash) in Entries(chain);
      SelectedFirst(elem, n, hash, p, error, patternHash.contents, patternHash.tally);
      if elem.hash == hash {
        var near := IsNeighbor(p, elem.coords, error);
        if near {
          patternHash.Add(elem.coords, n);
        }
      }
      elem := elem.next;
    }
  }

  /** The positions recorded under pattern item n are exactly the catalog positions within `error`
      of it on every coordinate. A negative `error` matches nothing. */
  method FindMatches(mix: Mix, pattern: seq<Coords>, catalog: seq<Coords>, dim: nat, error: int)
    returns (patternHash: Table)
    requires error != 0 && dim > 0 && OfDim(pattern, dim) && OfDim(catalog, dim)
    ensures fresh(patternHash) && fresh(patternHash.table) && patternHash.Valid()
    ensures Joined(patternHash.contents, pattern, |pattern|, catalog, error)
    ensures JoinedTimes(patternHash.tally, mix, pattern, |pattern|, catalog, error)
  {
    hide Indexed, Joined, JoinedTimes, CellHash, FilingAll, Count, Entries, ChainOfDim, Selected, SelectedTimes;
    hide Table.Valid;
    var catalogHash := IndexCatalog(mix, catalog, dim, error);
    patternHash := new Table(|pattern|);
    NothingJoined(mix, pattern, catalog, error);
    for itemNo := 0 to |pattern|
      invariant fresh(patternHash.table) && patternHash.Valid() && catalogHash.Valid()
      invariant patternHash != catalogHash && patternHash.table != catalogHash.table
      invariant Indexed(mix, catalog, error, catalogHash.contents)
      invariant catalogHash.tally == FilingAll(mix, catalog, error)
      invariant Joined(patternHash.contents, pattern, itemNo, catalog, error)
      invariant JoinedTimes(patternHash.tally, mix, pattern, itemNo, catalog, error)
    {
      var p := pattern[itemNo];
      var hash := GetCatalogHash(mix, p, error);
      IndexedOfDim(catalogHash.contents, mix, catalog, dim, error);
      catalogHash.Lookup(hash, dim);
      var chain := catalogHash.table[Bucket(hash, catalogHash.table.Length)];
      JoinedNext(catalogHash.contents, chain, hash, mix, pattern, itemNo, catalog, error, patternHash.contents);
      TimesNext(chain, hash, mix, pattern, itemNo, catalog, error, patternHash.tally);
      MatchItem(patternHash, itemNo, p, chain, hash, error);
    }
  }

  lemma NothingJoined(mix: Mix, pattern: seq<Coords>, catalog: seq<Coords>, error: int)
    requires error != 0
    ensures Joined({}, pattern, 0, catalog, error) && JoinedTimes(multiset{}, mix, pattern, 0, catalog, error)
  {}

  lemma TimesNext(chain: Chain, hash: int, mix: Mix, pattern: seq<Coords>, k: nat, catalog: seq<Coords>, error: int,
                  tally: multiset<(Coords, int)>)
    requires error != 0 && k < |pattern| && hash == CellHash(mix, pattern[k], 0, 0, error)
    requires JoinedTimes(tally, mix, pattern, k, catalog, error)
    requires forall pos :: FilingAll(mix, catalog, error)[(pos, hash)] == Count(chain, pos, hash)
    ensures JoinedTimes(tally + SelectedTimes(chain, k, hash, pattern[k], error), mix, pattern, k + 1, catalog, error)
  {
    hide CellHash, FilingAll, Count, SelectedTimes, Neighbors;
    var more := tally + SelectedTimes(chain, k, hash, pattern[k], error);
    forall pos, n ensures more[(pos, n)] == Times(mix, pattern, k + 1, catalog, error, pos, n) {
      SelectedCount(chain, k, hash, pattern[k], error, pos, n);
      assert tally[(pos, n)] == Times(mix, pattern, k, catalog, error, pos, n);
      assert FilingAll(mix, catalog, error)[(pos, hash)] == Count(chain, pos, hash);
    }
  }

  lemma IndexedOfDim(entries: set<(Coords, int)>, mix: Mix, catalog: seq<Coords>, dim: nat, error: int)
    requires error != 0 && Indexed(mix, catalog, error, entries) && OfDim(catalog, dim)
    ensures forall e :: e in entries ==> |e.0| == dim
  {
    forall e | e in entries ensures |e.0| == dim {
      var (pos, h) := e;
      assert (pos, h) in entries;
      assert pos in catalog;
    }
  }

  /** What the chain of item k's cell adds are the matches of item k. */
  lemma JoinedNext(filed: set<(Coords, int)>, chain: Chain, hash: int, mix: Mix, pattern: seq<Coords>, k: nat,
                   catalog: seq<Coords>,
                   error: int, entries: set<(Coords, int)>)
    requires error != 0 && k < |pattern| && |pattern[k]| > 0
    requires Indexed(mix, catalog, error, filed) && Joined(entries, pattern, k, catalog, error)
    requires hash == CellHash(mix, pattern[k], 0, 0, error)
    requires forall pos :: (pos, hash) in filed <==> (pos, hash) in Entries(chain)
    ensures Joined(entries + Selected(chain, k, hash, pattern[k], error), pattern, k + 1, catalog, error)
  {
    hide Neighbors, NearHashes, CellHash, Selected, Entries;
    var p := pattern[k];
    forall pos, n ensures (pos, n) in Selected(chain, k, hash, p, error) <==>
                          n == k && pos in catalog && Neighbors(p, pos, error)
    {
      SelectedIff(chain, k, hash, p, error, pos, n);
      assert (pos, hash) in filed <==> (pos, hash) in Entries(chain);
      assert (pos, hash) in filed <==> pos in catalog && hash in NearHashes(mix, pos, 0, 0, error);
      if pos in catalog && Neighbors(p, pos, error) {
        NeighborsFiled(mix, p, pos, error);
      }
    }
  }

  lemma NeighborsFiled(mix: Mix, p: Coords, q: Coords, error: int)
    requires error != 0 && |p| > 0 && Neighbors(p, q, error)
    ensures CellHash(mix, p, 0, 0, error) in NearHashes(mix, q, 0, 0, error)
  {
    assert p[0] - error <= q[0] <= p[0] + error;
    NeighborCell(mix, p, q, 0, 0, error);
  }

  /** The positions of the cells of each chunk, by chunk position. */
  type Chunks = map<Coords, seq<Coords>>

  ghost predicate ChunksOfDim(chunks: Chunks, dim: nat) { forall p :: p in chunks ==> OfDim(chunks[p], dim) }

  /** The build of `findMatch`: the result is initialized if and only if both arrays have the chunk, and
      then holds exactly the neighbours. */
  method FindMatch(mix: Mix, pattern: Chunks, catalog: Chunks, chunkPos: Coords, error: int)
    returns (result: Table, initialized: bool)
    requires error != 0 && |chunkPos| > 0 && ChunksOfDim(pattern, |chunkPos|) && ChunksOfDim(catalog, |chunkPos|)
    ensures fresh(result) && result.Valid()
    ensures initialized <==> chunkPos in pattern && chunkPos in catalog
    ensures initialized ==>
              && Joined(result.contents, pattern[chunkPos], |pattern[chunkPos]|, catalog[chunkPos], error)
              && JoinedTimes(result.tally, mix, pattern[chunkPos], |pattern[chunkPos]|, catalog[chunkPos], error)
  {
    initialized := false;
    if chunkPos in pattern && chunkPos in catalog {
      result := FindMatches(mix, pattern[chunkPos], catalog[chunkPos], |chunkPos|, error);
      initialized := true;
    } else {
      result := new Table(0);
    }
  }
}
