/** The chunks of the match array (MatchArray.cpp:83-190): one result cell per match, placed along
    the collision dimension, for each attribute of the result. */
module MatchChunk {
  import opened MatchHash

  /** A cell written to the result chunk: the pattern position, its collision slot, the value. */
  datatype Cell<+V> = Cell(pos: Coords, slot: nat, value: V)

  datatype Outcome<+V> = Chunk(cells: seq<Cell<V>>) | NoCurrentPosition

  // ----- What should be written -----

  /** The catalog positions filed under n in a chain that other items may share, in chain order. */
  ghost function Slots(c: Chain, n: int): seq<Coords> {
    match c
    case End => []
    case Elem(pos, h, next) => if h == n then [pos] + Slots(next, n) else Slots(next, n)
  }

  ghost function Matches(table: seq<Chain>, n: int): seq<Coords>
    requires |table| > 0
  {
    Slots(table[Bucket(n, |table|)], n)
  }

  /** The first j cells of item n. */
  ghost function ItemCells<V>(n: nat, pos: Coords, slots: seq<Coords>, value: (nat, Coords) -> V, j: nat): seq<Cell<V>>
    requires j <= |slots|
  {
    if j == 0 then [] else ItemCells(n, pos, slots, value, j - 1) + [Cell(pos, j - 1, value(n, slots[j - 1]))]
  }

  /** The cells of the first k items. */
  ghost function Cells<V>(table: seq<Chain>, src: seq<Coords>, value: (nat, Coords) -> V, k: nat): seq<Cell<V>>
    requires |table| > 0 && k <= |src|
  {
    if k == 0 then []
    else
      var slots := Matches(table, k - 1);
      Cells(table, src, value, k - 1) + ItemCells(k - 1, src[k - 1], slots, value, |slots|)
  }

  /** Every item's matches fit the collision dimension. */
  ghost predicate Fits(table: seq<Chain>, k: nat, maxCollisions: nat)
    requires |table| > 0
  {
    forall n :: 0 <= n < k ==> |Matches(table, n)| <= maxCollisions
  }

  lemma {:induction false} ItemCellAt<V>(n: nat, pos: Coords, slots: seq<Coords>, value: (nat, Coords) -> V, j: nat)
    requires j <= |slots|
    ensures |ItemCells(n, pos, slots, value, j)| == j
    ensures forall k :: 0 <= k < j ==> ItemCells(n, pos, slots, value, j)[k] == Cell(pos, k, value(n, slots[k]))
  {
    if j > 0 {
      ItemCellAt(n, pos, slots, value, j - 1);
    }
  }

  /** Exactly the slots 0 to k-1 of an item with k matches are written, and slot j holds the value
      of the item's j-th match, whatever the attribute. */
  lemma {:induction false} CellsExact<V>(table: seq<Chain>, src: seq<Coords>, value: (nat, Coords) -> V, k: nat,
                                         cell: Cell<V>)
    requires |table| > 0 && k <= |src|
    ensures cell in Cells(table, src, value, k) <==>
            exists n: nat :: n < k && cell.pos == src[n] && cell.slot < |Matches(table, n)|
                             && cell.value == value(n, Matches(table, n)[cell.slot])
    decreases k
  {
    if k > 0 {
      CellsExact(table, src, value, k - 1, cell);
      var slots := Matches(table, k - 1);
      ItemCellAt(k - 1, src[k - 1], slots, value, |slots|);
      var mine := ItemCells(k - 1, src[k - 1], slots, value, |slots|);
      if cell in mine {
        var j :| 0 <= j < |mine| && mine[j] == cell;
        assert cell.slot == j;
      }
      if cell.pos == src[k - 1] && cell.slot < |slots| && cell.value == value(k - 1, slots[cell.slot]) {
        assert mine[cell.slot] == cell;
      }
    }
  }

  /** The same places in the same order. */
  ghost predicate PlacedAlike<V, W>(a: seq<Cell<V>>, b: seq<Cell<W>>) {
    |a| == |b| && forall i :: 0 <= i < |a| ==> a[i].pos == b[i].pos && a[i].slot == b[i].slot
  }

  /** How many cells the first k items have, and which match of which item is the i-th of them. */
  ghost function Total(table: seq<Chain>, k: nat): nat
    requires |table| > 0
  {
    if k == 0 then 0 else Total(table, k - 1) + |Matches(table, k - 1)|
  }

  ghost function Place(table: seq<Chain>, k: nat, i: nat): (p: (nat, nat))
    requires |table| > 0 && i < Total(table, k)
    ensures p.0 < k && p.1 < |Matches(table, p.0)|
  {
    if i < Total(table, k - 1) then Place(table, k - 1, i) else (k - 1, i - Total(table, k - 1))
  }

  /** The i-th cell, whatever the values. */
  lemma {:induction false} CellAt<V>(table: seq<Chain>, src: seq<Coords>, value: (nat, Coords) -> V, k: nat)
    requires |table| > 0 && k <= |src|
    ensures |Cells(table, src, value, k)| == Total(table, k)
    ensures forall i :: 0 <= i < Total(table, k) ==>
              var (n, j) := Place(table, k, i);
              Cells(table, src, value, k)[i] == Cell(src[n], j, value(n, Matches(table, n)[j]))
  {
    hide Matches, ItemCells;
    if k > 0 {
      CellAt(table, src, value, k - 1);
      var slots := Matches(table, k - 1);
      ItemCellAt(k - 1, src[k - 1], slots, value, |slots|);
    }
  }

  /** The places do not depend on the values. */
  lemma SamePlaces<V, W>(table: seq<Chain>, src: seq<Coords>, v: (nat, Coords) -> V, w: (nat, Coords) -> W, k: nat)
    requires |table| > 0 && k <= |src|
    ensures PlacedAlike(Cells(table, src, v, k), Cells(table, src, w, k))
  {
    hide Cells, Matches, Place;
    CellAt(table, src, v, k);
    CellAt(table, src, w, k);
  }

  ghost predicate NoPlaceTwice<V>(cs: seq<Cell<V>>) {
    forall i, j :: 0 <= i < j < |cs| ==> cs[i].pos != cs[j].pos || cs[i].slot != cs[j].slot
  }

  /** No place is written twice when the pattern positions are distinct. */
  lemma {:induction false} PlacesOnce<V>(table: seq<Chain>, src: seq<Coords>, value: (nat, Coords) -> V, k: nat)
    requires |table| > 0 && k <= |src| && forall i, j :: 0 <= i < j < |src| ==> src[i] != src[j]
    ensures NoPlaceTwice(Cells(table, src, value, k))
  {
    if k > 0 {
      PlacesOnce(table, src, value, k - 1);
      var slots := Matches(table, k - 1);
      ItemCellAt(k - 1, src[k - 1], slots, value, |slots|);
      var before, mine := Cells(table, src, value, k - 1), ItemCells(k - 1, src[k - 1], slots, value, |slots|);
      forall i | 0 <= i < |before| ensures before[i].pos != src[k - 1] {
        CellsExact(table, src, value, k - 1, before[i]);
      }
      Apart(before, mine, src[k - 1]);
    }
  }

  /** Joining cells of earlier items with the cells of one more item repeats no place. */
  lemma Apart<V>(before: seq<Cell<V>>, mine: seq<Cell<V>>, pos: Coords)
    requires NoPlaceTwice(before)
    requires forall i :: 0 <= i < |before| ==> before[i].pos != pos
    requires forall i :: 0 <= i < |mine| ==> mine[i].pos == pos && mine[i].slot == i
    ensures NoPlaceTwice(before + mine)
  {
    var cs := before + mine;
    forall i, j | 0 <= i < j < |cs| ensures cs[i].pos != cs[j].pos || cs[i].slot != cs[j].slot {
      if |before| <= j {
        assert cs[j] == mine[j - |before|];
      }
    }
  }

  // ----- What is written -----

  /** `find`: the chain from the first record of this item on; `End` when it has none. */
  method Find(table: array<Chain>, n: int) returns (elem: Chain)
    requires table.Length > 0
    ensures Slots(elem, n) == Matches(table[..], n)
    ensures elem.End? <==> Matches(table[..], n) == []
    ensures elem.Elem? ==> elem.hash == n
  {
    elem := table[Bucket(n, table.Length)];
    while elem.Elem?
      invariant Slots(elem, n) == Matches(table[..], n)
      decreases elem
    {
      if elem.hash == n {
        return;
      }
      elem := elem.next;
    }
  }

  /** The walk along the chain of item n: `slot` records of the item are behind `elem`. */
  ghost predicate Walk(slots: seq<Coords>, elem: Chain, n: int, slot: nat, maxCollisions: nat) {
    slot <= |slots| && slots[slot..] == Slots(elem, n) && slot <= maxCollisions
  }

  lemma WalkOn(slots: seq<Coords>, elem: Chain, n: int, slot: nat, maxCollisions: nat)
    requires Walk(slots, elem, n, slot, maxCollisions) && elem.Elem?
    ensures elem.hash != n ==> Walk(slots, elem.next, n, slot, maxCollisions)
    ensures elem.hash == n ==> slot < |slots| && slots[slot] == elem.coords
    ensures elem.hash == n && slot < maxCollisions ==> Walk(slots, elem.next, n, slot + 1, maxCollisions)
  {
    if elem.hash == n {
      assert slots[slot] == slots[slot..][0];
      assert slots[slot + 1..] == slots[slot..][1..];
    }
  }

  /** What a loop that writes these values leaves: all cells, or an exception when the collision
      dimension is too short. */
  ghost function Written<V>(table: seq<Chain>, src: seq<Coords>, maxCollisions: nat, value: (nat,
                            Coords) -> V): Outcome<V>
    requires |table| > 0
  {
    if Fits(table, |src|, maxCollisions) then Chunk(Cells(table, src, value, |src|)) else NoCurrentPosition
  }

  datatype Val<+V> = Data(item: V) | Coordinate(c: int) | True

  function PatternValue<V>(attr: nat, patternItem: (nat, nat) -> V): (nat, Coords) -> Val<V> {
    (n: nat, c) => Data(patternItem(attr, n))
  }

  function CatalogValue<V>(attr: nat, catalogItem: (nat, Coords) -> V): (nat, Coords) -> Val<V> {
    (n, c) => Data(catalogItem(attr, c))
  }

  function CoordinateValue<V>(dimNo: nat): (nat, Coords) -> Val<V> {
    (n, c) => Coordinate(if dimNo < |c| then c[dimNo] else 0)
  }

  function BitmapValue<V>(): (nat, Coords) -> Val<V> { (n, c) => True }

  /** The loop for an attribute of the pattern (MatchArray.cpp:104-120). */
  method WritePattern<V>(table: array<Chain>, src: seq<Coords>, maxCollisions: nat, attr: nat,
                         patternItem: (nat, nat) -> V) returns (r: Outcome<Val<V>>)
    requires table.Length > 0
    ensures r == Written(table[..], src, maxCollisions, PatternValue(attr, patternItem))
  {
    hide Slots, Matches, Walk;
    ghost var chains, value := table[..], PatternValue(attr, patternItem);
    var cells: seq<Cell<Val<V>>> := [];
    for itemNo := 0 to |src|
      invariant cells == Cells(chains, src, value, itemNo) && Fits(chains, itemNo, maxCollisions)
    {
      ghost var slots, before := Matches(chains, itemNo), cells;
      var elem := Find(table, itemNo);
      if elem.Elem? {
        var slot := 0;
        WalkStarts(slots, elem, itemNo, maxCollisions);
        while elem.Elem?
          invariant Walk(slots, elem, itemNo, slot, maxCollisions) && slot <= |slots|
          invariant cells == before + ItemCells(itemNo, src[itemNo], slots, value, slot)
          decreases elem
        {
          WalkOn(slots, elem, itemNo, slot, maxCollisions);
          if elem.hash == itemNo {
            if slot >= maxCollisions {
              return NoCurrentPosition;
            }
            cells := cells + [Cell(src[itemNo], slot, Data(patternItem(attr, itemNo)))];
            slot := slot + 1;
          }
          elem := elem.next;
        }
        WalkEnds(slots, itemNo, slot, maxCollisions);
      }
    }
    r := Chunk(cells);
  }

  lemma WalkStarts(slots: seq<Coords>, elem: Chain, n: int, maxCollisions: nat)
    requires Slots(elem, n) == slots
    ensures Walk(slots, elem, n, 0, maxCollisions)
  {}

  lemma WalkEnds(slots: seq<Coords>, n: int, slot: nat, maxCollisions: nat)
    requires Walk(slots, End, n, slot, maxCollisions)
    ensures slot == |slots| <= maxCollisions
  {}

  /** The catalog chunk has a cell for every record. */
  ghost predicate Present(table: seq<Chain>, chunk: seq<Coords>, k: nat)
    requires |table| > 0
  {
    forall n, i :: 0 <= n < k && 0 <= i < |Matches(table, n)| ==> Matches(table, n)[i] in chunk
  }

  /** The loop for an attribute of the catalog (MatchArray.cpp:123-143), which also seeks each match in
      the catalog chunk. */
  method WriteCatalog<V>(table: array<Chain>, src: seq<Coords>, maxCollisions: nat, chunk: seq<Coords>, attr: nat,
                         catalogItem: (nat, Coords) -> V) returns (r: Outcome<Val<V>>)
    requires table.Length > 0
    ensures Present(table[..], chunk, |src|) ==>
              r == Written(table[..], src, maxCollisions, CatalogValue(attr, catalogItem))
    ensures !Present(table[..], chunk, |src|) ==> r == NoCurrentPosition
  {
    hide Slots, Matches, Walk;
    ghost var chains, value := table[..], CatalogValue(attr, catalogItem);
    var cells: seq<Cell<Val<V>>> := [];
    for itemNo := 0 to |src|
      invariant cells == Cells(chains, src, value, itemNo) && Fits(chains, itemNo, maxCollisions)
      invariant Present(chains, chunk, itemNo)
    {
      ghost var slots, before := Matches(chains, itemNo), cells;
      var elem := Find(table, itemNo);
      if elem.Elem? {
        var slot := 0;
        WalkStarts(slots, elem, itemNo, maxCollisions);
        while elem.Elem?
          invariant Walk(slots, elem, itemNo, slot, maxCollisions) && slot <= |slots|
          invariant cells == before + ItemCells(itemNo, src[itemNo], slots, value, slot)
          invariant forall i :: 0 <= i < slot ==> slots[i] in chunk
          decreases elem
        {
          WalkOn(slots, elem, itemNo, slot, maxCollisions);
          if elem.hash == itemNo {
            if slot >= maxCollisions {
              return NoCurrentPosition;
            }
            if elem.coords !in chunk {
              return NoCurrentPosition;
            }
            cells := cells + [Cell(src[itemNo], slot, Data(catalogItem(attr, elem.coords)))];
            slot := slot + 1;
          }
          elem := elem.next;
        }
        WalkEnds(slots, itemNo, slot, maxCollisions);
      }
    }
    r := Chunk(cells);
  }

  /** Every record has more than `dimNo` coordinates. */
  ghost predicate HaveDim(table: seq<Chain>, dimNo: nat, k: nat)
    requires |table| > 0
  {
    forall n, i :: 0 <= n < k && 0 <= i < |Matches(table, n)| ==> dimNo < |Matches(table, n)[i]|
  }

  /** The loop for a coordinate of the match (MatchArray.cpp:146-165). */
  method WriteCoordinate<V>(table: array<Chain>, src: seq<Coords>, maxCollisions: nat, dimNo: nat)
    returns (r: Outcome<Val<V>>)
    requires table.Length > 0 && HaveDim(table[..], dimNo, |src|)
    ensures r == Written(table[..], src, maxCollisions, CoordinateValue<V>(dimNo))
  {
    hide Slots, Matches, Walk;
    ghost var chains, value := table[..], CoordinateValue<V>(dimNo);
    var cells: seq<Cell<Val<V>>> := [];
    for itemNo := 0 to |src|
      invariant cells == Cells(chains, src, value, itemNo) && Fits(chains, itemNo, maxCollisions)
    {
      ghost var slots, before := Matches(chains, itemNo), cells;
      var elem := Find(table, itemNo);
      if elem.Elem? {
        var slot := 0;
        WalkStarts(slots, elem, itemNo, maxCollisions);
        while elem.Elem?
          invariant Walk(slots, elem, itemNo, slot, maxCollisions) && slot <= |slots|
          invariant cells == before + ItemCells(itemNo, src[itemNo], slots, value, slot)
          decreases elem
        {
          WalkOn(slots, elem, itemNo, slot, maxCollisions);
          if elem.hash == itemNo {
            if slot >= maxCollisions {
              return NoCurrentPosition;
            }
            cells := cells + [Cell(src[itemNo], slot, Coordinate(elem.coords[dimNo]))];
            slot := slot + 1;
          }
          elem := elem.next;
        }
        WalkEnds(slots, itemNo, slot, maxCollisions);
      }
    }
    r := Chunk(cells);
  }

  /** The loop for the bitmap (MatchArray.cpp:167-185). */
  method WriteBitmap<V>(table: array<Chain>, src: seq<Coords>, maxCollisions: nat) returns (r: Outcome<Val<V>>)
    requires table.Length > 0
    ensures r == Written(table[..], src, maxCollisions, BitmapValue<V>())
  {
    hide Slots, Matches, Walk;
    ghost var chains, value := table[..], BitmapValue<V>();
    var cells: seq<Cell<Val<V>>> := [];
    for itemNo := 0 to |src|
      invariant cells == Cells(chains, src, value, itemNo) && Fits(chains, itemNo, maxCollisions)
    {
      ghost var slots, before := Matches(chains, itemNo), cells;
      var elem := Find(table, itemNo);
      if elem.Elem? {
        var slot := 0;
        WalkStarts(slots, elem, itemNo, maxCollisions);
        while elem.Elem?
          invariant Walk(slots, elem, itemNo, slot, maxCollisions) && slot <= |slots|
          invariant cells == before + ItemCells(itemNo, src[itemNo], slots, value, slot)
          decreases elem
        {
          WalkOn(slots, elem, itemNo, slot, maxCollisions);
          if elem.hash == itemNo {
            if slot >= maxCollisions {
              return NoCurrentPosition;
            }
            cells := cells + [Cell(src[itemNo], slot, True)];
            slot := slot + 1;
          }
          elem := elem.next;
        }
        WalkEnds(slots, itemNo, slot, maxCollisions);
      }
    }
    r := Chunk(cells);
  }

  // ----- Attributes -----

  /** The attributes of the result: the pattern's, then the catalog's, then the match's coordinates,
      then the bitmap. */
  datatype Layout<!V> = Layout(nPattern: nat, nCatalog: nat,
                               patternItem: (nat, nat) -> V, catalogItem: (nat, Coords) -> V) {

    /** What attribute `attr` holds for an item and its match. */
    function Value(attr: nat, nDims: nat): (nat, Coords) -> Val<V> {
      if attr < nPattern then PatternValue(attr, patternItem)
      else if attr < nPattern + nCatalog then CatalogValue(attr - nPattern, catalogItem)
      else if attr < nPattern + nCatalog + nDims then CoordinateValue(attr - nPattern - nCatalog)
      else BitmapValue()
    }
  }

  /** What `findMatch` leaves for a chunk position: initialized only where the catalog has the chunk,
      and then with matches from that chunk. */
  ghost predicate MatchOf(entries: set<(Coords, int)>, initialized: bool, catalog: Chunks, pos: Coords) {
    initialized ==> pos in catalog && forall e :: e in entries ==> e.0 in catalog[pos] && |e.0| == |pos|
  }

  /** For every attribute the chunk holds the cells of the recorded matches. The guard on the catalog
      chunk holds whenever the result is initialized, and a match always lies in that chunk, so only a
      full collision dimension can throw. */
  method GetChunk<V>(result: Table, initialized: bool, attr: nat, layout: Layout<V>, currPos: Coords,
                     src: seq<Coords>, catalog: Chunks, maxCollisions: nat) returns (r: Outcome<Val<V>>)
    requires result.Valid() && MatchOf(result.contents, initialized, catalog, currPos)
    ensures !initialized ==> r == Chunk([])
    ensures initialized ==> r == Written(result.table[..], src, maxCollisions, layout.Value(attr, |currPos|))
    ensures r.NoCurrentPosition? <==>
            initialized && exists n :: 0 <= n < |src| && |Matches(result.table[..], n)| > maxCollisions
    ensures r.Chunk? ==> forall i :: 0 <= i < |r.cells| ==> r.cells[i].slot < maxCollisions
  {
    hide Matches, Cells;
    if !initialized {
      return Chunk([]);
    }
    MatchesKnown(result, catalog, currPos, |src|);
    if attr < layout.nPattern {
      r := WritePattern(result.table, src, maxCollisions, attr, layout.patternItem);
    } else if attr < layout.nPattern + layout.nCatalog {
      if currPos in catalog {
        var catAttr := attr - layout.nPattern;
        r := WriteCatalog(result.table, src, maxCollisions, catalog[currPos], catAttr, layout.catalogItem);
      } else {
        r := Chunk([]);
      }
    } else if attr < layout.nPattern + layout.nCatalog + |currPos| {
      r := WriteCoordinate(result.table, src, maxCollisions, attr - layout.nPattern - layout.nCatalog);
    } else {
      r := WriteBitmap(result.table, src, maxCollisions);
    }
    CellAt(result.table[..], src, layout.Value(attr, |currPos|), |src|);
  }

  /** Any two attributes of a chunk throw together or write the same places in the same order. */
  method GetTwoChunks<V>(result: Table, initialized: bool, attr: nat, other: nat, layout: Layout<V>, currPos: Coords,
                         src: seq<Coords>, catalog: Chunks, maxCollisions: nat)
    returns (r: Outcome<Val<V>>, s: Outcome<Val<V>>)
    requires result.Valid() && MatchOf(result.contents, initialized, catalog, currPos)
    ensures r.Chunk? <==> s.Chunk?
    ensures r.Chunk? ==> PlacedAlike(r.cells, s.cells)
  {
    hide Cells, Fits;
    r := GetChunk(result, initialized, attr, layout, currPos, src, catalog, maxCollisions);
    s := GetChunk(result, initialized, other, layout, currPos, src, catalog, maxCollisions);
    SamePlaces(result.table[..], src, layout.Value(attr, |currPos|), layout.Value(other, |currPos|), |src|);
  }

  lemma MatchesKnown(result: Table, catalog: Chunks, pos: Coords, k: nat)
    requires result.Valid() && MatchOf(result.contents, true, catalog, pos)
    ensures Present(result.table[..], catalog[pos], k)
    ensures forall dimNo :: 0 <= dimNo < |pos| ==> HaveDim(result.table[..], dimNo, k)
  {
    hide Matches;
    forall n: int, i | 0 <= n < k && 0 <= i < |Matches(result.table[..], n)|
      ensures Matches(result.table[..], n)[i] in catalog[pos] && |Matches(result.table[..], n)[i]| == |pos|
    {
      var c := Matches(result.table[..], n)[i];
      MatchesExact(result, n, c);
      assert (c, n).0 == c;
    }
  }

  /** The matches of item n are the positions filed under n, although items share chains. */
  lemma MatchesExact(result: Table, n: int, pos: Coords)
    requires result.Valid()
    ensures pos in Matches(result.table[..], n) <==> (pos, n) in result.contents
  {
    SlotsExact(result.table[Bucket(n, result.table.Length)], n, pos);
  }

  lemma {:induction false} SlotsExact(c: Chain, n: int, pos: Coords)
    ensures pos in Slots(c, n) <==> (pos, n) in Entries(c)
  {
    if c.Elem? {
      SlotsExact(c.next, n, pos);
    }
  }

  lemma {:induction false} SlotsCount(c: Chain, n: int, pos: Coords)
    ensures multiset(Slots(c, n))[pos] == Count(c, pos, n)
  {
    if c.Elem? {
      SlotsCount(c.next, n, pos);
      if c.hash == n {
        assert multiset([c.coords] + Slots(c.next, n)) == multiset{c.coords} + multiset(Slots(c.next, n));
      }
    }
  }

  // ----- The join -----

  /** The slots of every item hold each position as often as the join records it. */
  ghost predicate SlotTimes(table: seq<Chain>, mix: Mix, src: seq<Coords>, chunk: seq<Coords>, error: int)
    requires error != 0
  {
    |table| > 0 && forall n, pos :: 0 <= n < |src| ==>
      multiset(Matches(table, n))[pos] == Times(mix, src, |src|, chunk, error, pos, n)
  }

  lemma JoinedSlots(result: Table, mix: Mix, src: seq<Coords>, chunk: seq<Coords>, error: int)
    requires error != 0 && result.Valid() && JoinedTimes(result.tally, mix, src, |src|, chunk, error)
    ensures SlotTimes(result.table[..], mix, src, chunk, error)
  {
    hide Times, Slots, Count, Entries;
    var table := result.table[..];
    forall n, pos | 0 <= n < |src|
      ensures multiset(Matches(table, n))[pos] == Times(mix, src, |src|, chunk, error, pos, n)
    {
      SlotsCount(table[Bucket(n, |table|)], n, pos);
      assert result.tally[(pos, n)] == Count(table[Bucket(n, |table|)], pos, n);
    }
  }

  /** The values written at the place of a pattern position are those of its neighbours. */
  ghost predicate JoinCells<V>(cells: seq<Cell<V>>, src: seq<Coords>, chunk: seq<Coords>, error: int, value: (nat,
                               Coords) -> V) {
    && (forall cell :: cell in cells ==> FromNeighbor(cell, src, chunk, error, value))
    && (forall n: nat, c :: n < |src| && c in chunk && Neighbors(src[n], c, error) ==>
          Shown(cells, src[n], value(n, c)))
  }

  ghost predicate FromNeighbor<V>(cell: Cell<V>, src: seq<Coords>, chunk: seq<Coords>, error: int, value: (nat,
                                  Coords) -> V) {
    exists n: nat, c :: n < |src| && c in chunk && Neighbors(src[n], c, error)
                        && cell.pos == src[n] && cell.value == value(n, c)
  }

  ghost predicate Shown<V>(cells: seq<Cell<V>>, pos: Coords, v: V) {
    exists cell :: cell in cells && cell.pos == pos && cell.value == v
  }

  lemma CellsJoin<V>(result: Table, src: seq<Coords>, chunk: seq<Coords>, error: int, value: (nat, Coords) -> V)
    requires result.Valid() && Joined(result.contents, src, |src|, chunk, error)
    ensures JoinCells(Cells(result.table[..], src, value, |src|), src, chunk, error, value)
  {
    hide Cells, Matches, Neighbors;
    var table := result.table[..];
    var cells := Cells(table, src, value, |src|);
    forall cell | cell in cells ensures FromNeighbor(cell, src, chunk, error, value) {
      CellsExact(table, src, value, |src|, cell);
      var n: nat :| n < |src| && cell.pos == src[n] && cell.slot < |Matches(table, n)|
                    && cell.value == value(n, Matches(table, n)[cell.slot]);
      MatchesExact(result, n, Matches(table, n)[cell.slot]);
    }
    forall n: nat, c | n < |src| && c in chunk && Neighbors(src[n], c, error)
      ensures Shown(cells, src[n], value(n, c))
    {
      MatchesExact(result, n, c);
      assert (c, n) in result.contents;
      var j :| 0 <= j < |Matches(table, n)| && Matches(table, n)[j] == c;
      CellsExact(table, src, value, |src|, Cell(src[n], j, value(n, c)));
      assert Cell(src[n], j, value(n, c)) in cells;
    }
  }

  /** `findMatch` and `getChunk` together: for every attribute, the chunk shows at each pattern position
      exactly the values of the catalog positions within the error of it. */
  method JoinChunk<V>(mix: Mix, pattern: Chunks, catalog: Chunks, currPos: Coords, error: int, attr: nat,
                      layout: Layout<V>, maxCollisions: nat) returns (r: Outcome<Val<V>>)
    requires error != 0 && |currPos| > 0 && ChunksOfDim(pattern, |currPos|) && ChunksOfDim(catalog, |currPos|)
    requires currPos in pattern
    ensures currPos !in catalog ==> r == Chunk([])
    ensures currPos in catalog && r.Chunk? ==>
              JoinCells(r.cells, pattern[currPos], catalog[currPos], error, layout.Value(attr, |currPos|))
    ensures currPos in catalog ==>
              exists table :: SlotTimes(table, mix, pattern[currPos], catalog[currPos], error)
                              && r == Written(table, pattern[currPos], maxCollisions, layout.Value(attr, |currPos|))
  {
    hide Cells, Fits, Joined, JoinedTimes, Neighbors, JoinCells, SlotTimes, Table.Valid;
    var result, initialized := FindMatch(mix, pattern, catalog, currPos, error);
    var src := pattern[currPos];
    if initialized {
      JoinedKnown(result.contents, src, catalog, currPos, error);
      CellsJoin(result, src, catalog[currPos], error, layout.Value(attr, |currPos|));
      JoinedSlots(result, mix, src, catalog[currPos], error);
    }
    r := GetChunk(result, initialized, attr, layout, currPos, src, catalog, maxCollisions);
  }

  lemma JoinedKnown(entries: set<(Coords, int)>, src: seq<Coords>, catalog: Chunks, pos: Coords, error: int)
    requires pos in catalog && OfDim(catalog[pos], |pos|) && Joined(entries, src, |src|, catalog[pos], error)
    ensures MatchOf(entries, true, catalog, pos)
  {
    hide Neighbors;
    forall e | e in entries ensures e.0 in catalog[pos] && |e.0| == |pos| {
      var (c, n) := e;
      assert (c, n) in entries;
    }
  }

  // ----- All attributes together -----

  /** The i-th cell of every attribute stands at one place and speaks of one match: pattern item n, and
      the catalog position q. The pattern's attributes hold the item's values, the catalog's those at q,
      the coordinate attributes the coordinates of q in their order, and the bitmap is set. */
  ghost predicate Row<V>(chunks: seq<Outcome<Val<V>>>, i: nat, layout: Layout<V>, pos: Coords, n: nat, q: Coords) {
    var np, nc, nd := layout.nPattern, layout.nCatalog, |q|;
    && |chunks| == np + nc + nd + 1
    && (forall a :: 0 <= a < |chunks| ==> chunks[a].Chunk? && i < |chunks[a].cells|)
    && (forall a :: 0 <= a < |chunks| ==> chunks[a].cells[i].pos == pos)
    && (forall a :: 0 <= a < |chunks| ==> chunks[a].cells[i].slot == chunks[0].cells[i].slot)
    && (forall a :: 0 <= a < np ==> chunks[a].cells[i].value == Data(layout.patternItem(a, n)))
    && (forall a :: 0 <= a < nc ==> chunks[np + a].cells[i].value == Data(layout.catalogItem(a, q)))
    && (forall d :: 0 <= d < nd ==> chunks[np + nc + d].cells[i].value == Coordinate(q[d]))
    && chunks[np + nc + nd].cells[i].value == True
  }

  /** Every match has its row, and every row is that of a match. */
  ghost predicate Rows<V>(chunks: seq<Outcome<Val<V>>>, count: nat, layout: Layout<V>, src: seq<Coords>,
                          chunk: seq<Coords>, error: int) {
    && (forall i :: 0 <= i < count ==> RowOfMatch(chunks, i, layout, src, chunk, error))
    && (forall n: nat, q :: n < |src| && q in chunk && Neighbors(src[n], q, error) ==>
          HasRow(chunks, count, layout, src[n], n, q))
  }

  ghost predicate RowOfMatch<V>(chunks: seq<Outcome<Val<V>>>, i: nat, layout: Layout<V>, src: seq<Coords>,
                                chunk: seq<Coords>, error: int) {
    exists n: nat, q :: n < |src| && q in chunk && Neighbors(src[n], q, error) && Row(chunks, i, layout, src[n], n, q)
  }

  ghost predicate HasRow<V>(chunks: seq<Outcome<Val<V>>>, count: nat, layout: Layout<V>, pos: Coords, n: nat,
                            q: Coords) {
    exists i: nat :: i < count && Row(chunks, i, layout, pos, n, q)
  }

  /** All chunks of a result are written from one table. */
  ghost predicate AllWritten<V>(chunks: seq<Outcome<Val<V>>>, k: nat, table: seq<Chain>, src: seq<Coords>,
                                maxCollisions: nat, layout: Layout<V>, nDims: nat) {
    |chunks| == k && |table| > 0 &&
    forall a :: 0 <= a < k ==> chunks[a] == Written(table, src, maxCollisions, layout.Value(a, nDims))
  }

  lemma RowAt<V>(chunks: seq<Outcome<Val<V>>>, table: seq<Chain>, src: seq<Coords>, maxCollisions: nat,
                 layout: Layout<V>, nDims: nat, i: nat)
    requires AllWritten(chunks, layout.nPattern + layout.nCatalog + nDims + 1, table, src, maxCollisions, layout, nDims)
    requires Fits(table, |src|, maxCollisions) && i < Total(table, |src|)
    requires var (n, j) := Place(table, |src|, i); |Matches(table, n)[j]| == nDims
    ensures var (n, j) := Place(table, |src|, i); Row(chunks, i, layout, src[n], n, Matches(table, n)[j])
  {
    hide Cells, Matches, Place, Fits;
    var (n, j) := Place(table, |src|, i);
    var q := Matches(table, n)[j];
    forall a | 0 <= a < |chunks|
      ensures chunks[a].Chunk? && i < |chunks[a].cells|
      ensures chunks[a].cells[i] == Cell(src[n], j, layout.Value(a, nDims)(n, q))
    {
      CellAt(table, src, layout.Value(a, nDims), |src|);
    }
  }

  /** All attributes of the chunk at one position: they throw together, or have equally many cells, which
      are the rows of the matches. */
  method JoinAll<V>(mix: Mix, pattern: Chunks, catalog: Chunks, currPos: Coords, error: int, layout: Layout<V>,
                    maxCollisions: nat) returns (chunks: seq<Outcome<Val<V>>>, count: nat)
    requires error != 0 && |currPos| > 0 && ChunksOfDim(pattern, |currPos|) && ChunksOfDim(catalog, |currPos|)
    requires currPos in pattern && currPos in catalog
    ensures |chunks| == layout.nPattern + layout.nCatalog + |currPos| + 1
    ensures (forall a :: 0 <= a < |chunks| ==> chunks[a].NoCurrentPosition?) ||
            ((forall a :: 0 <= a < |chunks| ==> chunks[a].Chunk? && |chunks[a].cells| == count)
             && Rows(chunks, count, layout, pattern[currPos], catalog[currPos], error))
  {
    hide Cells, Fits, Joined, JoinedTimes, Neighbors, Rows, Table.Valid, Matches, MatchOf;
    var result, initialized := FindMatch(mix, pattern, catalog, currPos, error);
    var src := pattern[currPos];
    JoinedKnown(result.contents, src, catalog, currPos, error);
    TableSize(result);
    chunks := GetAll(result, layout, currPos, src, catalog, maxCollisions);
    count := if chunks[0].Chunk? then |chunks[0].cells| else 0;
    if chunks[0].Chunk? {
      AllRows(result, chunks, src, catalog, currPos, error, maxCollisions, layout);
    }
  }

  method GetAll<V>(result: Table, layout: Layout<V>, currPos: Coords, src: seq<Coords>, catalog: Chunks,
                   maxCollisions: nat) returns (chunks: seq<Outcome<Val<V>>>)
    requires result.Valid() && MatchOf(result.contents, true, catalog, currPos)
    ensures AllWritten(chunks, layout.nPattern + layout.nCatalog + |currPos| + 1, result.table[..], src, maxCollisions,
                       layout, |currPos|)
    ensures forall a :: 0 <= a < |chunks| ==> (chunks[a].Chunk? <==> Fits(result.table[..], |src|, maxCollisions))
  {
    hide Cells, Fits, MatchOf, Table.Valid, Matches;
    TableSize(result);
    chunks := [];
    for a := 0 to layout.nPattern + layout.nCatalog + |currPos| + 1
      invariant AllWritten(chunks, a, result.table[..], src, maxCollisions, layout, |currPos|)
    {
      var r := GetChunk(result, true, a, layout, currPos, src, catalog, maxCollisions);
      chunks := chunks + [r];
    }
  }

  lemma TableSize(result: Table)
    requires result.Valid()
    ensures result.table.Length > 0
  {}

  lemma AllRows<V>(result: Table, chunks: seq<Outcome<Val<V>>>, src: seq<Coords>, catalog: Chunks, currPos: Coords,
                   error: int, maxCollisions: nat, layout: Layout<V>)
    requires result.Valid() && MatchOf(result.contents, true, catalog, currPos) && result.table.Length > 0
    requires currPos in catalog && Joined(result.contents, src, |src|, catalog[currPos], error)
    requires AllWritten(chunks, layout.nPattern + layout.nCatalog + |currPos| + 1, result.table[..], src, maxCollisions,
                        layout, |currPos|)
    requires Fits(result.table[..], |src|, maxCollisions)
    ensures forall a :: 0 <= a < |chunks| ==> chunks[a].Chunk? && |chunks[a].cells| == Total(result.table[..], |src|)
    ensures Rows(chunks, Total(result.table[..], |src|), layout, src, catalog[currPos], error)
  {
    hide Cells, Matches, Place, Fits, Neighbors, Row, AllWritten, MatchOf, Joined;
    var table, chunk := result.table[..], catalog[currPos];
    var count := Total(table, |src|);
    ChunkSizes(chunks, table, src, maxCollisions, layout, |currPos|);
    forall i | 0 <= i < count ensures RowOfMatch(chunks, i, layout, src, chunk, error) {
      var (n, j) := Place(table, |src|, i);
      var q := Matches(table, n)[j];
      MatchKnown(result, src, catalog, currPos, error, n, q);
      RowAt(chunks, table, src, maxCollisions, layout, |currPos|, i);
      assert Row(chunks, i, layout, src[n], n, q);
    }
    forall n: nat, q | n < |src| && q in chunk && Neighbors(src[n], q, error)
      ensures HasRow(chunks, count, layout, src[n], n, q)
    {
      MatchKnown(result, src, catalog, currPos, error, n, q);
      var j :| 0 <= j < |Matches(table, n)| && Matches(table, n)[j] == q;
      var i := IndexOf(table, |src|, n, j);
      RowAt(chunks, table, src, maxCollisions, layout, |currPos|, i);
    }
  }

  lemma ChunkSizes<V>(chunks: seq<Outcome<Val<V>>>, table: seq<Chain>, src: seq<Coords>, maxCollisions: nat,
                      layout: Layout<V>, nDims: nat)
    requires AllWritten(chunks, layout.nPattern + layout.nCatalog + nDims + 1, table, src, maxCollisions, layout, nDims)
    requires Fits(table, |src|, maxCollisions)
    ensures forall a :: 0 <= a < |chunks| ==> chunks[a].Chunk? && |chunks[a].cells| == Total(table, |src|)
  {
    hide Cells, Matches, Place, Fits;
    forall a | 0 <= a < |chunks| ensures chunks[a].Chunk? && |chunks[a].cells| == Total(table, |src|) {
      CellAt(table, src, layout.Value(a, nDims), |src|);
    }
  }

  /** The matches of item n are its neighbours in the catalog chunk. */
  lemma MatchKnown(result: Table, src: seq<Coords>, catalog: Chunks, currPos: Coords, error: int, n: nat, q: Coords)
    requires result.Valid() && MatchOf(result.contents, true, catalog, currPos) && result.table.Length > 0
    requires Joined(result.contents, src, |src|, catalog[currPos], error) && n < |src|
    ensures q in Matches(result.table[..], n) <==> q in catalog[currPos] && Neighbors(src[n], q, error)
    ensures q in Matches(result.table[..], n) ==> |q| == |currPos|
  {
    hide Matches, Neighbors;
    MatchesExact(result, n, q);
    assert (q, n) in result.contents <==> q in catalog[currPos] && Neighbors(src[n], q, error);
    if (q, n) in result.contents {
      assert (q, n).0 == q;
    }
  }

  /** The place of the j-th match of item n. */
  lemma {:induction false} IndexOf(table: seq<Chain>, k: nat, n: nat, j: nat) returns (i: nat)
    requires |table| > 0 && n < k && j < |Matches(table, n)|
    ensures i < Total(table, k) && Place(table, k, i) == (n, j)
  {
    hide Matches;
    if n == k - 1 {
      i := Total(table, k - 1) + j;
    } else {
      i := IndexOf(table, k - 1, n, j);
    }
  }
}
