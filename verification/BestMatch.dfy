/** The nearest match of examples/bestmatch/BestMatchArray.cpp: the same cell index as the match
    operator, with a running minimum of 64-bit squared distances. */
module BestMatch {
  import opened Basics
  import opened MatchHash

  const MAX_UINT64 := TWO64 - 1

  // ----- Distances -----

  function Square(x: int): nat { x * x }

  /** The squared distance over the first n coordinates. */
  ghost function SumSquares(p: Coords, q: Coords, n: nat): nat
    requires n <= |p| && n <= |q|
  {
    if n == 0 then 0 else SumSquares(p, q, n - 1) + Square(q[n - 1] - p[n - 1])
  }

  ghost function Dist2(p: Coords, q: Coords): nat
    requires |p| == |q|
  {
    SumSquares(p, q, |p|)
  }

  /** The squared distance of a position to itself is zero, and moving one coordinate changes it by the
      difference of the squares on that axis; so it is the sum of the squared differences. */
  lemma OneCoordinate(p: Coords, q: Coords, k: nat, x: int)
    requires k < |p| == |q|
    ensures Dist2(p, p) == 0
    ensures Dist2(p, q[k := x]) - Dist2(p, q) == (x - p[k]) * (x - p[k]) - (q[k] - p[k]) * (q[k] - p[k])
  {
    SelfZero(p, |p|);
    Moved(p, q, k, x, |p|);
  }

  lemma {:induction false} SelfZero(p: Coords, n: nat)
    requires n <= |p|
    ensures SumSquares(p, p, n) == 0
  {
    if n > 0 {
      SelfZero(p, n - 1);
    }
  }

  lemma {:induction false} Moved(p: Coords, q: Coords, k: nat, x: int, n: nat)
    requires k < |p| == |q| && n <= |p|
    ensures SumSquares(p, q[k := x], n) - SumSquares(p, q, n) ==
            if k < n then Square(x - p[k]) - Square(q[k] - p[k]) else 0
  {
    hide Square;
    if n > 0 {
      Moved(p, q, k, x, n - 1);
    }
  }

  /** The unsigned 64-bit sum the source computes. */
  ghost function Wrapped(p: Coords, q: Coords): nat
    requires |p| == |q|
  {
    Dist2(p, q) % TWO64
  }

  method CalculateDistance(from: Coords, till: Coords) returns (dist: int)
    requires |from| == |till|
    ensures dist == Wrapped(from, till)
  {
    dist := 0;
    for i := 0 to |from|
      invariant dist == SumSquares(from, till, i) % TWO64
    {
      WrapAdd(SumSquares(from, till, i), Square(till[i] - from[i]));
      dist := (dist + Square(till[i] - from[i]) % TWO64) % TWO64;
    }
  }

  lemma WrapAdd(a: nat, b: nat)
    ensures (a % TWO64 + b % TWO64) % TWO64 == (a + b) % TWO64
  {}

  /** Each coordinate contributes at most the whole. */
  lemma {:induction false} CoordinateBound(p: Coords, q: Coords, k: nat, n: nat)
    requires k < n <= |p| && n <= |q|
    ensures Square(q[k] - p[k]) <= SumSquares(p, q, n)
  {
    if k < n - 1 {
      CoordinateBound(p, q, k, n - 1);
    }
  }

  /** A match within the error radius lies within the error on every coordinate. */
  lemma RadiusIsNear(p: Coords, q: Coords, error: int)
    requires |p| == |q| && Dist2(p, q) <= Square(error)
    ensures Neighbors(p, q, Abs(error))
  {
    forall k | 0 <= k < |p| ensures p[k] - Abs(error) <= q[k] <= p[k] + Abs(error) {
      CoordinateBound(p, q, k, |p|);
      SquareRoot(q[k] - p[k], error);
    }
  }

  lemma SquareRoot(x: int, y: int)
    requires Square(x) <= Square(y)
    ensures Abs(x) <= Abs(y)
  {
    SquareOrder(x, y);
  }

  lemma SquareOrder(x: int, y: int)
    ensures Abs(x) > Abs(y) ==> Square(x) > Square(y)
  {
    var a, b := Abs(x), Abs(y);
    assert Square(x) == a * a && Square(y) == b * b;
    if a > b {
      MulMonotone(b + 1, a, a);
      MulMonotone(b, a, b);
      assert (b + 1) * a == b * a + a && a * b == b * a;
    }
  }

  lemma MulMonotone(x: nat, y: nat, z: nat)
    requires x <= y
    ensures x * z <= y * z
  {
    assert y * z == x * z + (y - x) * z;
  }

  // ----- What is recorded -----

  /** A computed distance the scan can accept. */
  predicate Acceptable(d: int, error: int) { d <= Square(error) % TWO64 && d < MAX_UINT64 }

  /** The entry at q is filed under the cell of p. */
  ghost predicate Filed(mix: Mix, p: Coords, q: Coords, error: int)
    requires error != 0
  {
    CellHash(mix, p, 0, 0, error) in NearHashes(mix, q, 0, 0, error)
  }

  /** Seen by the scan for p and acceptable to it. */
  ghost predicate Eligible(mix: Mix, p: Coords, catalog: seq<Coords>, error: int, q: Coords)
    requires error != 0
  {
    q in catalog && |q| == |p| && Filed(mix, p, q, error) && Acceptable(Wrapped(p, q), error)
  }

  /** The scan's choice: eligible, with the smallest computed distance. */
  ghost predicate IsBest(mix: Mix, p: Coords, catalog: seq<Coords>, error: int, pos: Coords)
    requires error != 0
  {
    Eligible(mix, p, catalog, error, pos) &&
    forall q :: Eligible(mix, p, catalog, error, q) ==> Wrapped(p, pos) <= Wrapped(p, q)
  }

  /** The running minimum over one chain. */
  method BestInChain(p: Coords, chain: Chain, hash: int, error: int) returns (best: Option<Coords>)
    requires ChainOfDim(chain, |p|)
    ensures best.Some? ==>
              && (best.value, hash) in Entries(chain) && Acceptable(Wrapped(p, best.value), error)
              && forall q :: (q, hash) in Entries(chain) && Acceptable(Wrapped(p, q), error) ==>
                               Wrapped(p, best.value) <= Wrapped(p, q)
    ensures best.None? ==> forall q :: (q, hash) in Entries(chain) ==> !Acceptable(Wrapped(p, q), error)
  {
    hide Wrapped;
    var minDistance := MAX_UINT64;
    var maxDistance := Square(error) % TWO64;
    best := None;
    var elem := chain;
    while elem.Elem?
      invariant Entries(elem) <= Entries(chain)
      invariant best.None? ==> minDistance == MAX_UINT64
      invariant best.Some? ==> (best.value, hash) in Entries(chain) && Wrapped(p, best.value) == minDistance
                               && Acceptable(minDistance, error)
      invariant forall q | (q, hash) in Entries(chain) && (q, hash) !in Entries(elem) ::
                  Acceptable(Wrapped(p, q), error) ==> minDistance <= Wrapped(p, q) && best.Some?
      decreases elem
    {
      assert (elem.coords, elem.hash) in Entries(chain);
      if elem.hash == hash {
        var distance := CalculateDistance(p, elem.coords);
        if distance <= maxDistance && distance < minDistance {
          minDistance := distance;
          best := Some(elem.coords);
        }
      }
      elem := elem.next;
    }
  }

  /** The records of the first k pattern items: at most one each, each the scan's choice, and none
      only where nothing is eligible. */
  ghost predicate Recorded(mix: Mix, pattern: seq<Coords>, catalog: seq<Coords>, error: int,
                           records: set<(Coords, int)>, k: nat)
    requires error != 0 && k <= |pattern|
  {
    && (forall pos, n :: (pos, n) in records ==> 0 <= n < k && IsBest(mix, pattern[n], catalog, error, pos))
    && (forall n, q :: 0 <= n < k && Eligible(mix, pattern[n], catalog, error, q) ==> exists pos :: (pos, n) in records)
    && (forall pos, pos', n :: (pos, n) in records && (pos', n) in records ==> pos == pos')
  }

  lemma RecordedNext(mix: Mix, pattern: seq<Coords>, catalog: seq<Coords>, error: int,
                     records: set<(Coords, int)>, k: nat, best: Option<Coords>)
    requires error != 0 && k < |pattern| && Recorded(mix, pattern, catalog, error, records, k)
    requires best.Some? ==> IsBest(mix, pattern[k], catalog, error, best.value)
    requires best.None? ==> forall q :: !Eligible(mix, pattern[k], catalog, error, q)
    ensures best.None? ==> Recorded(mix, pattern, catalog, error, records, k + 1)
    ensures best.Some? ==> Recorded(mix, pattern, catalog, error, records + {(best.value, k)}, k + 1)
  {
    hide Eligible, IsBest;
    if best.Some? {
      var more := records + {(best.value, k)};
      assert (best.value, k) in more;
      forall n, q | 0 <= n < k + 1 && Eligible(mix, pattern[n], catalog, error, q)
        ensures exists pos :: (pos, n) in more
      {
        if n < k {
          var pos :| (pos, n) in records;
          assert (pos, n) in more;
        }
      }
    }
  }

  /** The scan's choice for one pattern item. */
  method ScanItem(mix: Mix, catalogHash: Table, p: Coords, catalog: seq<Coords>, error: int)
    returns (best: Option<Coords>)
    requires error != 0 && OfDim(catalog, |p|)
    requires catalogHash.Valid() && Indexed(mix, catalog, error, catalogHash.contents)
    ensures best.Some? ==> IsBest(mix, p, catalog, error, best.value)
    ensures best.None? ==> forall q :: !Eligible(mix, p, catalog, error, q)
  {
    hide NearHashes, CellHash, Acceptable, Wrapped, Eligible, IsBest, Count, Entries, Table.Valid;
    var hash := GetCatalogHash(mix, p, error);
    IndexedOfDim(catalogHash.contents, mix, catalog, |p|, error);
    catalogHash.Lookup(hash, |p|);
    var chain := catalogHash.table[Bucket(hash, catalogHash.table.Length)];
    best := BestInChain(p, chain, hash, error);
    ScanIsBest(mix, p, catalog, error, chain, hash, best);
  }

  method FindBestMatches(mix: Mix, pattern: seq<Coords>, catalog: seq<Coords>, dim: nat, error: int)
    returns (patternHash: Table)
    requires error != 0 && dim > 0 && OfDim(pattern, dim) && OfDim(catalog, dim)
    ensures fresh(patternHash) && fresh(patternHash.table) && patternHash.Valid()
    ensures Recorded(mix, pattern, catalog, error, patternHash.contents, |pattern|)
  {
    hide NearHashes, CellHash, Eligible, IsBest, Recorded, FilingAll, Table.Valid;
    var catalogHash := IndexCatalog(mix, catalog, dim, error);
    assert Indexed(mix, catalog, error, catalogHash.contents);
    hide Indexed;
    patternHash := new Table(|pattern|);
    NothingRecorded(mix, pattern, catalog, error);
    for itemNo := 0 to |pattern|
      invariant fresh(patternHash.table) && patternHash.Valid() && catalogHash.Valid()
      invariant patternHash != catalogHash && patternHash.table != catalogHash.table
      invariant Indexed(mix, catalog, error, catalogHash.contents)
      invariant Recorded(mix, pattern, catalog, error, patternHash.contents, itemNo)
    {
      var best := ScanItem(mix, catalogHash, pattern[itemNo], catalog, error);
      RecordedNext(mix, pattern, catalog, error, patternHash.contents, itemNo, best);
      if best.Some? {
        patternHash.Add(best.value, itemNo);
      }
    }
  }

  lemma NothingRecorded(mix: Mix, pattern: seq<Coords>, catalog: seq<Coords>, error: int)
    requires error != 0
    ensures Recorded(mix, pattern, catalog, error, {}, 0)
  {}

  lemma ScanIsBest(mix: Mix, p: Coords, catalog: seq<Coords>, error: int, chain: Chain, hash: int, best: Option<Coords>)
    requires error != 0 && OfDim(catalog, |p|) && ChainOfDim(chain, |p|) && hash == CellHash(mix, p, 0, 0, error)
    requires forall q :: (q, hash) in Entries(chain) <==> q in catalog && hash in NearHashes(mix, q, 0, 0, error)
    requires best.Some? ==>
               && (best.value, hash) in Entries(chain) && Acceptable(Wrapped(p, best.value), error)
               && forall q :: (q, hash) in Entries(chain) && Acceptable(Wrapped(p, q), error) ==>
                                Wrapped(p, best.value) <= Wrapped(p, q)
    requires best.None? ==> forall q :: (q, hash) in Entries(chain) ==> !Acceptable(Wrapped(p, q), error)
    ensures best.Some? ==> IsBest(mix, p, catalog, error, best.value)
    ensures best.None? ==> forall q :: !Eligible(mix, p, catalog, error, q)
  {
    hide NearHashes, CellHash, Acceptable, Wrapped;
    forall q ensures Eligible(mix, p, catalog, error, q) <==>
                     (q, hash) in Entries(chain) && Acceptable(Wrapped(p, q), error) {}
  }

  // ----- What it means -----

  /** A catalog position of least squared distance among those within the error radius. */
  ghost predicate IsNearest(p: Coords, catalog: seq<Coords>, error: int, pos: Coords)
    requires OfDim(catalog, |p|)
  {
    && pos in catalog && Dist2(p, pos) <= Square(error)
    && forall q :: q in catalog && Dist2(p, q) <= Square(error) ==> Dist2(p, pos) <= Dist2(p, q)
  }

  /** A catalog position within the error radius. */
  ghost predicate Near(p: Coords, catalog: seq<Coords>, error: int, q: Coords)
    requires OfDim(catalog, |p|)
  {
    q in catalog && Dist2(p, q) <= Square(error)
  }

  /** A position beyond the radius that the scan for p accepts, because it shares the cell's hash and
      its squared distance wraps. */
  ghost predicate Intruder(mix: Mix, p: Coords, catalog: seq<Coords>, error: int, q: Coords)
    requires error != 0 && OfDim(catalog, |p|)
  {
    q in catalog && Dist2(p, q) > Square(error) && Filed(mix, p, q, error) && Acceptable(Wrapped(p, q), error)
  }

  /** The eligible positions are those within the radius whose computed distance is acceptable, and
      the intruders. */
  lemma EligibleIff(mix: Mix, p: Coords, catalog: seq<Coords>, error: int, q: Coords)
    requires error != 0 && OfDim(catalog, |p|)
    ensures Eligible(mix, p, catalog, error, q) <==>
            (Near(p, catalog, error, q) && Acceptable(Wrapped(p, q), error)) || Intruder(mix, p, catalog, error, q)
  {
    hide CellHash, NearHashes, Dist2, Square, Neighbors, Acceptable;
    if Near(p, catalog, error, q) {
      RadiusIsNear(p, q, error);
      NeighborCell(mix, p, q, 0, 0, error);
    }
  }

  /** Below an error of 2^32 every distance within the radius is computed exactly and acceptable. */
  lemma NearIsExact(p: Coords, catalog: seq<Coords>, error: int, q: Coords)
    requires Abs(error) < 0x1_0000_0000 && OfDim(catalog, |p|) && Near(p, catalog, error, q)
    ensures Wrapped(p, q) == Dist2(p, q) && Acceptable(Wrapped(p, q), error)
  {
    hide Dist2, Square;
    SquareBound(error);
    SmallMod(Square(error));
    SmallMod(Dist2(p, q));
  }

  lemma SmallMod(d: nat)
    requires d < TWO64
    ensures d % TWO64 == d
  {}

  lemma SquareBound(error: int)
    requires Abs(error) < 0x1_0000_0000
    ensures Square(error) < MAX_UINT64
  {
    var a := Abs(error);
    assert Square(error) == a * a;
    assert a * a <= 0xFFFF_FFFF * 0xFFFF_FFFF;
  }

  /** Where anything is eligible there is a best match. */
  lemma {:induction false} SomeBest(mix: Mix, p: Coords, catalog: seq<Coords>, error: int, q: Coords)
    returns (best: Coords)
    requires error != 0 && Eligible(mix, p, catalog, error, q)
    ensures IsBest(mix, p, catalog, error, best) && Wrapped(p, best) <= Wrapped(p, q)
    decreases Wrapped(p, q)
  {
    hide Filed, Acceptable, Dist2;
    if IsBest(mix, p, catalog, error, q) {
      best := q;
    } else {
      var closer :| Eligible(mix, p, catalog, error, closer) && Wrapped(p, closer) < Wrapped(p, q);
      best := SomeBest(mix, p, catalog, error, closer);
    }
  }

  ghost predicate BestAreNearest(mix: Mix, p: Coords, catalog: seq<Coords>, error: int)
    requires error != 0 && OfDim(catalog, |p|)
  {
    forall pos :: IsBest(mix, p, catalog, error, pos) <==> IsNearest(p, catalog, error, pos)
  }

  /** The nearest positions pass the acceptance test, which compares words. */
  ghost predicate NearestAccepted(p: Coords, catalog: seq<Coords>, error: int)
    requires OfDim(catalog, |p|)
  {
    forall r :: IsNearest(p, catalog, error, r) ==> Acceptable(Wrapped(p, r), error)
  }

  /** Every other position the scan accepts is beaten by a nearest one, in words. */
  ghost predicate OthersBeaten(mix: Mix, p: Coords, catalog: seq<Coords>, error: int)
    requires error != 0 && OfDim(catalog, |p|)
  {
    forall q :: Eligible(mix, p, catalog, error, q) && !IsNearest(p, catalog, error, q) ==>
                  exists r :: IsNearest(p, catalog, error, r) && Wrapped(p, r) < Wrapped(p, q)
  }

  lemma NearestEligible(mix: Mix, p: Coords, catalog: seq<Coords>, error: int, r: Coords)
    requires error != 0 && OfDim(catalog, |p|) && IsNearest(p, catalog, error, r) && Acceptable(Wrapped(p, r), error)
    ensures Eligible(mix, p, catalog, error, r)
  {
    hide Eligible, Dist2, Filed, Acceptable;
    EligibleIff(mix, p, catalog, error, r);
  }

  /** All nearest positions have one distance, so one word. */
  lemma NearestTie(p: Coords, catalog: seq<Coords>, error: int, q: Coords, r: Coords)
    requires OfDim(catalog, |p|) && IsNearest(p, catalog, error, q) && IsNearest(p, catalog, error, r)
    ensures Wrapped(p, q) == Wrapped(p, r)
  {
    hide SumSquares;
  }

  /** For every hash and every error, the scan's choices are the nearest positions if and only if the
      nearest pass the acceptance test and beat everything else that passes it. */
  lemma BestIsNearestIff(mix: Mix, p: Coords, catalog: seq<Coords>, error: int)
    requires error != 0 && OfDim(catalog, |p|)
    ensures BestAreNearest(mix, p, catalog, error) <==>
            NearestAccepted(p, catalog, error) && OthersBeaten(mix, p, catalog, error)
  {
    if BestAreNearest(mix, p, catalog, error) {
      BestImpliesBeaten(mix, p, catalog, error);
    }
    if NearestAccepted(p, catalog, error) && OthersBeaten(mix, p, catalog, error) {
      BeatenImpliesBest(mix, p, catalog, error);
    }
  }

  lemma BestImpliesBeaten(mix: Mix, p: Coords, catalog: seq<Coords>, error: int)
    requires error != 0 && OfDim(catalog, |p|) && BestAreNearest(mix, p, catalog, error)
    ensures NearestAccepted(p, catalog, error) && OthersBeaten(mix, p, catalog, error)
  {
    hide Wrapped, Dist2, Filed, Acceptable;
    forall r | IsNearest(p, catalog, error, r) ensures Acceptable(Wrapped(p, r), error) {
      assert IsBest(mix, p, catalog, error, r);
    }
    forall q | Eligible(mix, p, catalog, error, q) && !IsNearest(p, catalog, error, q)
      ensures exists r :: IsNearest(p, catalog, error, r) && Wrapped(p, r) < Wrapped(p, q)
    {
      var best := SomeBest(mix, p, catalog, error, q);
      assert IsNearest(p, catalog, error, best) && !IsBest(mix, p, catalog, error, q);
    }
  }

  lemma BeatenImpliesBest(mix: Mix, p: Coords, catalog: seq<Coords>, error: int)
    requires error != 0 && OfDim(catalog, |p|)
    requires NearestAccepted(p, catalog, error) && OthersBeaten(mix, p, catalog, error)
    ensures BestAreNearest(mix, p, catalog, error)
  {
    hide Wrapped, Dist2, Filed, Acceptable;
    forall pos ensures IsBest(mix, p, catalog, error, pos) <==> IsNearest(p, catalog, error, pos) {
      if IsBest(mix, p, catalog, error, pos) && !IsNearest(p, catalog, error, pos) {
        var r :| IsNearest(p, catalog, error, r) && Wrapped(p, r) < Wrapped(p, pos);
        NearestEligible(mix, p, catalog, error, r);
      }
      if IsNearest(p, catalog, error, pos) {
        NearestEligible(mix, p, catalog, error, pos);
        forall q | Eligible(mix, p, catalog, error, q) ensures Wrapped(p, pos) <= Wrapped(p, q) {
          if IsNearest(p, catalog, error, q) {
            NearestTie(p, catalog, error, pos, q);
          } else {
            var r :| IsNearest(p, catalog, error, r) && Wrapped(p, r) < Wrapped(p, q);
            NearestTie(p, catalog, error, pos, r);
          }
        }
      }
    }
  }

  /** Every intruder is beaten by a position within the radius. */
  ghost predicate IntrudersBeaten(mix: Mix, p: Coords, catalog: seq<Coords>, error: int)
    requires error != 0 && OfDim(catalog, |p|)
  {
    forall q :: Intruder(mix, p, catalog, error, q) ==>
                  exists r :: Near(p, catalog, error, r) && Dist2(p, r) < Wrapped(p, q)
  }

  /** Some position within the radius is nearest. */
  lemma {:induction false} SomeNearest(p: Coords, catalog: seq<Coords>, error: int, q: Coords) returns (best: Coords)
    requires OfDim(catalog, |p|) && Near(p, catalog, error, q)
    ensures IsNearest(p, catalog, error, best) && Dist2(p, best) <= Dist2(p, q)
    decreases Dist2(p, q)
  {
    hide SumSquares;
    if IsNearest(p, catalog, error, q) {
      best := q;
    } else {
      var closer :| Near(p, catalog, error, closer) && Dist2(p, closer) < Dist2(p, q);
      best := SomeNearest(p, catalog, error, closer);
    }
  }

  /** Below 2^32 it comes down to the intruders. */
  lemma BestIsNearestBelow(mix: Mix, p: Coords, catalog: seq<Coords>, error: int)
    requires error != 0 && Abs(error) < 0x1_0000_0000 && OfDim(catalog, |p|)
    ensures BestAreNearest(mix, p, catalog, error) <==> IntrudersBeaten(mix, p, catalog, error)
  {
    hide BestAreNearest;
    BestIsNearestIff(mix, p, catalog, error);
    forall r | IsNearest(p, catalog, error, r) ensures Acceptable(Wrapped(p, r), error) {
      NearIsExact(p, catalog, error, r);
    }
    if OthersBeaten(mix, p, catalog, error) {
      OthersToIntruders(mix, p, catalog, error);
    }
    if IntrudersBeaten(mix, p, catalog, error) {
      IntrudersToOthers(mix, p, catalog, error);
    }
  }

  lemma OthersToIntruders(mix: Mix, p: Coords, catalog: seq<Coords>, error: int)
    requires error != 0 && Abs(error) < 0x1_0000_0000 && OfDim(catalog, |p|) && OthersBeaten(mix, p, catalog, error)
    ensures IntrudersBeaten(mix, p, catalog, error)
  {
    hide Eligible, Wrapped, Dist2, Filed, Acceptable;
    forall q | Intruder(mix, p, catalog, error, q)
      ensures exists r :: Near(p, catalog, error, r) && Dist2(p, r) < Wrapped(p, q)
    {
      EligibleIff(mix, p, catalog, error, q);
      IntruderNotNearest(mix, p, catalog, error, q);
      var r :| IsNearest(p, catalog, error, r) && Wrapped(p, r) < Wrapped(p, q);
      assert Near(p, catalog, error, r);
      NearIsExact(p, catalog, error, r);
    }
  }

  lemma IntrudersToOthers(mix: Mix, p: Coords, catalog: seq<Coords>, error: int)
    requires error != 0 && Abs(error) < 0x1_0000_0000 && OfDim(catalog, |p|) && IntrudersBeaten(mix, p, catalog, error)
    ensures OthersBeaten(mix, p, catalog, error)
  {
    hide Wrapped, Dist2, Filed, Acceptable;
    forall q | Eligible(mix, p, catalog, error, q) && !IsNearest(p, catalog, error, q)
      ensures exists r :: IsNearest(p, catalog, error, r) && Wrapped(p, r) < Wrapped(p, q)
    {
      EligibleIff(mix, p, catalog, error, q);
      var closer;
      if Near(p, catalog, error, q) {
        NearIsExact(p, catalog, error, q);
        closer :| Near(p, catalog, error, closer) && Dist2(p, closer) < Dist2(p, q);
      } else {
        closer :| Near(p, catalog, error, closer) && Dist2(p, closer) < Wrapped(p, q);
      }
      var r := SomeNearest(p, catalog, error, closer);
      assert Near(p, catalog, error, r);
      NearIsExact(p, catalog, error, r);
    }
  }

  lemma IntruderNotNearest(mix: Mix, p: Coords, catalog: seq<Coords>, error: int, q: Coords)
    requires error != 0 && OfDim(catalog, |p|) && Intruder(mix, p, catalog, error, q)
    ensures !IsNearest(p, catalog, error, q)
  {}

  /** In particular when no squared distance reaches 2^64. */
  lemma BestIsNearest(mix: Mix, p: Coords, catalog: seq<Coords>, error: int)
    requires error != 0 && Abs(error) < 0x1_0000_0000 && OfDim(catalog, |p|)
    requires forall r :: r in catalog ==> Dist2(p, r) < TWO64
    ensures BestAreNearest(mix, p, catalog, error)
  {
    hide Dist2, Filed, Square, BestAreNearest;
    SquareBound(error);
    SmallMod(Square(error));
    forall q ensures !Intruder(mix, p, catalog, error, q) {
      if q in catalog {
        SmallMod(Dist2(p, q));
      }
    }
    BestIsNearestBelow(mix, p, catalog, error);
  }

  /** With the source's own hash an intruder can win: (2^32, 1000003 * 2^32) hashes to the cell of the
      origin and its squared distance wraps to zero, so it is the best match within error 1. */
  lemma FarPositionWins()
    ensures var p, far := [0, 0], [0x1_0000_0000, 1000003 * 0x1_0000_0000];
            IsBest(HashStep, p, [far], 1, far) && Dist2(p, far) > Square(1)
  {
    hide HashStep, CellHash, NearHashes, Dist2;
    var p, far := [0, 0], [0x1_0000_0000, 1000003 * 0x1_0000_0000];
    FarDistance();
    FarHash();
    NeighborCell(HashStep, far, far, 0, 0, 1);
    assert Filed(HashStep, p, far, 1);
    assert Wrapped(p, far) == 0;
  }

  lemma FarDistance()
    ensures Dist2([0, 0], [0x1_0000_0000, 1000003 * 0x1_0000_0000]) == 1000006000010 * TWO64
  {
    var p, far := [0, 0], [0x1_0000_0000, 1000003 * 0x1_0000_0000];
    assert SumSquares(p, far, 1) == Square(0x1_0000_0000);
  }

  lemma FarHash()
    ensures var p, far := [0, 0], [0x1_0000_0000, 1000003 * 0x1_0000_0000];
            CellHash(HashStep, far, 0, 0, 1) == CellHash(HashStep, p, 0, 0, 1)
  {
    hide HashStep;
    var p, far := [0, 0], [0x1_0000_0000, 1000003 * 0x1_0000_0000];
    HashSteps();
    assert CellHash(HashStep, far, 1, 0x1_0000_0000, 1) == CellHash(HashStep, far, 2, 0, 1) == 0;
    assert CellHash(HashStep, p, 1, 0, 1) == CellHash(HashStep, p, 2, 0, 1) == 0;
  }

  lemma HashSteps()
    ensures HashStep(0, 0) == 0 && HashStep(0, 0x1_0000_0000) == 0x1_0000_0000
    ensures HashStep(0x1_0000_0000, 1000003 * 0x1_0000_0000) == 0
  {
    hide Xor;
    XorZero(0);
    XorZero(0x1_0000_0000);
    XorSelf(1000003 * 0x1_0000_0000);
  }

  /** From an error of 2^32 on the squared error wraps too, and a position within it can be lost. */
  lemma LargeErrorLoses(mix: Mix)
    ensures var p, q, error := [0], [1], 0x1_0000_0000;
            Dist2(p, q) <= Square(error) && !Eligible(mix, p, [q], error, q)
  {
    var p, q := [0], [1];
    assert SumSquares(p, q, 0) == 0 && Dist2(p, q) == 1;
    assert Square(0x1_0000_0000) == TWO64;
  }
}
