/** How often the match operator records a match: once for each cell near the catalog position whose
    hash is that of the pattern item's cell. */
module MatchCount {
  import opened MatchHash

  // ----- Cells -----

  /** A cell near pos, given by its numbers from coordinate i on. */
  ghost predicate NearCell(pos: Coords, i: nat, error: int, c: seq<int>)
    requires i <= |pos| && error != 0
  {
    |c| == |pos| - i && forall j :: 0 <= j < |c| ==>
      TruncDiv(pos[i + j] - error, error) <= c[j] <= TruncDiv(pos[i + j] + error, error)
  }

  function HashOf(mix: Mix, hash: int, c: seq<int>): int
    decreases |c|
  {
    if c == [] then hash else HashOf(mix, mix(hash, c[0]), c[1..])
  }

  /** A near cell with this hash. */
  ghost predicate Hit(mix: Mix, pos: Coords, i: nat, hash: int, error: int, h: int, c: seq<int>)
    requires i <= |pos| && error != 0
  {
    NearCell(pos, i, error, c) && HashOf(mix, hash, c) == h
  }

  /** A near cell is one number and a near cell of the remaining coordinates. */
  lemma HitSplit(mix: Mix, pos: Coords, i: nat, hash: int, error: int, h: int, c: seq<int>)
    requires i < |pos| && error != 0
    ensures Hit(mix, pos, i, hash, error, h, c) <==>
            && c != [] && TruncDiv(pos[i] - error, error) <= c[0] <= TruncDiv(pos[i] + error, error)
            && Hit(mix, pos, i + 1, mix(hash, c[0]), error, h, c[1..])
  {
    hide TruncDiv;
    if c != [] {
      assert forall j :: 0 <= j < |c| - 1 ==> c[1..][j] == c[j + 1];
      if NearCell(pos, i, error, c) {
        assert TruncDiv(pos[i + 0] - error, error) <= c[0] <= TruncDiv(pos[i + 0] + error, error);
        forall j | 0 <= j < |c[1..]|
          ensures TruncDiv(pos[i + 1 + j] - error, error) <= c[1..][j] <= TruncDiv(pos[i + 1 + j] + error, error)
        {
          assert pos[i + 1 + j] == pos[i + (j + 1)];
        }
      }
      if c[1..] != [] || |pos| == i + 1 {
        Joins(pos, i, error, c);
      }
    }
  }

  lemma Joins(pos: Coords, i: nat, error: int, c: seq<int>)
    requires i < |pos| && error != 0 && c != []
    ensures (TruncDiv(pos[i] - error, error) <= c[0] <= TruncDiv(pos[i] + error, error)
             && NearCell(pos, i + 1, error, c[1..])) ==> NearCell(pos, i, error, c)
  {
    hide TruncDiv;
    if TruncDiv(pos[i] - error, error) <= c[0] <= TruncDiv(pos[i] + error, error)
       && NearCell(pos, i + 1, error, c[1..]) {
      forall j | 0 <= j < |c|
        ensures TruncDiv(pos[i + j] - error, error) <= c[j] <= TruncDiv(pos[i + j] + error, error)
      {
        if j > 0 {
          assert c[j] == c[1..][j - 1] && pos[i + j] == pos[i + 1 + (j - 1)];
        }
      }
    }
  }

  // ----- Entries filed and cells hit -----

  /** Every entry filed goes with a cell. */
  lemma {:induction false} FiledHit(mix: Mix, pos: Coords, i: nat, hash: int, error: int, h: int) returns (c: seq<int>)
    requires i <= |pos| && error != 0 && Filing(mix, pos, i, hash, error)[(pos, h)] >= 1
    ensures Hit(mix, pos, i, hash, error, h, c)
    decreases |pos| - i, 0, 0
  {
    if i == |pos| {
      c := [];
    } else {
      hide TruncDiv;
      c := FiledHitBelow(mix, pos, i, hash, error, h, TruncDiv(pos[i] - error, error),
                         TruncDiv(pos[i] + error, error) + 1);
      HitSplit(mix, pos, i, hash, error, h, c);
    }
  }

  lemma {:induction false} FiledHitBelow(mix: Mix, pos: Coords, i: nat, hash: int, error: int, h: int, from: int,
                                         end: int)
    returns (c: seq<int>)
    requires i < |pos| && error != 0 && FilingBelow(mix, pos, i, hash, error, from, end)[(pos, h)] >= 1
    ensures c != [] && from <= c[0] < end && Hit(mix, pos, i + 1, mix(hash, c[0]), error, h, c[1..])
    decreases |pos| - i - 1, 1, end - from
  {
    hide Filing, Hit;
    if Filing(mix, pos, i + 1, mix(hash, end - 1), error)[(pos, h)] >= 1 {
      var d := FiledHit(mix, pos, i + 1, mix(hash, end - 1), error, h);
      c := [end - 1] + d;
      assert c[1..] == d;
    } else {
      c := FiledHitBelow(mix, pos, i, hash, error, h, from, end - 1);
    }
  }

  /** Two entries go with two cells. */
  lemma {:induction false} FiledTwice(mix: Mix, pos: Coords, i: nat, hash: int, error: int, h: int)
    returns (c: seq<int>, d: seq<int>)
    requires i <= |pos| && error != 0 && Filing(mix, pos, i, hash, error)[(pos, h)] >= 2
    ensures c != d && Hit(mix, pos, i, hash, error, h, c) && Hit(mix, pos, i, hash, error, h, d)
    decreases |pos| - i, 0, 0
  {
    hide TruncDiv;
    c, d := FiledTwiceBelow(mix, pos, i, hash, error, h, TruncDiv(pos[i] - error, error),
                            TruncDiv(pos[i] + error, error) + 1);
    HitSplit(mix, pos, i, hash, error, h, c);
    HitSplit(mix, pos, i, hash, error, h, d);
  }

  lemma {:induction false} FiledTwiceBelow(mix: Mix, pos: Coords, i: nat, hash: int, error: int, h: int, from: int,
                                           end: int)
    returns (c: seq<int>, d: seq<int>)
    requires i < |pos| && error != 0 && FilingBelow(mix, pos, i, hash, error, from, end)[(pos, h)] >= 2
    ensures c != d && c != [] && from <= c[0] < end && Hit(mix, pos, i + 1, mix(hash, c[0]), error, h, c[1..])
    ensures d != [] && from <= d[0] < end && Hit(mix, pos, i + 1, mix(hash, d[0]), error, h, d[1..])
    decreases |pos| - i - 1, 1, end - from
  {
    hide Filing, Hit;
    var last := Filing(mix, pos, i + 1, mix(hash, end - 1), error)[(pos, h)];
    if last >= 2 {
      var c', d' := FiledTwice(mix, pos, i + 1, mix(hash, end - 1), error, h);
      c, d := [end - 1] + c', [end - 1] + d';
      assert c[1..] == c' && d[1..] == d';
    } else if last == 1 {
      var d' := FiledHit(mix, pos, i + 1, mix(hash, end - 1), error, h);
      d := [end - 1] + d';
      assert d[1..] == d';
      c := FiledHitBelow(mix, pos, i, hash, error, h, from, end - 1);
    } else {
      c, d := FiledTwiceBelow(mix, pos, i, hash, error, h, from, end - 1);
    }
  }

  /** Every cell hit has its entry. */
  lemma {:induction false} HitFiled(mix: Mix, pos: Coords, i: nat, hash: int, error: int, h: int, c: seq<int>)
    requires i <= |pos| && error != 0 && Hit(mix, pos, i, hash, error, h, c)
    ensures Filing(mix, pos, i, hash, error)[(pos, h)] >= 1
    decreases |pos| - i, 0, 0
  {
    if i < |pos| {
      hide TruncDiv;
      HitSplit(mix, pos, i, hash, error, h, c);
      HitFiledBelow(mix, pos, i, hash, error, h, TruncDiv(pos[i] - error, error),
                    TruncDiv(pos[i] + error, error) + 1, c);
    }
  }

  lemma {:induction false} HitFiledBelow(mix: Mix, pos: Coords, i: nat, hash: int, error: int, h: int, from: int,
                                         end: int,
                                         c: seq<int>)
    requires i < |pos| && error != 0 && c != [] && from <= c[0] < end
    requires Hit(mix, pos, i + 1, mix(hash, c[0]), error, h, c[1..])
    ensures FilingBelow(mix, pos, i, hash, error, from, end)[(pos, h)] >= 1
    decreases |pos| - i - 1, 1, end - from
  {
    hide Filing, Hit;
    if c[0] == end - 1 {
      HitFiled(mix, pos, i + 1, mix(hash, c[0]), error, h, c[1..]);
    } else {
      HitFiledBelow(mix, pos, i, hash, error, h, from, end - 1, c);
    }
  }

  /** Two cells have two entries. */
  lemma {:induction false} HitTwice(mix: Mix, pos: Coords, i: nat, hash: int, error: int, h: int, c: seq<int>,
                                    d: seq<int>)
    requires i <= |pos| && error != 0 && c != d
    requires Hit(mix, pos, i, hash, error, h, c) && Hit(mix, pos, i, hash, error, h, d)
    ensures Filing(mix, pos, i, hash, error)[(pos, h)] >= 2
    decreases |pos| - i, 0, 0
  {
    if i < |pos| {
      hide TruncDiv;
      HitSplit(mix, pos, i, hash, error, h, c);
      HitSplit(mix, pos, i, hash, error, h, d);
      HitTwiceBelow(mix, pos, i, hash, error, h, TruncDiv(pos[i] - error, error),
                    TruncDiv(pos[i] + error, error) + 1, c, d);
    }
  }

  lemma {:induction false} HitTwiceBelow(mix: Mix, pos: Coords, i: nat, hash: int, error: int, h: int, from: int,
                                         end: int,
                                         c: seq<int>, d: seq<int>)
    requires i < |pos| && error != 0 && c != d
    requires c != [] && from <= c[0] < end && Hit(mix, pos, i + 1, mix(hash, c[0]), error, h, c[1..])
    requires d != [] && from <= d[0] < end && Hit(mix, pos, i + 1, mix(hash, d[0]), error, h, d[1..])
    ensures FilingBelow(mix, pos, i, hash, error, from, end)[(pos, h)] >= 2
    decreases |pos| - i - 1, 1, end - from
  {
    hide Filing, Hit;
    if c[0] == end - 1 && d[0] == end - 1 {
      assert c == [c[0]] + c[1..] && d == [d[0]] + d[1..];
      HitTwice(mix, pos, i + 1, mix(hash, end - 1), error, h, c[1..], d[1..]);
    } else if c[0] == end - 1 {
      HitFiled(mix, pos, i + 1, mix(hash, c[0]), error, h, c[1..]);
      HitFiledBelow(mix, pos, i, hash, error, h, from, end - 1, d);
    } else if d[0] == end - 1 {
      HitFiled(mix, pos, i + 1, mix(hash, d[0]), error, h, d[1..]);
      HitFiledBelow(mix, pos, i, hash, error, h, from, end - 1, c);
    } else {
      HitTwiceBelow(mix, pos, i, hash, error, h, from, end - 1, c, d);
    }
  }

  // ----- Once -----

  /** Exactly one cell near pos has this hash. */
  ghost predicate OneHit(mix: Mix, pos: Coords, error: int, h: int)
    requires error != 0
  {
    exists c :: Hit(mix, pos, 0, 0, error, h, c) && forall d :: Hit(mix, pos, 0, 0, error, h, d) ==> d == c
  }

  lemma FiledOnceIff(mix: Mix, pos: Coords, error: int, h: int)
    requires error != 0
    ensures Filing(mix, pos, 0, 0, error)[(pos, h)] == 1 <==> OneHit(mix, pos, error, h)
  {
    hide Filing, Hit;
    if Filing(mix, pos, 0, 0, error)[(pos, h)] >= 2 {
      var c, d := FiledTwice(mix, pos, 0, 0, error, h);
    } else if Filing(mix, pos, 0, 0, error)[(pos, h)] == 1 {
      var c := FiledHit(mix, pos, 0, 0, error, h);
      forall d | Hit(mix, pos, 0, 0, error, h, d) ensures d == c {
        if d != c {
          HitTwice(mix, pos, 0, 0, error, h, c, d);
        }
      }
    }
    if OneHit(mix, pos, error, h) {
      var c :| Hit(mix, pos, 0, 0, error, h, c);
      HitFiled(mix, pos, 0, 0, error, h, c);
    }
  }

  /** A position is filed under itself only. */
  lemma {:induction false} FilingOwn(mix: Mix, pos: Coords, i: nat, hash: int, error: int, q: Coords, h: int)
    requires i <= |pos| && error != 0 && q != pos
    ensures Filing(mix, pos, i, hash, error)[(q, h)] == 0
    decreases |pos| - i, 0, 0
  {
    if i < |pos| {
      hide TruncDiv;
      FilingOwnBelow(mix, pos, i, hash, error, TruncDiv(pos[i] - error, error),
                     TruncDiv(pos[i] + error, error) + 1, q, h);
    }
  }

  lemma {:induction false} FilingOwnBelow(mix: Mix, pos: Coords, i: nat, hash: int, error: int, from: int, end: int,
                                          q: Coords, h: int)
    requires i < |pos| && error != 0 && q != pos
    ensures FilingBelow(mix, pos, i, hash, error, from, end)[(q, h)] == 0
    decreases |pos| - i - 1, 1, end - from
  {
    hide Filing;
    if from < end {
      FilingOwnBelow(mix, pos, i, hash, error, from, end - 1, q, h);
      FilingOwn(mix, pos, i + 1, mix(hash, end - 1), error, q, h);
    }
  }

  /** A catalog files a position as often as it holds it, each time under all its cells. */
  lemma {:induction false} FilingAllCount(mix: Mix, catalog: seq<Coords>, error: int, q: Coords, h: int)
    requires error != 0
    ensures FilingAll(mix, catalog, error)[(q, h)] == multiset(catalog)[q] * Filing(mix, q, 0, 0, error)[(q, h)]
  {
    hide Filing;
    if catalog != [] {
      var n := |catalog| - 1;
      var less, last, each := catalog[..n], catalog[n], Filing(mix, q, 0, 0, error)[(q, h)];
      FilingAllCount(mix, less, error, q, h);
      assert catalog == less + [last];
      if last == q {
        assert multiset(catalog)[q] == multiset(less)[q] + 1;
        assert (multiset(less)[q] + 1) * each == multiset(less)[q] * each + each;
      } else {
        assert multiset(catalog)[q] == multiset(less)[q];
        FilingOwn(mix, last, 0, 0, error, q, h);
      }
    }
  }

  /** A neighbour that the catalog holds once is recorded exactly once if and only if exactly one cell
      near it has the hash of the item's cell. */
  lemma RecordedOnceIff(tally: multiset<(Coords, int)>, mix: Mix, pattern: seq<Coords>, catalog: seq<Coords>,
                        error: int,
                        pos: Coords, n: nat)
    requires error != 0 && JoinedTimes(tally, mix, pattern, |pattern|, catalog, error)
    requires n < |pattern| && Neighbors(pattern[n], pos, error) && multiset(catalog)[pos] == 1
    ensures tally[(pos, n)] == 1 <==> OneHit(mix, pos, error, CellHash(mix, pattern[n], 0, 0, error))
  {
    hide FilingAll, Filing, OneHit, Neighbors, CellHash;
    var h := CellHash(mix, pattern[n], 0, 0, error);
    assert tally[(pos, n)] == Times(mix, pattern, |pattern|, catalog, error, pos, n);
    FilingAllCount(mix, catalog, error, pos, h);
    FiledOnceIff(mix, pos, error, h);
  }

  // ----- Twice -----

  /** With the source's hash the cells (471754, 524287) and (471755, 524288) hash alike. */
  lemma HashesAlike()
    ensures HashOf(HashStep, 0, [471754, 524287]) == HashOf(HashStep, 0, [471755, 524288]) == 471755890977
  {
    hide HashStep;
    Steps();
    assert HashOf(HashStep, 471754, [524287]) == HashOf(HashStep, 471755890977, []) by {
      assert [524287][1..] == [];
    }
    assert HashOf(HashStep, 471755, [524288]) == HashOf(HashStep, 471755890977, []) by {
      assert [524288][1..] == [];
    }
    assert [471754, 524287][1..] == [524287] && [471755, 524288][1..] == [524288];
  }

  lemma Steps()
    ensures HashStep(0, 471754) == 471754 && HashStep(471754, 524287) == 471755890977
    ensures HashStep(0, 471755) == 471755 && HashStep(471755, 524288) == 471755890977
  {
    hide Xor;
    XorZero(471754);
    XorZero(471755);
    Xors();
  }

  lemma Xors()
    ensures Xor(471755415262, 524287) == 471755890977
    ensures Xor(471756415265, 524288) == 471755890977
  {
    hide Xor;
    Power19();
    XorSplit(899802, 24286, 0, 524287, 19);
    XorRight(899802);
    XorOnes(24286, 19);
    XorSplit(899803, 500001, 1, 0, 19);
    XorRight(500001);
    XorLast(449901, 1);
  }

  function Pow2(k: nat): (m: nat)
    ensures m > 0
  {
    if k == 0 then 1 else 2 * Pow2(k - 1)
  }

  lemma Power19()
    ensures Pow2(19) == 524288
  {
    assert Pow2(4) == 16;
    assert Pow2(9) == 2 * Pow2(8) == 4 * Pow2(7) == 8 * Pow2(6) == 16 * Pow2(5) == 32 * Pow2(4);
    assert Pow2(14) == 2 * Pow2(13) == 4 * Pow2(12) == 8 * Pow2(11) == 16 * Pow2(10) == 32 * Pow2(9);
    assert Pow2(19) == 2 * Pow2(18) == 4 * Pow2(17) == 8 * Pow2(16) == 16 * Pow2(15) == 32 * Pow2(14);
  }

  /** The last bit and the bits before it. */
  lemma XorBit(a: nat, x: nat, b: nat, y: nat)
    requires x < 2 && y < 2
    ensures Xor(2 * a + x, 2 * b + y) == 2 * Xor(a, b) + (x + y) % 2
  {
    var s, r := 2 * a + x, 2 * b + y;
    Halves(a, x, b, y);
    if s == 0 && r == 0 {
      assert a == 0 && b == 0 && x == 0 && y == 0;
    } else {
      assert Xor(s, r) == 2 * Xor(s / 2, r / 2) + (s + r) % 2;
    }
  }

  lemma Halves(a: nat, x: nat, b: nat, y: nat)
    requires x < 2 && y < 2
    ensures (2 * a + x) / 2 == a && (2 * b + y) / 2 == b && (2 * a + x + (2 * b + y)) % 2 == (x + y) % 2
  {}

  lemma {:induction false} XorRight(x: nat)
    ensures Xor(x, 0) == x
  {
    if x > 0 {
      XorRight(x / 2);
    }
  }

  lemma XorLast(a: nat, x: nat)
    requires x < 2
    ensures Xor(2 * a + x, 1) == 2 * a + 1 - x
  {
    hide Xor;
    XorBit(a, x, 0, 1);
    XorRight(a);
  }

  /** Low and high bits go their own ways. */
  lemma {:induction false} XorSplit(a: nat, b: nat, c: nat, d: nat, k: nat)
    requires b < Pow2(k) && d < Pow2(k)
    ensures Xor(a * Pow2(k) + b, c * Pow2(k) + d) == Xor(a, c) * Pow2(k) + Xor(b, d)
    decreases k
  {
    hide Xor;
    if k == 0 {
      XorRight(0);
    } else {
      var m := Pow2(k - 1);
      XorSplit(a, b / 2, c, d / 2, k - 1);
      Doubling(a, m);
      Doubling(c, m);
      Doubling(Xor(a, c), m);
      XorBit(a * m + b / 2, b % 2, c * m + d / 2, d % 2);
      XorBit(b / 2, b % 2, d / 2, d % 2);
    }
  }

  lemma Doubling(a: nat, m: nat)
    ensures a * (2 * m) == 2 * (a * m)
  {}

  /** Against ones every bit flips. */
  lemma {:induction false} XorOnes(b: nat, k: nat)
    requires b < Pow2(k)
    ensures Xor(b, Pow2(k) - 1) == Pow2(k) - 1 - b
    decreases k
  {
    hide Xor;
    if k == 0 {
      XorRight(0);
    } else {
      XorOnes(b / 2, k - 1);
      XorBit(b / 2, b % 2, Pow2(k - 1) - 1, 1);
    }
  }

  /** So a catalog position in the first of these cells is filed twice under its own cell's hash, and
      recorded twice for a pattern item at the same place. */
  lemma RecordedTwice(tally: multiset<(Coords, int)>)
    requires JoinedTimes(tally, HashStep, [[471754, 524287]], 1, [[471754, 524287]], 1)
    ensures tally[([471754, 524287], 0)] >= 2
  {
    hide FilingAll, Filing, HashStep;
    var q, c, d := [471754, 524287], [471754, 524287], [471755, 524288];
    HashesAlike();
    assert Hit(HashStep, q, 0, 0, 1, 471755890977, c) && Hit(HashStep, q, 0, 0, 1, 471755890977, d);
    HitTwice(HashStep, q, 0, 0, 1, 471755890977, c, d);
    OwnHash();
    FilingAllCount(HashStep, [q], 1, q, 471755890977);
    assert multiset([q])[q] == 1;
    assert tally[(q, 0)] == Times(HashStep, [q], 1, [q], 1, q, 0);
  }

  lemma OwnHash()
    ensures CellHash(HashStep, [471754, 524287], 0, 0, 1) == 471755890977
  {
    hide HashStep;
    Steps();
    var q := [471754, 524287];
    assert CellHash(HashStep, q, 1, 471754, 1) == CellHash(HashStep, q, 2, 471755890977, 1);
  }
}
