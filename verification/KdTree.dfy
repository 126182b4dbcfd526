/** The k-d tree of kdTree_old/kdTree.cpp: built by sorting nested ranges of one array in place,
    searched with pruning. Coordinates are real numbers; rounding is not modelled. */
module KdTree {

  type Point = seq<real>

  /** A point with its position in the input. */
  datatype Item = Item(pt: Point, index: nat)

  datatype Tree = Leaf | Node(item: Item, left: Tree, right: Tree)

  ghost function Items(t: Tree): seq<Item> {
    match t
    case Leaf => []
    case Node(x, l, r) => Items(l) + [x] + Items(r)
  }

  lemma ItemsOfNode(t: Tree)
    requires t.Node?
    ensures forall y :: y in Items(t) <==> y == t.item || y in Items(t.left) || y in Items(t.right)
    ensures multiset(Items(t)) == multiset([t.item] + Items(t.left) + Items(t.right))
    ensures multiset(Items(t)) == multiset([t.item] + Items(t.right) + Items(t.left))
  {
    Reordered(Items(t.left), t.item, Items(t.right));
  }

  lemma Reordered(l: seq<Item>, x: Item, r: seq<Item>)
    ensures forall y :: y in l + [x] + r <==> y == x || y in l || y in r
    ensures multiset(l + [x] + r) == multiset([x] + l + r) == multiset([x] + r + l)
  {}

  lemma ItemsOfLeaf()
    ensures Items(Leaf) == []
  {}

  // ----- Distances (kdTree.cpp:68-75) -----

  function Square(x: real): real { x * x }

  /** The squared distance over the first n coordinates. */
  ghost function SumSquares(a: Point, b: Point, n: nat): real
    requires n <= |a| && n <= |b|
  {
    if n == 0 then 0.0 else SumSquares(a, b, n - 1) + Square(a[n - 1] - b[n - 1])
  }

  ghost function Dist2(a: Point, b: Point): real
    requires |a| == |b|
  {
    SumSquares(a, b, |a|)
  }

  method ComputeDist2(a: Point, b: Point) returns (d: real)
    requires |a| == |b|
    ensures d == Dist2(a, b)
  {
    d := 0.0;
    for i := 0 to |a|
      invariant d == SumSquares(a, b, i)
    {
      var di := a[i] - b[i];
      d := d + di * di;
    }
  }

  /** The squared distance of a point to itself is zero, and moving one coordinate changes it by the
      difference of the squares on that axis; so it is the sum of the squared differences. */
  lemma {:induction false} OneCoordinate(a: Point, b: Point, k: nat, x: real)
    requires k < |a| == |b|
    ensures Dist2(b, b) == 0.0
    ensures Dist2(a[k := x], b) - Dist2(a, b) == (x - b[k]) * (x - b[k]) - (a[k] - b[k]) * (a[k] - b[k])
  {
    SelfZero(b, |b|);
    Moved(a, b, k, x, |a|);
  }

  lemma {:induction false} SelfZero(b: Point, n: nat)
    requires n <= |b|
    ensures SumSquares(b, b, n) == 0.0
  {
    if n > 0 {
      SelfZero(b, n - 1);
    }
  }

  lemma {:induction false} Moved(a: Point, b: Point, k: nat, x: real, n: nat)
    requires k < |a| == |b| && n <= |a|
    ensures SumSquares(a[k := x], b, n) - SumSquares(a, b, n) ==
            if k < n then Square(x - b[k]) - Square(a[k] - b[k]) else 0.0
  {
    hide Square;
    if n > 0 {
      Moved(a, b, k, x, n - 1);
    }
  }

  lemma {:induction false} AxisBound(a: Point, b: Point, k: nat, n: nat)
    requires k < n <= |a| && n <= |b|
    ensures Square(a[k] - b[k]) <= SumSquares(a, b, n)
  {
    SumNonNegative(a, b, n - 1);
    SquareNonNegative(a[n - 1] - b[n - 1]);
    if k < n - 1 {
      AxisBound(a, b, k, n - 1);
    }
  }

  lemma SquareNonNegative(x: real)
    ensures Square(x) >= 0.0
  {}

  lemma {:induction false} SumNonNegative(a: Point, b: Point, n: nat)
    requires n <= |a| && n <= |b|
    ensures SumSquares(a, b, n) >= 0.0
  {
    if n > 0 {
      SumNonNegative(a, b, n - 1);
      SquareNonNegative(a[n - 1] - b[n - 1]);
    }
  }

  /** No item beyond the splitting plane is nearer than the plane. */
  lemma Pruned(x: Item, beyond: seq<Item>, pt: Point, level: nat)
    requires level < |pt| && |x.pt| == |pt| && AllOfDim(beyond, |pt|)
    requires (x.pt[level] - pt[level] > 0.0 && forall y :: y in beyond ==> Coord(x, level) <= Coord(y, level))
          || (x.pt[level] - pt[level] <= 0.0 && forall y :: y in beyond ==> Coord(y, level) <= Coord(x, level))
    ensures forall y :: y in beyond ==> Square(x.pt[level] - pt[level]) <= Dist2(y.pt, pt)
  {
    forall y | y in beyond ensures Square(x.pt[level] - pt[level]) <= Dist2(y.pt, pt) {
      BeyondPlane(y.pt, x.pt[level], pt, level);
    }
  }

  /** A point beyond the splitting plane is at least as far as the plane. */
  lemma BeyondPlane(q: Point, plane: real, pt: Point, k: nat)
    requires k < |q| == |pt|
    requires (plane - pt[k] > 0.0 && q[k] >= plane) || (plane - pt[k] <= 0.0 && q[k] <= plane)
    ensures Square(plane - pt[k]) <= Dist2(q, pt)
  {
    AxisBound(q, pt, k, |q|);
    SquareMonotone(plane - pt[k], q[k] - pt[k]);
  }

  /** A point within the radius that is not straight along one axis from the query at exactly the
      radius. */
  ghost predicate Inner(q: Point, pt: Point, r2: real)
    requires |q| == |pt|
  {
    Dist2(q, pt) <= r2 && forall k :: 0 <= k < |q| ==> Square(q[k] - pt[k]) < r2
  }

  /** In particular every point strictly closer than the radius. */
  lemma CloserIsInner(q: Point, pt: Point, r2: real)
    requires |q| == |pt| && Dist2(q, pt) < r2
    ensures Inner(q, pt, r2)
  {
    hide Square;
    forall k | 0 <= k < |q| ensures Square(q[k] - pt[k]) < r2 {
      AxisBound(q, pt, k, |q|);
    }
  }

  /** No inner item lies beyond a splitting plane that is not nearer than the radius. */
  lemma NoneInner(x: Item, beyond: seq<Item>, pt: Point, level: nat, r2: real)
    requires level < |pt| && |x.pt| == |pt| && AllOfDim(beyond, |pt|) && Square(x.pt[level] - pt[level]) >= r2
    requires (x.pt[level] - pt[level] > 0.0 && forall y :: y in beyond ==> Coord(x, level) <= Coord(y, level))
          || (x.pt[level] - pt[level] <= 0.0 && forall y :: y in beyond ==> Coord(y, level) <= Coord(x, level))
    ensures forall y :: y in beyond ==> !Inner(y.pt, pt, r2)
  {
    hide Dist2;
    forall y | y in beyond ensures !Inner(y.pt, pt, r2) {
      SquareMonotone(x.pt[level] - pt[level], y.pt[level] - pt[level]);
    }
  }

  lemma SquareMonotone(x: real, y: real)
    requires (0.0 <= x <= y) || (y <= x <= 0.0)
    ensures Square(x) <= Square(y)
  {
    if 0.0 <= x {
      assert x * x <= x * y <= y * y;
    } else {
      assert (-x) * (-x) <= (-x) * (-y) <= (-y) * (-y);
    }
  }

  // ----- Building (kdTree.cpp:81-160) -----

  function Coord(x: Item, axis: nat): real { if axis < |x.pt| then x.pt[axis] else 0.0 }

  /** The range is sorted on one axis. */
  ghost predicate SortedOn(s: seq<Item>, lo: nat, hi: nat, axis: nat)
    requires lo <= hi <= |s|
  {
    forall i, j :: lo <= i < j < hi ==> Coord(s[i], axis) <= Coord(s[j], axis)
  }

  /** t rearranges a range of s and leaves the rest alone. */
  ghost predicate Rearranged(s: seq<Item>, t: seq<Item>, lo: nat, hi: nat) {
    && |s| == |t| && lo <= hi <= |s| && multiset(s) == multiset(t)
    && forall k :: 0 <= k < |s| && !(lo <= k < hi) ==> s[k] == t[k]
  }

  function Swapped(s: seq<Item>, i: nat, j: nat): seq<Item>
    requires i < |s| && j < |s|
  {
    s[i := s[j]][j := s[i]]
  }

  lemma SwapRearranges(s: seq<Item>, i: nat, j: nat, lo: nat, hi: nat)
    requires lo <= i < j < hi <= |s|
    ensures Rearranged(s, Swapped(s, i, j), lo, hi)
  {}

  lemma RearrangedSelf(s: seq<Item>, lo: nat, hi: nat)
    requires lo <= hi <= |s|
    ensures Rearranged(s, s, lo, hi)
  {}

  lemma RearrangedTwice(s: seq<Item>, t: seq<Item>, u: seq<Item>, lo: nat, hi: nat)
    requires Rearranged(s, t, lo, hi) && Rearranged(t, u, lo, hi)
    ensures Rearranged(s, u, lo, hi)
  {}

  lemma Widen(s: seq<Item>, t: seq<Item>, lo: nat, hi: nat, lo': nat, hi': nat)
    requires Rearranged(s, t, lo, hi) && lo' <= lo && hi <= hi' <= |s|
    ensures Rearranged(s, t, lo', hi')
  {}

  lemma Count3(s: seq<Item>, lo: nat, hi: nat, y: Item)
    requires lo <= hi <= |s|
    ensures multiset(s)[y] == multiset(s[..lo])[y] + multiset(s[lo..hi])[y] + multiset(s[hi..])[y]
  {
    assert s == s[..lo] + s[lo..hi] + s[hi..];
  }

  lemma SameOutside(s: seq<Item>, t: seq<Item>, lo: nat, hi: nat)
    requires Rearranged(s, t, lo, hi)
    ensures s[..lo] == t[..lo] && s[hi..] == t[hi..] && multiset(s) == multiset(t)
  {}

  /** Every item of a rearranged range was in it before. */
  lemma Inside(s: seq<Item>, t: seq<Item>, lo: nat, hi: nat, y: Item) returns (k: nat)
    requires Rearranged(s, t, lo, hi) && y in t[lo..hi]
    ensures lo <= k < hi && s[k] == y
  {
    SameOutside(s, t, lo, hi);
    Count3(s, lo, hi, y);
    Count3(t, lo, hi, y);
    assert y in multiset(t[lo..hi]) && y in multiset(s[lo..hi]);
    var b := s[lo..hi];
    assert y in b;
    var i :| 0 <= i < hi - lo && b[i] == y;
    k := lo + i;
  }

  /** Sorted up to i, but for the item at j, which may belong further down. */
  ghost predicate Gapped(s: seq<Item>, lo: nat, i: nat, j: nat, axis: nat)
    requires i < |s|
  {
    forall p, q :: lo <= p < q <= i && q != j ==> Coord(s[p], axis) <= Coord(s[q], axis)
  }

  lemma GapMoves(s: seq<Item>, lo: nat, i: nat, j: nat, axis: nat)
    requires lo < j <= i < |s| && Gapped(s, lo, i, j, axis) && Coord(s[j], axis) < Coord(s[j - 1], axis)
    ensures Gapped(Swapped(s, j - 1, j), lo, i, j - 1, axis)
  {
    hide Coord;
  }

  lemma GapCloses(s: seq<Item>, lo: nat, i: nat, j: nat, axis: nat)
    requires lo <= j <= i < |s| && Gapped(s, lo, i, j, axis)
    requires j > lo ==> Coord(s[j - 1], axis) <= Coord(s[j], axis)
    ensures SortedOn(s, lo, i + 1, axis)
  {
    hide Coord;
    forall p, q | lo <= p < q < i + 1 ensures Coord(s[p], axis) <= Coord(s[q], axis) {
      if q == j && p < j - 1 {
        assert Coord(s[p], axis) <= Coord(s[j - 1], axis);
      }
    }
  }

  method Swap(a: array<Item>, i: nat, j: nat)
    requires i < j < a.Length
    modifies a
    ensures a[..] == Swapped(old(a[..]), i, j)
  {
    a[i], a[j] := a[j], a[i];
  }

  /** Moves the item at i down to its place in the sorted range before it. */
  method InsertOnIdx(a: array<Item>, lo: nat, i: nat, hi: nat, axis: nat)
    requires lo <= i < hi <= a.Length && SortedOn(a[..], lo, i, axis)
    modifies a
    ensures Rearranged(old(a[..]), a[..], lo, hi) && SortedOn(a[..], lo, i + 1, axis)
  {
    hide Coord, Rearranged, Gapped, SortedOn, Swapped;
    RearrangedSelf(a[..], lo, hi);
    GapOpens(a[..], lo, i, axis);
    var j := i;
    while j > lo && Coord(a[j], axis) < Coord(a[j - 1], axis)
      invariant lo <= j <= i && Gapped(a[..], lo, i, j, axis)
      invariant Rearranged(old(a[..]), a[..], lo, hi)
    {
      ghost var s := a[..];
      Swap(a, j - 1, j);
      GapMoves(s, lo, i, j, axis);
      SwapRearranges(s, j - 1, j, lo, hi);
      RearrangedTwice(old(a[..]), s, a[..], lo, hi);
      j := j - 1;
    }
    GapCloses(a[..], lo, i, j, axis);
  }

  lemma GapOpens(s: seq<Item>, lo: nat, i: nat, axis: nat)
    requires lo <= i < |s| && SortedOn(s, lo, i, axis)
    ensures Gapped(s, lo, i, i, axis)
  {}

  /** `std::sort` on one coordinate of a range. */
  method SortOnIdx(a: array<Item>, lo: nat, hi: nat, axis: nat)
    requires lo <= hi <= a.Length
    modifies a
    ensures Rearranged(old(a[..]), a[..], lo, hi) && SortedOn(a[..], lo, hi, axis)
  {
    hide Coord, Rearranged, SortedOn;
    RearrangedSelf(a[..], lo, hi);
    EmptySorted(a[..], lo, axis);
    for i := lo to hi
      invariant Rearranged(old(a[..]), a[..], lo, hi) && SortedOn(a[..], lo, i, axis)
    {
      ghost var s := a[..];
      InsertOnIdx(a, lo, i, hi, axis);
      RearrangedTwice(old(a[..]), s, a[..], lo, hi);
    }
  }

  /** At every node the left items lie at or below it and the right items at or above it, on the
      axis of its level. */
  ghost predicate Ordered(t: Tree, level: nat, dim: nat)
    requires 0 < dim
  {
    match t
    case Leaf => true
    case Node(x, l, r) =>
      && (forall y :: y in Items(l) ==> Coord(y, level) <= Coord(x, level))
      && (forall y :: y in Items(r) ==> Coord(x, level) <= Coord(y, level))
      && Ordered(l, (level + 1) % dim, dim)
      && Ordered(r, (level + 1) % dim, dim)
  }

  function Height(t: Tree): nat {
    match t
    case Leaf => 0
    case Node(_, l, r) => 1 + if Height(l) > Height(r) then Height(l) else Height(r)
  }

  function Pow2(n: nat): nat { if n == 0 then 1 else 2 * Pow2(n - 1) }

  /** The tree has logarithmic height. */
  ghost predicate Shallow(t: Tree) { t.Node? ==> Pow2(Height(t) - 1) <= |Items(t)| }

  /** A node over two halves. */
  lemma ShallowNode(x: Item, l: Tree, r: Tree)
    requires Shallow(l) && Shallow(r) && |Items(r)| <= |Items(l)| <= |Items(r)| + 1
    ensures Shallow(Node(x, l, r))
  {
    hide Items, Pow2;
    Doubled(l);
    Doubled(r);
    NodeCount(x, l, r);
  }

  lemma Doubled(t: Tree)
    requires Shallow(t)
    ensures t.Leaf? ==> |Items(t)| == 0 && Pow2(Height(t)) == 1
    ensures t.Node? ==> 1 <= |Items(t)| && Pow2(Height(t)) <= 2 * |Items(t)|
  {
    hide Items;
    if t.Node? {
      NodeCount(t.item, t.left, t.right);
    } else {
      ItemsOfLeaf();
    }
  }

  lemma NodeCount(x: Item, l: Tree, r: Tree)
    ensures |Items(Node(x, l, r))| == |Items(l)| + 1 + |Items(r)|
  {}

  /** Sorting a range and then rearranging its two halves separately leaves the middle item in
      place, with smaller items before it and larger ones behind it. */
  lemma Halves(s1: seq<Item>, s2: seq<Item>, s3: seq<Item>, lo: nat, mid: nat, hi: nat, axis: nat)
    requires lo <= mid < hi <= |s1| && SortedOn(s1, lo, hi, axis)
    requires Rearranged(s1, s2, lo, mid) && Rearranged(s2, s3, mid + 1, hi)
    ensures forall y :: y in s2[lo..mid] ==> Coord(y, axis) <= Coord(s1[mid], axis)
    ensures forall y :: y in s3[mid + 1..hi] ==> Coord(s1[mid], axis) <= Coord(y, axis)
  {
    forall y | y in s2[lo..mid] ensures Coord(y, axis) <= Coord(s1[mid], axis) {
      var k := Inside(s1, s2, lo, mid, y);
    }
    forall y | y in s3[mid + 1..hi] ensures Coord(s1[mid], axis) <= Coord(y, axis) {
      var k := Inside(s2, s3, mid + 1, hi, y);
      assert s1[k] == s2[k];
    }
  }

  lemma Regrouped(s1: seq<Item>, s2: seq<Item>, s3: seq<Item>, lo: nat, mid: nat, hi: nat)
    requires lo <= mid < hi <= |s1|
    requires Rearranged(s1, s2, lo, mid) && Rearranged(s2, s3, mid + 1, hi)
    ensures Rearranged(s1, s3, lo, hi) && s3[mid] == s1[mid]
    ensures s3[lo..hi] == s2[lo..mid] + [s3[mid]] + s3[mid + 1..hi]
  {
    Widen(s1, s2, lo, mid, lo, hi);
    Widen(s2, s3, mid + 1, hi, lo, hi);
    RearrangedTwice(s1, s2, s3, lo, hi);
    assert s1[mid] == s2[mid] == s3[mid];
    assert s3[lo..mid] == s2[lo..mid];
    assert s3[lo..hi] == s3[lo..mid] + [s3[mid]] + s3[mid + 1..hi];
  }

  /** Builds the tree of a range; read in order, its items are the range it leaves behind. */
  method MakeTree(a: array<Item>, begin: nat, end: nat, level: nat, dim: nat) returns (t: Tree)
    requires begin <= end <= a.Length && 0 < dim
    modifies a
    ensures Rearranged(old(a[..]), a[..], begin, end) && Items(t) == a[begin..end]
    ensures Ordered(t, level, dim) && Shallow(t)
    decreases end - begin
  {
    hide Rearranged, SortedOn, Coord, Shallow, Ordered, Items;
    if begin == end {
      RearrangedSelf(a[..], begin, end);
      ShallowLeaf();
      LeafBuilt(level, dim);
      return Leaf;
    }
    var length := end - begin;
    ghost var s0 := a[..];
    if length > 1 {
      SortOnIdx(a, begin, end, level);
    } else {
      SingleSorted(s0, begin, level);
    }
    ghost var s1 := a[..];
    var middle := begin + length / 2;
    var left, right := Leaf, Leaf;
    RearrangedSelf(s1, begin, middle);
    ShallowLeaf();
    LeafBuilt((level + 1) % dim, dim);
    if length / 2 > 0 {
      left := MakeTree(a, begin, middle, (level + 1) % dim, dim);
    }
    ghost var s2 := a[..];
    RearrangedSelf(s2, middle + 1, end);
    if length - length / 2 - 1 > 0 {
      right := MakeTree(a, middle + 1, end, (level + 1) % dim, dim);
    }
    Regrouped(s1, s2, a[..], begin, middle, end);
    RearrangedTwice(s0, s1, a[..], begin, end);
    Halves(s1, s2, a[..], begin, middle, end, level);
    ShallowNode(a[middle], left, right);
    t := Node(a[middle], left, right);
    NodeBuilt(a[middle], left, right, level, dim);
  }

  lemma LeafBuilt(level: nat, dim: nat)
    requires 0 < dim
    ensures Items(Leaf) == [] && Ordered(Leaf, level, dim)
  {}

  lemma NodeBuilt(x: Item, l: Tree, r: Tree, level: nat, dim: nat)
    requires 0 < dim && Ordered(l, (level + 1) % dim, dim) && Ordered(r, (level + 1) % dim, dim)
    requires forall y :: y in Items(l) ==> Coord(y, level) <= Coord(x, level)
    requires forall y :: y in Items(r) ==> Coord(x, level) <= Coord(y, level)
    ensures Items(Node(x, l, r)) == Items(l) + [x] + Items(r) && Ordered(Node(x, l, r), level, dim)
  {}

  lemma EmptySorted(s: seq<Item>, i: nat, axis: nat)
    requires i <= |s|
    ensures SortedOn(s, i, i, axis)
  {}

  lemma SingleSorted(s: seq<Item>, i: nat, axis: nat)
    requires i < |s|
    ensures Rearranged(s, s, i, i + 1) && SortedOn(s, i, i + 1, axis)
  {}

  lemma ShallowLeaf()
    ensures Shallow(Leaf)
  {}

  // ----- Nearest neighbour (kdTree.cpp:162-237) -----

  ghost predicate AllOfDim(items: seq<Item>, dim: nat) { forall y :: y in items ==> |y.pt| == dim }

  /** The descent keeps the better of the best so far and the nearest item of the branch. */
  method NearestBranch(branch: Tree, pt: Point, level: nat, best: Tree, bestDist: real) returns (r: Tree)
    requires level < |pt| && AllOfDim(Items(branch), |pt|) && Ordered(branch, level, |pt|)
    requires best.Node? && |best.item.pt| == |pt| && bestDist == Dist2(best.item.pt, pt)
    ensures branch.Leaf? ==> r.Leaf?
    ensures branch.Node? ==>
              && r.Node? && (r == best || r.item in Items(branch)) && |r.item.pt| == |pt|
              && Dist2(r.item.pt, pt) <= bestDist
              && forall y :: y in Items(branch) ==> Dist2(r.item.pt, pt) <= Dist2(y.pt, pt)
    decreases branch
  {
    hide Dist2, Square, Coord, Items;
    ItemsOfLeaf();
    if branch.Leaf? {
      return Leaf;
    }
    var x := branch.item;
    ItemsOfNode(branch);
    var d := ComputeDist2(x.pt, pt);
    var dx := x.pt[level] - pt[level];
    var dx2 := Square(dx);
    var bestL, bestDistL := best, bestDist;
    if d < bestDist {
      bestDistL := d;
      bestL := branch;
    }
    var nextLevel := (level + 1) % |x.pt|;
    var section, other := branch.right, branch.left;
    if dx > 0.0 {
      section, other := branch.left, branch.right;
    }
    var further := NearestBranch(section, pt, nextLevel, bestL, bestDistL);
    if further.Node? {
      var dl := ComputeDist2(further.item.pt, pt);
      if dl < bestDistL {
        bestDistL := dl;
        bestL := further;
      }
    }
    if dx2 < bestDistL {
      further := NearestBranch(other, pt, nextLevel, bestL, bestDistL);
      if further.Node? {
        var dl := ComputeDist2(further.item.pt, pt);
        if dl < bestDistL {
          bestDistL := dl;
          bestL := further;
        }
      }
    } else {
      Pruned(x, Items(other), pt, level);
    }
    r := bestL;
  }

  // ----- Neighbourhood (kdTree.cpp:251-297) -----

  /** Every inner item as often as it is stored, and no item beyond the radius. */
  ghost predicate Within(found: seq<Item>, stored: seq<Item>, pt: Point, r2: real)
    requires AllOfDim(stored, |pt|)
  {
    && multiset(found) <= multiset(stored)
    && (forall y :: y in stored && y in found ==> Dist2(y.pt, pt) <= r2)
    && (forall y :: y in stored && Inner(y.pt, pt, r2) ==> multiset(found)[y] == multiset(stored)[y])
  }

  /** The side of the splitting plane the query lies on, and the other side. */
  function Section(branch: Tree, pt: Point, level: nat): Tree
    requires branch.Node? && level < |pt|
  {
    if Coord(branch.item, level) - pt[level] > 0.0 then branch.left else branch.right
  }

  function Other(branch: Tree, pt: Point, level: nat): Tree
    requires branch.Node? && level < |pt|
  {
    if Coord(branch.item, level) - pt[level] > 0.0 then branch.right else branch.left
  }

  lemma SidesAre(branch: Tree, pt: Point, level: nat)
    requires branch.Node? && level < |pt| && |branch.item.pt| == |pt|
    ensures var dx := branch.item.pt[level] - pt[level];
            Section(branch, pt, level) == (if dx > 0.0 then branch.left else branch.right)
            && Other(branch, pt, level) == (if dx > 0.0 then branch.right else branch.left)
  {}

  /** The descent comes by the item: it skips the other side of a plane that is not nearer than the
      radius. */
  ghost predicate Visited(branch: Tree, y: Item, pt: Point, level: nat, r2: real)
    requires level < |pt| && AllOfDim(Items(branch), |pt|)
    ensures Visited(branch, y, pt, level, r2) ==> y in Items(branch)
    decreases branch
  {
    branch.Node? &&
    (|| y == branch.item
     || Visited(Section(branch, pt, level), y, pt, (level + 1) % |pt|, r2)
     || (Square(branch.item.pt[level] - pt[level]) < r2
         && Visited(Other(branch, pt, level), y, pt, (level + 1) % |pt|, r2)))
  }

  method NeighborhoodBranch(branch: Tree, pt: Point, rad: real, level: nat) returns (nbh: seq<Item>)
    requires level < |pt| && AllOfDim(Items(branch), |pt|) && Ordered(branch, level, |pt|)
    ensures Within(nbh, Items(branch), pt, rad * rad)
    ensures forall y :: y in nbh <==> Visited(branch, y, pt, level, rad * rad) && Dist2(y.pt, pt) <= rad * rad
    decreases branch
  {
    hide Dist2, Square, Items, Inner, Within, Coord, Section, Other;
    ItemsOfLeaf();
    if branch.Leaf? {
      NoneWithin([], pt, rad * rad);
      return [];
    }
    var dim := |pt|;
    var r2 := rad * rad;
    var x := branch.item;
    ItemsOfNode(branch);
    SidesAre(branch, pt, level);
    var d := ComputeDist2(x.pt, pt);
    var dx := x.pt[level] - pt[level];
    var dx2 := Square(dx);
    nbh := [];
    if d <= r2 {
      nbh := nbh + [x];
    }
    var section, other := branch.right, branch.left;
    if dx > 0.0 {
      section, other := branch.left, branch.right;
    }
    var s := NeighborhoodBranch(section, pt, rad, (level + 1) % dim);
    var o := [];
    if dx2 < r2 {
      o := NeighborhoodBranch(other, pt, rad, (level + 1) % dim);
    } else {
      NoneInner(x, Items(other), pt, level, r2);
      NoneWithin(Items(other), pt, r2);
    }
    WithinJoined(nbh, s, o, x, Items(section), Items(other), pt, r2);
    nbh := nbh + s + o;
    WithinSame(nbh, [x] + Items(section) + Items(other), Items(branch), pt, r2);
  }

  // ----- What is skipped -----

  /** No item occurs twice. */
  ghost predicate Once(items: seq<Item>) { forall y :: multiset(items)[y] <= 1 }

  lemma OnceNode(t: Tree)
    requires t.Node? && Once(Items(t))
    ensures Once(Items(t.left)) && Once(Items(t.right))
    ensures t.item !in Items(t.left) && t.item !in Items(t.right)
    ensures forall y :: y in Items(t.left) ==> y !in Items(t.right)
  {
    hide Items;
    ItemsOfNode(t);
    var x, l, r := t.item, Items(t.left), Items(t.right);
    assert multiset([x] + l + r) == multiset{x} + multiset(l) + multiset(r);
    forall y ensures multiset(l)[y] + multiset(r)[y] + multiset{x}[y] <= 1 {
      assert multiset(Items(t))[y] == multiset{x}[y] + multiset(l)[y] + multiset(r)[y];
    }
    assert forall y :: y in l ==> multiset(l)[y] >= 1;
    assert forall y :: y in r ==> multiset(r)[y] >= 1;
  }

  /** The item lies on the other side of the plane of this node, in the plane, and exactly the radius
      away on its axis. */
  ghost predicate MaskedHere(branch: Tree, y: Item, pt: Point, level: nat, r2: real)
    requires branch.Node? && level < |pt| && AllOfDim(Items(branch), |pt|)
  {
    && y in Items(Other(branch, pt, level)) && y in Items(branch)
    && y.pt[level] == branch.item.pt[level] && Square(y.pt[level] - pt[level]) == r2
  }

  ghost predicate Masked(branch: Tree, y: Item, pt: Point, level: nat, r2: real)
    requires level < |pt| && AllOfDim(Items(branch), |pt|)
    decreases branch
  {
    branch.Node? &&
    (|| MaskedHere(branch, y, pt, level, r2)
     || (y in Items(branch.left) && Masked(branch.left, y, pt, (level + 1) % |pt|, r2))
     || (y in Items(branch.right) && Masked(branch.right, y, pt, (level + 1) % |pt|, r2)))
  }

  lemma FartherSquare(a: real, b: real)
    requires (0.0 < a < b) || (b < a <= 0.0)
    ensures Square(a) < Square(b)
  {
    var u, v := if a > 0.0 then b - a else a - b, if a > 0.0 then b + a else 0.0 - b - a;
    assert u > 0.0 && v > 0.0;
    assert Square(b) - Square(a) == u * v;
  }

  /** A point within the radius beyond a plane that is not nearer than the radius lies in that plane. */
  lemma AtPlane(q: Point, plane: real, pt: Point, k: nat, r2: real)
    requires k < |q| == |pt| && Dist2(q, pt) <= r2 <= Square(plane - pt[k])
    requires (plane - pt[k] > 0.0 && q[k] >= plane) || (plane - pt[k] <= 0.0 && q[k] <= plane)
    ensures q[k] == plane && Square(q[k] - pt[k]) == r2
  {
    hide Square;
    AxisBound(q, pt, k, |q|);
    if q[k] != plane {
      FartherSquare(plane - pt[k], q[k] - pt[k]);
    }
  }

  lemma OnOtherSide(branch: Tree, y: Item, pt: Point, level: nat)
    requires branch.Node? && level < |pt| && AllOfDim(Items(branch), |pt|) && Ordered(branch, level, |pt|)
    requires y in Items(Other(branch, pt, level))
    ensures |branch.item.pt| == |y.pt| == |pt|
    ensures var plane := branch.item.pt[level];
            (plane - pt[level] > 0.0 && y.pt[level] >= plane) || (plane - pt[level] <= 0.0 && y.pt[level] <= plane)
  {
    hide Items;
    ItemsOfNode(branch);
  }

  /** On the other side of a node's plane. */
  lemma OtherSide(branch: Tree, y: Item, pt: Point, level: nat, r2: real)
    requires branch.Node? && level < |pt| && AllOfDim(Items(branch), |pt|) && Ordered(branch, level, |pt|)
    requires y in Items(Other(branch, pt, level)) && y in Items(branch) && Dist2(y.pt, pt) <= r2
    ensures |branch.item.pt| == |pt|
    ensures MaskedHere(branch, y, pt, level, r2) <==> Square(branch.item.pt[level] - pt[level]) >= r2
  {
    hide Dist2, Square, Items, Ordered, Other, Coord;
    OnOtherSide(branch, y, pt, level);
    var plane := branch.item.pt[level];
    if Square(plane - pt[level]) >= r2 {
      AtPlane(y.pt, plane, pt, level, r2);
    }
  }

  /** Where no item is stored twice, an item within the radius is skipped if and only if it is masked. */
  lemma {:induction false} VisitedIff(branch: Tree, y: Item, pt: Point, level: nat, r2: real)
    requires level < |pt| && AllOfDim(Items(branch), |pt|) && Ordered(branch, level, |pt|)
    requires Once(Items(branch)) && y in Items(branch) && Dist2(y.pt, pt) <= r2
    ensures Visited(branch, y, pt, level, r2) <==> !Masked(branch, y, pt, level, r2)
    decreases branch
  {
    hide Dist2, Square, Items, Once, Coord;
    ItemsOfLeaf();
    if branch.Node? {
      ItemsOfNode(branch);
      OnceNode(branch);
      if y in Items(branch.left) {
        VisitedIff(branch.left, y, pt, (level + 1) % |pt|, r2);
      } else if y in Items(branch.right) {
        VisitedIff(branch.right, y, pt, (level + 1) % |pt|, r2);
      }
      if y in Items(Other(branch, pt, level)) {
        OtherSide(branch, y, pt, level, r2);
      }
    }
  }

  /** Another point with the same coordinate on some axis, on which this one is exactly the radius away. */
  ghost predicate Shadow(x: Point, y: Point, pt: Point, r2: real) {
    exists k :: 0 <= k < |pt| && k < |x| && k < |y| && x[k] == y[k] && Square(y[k] - pt[k]) == r2
  }

  /** Only such a point masks. */
  lemma {:induction false} MaskedBy(branch: Tree, y: Item, pt: Point, level: nat, r2: real) returns (x: Item)
    requires level < |pt| && AllOfDim(Items(branch), |pt|) && Once(Items(branch))
    requires Masked(branch, y, pt, level, r2)
    ensures x in Items(branch) && x != y && Shadow(x.pt, y.pt, pt, r2)
    decreases branch
  {
    hide Square, Items, Once, Coord;
    ItemsOfNode(branch);
    OnceNode(branch);
    if MaskedHere(branch, y, pt, level, r2) {
      x := branch.item;
    } else if y in Items(branch.left) && Masked(branch.left, y, pt, (level + 1) % |pt|, r2) {
      x := MaskedBy(branch.left, y, pt, (level + 1) % |pt|, r2);
    } else {
      x := MaskedBy(branch.right, y, pt, (level + 1) % |pt|, r2);
    }
  }

  lemma NoneWithin(stored: seq<Item>, pt: Point, r2: real)
    requires AllOfDim(stored, |pt|) && forall y :: y in stored ==> !Inner(y.pt, pt, r2)
    ensures Within([], stored, pt, r2)
  {
    hide Dist2, Inner;
  }

  lemma WithinJoined(n: seq<Item>, s: seq<Item>, o: seq<Item>, x: Item, a: seq<Item>, b: seq<Item>, pt: Point, r2: real)
    requires |x.pt| == |pt| && AllOfDim(a, |pt|) && AllOfDim(b, |pt|)
    requires n == if Dist2(x.pt, pt) <= r2 then [x] else []
    requires Within(s, a, pt, r2) && Within(o, b, pt, r2)
    ensures Within(n + s + o, [x] + a + b, pt, r2)
  {
    hide Dist2, Inner;
    var found, stored := n + s + o, [x] + a + b;
    assert multiset(found) == multiset(n) + multiset(s) + multiset(o);
    assert multiset(stored) == multiset{x} + multiset(a) + multiset(b);
    forall y | y in stored && Inner(y.pt, pt, r2) ensures multiset(found)[y] == multiset(stored)[y] {
      InnerClose(y.pt, pt, r2);
      assert multiset(n)[y] == multiset{x}[y];
      assert y !in a ==> multiset(s)[y] == 0;
      assert y !in b ==> multiset(o)[y] == 0;
    }
    forall y | y in stored && y in found ensures Dist2(y.pt, pt) <= r2 {
      assert y in s ==> y in multiset(a);
      assert y in o ==> y in multiset(b);
    }
  }

  lemma InnerClose(q: Point, pt: Point, r2: real)
    requires |q| == |pt| && Inner(q, pt, r2)
    ensures Dist2(q, pt) <= r2
  {}

  lemma WithinSame(found: seq<Item>, stored: seq<Item>, stored': seq<Item>, pt: Point, r2: real)
    requires AllOfDim(stored, |pt|) && Within(found, stored, pt, r2) && multiset(stored) == multiset(stored')
    ensures AllOfDim(stored', |pt|) && Within(found, stored', pt, r2)
  {
    hide Dist2, Inner;
    assert forall y :: y in stored' ==> y in multiset(stored') ;
    assert forall y :: y in multiset(stored) ==> y in stored;
  }

  // ----- The tree over a list of points (kdTree.cpp:145-160, 228-249, 299-328) -----

  ghost function Pairs(points: seq<Point>): seq<Item> {
    seq(|points|, i requires 0 <= i < |points| => Item(points[i], i))
  }

  class KDTree {
    var root: Tree
    ghost var points: seq<Point>
    ghost var dim: nat

    /** The root holds every point with its index exactly once, in k-d order. */
    ghost predicate Valid()
      reads this
    {
      && 0 < dim && (forall p :: p in points ==> |p| == dim)
      && multiset(Items(root)) == multiset(Pairs(points))
      && Ordered(root, 0, dim)
    }

    constructor (pointArray: seq<Point>, ghost dim: nat)
      requires 0 < dim && forall p :: p in pointArray ==> |p| == dim
      ensures Valid() && points == pointArray && this.dim == dim
      ensures Shallow(root)
    {
      points := pointArray;
      this.dim := dim;
      var arr := new Item[|pointArray|](i requires 0 <= i < |pointArray| => Item(pointArray[i], i));
      var t := Leaf;
      assert arr[..] == Pairs(pointArray);
      if |pointArray| > 0 {
        t := MakeTree(arr, 0, arr.Length, 0, |pointArray[0]|);
        assert arr[0..arr.Length] == arr[..];
      } else {
        ShallowLeaf();
      }
      root := t;
    }

    /** Any stored item is an input point under its own index, and every input point is stored. */
    lemma Stored()
      requires Valid()
      ensures AllOfDim(Items(root), dim)
      ensures forall y :: y in Items(root) ==> y.index < |points| && y.pt == points[y.index]
      ensures forall i :: 0 <= i < |points| ==> Item(points[i], i) in Items(root)
    {
      forall y | y in Items(root) ensures y.index < |points| && y.pt == points[y.index] && |y.pt| == dim {
        assert y in multiset(Items(root));
        assert y in Pairs(points);
      }
      forall i | 0 <= i < |points| ensures Item(points[i], i) in Items(root) {
        assert Pairs(points)[i] in multiset(Pairs(points));
        assert Item(points[i], i) in multiset(Items(root));
      }
    }

    /** The nearest item is an input point no farther from the query than any other. */
    method Nearest(pt: Point) returns (r: Tree)
      requires Valid() && |pt| == dim
      ensures points == [] ==> r.Leaf?
      ensures points != [] ==>
                && r.Node? && r.item.index < |points| && r.item.pt == points[r.item.index]
                && forall i :: 0 <= i < |points| ==> Dist2(points[r.item.index], pt) <= Dist2(points[i], pt)
    {
      hide Dist2, Ordered, Items;
      Stored();
      ItemsOfLeaf();
      assert |Pairs(points)| == |multiset(Pairs(points))| == |multiset(Items(root))|;
      if root.Leaf? {
        return Leaf;
      }
      ItemsOfNode(root);
      var branchDist := ComputeDist2(root.item.pt, pt);
      r := NearestBranch(root, pt, 0, root, branchDist);
      forall i | 0 <= i < |points| ensures Dist2(points[r.item.index], pt) <= Dist2(points[i], pt) {
        assert Item(points[i], i) in Items(root);
      }
    }

    /** The indices of the neighbours: every point strictly closer than the radius, none farther,
        none twice. */
    method NeighborhoodIndices(pt: Point, rad: real) returns (nbhi: seq<nat>)
      requires Valid() && |pt| == dim
      ensures forall k :: 0 <= k < |nbhi| ==> nbhi[k] < |points| && Dist2(points[nbhi[k]], pt) <= rad * rad
      ensures forall i :: 0 <= i < |points| && Inner(points[i], pt, rad * rad) ==> i in nbhi
      ensures forall i :: 0 <= i < |points| && Dist2(points[i], pt) < rad * rad ==> i in nbhi
      ensures forall j, k :: 0 <= j < k < |nbhi| ==> nbhi[j] != nbhi[k]
      ensures AllOfDim(Items(root), |pt|)
      ensures forall i :: 0 <= i < |points| ==>
                (i in nbhi <==>
                 Dist2(points[i], pt) <= rad * rad && !Masked(root, Item(points[i], i), pt, 0, rad * rad))
      ensures forall i :: 0 <= i < |points| && Alone(points, i, pt, rad * rad) ==>
                (Dist2(points[i], pt) <= rad * rad ==> i in nbhi)
    {
      hide Dist2, Ordered, Within, Items, Pairs, Inner, Square, Visited, Masked, Alone;
      Stored();
      var nbh := NeighborhoodBranch(root, pt, rad, 0);
      nbhi := IndicesOf(nbh);
      IndicesRight(nbh, nbhi, Items(root), points, pt, rad * rad);
      forall i | 0 <= i < |points| && Dist2(points[i], pt) < rad * rad ensures Inner(points[i], pt, rad * rad) {
        CloserIsInner(points[i], pt, rad * rad);
      }
      IndicesExact(nbh, nbhi, root, points, pt, rad * rad);
    }
  }

  /** No other point shares a coordinate on which this one is exactly the radius away. */
  ghost predicate Alone(points: seq<Point>, i: nat, pt: Point, r2: real)
    requires i < |points|
  {
    forall j :: 0 <= j < |points| && j != i ==> !Shadow(points[j], points[i], pt, r2)
  }

  /** `std::transform` to the indices. */
  method IndicesOf(nbh: seq<Item>) returns (nbhi: seq<nat>)
    ensures |nbhi| == |nbh| && forall i :: 0 <= i < |nbh| ==> nbhi[i] == nbh[i].index
  {
    nbhi := [];
    for k := 0 to |nbh|
      invariant |nbhi| == k && forall i :: 0 <= i < k ==> nbhi[i] == nbh[i].index
    {
      nbhi := nbhi + [nbh[k].index];
    }
  }

  lemma IndicesRight(nbh: seq<Item>, nbhi: seq<nat>, stored: seq<Item>, points: seq<Point>, pt: Point, r2: real)
    requires |nbhi| == |nbh| && forall i :: 0 <= i < |nbh| ==> nbhi[i] == nbh[i].index
    requires AllOfDim(stored, |pt|) && Within(nbh, stored, pt, r2) && multiset(stored) == multiset(Pairs(points))
    requires forall p :: p in points ==> |p| == |pt|
    ensures forall k :: 0 <= k < |nbhi| ==> nbhi[k] < |points| && Dist2(points[nbhi[k]], pt) <= r2
    ensures forall i :: 0 <= i < |points| && Inner(points[i], pt, r2) ==> i in nbhi
    ensures forall j, k :: 0 <= j < k < |nbhi| ==> nbhi[j] != nbhi[k]
  {
    hide Dist2, Within, Inner;
    forall k | 0 <= k < |nbhi|
      ensures nbhi[k] < |points| && nbh[k].pt == points[nbhi[k]] && Dist2(points[nbhi[k]], pt) <= r2
    {
      FoundStored(nbh, stored, nbh[k], pt, r2);
      StoredPair(stored, points, nbh[k]);
    }
    forall i | 0 <= i < |points| && Inner(points[i], pt, r2) ensures i in nbhi {
      var y := Item(points[i], i);
      assert y == Pairs(points)[i];
      assert y in multiset(Pairs(points));
      assert y in stored;
      FoundClose(nbh, stored, y, pt, r2);
      var k :| 0 <= k < |nbh| && nbh[k] == y;
      assert nbhi[k] == i;
    }
    forall j, k | 0 <= j < k < |nbhi| ensures nbhi[j] != nbhi[k] {
      NoneTwice(nbh, j, k);
      PairOnce(points, nbh[j]);
      FoundAtMost(nbh, stored, pt, r2);
    }
  }

  lemma OnceStored(stored: seq<Item>, points: seq<Point>)
    requires multiset(stored) == multiset(Pairs(points))
    ensures Once(stored)
  {
    forall y ensures multiset(stored)[y] <= 1 {
      PairOnce(points, y);
    }
  }

  /** An index is returned if and only if its point is within the radius and not masked. */
  lemma IndicesExact(nbh: seq<Item>, nbhi: seq<nat>, root: Tree, points: seq<Point>, pt: Point, r2: real)
    requires |nbhi| == |nbh| && forall i :: 0 <= i < |nbh| ==> nbhi[i] == nbh[i].index
    requires 0 < |pt| && AllOfDim(Items(root), |pt|) && Ordered(root, 0, |pt|)
    requires multiset(Items(root)) == multiset(Pairs(points)) && forall p :: p in points ==> |p| == |pt|
    requires forall y :: y in nbh <==> Visited(root, y, pt, 0, r2) && Dist2(y.pt, pt) <= r2
    ensures forall i :: 0 <= i < |points| ==>
              (i in nbhi <==> Dist2(points[i], pt) <= r2 && !Masked(root, Item(points[i], i), pt, 0, r2))
    ensures forall i :: 0 <= i < |points| && Dist2(points[i], pt) <= r2 && Alone(points, i, pt, r2) ==> i in nbhi
  {
    hide Dist2, Ordered, Items, Pairs, Visited, Masked, Shadow, Once;
    OnceStored(Items(root), points);
    forall i | 0 <= i < |points|
      ensures i in nbhi <==> Dist2(points[i], pt) <= r2 && !Masked(root, Item(points[i], i), pt, 0, r2)
      ensures Dist2(points[i], pt) <= r2 && Alone(points, i, pt, r2) ==> i in nbhi
    {
      var y := Item(points[i], i);
      PairStored(Items(root), points, i);
      IndexOf(nbh, nbhi, root, points, i, pt, r2);
      if Dist2(points[i], pt) <= r2 {
        VisitedIff(root, y, pt, 0, r2);
        if Masked(root, y, pt, 0, r2) {
          var x := MaskedBy(root, y, pt, 0, r2);
          StoredPair(Items(root), points, x);
          assert x.index != i;
        }
      }
    }
  }

  lemma PairStored(stored: seq<Item>, points: seq<Point>, i: nat)
    requires multiset(stored) == multiset(Pairs(points)) && i < |points|
    ensures Item(points[i], i) in stored
  {
    assert Item(points[i], i) == Pairs(points)[i];
    assert Item(points[i], i) in multiset(Pairs(points));
  }

  /** An index stands for its own point. */
  lemma IndexOf(nbh: seq<Item>, nbhi: seq<nat>, root: Tree, points: seq<Point>, i: nat, pt: Point, r2: real)
    requires |nbhi| == |nbh| && forall k :: 0 <= k < |nbh| ==> nbhi[k] == nbh[k].index
    requires 0 < |pt| && AllOfDim(Items(root), |pt|) && multiset(Items(root)) == multiset(Pairs(points)) && i < |points|
    requires forall y :: y in nbh ==> y in Items(root)
    ensures i in nbhi <==> Item(points[i], i) in nbh
  {
    hide Items, Pairs;
    var y := Item(points[i], i);
    if i in nbhi {
      var k :| 0 <= k < |nbhi| && nbhi[k] == i;
      assert nbh[k] in nbh;
      StoredPair(Items(root), points, nbh[k]);
      assert nbh[k] == y;
    }
    if y in nbh {
      var k :| 0 <= k < |nbh| && nbh[k] == y;
      assert nbhi[k] == i;
    }
  }

  lemma FoundAtMost(found: seq<Item>, stored: seq<Item>, pt: Point, r2: real)
    requires AllOfDim(stored, |pt|) && Within(found, stored, pt, r2)
    ensures multiset(found) <= multiset(stored)
  {}

  lemma StoredPair(stored: seq<Item>, points: seq<Point>, y: Item)
    requires multiset(stored) == multiset(Pairs(points)) && y in stored
    ensures y.index < |points| && y.pt == points[y.index]
  {
    assert y in multiset(stored);
    assert y in Pairs(points);
  }

  lemma FoundStored(found: seq<Item>, stored: seq<Item>, y: Item, pt: Point, r2: real)
    requires AllOfDim(stored, |pt|) && Within(found, stored, pt, r2) && y in found
    ensures y in stored && Dist2(y.pt, pt) <= r2
  {
    assert y in multiset(found);
    assert y in multiset(stored);
  }

  lemma FoundClose(found: seq<Item>, stored: seq<Item>, y: Item, pt: Point, r2: real)
    requires AllOfDim(stored, |pt|) && Within(found, stored, pt, r2) && y in stored && Inner(y.pt, pt, r2)
    ensures y in found
  {
    hide Inner;
    assert y in multiset(stored);
    assert y in multiset(found);
  }

  /** Two places with the same item make it occur at least twice. */
  lemma NoneTwice(s: seq<Item>, j: nat, k: nat)
    requires j < k < |s|
    ensures s[j] == s[k] ==> multiset(s)[s[j]] >= 2
  {
    assert s == s[..j] + [s[j]] + s[j + 1..k] + [s[k]] + s[k + 1..];
  }

  lemma {:induction false} PairOnce(points: seq<Point>, y: Item)
    ensures multiset(Pairs(points))[y] <= 1
  {
    if points != [] {
      var n := |points| - 1;
      PairOnce(points[..n], y);
      assert Pairs(points) == Pairs(points[..n]) + [Item(points[n], n)];
      assert y in Pairs(points[..n]) ==> y.index < n;
    }
  }

  // ----- At exactly the radius -----

  /** A shallow tree of three items has one on either side of its root. */
  lemma ThreeItems(t: Tree)
    requires Shallow(t) && |Items(t)| == 3
    ensures t.Node? && |Items(t.left)| == 1 && |Items(t.right)| == 1
  {
    assert Height(t) <= 2 by {
      if Height(t) >= 3 {
        PowerGrows(Height(t) - 1);
      }
    }
    LowTree(t.left);
    LowTree(t.right);
  }

  lemma {:induction false} PowerGrows(n: nat)
    requires n >= 2
    ensures Pow2(n) >= 4
  {
    if n > 2 {
      PowerGrows(n - 1);
    } else {
      assert Pow2(1) == 2;
    }
  }

  lemma NodeHeight(t: Tree)
    ensures t.Node? ==> Height(t) >= 1
  {}

  lemma LowTree(t: Tree)
    ensures Height(t) <= 1 ==> |Items(t)| <= 1
  {
    if t.Node? {
      NodeHeight(t.left);
      NodeHeight(t.right);
    }
  }

  lemma SameCount(a: seq<Item>, b: seq<Item>)
    requires multiset(a) == multiset(b)
    ensures |a| == |b|
  {
    assert |multiset(a)| == |a| && |multiset(b)| == |b|;
  }

  lemma ThreeEqual(root: Tree, points: seq<Point>)
    requires multiset(Items(root)) == multiset(Pairs(points)) && Shallow(root)
    requires |points| == 3 && forall i :: 0 <= i < 3 ==> points[i] == [1.0]
    ensures root.Node? && root.item.pt == [1.0] && root.right.Node? && root.right.item.pt == [1.0]
    ensures root.right.item.index < 3 && points[root.right.item.index] == root.right.item.pt
  {
    hide Shallow, Items;
    SameCount(Items(root), Pairs(points));
    ThreeItems(root);
    ItemsOfNode(root);
    ItemsOfLeaf();
    ItemsOfNode(root.right);
    StoredPair(Items(root), points, root.item);
    StoredPair(Items(root), points, root.right.item);
  }

  lemma UnitDistance()
    ensures Dist2([1.0], [0.0]) == 1.0
  {
    assert SumSquares([1.0], [0.0], 0) == 0.0;
  }

  /** The item behind the root is masked. */
  lemma BehindMasked(root: Tree)
    requires root.Node? && root.right.Node? && AllOfDim(Items(root), 1)
    requires root.item.pt == [1.0] && root.right.item.pt == [1.0]
    ensures Masked(root, root.right.item, [0.0], 0, 1.0)
  {
    ItemsOfNode(root);
    ItemsOfNode(root.right);
    assert Other(root, [0.0], 0) == root.right;
    assert MaskedHere(root, root.right.item, [0.0], 0, 1.0);
  }

  /** Of three points at distance 1 straight along the axis, a query of radius 1 loses one. */
  method RadiusLoses() returns (tree: KDTree, nbhi: seq<nat>, lost: nat)
    ensures tree.Valid() && tree.points == [[1.0], [1.0], [1.0]] && Dist2([1.0], [0.0]) == 1.0
    ensures lost < 3 && lost !in nbhi
  {
    hide Dist2, Items, Shallow, Ordered, Pairs, Inner, Masked, Alone;
    tree := new KDTree([[1.0], [1.0], [1.0]], 1);
    ThreeEqual(tree.root, tree.points);
    UnitDistance();
    nbhi := tree.NeighborhoodIndices([0.0], 1.0);
    lost := tree.root.right.item.index;
    BehindMasked(tree.root);
  }
}
