/** `BatchAllocator` (extern/lib_json/json_batchallocator.h): a bump pointer per batch and one free
    list threaded through the released slots. */
module BatchAllocator {
  import opened Basics

  /** The space handed out by one `allocate`: it starts at an object of a batch's buffer. */
  datatype Slot = Slot(batch: nat, offset: nat)

  /** A batch with its place; `used` and `end` count objects of its buffer. */
  datatype BatchInfo = BatchInfo(id: nat, used: nat, end: nat)

  /** A batch in memory. */
  datatype Block = Block(next: Option<nat>, used: nat, end: nat)

  /** The list of batches that starts at `head`, following `next`. */
  ghost predicate Linked(head: Option<nat>, heap: map<nat, Block>, batches: seq<BatchInfo>)
    decreases |batches|
  {
    if batches == [] then head.None?
    else
      var b := batches[0];
      && head == Some(b.id) && b.id in heap && heap[b.id].used == b.used && heap[b.id].end == b.end
      && Linked(heap[b.id].next, heap, batches[1..])
  }

  lemma {:induction false} LinkFrame(head: Option<nat>, heap: map<nat, Block>, batches: seq<BatchInfo>, id: nat,
                                     x: Block)
    requires Linked(head, heap, batches) && forall i :: 0 <= i < |batches| ==> batches[i].id != id
    ensures Linked(head, heap[id := x], batches)
    decreases |batches|
  {
    if batches != [] {
      LinkFrame(heap[batches[0].id].next, heap, batches[1..], id, x);
    }
  }

  /** A new block in front of the list. */
  lemma LinkNew(head: Option<nat>, heap: map<nat, Block>, batches: seq<BatchInfo>, page: nat)
    requires Linked(head, heap, batches) && forall i :: 0 <= i < |batches| ==> batches[i].id != |batches|
    ensures Linked(Some(|batches|), heap[|batches| := Block(head, 0, page)], [BatchInfo(|batches|, 0, page)] + batches)
  {
    LinkFrame(head, heap, batches, |batches|, Block(head, 0, page));
    assert ([BatchInfo(|batches|, 0, page)] + batches)[1..] == batches;
  }

  /** The first block changes. */
  lemma LinkFirst(head: Option<nat>, heap: map<nat, Block>, batches: seq<BatchInfo>, used: nat)
    requires Linked(head, heap, batches) && batches != []
    requires forall i :: 0 < i < |batches| ==> batches[i].id != batches[0].id
    ensures var b := batches[0];
            b.id in heap && Linked(head, heap[b.id := heap[b.id].(used := used)], batches[0 := b.(used := used)])
  {
    var b := batches[0];
    LinkFrame(heap[b.id].next, heap, batches[1..], b.id, heap[b.id].(used := used));
    assert batches[0 := b.(used := used)][1..] == batches[1..];
  }

  /** The list that starts at `head`, following the word stored in each free slot. */
  ghost predicate IsList(head: Option<Slot>, links: map<Slot, Option<Slot>>, free: seq<Slot>)
    decreases |free|
  {
    if free == [] then head.None?
    else head == Some(free[0]) && free[0] in links && IsList(links[free[0]], links, free[1..])
  }

  lemma {:induction false} ListFrame(head: Option<Slot>, links: map<Slot, Option<Slot>>, free: seq<Slot>, x: Slot,
                                     w: Option<Slot>)
    requires IsList(head, links, free) && x !in free
    ensures IsList(head, links[x := w], free)
    decreases |free|
  {
    if free != [] {
      ListFrame(links[free[0]], links, free[1..], x, w);
    }
  }

  ghost predicate NoDuplicates(s: seq<Slot>) { forall i, j :: 0 <= i < j < |s| ==> s[i] != s[j] }

  /** The slots carved so far from the batches. */
  ghost predicate Carved(batches: seq<BatchInfo>, step: nat, x: Slot)
    requires step > 0
  {
    exists i :: 0 <= i < |batches| && batches[i].id == x.batch && x.offset < batches[i].used && x.offset % step == 0
  }

  /** Two slots share no object. */
  predicate Disjoint(x: Slot, y: Slot, size: nat) {
    x.batch != y.batch || x.offset + size <= y.offset || y.offset + size <= x.offset
  }

  lemma ProductMod(q: int, step: nat)
    requires step > 0
    ensures (q * step) % step == 0
  {
    var d, r := (q * step) / step, (q * step) % step;
    assert (q - d) * step == r;
    if q - d >= 1 {
      ProductAtLeast(q - d, step);
    } else if q - d <= -1 {
      ProductAtLeast(d - q, step);
    }
  }

  lemma ProductAtLeast(q: int, step: nat)
    requires q >= 1
    ensures q * step >= step
  {
    assert (q - 1) * step >= 0;
  }

  lemma MultipleGap(a: nat, b: nat, step: nat)
    requires step > 0 && a % step == 0 && b % step == 0 && a < b
    ensures a + step <= b
  {
    var i, j := a / step, b / step;
    assert a == i * step && b == j * step;
    QuotientsApart(i, j, step);
  }

  lemma QuotientsApart(i: int, j: int, step: nat)
    ensures i * step < j * step ==> i * step + step <= j * step
  {
    if j <= i {
      assert (i - j) * step >= 0;
    } else {
      ProductAtLeast(j - i, step);
    }
  }

  lemma CarvedDisjoint(batches: seq<BatchInfo>, step: nat, x: Slot, y: Slot)
    requires step > 0 && Carved(batches, step, x) && Carved(batches, step, y) && x != y
    ensures Disjoint(x, y, step)
  {
    if x.offset < y.offset {
      MultipleGap(x.offset, y.offset, step);
    } else if y.offset < x.offset {
      MultipleGap(y.offset, x.offset, step);
    }
  }

  /** Adding an untouched batch carves nothing. */
  lemma CarvedFresh(batches: seq<BatchInfo>, step: nat, b: BatchInfo, x: Slot)
    requires step > 0 && b.used == 0
    ensures Carved([b] + batches, step, x) <==> Carved(batches, step, x)
  {
    var more := [b] + batches;
    if Carved(batches, step, x) {
      var i :| 0 <= i < |batches| && batches[i].id == x.batch && x.offset < batches[i].used && x.offset % step == 0;
      assert more[i + 1] == batches[i];
    }
    if Carved(more, step, x) {
      var i :| 0 <= i < |more| && more[i].id == x.batch && x.offset < more[i].used && x.offset % step == 0;
      assert batches[i - 1] == more[i];
    }
  }

  /** Moving the bump pointer of the first batch carves one slot. */
  lemma CarvedBump(batches: seq<BatchInfo>, step: nat, x: Slot)
    requires step > 0 && |batches| > 0 && batches[0].used % step == 0
    ensures var b := batches[0];
            Carved(batches[0 := b.(used := b.used + step)], step, x) <==>
            Carved(batches, step, x) || x == Slot(b.id, b.used)
  {
    var b := batches[0];
    var more := batches[0 := b.(used := b.used + step)];
    if Carved(batches, step, x) {
      var i :| 0 <= i < |batches| && batches[i].id == x.batch && x.offset < batches[i].used && x.offset % step == 0;
      assert more[i].id == x.batch && x.offset < more[i].used;
    }
    if x == Slot(b.id, b.used) {
      assert more[0].id == x.batch;
    }
    if Carved(more, step, x) {
      var i :| 0 <= i < |more| && more[i].id == x.batch && x.offset < more[i].used && x.offset % step == 0;
      if i == 0 && b.used < x.offset {
        MultipleGap(b.used, x.offset, step);
      }
      assert i > 0 ==> batches[i] == more[i];
      assert i == 0 ==> x.offset <= b.used;
      assert i == 0 && x.offset < b.used ==> batches[0].id == x.batch;
    }
  }

  ghost predicate Aligned(batches: seq<BatchInfo>, step: nat)
    requires step > 0
  {
    forall i :: 0 <= i < |batches| ==> batches[i].used % step == 0
  }

  /** All batches but the newest are used up, down to the empty one the constructor makes; slots are
      aligned, and stay below the end when the page holds a whole number of them. */
  ghost predicate BatchesOk(batches: seq<BatchInfo>, step: nat, page: nat) {
    && step > 0 && page >= 16 && |batches| > 0
    && (forall i :: 0 <= i < |batches| ==> batches[i].id == |batches| - 1 - i)
    && Aligned(batches, step)
    && (forall i :: 0 < i < |batches| ==> batches[i].used == batches[i].end)
    && (forall i :: 0 <= i < |batches| ==> batches[i].end == if i == |batches| - 1 then 0 else page)
    && (page % step == 0 ==> forall i :: 0 <= i < |batches| ==> batches[i].used <= batches[i].end)
  }

  lemma AlignedFresh(batches: seq<BatchInfo>, step: nat, b: BatchInfo)
    requires step > 0 && Aligned(batches, step) && b.used == 0
    ensures Aligned([b] + batches, step)
  {
    ProductMod(0, step);
  }

  lemma FreshOk(batches: seq<BatchInfo>, step: nat, page: nat)
    requires BatchesOk(batches, step, page) && batches[0].used == batches[0].end
    ensures BatchesOk([BatchInfo(|batches|, 0, page)] + batches, step, page)
    ensures forall x :: Carved([BatchInfo(|batches|, 0, page)] + batches, step, x) <==> Carved(batches, step, x)
  {
    hide Carved, Aligned;
    AlignedFresh(batches, step, BatchInfo(|batches|, 0, page));
    var more := [BatchInfo(|batches|, 0, page)] + batches;
    assert forall i :: 0 < i < |more| ==> more[i] == batches[i - 1];
    forall x ensures Carved(more, step, x) <==> Carved(batches, step, x) {
      CarvedFresh(batches, step, BatchInfo(|batches|, 0, page), x);
    }
  }

  /** The batches when room for a slot has been found or made. */
  ghost function Roomy(batches: seq<BatchInfo>, page: nat): seq<BatchInfo>
    requires |batches| > 0
  {
    if batches[0].used == batches[0].end then [BatchInfo(|batches|, 0, page)] + batches else batches
  }

  /** The slot an empty free list leads to. */
  ghost function BumpSlot(batches: seq<BatchInfo>, page: nat): Slot
    requires |batches| > 0
  {
    var b := Roomy(batches, page)[0]; Slot(b.id, b.used)
  }

  /** The batches when that slot has been carved. */
  ghost function Bumped(batches: seq<BatchInfo>, step: nat, page: nat): seq<BatchInfo>
    requires |batches| > 0
  {
    var bs := Roomy(batches, page); bs[0 := bs[0].(used := bs[0].used + step)]
  }

  class Allocator {
    const objectPerAllocation: nat
    const objectsPerPage: nat
    /** The blocks `malloc` has returned. */
    var heap: map<nat, Block>
    var blockCount: nat
    var head: Option<nat>
    var currentBatch: Option<nat>
    var freeHead: Option<Slot>
    /** The word at the start of a slot; a free slot keeps its successor there. */
    var links: map<Slot, Option<Slot>>

    ghost var batches: seq<BatchInfo>
    ghost var free: seq<Slot>
    ghost var outstanding: set<Slot>
    ghost var carved: set<Slot>
    /** The most slots ever outstanding at once. */
    ghost var peak: nat

    /** The list of batches holds every block and is the one the allocator carves from. */
    ghost predicate Chained()
      reads this`heap, this`blockCount, this`head, this`currentBatch, this`batches
    {
      && currentBatch == head && blockCount == |batches| && Linked(head, heap, batches)
      && (forall id: nat :: id in heap <==> id < |batches|)
      && BatchesOk(batches, objectPerAllocation, objectsPerPage)
    }

    /** Every carved slot is either outstanding or in the free list, once; and as many slots have
        been carved as were ever outstanding at once. */
    ghost predicate Valid()
      reads this
    {
      && Chained()
      && (forall x :: x in carved <==> Carved(batches, objectPerAllocation, x))
      && IsList(freeHead, links, free) && NoDuplicates(free)
      && (forall x :: x in free <==> x in carved && x !in outstanding)
      && outstanding <= carved
      && |carved| == peak && |outstanding| <= peak
    }

    constructor (objectPerAllocation: nat, objectsPerPage: nat)
      requires objectPerAllocation > 0 && objectsPerPage >= 16
      ensures Valid() && outstanding == {} && peak == 0 && freeHead == None && batches == [BatchInfo(0, 0, 0)]
      ensures this.objectPerAllocation == objectPerAllocation && this.objectsPerPage == objectsPerPage
    {
      this.objectPerAllocation := objectPerAllocation;
      this.objectsPerPage := objectsPerPage;
      heap := map[0 := Block(None, 0, 0)];
      blockCount := 1;
      head := Some(0);
      currentBatch := Some(0);
      freeHead := None;
      links := map[];
      batches := [BatchInfo(0, 0, 0)];
      free, outstanding, carved, peak := [], {}, {}, 0;
    }

    /** The slot released last, or the next one at the bump pointer. It was not outstanding and shares
        no object with one that is. It lies inside its batch when the page holds a whole number of
        slots. */
    method Allocate() returns (x: Slot)
      requires Valid()
      modifies this
      ensures Valid() && x !in old(outstanding) && outstanding == old(outstanding) + {x}
      ensures forall y :: y in old(outstanding) ==> Disjoint(x, y, objectPerAllocation)
      ensures objectsPerPage % objectPerAllocation == 0 ==> x.offset + objectPerAllocation <= objectsPerPage
      ensures peak == if |outstanding| > old(peak) then |outstanding| else old(peak)
      ensures old(freeHead).Some? ==> x == old(freeHead).value && batches == old(batches)
      ensures old(freeHead).None? ==>
                && freeHead.None? && x == BumpSlot(old(batches), objectsPerPage)
                && batches == Bumped(old(batches), objectPerAllocation, objectsPerPage)
    {
      hide IsList, NoDuplicates, Carved, Linked, Aligned;
      if freeHead.Some? {
        x := TakeFree();
      } else {
        if UsedUp() {
          AdvanceBatch();
        }
        x := Carve();
      }
      assert |outstanding| == |old(outstanding)| + 1;
      forall y | y in old(outstanding) ensures Disjoint(x, y, objectPerAllocation) {
        CarvedDisjoint(batches, objectPerAllocation, x, y);
      }
      CarvedInside(x);
    }

    /** In every state: the outstanding slots are pairwise disjoint and, on a page of whole slots,
        inside their batch; the list from the head visits every block allocated; and as many slots
        have been carved as were ever outstanding at once. */
    lemma Sound()
      requires Valid()
      ensures forall x, y :: x in outstanding && y in outstanding && x != y ==> Disjoint(x, y, objectPerAllocation)
      ensures objectsPerPage % objectPerAllocation == 0 ==>
                forall x :: x in outstanding ==> x.batch in heap && x.offset + objectPerAllocation <= objectsPerPage
      ensures Linked(head, heap, batches)
      ensures forall id :: id in heap ==> exists i :: 0 <= i < |batches| && batches[i].id == id
      ensures |carved| == peak
    {
      hide IsList, NoDuplicates, Carved, Linked;
      forall x, y | x in outstanding && y in outstanding && x != y ensures Disjoint(x, y, objectPerAllocation) {
        CarvedDisjoint(batches, objectPerAllocation, x, y);
      }
      forall x | x in outstanding
        ensures objectsPerPage % objectPerAllocation == 0 ==>
                  x.batch in heap && x.offset + objectPerAllocation <= objectsPerPage
      {
        CarvedInside(x);
      }
      forall id | id in heap ensures exists i :: 0 <= i < |batches| && batches[i].id == id {
        assert batches[|batches| - 1 - id].id == id;
      }
    }

    /** An empty free list means that everything carved is outstanding. */
    lemma NoneFree()
      requires Valid() && freeHead.None?
      ensures free == [] && outstanding == carved
    {}

    lemma CarvedInside(x: Slot)
      requires BatchesOk(batches, objectPerAllocation, objectsPerPage) && Carved(batches, objectPerAllocation, x)
      ensures x.batch < |batches|
      ensures objectsPerPage % objectPerAllocation == 0 ==> x.offset + objectPerAllocation <= objectsPerPage
    {
      var i :| 0 <= i < |batches| && batches[i].id == x.batch && x.offset < batches[i].used
               && x.offset % objectPerAllocation == 0;
      MultipleGap(x.offset, batches[i].used, objectPerAllocation);
    }

    /** The bump pointer of the current batch has met its end. */
    predicate UsedUp()
      requires Chained()
      reads this`heap, this`blockCount, this`head, this`currentBatch, this`batches
      ensures UsedUp() <==> batches[0].used == batches[0].end
    {
      heap[currentBatch.value].used == heap[currentBatch.value].end
    }

    /** Unlinks the head of the free list. */
    method TakeFree() returns (x: Slot)
      requires Valid() && freeHead.Some?
      modifies this`freeHead, this`free, this`outstanding
      ensures Valid() && x !in old(outstanding) && outstanding == old(outstanding) + {x}
      ensures x == old(freeHead).value && |old(outstanding)| < peak
    {
      hide Chained, Carved;
      x := freeHead.value;
      freeHead := links[x];
      assert free[0] == x && x in free && x in carved && x !in outstanding;
      assert forall y :: y in free[1..] <==> y in free && y != x;
      FewerThan(outstanding, carved, x);
      free := free[1..];
      outstanding := outstanding + {x};
    }

    /** Looks for a batch with room among the older ones; there is none, so a new one is put at the
        head of the list. */
    method AdvanceBatch()
      requires Valid() && freeHead.None? && UsedUp()
      modifies this`heap, this`blockCount, this`head, this`batches, this`currentBatch
      ensures Valid() && batches == [BatchInfo(|old(batches)|, 0, objectsPerPage)] + old(batches)
    {
      hide Carved, IsList, NoDuplicates, Aligned;
      ghost var k := 1;
      currentBatch := heap[currentBatch.value].next;
      while currentBatch.Some? && heap[currentBatch.value].used == heap[currentBatch.value].end
        invariant 0 < k <= |batches| && Linked(currentBatch, heap, batches[k..])
        decreases |batches| - k
        modifies this`currentBatch
      {
        assert batches[k..][1..] == batches[k + 1..];
        currentBatch := heap[currentBatch.value].next;
        k := k + 1;
      }
      if currentBatch.None? {
        FreshOk(batches, objectPerAllocation, objectsPerPage);
        AllocateBatch();
      }
    }

    /** Puts a new block at the head of the list. */
    method AllocateBatch()
      requires blockCount == |batches| && Linked(head, heap, batches)
      requires forall i :: 0 <= i < |batches| ==> batches[i].id != |batches|
      modifies this`heap, this`blockCount, this`head, this`batches, this`currentBatch
      ensures currentBatch == head && blockCount == |batches| && Linked(head, heap, batches)
      ensures batches == [BatchInfo(|old(batches)|, 0, objectsPerPage)] + old(batches)
      ensures forall id :: id in heap <==> id in old(heap) || id == |old(batches)|
    {
      hide Linked;
      LinkNew(head, heap, batches, objectsPerPage);
      heap := heap[blockCount := Block(head, 0, objectsPerPage)];
      currentBatch := Some(blockCount);
      head := currentBatch;
      blockCount := blockCount + 1;
      batches := [BatchInfo(|batches|, 0, objectsPerPage)] + batches;
    }

    /** Moves the bump pointer of the current batch. */
    method Carve() returns (x: Slot)
      requires Valid() && freeHead.None? && !UsedUp()
      modifies this`heap, this`batches, this`outstanding, this`carved, this`peak
      ensures Valid() && x !in old(outstanding) && outstanding == old(outstanding) + {x}
      ensures peak == old(peak) + 1 && |old(outstanding)| == old(peak)
      ensures var b := old(batches)[0];
              x == Slot(b.id, b.used) && batches == old(batches)[0 := b.(used := b.used + objectPerAllocation)]
    {
      hide Carved, IsList, NoDuplicates, Aligned;
      NoneFree();
      ghost var before := batches;
      var id := currentBatch.value;
      x := Slot(id, heap[id].used);
      LinkFirst(head, heap, batches, heap[id].used + objectPerAllocation);
      BumpOk(batches, objectPerAllocation, objectsPerPage);
      heap := heap[id := heap[id].(used := heap[id].used + objectPerAllocation)];
      batches := batches[0 := batches[0].(used := batches[0].used + objectPerAllocation)];
      NewSlot(before, objectPerAllocation);
      carved := carved + {x};
      outstanding := outstanding + {x};
      peak := peak + 1;
    }

    method Release(x: Slot)
      requires Valid() && x in outstanding
      modifies this`links, this`freeHead, this`free, this`outstanding
      ensures Valid() && outstanding == old(outstanding) - {x} && freeHead == Some(x)
    {
      hide Chained, Carved;
      ListFrame(freeHead, links, free, x, freeHead);
      links := links[x := freeHead];
      freeHead := Some(x);
      free := [x] + free;
      outstanding := outstanding - {x};
    }

    /** The client may write anything into a slot it owns. */
    method ClientWrites(x: Slot, word: Option<Slot>)
      requires Valid() && x in outstanding
      modifies this`links
      ensures Valid() && links == old(links)[x := word]
    {
      ListFrame(freeHead, links, free, x, word);
      links := links[x := word];
    }
  }

  lemma FewerThan(a: set<Slot>, b: set<Slot>, x: Slot)
    requires a <= b && x in b && x !in a
    ensures |a| < |b|
  {
    assert a <= b - {x};
    Subset(a, b - {x});
  }

  lemma {:induction false} Subset(a: set<Slot>, b: set<Slot>)
    requires a <= b
    ensures |a| <= |b|
  {
    if a != {} {
      var x :| x in a;
      Subset(a - {x}, b - {x});
    }
  }

  /** Moving the bump pointer of the first batch keeps the batches in shape and carves one slot. */
  lemma BumpOk(batches: seq<BatchInfo>, step: nat, page: nat)
    requires BatchesOk(batches, step, page) && batches[0].used != batches[0].end
    ensures var more := batches[0 := batches[0].(used := batches[0].used + step)];
            && BatchesOk(more, step, page)
            && forall x :: Carved(more, step, x) <==>
                           Carved(batches, step, x) || x == Slot(batches[0].id, batches[0].used)
  {
    hide Carved;
    var b := batches[0];
    var more := batches[0 := b.(used := b.used + step)];
    AlignedBump(batches, step, b.end);
    forall x ensures Carved(more, step, x) <==> Carved(batches, step, x) || x == Slot(b.id, b.used) {
      CarvedBump(batches, step, x);
    }
  }

  /** The bumped pointer is a multiple of the step again, and within a page of whole slots. */
  lemma AlignedBump(batches: seq<BatchInfo>, step: nat, page: nat)
    requires step > 0 && |batches| > 0 && Aligned(batches, step)
    ensures Aligned(batches[0 := batches[0].(used := batches[0].used + step)], step)
    ensures page % step == 0 && batches[0].used < page ==> batches[0].used + step <= page
  {
    var used := batches[0].used;
    var q := used / step;
    assert used == q * step;
    ProductMod(q + 1, step);
    assert (q + 1) * step == used + step;
    if page % step == 0 && used < page {
      MultipleGap(used, page, step);
    }
  }

  /** The slot at the bump pointer of the first batch has not been carved. */
  lemma NewSlot(batches: seq<BatchInfo>, step: nat)
    requires step > 0 && |batches| > 0 && forall i, j :: 0 <= i < j < |batches| ==> batches[i].id != batches[j].id
    ensures !Carved(batches, step, Slot(batches[0].id, batches[0].used))
  {}

  // ----- When slots stay inside their batch -----

  /** The batches after n allocations and no release. */
  ghost function After(step: nat, page: nat, n: nat): (batches: seq<BatchInfo>)
    ensures |batches| > 0
  {
    if n == 0 then [BatchInfo(0, 0, 0)] else Bumped(After(step, page, n - 1), step, page)
  }

  /** Allocating n times from a new allocator. */
  method AllocateMany(step: nat, page: nat, n: nat) returns (a: Allocator, slots: seq<Slot>)
    requires step > 0 && page >= 16
    ensures fresh(a) && a.Valid() && a.objectPerAllocation == step && a.objectsPerPage == page
    ensures |slots| == n && forall i :: 0 <= i < n ==> slots[i] == BumpSlot(After(step, page, i), page)
    ensures forall i :: 0 <= i < n ==> slots[i] in a.outstanding
  {
    hide BumpSlot, Bumped, Allocator.Valid;
    a := new Allocator(step, page);
    slots := [];
    for i := 0 to n
      invariant a.Valid() && a.objectPerAllocation == step && a.objectsPerPage == page
      invariant a.freeHead == None && a.batches == After(step, page, i)
      invariant |slots| == i && forall j :: 0 <= j < i ==> slots[j] == BumpSlot(After(step, page, j), page)
      invariant forall j :: 0 <= j < i ==> slots[j] in a.outstanding
    {
      var x := a.Allocate();
      slots := slots + [x];
    }
  }

  /** Every slot of every such run lies inside the `step * page` objects of its batch if and only if
      the page holds a whole number of slots. */
  lemma InsideIff(step: nat, page: nat)
    requires step > 0 && page >= 16
    ensures (forall n: nat :: BumpSlot(After(step, page, n), page).offset + step <= step * page) <==> page % step == 0
  {
    hide BumpSlot, After;
    if page % step == 0 {
      forall n: nat ensures BumpSlot(After(step, page, n), page).offset + step <= step * page {
        WholeInside(step, page, n);
      }
    } else {
      Overruns(step, page);
    }
  }

  lemma {:induction false} AfterOk(step: nat, page: nat, n: nat)
    requires step > 0 && page >= 16
    ensures BatchesOk(After(step, page, n), step, page)
  {
    hide Aligned, Carved;
    if n == 0 {
      assert BatchesOk([BatchInfo(0, 0, 0)], step, page) by { StartOk(step, page); }
    } else {
      var batches := After(step, page, n - 1);
      AfterOk(step, page, n - 1);
      if batches[0].used == batches[0].end {
        FreshOk(batches, step, page);
      }
      BumpOk(Roomy(batches, page), step, page);
    }
  }

  lemma StartOk(step: nat, page: nat)
    requires step > 0 && page >= 16
    ensures BatchesOk([BatchInfo(0, 0, 0)], step, page)
  {
    ProductMod(0, step);
  }

  lemma WholeInside(step: nat, page: nat, n: nat)
    requires step > 0 && page >= 16 && page % step == 0
    ensures BumpSlot(After(step, page, n), page).offset + step <= step * page
  {
    hide Aligned, After;
    AfterOk(step, page, n);
    var batches := After(step, page, n);
    if batches[0].used == batches[0].end {
      ProductMod(0, step);
      MultipleGap(0, page, step);
    } else {
      AlignedBump(batches, step, page);
    }
    ProductAtLeast(step, page);
  }

  /** A page that holds no whole number of slots is never used up: its pointer steps over the end. */
  lemma {:induction false} NeverUsedUp(step: nat, page: nat, n: nat)
    requires step > 0 && page >= 16 && page % step != 0 && n > 0
    ensures After(step, page, n) == [BatchInfo(1, n * step, page), BatchInfo(0, 0, 0)]
  {
    if n == 1 {
      assert After(step, page, 0) == [BatchInfo(0, 0, 0)];
    } else {
      NeverUsedUp(step, page, n - 1);
      NotMultiple(step, page, n - 1);
      assert (n - 1) * step + step == n * step;
    }
  }

  lemma Overruns(step: nat, page: nat)
    requires step > 0 && page >= 16 && page % step != 0
    ensures BumpSlot(After(step, page, page), page).offset + step > step * page
  {
    hide After;
    NeverUsedUp(step, page, page);
    NotMultiple(step, page, page);
  }

  lemma NotMultiple(step: nat, page: nat, j: nat)
    requires step > 0 && page % step != 0
    ensures j * step != page
  {
    ProductMod(j, step);
  }

  /** Then some run hands out a slot beyond its batch. */
  method Overrun(step: nat, page: nat) returns (a: Allocator, x: Slot)
    requires step > 0 && page >= 16 && page % step != 0
    ensures a.Valid() && a.objectPerAllocation == step && a.objectsPerPage == page
    ensures x in a.outstanding && x.offset + step > step * page
  {
    hide BumpSlot, After, Allocator.Valid;
    var slots;
    a, slots := AllocateMany(step, page, page + 1);
    x := slots[page];
    Overruns(step, page);
  }

  /** The allocator of array pages: eight values a slot, and the default of 255 objects a page. */
  method ArrayPagesOverrun() returns (a: Allocator, x: Slot)
    ensures a.Valid() && a.objectPerAllocation == 8 && a.objectsPerPage == 255
    ensures x in a.outstanding && x.offset + 8 > 8 * 255
  {
    a, x := Overrun(8, 255);
  }
}
