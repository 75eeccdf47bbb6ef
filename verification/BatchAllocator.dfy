/** json_batchallocator.h: a free list threaded through released blocks, over
    pages handed out front to back.

    A page hands out blocks of `objectPerAllocation` objects one after the other,
    so a block is named by its page and its number there; the C++ address is the
    page's buffer plus Offset.  A batch's `next_` and the head pointers are page
    numbers.  The word stored at the start of a block is in `memory`: the
    allocator's link while the block is free, the client's while it is live. */
module BatchAllocator {
  import opened Options

  datatype Block = Block(page: nat, number: nat)

  /** BatchInfo: `used` blocks have been handed out, `end` is in objects, and
      `capacity` is the number of objects the malloc made room for. */
  datatype Batch = Batch(next: Option<nat>, used: nat, end: nat, capacity: nat)

  function Offset(b: Block, size: nat): nat { size * b.number }

  /** Two blocks of `size` objects share storage. */
  predicate Overlap(a: Block, b: Block, size: nat) {
    a.page == b.page && Offset(a, size) < Offset(b, size) + size && Offset(b, size) < Offset(a, size) + size
  }

  ghost predicate Multiple(p: nat, n: nat) { exists q: nat :: n * q == p }

  /** Head and links spell the list `free`, which has no repetition. */
  predicate Chain(memory: map<Block, Option<Block>>, head: Option<Block>, free: seq<Block>)
    decreases |free|
  {
    if free == [] then head == None
    else
      && head == Some(free[0]) && free[0] in memory && free[0] !in free[1..]
      && Chain(memory, memory[free[0]], free[1..])
  }

  /** Storing outside the list leaves it alone. */
  lemma {:induction false} ChainFrame(memory: map<Block, Option<Block>>, head: Option<Block>, free: seq<Block>, b: Block, w: Option<Block>)
    requires Chain(memory, head, free) && b !in free
    ensures Chain(memory[b := w], head, free)
    decreases |free|
  {
    if free != [] { ChainFrame(memory, memory[free[0]], free[1..], b, w); }
  }

  /** A block that has been handed out at some time. */
  predicate Issued(pages: seq<Batch>, b: Block) { b.page < |pages| && b.number < pages[b.page].used }

  /** Pages are linked newest to oldest; only the dummy page is empty. */
  predicate PagesOk(pages: seq<Batch>, size: nat, perPage: nat) {
    |pages| >= 1 &&
    forall p :: 0 <= p < |pages| ==>
      && pages[p].next == (if p == 0 then None else Some(p - 1))
      && (pages[p].end == 0 || pages[p].end == perPage)
      && pages[p].capacity == size * pages[p].end
  }

  /** No page has handed out storage behind its end. */
  predicate WithinPages(pages: seq<Batch>, size: nat) {
    forall p :: 0 <= p < |pages| ==> size * pages[p].used <= pages[p].end
  }

  predicate Exhausted(b: Batch, size: nat) { size * b.used == b.end }

  class Allocator {
    const objectPerAllocation: nat
    const objectsPerPage: nat
    var pages: seq<Batch>
    var batches: nat
    var currentBatch: nat
    var freeHead: Option<Block>
    var memory: map<Block, Option<Block>>
    ghost var live: set<Block>
    ghost var free: seq<Block>

    /** The page list and the free list are sound, and the blocks handed out so
        far are exactly the live ones and the free ones, with none in both. */
    ghost predicate Valid()
      reads this
    {
      && objectPerAllocation >= 1 && objectsPerPage >= 1 && PagesOk(pages, objectPerAllocation, objectsPerPage)
      && batches == |pages| - 1 && currentBatch < |pages|
      && Chain(memory, freeHead, free)
      && (forall b :: Issued(pages, b) <==> b in live || b in free)
      && (forall b :: b in live ==> b !in free)
    }

    ghost predicate InBounds()
      reads this`pages
    {
      WithinPages(pages, objectPerAllocation)
    }

    constructor (objectPerAllocation: nat, objectsPerPage: nat)
      requires objectPerAllocation >= 1 && objectsPerPage >= 16
      ensures this.objectPerAllocation == objectPerAllocation && this.objectsPerPage == objectsPerPage
      ensures Valid() && InBounds() && live == {} && free == []
      ensures pages == [Batch(None, 0, 0, 0)] && currentBatch == 0
    {
      this.objectPerAllocation, this.objectsPerPage := objectPerAllocation, objectsPerPage;
      pages := [Batch(None, 0, 0, 0)];   // the dummy page
      batches, currentBatch, freeHead, memory := 0, 0, None, map[];
      live, free := {}, [];
    }

    /** release */
    method Release(b: Block)
      requires Valid() && b in live
      modifies this`freeHead, this`memory, this`live, this`free
      ensures Valid() && live == old(live) - {b} && free == [b] + old(free)
    {
      ChainFrame(memory, freeHead, free, b, freeHead);
      memory := memory[b := freeHead];
      freeHead := Some(b);
      live := live - {b};
      free := [b] + free;
      assert free[1..] == old(free);
    }

    /** The client stores what it likes in a live block; nothing the allocator
        relies on changes. */
    method ClientStore(b: Block, word: Option<Block>)
      requires Valid() && b in live
      modifies this`memory
      ensures Valid()
    {
      ChainFrame(memory, freeHead, free, b, word);
      memory := memory[b := word];
    }

    /** Find a page with room, or add one at the head of the list. */
    method SelectBatch()
      requires Valid()
      modifies this`pages, this`batches, this`currentBatch
      ensures Valid() && !Exhausted(pages[currentBatch], objectPerAllocation)
      ensures !Exhausted(old(pages)[old(currentBatch)], objectPerAllocation) ==>
                pages == old(pages) && currentBatch == old(currentBatch)
      ensures pages == old(pages) ||
              (pages == old(pages) + [Batch(Some(|old(pages)| - 1), 0, objectsPerPage, objectPerAllocation * objectsPerPage)]
               && currentBatch == |old(pages)|)
      ensures |old(pages)| == 1 && Exhausted(old(pages)[0], objectPerAllocation) ==> pages != old(pages)
    {
      if !Exhausted(pages[currentBatch], objectPerAllocation) { return; }
      var current: Option<nat> := pages[currentBatch].next;
      while current.Some? && Exhausted(pages[current.value], objectPerAllocation)
        invariant Valid() && pages == old(pages) && currentBatch == old(currentBatch)
        invariant current.Some? ==> current.value < |pages|
        decreases if current.Some? then current.value + 1 else 0
      {
        current := pages[current.value].next;
      }
      if current.Some? {
        currentBatch := current.value;
      } else {
        AddBatch();
      }
    }

    /** allocateBatch, linked in at the head. */
    method AddBatch()
      requires Valid()
      modifies this`pages, this`batches, this`currentBatch
      ensures Valid()
      ensures pages == old(pages) + [Batch(Some(|old(pages)| - 1), 0, objectsPerPage, objectPerAllocation * objectsPerPage)]
      ensures currentBatch == |old(pages)|
    {
      pages := pages + [Batch(Some(batches), 0, objectsPerPage, objectPerAllocation * objectsPerPage)];
      batches := |pages| - 1;
      currentBatch := batches;
      assert forall b :: Issued(pages, b) <==> Issued(old(pages), b);
    }

    /** Take the head of the free list. */
    method PopFree() returns (b: Block)
      requires Valid() && free != []
      modifies this`freeHead, this`live, this`free
      ensures Valid() && b == old(free)[0] && free == old(free)[1..] && live == old(live) + {b} && b !in old(live)
    {
      b := freeHead.value;
      assert b in free;
      freeHead := memory[b];
      free := free[1..];
      live := live + {b};
      assert forall x :: x in old(free) <==> x == b || x in free;
    }

    /** Take the next block of the current page. */
    method BumpBatch() returns (b: Block)
      requires Valid() && free == [] && !Exhausted(pages[currentBatch], objectPerAllocation)
      modifies this`pages, this`live
      ensures Valid() && b !in old(live) && live == old(live) + {b}
      ensures b == Block(currentBatch, old(pages)[currentBatch].used)
      ensures pages == old(pages)[currentBatch := old(pages)[currentBatch].(used := b.number + 1)]
    {
      var page := pages[currentBatch];
      b := Block(currentBatch, page.used);
      pages := pages[currentBatch := page.(used := page.used + 1)];
      live := live + {b};
      assert forall x :: Issued(pages, x) <==> Issued(old(pages), x) || x == b;
    }

    /** The state after taking a fresh block: room was found in an existing page
        or in a new one. */
    ghost predicate Bumped(b: Block, before: seq<Batch>, current: nat)
      requires current < |before|
      reads this
    {
      && free == [] && b.page == currentBatch < |pages| && pages[currentBatch].used == b.number + 1
      && (!Exhausted(before[current], objectPerAllocation) ==>
            currentBatch == current && b.number == before[current].used && pages[current].end == before[current].end)
      && (|before| == 1 && Exhausted(before[0], objectPerAllocation) ==>
            b.number == 0 && pages[currentBatch].end == objectsPerPage)
    }

    /** allocate: the block returned was not live and shares no storage with a
        live block; if the block size divides the page size it also lies inside
        its page. */
    method Allocate() returns (b: Block)
      requires Valid()
      modifies this
      ensures Valid() && b !in old(live) && live == old(live) + {b}
      ensures forall l :: l in old(live) ==> !Overlap(b, l, objectPerAllocation)
      ensures old(InBounds()) && Multiple(objectsPerPage, objectPerAllocation) ==>
                && InBounds() && b.page < |pages|
                && Offset(b, objectPerAllocation) + objectPerAllocation <= pages[b.page].end <= pages[b.page].capacity
      ensures old(free) != [] ==> b == old(free)[0] && free == old(free)[1..] && pages == old(pages)
      ensures old(free) == [] ==> Bumped(b, old(pages), old(currentBatch))
    {
      hide Overlap, PagesOk, WithinPages, Chain;
      if freeHead.Some? {
        assert free != [] by { ChainHead(memory, freeHead, free); }
        b := PopFree();
      } else {
        assert free == [] by { ChainHead(memory, freeHead, free); }
        SelectBatch();
        ghost var selected := pages;
        b := BumpBatch();
        if old(InBounds()) && Multiple(objectsPerPage, objectPerAllocation) {
          StillWithin(old(pages), selected, pages, currentBatch, objectPerAllocation, objectsPerPage);
        }
      }
      if InBounds() { InsidePage(pages, b, objectPerAllocation, objectsPerPage); }
      BlocksApart(b, old(live));
    }

    /** Distinct blocks never share storage. */
    lemma BlocksApart(b: Block, others: set<Block>)
      requires b !in others
      ensures forall o :: o in others ==> !Overlap(b, o, objectPerAllocation)
    {
      forall o | o in others ensures !Overlap(b, o, objectPerAllocation) {
        if b.page == o.page { ProductsApart(b.number, o.number, objectPerAllocation); }
      }
    }

    /** An object slot of a page lies in a block. */
    predicate Covers(b: Block, page: nat, slot: nat) {
      b.page == page && Offset(b, objectPerAllocation) <= slot < Offset(b, objectPerAllocation) + objectPerAllocation
    }

    /** The partition: every object slot of every page lies in exactly one live block, in
        exactly one block of the free list, or in the page's never-used tail, and in no two
        of the three. */
    lemma Partition(page: nat, slot: nat)
      requires Valid() && page < |pages| && slot < pages[page].end
      ensures var tail := objectPerAllocation * pages[page].used <= slot;
              if tail then forall b :: b in live || b in free ==> !Covers(b, page, slot)
              else exists b :: Covers(b, page, slot) && (b in live <==> b !in free)
                               && forall c :: (c in live || c in free) && Covers(c, page, slot) ==> c == b
    {
      if objectPerAllocation * pages[page].used <= slot {
        forall b | b in live || b in free ensures !Covers(b, page, slot) {
          assert Issued(pages, b);
          if b.page == page { BlockBelow(b.number, pages[page].used, objectPerAllocation); }
        }
      } else {
        SlotCovered(page, slot);
      }
    }

    lemma SlotCovered(page: nat, slot: nat)
      requires Valid() && page < |pages| && slot < objectPerAllocation * pages[page].used
      ensures exists b :: Covers(b, page, slot) && (b in live <==> b !in free)
                          && forall c :: (c in live || c in free) && Covers(c, page, slot) ==> c == b
    {
      hide PagesOk, Chain;
      var b := Block(page, slot / objectPerAllocation);
      SlotBlock(slot, objectPerAllocation, pages[page].used);
      assert Issued(pages, b) && Covers(b, page, slot);
      forall c | (c in live || c in free) && Covers(c, page, slot) ensures c == b {
        if c.number != b.number { ProductsApart(c.number, b.number, objectPerAllocation); }
      }
    }
  }

  lemma BlockBelow(x: nat, used: nat, n: nat)
    requires x < used
    ensures n * x + n <= n * used
  {
    MoreIsMore(x + 1, used, n);
  }

  lemma SlotBlock(slot: nat, n: nat, used: nat)
    requires n >= 1 && slot < n * used
    ensures slot / n < used && n * (slot / n) <= slot < n * (slot / n) + n
  {
    var q := slot / n;
    assert slot == n * q + slot % n;
    if q >= used { MoreIsMore(used, q, n); }
  }

  lemma ProductsApart(x: nat, y: nat, n: nat)
    requires x != y
    ensures n * x + n <= n * y || n * y + n <= n * x
  {
    if x < y {
      assert n * (x + 1) <= n * y;
    } else {
      assert n * (y + 1) <= n * x;
    }
  }

  lemma MoreIsMore(x: nat, y: nat, n: nat)
    requires x <= y
    ensures n * x <= n * y
  {
  }

  lemma ChainHead(memory: map<Block, Option<Block>>, head: Option<Block>, free: seq<Block>)
    requires Chain(memory, head, free)
    ensures head.Some? <==> free != []
  {
  }

  lemma AtLeastOnce(n: nat, k: nat)
    requires n >= 1
    ensures k <= n * k
  {
    if n > 1 { assert k + (n - 1) * k == n * k; }
  }

  /** The end test stops at the page's end when that is a whole number of
      blocks. */
  lemma NextMultiple(k: nat, n: nat, end: nat, p: nat)
    requires Multiple(p, n) && (end == 0 || end == p) && n * k < end
    ensures n * (k + 1) <= end
  {
    var q: nat :| n * q == p;
    ProductsApart(k, q, n);
  }

  lemma StillWithin(before: seq<Batch>, selected: seq<Batch>, after: seq<Batch>, current: nat, n: nat, p: nat)
    requires Multiple(p, n) && WithinPages(before, n) && PagesOk(selected, n, p) && current < |selected|
    requires selected == before || (|selected| == |before| + 1 && selected[..|before|] == before && selected[|before|].used == 0)
    requires !Exhausted(selected[current], n)
    requires after == selected[current := selected[current].(used := selected[current].used + 1)]
    ensures WithinPages(after, n)
  {
    assert forall i :: 0 <= i < |before| ==> selected[i] == before[i];
    assert WithinPages(selected, n);
    NextMultiple(selected[current].used, n, selected[current].end, p);
  }

  lemma InsidePage(pages: seq<Batch>, b: Block, n: nat, p: nat)
    requires n >= 1 && PagesOk(pages, n, p) && WithinPages(pages, n) && Issued(pages, b)
    ensures Offset(b, n) + n <= pages[b.page].end <= pages[b.page].capacity
  {
    var used, end := pages[b.page].used, pages[b.page].end;
    assert n * used <= end && pages[b.page].capacity == n * end;
    ProductsApart(b.number, used, n);
    MoreIsMore(b.number, used, n);
    AtLeastOnce(n, end);
  }

  /** Without divisibility the end test is never met: for every such pair of
      sizes, allocating without releasing walks off the memory of the first
      page. */
  method Overrun(objectPerAllocation: nat, objectsPerPage: nat) returns (a: Allocator, b: Block)
    requires objectPerAllocation >= 1 && objectsPerPage >= 16 && !Multiple(objectsPerPage, objectPerAllocation)
    ensures a.Valid() && b in a.live && b.page < |a.pages|
    ensures Offset(b, objectPerAllocation) >= a.pages[b.page].capacity > 0
  {
    a := new Allocator(objectPerAllocation, objectsPerPage);
    b := a.Allocate();
    var i := 1;
    while i <= objectsPerPage
      invariant 1 <= i <= objectsPerPage + 1
      invariant fresh(a) && a.objectPerAllocation == objectPerAllocation && a.objectsPerPage == objectsPerPage
      invariant a.Valid() && b in a.live && a.free == [] && b.page == a.currentBatch
      invariant b.number == i - 1
      invariant a.pages[a.currentBatch].used == i && a.pages[a.currentBatch].end == objectsPerPage
    {
      b := a.Allocate();
      i := i + 1;
    }
    AtLeastOnce(objectPerAllocation, objectsPerPage);
  }
}
