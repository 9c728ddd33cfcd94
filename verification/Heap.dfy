/**
 The kernel heap (kernel/memory.c:468-611).  The ghost list `blocks` is what following `next`
 from the first block meets.
 */
module Heap {
  import opened Types
  import opened PageTree
  import opened TablePool
  import opened Vmm
  import opened Blocks
  import opened Headers
  import opened HeapPages

  const INITIAL_HEAP: int := 4 * 1024 * 1024
  const HEAP_MAX: int := 0xFFFF_8000_FFFF_FFFF

  // ---------- searching ----------

  predicate Fits(b: Block, size: int) {
    b.free && b.size >= size
  }

  /** Among the first `n` blocks, `i` is the earliest of the smallest free ones that are large enough. */
  ghost predicate BestFit(bs: seq<Block>, n: int, size: int, i: int) {
    && 0 <= i < n <= |bs| && Fits(bs[i], size)
    && (forall j | 0 <= j < n && Fits(bs[j], size) :: bs[i].size <= bs[j].size)
    && (forall j | 0 <= j < i && Fits(bs[j], size) :: bs[i].size < bs[j].size)
  }

  ghost predicate NoFit(bs: seq<Block>, n: int, size: int)
    requires n <= |bs|
  {
    forall j | 0 <= j < n :: !Fits(bs[j], size)
  }

  /** The heap's pages when it ends at `end`. */
  function PagesUpTo(end: int): int {
    (end - HEAP_START) / PAGE_SIZE
  }

  lemma PagesBehind(end: int, pages: int)
    requires HEAP_START <= end && (end - HEAP_START) % 4096 == 0 && 0 <= pages
    ensures PagesUpTo(end + pages * PAGE_SIZE) == PagesUpTo(end) + pages
    ensures (end + pages * PAGE_SIZE - HEAP_START) % 4096 == 0
    ensures end + pages * PAGE_SIZE == HEAP_START + (PagesUpTo(end) + pages) * 4096
  {
  }

  /** Pages added for a request of `size` bytes that fits nowhere. */
  function GrowthPages(size: int): int {
    (HEADER + size + PAGE_SIZE - 1) / PAGE_SIZE
  }

  // The largest request whose sums in `kmalloc` fit a 64-bit word
  const MAX_REQUEST: int := TWO64 - 4120

  /** The pages that `kmalloc` adds for `size` bytes, as it computes them in 64-bit words. */
  function GrowthWord(size: int): int {
    ((HEADER + size) % TWO64 + PAGE_SIZE - 1) % TWO64 / PAGE_SIZE
  }

  /** The rounded size holds the request and the added pages hold a header and it, if and only if no sum wraps. */
  lemma RequestIff(request: int)
    requires 0 <= request < TWO64
    ensures var size := (request + 3) % TWO64 / 4 * 4;
            && (request <= size && HEADER + size <= GrowthWord(size) * PAGE_SIZE <==> request <= MAX_REQUEST)
            && (request <= MAX_REQUEST ==> size == RoundUp4(request) && GrowthWord(size) == GrowthPages(size))
  {
    if request + 3 < TWO64 {
      assert (request + 3) % TWO64 == request + 3;
      GrowthIff(RoundUp4(request));
    } else {
      assert (request + 3) % TWO64 == request + 3 - TWO64;
    }
  }

  lemma GrowthIff(size: int)
    requires 0 <= size < TWO64 && size % 4 == 0
    ensures size <= MAX_REQUEST ==>
              GrowthWord(size) == GrowthPages(size) && HEADER + size <= GrowthPages(size) * PAGE_SIZE
    ensures size > MAX_REQUEST ==> GrowthWord(size) * PAGE_SIZE < HEADER + size
  {
    if HEADER + size + PAGE_SIZE - 1 < TWO64 {
      assert (HEADER + size) % TWO64 == HEADER + size;
    } else if HEADER + size < TWO64 {
      assert (HEADER + size + PAGE_SIZE - 1) % TWO64 == HEADER + size + PAGE_SIZE - 1 - TWO64;
    } else {
      assert (HEADER + size) % TWO64 == HEADER + size - TWO64;
    }
  }

  /** The heap right after initialisation. */
  const WHOLE_HEAP: seq<Block> := [Block(HEAP_START, INITIAL_HEAP - HEADER, true)]

  class KernelHeap {
    const vm: Vmm
    var headers: map<int, Header>
    var first: int
    var heapEnd: int
    var stores: set<int>                   // the headers written by the last call
    ghost var blocks: seq<Block>

    ghost predicate Listed()
      reads this`headers, this`first, this`heapEnd, this`blocks
    {
      if first == NULL then blocks == [] && heapEnd == HEAP_START
      else first == HEAP_START && blocks != [] && Tiles(blocks, HEAP_START, heapEnd) && Stored(headers, blocks)
    }

    ghost predicate Mapped()
      reads this`heapEnd, vm
    {
      && vm.Valid()
      && HEAP_START <= heapEnd <= HEAP_START + HEAP_LIMIT_PAGES * 4096
      && (heapEnd - HEAP_START) % 4096 == 0
      && Backed(vm.translation, PagesUpTo(heapEnd), vm.issued)
    }

    ghost predicate Valid()
      reads this`headers, this`first, this`heapEnd, this`blocks, vm
    {
      Listed() && Coalesced(blocks) && Mapped()
    }

    /** Every address of the heap can be written: all four entries of its walk are present and writable. */
    lemma HeapWritable(v: int)
      requires Valid() && HEAP_START <= v < heapEnd
      ensures AllowedAt(vm.tables, vm.pml4, v, 2)
    {
      PagesBehind(heapEnd, 0);
      HeapPageOf(v, PagesUpTo(heapEnd));
      assert HeapEntry(vm.translation, PageOf(v)) && Translates(vm.State(), vm.translation, PageOf(v));
      WritableBits(vm.translation[PageOf(v)]);
      HeapWalkWritable(vm.State(), vm.nodes, vm.pool, vm.bootstrapUsed, v);
    }

    constructor (vmm: Vmm)
      requires vmm.Valid()
      ensures Valid() && vm == vmm && first == NULL
    {
      vm, headers, first, heapEnd, stores, blocks := vmm, map[], NULL, HEAP_START, {}, [];
    }

    /** Maps heap page `n` to a fresh frame: the body of the loops of initialisation and of growth. */
    method MapHeapPage(n: int) returns (ok: bool)
      requires vm.Valid() && Backed(vm.translation, n, vm.issued) && 0 <= n <= HEAP_LIMIT_PAGES
      modifies vm
      ensures vm.refusals == old(vm.refusals) + if ok then 0 else 1
      ensures vm.Valid() && vm.issued == old(vm.issued) + 1
      ensures ok ==> n < HEAP_LIMIT_PAGES && old(vm.issued) != FRAME_LIMIT
      ensures Backed(vm.translation, if ok then n + 1 else n, vm.issued)
      ensures Extended(old(vm.translation), vm.translation, n, if ok then n + 1 else n, old(vm.issued), vm.issued)
      ensures TablesCounted(ok, n + 1, old(vm.issued) < FRAME_LIMIT,
                            old(vm.linked), old(vm.bootstrapUsed), vm.linked, vm.bootstrapUsed)
    {
      MappedLinked(vm, n);
      BackedLater(vm.translation, n, vm.issued, vm.issued + 1);
      var frame := vm.AllocPhysicalPage();
      if frame == NULL {
        CountedNothing(n + 1, vm.linked, vm.bootstrapUsed);
        return false;
      }
      HeapDigits(n);
      var status := vm.MapPage(HEAP_START + n * PAGE_SIZE, frame, PAGE_PRESENT + PAGE_WRITABLE);
      ok := status == 0;
      if ok { NextPageBacked(vm, old(vm.translation), n, old(vm.issued), frame); }
      CountedStep(n, ok, old(vm.issued) < FRAME_LIMIT,
                  old(vm.linked), old(vm.bootstrapUsed), vm.linked, vm.bootstrapUsed);
    }

    /** Maps `count` fresh frames behind the first `n` heap pages. */
    method MapHeapPages(n: int, count: int) returns (ok: bool)
      requires vm.Valid() && Backed(vm.translation, n, vm.issued) && 0 <= n <= HEAP_LIMIT_PAGES && 0 <= count
      modifies vm
      ensures vm.refusals == old(vm.refusals) + if ok then 0 else 1
      ensures vm.Valid() && vm.issued <= old(vm.issued) + count
      ensures old(vm.issued) <= FRAME_LIMIT ==> vm.issued <= if ok then FRAME_LIMIT else FRESH_CALLS
      ensures ok ==> n + count <= HEAP_LIMIT_PAGES
      ensures Backed(vm.translation, if ok then n + count else n, vm.issued)
      ensures Extended(old(vm.translation), vm.translation, n, if ok then n + count else n, old(vm.issued), vm.issued)
      ensures TablesCounted(ok, n + count, old(vm.issued) + count <= FRAME_LIMIT,
                            old(vm.linked), old(vm.bootstrapUsed), vm.linked, vm.bootstrapUsed)
    {
      MappedLinked(vm, n);
      CountedNone(n, vm.linked, vm.bootstrapUsed);
      var page := n;
      while page < n + count
        invariant n <= page <= n + count && vm.Valid() && vm.issued == old(vm.issued) + page - n
        invariant vm.refusals == old(vm.refusals)
        invariant old(vm.issued) <= FRAME_LIMIT ==> vm.issued <= FRAME_LIMIT
        invariant page <= HEAP_LIMIT_PAGES && Backed(vm.translation, page, vm.issued)
        invariant Extended(old(vm.translation), vm.translation, n, page, old(vm.issued), vm.issued)
        invariant TablesCounted(true, page, true, old(vm.linked), old(vm.bootstrapUsed), vm.linked, vm.bootstrapUsed)
      {
        ok := MapNextPage(n, page, count, old(vm.translation), old(vm.issued), old(vm.linked), old(vm.bootstrapUsed));
        if !ok {
          return;
        }
        page := page + 1;
      }
      assert page == n + count;
      CountedWeaker(page, old(vm.issued) + count <= FRAME_LIMIT,
                    old(vm.linked), old(vm.bootstrapUsed), vm.linked, vm.bootstrapUsed);
      return true;
    }

    /** One turn of the loop, where the ghost parameters describe the state before the first. */
    method MapNextPage(n: int, page: int, ghost count: int, ghost tr: map<int, int>, ghost issued: int,
                       ghost linked: set<TableName>, ghost used: int)
      returns (ok: bool)
      requires vm.Valid() && 0 <= n <= page < n + count && page <= HEAP_LIMIT_PAGES
      requires Backed(vm.translation, page, vm.issued) && vm.issued == issued + page - n
      requires Extended(tr, vm.translation, n, page, issued, vm.issued)
      requires TablesCounted(true, page, true, linked, used, vm.linked, vm.bootstrapUsed)
      modifies vm
      ensures vm.refusals == old(vm.refusals) + if ok then 0 else 1
      ensures vm.Valid() && vm.issued == old(vm.issued) + 1
      ensures ok ==> page < HEAP_LIMIT_PAGES && old(vm.issued) != FRAME_LIMIT
      ensures Backed(vm.translation, if ok then page + 1 else n, vm.issued)
      ensures Extended(tr, vm.translation, n, if ok then page + 1 else n, issued, vm.issued)
      ensures ok ==> TablesCounted(true, page + 1, true, linked, used, vm.linked, vm.bootstrapUsed)
      ensures !ok ==>
                TablesCounted(false, n + count, issued + count <= FRAME_LIMIT,
                              linked, used, vm.linked, vm.bootstrapUsed)
    {
      ok := MapHeapPage(page);
      ghost var l := if ok then page + 1 else page;
      ExtendedStep(tr, old(vm.translation), vm.translation, n, page, l, issued, old(vm.issued), vm.issued);
      CountedMore(page, linked, used, old(vm.linked), old(vm.bootstrapUsed),
                  ok, old(vm.issued) < FRAME_LIMIT, vm.linked, vm.bootstrapUsed);
      if ok {
        CountedSuccess(page + 1, old(vm.issued) < FRAME_LIMIT, linked, used, vm.linked, vm.bootstrapUsed);
      } else {
        BackedFewer(vm.translation, page, n, vm.issued);
        CountedFailure(page + 1, n + count, old(vm.issued) < FRAME_LIMIT, issued + count <= FRAME_LIMIT,
                       linked, used, vm.linked, vm.bootstrapUsed);
      }
    }

    /** Maps the first four MiB and writes one free block over them. */
    method InitHeap() returns (ok: bool)
      requires Valid() && first == NULL
      modifies this`headers, this`first, this`heapEnd, this`blocks, this`stores, vm
      ensures vm.refusals == old(vm.refusals) + if ok then 0 else 1
      ensures Valid() && (old(vm.issued) <= FRAME_LIMIT ==> vm.issued <= if ok then FRAME_LIMIT else FRESH_CALLS)
      ensures Extended(old(vm.translation), vm.translation, 0, PagesUpTo(heapEnd), old(vm.issued), vm.issued)
      ensures ok ==> blocks == WHOLE_HEAP && heapEnd == HEAP_START + INITIAL_HEAP && first == HEAP_START
      ensures ok ==> headers == old(headers)[HEAP_START := Header(INITIAL_HEAP - HEADER, NULL, true)]
      ensures !ok ==> blocks == [] && heapEnd == HEAP_START && first == NULL && headers == old(headers)
      ensures stores == old(stores) + if ok then {HEAP_START} else {}
      ensures vm.issued <= old(vm.issued) + 1024
      ensures TablesCounted(ok, 1024, old(vm.issued) + 1024 <= FRAME_LIMIT,
                            old(vm.linked), old(vm.bootstrapUsed), vm.linked, vm.bootstrapUsed)
    {
      ok := MapHeapPages(0, INITIAL_HEAP / PAGE_SIZE);
      if ok {
        WriteFirstBlock();
      }
    }

    method WriteFirstBlock()
      modifies this`headers, this`first, this`heapEnd, this`blocks, this`stores
      ensures Listed() && blocks == WHOLE_HEAP && heapEnd == HEAP_START + INITIAL_HEAP && first == HEAP_START
      ensures headers == old(headers)[HEAP_START := Header(INITIAL_HEAP - HEADER, NULL, true)]
      ensures stores == old(stores) + {HEAP_START}
    {
      first := HEAP_START;
      headers := headers[first := Header(INITIAL_HEAP - HEADER, NULL, true)];
      stores := stores + {first};
      blocks := WHOLE_HEAP;
      heapEnd := HEAP_START + INITIAL_HEAP;
      assert StoredAt(headers, blocks, 0);
    }

    /** The best-fit scan: the block to use, or NULL if none is free and large enough. */
    method FindBestFit(size: int) returns (best: int, ghost i: int)
      requires Listed() && first != NULL
      ensures best == NULL <==> NoFit(blocks, |blocks|, size)
      ensures best != NULL ==> BestFit(blocks, |blocks|, size, i) && best == blocks[i].addr >= HEAP_START
    {
      var current := first;
      best, i := NULL, 0;
      ghost var k := 0;
      while current != NULL
        invariant 0 <= k <= |blocks|
        invariant current == if k < |blocks| then blocks[k].addr else NULL
        invariant best == NULL ==> NoFit(blocks, k, size)
        invariant best != NULL ==> BestFit(blocks, k, size, i) && best == blocks[i].addr >= HEAP_START
        decreases |blocks| - k
      {
        assert StoredAt(headers, blocks, k);
        if best != NULL { assert StoredAt(headers, blocks, i); }
        Bounds(blocks, HEAP_START, heapEnd, k);
        if k + 1 < |blocks| { Bounds(blocks, HEAP_START, heapEnd, k + 1); }
        if headers[current].free && headers[current].size >= size {
          if best == NULL || headers[current].size < headers[best].size {
            best, i := current, k;
          }
        }
        current := headers[current].next;
        k := k + 1;
      }
      if k < |blocks| { Bounds(blocks, HEAP_START, heapEnd, k); }
    }

    /** The address of the last block: the walk that links a new block in. */
    method LastBlock() returns (last: int)
      requires Listed() && first != NULL
      ensures last == blocks[|blocks| - 1].addr
    {
      last := first;
      ghost var k := 0;
      assert StoredAt(headers, blocks, 0);
      while headers[last].next != NULL
        invariant 0 <= k < |blocks| && last == blocks[k].addr && StoredAt(headers, blocks, k)
        decreases |blocks| - k
      {
        last := headers[last].next;
        k := k + 1;
        assert StoredAt(headers, blocks, k);
      }
      if k + 1 < |blocks| { Bounds(blocks, HEAP_START, heapEnd, k + 1); }
    }

    /** Uses free block `i` whole or splits it. */
    method PlaceIn(best: int, size: int, ghost i: int)
      requires Listed() && first != NULL && stores <= headers.Keys
      requires 0 <= i < |blocks| && best == blocks[i].addr && blocks[i].free && 0 <= size <= blocks[i].size
      requires Tiles(Place(blocks, i, size), HEAP_START, heapEnd)
      modifies this`headers, this`blocks, this`stores
      ensures Listed() && blocks == Place(old(blocks), i, size)
      ensures Logged(old(headers), old(blocks), old(stores), headers, blocks, stores)
    {
      StoredPlace(headers, blocks, HEAP_START, heapEnd, i, size);
      PlacedLogged(headers, blocks, stores, i, size);
      if headers[best].size <= size + SLACK {
        headers := headers[best := headers[best].(free := false)];
        stores := stores + {best};
      } else {
        var newBlock := best + HEADER + size;
        headers := headers[newBlock := Header(headers[best].size - size - HEADER, headers[best].next, true)];
        headers := headers[best := Header(size, newBlock, false)];
        stores := stores + {newBlock, best};
      }
      blocks := Place(blocks, i, size);
    }

    /**
     Maps enough pages behind the heap for `size` bytes and appends a free block over them.  While
     the heap has the pool to itself and frames are left, that succeeds exactly within 28 MiB.
     */
    method ExtendHeap(size: int) returns (best: int)
      requires Valid() && first != NULL && stores <= headers.Keys && 0 <= size
      modifies this`headers, this`heapEnd, this`blocks, this`stores, vm
      ensures vm.refusals == old(vm.refusals) + if best != NULL then 0 else 1
      ensures Listed() && Mapped()
      ensures old(vm.issued) <= FRAME_LIMIT ==> vm.issued <= if best != NULL then FRAME_LIMIT else FRESH_CALLS
      ensures Extended(old(vm.translation), vm.translation, PagesUpTo(old(heapEnd)), PagesUpTo(heapEnd),
                       old(vm.issued), vm.issued)
      ensures best == NULL ==>
                headers == old(headers) && heapEnd == old(heapEnd) && blocks == old(blocks) && stores == old(stores)
      ensures best != NULL ==>
                && best == old(heapEnd) && heapEnd == old(heapEnd) + GrowthPages(size) * PAGE_SIZE
                && blocks == old(blocks) + [Block(old(heapEnd), GrowthPages(size) * PAGE_SIZE - HEADER, true)]
                && Logged(old(headers), old(blocks), old(stores), headers, blocks, stores)
      ensures old(HeapAlone(vm.linked, vm.bootstrapUsed)) ==>
                && HeapAlone(vm.linked, vm.bootstrapUsed)
                && (old(vm.issued) + GrowthPages(size) <= FRAME_LIMIT ==>
                      (best != NULL <==> PagesUpTo(old(heapEnd)) + GrowthPages(size) <= HEAP_LIMIT_PAGES))
    {
      var needed := HEADER + size;
      var pages := (needed + PAGE_SIZE - 1) / PAGE_SIZE;
      var ok := MapBehind(pages);
      if !ok {
        return NULL;
      }
      PagesBehind(heapEnd, pages);
      best := heapEnd;
      AppendBlock(pages * PAGE_SIZE - HEADER);
      assert heapEnd == best + pages * PAGE_SIZE && PagesUpTo(heapEnd) == PagesUpTo(best) + pages;
    }

    /** Maps `pages` pages behind the heap. */
    method MapBehind(pages: int) returns (ok: bool)
      requires Mapped() && 0 <= pages
      modifies vm
      ensures vm.refusals == old(vm.refusals) + if ok then 0 else 1
      ensures vm.Valid() && (ok ==> PagesUpTo(heapEnd) + pages <= HEAP_LIMIT_PAGES)
      ensures old(vm.issued) <= FRAME_LIMIT ==> vm.issued <= if ok then FRAME_LIMIT else FRESH_CALLS
      ensures Backed(vm.translation, PagesUpTo(heapEnd) + (if ok then pages else 0), vm.issued)
      ensures Extended(old(vm.translation), vm.translation,
                       PagesUpTo(heapEnd), PagesUpTo(heapEnd) + (if ok then pages else 0), old(vm.issued), vm.issued)
      ensures old(HeapAlone(vm.linked, vm.bootstrapUsed)) ==>
                && HeapAlone(vm.linked, vm.bootstrapUsed)
                && (old(vm.issued) + pages <= FRAME_LIMIT ==>
                      (ok <==> PagesUpTo(heapEnd) + pages <= HEAP_LIMIT_PAGES))
    {
      var n := (heapEnd - HEAP_START) / PAGE_SIZE;
      ok := MapHeapPages(n, pages);
      if old(HeapAlone(vm.linked, vm.bootstrapUsed)) {
        AloneOutcome(ok, n + pages, old(vm.issued) + pages <= FRAME_LIMIT,
                     old(vm.linked), old(vm.bootstrapUsed), vm.linked, vm.bootstrapUsed);
      }
    }

    /** Writes the header of a new last block and links it behind the current last one. */
    method AppendBlock(size: int)
      requires Listed() && first != NULL && stores <= headers.Keys && size >= 0 && HEAP_START <= heapEnd
      modifies this`headers, this`heapEnd, this`blocks, this`stores
      ensures Listed() && heapEnd == old(heapEnd) + HEADER + size
      ensures blocks == old(blocks) + [Block(old(heapEnd), size, true)]
      ensures Logged(old(headers), old(blocks), old(stores), headers, blocks, stores)
    {
      StoredAppend(headers, blocks, HEAP_START, heapEnd, size);
      AppendAddrs(blocks, Block(heapEnd, size, true));
      AppendTiles(blocks, HEAP_START, heapEnd, Block(heapEnd, size, true));
      assert blocks[|blocks| - 1] in blocks;
      var last := LastBlock();
      headers := headers[heapEnd := Header(size, NULL, true)];
      headers := headers[last := headers[last].(next := heapEnd)];
      stores := stores + {heapEnd, last};
      blocks := blocks + [Block(heapEnd, size, true)];
      heapEnd := heapEnd + HEADER + size;
    }

    /** The list a search starts from: an uninitialised heap is first made one free block. */
    ghost function SearchList(): seq<Block>
      reads this`first, this`blocks
    {
      if first == NULL then WHOLE_HEAP else blocks
    }

    ghost function SearchEnd(): int
      reads this`first, this`heapEnd
    {
      if first == NULL then HEAP_START + INITIAL_HEAP else heapEnd
    }

    /** Searches, and if nothing fits adds pages: leaves a free block `i` that is large enough. */
    method FindOrExtend(size: int) returns (best: int, ghost i: int)
      requires Valid() && first != NULL && stores <= headers.Keys && 0 <= size
      modifies this`headers, this`heapEnd, this`blocks, this`stores, vm
      ensures vm.refusals == old(vm.refusals) + if best != NULL then 0 else 1
      ensures Listed() && Mapped()
      ensures old(vm.issued) <= FRAME_LIMIT ==> vm.issued <= if best != NULL then FRAME_LIMIT else FRESH_CALLS
      ensures Extended(old(vm.translation), vm.translation, PagesUpTo(old(heapEnd)), PagesUpTo(heapEnd),
                       old(vm.issued), vm.issued)
      ensures best == NULL ==>
                headers == old(headers) && blocks == old(blocks) && heapEnd == old(heapEnd) && stores == old(stores)
      ensures best == NULL ==> NoFit(blocks, |blocks|, size)
      ensures best != NULL ==>
                && FoundIndex(old(blocks), size, i) && blocks == FoundList(old(blocks), old(heapEnd), size)
                && heapEnd == FoundEnd(old(blocks), old(heapEnd), size) && best == blocks[i].addr >= HEAP_START
                && Logged(old(headers), old(blocks), old(stores), headers, blocks, stores)
      ensures old(HeapAlone(vm.linked, vm.bootstrapUsed)) ==>
                && HeapAlone(vm.linked, vm.bootstrapUsed)
                && (old(vm.issued) + GrowthPages(size) <= FRAME_LIMIT ==>
                      (best == NULL <==> CannotGrow(old(blocks), old(heapEnd), size)))
    {
      best, i := FindBestFit(size);
      if best == NULL {
        best := ExtendHeap(size);
        i := |old(blocks)|;
      }
    }

    /** `kmalloc` on an initialised heap, the size already rounded. */
    method Allocate(size: int) returns (p: int, ghost i: int)
      requires Valid() && first != NULL && stores <= headers.Keys && 0 <= size
      modifies this`headers, this`heapEnd, this`blocks, this`stores, vm
      ensures vm.refusals == old(vm.refusals) + if p != NULL then 0 else 1
      ensures Valid() && first != NULL
      ensures old(vm.issued) <= FRAME_LIMIT ==> vm.issued <= if p != NULL then FRAME_LIMIT else FRESH_CALLS
      ensures Extended(old(vm.translation), vm.translation, PagesUpTo(old(heapEnd)), PagesUpTo(heapEnd),
                       old(vm.issued), vm.issued)
      ensures p == NULL ==>
                headers == old(headers) && blocks == old(blocks) && heapEnd == old(heapEnd) && stores == old(stores)
      ensures p == NULL ==> NoFit(blocks, |blocks|, size)
      ensures p != NULL ==>
                && Allocation(old(blocks), old(heapEnd), size, blocks, heapEnd, i) && p == blocks[i].addr + HEADER
                && Logged(old(headers), old(blocks), old(stores), headers, blocks, stores)
      ensures old(HeapAlone(vm.linked, vm.bootstrapUsed)) ==>
                && HeapAlone(vm.linked, vm.bootstrapUsed)
                && (old(vm.issued) + GrowthPages(size) <= FRAME_LIMIT ==>
                      (p == NULL <==> CannotGrow(old(blocks), old(heapEnd), size)))
    {
      ghost var list, end, h, s := blocks, heapEnd, headers, stores;
      var best;
      best, i := FindOrExtend(size);
      if best == NULL {
        return NULL, 0;
      }
      PlaceFound(best, size, i, list, end, h, s);
      p := best + HEADER;
    }

    /** Places the allocation in the block that was found or added. */
    method PlaceFound(best: int, size: int, ghost i: int,
                      ghost list: seq<Block>, ghost end: int, ghost h: map<int, Header>, ghost s: set<int>)
      requires Listed() && first != NULL && 0 <= size && list != [] && Tiles(list, HEAP_START, end) && Coalesced(list)
      requires FoundIndex(list, size, i) && blocks == FoundList(list, end, size) && heapEnd == FoundEnd(list, end, size)
      requires 0 <= i < |blocks| && best == blocks[i].addr && Logged(h, list, s, headers, blocks, stores)
      modifies this`headers, this`blocks, this`stores
      ensures Listed() && Coalesced(blocks) && Allocation(list, end, size, blocks, heapEnd, i)
      ensures 0 <= i < |blocks| && best == blocks[i].addr && Logged(h, list, s, headers, blocks, stores)
    {
      ghost var list', h', s' := blocks, headers, stores;
      FoundFits(list, HEAP_START, end, size, i);
      AllocationKeeps(list, HEAP_START, end, size, Place(blocks, i, size), heapEnd, i);
      PlaceIn(best, size, i);
      LoggedMore(h, list, s, h', list', s', headers, blocks, stores);
    }

    /** Makes an uninitialised heap one free block; leaves an initialised one alone. */
    method EnsureInitialised() returns (ok: bool)
      requires Valid() && stores <= headers.Keys
      modifies this`headers, this`first, this`heapEnd, this`blocks, this`stores, vm
      ensures vm.refusals == old(vm.refusals) + if ok then 0 else 1
      ensures Valid()
      ensures old(vm.issued) <= FRAME_LIMIT ==> vm.issued <= if ok then FRAME_LIMIT else FRESH_CALLS
      ensures Extended(old(vm.translation), vm.translation, PagesUpTo(old(heapEnd)), PagesUpTo(heapEnd),
                       old(vm.issued), vm.issued)
      ensures old(first) != NULL ==> ok && headers == old(headers) && unchanged(vm)
      ensures ok ==> first != NULL && blocks == old(SearchList()) && heapEnd == old(SearchEnd())
      ensures ok ==> Logged(old(headers), old(blocks), old(stores), headers, blocks, stores)
      ensures !ok ==>
                blocks == old(blocks) && headers == old(headers) && heapEnd == old(heapEnd) && stores == old(stores)
      ensures Live(blocks) == old(Live(blocks))
      ensures old(HeapAlone(vm.linked, vm.bootstrapUsed)) ==>
                && HeapAlone(vm.linked, vm.bootstrapUsed)
                && (old(vm.issued) + 1024 <= FRAME_LIMIT ==> ok) && vm.issued <= old(vm.issued) + 1024
    {
      ok := true;
      if first == NULL {
        ok := InitHeap();
        if old(HeapAlone(vm.linked, vm.bootstrapUsed)) {
          AloneOutcome(ok, 1024, old(vm.issued) + 1024 <= FRAME_LIMIT,
                       old(vm.linked), old(vm.bootstrapUsed), vm.linked, vm.bootstrapUsed);
        }
      }
    }

    /**
     `kmalloc`.  A result `p` is the payload address of a new live block `i` of at least the
     requested size, in the best fit if there is one and else in pages added at the end; every
     other live block stays as it is.  NULL means that pages could not be mapped, and then no
     block changed.  No header store touches a live payload.  While the heap has the pool to
     itself and frames are left, NULL is returned exactly if the heap would exceed 28 MiB.
     */
    method Kmalloc(request: int) returns (p: int, ghost i: int)
      requires Valid() && 0 <= request <= MAX_REQUEST
      modifies this`headers, this`first, this`heapEnd, this`blocks, this`stores, vm
      ensures vm.refusals == old(vm.refusals) + if p != NULL then 0 else 1
      ensures Valid() && heapEnd <= HEAP_START + 28 * 1024 * 1024 < HEAP_MAX
      ensures old(vm.issued) <= FRAME_LIMIT ==> vm.issued <= if p != NULL then FRAME_LIMIT else FRESH_CALLS
      ensures Extended(old(vm.translation), vm.translation, PagesUpTo(old(heapEnd)), PagesUpTo(heapEnd),
                       old(vm.issued), vm.issued)
      ensures p == NULL ==> Live(blocks) == old(Live(blocks))
      ensures p == NULL && old(first) != NULL ==>
                blocks == old(blocks) && heapEnd == old(heapEnd) && NoFit(blocks, |blocks|, RoundUp4(request))
      ensures p != NULL ==> Allocation(old(SearchList()), old(SearchEnd()), RoundUp4(request), blocks, heapEnd, i)
      ensures p != NULL ==> Outcome(old(SearchList()), old(SearchEnd()), RoundUp4(request), blocks, heapEnd, i)
      ensures p != NULL ==>
                && 0 <= i < |blocks| && p == blocks[i].addr + 24
                && !blocks[i].free && request <= blocks[i].size < request + 44
                && Live(blocks) == old(Live(blocks)) + {blocks[i]} && blocks[i] !in old(Live(blocks))
      ensures OnlyAt(old(headers), headers, stores) && stores <= Addrs(blocks) <= Addrs(old(blocks)) + stores
      ensures Addrs(old(blocks)) <= Addrs(blocks) && old(heapEnd) <= heapEnd
      ensures AllOutside(stores, old(blocks)) && AllOutside(stores, blocks)
      ensures old(HeapAlone(vm.linked, vm.bootstrapUsed)) ==>
                && HeapAlone(vm.linked, vm.bootstrapUsed)
                && (old(vm.issued) + 1024 + GrowthPages(RoundUp4(request)) <= FRAME_LIMIT ==>
                      (p == NULL <==> CannotGrow(old(SearchList()), old(SearchEnd()), RoundUp4(request))))
    {
      stores := {};
      RequestIff(request);
      var size := (request + 3) % TWO64 / 4 * 4;
      var ok := EnsureInitialised();
      if !ok {
        return NULL, 0;
      }
      ghost var list, end, h, s := blocks, heapEnd, headers, stores;
      ghost var tr, issued := vm.translation, vm.issued;
      p, i := Allocate(size);
      ExtendedStep(old(vm.translation), tr, vm.translation,
                   PagesUpTo(old(heapEnd)), PagesUpTo(end), PagesUpTo(heapEnd), old(vm.issued), issued, vm.issued);
      if p != NULL {
        AllocationKeeps(list, HEAP_START, end, size, blocks, heapEnd, i);
        AllocationInNumbers(list, end, size, blocks, heapEnd, i);
        LoggedMore(old(headers), old(blocks), {}, h, list, s, headers, blocks, stores);
      }
      StoresOutside(stores, blocks, HEAP_START, heapEnd, old(blocks));
    }

    /** The predecessor scan of `kfree`: the block that links to block `i`, or NULL for the first. */
    method FindPrevious(block: int, ghost i: int) returns (current: int)
      requires Listed() && first != NULL && 0 <= i < |blocks| && block == blocks[i].addr
      ensures current == if i == 0 then NULL else blocks[i - 1].addr
    {
      current := first;
      ghost var k := 0;
      assert StoredAt(headers, blocks, 0);
      while current != NULL && headers[current].next != block
        invariant 0 <= k <= |blocks| && (0 < i ==> k < i)
        invariant current == if k < |blocks| then blocks[k].addr else NULL
        invariant k < |blocks| ==> StoredAt(headers, blocks, k)
        decreases |blocks| - k
      {
        current := headers[current].next;
        k := k + 1;
        if k < |blocks| { assert StoredAt(headers, blocks, k); }
      }
      if k < |blocks| {
        Bounds(blocks, HEAP_START, heapEnd, k);
        Bounds(blocks, HEAP_START, heapEnd, i);
        if k + 1 < |blocks| { SameAddr(blocks, HEAP_START, heapEnd, k + 1, i); }
      }
    }

    method MarkFree(block: int, ghost i: int)
      requires Listed() && first != NULL && stores <= headers.Keys && 0 <= i < |blocks| && block == blocks[i].addr
      modifies this`headers, this`blocks, this`stores
      ensures Listed() && blocks == Marked(old(blocks), i)
      ensures stores == old(stores) + {block} && OnlyAt(old(headers), headers, stores)
    {
      StoredMark(headers, blocks, HEAP_START, heapEnd, i);
      MarkedTiles(blocks, HEAP_START, heapEnd, i);
      headers := headers[block := headers[block].(free := true)];
      stores := stores + {block};
      blocks := Marked(blocks, i);
    }

    method MergeWithNext(block: int, ghost i: int)
      requires Listed() && first != NULL && stores <= headers.Keys && 0 <= i < |blocks| && block == blocks[i].addr
      modifies this`headers, this`blocks, this`stores
      ensures Listed() && blocks == MergedNext(old(blocks), i) && blocks[i].addr == block
      ensures old(stores) <= stores <= old(stores) + {block} && OnlyAt(old(headers), headers, stores)
    {
      assert StoredAt(headers, blocks, i);
      var next := headers[block].next;
      if i + 1 < |blocks| {
        assert StoredAt(headers, blocks, i + 1);
        Bounds(blocks, HEAP_START, heapEnd, i + 1);
      }
      if next != NULL && headers[next].free {
        Absorb(block, next, i);
      }
    }

    method MergeWithPrevious(block: int, ghost i: int)
      requires Listed() && first != NULL && stores <= headers.Keys && 0 <= i < |blocks| && block == blocks[i].addr
      modifies this`headers, this`blocks, this`stores
      ensures Listed() && blocks == MergedPrev(old(blocks), i)
      ensures old(stores) <= stores <= old(stores) + if i == 0 then {} else {old(blocks)[i - 1].addr}
      ensures OnlyAt(old(headers), headers, stores)
    {
      var current := FindPrevious(block, i);
      if 0 < i {
        assert StoredAt(headers, blocks, i - 1);
        Bounds(blocks, HEAP_START, heapEnd, i - 1);
      }
      if current != NULL && headers[current].free {
        Absorb(current, block, i - 1);
      }
    }

    /** Block `i` takes over the size and the link of its successor. */
    method Absorb(block: int, next: int, ghost i: int)
      requires Listed() && first != NULL && stores <= headers.Keys && 0 <= i < |blocks| - 1
      requires block == blocks[i].addr && next == blocks[i + 1].addr
      modifies this`headers, this`blocks, this`stores
      ensures Listed() && blocks == Merge(old(blocks), i)
      ensures stores == old(stores) + {block} && OnlyAt(old(headers), headers, stores)
    {
      StoredMerge(headers, blocks, HEAP_START, heapEnd, i);
      MergeTiles(blocks, HEAP_START, heapEnd, i);
      headers := headers[block := Header(headers[block].size + HEADER + headers[next].size,
                                         headers[next].next, headers[block].free)];
      stores := stores + {block};
      blocks := Merge(blocks, i);
    }

    /** Marks block `i` free and merges it with a free successor and a free predecessor. */
    method Release(block: int, ghost i: int)
      requires Listed() && first != NULL && stores <= headers.Keys && 0 <= i < |blocks| && block == blocks[i].addr
      modifies this`headers, this`blocks, this`stores
      ensures Listed() && blocks == Freed(old(blocks), i)
      ensures stores <= old(stores) + {block} + if i == 0 then {} else {old(blocks)[i - 1].addr}
      ensures OnlyAt(old(headers), headers, stores)
    {
      MarkFree(block, i);
      MergeWithNext(block, i);
      MergeWithPrevious(block, i);
    }

    /** What freeing the live block `i` keeps. */
    method ReleaseLive(block: int, ghost i: int)
      requires Listed() && Coalesced(blocks) && stores == {}
      requires 0 <= i < |blocks| && !blocks[i].free && block == blocks[i].addr
      modifies this`headers, this`blocks, this`stores
      ensures Listed() && Coalesced(blocks)
      ensures blocks == Freed(old(blocks), i) && Live(blocks) == old(Live(blocks)) - {old(blocks)[i]}
      ensures OnlyAt(old(headers), headers, stores) && stores + Addrs(blocks) <= Addrs(old(blocks))
      ensures AllOutside(stores, old(blocks)) && AllOutside(stores, blocks)
    {
      ghost var list := blocks;
      FreedCoalesced(list, i);
      FreedLive(list, HEAP_START, heapEnd, i);
      FreedAddrs(list, i);
      assert list[i] in list && (0 < i ==> list[i - 1] in list);
      Release(block, i);
      StoresOutside(stores, list, HEAP_START, heapEnd, blocks);
    }

    /** `kfree` of the live block `i`. */
    method Kfree(ptr: int, ghost i: int)
      requires Valid()
      requires ptr != NULL ==> 0 <= i < |blocks| && !blocks[i].free && ptr == blocks[i].addr + HEADER
      modifies this`headers, this`blocks, this`stores
      ensures Valid()
      ensures ptr == NULL ==> headers == old(headers) && blocks == old(blocks) && stores == {}
      ensures ptr != NULL ==> blocks == Freed(old(blocks), i) && Live(blocks) == old(Live(blocks)) - {old(blocks)[i]}
      ensures OnlyAt(old(headers), headers, stores) && stores + Addrs(blocks) <= Addrs(old(blocks))
      ensures AllOutside(stores, old(blocks)) && AllOutside(stores, blocks)
    {
      stores := {};
      if ptr == NULL {
        return;
      }
      ReleaseLive(ptr - HEADER, i);
    }
  }

  /** The list after the search and, if nothing fits, the extension. */
  ghost function FoundList(list: seq<Block>, end: int, size: int): seq<Block> {
    if NoFit(list, |list|, size) then list + [Block(end, GrowthPages(size) * PAGE_SIZE - HEADER, true)] else list
  }

  ghost function FoundEnd(list: seq<Block>, end: int, size: int): int {
    if NoFit(list, |list|, size) then end + GrowthPages(size) * PAGE_SIZE else end
  }

  /** Nothing fits, and the pages for `size` bytes behind a heap that ends at `end` would exceed 28 MiB. */
  ghost predicate CannotGrow(list: seq<Block>, end: int, size: int) {
    NoFit(list, |list|, size) && PagesUpTo(end) + GrowthPages(size) > HEAP_LIMIT_PAGES
  }

  /** The block that is used: the best fit, or else the one added at the end. */
  ghost predicate FoundIndex(list: seq<Block>, size: int, i: int) {
    if NoFit(list, |list|, size) then i == |list| else BestFit(list, |list|, size, i)
  }

  /** The list and the heap end after an allocation of `size` bytes as block `i`. */
  ghost predicate Allocation(list: seq<Block>, end: int, size: int, r: seq<Block>, end': int, i: int) {
    && FoundIndex(list, size, i)
    && r == Place(FoundList(list, end, size), i, size)
    && end' == FoundEnd(list, end, size)
  }

  /** The blocks behind block `i`. */
  ghost function Behind(list: seq<Block>, i: int): seq<Block>
    requires 0 <= i
  {
    if i < |list| then list[i + 1..] else []
  }

  /** The block that serves a request: block `i` of the list, or one over the pages added from `end` to `end'`. */
  ghost function Source(list: seq<Block>, end: int, end': int, i: int): Block
    requires 0 <= i
  {
    if i < |list| then list[i] else Block(end, end' - end - 24, true)
  }

  /**
   What `kmalloc` does, in numbers.  The request is served by the best fit or, if nothing fits, by a block
   over the fewest whole pages that hold 24 bytes and the request.  A block more than 40 bytes too large is
   cut to the request and the rest becomes a free block behind it; any other is handed out as it is.  The
   other blocks stay.
   */
  ghost predicate Outcome(list: seq<Block>, end: int, size: int, r: seq<Block>, end': int, i: int) {
    && 0 <= i < |r| && i <= |list|
    && (if i < |list| then BestFit(list, |list|, size, i) && end' == end
        else NoFit(list, |list|, size) && (end' - end) % 4096 == 0 && end' - 4096 < end + 24 + size <= end')
    && var f := Source(list, end, end', i);
    && r[..i] == list[..i] && r[i].addr == f.addr && !r[i].free && size <= r[i].size <= size + 40
    && (if f.size > size + 40 then
          && r[i].size == size
          && r[i + 1..] == [Block(f.addr + 24 + size, f.size - size - 24, true)] + Behind(list, i)
        else
          r[i].size == f.size && r[i + 1..] == Behind(list, i))
  }

  lemma GrowthIsLeast(end: int, size: int, end': int)
    requires 0 <= size
    ensures end' == end + GrowthPages(size) * PAGE_SIZE <==>
            (end' - end) % 4096 == 0 && end' - 4096 < end + 24 + size <= end'
  {
    var n := (end' - end) / 4096;
    if (end' - end) % 4096 == 0 && end' - 4096 < end + 24 + size <= end' {
      assert end' - end == n * 4096 && (n - 1) * 4096 < 24 + size <= n * 4096;
    }
  }

  lemma PlaceInNumbers(found: seq<Block>, i: int, size: int, r: seq<Block>)
    requires 0 <= i < |found| && Fits(found[i], size)
    ensures r == Place(found, i, size) <==>
            && i < |r| && r[..i] == found[..i] && r[i].addr == found[i].addr && !r[i].free
            && (if found[i].size > size + 40 then
                  && r[i].size == size
                  && r[i + 1..] == [Block(found[i].addr + 24 + size, found[i].size - size - 24, true)] + found[i + 1..]
                else
                  r[i].size == found[i].size && r[i + 1..] == found[i + 1..])
  {
    if i < |r| { assert r == r[..i] + [r[i]] + r[i + 1..]; }
    var placed := Place(found, i, size);
    assert placed == placed[..i] + [placed[i]] + placed[i + 1..];
    assert placed[..i] == found[..i];
    if found[i].size <= size + 40 { assert placed[i + 1..] == found[i + 1..]; }
  }

  /** The model's allocation is exactly that. */
  lemma AllocationInNumbers(list: seq<Block>, end: int, size: int, r: seq<Block>, end': int, i: int)
    requires 0 <= size
    ensures Allocation(list, end, size, r, end', i) <==> Outcome(list, end, size, r, end', i)
  {
    GrowthIsLeast(end, size, end');
    if FoundIndex(list, size, i) && end' == FoundEnd(list, end, size) {
      var found := FoundList(list, end, size);
      assert 0 <= i < |found| && Fits(found[i], size) && found[i] == Source(list, end, end', i);
      assert found[..i] == list[..i] && found[i + 1..] == Behind(list, i);
      PlaceInNumbers(found, i, size, r);
    }
  }

  lemma FoundFits(list: seq<Block>, lo: int, end: int, size: int, i: int)
    requires Tiles(list, lo, end) && Coalesced(list) && list != [] && FoundIndex(list, size, i) && 0 <= size
    ensures var found := FoundList(list, end, size);
            && Tiles(found, lo, FoundEnd(list, end, size))
            && 0 <= i < |found| && Fits(found[i], size)
            && CoalescedBut(found, i)
  {
    assert GrowthPages(size) * PAGE_SIZE >= HEADER + size;
    AppendTiles(list, lo, end, Block(end, GrowthPages(size) * PAGE_SIZE - HEADER, true));
  }

  lemma FoundLive(list: seq<Block>, end: int, size: int)
    ensures Live(FoundList(list, end, size)) == Live(list)
  {
  }

  /** An allocation adds one live block, large enough, to a list that still tiles the heap and is still coalesced. */
  lemma AllocationKeeps(list: seq<Block>, lo: int, end: int, size: int, r: seq<Block>, end': int, i: int)
    requires Tiles(list, lo, end) && Coalesced(list) && list != [] && 0 <= size
    requires Allocation(list, end, size, r, end', i)
    ensures Tiles(r, lo, end') && Coalesced(r)
    ensures 0 <= i < |r| && !r[i].free && r[i].size >= size
    ensures Live(r) == Live(list) + {r[i]} && r[i] !in Live(list)
  {
    var found := FoundList(list, end, size);
    FoundFits(list, lo, end, size, i);
    FoundLive(list, end, size);
    PlaceKeeps(found, lo, end', i, size);
    PlaceLive(found, lo, end', i, size);
    assert r[i] == Taken(found[i], size);
  }

  /**
   An allocation that does not grow the heap and the release of its block give back the very same
   list; one that grows it leaves the one coalesced list of the larger heap with the old live blocks.
   */
  lemma AllocationRoundTrip(list: seq<Block>, lo: int, end: int, size: int, r: seq<Block>, end': int, i: int)
    requires Tiles(list, lo, end) && Coalesced(list) && list != [] && 0 <= size
    requires Allocation(list, end, size, r, end', i)
    ensures 0 <= i < |r| && Tiles(Freed(r, i), lo, end') && Coalesced(Freed(r, i)) && Live(Freed(r, i)) == Live(list)
    ensures end' == end ==> Freed(r, i) == list
  {
    AllocationKeeps(list, lo, end, size, r, end', i);
    FreedTiles(r, lo, end', i);
    FreedCoalesced(r, i);
    FreedLive(r, lo, end', i);
    if end' == end { CanonicalList(Freed(r, i), list, lo, end); }
  }

  // ---------- runs ----------

  datatype HeapState = HeapState(list: seq<Block>, end: int)

  const INITIALISED: HeapState := HeapState(WHOLE_HEAP, HEAP_START + INITIAL_HEAP)

  ghost predicate MallocStep(s: HeapState, t: HeapState, size: int, i: int) {
    0 <= size && Allocation(s.list, s.end, size, t.list, t.end, i)
  }

  ghost predicate FreeStep(s: HeapState, t: HeapState, i: int) {
    0 <= i < |s.list| && !s.list[i].free && t == HeapState(Freed(s.list, i), s.end)
  }

  /** A successful `kmalloc` of some size, or a `kfree` of some live block. */
  ghost predicate Step(s: HeapState, t: HeapState) {
    (exists size, i :: MallocStep(s, t, size, i)) || (exists i :: FreeStep(s, t, i))
  }

  ghost predicate IsRun(run: seq<HeapState>) {
    && run != [] && run[0] == INITIALISED
    && forall i, j | 0 <= i < |run| && 0 <= j < |run| && j == i + 1 :: Step(run[i], run[j])
  }

  ghost predicate CanonicalState(s: HeapState) {
    HEAP_START < s.end && Tiles(s.list, HEAP_START, s.end) && Coalesced(s.list)
  }

  lemma StepCanonical(s: HeapState, t: HeapState)
    requires CanonicalState(s) && Step(s, t)
    ensures CanonicalState(t) && s.end <= t.end
  {
    if i :| FreeStep(s, t, i) {
      FreedTiles(s.list, HEAP_START, s.end, i);
      FreedCoalesced(s.list, i);
    } else {
      var size, i :| MallocStep(s, t, size, i);
      AllocationKeeps(s.list, HEAP_START, s.end, size, t.list, t.end, i);
    }
  }

  /** In every state of every run the list tiles the heap and is fully coalesced. */
  lemma {:induction false} RunCanonical(run: seq<HeapState>, k: nat)
    requires IsRun(run) && k < |run|
    ensures CanonicalState(run[k])
  {
    if k > 0 {
      RunCanonical(run, k - 1);
      StepCanonical(run[k - 1], run[k]);
    }
  }

  /** The list is a function of the heap's extent and its live blocks, whatever runs led to it. */
  lemma RunsAgree(run: seq<HeapState>, k: nat, run': seq<HeapState>, k': nat)
    requires IsRun(run) && k < |run| && IsRun(run') && k' < |run'|
    requires run[k].end == run'[k'].end && Live(run[k].list) == Live(run'[k'].list)
    ensures run[k] == run'[k']
  {
    RunCanonical(run, k);
    RunCanonical(run', k');
    CanonicalList(run[k].list, run'[k'].list, HEAP_START, run[k].end);
  }

  /** From every reachable state, freeing the live blocks in any order leaves one block spanning the heap. */
  lemma RunCanBeUndone(run: seq<HeapState>, k: nat, p: seq<int>)
    requires IsRun(run) && k < |run| && forall b | b in Live(run[k].list) :: b.addr in p
    ensures FreedAll(run[k].list, p) == [Block(HEAP_START, run[k].end - HEAP_START - HEADER, true)]
  {
    RunCanonical(run, k);
    FreeEverything(run[k].list, HEAP_START, run[k].end, p);
  }

  /**
   From the boot state, initialising the heap succeeds, takes exactly 4 of the 16 pool tables and
   leaves no other table taken.
   */
  method BootHeap(root: int, initial: map<int, seq<int>>, ghost nodes: map<int, Node>, poolBase: int)
    returns (heap: KernelHeap)
    requires WellFormed(Tree(root, initial), nodes)
    requires poolBase % 4096 == 0 && 0 < poolBase
    requires forall a | InPool(a, poolBase, POOL_BYTES) :: a !in initial
    requires !Present(initial[root][HEAP_SLOT])
    ensures fresh(heap) && fresh(heap.vm)
    ensures heap.Valid() && heap.heapEnd == HEAP_START + 4 * 1024 * 1024
    ensures heap.blocks == WHOLE_HEAP == [Block(HEAP_START, 4 * 1024 * 1024 - 24, true)]
    ensures heap.first != NULL && heap.vm.bootstrapUsed == 4 * 4096 && heap.vm.issued <= 1024
    ensures HeapAlone(heap.vm.linked, heap.vm.bootstrapUsed)
  {
    var vm := new Vmm(root, initial, nodes, poolBase);
    FreshSlot(vm.linked);
    heap := new KernelHeap(vm);
    ghost var linked := vm.linked;
    var ok := heap.InitHeap();
    assert Accounted(ok, 1024, 0, true, 0, vm.bootstrapUsed, vm.linked);
    assert HeapAlone(linked, 0);
    AloneOutcome(ok, 1024, true, linked, 0, vm.linked, vm.bootstrapUsed);
  }

  /** The 28 MiB are reached: one request takes a heap just initialised to exactly that size. */
  method GrowToLimit(heap: KernelHeap) returns (p: int)
    requires heap.Valid() && heap.first != NULL && heap.blocks == WHOLE_HEAP
    requires heap.heapEnd == HEAP_START + INITIAL_HEAP && heap.vm.issued <= 1024
    requires HeapAlone(heap.vm.linked, heap.vm.bootstrapUsed)
    modifies heap, heap.vm
    ensures heap.Valid() && p != NULL && heap.heapEnd == HEAP_START + 28 * 1024 * 1024
    ensures heap.vm.bootstrapUsed == POOL_BYTES
  {
    var request := 24 * 1024 * 1024 - HEADER;
    assert RoundUp4(request) == request && GrowthPages(request) == 6144;
    assert NoFit(WHOLE_HEAP, 1, request);
    ghost var i;
    p, i := heap.Kmalloc(request);
    AloneFull(heap.vm);
  }
}
