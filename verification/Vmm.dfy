/**
 The virtual memory manager's state and operations (kernel/memory.c:21-42, 152-165,
 203-392): the bump allocator for physical frames, the 16-page pool that page tables
 are taken from, and mapping, unmapping and re-flagging of one page.

 Assumptions about the state handed over by the boot loader are the constructor's
 `requires`: the pool is page aligned and holds no table yet, the tables form a tree
 without large pages, and nothing is present under PML4 slot 256.
 */
module Vmm {
  import opened Types
  import opened PageTree
  import opened TablePool

  const FIRST_FRAME: int := 0x20_0000

  // The number of frames handed out before the 64-bit counter returns to zero
  const FRAME_LIMIT: int := (TWO64 - FIRST_FRAME) / 4096

  // Calls up to and including the one that returns the zero; only later ones repeat a frame
  const FRESH_CALLS: int := FRAME_LIMIT + 1

  /** The frame counter after `n` frames; a 64-bit word that wraps. */
  function Counter(n: nat): (c: int)
    ensures 0 <= c <= TWO64 - 4096 && c % 4096 == 0
  {
    if n == 0 then FIRST_FRAME else (Counter(n - 1) + 4096) % TWO64
  }

  /** Until the counter wraps, frames are handed out one after the other. */
  lemma {:induction false} CounterClosed(n: nat)
    requires n < FRAME_LIMIT
    ensures Counter(n) == FIRST_FRAME + n * 4096
  {
    if n > 0 { CounterClosed(n - 1); }
  }

  /** The first call after the last frame returns zero, which is NULL. */
  lemma CounterReturns()
    ensures Counter(FRAME_LIMIT) == 0
  {
    var last := FRAME_LIMIT - 1;
    CounterClosed(last);
    assert Counter(last + 1) == (Counter(last) + 4096) % TWO64;
  }

  lemma WrappedSum(used: int, size: int)
    requires 0 <= used <= POOL_BYTES && 0 <= size < TWO32
    ensures var rounded := ((size + 3) % TWO32) / 4 * 4;
            && (used + rounded) % TWO32 == (used + RoundUp4(size)) % TWO32
            && (used + RoundUp4(size)) % TWO32 ==
               if used + RoundUp4(size) < TWO32 then used + RoundUp4(size) else used + RoundUp4(size) - TWO32
  {
  }

  lemma RoomForOne(used: int)
    requires 0 <= used <= POOL_BYTES && used % 4096 == 0
    ensures used == POOL_BYTES || used + 4096 <= POOL_BYTES
  {
  }

  /** Linking one table of a walk does not add the name of another. */
  lemma WalkNames(linked: set<TableName>, p: int)
    ensures var after := linked + {(3, Prefix(3, p))};
            && ((2, Prefix(2, p)) in after <==> (2, Prefix(2, p)) in linked)
            && ((1, Prefix(1, p)) in after + {(2, Prefix(2, p))} <==> (1, Prefix(1, p)) in linked)
  {
  }

  lemma AlignedUp(c: int)
    requires 0 <= c <= TWO64 - 4096 && c % 4096 == 0
    ensures ((c + 4095) % TWO64) / 4096 * 4096 == c
  {
  }

  lemma InitialNames(t: Tree, linked: set<TableName>)
    requires linked == set l, p | 1 <= l <= 3 && 0 <= p < PAGES && Linked(t, l, p) :: (l, Prefix(l, p))
    ensures Names(t, linked)
  {
    forall l, p | 1 <= l <= 3 && 0 <= p < PAGES
      ensures Named(t, linked, l, p)
    {
      if (l, Prefix(l, p)) in linked {
        var m, q :| 1 <= m <= 3 && 0 <= q < PAGES && Linked(t, m, q) && (m, Prefix(m, q)) == (l, Prefix(l, p));
        SamePrefix(t, l, p, q);
      }
    }
  }

  /** With nothing present under the heap's slot, no table there is linked. */
  lemma InitialSlot(t: Tree, linked: set<TableName>, pool: int)
    requires t.root in t.tables && |t.tables[t.root]| == 512 && !Present(t.tables[t.root][HEAP_SLOT])
    requires Names(t, linked)
    ensures HeapTablesFromPool(t, pool, 0)
    ensures forall p | 0 <= p < PAGES && Prefix(3, p) == HEAP_SLOT :: Path(p) !! linked
  {
    forall l, p | 1 <= l <= 3 && 0 <= p < PAGES && Prefix(3, p) == HEAP_SLOT
      ensures !Linked(t, l, p) && (l, Prefix(l, p)) !in linked
    {
      if Linked(t, l, p) { LinkedUp(t, l, 3, p); }
      assert Named(t, linked, l, p);
    }
  }

  class Vmm {
    const pool: int
    const pml4: int
    var tables: map<int, seq<int>>
    var bootstrapUsed: int
    var nextFreePage: int
    ghost var nodes: map<int, Node>
    ghost var issued: nat
    ghost var translation: map<int, int>   // page numbers to present leaf entries
    ghost var linked: set<TableName>       // the tables below the root
    ghost var refusals: nat                // how often a frame or a table could not be had

    ghost function State(): Tree
      reads this`tables
    {
      Tree(pml4, tables)
    }

    /** The tables are a tree tied to the pool, described by `translation` and `linked`. */
    ghost predicate TreeValid()
      reads this`tables, this`nodes, this`bootstrapUsed, this`translation, this`linked
    {
      && Sound(State(), nodes, pool, bootstrapUsed)
      && Describes(State(), translation) && Names(State(), linked)
    }

    ghost predicate FramesValid()
      reads this`nextFreePage, this`issued
    {
      nextFreePage == Counter(issued)
    }

    /** A request is refused only when the frames have come round or the pool is used up. */
    ghost predicate RefusedOnlyEmpty()
      reads this`issued, this`bootstrapUsed, this`refusals
    {
      refusals > 0 ==> issued > FRAME_LIMIT || bootstrapUsed == POOL_BYTES
    }

    ghost predicate Valid()
      reads this
    {
      TreeValid() && FramesValid() && RefusedOnlyEmpty()
    }

    constructor (root: int, initial: map<int, seq<int>>, ghost initialNodes: map<int, Node>, poolBase: int)
      requires WellFormed(Tree(root, initial), initialNodes)
      requires poolBase % 4096 == 0 && 0 < poolBase
      requires forall a | InPool(a, poolBase, POOL_BYTES) :: a !in initial
      requires !Present(initial[root][HEAP_SLOT])
      ensures Valid() && tables == initial && pml4 == root && pool == poolBase
      ensures bootstrapUsed == 0 && issued == 0 && refusals == 0
      ensures translation == Pages(Tree(root, initial))
      ensures forall p | 0 <= p < PAGES && Prefix(3, p) == HEAP_SLOT :: Path(p) !! linked
    {
      pool, pml4, tables := poolBase, root, initial;
      bootstrapUsed, nextFreePage := 0, FIRST_FRAME;
      ghost var t := Tree(root, initial);
      nodes, issued, translation, refusals := initialNodes, 0, Pages(t), 0;
      linked := set l, p | 1 <= l <= 3 && 0 <= p < PAGES && Linked(t, l, p) :: (l, Prefix(l, p));
      new;
      DescribesPages(t, translation);
      InitialNames(t, linked);
      InitialSlot(t, linked, poolBase);
    }

    /**
     Takes `size` bytes, rounded up to a multiple of four, from the table pool.  The sum is a 32-bit
     word: what is handed out holds `size` bytes exactly when that word does not wrap.
     */
    method BootstrapAlloc(size: int) returns (r: Option<int>)
      requires 0 <= bootstrapUsed <= POOL_BYTES && 0 <= size < TWO32
      modifies this`bootstrapUsed
      ensures r.None? <==> POOL_BYTES < old(bootstrapUsed) + RoundUp4(size) < TWO32
      ensures r.None? ==> bootstrapUsed == old(bootstrapUsed)
      ensures r.Some? ==> r.value == pool + old(bootstrapUsed)
      ensures r.Some? ==> bootstrapUsed == (old(bootstrapUsed) + RoundUp4(size)) % TWO32 <= POOL_BYTES
      ensures r.Some? ==>
                (old(bootstrapUsed) + size <= bootstrapUsed <==> old(bootstrapUsed) + RoundUp4(size) < TWO32)
    {
      WrappedSum(bootstrapUsed, size);
      var rounded := ((size + 3) % TWO32) / 4 * 4;
      if (bootstrapUsed + rounded) % TWO32 > POOL_BYTES {
        return None;
      }
      r := Some(pool + bootstrapUsed);
      bootstrapUsed := (bootstrapUsed + rounded) % TWO32;
    }

    /** The next frame address; the counter is a 64-bit word, so it can come back to zero (NULL). */
    method AllocPhysicalPage() returns (page: int)
      requires FramesValid()
      modifies this`nextFreePage, this`issued, this`refusals
      ensures FramesValid() && issued == old(issued) + 1
      ensures refusals == old(refusals) + if page == 0 then 1 else 0
      ensures page == 0 ==> old(issued) >= FRAME_LIMIT
      ensures page == Counter(old(issued)) && page % 4096 == 0 && 0 <= page < TWO64
      ensures old(issued) < FRAME_LIMIT ==> page == FIRST_FRAME + old(issued) * 4096
      ensures old(issued) == FRAME_LIMIT ==> page == 0
    {
      if issued < FRAME_LIMIT { CounterClosed(issued); }
      CounterReturns();
      AlignedUp(nextFreePage);
      nextFreePage := ((nextFreePage + 4095) % TWO64) / 4096 * 4096;
      page := nextFreePage;
      nextFreePage := (nextFreePage + 4096) % TWO64;
      issued := issued + 1;
      if page == 0 { refusals := refusals + 1; }
    }

    method ClearedTable() returns (t: seq<int>)
      ensures t == Repeat(0, 512)
    {
      t := [];
      for i := 0 to 512
        invariant t == Repeat(0, i)
      {
        t := t + [0];
      }
    }

    /** Takes a table from the pool, clears it and links it from entry `i` of table `a`. */
    method LinkNewTable(a: int, i: int, ghost p: int, ghost l: nat) returns (r: Option<int>)
      requires TreeValid() && 0 <= p < PAGES && 1 <= l <= 3
      requires TableAt(State(), l + 1, p) == Some(a) && i == Index(l + 1, p) && !Present(tables[a][i])
      modifies this`tables, this`nodes, this`linked, this`bootstrapUsed
      ensures TreeValid()
      ensures r.None? <==> old(bootstrapUsed) == POOL_BYTES
      ensures r.None? ==> tables == old(tables) && linked == old(linked) && bootstrapUsed == old(bootstrapUsed)
      ensures r.Some? ==> TableAt(State(), l, p) == r && bootstrapUsed == old(bootstrapUsed) + 4096
      ensures r.Some? ==> linked == old(linked) + {(l, Prefix(l, p))}
      ensures r.Some? ==> State() == Link(old(State()), a, i, r.value)
    {
      ghost var t, ps, used, names := State(), nodes, bootstrapUsed, linked;
      RoomForOne(used);
      assert RoundUp4(4096) == 4096;
      r := BootstrapAlloc(4096);
      if r.None? {
        return;
      }
      LinkKeepsAll(t, ps, names, translation, pool, used, p, l, a, i);
      WriteLink(a, i, r.value);
      nodes := nodes[r.value := Node(l, a, i)];
      linked := linked + {(l, Prefix(l, p))};
    }

    /** Clears the table at `child` and makes entry `i` of table `a` point to it. */
    method WriteLink(a: int, i: int, child: int)
      requires a in tables && child !in tables && 0 <= i < |tables[a]| && child % PAGE_SIZE == 0
      modifies this`tables
      ensures State() == Link(old(State()), a, i, child)
    {
      var cleared := ClearedTable();
      ghost var t := State();
      tables := tables[child := cleared];
      tables := tables[a := tables[a][i := child + PAGE_PRESENT + PAGE_WRITABLE]];
      assert State() == Link(t, a, i, child);
    }

    /**
     One level of the walk in `map_page`: follow entry `i` of table `a`, or link a cleared
     table from the pool there first.
     */
    method NextTable(a: int, i: int, ghost p: int, ghost l: nat) returns (r: Option<int>)
      requires TreeValid() && 0 <= p < PAGES && 1 <= l <= 3
      requires TableAt(State(), l + 1, p) == Some(a) && i == Index(l + 1, p)
      modifies this`tables, this`nodes, this`linked, this`bootstrapUsed
      ensures TreeValid()
      ensures r.None? <==> (l, Prefix(l, p)) !in old(linked) && old(bootstrapUsed) == POOL_BYTES
      ensures r.Some? ==> TableAt(State(), l, p) == r
      ensures bootstrapUsed == old(bootstrapUsed) + (if r.None? || (l, Prefix(l, p)) in old(linked) then 0 else 4096)
      ensures linked == old(linked) + if r.Some? then {(l, Prefix(l, p))} else {}
    {
      FollowEntry(State(), nodes, p, l);
      assert Named(State(), linked, l, p);
      if !Present(tables[a][i]) {
        r := LinkNewTable(a, i, p, l);
      } else {
        r := Some(Base(tables[a][i]));
      }
    }

    /**
     Maps the page of `vaddr` to the frame of `paddr`.  It fails exactly when the pool has fewer
     tables left than the walk is missing; a failure uses up the pool, links part of the walk and
     changes no translation.
     */
    method MapPage(vaddr: int, paddr: int, flags: int) returns (status: int)
      requires TreeValid() && 0 <= vaddr < TWO64 && 0 <= paddr < TWO64 && 0 <= flags < PAGE_SIZE
      modifies this`tables, this`nodes, this`linked, this`bootstrapUsed, this`translation, this`refusals
      ensures TreeValid()
      ensures status == 0 || status == -1
      ensures refusals == old(refusals) + if status == 0 then 0 else 1
      ensures status == 0 <==> old(bootstrapUsed) + 4096 * Missing(old(linked), PageOf(vaddr)) <= POOL_BYTES
      ensures status == 0 ==> translation == old(translation)[PageOf(vaddr) := Leaf(paddr, flags)]
      ensures status == -1 ==> translation == old(translation)
      ensures bootstrapUsed == if status == 0 then old(bootstrapUsed) + 4096 * Missing(old(linked), PageOf(vaddr))
                               else POOL_BYTES
      ensures old(linked) <= linked <= old(linked) + Path(PageOf(vaddr))
      ensures status == 0 ==> linked == old(linked) + Path(PageOf(vaddr))
    {
      var v, frame := Base(vaddr), Base(paddr);
      ghost var p := PageOf(v);
      AlignedPage(vaddr);
      AlignedLeaf(paddr, flags);
      IndexMacros(v);
      var pt := WalkAndLink(Pml4Index(v), PdptIndex(v), PdIndex(v), p);
      if pt.None? {
        refusals := refusals + 1;
        return -1;
      }
      WriteLeaf(pt.value, PtIndex(v), Leaf(frame, flags), p);
      return 0;
    }

    /** The walk shared by `unmap_page` and `set_page_flags`: the page table whose entry for `v` is present. */
    method FindLeaf(v: int) returns (pt: Option<int>)
      requires TreeValid() && 0 <= v < TWO64
      ensures pt.Some? <==> PageOf(v) in translation
      ensures pt.Some? ==> TableAt(State(), 1, PageOf(v)) == pt &&
                           translation[PageOf(v)] == tables[pt.value][PtIndex(v)]
    {
      ghost var p := PageOf(v);
      IndexMacros(v);
      assert Translates(State(), translation, p);
      FollowEntry(State(), nodes, p, 3);
      if !Present(tables[pml4][Pml4Index(v)]) {
        NotLinked(State(), p, 3);
        return None;
      }
      var pdpt := Base(tables[pml4][Pml4Index(v)]);
      FollowEntry(State(), nodes, p, 2);
      if !Present(tables[pdpt][PdptIndex(v)]) {
        NotLinked(State(), p, 2);
        return None;
      }
      var pd := Base(tables[pdpt][PdptIndex(v)]);
      FollowEntry(State(), nodes, p, 1);
      if !Present(tables[pd][PdIndex(v)]) {
        return None;
      }
      var table := Base(tables[pd][PdIndex(v)]);
      if !Present(tables[table][PtIndex(v)]) {
        return None;
      }
      return Some(table);
    }

    /** Removes the translation of the page of `vaddr`; succeeds exactly when there is one. */
    method UnmapPage(vaddr: int) returns (status: int)
      requires TreeValid() && 0 <= vaddr < TWO64
      modifies this`tables, this`translation
      ensures TreeValid()
      ensures status == if PageOf(vaddr) in old(translation) then 0 else -1
      ensures translation == old(translation) - {PageOf(vaddr)}
      ensures status == -1 ==> tables == old(tables)
      ensures status == 0 ==>
                exists pt :: old(TableAt(State(), 1, PageOf(vaddr))) == Some(pt) &&
                             tables == old(tables)[pt := old(tables)[pt][PtIndex(vaddr) := 0]]
    {
      var v := Base(vaddr);
      AlignedPage(vaddr);
      IndexMacros(v);
      var pt := FindLeaf(v);
      if pt.None? {
        return -1;
      }
      WriteLeaf(pt.value, PtIndex(v), 0, PageOf(v));
      return 0;
    }

    /** Replaces the flags of the page of `vaddr` and keeps its frame; succeeds exactly when it is mapped. */
    method SetPageFlags(vaddr: int, flags: int) returns (status: int)
      requires TreeValid() && 0 <= vaddr < TWO64 && 0 <= flags < PAGE_SIZE
      modifies this`tables, this`translation
      ensures TreeValid()
      ensures status == if PageOf(vaddr) in old(translation) then 0 else -1
      ensures status == -1 ==> translation == old(translation)
      ensures status == 0 ==>
                var e := old(translation)[PageOf(vaddr)];
                translation == old(translation)[PageOf(vaddr) := Leaf(e, flags)]
    {
      var v := Base(vaddr);
      AlignedPage(vaddr);
      IndexMacros(v);
      var pt := FindLeaf(v);
      if pt.None? {
        return -1;
      }
      var frame := Base(tables[pt.value][PtIndex(v)]);
      AlignedLeaf(tables[pt.value][PtIndex(v)], flags);
      WriteLeaf(pt.value, PtIndex(v), Leaf(frame, flags), PageOf(v));
      return 0;
    }

    /** Overwrites the leaf entry of page `p`. */
    method WriteLeaf(pt: int, i: int, e: int, ghost p: int)
      requires TreeValid() && 0 <= p < PAGES && TableAt(State(), 1, p) == Some(pt) && i == Index(1, p)
      modifies this`tables, this`translation
      ensures TreeValid()
      ensures translation == if Present(e) then old(translation)[p := e] else old(translation) - {p}
      ensures tables == old(tables)[pt := old(tables)[pt][i := e]]
    {
      SetEntrySound(State(), nodes, linked, translation, pool, bootstrapUsed, p, e);
      tables := tables[pt := tables[pt][i := e]];
      translation := if Present(e) then translation[p := e] else translation - {p};
    }

    /** The first half of `map_page`: the page table for page `p`, with missing tables linked on the way. */
    method WalkAndLink(pml4Index: int, pdptIndex: int, pdIndex: int, ghost p: int) returns (pt: Option<int>)
      requires TreeValid() && 0 <= p < PAGES
      requires pml4Index == Index(4, p) && pdptIndex == Index(3, p) && pdIndex == Index(2, p)
      modifies this`tables, this`nodes, this`linked, this`bootstrapUsed
      ensures TreeValid()
      ensures pt.Some? <==> old(bootstrapUsed) + 4096 * Missing(old(linked), p) <= POOL_BYTES
      ensures pt.Some? ==> TableAt(State(), 1, p) == pt
      ensures bootstrapUsed == if pt.Some? then old(bootstrapUsed) + 4096 * Missing(old(linked), p) else POOL_BYTES
      ensures old(linked) <= linked <= old(linked) + Path(p)
      ensures pt.Some? ==> linked == old(linked) + Path(p)
    {
      ghost var one: nat, names := 1, linked;
      RoomForOne(bootstrapUsed);
      pt := NextTable(pml4, pml4Index, p, one + 2);
      if pt.None? {
        return;
      }
      RoomForOne(bootstrapUsed);
      WalkNames(names, p);
      pt := NextTable(pt.value, pdptIndex, p, one + 1);
      if pt.None? {
        return;
      }
      RoomForOne(bootstrapUsed);
      pt := NextTable(pt.value, pdIndex, p, one);
    }
  }
}
