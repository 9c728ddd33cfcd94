/**
 The pages behind the kernel heap (kernel/memory.c:485-560): which frames back them, and
 which tables of the 16-page pool their walks take.
 */
module HeapPages {
  import opened PageTree
  import opened TablePool
  import opened Vmm

  /** Page `p` lies in the heap's 28 MiB. */
  ghost predicate InHeap(p: int) {
    HEAP_PAGE <= p < HEAP_PAGE + HEAP_LIMIT_PAGES
  }

  /** The page of an address in the first `n` heap pages. */
  lemma HeapPageOf(v: int, n: int)
    requires HEAP_START <= v < HEAP_START + n * 4096 && n <= HEAP_LIMIT_PAGES
    ensures HEAP_PAGE <= PageOf(v) < HEAP_PAGE + n && Prefix(3, PageOf(v)) == HEAP_SLOT
  {
    var j := (v - HEAP_START) / 4096;
    HeapDigits(j);
    assert v / PAGE_SIZE == HEAP_START / PAGE_SIZE + j;
  }

  ghost predicate HeapEntry(tr: map<int, int>, p: int) {
    p in tr && tr[p] % PAGE_SIZE == PAGE_PRESENT + PAGE_WRITABLE
  }

  /** Page `p` has one of the first `issued` frames. */
  ghost predicate FrameBelow(tr: map<int, int>, p: int, issued: int) {
    p in tr && Base(tr[p]) < FIRST_FRAME + issued * 4096
  }

  ghost predicate FrameFrom(tr: map<int, int>, p: int, issued: int) {
    p in tr && Base(tr[p]) >= FIRST_FRAME + issued * 4096
  }

  ghost predicate FramesDiffer(tr: map<int, int>, p: int, q: int) {
    p in tr && q in tr && Base(tr[p]) != Base(tr[q])
  }

  /**
   The first `n` heap pages are mapped present and writable; while the frame counter has not come
   round, to distinct frames already handed out.
   */
  ghost predicate Backed(tr: map<int, int>, n: int, issued: int) {
    && (forall p | HEAP_PAGE <= p < HEAP_PAGE + n :: HeapEntry(tr, p))
    && (issued <= FRESH_CALLS ==>
          && (forall p | HEAP_PAGE <= p < HEAP_PAGE + n :: FrameBelow(tr, p, issued))
          && (forall p, q | HEAP_PAGE <= p < q < HEAP_PAGE + n :: FramesDiffer(tr, p, q)))
  }

  ghost predicate SameEntry(tr: map<int, int>, tr': map<int, int>, p: int) {
    (p in tr <==> p in tr') && (p in tr ==> tr[p] == tr'[p])
  }

  /**
   A heap of `n` pages became one of `m`: no page before the new ones or outside the heap's 28 MiB
   changes its translation, and the new ones have frames that were not handed out before.
   */
  ghost predicate Extended(tr: map<int, int>, tr': map<int, int>, n: int, m: int, issued: int, issued': int) {
    && n <= m && issued <= issued'
    && (forall p | p < HEAP_PAGE + n || p >= HEAP_PAGE + HEAP_LIMIT_PAGES :: SameEntry(tr, tr', p))
    && (issued' <= FRESH_CALLS ==> forall p | HEAP_PAGE + n <= p < HEAP_PAGE + m :: FrameFrom(tr', p, issued))
  }

  lemma ExtendedStep(tr: map<int, int>, tr': map<int, int>, tr'': map<int, int>,
                     n: int, m: int, l: int, issued: int, issued': int, issued'': int)
    requires Extended(tr, tr', n, m, issued, issued') && Extended(tr', tr'', m, l, issued', issued'')
    requires l <= HEAP_LIMIT_PAGES
    ensures Extended(tr, tr'', n, l, issued, issued'')
  {
    forall p | p < HEAP_PAGE + n || p >= HEAP_PAGE + HEAP_LIMIT_PAGES
      ensures SameEntry(tr, tr'', p)
    {
      assert SameEntry(tr, tr', p) && SameEntry(tr', tr'', p);
    }
    if issued'' <= FRESH_CALLS {
      forall p | HEAP_PAGE + n <= p < HEAP_PAGE + l
        ensures FrameFrom(tr'', p, issued)
      {
        if p < HEAP_PAGE + m {
          assert SameEntry(tr', tr'', p) && FrameFrom(tr', p, issued);
        } else {
          assert FrameFrom(tr'', p, issued');
        }
      }
    }
  }

  /** Mapping the next heap page to the next frame extends the backed range. */
  lemma BackedStep(tr: map<int, int>, tr': map<int, int>, n: int, issued: nat, frame: int)
    requires Backed(tr, n, issued) && 0 <= n <= HEAP_LIMIT_PAGES && frame % 4096 == 0 && issued != FRAME_LIMIT
    requires issued < FRAME_LIMIT ==> frame == FIRST_FRAME + issued * 4096
    requires tr' == tr[HEAP_PAGE + n := Leaf(frame, PAGE_PRESENT + PAGE_WRITABLE)]
    ensures Backed(tr', n + 1, issued + 1)
    ensures n < HEAP_LIMIT_PAGES ==> Extended(tr, tr', n, n + 1, issued, issued + 1)
  {
    var issued' := issued + 1;
    forall p | HEAP_PAGE <= p <= HEAP_PAGE + n
      ensures HeapEntry(tr', p) && (issued' <= FRESH_CALLS ==> FrameBelow(tr', p, issued'))
    {
      if p < HEAP_PAGE + n {
        assert HeapEntry(tr, p);
        assert issued' <= FRESH_CALLS ==> FrameBelow(tr, p, issued);
      }
    }
    if issued' <= FRESH_CALLS {
      forall p, q | HEAP_PAGE <= p < q <= HEAP_PAGE + n
        ensures FramesDiffer(tr', p, q)
      {
        assert FrameBelow(tr, p, issued);
        assert q < HEAP_PAGE + n ==> FramesDiffer(tr, p, q);
      }
    }
  }

  lemma BackedLater(tr: map<int, int>, n: int, issued: int, issued': int)
    requires Backed(tr, n, issued) && issued <= issued'
    ensures Backed(tr, n, issued') && Extended(tr, tr, n, n, issued, issued')
  {
    if issued' <= FRESH_CALLS {
      forall p | HEAP_PAGE <= p < HEAP_PAGE + n ensures FrameBelow(tr, p, issued') {
        assert FrameBelow(tr, p, issued);
      }
    }
  }

  /** Translations that change elsewhere leave the heap backed. */
  lemma BackedStays(tr: map<int, int>, tr': map<int, int>, n: int, issued: int, issued': int)
    requires Backed(tr, n, issued) && n <= HEAP_LIMIT_PAGES && issued <= issued'
    requires forall p | InHeap(p) :: SameEntry(tr, tr', p)
    ensures Backed(tr', n, issued')
  {
    forall p | HEAP_PAGE <= p < HEAP_PAGE + n
      ensures HeapEntry(tr', p) && (issued' <= FRESH_CALLS ==> FrameBelow(tr', p, issued'))
    {
      assert InHeap(p) && HeapEntry(tr, p);
      assert SameEntry(tr, tr', p) && (issued' <= FRESH_CALLS ==> FrameBelow(tr, p, issued));
    }
    if issued' <= FRESH_CALLS {
      forall p, q | HEAP_PAGE <= p < q < HEAP_PAGE + n ensures FramesDiffer(tr', p, q) {
        assert InHeap(p) && InHeap(q) && FramesDiffer(tr, p, q);
        assert SameEntry(tr, tr', p) && SameEntry(tr, tr', q);
      }
    }
  }

  lemma BackedFewer(tr: map<int, int>, n: int, m: int, issued: int)
    requires Backed(tr, n, issued) && m <= n
    ensures Backed(tr, m, issued)
  {
  }

  lemma BackedLimit(vm: Vmm, n: int)
    requires vm.TreeValid() && Backed(vm.translation, n, vm.issued)
    ensures n <= HEAP_LIMIT_PAGES
  {
    var t := vm.State();
    forall p | HEAP_PAGE <= p < HEAP_PAGE + n
      ensures Lookup(t, p).Some?
    {
      assert HeapEntry(vm.translation, p) && Translates(t, vm.translation, p);
    }
    GrowthBound(t, vm.nodes, vm.pool, vm.bootstrapUsed, n);
  }

  /** The next heap page, mapped to the frame just handed out; the pool keeps it within 28 MiB. */
  lemma NextPageBacked(vm: Vmm, tr: map<int, int>, n: int, issued: nat, frame: int)
    requires vm.TreeValid() && vm.issued == issued + 1
    requires Backed(tr, n, issued) && 0 <= n <= HEAP_LIMIT_PAGES && frame % 4096 == 0 && issued != FRAME_LIMIT
    requires issued < FRAME_LIMIT ==> frame == FIRST_FRAME + issued * 4096
    requires vm.translation == tr[HEAP_PAGE + n := Leaf(frame, PAGE_PRESENT + PAGE_WRITABLE)]
    ensures n < HEAP_LIMIT_PAGES && Backed(vm.translation, n + 1, vm.issued)
    ensures Extended(tr, vm.translation, n, n + 1, issued, vm.issued)
  {
    BackedStep(tr, vm.translation, n, issued, frame);
    BackedLimit(vm, n + 1);
  }

  // ---------- pool tables ----------

  function Max(a: int, b: int): int {
    if a < b then b else a
  }

  /** The page tables that the first `n` heap pages go through. */
  function TablesFor(n: int): int {
    (n + 511) / 512
  }

  /** Pool bytes taken by `t` page tables of the heap together with the two tables above them. */
  function PoolBytes(t: int): int {
    if t == 0 then 0 else 4096 * (t + 2)
  }

  ghost predicate PageTableLinked(linked: set<TableName>, t: int, k: int) {
    (1, HEAP_SLOT * 512 * 512 + k) in linked <==> k < t
  }

  /** Below the heap's slot exactly the first `t` page tables and the two tables above them are linked. */
  ghost predicate ExactLinks(linked: set<TableName>, t: int) {
    && 0 <= t <= 14
    && ((3, HEAP_SLOT) in linked <==> t > 0)
    && ((2, HEAP_SLOT * 512) in linked <==> t > 0)
    && forall k | 0 <= k < 14 :: PageTableLinked(linked, t, k)
  }

  /** Every table taken from the pool belongs to the heap. */
  ghost predicate HeapAlone(linked: set<TableName>, used: int) {
    exists t :: ExactLinks(linked, t) && used == PoolBytes(t)
  }

  /**
   Mapping the heap pages up to `m` when `t` page tables are linked: as long as frames are left it
   succeeds exactly if 28 MiB are not exceeded and the pool still has the tables, and takes exactly those.
   */
  ghost predicate Accounted(ok: bool, m: int, t: int, frames: bool, used: int, used': int, linked': set<TableName>) {
    var t' := Max(t, TablesFor(m));
    && (frames ==> (ok <==> m <= HEAP_LIMIT_PAGES && used + PoolBytes(t') - PoolBytes(t) <= POOL_BYTES))
    && (ok ==> ExactLinks(linked', t') && used' == used + PoolBytes(t') - PoolBytes(t))
    && (!ok && used == PoolBytes(t) ==> HeapAlone(linked', used'))
  }

  /** The same whichever tables are linked to begin with. */
  ghost predicate TablesCounted(ok: bool, m: int, frames: bool, linked: set<TableName>, used: int,
                                linked': set<TableName>, used': int) {
    forall t {:trigger Accounted(ok, m, t, frames, used, used', linked')} | ExactLinks(linked, t) ::
      Accounted(ok, m, t, frames, used, used', linked')
  }

  /** A mapped page of the heap has its page table linked. */
  lemma MappedLinked(vm: Vmm, n: int)
    requires vm.TreeValid() && Backed(vm.translation, n, vm.issued)
    requires 0 <= n <= HEAP_LIMIT_PAGES
    ensures forall t | ExactLinks(vm.linked, t) :: TablesFor(n) <= t
  {
    if 0 < n {
      var p := HEAP_PAGE + n - 1;
      HeapDigits(n - 1);
      assert HeapEntry(vm.translation, p);
      assert Translates(vm.State(), vm.translation, p);
      assert Named(vm.State(), vm.linked, 1, p);
      forall t | ExactLinks(vm.linked, t) ensures TablesFor(n) <= t {
        assert PageTableLinked(vm.linked, t, (n - 1) / 512);
      }
    }
  }

  /** What the walk for heap page `n` is missing, and which tables are linked after it. */
  lemma ExactLinksStep(linked: set<TableName>, n: int, t: int)
    requires ExactLinks(linked, t) && 0 <= n < HEAP_LIMIT_PAGES && TablesFor(n) <= t
    ensures var t' := Max(t, TablesFor(n + 1));
            && 4096 * Missing(linked, HEAP_PAGE + n) == PoolBytes(t') - PoolBytes(t)
            && ExactLinks(linked + Path(HEAP_PAGE + n), t')
  {
    HeapDigits(n);
    assert PageTableLinked(linked, t, n / 512);
    var linked', t' := linked + Path(HEAP_PAGE + n), Max(t, TablesFor(n + 1));
    forall k | 0 <= k < 14 ensures PageTableLinked(linked', t', k) {
      assert PageTableLinked(linked, t, k);
    }
  }

  /** Behind the last page the pool has no table left for, nothing changes that belongs to the heap's 28 MiB. */
  lemma ExactLinksFull(linked: set<TableName>, linked': set<TableName>)
    requires ExactLinks(linked, 14)
    requires linked <= linked' <= linked + Path(HEAP_PAGE + HEAP_LIMIT_PAGES)
    ensures ExactLinks(linked', 14)
  {
    HeapDigits(HEAP_LIMIT_PAGES);
    forall k | 0 <= k < 14 ensures PageTableLinked(linked', 14, k) {
      assert PageTableLinked(linked, 14, k);
    }
  }

  /** The outcome of mapping one page, from that of `MapPage` on it. */
  lemma CountedStep(n: int, ok: bool, frames: bool, linked: set<TableName>, used: int,
                    linked': set<TableName>, used': int)
    requires 0 <= n <= HEAP_LIMIT_PAGES && forall t | ExactLinks(linked, t) :: TablesFor(n) <= t
    requires ok ==> n < HEAP_LIMIT_PAGES
    requires n < HEAP_LIMIT_PAGES ==> (ok <==> used + 4096 * Missing(linked, HEAP_PAGE + n) <= POOL_BYTES)
    requires used' == if ok then used + 4096 * Missing(linked, HEAP_PAGE + n) else POOL_BYTES
    requires linked <= linked' <= linked + Path(HEAP_PAGE + n)
    requires ok ==> linked' == linked + Path(HEAP_PAGE + n)
    ensures TablesCounted(ok, n + 1, frames, linked, used, linked', used')
  {
    forall t | ExactLinks(linked, t)
      ensures Accounted(ok, n + 1, t, frames, used, used', linked')
    {
      if n < HEAP_LIMIT_PAGES {
        ExactLinksStep(linked, n, t);
      } else {
        ExactLinksFull(linked, linked');
        assert PoolBytes(14) == POOL_BYTES;
      }
    }
  }

  /** Without a frame nothing is linked. */
  lemma CountedNothing(m: int, linked: set<TableName>, used: int)
    ensures TablesCounted(false, m, false, linked, used, linked, used)
  {
    forall t | ExactLinks(linked, t) ensures Accounted(false, m, t, false, used, used, linked) {}
  }

  /** No page maps without a table. */
  lemma CountedNone(n: int, linked: set<TableName>, used: int)
    requires 0 <= n <= HEAP_LIMIT_PAGES && used <= POOL_BYTES && forall t | ExactLinks(linked, t) :: TablesFor(n) <= t
    ensures TablesCounted(true, n, true, linked, used, linked, used)
  {
    forall t | ExactLinks(linked, t) ensures Accounted(true, n, t, true, used, used, linked) {}
  }

  /** One page more behind pages already mapped. */
  lemma CountedMore(m: int, linked: set<TableName>, used: int, linked': set<TableName>, used': int,
                    ok: bool, frames: bool, linked'': set<TableName>, used'': int)
    requires 0 <= m && TablesCounted(true, m, true, linked, used, linked', used')
    requires TablesCounted(ok, m + 1, frames, linked', used', linked'', used'')
    ensures TablesCounted(ok, m + 1, frames, linked, used, linked'', used'')
  {
    forall t | ExactLinks(linked, t)
      ensures Accounted(ok, m + 1, t, frames, used, used'', linked'')
    {
      assert Accounted(true, m, t, true, used, used', linked');
      assert Accounted(ok, m + 1, Max(t, TablesFor(m)), frames, used', used'', linked'');
    }
  }

  lemma CountedWeaker(m: int, frames: bool, linked: set<TableName>, used: int, linked': set<TableName>, used': int)
    requires TablesCounted(true, m, true, linked, used, linked', used')
    ensures TablesCounted(true, m, frames, linked, used, linked', used')
  {
    forall t | ExactLinks(linked, t) ensures Accounted(true, m, t, frames, used, used', linked') {
      assert Accounted(true, m, t, true, used, used', linked');
    }
  }

  /** A success within the limits says as much when frames ran out as when they did not. */
  lemma CountedSuccess(m: int, frames: bool, linked: set<TableName>, used: int, linked': set<TableName>, used': int)
    requires TablesCounted(true, m, frames, linked, used, linked', used')
    requires m <= HEAP_LIMIT_PAGES && used' <= POOL_BYTES
    ensures TablesCounted(true, m, true, linked, used, linked', used')
  {
    forall t | ExactLinks(linked, t) ensures Accounted(true, m, t, true, used, used', linked') {
      assert Accounted(true, m, t, frames, used, used', linked');
    }
  }

  /** A failure before the last page is a failure for all of them. */
  lemma CountedFailure(l: int, m: int, frames: bool, all: bool, linked: set<TableName>, used: int,
                       linked': set<TableName>, used': int)
    requires 0 < l <= m && (all ==> frames) && TablesCounted(false, l, frames, linked, used, linked', used')
    ensures TablesCounted(false, m, all, linked, used, linked', used')
  {
    assert TablesFor(l) <= TablesFor(m);
    forall t | ExactLinks(linked, t) ensures Accounted(false, m, t, all, used, used', linked') {
      assert Accounted(false, l, t, frames, used, used', linked');
    }
  }

  /** With the pool to itself the heap grows exactly while it stays within 28 MiB. */
  lemma AloneOutcome(ok: bool, m: int, frames: bool, linked: set<TableName>, used: int,
                     linked': set<TableName>, used': int)
    requires HeapAlone(linked, used) && TablesCounted(ok, m, frames, linked, used, linked', used')
    ensures HeapAlone(linked', used')
    ensures frames ==> (ok <==> m <= HEAP_LIMIT_PAGES)
  {
    var t :| ExactLinks(linked, t) && used == PoolBytes(t);
    assert Accounted(ok, m, t, frames, used, used', linked');
    assert PoolBytes(14) == POOL_BYTES;
    var t' := Max(t, TablesFor(m));
    if ok { assert ExactLinks(linked', t') && used' == PoolBytes(t'); }
  }

  /** A heap of 28 MiB has used the whole pool. */
  lemma AloneFull(vm: Vmm)
    requires vm.TreeValid() && Backed(vm.translation, HEAP_LIMIT_PAGES, vm.issued)
    requires HeapAlone(vm.linked, vm.bootstrapUsed)
    ensures vm.bootstrapUsed == POOL_BYTES
  {
    MappedLinked(vm, HEAP_LIMIT_PAGES);
    var t :| ExactLinks(vm.linked, t) && vm.bootstrapUsed == PoolBytes(t);
    assert t == 14;
  }

  /** With nothing linked under the heap's slot the count of tables starts at zero. */
  lemma FreshSlot(linked: set<TableName>)
    requires forall p | 0 <= p < PAGES && Prefix(3, p) == HEAP_SLOT :: Path(p) !! linked
    ensures ExactLinks(linked, 0)
  {
    forall k | 0 <= k < 14
      ensures PageTableLinked(linked, 0, k) && (3, HEAP_SLOT) !in linked && (2, HEAP_SLOT * 512) !in linked
    {
      HeapDigits(k * 512);
      assert Path(HEAP_PAGE + k * 512) !! linked;
    }
    assert PageTableLinked(linked, 0, 0);
  }
}
