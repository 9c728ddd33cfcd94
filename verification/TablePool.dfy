/**
 Page tables taken from the 16-page pool: the invariant that ties the tree of tables to the
 pool and to its plain description, what linking a table and writing a leaf do to it, and
 the bound that the size of the pool puts on the heap.
 */
module TablePool {
  import opened Types
  import opened PageTree
  import opened Pigeonhole

  const POOL_BYTES: int := 16 * 4096
  const HEAP_START: int := 0xFFFF_8000_0000_0000
  const HEAP_PAGE: int := 0x8_0000_0000
  const HEAP_SLOT: int := 256

  // 28 MiB in pages: 14 page tables of 512 entries
  const HEAP_LIMIT_PAGES: int := 7168

  ghost predicate InPool(a: int, pool: int, used: int) {
    pool <= a < pool + used && (a - pool) % 4096 == 0
  }

  /** Every table on the way to a page under the heap's PML4 slot came from the pool. */
  ghost predicate HeapTablesFromPool(t: Tree, pool: int, used: int) {
    forall l, p | 1 <= l <= 3 && 0 <= p < PAGES :: FromPool(t, pool, used, l, p)
  }

  ghost predicate FromPool(t: Tree, pool: int, used: int, l: int, p: int)
    requires 1 <= l <= 3
  {
    Prefix(3, p) == HEAP_SLOT && Linked(t, l, p) ==> InPool(TableAt(t, l, p).value, pool, used)
  }

  /** Pool pages that were not handed out hold no table. */
  ghost predicate TailUnused(t: Tree, pool: int, used: int) {
    forall a | a in t.tables && InPool(a, pool, POOL_BYTES) :: a < pool + used
  }

  /** The flags of a link are those of a table that the kernel linked: present and writable, and nothing else. */
  ghost predicate LinkFlags(t: Tree, a: int, i: int, pool: int)
    requires a in t.tables && 0 <= i < |t.tables[a]|
  {
    InPool(Base(t.tables[a][i]), pool, POOL_BYTES) ==> FlagsOf(t.tables[a][i]) == 3
  }

  /** Every entry that links to a pool table is present and writable. */
  ghost predicate PoolLinksWritable(t: Tree, nodes: map<int, Node>, pool: int) {
    forall a, i | IsLink(t, nodes, a, i) :: LinkFlags(t, a, i, pool)
  }

  /** The invariant that ties the tree of tables to the pool. */
  ghost predicate Sound(t: Tree, nodes: map<int, Node>, pool: int, used: int) {
    && WellFormed(t, nodes)
    && pool % 4096 == 0 && 0 < pool
    && 0 <= used <= POOL_BYTES && used % 4096 == 0
    && TailUnused(t, pool, used)
    && HeapTablesFromPool(t, pool, used)
    && PoolLinksWritable(t, nodes, pool)
  }

  lemma HeapDigits(j: int)
    requires 0 <= j < 0x4_0000
    ensures Prefix(3, HEAP_PAGE + j) == HEAP_SLOT
    ensures Prefix(2, HEAP_PAGE + j) == HEAP_SLOT * 512
    ensures Prefix(1, HEAP_PAGE + j) == HEAP_SLOT * 512 * 512 + j / 512
    ensures PageOf(HEAP_START + j * 4096) == HEAP_PAGE + j
  {
    PrefixTop(HEAP_PAGE + j);
  }

  /** Seventeen tables of a heap longer than 28 MiB: fifteen page tables and the two tables above them. */
  ghost function Counted(t: Tree, k: nat): (a: Option<int>)
    requires k < 17
  {
    if k < 15 then TableAt(t, 1, HEAP_PAGE + 512 * k)
    else if k == 15 then TableAt(t, 2, HEAP_PAGE) else TableAt(t, 3, HEAP_PAGE)
  }

  lemma CountedFromPool(t: Tree, pool: int, used: int, n: int, k: nat)
    requires HeapTablesFromPool(t, pool, used) && n > HEAP_LIMIT_PAGES && k < 17
    requires forall p | HEAP_PAGE <= p < HEAP_PAGE + n :: Lookup(t, p).Some?
    ensures Counted(t, k).Some? && InPool(Counted(t, k).value, pool, used)
  {
    var j := if k < 15 then 512 * k else 0;
    assert Lookup(t, HEAP_PAGE + j).Some?;
    HeapDigits(j);
    LinkedUp(t, 1, 2, HEAP_PAGE + j);
    LinkedUp(t, 1, 3, HEAP_PAGE + j);
    assert FromPool(t, pool, used, if k < 15 then 1 else k - 13, HEAP_PAGE + j);
  }

  lemma CountedDistinct(t: Tree, nodes: map<int, Node>, k: nat, m: nat)
    requires WellFormed(t, nodes) && k < m < 17
    requires Counted(t, k).Some? && Counted(t, m).Some?
    ensures Counted(t, k) != Counted(t, m)
  {
    var l := if k < 15 then 1 else 2;
    var l' := if m < 15 then 1 else if m == 15 then 2 else 3;
    var p, q := HEAP_PAGE + (if k < 15 then 512 * k else 0), HEAP_PAGE + (if m < 15 then 512 * m else 0);
    LevelOf(t, nodes, l, p);
    LevelOf(t, nodes, l', q);
    if Counted(t, k) == Counted(t, m) {
      UniquePath(t, nodes, 1, p, q);
      HeapDigits(512 * k); HeapDigits(512 * m);
    }
  }

  /**
   A run of mapped pages that starts at the heap start is at most 28 MiB long: the walks
   of a longer run go through 17 different pool tables, and the pool has 16.
   */
  lemma GrowthBound(t: Tree, nodes: map<int, Node>, pool: int, used: int, n: int)
    requires WellFormed(t, nodes) && HeapTablesFromPool(t, pool, used) && used <= POOL_BYTES
    requires forall p | HEAP_PAGE <= p < HEAP_PAGE + n :: Lookup(t, p).Some?
    ensures n <= HEAP_LIMIT_PAGES
  {
    if n > HEAP_LIMIT_PAGES {
      forall k: nat | k < 17
        ensures Counted(t, k).Some? && InPool(Counted(t, k).value, pool, used)
      {
        CountedFromPool(t, pool, used, n, k);
      }
      var slots := seq(17, k requires 0 <= k < 17 && Counted(t, k).Some? => (Counted(t, k).value - pool) / 4096);
      forall i, j | 0 <= i < j < 17
        ensures slots[i] != slots[j]
      {
        CountedDistinct(t, nodes, i, j);
      }
      AtMost(slots, 16);
    }
  }

  // ---------- the plain description of a tree ----------

  /** A table is named by its level and the page-number digits above it. */
  type TableName = (int, int)

  /** The three tables below the root on the walk for `p`. */
  ghost function Path(p: int): set<TableName> {
    {(3, Prefix(3, p)), (2, Prefix(2, p)), (1, Prefix(1, p))}
  }

  /** How many tables of the walk for `p` are not linked yet. */
  ghost function Missing(linked: set<TableName>, p: int): (n: nat)
    ensures n <= 3
  {
    (if (3, Prefix(3, p)) in linked then 0 else 1) +
    (if (2, Prefix(2, p)) in linked then 0 else 1) +
    (if (1, Prefix(1, p)) in linked then 0 else 1)
  }

  /** `linked` names exactly the linked tables below the root. */
  ghost predicate Names(t: Tree, linked: set<TableName>) {
    forall l, p | 1 <= l <= 3 && 0 <= p < PAGES :: Named(t, linked, l, p)
  }

  ghost predicate Named(t: Tree, linked: set<TableName>, l: int, p: int)
    requires 1 <= l <= 3
  {
    Linked(t, l, p) <==> (l, Prefix(l, p)) in linked
  }

  /** Writing the leaf entry of `p` updates the translation of `p` alone, links nothing and keeps the invariant. */
  lemma SetEntrySound(t: Tree, nodes: map<int, Node>, linked: set<TableName>, tr: map<int, int>,
                      pool: int, used: int, p: int, e: int)
    requires Sound(t, nodes, pool, used) && Names(t, linked) && Describes(t, tr) && 0 <= p < PAGES && Linked(t, 1, p)
    ensures var t' := SetEntry(t, TableAt(t, 1, p).value, Index(1, p), e);
            && Sound(t', nodes, pool, used) && Names(t', linked)
            && Describes(t', if Present(e) then tr[p := e] else tr - {p})
  {
    var a := TableAt(t, 1, p).value;
    LevelOf(t, nodes, 1, p);
    SetEntryWellFormed(t, nodes, a, Index(1, p), e);
    var t' := SetEntry(t, a, Index(1, p), e);
    forall m, q | 1 <= m <= 4
      ensures TableAt(t', m, q) == TableAt(t, m, q)
    {
      SetEntryPath(t, nodes, a, Index(1, p), e, m, q);
    }
    forall m, q | 1 <= m <= 3 && 0 <= q < PAGES
      ensures Named(t', linked, m, q) && FromPool(t', pool, used, m, q)
    {
      assert Named(t, linked, m, q) && FromPool(t, pool, used, m, q);
    }
    SetEntryDescribes(t, nodes, tr, p, e);
    forall b, j | IsLink(t', nodes, b, j) ensures LinkFlags(t', b, j, pool) {
      assert IsLink(t, nodes, b, j) && LinkFlags(t, b, j, pool);
    }
  }

  lemma NotLinked(t: Tree, p: int, l: nat)
    requires 1 <= l <= 3 && !Linked(t, l, p)
    ensures Lookup(t, p) == None
  {
    if Linked(t, 1, p) { LinkedUp(t, 1, l, p); }
  }

  /** In a tree the present bit of the entry decides whether the walk goes on, and where to. */
  lemma FollowEntry(t: Tree, nodes: map<int, Node>, p: int, l: nat)
    requires WellFormed(t, nodes) && 1 <= l <= 3 && Linked(t, l + 1, p)
    ensures var e := t.tables[TableAt(t, l + 1, p).value][Index(l + 1, p)];
            TableAt(t, l, p) == if Present(e) then Some(Base(e)) else None
  {
    LevelOf(t, nodes, l + 1, p);
    var a := TableAt(t, l + 1, p).value;
    if Present(t.tables[a][Index(l + 1, p)]) {
      assert IsLink(t, nodes, a, Index(l + 1, p));
    }
  }

  lemma LinkWalk(t: Tree, nodes: map<int, Node>, p: int, l: nat, child: int, m: nat, q: int)
    requires WellFormed(t, nodes) && 0 <= p < PAGES && 0 <= q < PAGES
    requires 1 <= l <= 3 && 1 <= m <= 4 && Linked(t, l + 1, p)
    requires !Present(t.tables[TableAt(t, l + 1, p).value][Index(l + 1, p)])
    requires child !in t.tables && child % 4096 == 0
    ensures TableAt(Link(t, TableAt(t, l + 1, p).value, Index(l + 1, p), child), m, q) ==
            if m == l && Prefix(l, q) == Prefix(l, p) then Some(child) else TableAt(t, m, q)
  {
    var a, i := TableAt(t, l + 1, p).value, Index(l + 1, p);
    LevelOf(t, nodes, l + 1, p);
    LinkPath(t, nodes, a, i, child, m, q);
    if m == l {
      PrefixSplit(l + 1, p, q);
      if TableAt(t, l + 1, q) == Some(a) { UniquePath(t, nodes, l + 1, p, q); }
      if Prefix(l + 1, q) == Prefix(l + 1, p) { SamePrefix(t, l + 1, p, q); }
    }
  }

  /** Linking a table adds its name, translates nothing new and forgets nothing. */
  lemma LinkObserved(t: Tree, nodes: map<int, Node>, linked: set<TableName>, tr: map<int, int>,
                     p: int, l: nat, child: int)
    requires WellFormed(t, nodes) && Names(t, linked) && Describes(t, tr)
    requires 0 <= p < PAGES && 1 <= l <= 3 && Linked(t, l + 1, p)
    requires !Present(t.tables[TableAt(t, l + 1, p).value][Index(l + 1, p)])
    requires child !in t.tables && child % 4096 == 0
    ensures var t' := Link(t, TableAt(t, l + 1, p).value, Index(l + 1, p), child);
            && Describes(t', tr) && Names(t', linked + {(l, Prefix(l, p))})
            && TableAt(t', l, p) == Some(child)
  {
    var a, i := TableAt(t, l + 1, p).value, Index(l + 1, p);
    var t' := Link(t, a, i, child);
    LevelOf(t, nodes, l + 1, p);
    forall q | 0 <= q < PAGES
      ensures Translates(t', tr, q)
    {
      assert Translates(t, tr, q);
      LinkKeepsLookup(t, nodes, a, i, child, q);
    }
    LinkWalk(t, nodes, p, l, child, l, p);
    var linked' := linked + {(l, Prefix(l, p))};
    forall m, q | 1 <= m <= 3 && 0 <= q < PAGES
      ensures Named(t', linked', m, q)
    {
      assert Named(t, linked, m, q);
      LinkWalk(t, nodes, p, l, child, m, q);
    }
  }

  lemma LinkFromPool(t: Tree, nodes: map<int, Node>, pool: int, used: int, p: int, l: nat, child: int)
    requires WellFormed(t, nodes) && 0 <= p < PAGES && 1 <= l <= 3 && Linked(t, l + 1, p)
    requires !Present(t.tables[TableAt(t, l + 1, p).value][Index(l + 1, p)])
    requires child !in t.tables && child % 4096 == 0
    requires HeapTablesFromPool(t, pool, used) && used >= 0 && InPool(child, pool, used + 4096)
    ensures HeapTablesFromPool(Link(t, TableAt(t, l + 1, p).value, Index(l + 1, p), child), pool, used + 4096)
  {
    var t' := Link(t, TableAt(t, l + 1, p).value, Index(l + 1, p), child);
    var used' := used + 4096;
    forall m, q | 1 <= m <= 3 && 0 <= q < PAGES
      ensures FromPool(t', pool, used', m, q)
    {
      assert FromPool(t, pool, used, m, q);
      LinkWalk(t, nodes, p, l, child, m, q);
    }
  }

  lemma LinkTail(t: Tree, pool: int, used: int, a: int, i: int)
    requires TailUnused(t, pool, used) && 0 <= used < POOL_BYTES && used % 4096 == 0
    requires a in t.tables && 0 <= i < |t.tables[a]|
    ensures pool + used !in t.tables
    ensures TailUnused(Link(t, a, i, pool + used), pool, used + 4096)
  {
    assert InPool(pool + used, pool, POOL_BYTES);
  }

  /** Linking the next pool table into the walk for `p` keeps the invariant. */
  lemma LinkSound(t: Tree, nodes: map<int, Node>, pool: int, used: int, p: int, l: nat, a: int, i: int)
    requires Sound(t, nodes, pool, used) && used < POOL_BYTES
    requires 0 <= p < PAGES && 1 <= l <= 3 && TableAt(t, l + 1, p) == Some(a) && i == Index(l + 1, p)
    requires !Present(t.tables[a][i])
    ensures pool + used !in t.tables
    ensures Sound(Link(t, a, i, pool + used), nodes[pool + used := Node(l, a, i)], pool, used + 4096)
  {
    var child := pool + used;
    LinkTail(t, pool, used, a, i);
    LevelOf(t, nodes, l + 1, p);
    LinkWellFormed(t, nodes, a, i, child, l);
    LinkFromPool(t, nodes, pool, used, p, l, child);
    LinkWritable(t, nodes, pool, a, i, child, l);
    SoundParts(Link(t, a, i, child), nodes[child := Node(l, a, i)], pool, used + 4096);
  }

  lemma SoundParts(t: Tree, nodes: map<int, Node>, pool: int, used: int)
    requires WellFormed(t, nodes) && pool % 4096 == 0 && 0 < pool && 0 <= used <= POOL_BYTES && used % 4096 == 0
    requires TailUnused(t, pool, used) && HeapTablesFromPool(t, pool, used) && PoolLinksWritable(t, nodes, pool)
    ensures Sound(t, nodes, pool, used)
  {
  }

  /** Everything that is kept when the next pool table is linked into the walk for `p`. */
  lemma LinkKeepsAll(t: Tree, nodes: map<int, Node>, linked: set<TableName>, tr: map<int, int>,
                     pool: int, used: int, p: int, l: nat, a: int, i: int)
    requires Sound(t, nodes, pool, used) && Names(t, linked) && Describes(t, tr) && used < POOL_BYTES
    requires 0 <= p < PAGES && 1 <= l <= 3 && TableAt(t, l + 1, p) == Some(a) && i == Index(l + 1, p)
    requires !Present(t.tables[a][i])
    ensures pool + used !in t.tables && (pool + used) % PAGE_SIZE == 0 && 0 <= i < |t.tables[a]|
    ensures var t' := Link(t, a, i, pool + used);
            && Sound(t', nodes[pool + used := Node(l, a, i)], pool, used + 4096)
            && Describes(t', tr) && Names(t', linked + {(l, Prefix(l, p))})
            && TableAt(t', l, p) == Some(pool + used)
  {
    LinkSound(t, nodes, pool, used, p, l, a, i);
    LinkObserved(t, nodes, linked, tr, p, l, pool + used);
  }

  /** The new link is present and writable, and the others stay as they are. */
  lemma LinkWritable(t: Tree, nodes: map<int, Node>, pool: int, a: int, i: int, child: int, l: int)
    requires WellFormed(t, nodes) && PoolLinksWritable(t, nodes, pool) && child !in t.tables && child % PAGE_SIZE == 0
    requires a in t.tables && nodes[a].level == l + 1 && l >= 1 && 0 <= i < 512 && !Present(t.tables[a][i])
    ensures PoolLinksWritable(Link(t, a, i, child), nodes[child := Node(l, a, i)], pool)
  {
    var t', nodes' := Link(t, a, i, child), nodes[child := Node(l, a, i)];
    forall b, j | IsLink(t', nodes', b, j) ensures LinkFlags(t', b, j, pool) {
      if b != a || j != i {
        assert IsLink(t, nodes, b, j) && LinkFlags(t, b, j, pool);
      }
    }
  }

  // ---------- what the processor lets through ----------

  /** Bit `n` of an entry, by its value: 1 for present, 2 for writable, 4 for user. */
  predicate HasBit(e: int, bit: int)
    requires bit > 0
  {
    e / bit % 2 == 1
  }

  /**
   The four entries that the processor goes through for `v`, each the one that the index macro
   selects in the table that the entry before it points to, have the bits `bit` and PRESENT set.
   */
  predicate AllowedAt(tables: map<int, seq<int>>, pml4: int, v: int, bit: int)
    requires bit > 0
  {
    && pml4 in tables && |tables[pml4]| == 512
    && var e4 := tables[pml4][Pml4Index(v)];
    && HasBit(e4, 1) && HasBit(e4, bit) && Base(e4) in tables && |tables[Base(e4)]| == 512
    && var e3 := tables[Base(e4)][PdptIndex(v)];
    && HasBit(e3, 1) && HasBit(e3, bit) && Base(e3) in tables && |tables[Base(e3)]| == 512
    && var e2 := tables[Base(e3)][PdIndex(v)];
    && HasBit(e2, 1) && HasBit(e2, bit) && Base(e2) in tables && |tables[Base(e2)]| == 512
    && var e1 := tables[Base(e2)][PtIndex(v)];
    && HasBit(e1, 1) && HasBit(e1, bit)
  }

  /** The entry on the walk for `p` that links to its level-`l` table. */
  lemma LinkOnWalk(t: Tree, nodes: map<int, Node>, p: int, l: nat)
    requires WellFormed(t, nodes) && 1 <= l <= 3 && Linked(t, l, p)
    ensures Linked(t, l + 1, p)
    ensures var a, i := TableAt(t, l + 1, p).value, Index(l + 1, p);
            && IsLink(t, nodes, a, i) && TableAt(t, l, p) == Some(Base(t.tables[a][i]))
  {
    LinkedUp(t, l, l + 1, p);
    LevelOf(t, nodes, l + 1, p);
    FollowEntry(t, nodes, p, l);
  }

  lemma WritableBits(e: int)
    requires FlagsOf(e) == 3
    ensures HasBit(e, 1) && HasBit(e, 2) && !HasBit(e, 4)
  {
  }

  /** The link to a table under the heap's slot is present and writable and not for the user. */
  lemma HeapLinkFlags(t: Tree, nodes: map<int, Node>, pool: int, used: int, p: int, l: nat)
    requires Sound(t, nodes, pool, used) && 0 <= p < PAGES && Prefix(3, p) == HEAP_SLOT
    requires 1 <= l <= 3 && Linked(t, l, p)
    ensures Linked(t, l + 1, p)
    ensures var e := t.tables[TableAt(t, l + 1, p).value][Index(l + 1, p)];
            HasBit(e, 1) && HasBit(e, 2) && !HasBit(e, 4) && TableAt(t, l, p) == Some(Base(e))
  {
    LinkOnWalk(t, nodes, p, l);
    assert FromPool(t, pool, used, l, p);
    assert LinkFlags(t, TableAt(t, l + 1, p).value, Index(l + 1, p), pool);
    WritableBits(t.tables[TableAt(t, l + 1, p).value][Index(l + 1, p)]);
  }

  /**
   A page under the heap's slot whose leaf entry is writable can be written: all four entries on the
   way to it are writable.
   */
  lemma HeapWalkWritable(t: Tree, nodes: map<int, Node>, pool: int, used: int, v: int)
    requires Sound(t, nodes, pool, used) && 0 <= v < TWO64 && Prefix(3, PageOf(v)) == HEAP_SLOT
    requires Lookup(t, PageOf(v)).Some? && HasBit(Lookup(t, PageOf(v)).value, 2)
    ensures AllowedAt(t.tables, t.root, v, 2)
  {
    var p := PageOf(v);
    var one: nat := 1;
    LinkedUp(t, one, one + 1, p);
    LinkedUp(t, one, one + 2, p);
    HeapLinkFlags(t, nodes, pool, used, p, one);
    HeapLinkFlags(t, nodes, pool, used, p, one + 1);
    HeapLinkFlags(t, nodes, pool, used, p, one + 2);
    BitsOnWalk(t, v, 2);
  }

  /** The entry of the level-`l` table on the walk for `p`. */
  function EntryAt(t: Tree, l: nat, p: int): int
    requires 1 <= l <= 4 && Linked(t, l, p)
  {
    t.tables[TableAt(t, l, p).value][Index(l, p)]
  }

  /** A bit on every entry of a walk is what the processor finds. */
  lemma BitsOnWalk(t: Tree, v: int, bit: int)
    requires 0 <= v < TWO64 && bit > 0
    requires forall l: nat | 1 <= l <= 4 :: Linked(t, l, PageOf(v)) && HasBit(EntryAt(t, l, PageOf(v)), 1)
    requires forall l: nat | 1 <= l <= 4 :: HasBit(EntryAt(t, l, PageOf(v)), bit)
    requires forall l: nat | 1 <= l <= 3 :: TableAt(t, l, PageOf(v)) == Some(Base(EntryAt(t, l + 1, PageOf(v))))
    ensures AllowedAt(t.tables, t.root, v, bit)
  {
    var p := PageOf(v);
    var one: nat := 1;
    IndexMacros(v);
    assert Linked(t, one, p) && Linked(t, one + 1, p) && Linked(t, one + 2, p) && Linked(t, one + 3, p);
    assert TableAt(t, one + 2, p) == Some(Base(EntryAt(t, one + 3, p)));
    assert TableAt(t, one + 1, p) == Some(Base(EntryAt(t, one + 2, p)));
    assert TableAt(t, one, p) == Some(Base(EntryAt(t, one + 1, p)));
  }

  /**
   Tables that the kernel links are not for the user, so a page that is reached through one of them
   cannot be used by user code, whatever its leaf entry says.
   */
  lemma NoUserThroughPool(t: Tree, nodes: map<int, Node>, pool: int, used: int, v: int, l: nat)
    requires Sound(t, nodes, pool, used) && 0 <= v < TWO64 && 1 <= l <= 3
    requires Linked(t, l, PageOf(v)) && InPool(TableAt(t, l, PageOf(v)).value, pool, POOL_BYTES)
    ensures !AllowedAt(t.tables, t.root, v, 4)
  {
    var p := PageOf(v);
    IndexMacros(v);
    LinkOnWalk(t, nodes, p, l);
    var a, i := TableAt(t, l + 1, p).value, Index(l + 1, p);
    assert LinkFlags(t, a, i, pool);
    WritableBits(t.tables[a][i]);
    WalkEntry(t, nodes, v, l);
  }

  /** What the processor goes through are the entries of the walk. */
  lemma WalkEntry(t: Tree, nodes: map<int, Node>, v: int, l: nat)
    requires WellFormed(t, nodes) && 0 <= v < TWO64 && 1 <= l <= 3 && Linked(t, l, PageOf(v))
    ensures Linked(t, l + 1, PageOf(v))
    ensures AllowedAt(t.tables, t.root, v, 4) ==>
              HasBit(t.tables[TableAt(t, l + 1, PageOf(v)).value][Index(l + 1, PageOf(v))], 4)
  {
    var p := PageOf(v);
    var one: nat := 1;
    IndexMacros(v);
    LinkedUp(t, l, one + 3, p);
    LinkedUp(t, l, l + 1, p);
    FollowEntry(t, nodes, p, one + 2);
    if l <= 2 {
      LinkedUp(t, l, one + 2, p);
      FollowEntry(t, nodes, p, one + 1);
    }
    if l == 1 { LinkedUp(t, l, one + 1, p); }
  }
}
