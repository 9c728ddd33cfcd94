/**
 The four-level page-table tree as a value (kernel/memory.h:54-73).

 A table is a sequence of 512 entries stored under its physical base address.  An
 entry is a word whose low twelve bits are flags (bit 0 is "present") and whose
 remaining bits are a page-aligned address, so `entry & ~0xFFF` is subtraction of
 the remainder modulo 4096.
 */
module PageTree {
  import opened Types

  const PAGE_SIZE: int := 4096
  const PAGE_PRESENT: int := 0x01
  const PAGE_WRITABLE: int := 0x02
  const PAGE_USER: int := 0x04

  // 512^4: the number of pages in a 48-bit address space
  const PAGES: int := 0x10_0000_0000

  datatype Tree = Tree(root: int, tables: map<int, seq<int>>)

  /** The number of the page that holds a canonical virtual address. */
  function PageOf(vaddr: int): int {
    (vaddr / PAGE_SIZE) % PAGES
  }

  // The index macros of memory.h: a shift is a division and a mask a remainder.
  function Pml4Index(vaddr: int): int { (vaddr / 0x80_0000_0000) % 512 }
  function PdptIndex(vaddr: int): int { (vaddr / 0x4000_0000) % 512 }
  function PdIndex(vaddr: int): int { (vaddr / 0x20_0000) % 512 }
  function PtIndex(vaddr: int): int { (vaddr / 0x1000) % 512 }

  /** What is left of a page number once the lowest `l` base-512 digits are dropped. */
  function Prefix(l: nat, p: int): int {
    if l == 0 then p else Prefix(l - 1, p) / 512
  }

  /** The index a walk for page `p` uses in its level-`l` table. */
  function Index(l: nat, p: int): (i: int)
    requires l >= 1
    ensures 0 <= i < 512
  {
    Prefix(l - 1, p) % 512
  }

  predicate Present(e: int) { e % 2 == 1 }

  function Base(e: int): int { e - e % PAGE_SIZE }

  function FlagsOf(e: int): int { e % PAGE_SIZE }

  /** `(addr & ~0xFFF) | flags | PAGE_PRESENT` for flags below 4096. */
  function Leaf(addr: int, flags: int): (e: int)
    requires 0 <= flags < PAGE_SIZE
    ensures Present(e) && Base(e) == Base(addr)
    ensures e - Base(e) == flags || e - Base(e) == flags + 1
  {
    Base(addr) + (if flags % 2 == 1 then flags else flags + 1)
  }

  /** The table that entry `i` of table `a` links to, if it is present. */
  function Follow(t: Tree, a: int, i: int): (r: Option<int>)
    requires a in t.tables && 0 <= i < |t.tables[a]|
    ensures r.Some? ==> r.value in t.tables && |t.tables[r.value]| == 512
  {
    var e := t.tables[a][i];
    if Present(e) && Base(e) in t.tables && |t.tables[Base(e)]| == 512 then Some(Base(e)) else None
  }

  /** The level-`l` table a walk for page `p` goes through, if all links down to it are present. */
  function TableAt(t: Tree, l: nat, p: int): (r: Option<int>)
    requires 1 <= l <= 4
    ensures r.Some? ==> r.value in t.tables && |t.tables[r.value]| == 512
    decreases 4 - l
  {
    if l == 4 then
      if t.root in t.tables && |t.tables[t.root]| == 512 then Some(t.root) else None
    else
      var up := TableAt(t, l + 1, p);
      if up.None? then None else Follow(t, up.value, Index(l + 1, p))
  }

  predicate Linked(t: Tree, l: nat, p: int)
    requires 1 <= l <= 4
  {
    TableAt(t, l, p).Some?
  }

  /** The present leaf entry for page `p`, if there is one. */
  function Lookup(t: Tree, p: int): Option<int> {
    var pt := TableAt(t, 1, p);
    if pt.None? then None else
    var e := t.tables[pt.value][Index(1, p)];
    if Present(e) then Some(e) else None
  }

  /** The translation as a plain finite map from page numbers to leaf entries. */
  ghost function Pages(t: Tree): map<int, int> {
    map p | 0 <= p < PAGES && Lookup(t, p).Some? :: Lookup(t, p).value
  }

  /** The finite map `tr` and the tree agree on page `p`. */
  ghost predicate Translates(t: Tree, tr: map<int, int>, p: int) {
    Lookup(t, p) == if p in tr then Some(tr[p]) else None
  }

  /** The tree implements the finite map `tr`. */
  ghost predicate Describes(t: Tree, tr: map<int, int>) {
    && (forall p | p in tr :: 0 <= p < PAGES)
    && (forall p | 0 <= p < PAGES :: Translates(t, tr, p))
  }

  lemma DescribesPages(t: Tree, tr: map<int, int>)
    ensures Describes(t, tr) <==> tr == Pages(t)
  {
    if Describes(t, tr) {
      var m := Pages(t);
      forall p | p in tr || p in m ensures p in tr && p in m && tr[p] == m[p] {
        assert Translates(t, tr, p);
      }
    } else if tr == Pages(t) {
      forall p | 0 <= p < PAGES ensures Translates(t, tr, p) {}
    }
  }

  /** Where a table sits in the tree: its level and the entry that links to it. */
  datatype Node = Node(level: int, parent: int, index: int)

  ghost predicate IsLink(t: Tree, nodes: map<int, Node>, a: int, i: int) {
    a in t.tables && a in nodes && nodes[a].level >= 2 && 0 <= i < |t.tables[a]| && Present(t.tables[a][i])
  }

  /**
   The tables form a tree: every link goes one level down to a table, and that table
   has the linking entry as its only parent.
   */
  ghost predicate WellFormed(t: Tree, nodes: map<int, Node>) {
    && t.root in t.tables && nodes.Keys == t.tables.Keys
    && (forall a | a in t.tables :: TableOk(t, nodes, a))
    && (forall a, i | IsLink(t, nodes, a, i) ::
          Base(t.tables[a][i]) in t.tables && nodes[Base(t.tables[a][i])] == Node(nodes[a].level - 1, a, i))
  }

  ghost predicate TableOk(t: Tree, nodes: map<int, Node>, a: int)
    requires a in t.tables && a in nodes
  {
    |t.tables[a]| == 512 && 1 <= nodes[a].level <= 4 && (nodes[a].level == 4 <==> a == t.root)
  }

  // ---------- digits of page numbers ----------

  lemma PrefixSplit(l: nat, p: int, q: int)
    requires l >= 1
    ensures Prefix(l - 1, p) == Prefix(l - 1, q) <==>
            Prefix(l, p) == Prefix(l, q) && Index(l, p) == Index(l, q)
  {
  }

  lemma PrefixTop(p: int)
    requires 0 <= p < PAGES
    ensures Prefix(4, p) == 0
    ensures Prefix(3, p) == p / 0x800_0000 && Prefix(2, p) == p / 0x4_0000 && Prefix(1, p) == p / 512
  {
    assert Prefix(1, p) == p / 512;
    assert Prefix(2, p) == p / 512 / 512;
    assert Prefix(3, p) == p / 512 / 512 / 512;
    assert Prefix(4, p) == p / 512 / 512 / 512 / 512;
  }

  lemma ShiftByDigits(vaddr: int)
    requires 0 <= vaddr < TWO64
    ensures var n := vaddr / PAGE_SIZE;
            && vaddr / 0x20_0000 == n / 512 && vaddr / 0x4000_0000 == n / 0x4_0000
            && vaddr / 0x80_0000_0000 == n / 0x800_0000
  {
  }

  // Dropping the part of `n` above the page number keeps its four lower base-512 digits

  lemma SecondDigit(n: int)
    requires 0 <= n
    ensures (n % PAGES) % 512 == n % 512 && ((n % PAGES) / 512) % 512 == (n / 512) % 512
  {
    assert n / 512 == n / PAGES * 0x800_0000 + (n % PAGES) / 512;
  }

  lemma ThirdDigit(n: int)
    requires 0 <= n
    ensures ((n % PAGES) / 0x4_0000) % 512 == (n / 0x4_0000) % 512
  {
    assert n / 0x4_0000 == n / PAGES * 0x4_0000 + (n % PAGES) / 0x4_0000;
  }

  lemma FourthDigit(n: int)
    requires 0 <= n
    ensures ((n % PAGES) / 0x800_0000) % 512 == (n / 0x800_0000) % 512
  {
    assert n / 0x800_0000 == n / PAGES * 512 + (n % PAGES) / 0x800_0000;
  }

  /** The four macros are the four base-512 digits of the page number. */
  lemma IndexMacros(vaddr: int)
    requires 0 <= vaddr < TWO64
    ensures 0 <= PageOf(vaddr) < PAGES
    ensures Index(4, PageOf(vaddr)) == Pml4Index(vaddr)
    ensures Index(3, PageOf(vaddr)) == PdptIndex(vaddr)
    ensures Index(2, PageOf(vaddr)) == PdIndex(vaddr)
    ensures Index(1, PageOf(vaddr)) == PtIndex(vaddr)
  {
    PrefixTop(PageOf(vaddr));
    ShiftByDigits(vaddr);
    SecondDigit(vaddr / PAGE_SIZE);
    ThirdDigit(vaddr / PAGE_SIZE);
    FourthDigit(vaddr / PAGE_SIZE);
  }

  lemma AlignedPage(addr: int)
    requires 0 <= addr < TWO64
    ensures 0 <= Base(addr) < TWO64 && PageOf(Base(addr)) == PageOf(addr)
  {
  }

  lemma AlignedLeaf(addr: int, flags: int)
    requires 0 <= flags < PAGE_SIZE
    ensures Leaf(Base(addr), flags) == Leaf(addr, flags)
  {
  }

  /** Page numbers tell canonical page addresses apart. */
  predicate Canonical(vaddr: int) {
    0 <= vaddr < 0x8000_0000_0000 || 0xFFFF_8000_0000_0000 <= vaddr < TWO64
  }

  lemma PageOfInjective(v: int, w: int)
    requires Canonical(v) && Canonical(w)
    ensures PageOf(v) == PageOf(w) <==> v / PAGE_SIZE == w / PAGE_SIZE
  {
  }

  // ---------- paths ----------

  lemma {:induction false} SamePrefix(t: Tree, l: nat, p: int, q: int)
    requires 1 <= l <= 4 && Prefix(l, p) == Prefix(l, q)
    ensures TableAt(t, l, p) == TableAt(t, l, q)
    decreases 4 - l
  {
    if l < 4 {
      PrefixSplit(l + 1, p, q);
      SamePrefix(t, l + 1, p, q);
    }
  }

  lemma {:induction false} LevelOf(t: Tree, nodes: map<int, Node>, l: nat, p: int)
    requires WellFormed(t, nodes) && 1 <= l <= 4 && Linked(t, l, p)
    ensures nodes[TableAt(t, l, p).value].level == l
    decreases 4 - l
  {
    if l < 4 {
      LevelOf(t, nodes, l + 1, p);
      assert IsLink(t, nodes, TableAt(t, l + 1, p).value, Index(l + 1, p));
    }
  }

  /** In a tree, two pages whose walks share a level-`l` table agree on every index above it. */
  lemma {:induction false} UniquePath(t: Tree, nodes: map<int, Node>, l: nat, p: int, q: int)
    requires WellFormed(t, nodes) && 1 <= l <= 4
    requires 0 <= p < PAGES && 0 <= q < PAGES
    requires Linked(t, l, p) && TableAt(t, l, p) == TableAt(t, l, q)
    ensures Prefix(l, p) == Prefix(l, q)
    decreases 4 - l
  {
    if l == 4 {
      PrefixTop(p); PrefixTop(q);
    } else {
      LevelOf(t, nodes, l + 1, p); LevelOf(t, nodes, l + 1, q);
      var a, b := TableAt(t, l + 1, p).value, TableAt(t, l + 1, q).value;
      assert IsLink(t, nodes, a, Index(l + 1, p)) && IsLink(t, nodes, b, Index(l + 1, q));
      UniquePath(t, nodes, l + 1, p, q);
      PrefixSplit(l + 1, p, q);
    }
  }

  lemma {:induction false} LinkedUp(t: Tree, l: nat, m: nat, p: int)
    requires 1 <= l <= m <= 4 && Linked(t, l, p)
    ensures Linked(t, m, p)
    decreases m - l
  {
    if l < m { LinkedUp(t, l + 1, m, p); }
  }

  // ---------- the two kinds of write ----------

  /** The tree after a zeroed table `child` is linked from entry `i` of table `a`. */
  function Link(t: Tree, a: int, i: int, child: int): Tree
    requires a in t.tables && 0 <= i < |t.tables[a]|
  {
    Tree(t.root, t.tables[child := Repeat(0, 512)][a := t.tables[a][i := Leaf(child, PAGE_WRITABLE)]])
  }

  /** The new table is all zeros, the entry is its address with bits 0 and 1, and nothing else is written. */
  lemma LinkWrites(t: Tree, a: int, i: int, child: int)
    requires a in t.tables && 0 <= i < |t.tables[a]| && child !in t.tables && child % PAGE_SIZE == 0
    ensures var after := Link(t, a, i, child).tables;
            && after.Keys == t.tables.Keys + {child}
            && |after[child]| == 512 && (forall k | 0 <= k < 512 :: after[child][k] == 0)
            && |after[a]| == |t.tables[a]| && after[a][i] == child + 3
            && (forall k | 0 <= k < |t.tables[a]| && k != i :: after[a][k] == t.tables[a][k])
            && (forall b | b in t.tables && b != a :: after[b] == t.tables[b])
  {
    var link := Leaf(child, PAGE_WRITABLE);
    assert Base(link) == child && FlagsOf(link) == 3;
  }

  /** The tree after entry `i` of table `a` is overwritten. */
  function SetEntry(t: Tree, a: int, i: int, e: int): Tree
    requires a in t.tables && 0 <= i < |t.tables[a]|
  {
    Tree(t.root, t.tables[a := t.tables[a][i := e]])
  }

  lemma LinkWellFormed(t: Tree, nodes: map<int, Node>, a: int, i: int, child: int, l: int)
    requires WellFormed(t, nodes) && a in t.tables && nodes[a].level == l + 1 && l >= 1 && 0 <= i < 512
    requires !Present(t.tables[a][i]) && child !in t.tables && child % PAGE_SIZE == 0
    ensures WellFormed(Link(t, a, i, child), nodes[child := Node(l, a, i)])
  {
    var t', nodes' := Link(t, a, i, child), nodes[child := Node(l, a, i)];
    forall b, j | IsLink(t', nodes', b, j)
      ensures if b == a && j == i then Base(t'.tables[b][j]) == child
              else IsLink(t, nodes, b, j) && t'.tables[b][j] == t.tables[b][j]
    {
    }
    assert nodes'.Keys == t'.tables.Keys;
  }

  lemma LinkFollow(t: Tree, nodes: map<int, Node>, a: int, i: int, child: int, b: int, j: int)
    requires WellFormed(t, nodes) && a in t.tables && nodes[a].level >= 2 && 0 <= i < 512 && 0 <= j < 512
    requires !Present(t.tables[a][i]) && child !in t.tables && child % PAGE_SIZE == 0
    requires b == child || (b in t.tables && nodes[b].level >= 2)
    ensures Follow(Link(t, a, i, child), b, j) ==
            if b == child then None else if b == a && j == i then Some(child) else Follow(t, b, j)
  {
    if b != child && Present(t.tables[b][j]) {
      assert IsLink(t, nodes, b, j);
    }
  }

  /** Linking an empty table adds one node to the tree and leaves every other walk alone. */
  lemma {:induction false} LinkPath(t: Tree, nodes: map<int, Node>, a: int, i: int, child: int, m: nat, q: int)
    requires WellFormed(t, nodes) && a in t.tables && nodes[a].level >= 2 && 0 <= i < 512
    requires !Present(t.tables[a][i]) && child !in t.tables && child % PAGE_SIZE == 0
    requires 1 <= m <= 4
    ensures TableAt(Link(t, a, i, child), m, q) ==
            if m == nodes[a].level - 1 && TableAt(t, m + 1, q) == Some(a) && Index(m + 1, q) == i
            then Some(child) else TableAt(t, m, q)
    decreases 4 - m
  {
    if m < 4 {
      LinkPath(t, nodes, a, i, child, m + 1, q);
      var up := TableAt(Link(t, a, i, child), m + 1, q);
      if Linked(t, m + 1, q) { LevelOf(t, nodes, m + 1, q); }
      if up.Some? { LinkFollow(t, nodes, a, i, child, up.value, Index(m + 1, q)); }
    }
  }

  lemma LinkKeepsLookup(t: Tree, nodes: map<int, Node>, a: int, i: int, child: int, q: int)
    requires WellFormed(t, nodes) && a in t.tables && nodes[a].level >= 2 && 0 <= i < 512
    requires !Present(t.tables[a][i]) && child !in t.tables && child % PAGE_SIZE == 0
    ensures Lookup(Link(t, a, i, child), q) == Lookup(t, q)
  {
    LinkPath(t, nodes, a, i, child, 1, q);
    var up := TableAt(t, 1, q);
    if up.Some? { LevelOf(t, nodes, 1, q); }
  }

  lemma SetEntryWellFormed(t: Tree, nodes: map<int, Node>, a: int, i: int, e: int)
    requires WellFormed(t, nodes) && a in t.tables && nodes[a].level == 1 && 0 <= i < 512
    ensures WellFormed(SetEntry(t, a, i, e), nodes)
  {
    var t' := SetEntry(t, a, i, e);
    assert forall b, j | IsLink(t', nodes, b, j) :: IsLink(t, nodes, b, j) && t'.tables[b][j] == t.tables[b][j];
  }

  lemma {:induction false} SetEntryPath(t: Tree, nodes: map<int, Node>, a: int, i: int, e: int, m: nat, q: int)
    requires WellFormed(t, nodes) && a in t.tables && nodes[a].level == 1 && 0 <= i < 512
    requires 1 <= m <= 4
    ensures TableAt(SetEntry(t, a, i, e), m, q) == TableAt(t, m, q)
    decreases 4 - m
  {
    if m < 4 {
      SetEntryPath(t, nodes, a, i, e, m + 1, q);
      if Linked(t, m + 1, q) { LevelOf(t, nodes, m + 1, q); }
    }
  }

  /** Writing the leaf entry of page `p` changes the translation of `p` and of nothing else. */
  lemma SetEntryLookup(t: Tree, nodes: map<int, Node>, p: int, e: int, q: int)
    requires WellFormed(t, nodes) && 0 <= p < PAGES && 0 <= q < PAGES && Linked(t, 1, p)
    ensures Lookup(SetEntry(t, TableAt(t, 1, p).value, Index(1, p), e), q) ==
            if q == p then (if Present(e) then Some(e) else None) else Lookup(t, q)
  {
    var a := TableAt(t, 1, p).value;
    LevelOf(t, nodes, 1, p);
    SetEntryPath(t, nodes, a, Index(1, p), e, 1, q);
    if TableAt(t, 1, q) == Some(a) {
      UniquePath(t, nodes, 1, p, q);
      PrefixSplit(1, p, q);
    }
  }

  /** On the finite map, writing a leaf entry is an update or a removal of one key. */
  lemma SetEntryDescribes(t: Tree, nodes: map<int, Node>, tr: map<int, int>, p: int, e: int)
    requires WellFormed(t, nodes) && Describes(t, tr) && 0 <= p < PAGES && Linked(t, 1, p)
    ensures Describes(SetEntry(t, TableAt(t, 1, p).value, Index(1, p), e),
                      if Present(e) then tr[p := e] else tr - {p})
  {
    var t' := SetEntry(t, TableAt(t, 1, p).value, Index(1, p), e);
    var tr' := if Present(e) then tr[p := e] else tr - {p};
    forall q | 0 <= q < PAGES
      ensures Translates(t', tr', q)
    {
      assert Translates(t, tr, q);
      SetEntryLookup(t, nodes, p, e, q);
    }
  }
}
