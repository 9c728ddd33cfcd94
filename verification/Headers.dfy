/**
 Heap headers in memory (kernel/memory.c:468-611).  Headers live in the heap itself: a map
 takes an address to the header stored there, and absorbed headers stay behind as garbage.
 */
module Headers {
  import opened Blocks

  datatype Header = Header(size: int, next: int, free: bool)

  const NULL: int := 0

  /** The address block `i` links to. */
  ghost function NextAddr(bs: seq<Block>, i: int): int
    requires 0 <= i < |bs|
  {
    if i + 1 < |bs| then bs[i + 1].addr else NULL
  }

  ghost predicate StoredAt(headers: map<int, Header>, bs: seq<Block>, i: int)
    requires 0 <= i < |bs|
  {
    bs[i].addr in headers && headers[bs[i].addr] == Header(bs[i].size, NextAddr(bs, i), bs[i].free)
  }

  /** Following `next` in memory from the first block meets exactly `bs`. */
  ghost predicate Stored(headers: map<int, Header>, bs: seq<Block>) {
    forall i | 0 <= i < |bs| :: StoredAt(headers, bs, i)
  }

  /** A header at `a` does not overlap the payload of any live block. */
  ghost predicate OutsidePayloads(a: int, bs: seq<Block>) {
    forall b | b in bs && !b.free :: a + HEADER <= b.addr + HEADER || b.End() <= a
  }

  ghost predicate AllOutside(stores: set<int>, bs: seq<Block>) {
    forall a | a in stores :: OutsidePayloads(a, bs)
  }

  ghost function Addrs(bs: seq<Block>): set<int> {
    set b | b in bs :: b.addr
  }

  /** From `h` to `h'` headers are written at `stores` only. */
  ghost predicate OnlyAt(h: map<int, Header>, h': map<int, Header>, stores: set<int>) {
    && stores <= h'.Keys
    && forall a | a !in stores :: (a in h <==> a in h') && (a in h ==> h[a] == h'[a])
  }

  /** A part of `kmalloc` from `h` and `bs` to `h'` and `bs'` that adds headers of the new list to the log. */
  ghost predicate Logged(h: map<int, Header>, bs: seq<Block>, stores: set<int>,
                         h': map<int, Header>, bs': seq<Block>, stores': set<int>) {
    && OnlyAt(h, h', stores') && stores <= stores' <= stores + Addrs(bs')
    && Addrs(bs) <= Addrs(bs') <= Addrs(bs) + stores'
  }

  lemma LoggedMore(h: map<int, Header>, bs: seq<Block>, stores: set<int>,
                   h': map<int, Header>, bs': seq<Block>, stores': set<int>,
                   h'': map<int, Header>, bs'': seq<Block>, stores'': set<int>)
    requires Logged(h, bs, stores, h', bs', stores') && Logged(h', bs', stores', h'', bs'', stores'')
    ensures Logged(h, bs, stores, h'', bs'', stores'')
  {
  }

  lemma HeaderOutside(bs: seq<Block>, lo: int, hi: int, i: int)
    requires Tiles(bs, lo, hi) && 0 <= i < |bs|
    ensures OutsidePayloads(bs[i].addr, bs)
  {
    forall b | b in bs && !b.free
      ensures bs[i].addr + HEADER <= b.addr + HEADER || b.End() <= bs[i].addr
    {
      var j :| 0 <= j < |bs| && bs[j] == b;
      if i != j { PayloadsDisjoint(bs, lo, hi, i, j); }
    }
  }

  /** Headers of a list lie outside the payloads of its live blocks, and of those of a list with fewer of them. */
  lemma StoresOutside(stores: set<int>, bs: seq<Block>, lo: int, hi: int, fewer: seq<Block>)
    requires Tiles(bs, lo, hi) && stores <= Addrs(bs) && Live(fewer) <= Live(bs)
    ensures AllOutside(stores, bs) && AllOutside(stores, fewer)
  {
    forall a | a in stores
      ensures OutsidePayloads(a, bs)
    {
      var i := IndexOf(bs, a);
      HeaderOutside(bs, lo, hi, i);
    }
    forall b | b in fewer && !b.free ensures b in bs {
      assert b in Live(fewer);
    }
  }

  lemma IndexOf(bs: seq<Block>, a: int) returns (i: int)
    requires a in Addrs(bs)
    ensures 0 <= i < |bs| && bs[i].addr == a
  {
    var b :| b in bs && b.addr == a;
    i :| 0 <= i < |bs| && bs[i] == b;
  }

  /** The owners of live blocks may write their payloads as they like: the list survives. */
  lemma ClientWritesKeepList(h: map<int, Header>, h': map<int, Header>, bs: seq<Block>, lo: int, hi: int)
    requires Stored(h, bs) && Tiles(bs, lo, hi)
    requires forall a | a in h && OutsidePayloads(a, bs) :: a in h' && h'[a] == h[a]
    ensures Stored(h', bs)
  {
    forall i | 0 <= i < |bs|
      ensures StoredAt(h', bs, i)
    {
      assert StoredAt(h, bs, i);
      HeaderOutside(bs, lo, hi, i);
    }
  }

  // ---------- header writes ----------

  lemma StoredMark(h: map<int, Header>, bs: seq<Block>, lo: int, hi: int, i: int)
    requires Stored(h, bs) && Tiles(bs, lo, hi) && 0 <= i < |bs|
    ensures StoredAt(h, bs, i)
    ensures Stored(h[bs[i].addr := h[bs[i].addr].(free := true)], Marked(bs, i))
  {
    assert StoredAt(h, bs, i);
    var h', r := h[bs[i].addr := h[bs[i].addr].(free := true)], Marked(bs, i);
    forall k | 0 <= k < |r| ensures StoredAt(h', r, k) {
      assert StoredAt(h, bs, k);
      if k != i { PayloadsDisjoint(bs, lo, hi, i, k); }
    }
  }

  lemma StoredMerge(h: map<int, Header>, bs: seq<Block>, lo: int, hi: int, i: int)
    requires Stored(h, bs) && Tiles(bs, lo, hi) && 0 <= i < |bs| - 1
    ensures StoredAt(h, bs, i) && StoredAt(h, bs, i + 1)
    ensures var b, n := h[bs[i].addr], h[bs[i + 1].addr];
            Stored(h[bs[i].addr := Header(b.size + HEADER + n.size, n.next, b.free)], Merge(bs, i))
  {
    assert StoredAt(h, bs, i) && StoredAt(h, bs, i + 1);
    var b, n := h[bs[i].addr], h[bs[i + 1].addr];
    var h', r := h[bs[i].addr := Header(b.size + HEADER + n.size, n.next, b.free)], Merge(bs, i);
    forall k | 0 <= k < |r| ensures StoredAt(h', r, k) {
      var k' := if k <= i then k else k + 1;
      assert StoredAt(h, bs, k');
      if k != i { PayloadsDisjoint(bs, lo, hi, i, k'); }
    }
  }

  lemma StoredPlace(h: map<int, Header>, bs: seq<Block>, lo: int, hi: int, i: int, size: int)
    requires Stored(h, bs) && Tiles(bs, lo, hi) && 0 <= i < |bs| && 0 <= size <= bs[i].size
    ensures StoredAt(h, bs, i)
    ensures Stored(PlacedHeaders(h, bs[i].addr, size), Place(bs, i, size))
  {
    assert StoredAt(h, bs, i);
    var h', r := PlacedHeaders(h, bs[i].addr, size), Place(bs, i, size);
    forall k | 0 <= k < |r| ensures StoredAt(h', r, k) {
      var k' := if k <= i || |r| == |bs| then k else k - 1;
      assert StoredAt(h, bs, k');
      if k' != i { PayloadsDisjoint(bs, lo, hi, i, k'); }
    }
  }

  /** The header memory after `kmalloc` places `size` bytes in the block at `a`. */
  function PlacedHeaders(h: map<int, Header>, a: int, size: int): map<int, Header>
    requires a in h
  {
    if h[a].size <= size + SLACK then
      h[a := h[a].(free := false)]
    else
      var n := a + HEADER + size;
      h[n := Header(h[a].size - size - HEADER, h[a].next, true)][a := Header(size, n, false)]
  }

  lemma StoredAppend(h: map<int, Header>, bs: seq<Block>, lo: int, hi: int, size: int)
    requires Stored(h, bs) && Tiles(bs, lo, hi) && bs != []
    ensures StoredAt(h, bs, |bs| - 1)
    ensures var last := bs[|bs| - 1].addr;
            Stored(h[hi := Header(size, NULL, true)][last := h[last].(next := hi)], bs + [Block(hi, size, true)])
  {
    var last := |bs| - 1;
    assert StoredAt(h, bs, last);
    var a := bs[last].addr;
    var h', r := h[hi := Header(size, NULL, true)][a := h[a].(next := hi)], bs + [Block(hi, size, true)];
    Bounds(bs, lo, hi, last);
    forall k | 0 <= k < |r| ensures StoredAt(h', r, k) {
      if k < last {
        assert StoredAt(h, bs, k);
        Ordered(bs, lo, hi, k, last);
      }
    }
  }

  // ---------- which headers the operations leave in the list ----------

  /** Placing an allocation keeps every header of the list and may add the one behind the allocation. */
  lemma PlaceAddrs(bs: seq<Block>, i: int, size: int)
    requires 0 <= i < |bs|
    ensures Addrs(Place(bs, i, size)) ==
            Addrs(bs) + if bs[i].size <= size + SLACK then {} else {bs[i].addr + HEADER + size}
  {
    var r := Place(bs, i, size);
    assert r[i].addr == bs[i].addr;
    if bs[i].size > size + SLACK { assert r[i + 1].addr == bs[i].addr + HEADER + size; }
    forall a | a in Addrs(bs)
      ensures a in Addrs(r)
    {
      var k := IndexOf(bs, a);
      assert r[if k <= i || |r| == |bs| then k else k + 1].addr == a;
    }
    forall a | a in Addrs(r)
      ensures a in Addrs(bs) || (bs[i].size > size + SLACK && a == bs[i].addr + HEADER + size)
    {
      var k := IndexOf(r, a);
      if k <= i || |r| == |bs| {
        assert bs[k].addr == a;
      } else if k > i + 1 {
        assert bs[k - 1].addr == a;
      }
    }
  }

  function PlacedStores(h: map<int, Header>, a: int, size: int): set<int>
    requires a in h
  {
    if h[a].size <= size + SLACK then {a} else {a + HEADER + size, a}
  }

  /** Placing an allocation stores the header of the block and, when it splits, of the rest. */
  lemma PlacedLogged(h: map<int, Header>, bs: seq<Block>, stores: set<int>, i: int, size: int)
    requires Stored(h, bs) && 0 <= i < |bs| && stores <= h.Keys
    ensures bs[i].addr in h
    ensures Logged(h, bs, stores, PlacedHeaders(h, bs[i].addr, size), Place(bs, i, size),
                   stores + PlacedStores(h, bs[i].addr, size))
  {
    assert StoredAt(h, bs, i);
    PlaceAddrs(bs, i, size);
    assert bs[i] in bs;
  }

  lemma AppendAddrs(bs: seq<Block>, b: Block)
    ensures Addrs(bs + [b]) == Addrs(bs) + {b.addr}
  {
    var r := bs + [b];
    assert r[|bs|] == b && forall c | c in bs :: c in r;
  }

  lemma MergeAddrs(bs: seq<Block>, i: int)
    requires 0 <= i < |bs| - 1
    ensures Addrs(Merge(bs, i)) <= Addrs(bs)
  {
    var r := Merge(bs, i);
    forall a | a in Addrs(r)
      ensures a in Addrs(bs)
    {
      var k := IndexOf(r, a);
      assert bs[if k <= i then k else k + 1].addr == a;
    }
  }

  lemma MarkedAddrs(bs: seq<Block>, i: int)
    requires 0 <= i < |bs|
    ensures Addrs(Marked(bs, i)) <= Addrs(bs)
  {
    var r := Marked(bs, i);
    forall a | a in Addrs(r)
      ensures a in Addrs(bs)
    {
      var k := IndexOf(r, a);
      assert bs[k].addr == a;
    }
  }

  lemma FreedAddrs(bs: seq<Block>, i: int)
    requires 0 <= i < |bs|
    ensures Addrs(Freed(bs, i)) <= Addrs(bs)
  {
    var m := Marked(bs, i);
    MarkedAddrs(bs, i);
    if i + 1 < |m| { MergeAddrs(m, i); }
    var n := MergedNext(m, i);
    if 0 < i { MergeAddrs(n, i - 1); }
  }
}
