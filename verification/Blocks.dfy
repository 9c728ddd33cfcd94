/**
 Heap block lists as values (kernel/memory.c:468-611): what the linked list of headers
 means, and what placing an allocation and freeing a block do to it.
 */
module Blocks {
  // sizeof(struct heap_block)
  const HEADER: int := 24

  datatype Block = Block(addr: int, size: int, free: bool) {
    function End(): int { addr + HEADER + size }
  }

  /** Block `i` starts where the one before it ends. */
  ghost predicate Adjoins(bs: seq<Block>, i: int)
    requires 0 < i < |bs|
  {
    bs[i].addr == bs[i - 1].End()
  }

  /** The blocks lie end to end and cover exactly [lo, hi). */
  ghost predicate Tiles(bs: seq<Block>, lo: int, hi: int) {
    && (forall i | 0 <= i < |bs| :: bs[i].size >= 0)
    && (forall i | 0 < i < |bs| :: Adjoins(bs, i))
    && (if bs == [] then lo == hi else bs[0].addr == lo && bs[|bs| - 1].End() == hi)
  }

  ghost predicate NotBothFree(bs: seq<Block>, i: int)
    requires 0 < i < |bs|
  {
    !(bs[i - 1].free && bs[i].free)
  }

  /** No two neighbours are free. */
  ghost predicate Coalesced(bs: seq<Block>) {
    forall i | 0 < i < |bs| :: NotBothFree(bs, i)
  }

  ghost function Live(bs: seq<Block>): set<Block> {
    set b | b in bs && !b.free
  }

  lemma {:induction false} Ordered(bs: seq<Block>, lo: int, hi: int, i: int, j: int)
    requires Tiles(bs, lo, hi) && 0 <= i < j < |bs|
    ensures bs[i].End() <= bs[j].addr
    decreases j - i
  {
    assert Adjoins(bs, j);
    if i + 1 < j { Ordered(bs, lo, hi, i, j - 1); }
  }

  lemma Bounds(bs: seq<Block>, lo: int, hi: int, i: int)
    requires Tiles(bs, lo, hi) && 0 <= i < |bs|
    ensures lo <= bs[i].addr && bs[i].End() <= hi
  {
    if 0 < i { Ordered(bs, lo, hi, 0, i); }
    if i < |bs| - 1 { Ordered(bs, lo, hi, i, |bs| - 1); }
  }

  /** An address names at most one block. */
  lemma SameAddr(bs: seq<Block>, lo: int, hi: int, i: int, j: int)
    requires Tiles(bs, lo, hi) && 0 <= i < |bs| && 0 <= j < |bs| && bs[i].addr == bs[j].addr
    ensures i == j
  {
    if i < j { Ordered(bs, lo, hi, i, j); } else if j < i { Ordered(bs, lo, hi, j, i); }
  }

  /** The payloads of two blocks do not overlap, and no header lies in a payload. */
  lemma PayloadsDisjoint(bs: seq<Block>, lo: int, hi: int, i: int, j: int)
    requires Tiles(bs, lo, hi) && 0 <= i < |bs| && 0 <= j < |bs| && i != j
    ensures bs[i].End() <= bs[j].addr || bs[j].End() <= bs[i].addr
  {
    if i < j { Ordered(bs, lo, hi, i, j); } else { Ordered(bs, lo, hi, j, i); }
  }

  // ---------- the canonical form ----------

  lemma TailTiles(bs: seq<Block>, lo: int, hi: int)
    requires Tiles(bs, lo, hi) && bs != []
    ensures Tiles(bs[1..], bs[0].End(), hi)
    ensures Coalesced(bs) ==> Coalesced(bs[1..])
    ensures Live(bs) == Live(bs[1..]) + (if bs[0].free then {} else {bs[0]})
    ensures bs[0] !in Live(bs[1..]) && bs[0].End() <= hi
  {
    var tail := bs[1..];
    assert bs == [bs[0]] + tail;
    assert |bs| > 1 ==> Adjoins(bs, 1);
    forall k | 0 < k < |tail| ensures Adjoins(tail, k) && (Coalesced(bs) ==> NotBothFree(tail, k)) {
      assert Adjoins(bs, k + 1) && (Coalesced(bs) ==> NotBothFree(bs, k + 1));
    }
    Bounds(bs, lo, hi, 0);
    if bs[0] in tail {
      var j :| 0 <= j < |tail| && tail[j] == bs[0];
      SameAddr(bs, lo, hi, 0, j + 1);
    }
  }

  /** A live block of one list that starts where a second list starts is the second list's head. */
  lemma HeadIsLive(a: seq<Block>, b: seq<Block>, lo: int, hi: int)
    requires Tiles(a, lo, hi) && Tiles(b, lo, hi) && a != [] && b != []
    requires !a[0].free && a[0] in b
    ensures a[0] == b[0]
  {
    var j :| 0 <= j < |b| && b[j] == a[0];
    SameAddr(b, lo, hi, 0, j);
  }

  /** Two free heads with the same live blocks behind them have the same size. */
  lemma FreeHeadFits(a: seq<Block>, b: seq<Block>, lo: int, hi: int)
    requires Tiles(a, lo, hi) && Tiles(b, lo, hi) && a != [] && b != []
    requires Coalesced(a) && a[0].free && b[0].free && Live(a) <= Live(b)
    ensures b[0].End() <= a[0].End()
  {
    if a[0].End() < b[0].End() {
      Bounds(b, lo, hi, 0);
      assert |a| > 1 && Adjoins(a, 1) && NotBothFree(a, 1);
      assert a[1] in Live(a) && a[1].addr == a[0].End();
      assert a[1] in Live(b);
      var j :| 0 <= j < |b| && b[j] == a[1];
      if 0 < j { Ordered(b, lo, hi, 0, j); }
    }
  }

  /**
   A fully coalesced list is determined by the heap's extent and its live blocks: two of them
   over the same range with the same live blocks are the same list.
   */
  lemma {:induction false} CanonicalList(a: seq<Block>, b: seq<Block>, lo: int, hi: int)
    requires Tiles(a, lo, hi) && Tiles(b, lo, hi) && Coalesced(a) && Coalesced(b)
    requires Live(a) == Live(b)
    ensures a == b
    decreases |a|
  {
    if a != [] { Bounds(a, lo, hi, 0); }
    if b != [] { Bounds(b, lo, hi, 0); }
    if a != [] && b != [] {
      TailTiles(a, lo, hi);
      TailTiles(b, lo, hi);
      if !a[0].free {
        assert a[0] in Live(a);
        HeadIsLive(a, b, lo, hi);
      } else if !b[0].free {
        assert b[0] in Live(b);
        HeadIsLive(b, a, lo, hi);
      } else {
        FreeHeadFits(a, b, lo, hi);
        FreeHeadFits(b, a, lo, hi);
      }
      assert a[0] == b[0];
      CanonicalList(a[1..], b[1..], a[0].End(), hi);
      assert a == [a[0]] + a[1..] && b == [b[0]] + b[1..];
    }
  }

  // ---------- placing an allocation ----------

  /** A block not larger than this over the request is handed out whole. */
  const SLACK: int := HEADER + 16

  /** The block handed out when `size` bytes are placed in `b`. */
  function Taken(b: Block, size: int): Block {
    Block(b.addr, if b.size <= size + SLACK then b.size else size, false)
  }

  /** The list after `size` bytes are placed in free block `i`. */
  function Place(bs: seq<Block>, i: int, size: int): seq<Block>
    requires 0 <= i < |bs|
  {
    if bs[i].size <= size + SLACK then
      bs[i := Taken(bs[i], size)]
    else
      bs[..i] + [Taken(bs[i], size), Block(bs[i].addr + HEADER + size, bs[i].size - size - HEADER, true)] + bs[i + 1..]
  }

  /** The only two neighbours that may both be free are block `i` and the one before it. */
  ghost predicate CoalescedBut(bs: seq<Block>, i: int) {
    forall k | 0 < k < |bs| && k != i :: NotBothFree(bs, k)
  }

  lemma AppendTiles(bs: seq<Block>, lo: int, hi: int, b: Block)
    requires Tiles(bs, lo, hi) && bs != [] && b.addr == hi && b.size >= 0
    ensures Tiles(bs + [b], lo, b.End())
    ensures Coalesced(bs) ==> CoalescedBut(bs + [b], |bs|)
  {
    var r := bs + [b];
    forall k | 0 < k < |r|
      ensures Adjoins(r, k) && (Coalesced(bs) && k < |bs| ==> NotBothFree(r, k))
    {
      if k < |bs| { assert Adjoins(bs, k) && (Coalesced(bs) ==> NotBothFree(bs, k)); }
    }
  }

  lemma SplitTiles(bs: seq<Block>, lo: int, hi: int, i: int, a: Block, b: Block)
    requires Tiles(bs, lo, hi) && 0 <= i < |bs| && 0 <= a.size && 0 <= b.size
    requires a.addr == bs[i].addr && b.addr == a.End() && b.End() == bs[i].End()
    ensures Tiles(bs[..i] + [a, b] + bs[i + 1..], lo, hi)
  {
    var r := bs[..i] + [a, b] + bs[i + 1..];
    forall k | 0 < k < |r| ensures Adjoins(r, k) {
      if k <= i {
        assert Adjoins(bs, k);
      } else if k > i + 1 {
        assert Adjoins(bs, k - 1);
      }
    }
  }

  lemma SplitCoalesced(bs: seq<Block>, i: int, a: Block, b: Block)
    requires CoalescedBut(bs, i) && 0 <= i < |bs| && bs[i].free && !a.free
    ensures Coalesced(bs[..i] + [a, b] + bs[i + 1..])
  {
    var r := bs[..i] + [a, b] + bs[i + 1..];
    forall k | 0 < k < |r| ensures NotBothFree(r, k) {
      if k < i {
        assert NotBothFree(bs, k);
      } else if k > i + 1 {
        assert NotBothFree(bs, k - 1);
      }
    }
  }

  /** Block `i` changes but not its extent. */
  lemma ReplacedTiles(bs: seq<Block>, lo: int, hi: int, i: int, b: Block)
    requires Tiles(bs, lo, hi) && 0 <= i < |bs| && b.addr == bs[i].addr && b.size == bs[i].size
    ensures Tiles(bs[i := b], lo, hi)
  {
    var r := bs[i := b];
    forall k | 0 < k < |r| ensures Adjoins(r, k) {
      assert Adjoins(bs, k);
    }
  }

  lemma TakenCoalesced(bs: seq<Block>, i: int, a: Block)
    requires CoalescedBut(bs, i) && 0 <= i < |bs| && !a.free
    ensures Coalesced(bs[i := a])
  {
    var r := bs[i := a];
    forall k | 0 < k < |r| ensures NotBothFree(r, k) {
      if k != i { assert NotBothFree(bs, k); }
    }
  }

  lemma PlaceKeeps(bs: seq<Block>, lo: int, hi: int, i: int, size: int)
    requires Tiles(bs, lo, hi) && 0 <= i < |bs| && bs[i].free && 0 <= size <= bs[i].size
    requires CoalescedBut(bs, i)
    ensures Tiles(Place(bs, i, size), lo, hi) && Coalesced(Place(bs, i, size))
  {
    if bs[i].size > size + SLACK {
      var b := Block(bs[i].addr + HEADER + size, bs[i].size - size - HEADER, true);
      SplitTiles(bs, lo, hi, i, Taken(bs[i], size), b);
      SplitCoalesced(bs, i, Taken(bs[i], size), b);
    } else {
      ReplacedTiles(bs, lo, hi, i, Taken(bs[i], size));
      TakenCoalesced(bs, i, Taken(bs[i], size));
    }
  }

  /** Blocks other than `i` are in the list before and after. */
  lemma PlaceOthers(bs: seq<Block>, i: int, size: int, b: Block)
    requires 0 <= i < |bs| && bs[i].free && !b.free
    ensures b in bs ==> b in Place(bs, i, size)
    ensures b in Place(bs, i, size) ==> b in bs || b == Taken(bs[i], size)
  {
    var r := Place(bs, i, size);
    if b in bs {
      var k :| 0 <= k < |bs| && bs[k] == b;
      assert b == if k < i || |r| == |bs| then r[k] else r[k + 1];
    }
    if b in r {
      var k :| 0 <= k < |r| && r[k] == b;
      assert k <= i || k == i + 1 < |r| == |bs| + 1 || b == bs[if |r| == |bs| then k else k - 1];
    }
  }

  lemma PlaceLive(bs: seq<Block>, lo: int, hi: int, i: int, size: int)
    requires Tiles(bs, lo, hi) && 0 <= i < |bs| && bs[i].free
    ensures Live(Place(bs, i, size)) == Live(bs) + {Taken(bs[i], size)}
    ensures Taken(bs[i], size) !in Live(bs)
  {
    var r, taken := Place(bs, i, size), Taken(bs[i], size);
    forall b: Block | !b.free
      ensures b in r <==> b in bs || b == taken
    {
      PlaceOthers(bs, i, size, b);
      assert r[i] == taken;
    }
    if taken in bs {
      var j :| 0 <= j < |bs| && bs[j] == taken;
      SameAddr(bs, lo, hi, i, j);
    }
  }

  // ---------- freeing ----------

  /** Block `i` absorbs block `i + 1`. */
  function Merge(bs: seq<Block>, i: int): seq<Block>
    requires 0 <= i < |bs| - 1
  {
    bs[..i] + [Block(bs[i].addr, bs[i].size + HEADER + bs[i + 1].size, bs[i].free)] + bs[i + 2..]
  }

  function Marked(bs: seq<Block>, i: int): seq<Block>
    requires 0 <= i < |bs|
  {
    bs[i := bs[i].(free := true)]
  }

  function MergedNext(bs: seq<Block>, i: int): (r: seq<Block>)
    requires 0 <= i < |bs|
    ensures i < |r|
  {
    if i + 1 < |bs| && bs[i + 1].free then Merge(bs, i) else bs
  }

  function MergedPrev(bs: seq<Block>, i: int): seq<Block>
    requires 0 <= i < |bs|
  {
    if 0 < i && bs[i - 1].free then Merge(bs, i - 1) else bs
  }

  /** The list after block `i` is freed: mark it, then merge it with its successor, then with its predecessor. */
  function Freed(bs: seq<Block>, i: int): seq<Block>
    requires 0 <= i < |bs|
  {
    MergedPrev(MergedNext(Marked(bs, i), i), i)
  }

  lemma MergeTiles(bs: seq<Block>, lo: int, hi: int, i: int)
    requires Tiles(bs, lo, hi) && 0 <= i < |bs| - 1
    ensures Tiles(Merge(bs, i), lo, hi)
  {
    var r := Merge(bs, i);
    assert Adjoins(bs, i + 1);
    forall k | 0 < k < |r| ensures Adjoins(r, k) {
      assert Adjoins(bs, if k <= i then k else k + 1);
    }
  }

  lemma MergeLive(bs: seq<Block>, i: int)
    requires 0 <= i < |bs| - 1 && bs[i].free && bs[i + 1].free
    ensures Live(Merge(bs, i)) == Live(bs)
  {
    var r := Merge(bs, i);
    assert forall k | 0 <= k < |bs| && k != i && k != i + 1 :: bs[k] == if k < i then r[k] else r[k - 1];
  }

  lemma MarkedTiles(bs: seq<Block>, lo: int, hi: int, i: int)
    requires Tiles(bs, lo, hi) && 0 <= i < |bs|
    ensures Tiles(Marked(bs, i), lo, hi)
  {
    ReplacedTiles(bs, lo, hi, i, bs[i].(free := true));
  }

  lemma MergedTiles(bs: seq<Block>, lo: int, hi: int, i: int)
    requires Tiles(bs, lo, hi) && 0 <= i < |bs|
    ensures Tiles(MergedNext(bs, i), lo, hi) && Tiles(MergedPrev(bs, i), lo, hi)
  {
    if i + 1 < |bs| { MergeTiles(bs, lo, hi, i); }
    if 0 < i { MergeTiles(bs, lo, hi, i - 1); }
  }

  lemma FreedTiles(bs: seq<Block>, lo: int, hi: int, i: int)
    requires Tiles(bs, lo, hi) && 0 <= i < |bs|
    ensures Tiles(Freed(bs, i), lo, hi)
  {
    MarkedTiles(bs, lo, hi, i);
    MergedTiles(Marked(bs, i), lo, hi, i);
    MergedTiles(MergedNext(Marked(bs, i), i), lo, hi, i);
  }

  lemma FreedCoalesced(bs: seq<Block>, i: int)
    requires Coalesced(bs) && 0 <= i < |bs| && !bs[i].free
    ensures Coalesced(Freed(bs, i))
  {
    var m := Marked(bs, i);
    var n := MergedNext(m, i);
    forall k | 0 < k < |n| && k != i ensures NotBothFree(n, k) {
      assert NotBothFree(bs, if k <= i || |n| == |bs| then k else k + 1);
      if k == i + 1 && |n| < |bs| { assert NotBothFree(bs, k); }
    }
    var r := MergedPrev(n, i);
    forall k | 0 < k < |r| ensures NotBothFree(r, k) {
      assert NotBothFree(n, if k < i || |r| == |n| then k else k + 1);
    }
  }

  lemma FreedLive(bs: seq<Block>, lo: int, hi: int, i: int)
    requires Tiles(bs, lo, hi) && 0 <= i < |bs| && !bs[i].free
    ensures Live(Freed(bs, i)) == Live(bs) - {bs[i]}
  {
    var m := Marked(bs, i);
    forall b | b in Live(bs) - {bs[i]}
      ensures b in Live(m)
    {
      var j :| 0 <= j < |bs| && bs[j] == b;
      assert m[j] == b;
    }
    forall b | b in Live(m)
      ensures b in Live(bs) - {bs[i]}
    {
      var j :| 0 <= j < |m| && m[j] == b;
      assert j != i && bs[j] == b;
      if b == bs[i] { SameAddr(bs, lo, hi, i, j); }
    }
    assert Live(m) == Live(bs) - {bs[i]};
    if i + 1 < |m| && m[i + 1].free { MergeLive(m, i); }
    var n := MergedNext(m, i);
    if 0 < i && n[i - 1].free { MergeLive(n, i - 1); }
  }

  /** Freeing what was just placed, whether or not the block was split, restores the very same list. */
  lemma PlaceThenFree(bs: seq<Block>, lo: int, hi: int, i: int, size: int)
    requires Tiles(bs, lo, hi) && Coalesced(bs) && 0 <= i < |bs| && bs[i].free && 0 <= size <= bs[i].size
    ensures Freed(Place(bs, i, size), i) == bs
  {
    var r := Place(bs, i, size);
    PlaceKeeps(bs, lo, hi, i, size);
    PlaceLive(bs, lo, hi, i, size);
    assert r[i] == Taken(bs[i], size);
    FreedTiles(r, lo, hi, i);
    FreedCoalesced(r, i);
    FreedLive(r, lo, hi, i);
    CanonicalList(Freed(r, i), bs, lo, hi);
  }

  // ---------- freeing many blocks ----------

  ghost predicate IsLive(bs: seq<Block>, addr: int) {
    exists i :: 0 <= i < |bs| && bs[i].addr == addr && !bs[i].free
  }

  ghost function LiveIndex(bs: seq<Block>, addr: int): (i: int)
    requires IsLive(bs, addr)
    ensures 0 <= i < |bs| && bs[i].addr == addr && !bs[i].free
  {
    var i :| 0 <= i < |bs| && bs[i].addr == addr && !bs[i].free;
    i
  }

  /** The list after the live blocks at `addrs` are freed one after the other. */
  ghost function FreedAll(bs: seq<Block>, addrs: seq<int>): (r: seq<Block>)
    decreases |addrs|
  {
    if addrs == [] then bs
    else if IsLive(bs, addrs[0]) then FreedAll(Freed(bs, LiveIndex(bs, addrs[0])), addrs[1..])
    else FreedAll(bs, addrs[1..])
  }

  ghost function Remaining(bs: seq<Block>, addrs: seq<int>): set<Block> {
    set b | b in Live(bs) && b.addr !in addrs
  }

  /** Freeing the first of `addrs` leaves the others of them to free. */
  lemma RemainingFreed(bs: seq<Block>, lo: int, hi: int, addrs: seq<int>, i: nat)
    requires Tiles(bs, lo, hi) && addrs != [] && i < |bs| && !bs[i].free && bs[i].addr == addrs[0]
    requires Live(Freed(bs, i)) == Live(bs) - {bs[i]}
    ensures Remaining(Freed(bs, i), addrs[1..]) == Remaining(bs, addrs)
  {
    assert addrs == [addrs[0]] + addrs[1..];
    forall b | b in Live(bs) && b.addr == addrs[0] ensures b == bs[i] {
      var j :| 0 <= j < |bs| && bs[j] == b;
      SameAddr(bs, lo, hi, i, j);
    }
  }

  lemma RemainingSkipped(bs: seq<Block>, addrs: seq<int>)
    requires addrs != [] && !IsLive(bs, addrs[0])
    ensures Remaining(bs, addrs[1..]) == Remaining(bs, addrs)
  {
    assert addrs == [addrs[0]] + addrs[1..];
  }

  lemma {:induction false} FreedAllKeeps(bs: seq<Block>, lo: int, hi: int, addrs: seq<int>)
    requires Tiles(bs, lo, hi) && Coalesced(bs)
    ensures Tiles(FreedAll(bs, addrs), lo, hi) && Coalesced(FreedAll(bs, addrs))
    ensures Live(FreedAll(bs, addrs)) == Remaining(bs, addrs)
    decreases |addrs|
  {
    if addrs != [] {
      if IsLive(bs, addrs[0]) {
        var i := LiveIndex(bs, addrs[0]);
        var r := Freed(bs, i);
        FreedTiles(bs, lo, hi, i);
        FreedCoalesced(bs, i);
        FreedLive(bs, lo, hi, i);
        FreedAllKeeps(r, lo, hi, addrs[1..]);
        RemainingFreed(bs, lo, hi, addrs, i);
      } else {
        FreedAllKeeps(bs, lo, hi, addrs[1..]);
        RemainingSkipped(bs, addrs);
      }
    }
  }

  /** The order in which blocks are freed does not matter. */
  lemma FreeOrderIrrelevant(bs: seq<Block>, lo: int, hi: int, p: seq<int>, q: seq<int>)
    requires Tiles(bs, lo, hi) && Coalesced(bs)
    requires forall a :: a in p <==> a in q
    ensures FreedAll(bs, p) == FreedAll(bs, q)
  {
    FreedAllKeeps(bs, lo, hi, p);
    FreedAllKeeps(bs, lo, hi, q);
    assert Remaining(bs, p) == Remaining(bs, q);
    CanonicalList(FreedAll(bs, p), FreedAll(bs, q), lo, hi);
  }

  /** Freeing every live block, in any order, leaves one free block that spans the heap. */
  lemma FreeEverything(bs: seq<Block>, lo: int, hi: int, p: seq<int>)
    requires Tiles(bs, lo, hi) && Coalesced(bs) && bs != []
    requires forall b | b in Live(bs) :: b.addr in p
    ensures FreedAll(bs, p) == [Block(lo, hi - lo - HEADER, true)]
  {
    FreedAllKeeps(bs, lo, hi, p);
    Bounds(bs, lo, hi, 0);
    var whole := [Block(lo, hi - lo - HEADER, true)];
    assert Live(whole) == Remaining(bs, p);
    CanonicalList(FreedAll(bs, p), whole, lo, hi);
  }
}
