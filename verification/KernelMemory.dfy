/**
 The heap in memory: block headers and payloads are bytes of the frames behind the heap's pages,
 read and written through the page tables like any other byte.  Stores to the heap and stores to
 other pages with frames of their own do not meet.
 */
module KernelMemory {
  import opened Types
  import opened PageTree
  import opened TablePool
  import opened Vmm
  import opened Blocks
  import opened Headers
  import opened HeapPages
  import opened Heap
  import opened VirtualMemory

  // ---------- the heap's addresses ----------

  ghost predicate HeapEnds(end: int) {
    HEAP_START <= end <= HEAP_START + HEAP_LIMIT_PAGES * 4096 && (end - HEAP_START) % 4096 == 0
  }

  /** The pages of a heap that ends at `end`. */
  ghost function HeapSet(end: int): set<int> {
    if end < HEAP_START then {} else PageRange(HEAP_PAGE, PagesUpTo(end))
  }

  lemma HeapAddress(w: int, end: int)
    requires HEAP_START <= w < end && HeapEnds(end)
    ensures OnPage(HeapSet(end), w) && InHeap(PageOf(w))
  {
    var k := (w - HEAP_START) / 4096;
    assert w / 4096 == HEAP_START / 4096 + k;
    assert PageOf(w) == HEAP_PAGE + k;
  }

  /** None of the pages lies in the heap's 28 MiB. */
  ghost predicate Clear(kept: set<int>) {
    forall p | p in kept :: !InHeap(p)
  }

  /** A heap that grew has frames of its own, apart from those of all other pages. */
  lemma PrivateExtended(tr: map<int, int>, tr': map<int, int>, kept: set<int>, end: int, end': int,
                        issued: int, issued': int)
    requires HeapEnds(end) && HeapEnds(end') && Clear(kept) && issued' <= FRESH_CALLS
    requires Private(tr, kept + HeapSet(end), issued)
    requires Extended(tr, tr', PagesUpTo(end), PagesUpTo(end'), issued, issued')
    requires Backed(tr', PagesUpTo(end'), issued')
    ensures Private(tr', kept + HeapSet(end'), issued') && Agree(tr, tr', kept + HeapSet(end))
  {
    var before, after := kept + HeapSet(end), kept + HeapSet(end');
    forall p | p in before ensures SameEntry(tr, tr', p) {}
    PrivateStays(tr, tr', before, issued, issued');
    forall p | p in after ensures FrameBelow(tr', p, issued') {
      assert p in before || p in HeapSet(end');
    }
    forall p, q | p in after && q in after && p != q ensures FramesDiffer(tr', p, q) {
      if p in HeapSet(end') && q in HeapSet(end') {
        assert if p < q then FramesDiffer(tr', p, q) else FramesDiffer(tr', q, p);
      } else if p !in before {
        assert FrameFrom(tr', p, issued) && FrameBelow(tr, q, issued) && SameEntry(tr, tr', q);
      } else if q !in before {
        assert FrameFrom(tr', q, issued) && FrameBelow(tr, p, issued) && SameEntry(tr, tr', p);
      } else {
        assert FramesDiffer(tr', p, q);
      }
    }
  }

  // ---------- headers as bytes ----------

  // The three fields take 20 of a header's 24 bytes
  const FIELDS: int := 20

  function HeaderBytes(h: Header): (r: seq<Byte>)
    ensures |r| == FIELDS
  {
    Bytes64(h.size) + Bytes64(h.next) + Bytes32(if h.free then 1 else 0)
  }

  /** The fields of a header are read back from its bytes. */
  lemma HeaderRoundTrip(h: Header)
    requires 0 <= h.size < TWO64 && 0 <= h.next < TWO64
    ensures Word64(HeaderBytes(h), 0) == h.size && Word64(HeaderBytes(h), 8) == h.next
    ensures Word32(HeaderBytes(h), 16) != 0 <==> h.free
  {
    var b, size, next, free := HeaderBytes(h), Bytes64(h.size), Bytes64(h.next), Bytes32(if h.free then 1 else 0);
    assert forall k | 0 <= k < 8 :: b[k] == size[k] && b[8 + k] == next[k];
    assert forall k | 0 <= k < 4 :: b[16 + k] == free[k];
    assert Word64(b, 0) == Word64(size, 0) && Word64(b, 8) == Word64(next, 0) && Word32(b, 16) == Word32(free, 0);
  }

  /** The header at `a` is the one the list has there. */
  ghost predicate HeaderInMemory(tr: map<int, int>, ram: Ram, headers: map<int, Header>, a: int) {
    a in headers && Reads(tr, ram, a, HeaderBytes(headers[a]))
  }

  /** Memory holds the fields of a header at `a`. */
  ghost predicate FieldsAt(tr: map<int, int>, ram: Ram, a: int, h: Header) {
    exists b ::
      && |b| == FIELDS && Reads(tr, ram, a, b)
      && Word64(b, 0) == h.size && Word64(b, 8) == h.next && (Word32(b, 16) != 0 <==> h.free)
  }

  /** Two readings of the same bytes are the same. */
  lemma FieldsUnique(tr: map<int, int>, ram: Ram, a: int, h: Header, h': Header)
    requires FieldsAt(tr, ram, a, h) && FieldsAt(tr, ram, a, h')
    ensures h == h'
  {
    var b :| |b| == FIELDS && Reads(tr, ram, a, b) &&
             Word64(b, 0) == h.size && Word64(b, 8) == h.next && (Word32(b, 16) != 0 <==> h.free);
    var c :| |c| == FIELDS && Reads(tr, ram, a, c) &&
             Word64(c, 0) == h'.size && Word64(c, 8) == h'.next && (Word32(c, 16) != 0 <==> h'.free);
    forall k | 0 <= k < FIELDS ensures b[k] == c[k] {
      assert ReadsAt(tr, ram, a, b, a + k) && ReadsAt(tr, ram, a, c, a + k);
    }
    assert b == c;
  }

  /** Following `next` through the bytes from `at` to NULL meets the blocks `bs`, one after the other. */
  ghost predicate Walks(tr: map<int, int>, ram: Ram, at: int, bs: seq<Block>)
    decreases |bs|, 1
  {
    if bs == [] then at == NULL
    else at != NULL && at == bs[0].addr && exists next :: WalksOn(tr, ram, next, bs)
  }

  ghost predicate WalksOn(tr: map<int, int>, ram: Ram, next: int, bs: seq<Block>)
    requires bs != []
    decreases |bs|, 0
  {
    FieldsAt(tr, ram, bs[0].addr, Header(bs[0].size, next, bs[0].free)) && Walks(tr, ram, next, bs[1..])
  }

  /** A walk through the bytes meets one list only. */
  lemma {:induction false} WalksUnique(tr: map<int, int>, ram: Ram, at: int, bs: seq<Block>, cs: seq<Block>)
    requires Walks(tr, ram, at, bs) && Walks(tr, ram, at, cs)
    ensures bs == cs
    decreases |bs|
  {
    if bs != [] && cs != [] {
      var next :| WalksOn(tr, ram, next, bs);
      var next' :| WalksOn(tr, ram, next', cs);
      FieldsUnique(tr, ram, at, Header(bs[0].size, next, bs[0].free), Header(cs[0].size, next', cs[0].free));
      WalksUnique(tr, ram, next, bs[1..], cs[1..]);
      assert bs == [bs[0]] + bs[1..] && cs == [cs[0]] + cs[1..];
    }
  }

  /** Every header of the list is in memory. */
  ghost predicate InMemory(tr: map<int, int>, ram: Ram, headers: map<int, Header>, bs: seq<Block>) {
    forall a | a in Addrs(bs) :: HeaderInMemory(tr, ram, headers, a)
  }

  /** `w` is a byte of a header stored at one of `stores`. */
  ghost predicate InHeader(stores: set<int>, w: int) {
    exists a :: a in stores && a <= w < a + FIELDS
  }

  /** The headers at `stores` were written, and no other byte on `pages`. */
  ghost predicate HeadersWritten(tr: map<int, int>, ram: Ram, ram': Ram, pages: set<int>,
                                 stores: set<int>, headers: map<int, Header>) {
    && (forall a | a in stores :: HeaderInMemory(tr, ram', headers, a))
    && (forall w | OnPage(pages, w) && !InHeader(stores, w) :: SameByte(tr, ram, tr, ram', w))
  }

  /** Two headers of a list do not overlap, and none reaches past the end of the heap. */
  lemma HeadersApart(bs: seq<Block>, lo: int, hi: int, a: int, b: int)
    requires Tiles(bs, lo, hi) && a in Addrs(bs) && b in Addrs(bs) && a != b
    ensures a + HEADER <= b || b + HEADER <= a
  {
    var i := IndexOf(bs, a);
    var j := IndexOf(bs, b);
    PayloadsDisjoint(bs, lo, hi, i, j);
  }

  lemma HeaderBounds(bs: seq<Block>, lo: int, hi: int, a: int)
    requires Tiles(bs, lo, hi) && a in Addrs(bs)
    ensures lo <= a && a + HEADER <= hi
  {
    var i := IndexOf(bs, a);
    Bounds(bs, lo, hi, i);
  }

  lemma HeaderSpans(bs: seq<Block>, end: int, pages: set<int>, a: int)
    requires Tiles(bs, HEAP_START, end) && a in Addrs(bs) && HeapEnds(end) && HeapSet(end) <= pages
    ensures Spans(pages, a, FIELDS)
  {
    HeaderBounds(bs, HEAP_START, end, a);
    forall w | a <= w < a + FIELDS ensures OnPage(pages, w) {
      HeapAddress(w, end);
    }
  }

  /** One more header. */
  lemma HeadersMore(tr: map<int, int>, ram: Ram, ram': Ram, ram'': Ram, pages: set<int>,
                    stores: set<int>, headers: map<int, Header>, a: int, bs: seq<Block>, end: int)
    requires HeadersWritten(tr, ram, ram', pages, stores, headers)
    requires Tiles(bs, HEAP_START, end) && stores + {a} <= Addrs(bs) && a !in stores && a in headers
    requires HeapEnds(end) && HeapSet(end) <= pages
    requires Written(tr, ram', ram'', pages, a, HeaderBytes(headers[a]))
    ensures HeadersWritten(tr, ram, ram'', pages, stores + {a}, headers)
  {
    HeaderSpans(bs, end, pages, a);
    WrittenReads(tr, ram', ram'', pages, a, HeaderBytes(headers[a]));
    forall b | b in stores ensures HeaderInMemory(tr, ram'', headers, b) {
      assert HeaderInMemory(tr, ram', headers, b);
      HeadersApart(bs, HEAP_START, end, a, b);
      HeaderSpans(bs, end, pages, b);
      WrittenBeside(tr, ram', ram'', pages, a, HeaderBytes(headers[a]), b, HeaderBytes(headers[b]));
    }
    var stores' := stores + {a};
    forall w | OnPage(pages, w) && !InHeader(stores', w)
      ensures SameByte(tr, ram, tr, ram'', w)
    {
      assert a in stores' && !InHeader(stores, w);
      assert SameByte(tr, ram, tr, ram', w) && WrittenAt(tr, ram', ram'', a, HeaderBytes(headers[a]), w);
    }
  }

  // ---------- what stays as it is ----------

  ghost predicate InPayload(b: Block, w: int) {
    b.addr + HEADER <= w < b.End()
  }

  /** `w` lies on one of the pages `kept` or in the payload of a live block. */
  ghost predicate Protected(kept: set<int>, live: set<Block>, w: int) {
    OnPage(kept, w) || exists b :: b in live && InPayload(b, w)
  }

  /** No byte on the pages `kept` or in a payload of `live` reads differently. */
  ghost predicate Keeps(tr: map<int, int>, ram: Ram, tr': map<int, int>, ram': Ram, kept: set<int>, live: set<Block>) {
    forall w | Protected(kept, live, w) :: SameByte(tr, ram, tr', ram', w)
  }

  lemma KeepsTwice(tr: map<int, int>, ram: Ram, tr': map<int, int>, ram': Ram, tr'': map<int, int>, ram'': Ram,
                   kept: set<int>, live: set<Block>)
    requires Keeps(tr, ram, tr', ram', kept, live) && Keeps(tr', ram', tr'', ram'', kept, live)
    ensures Keeps(tr, ram, tr'', ram'', kept, live)
  {
    forall w | Protected(kept, live, w) ensures SameByte(tr, ram, tr'', ram'', w) {
      assert SameByte(tr, ram, tr', ram', w) && SameByte(tr', ram', tr'', ram'', w);
    }
  }

  lemma KeepsFewer(tr: map<int, int>, ram: Ram, tr': map<int, int>, ram': Ram,
                   kept: set<int>, live: set<Block>, fewer: set<int>, less: set<Block>)
    requires Keeps(tr, ram, tr', ram', kept, live) && fewer <= kept && less <= live
    ensures Keeps(tr, ram, tr', ram', fewer, less)
  {
    forall w | Protected(fewer, less, w) ensures SameByte(tr, ram, tr', ram', w) {
      assert Protected(kept, live, w);
    }
  }

  /** What is kept when a block is filled on pages `pages` and then other memory is, `kept` excepted. */
  lemma KeepsFilled(tr: map<int, int>, ram: Ram, ram1: Ram, tr2: map<int, int>, ram2: Ram,
                    kept: set<int>, pages: set<int>, live: set<Block>, b: Block)
    requires kept <= pages && Keeps(tr, ram, tr, ram1, pages, live - {b}) && Keeps(tr, ram1, tr2, ram2, kept, live)
    ensures Keeps(tr, ram, tr2, ram2, kept, live - {b})
  {
    KeepsFewer(tr, ram, tr, ram1, pages, live - {b}, kept, live - {b});
    KeepsFewer(tr, ram1, tr2, ram2, kept, live, kept, live - {b});
    KeepsTwice(tr, ram, tr, ram1, tr2, ram2, kept, live - {b});
  }

  lemma KeepsSame(tr: map<int, int>, ram: Ram, kept: set<int>, live: set<Block>, pages: set<int>)
    ensures Keeps(tr, ram, tr, ram, kept, live) && Outside(tr, tr, pages)
  {
  }

  /** What lies on protected addresses is read as before. */
  lemma KeepsReads(tr: map<int, int>, ram: Ram, tr': map<int, int>, ram': Ram, kept: set<int>, live: set<Block>,
                   v: int, data: seq<Byte>)
    requires Keeps(tr, ram, tr', ram', kept, live) && Reads(tr, ram, v, data)
    requires forall w | v <= w < v + |data| :: Protected(kept, live, w)
    ensures Reads(tr', ram', v, data)
  {
    forall w | v <= w < v + |data| ensures SameByte(tr, ram, tr', ram', w) {
      assert Protected(kept, live, w);
    }
    ReadsStays(tr, ram, tr', ram', v, data);
  }

  /** Protected addresses lie on the pages kept or on the heap's. */
  lemma ProtectedOnPage(kept: set<int>, bs: seq<Block>, end: int, w: int)
    requires Tiles(bs, HEAP_START, end) && HeapEnds(end) && Protected(kept, Live(bs), w)
    ensures OnPage(kept + HeapSet(end), w)
  {
    if !OnPage(kept, w) {
      var b :| b in Live(bs) && InPayload(b, w);
      var i :| 0 <= i < |bs| && bs[i] == b;
      Bounds(bs, HEAP_START, end, i);
      HeapAddress(w, end);
    }
  }

  /** Header stores miss what is protected. */
  lemma HeadersMiss(kept: set<int>, stores: set<int>, bs: seq<Block>, end: int, list: seq<Block>, w: int)
    requires Tiles(bs, HEAP_START, end) && HeapEnds(end) && stores <= Addrs(bs) && Clear(kept)
    requires AllOutside(stores, list) && Protected(kept, Live(list), w)
    ensures !InHeader(stores, w)
  {
    forall a | a in stores ensures !(a <= w < a + FIELDS) {
      HeaderBounds(bs, HEAP_START, end, a);
      assert OutsidePayloads(a, list);
      if HEAP_START <= w < end { HeapAddress(w, end); }
    }
  }

  /** Header stores of a heap call keep every page of `kept` and every payload of `list`. */
  lemma HeadersKeep(tr: map<int, int>, ram: Ram, tr': map<int, int>, ram': Ram, kept: set<int>,
                    stores: set<int>, headers: map<int, Header>, bs: seq<Block>, end: int, list: seq<Block>, end0: int)
    requires Tiles(bs, HEAP_START, end) && HeapEnds(end) && stores <= Addrs(bs) && Clear(kept)
    requires Tiles(list, HEAP_START, end0) && HeapEnds(end0) && end0 <= end && AllOutside(stores, list)
    requires Agree(tr, tr', kept + HeapSet(end0))
    requires HeadersWritten(tr', ram, ram', kept + HeapSet(end), stores, headers)
    ensures Keeps(tr, ram, tr', ram', kept, Live(list))
  {
    forall w | Protected(kept, Live(list), w) ensures SameByte(tr, ram, tr', ram', w) {
      ProtectedOnPage(kept, list, end0, w);
      HeadersMiss(kept, stores, bs, end, list, w);
      SameEntrySameByte(tr, tr', ram, w);
      assert OnPage(kept + HeapSet(end), w);
      assert SameByte(tr', ram, tr', ram', w);
    }
  }

  /** After the stores of a heap call the headers of the new list are in memory. */
  lemma HeadersArrive(tr: map<int, int>, ram: Ram, tr': map<int, int>, ram': Ram, pages: set<int>,
                      h: map<int, Header>, list: seq<Block>, end0: int,
                      h': map<int, Header>, list': seq<Block>, stores: set<int>, bs: seq<Block>, end: int)
    requires InMemory(tr, ram, h, list) && Tiles(list, HEAP_START, end0) && HeapEnds(end0) && end0 <= end
    requires Tiles(bs, HEAP_START, end) && HeapEnds(end) && stores <= Addrs(bs) && HeapSet(end) <= pages
    requires OnlyAt(h, h', stores) && Addrs(list') <= Addrs(list) + stores && Addrs(list') + Addrs(list) <= Addrs(bs)
    requires Agree(tr, tr', HeapSet(end0)) && HeadersWritten(tr', ram, ram', pages, stores, h')
    ensures InMemory(tr', ram', h', list')
  {
    HeapSetGrows(end0, end);
    forall a | a in Addrs(list') && a !in stores ensures HeaderInMemory(tr', ram', h', a) {
      assert HeaderInMemory(tr, ram, h, a);
      HeaderSpans(list, end0, HeapSet(end0), a);
      forall w | a <= w < a + FIELDS ensures !InHeader(stores, w) {
        NotInHeader(bs, end, stores, a, w);
      }
      HeaderStays(tr, ram, tr', ram', pages, HeapSet(end0), stores, h', a);
    }
  }

  /** A header apart from those that are written. */
  lemma HeaderStays(tr: map<int, int>, ram: Ram, tr': map<int, int>, ram': Ram, pages: set<int>, fewer: set<int>,
                    stores: set<int>, headers: map<int, Header>, a: int)
    requires HeaderInMemory(tr, ram, headers, a) && HeadersWritten(tr', ram, ram', pages, stores, headers)
    requires fewer <= pages && Agree(tr, tr', fewer) && Spans(fewer, a, FIELDS)
    requires forall w | a <= w < a + FIELDS :: !InHeader(stores, w)
    ensures HeaderInMemory(tr', ram', headers, a)
  {
    forall w | a <= w < a + FIELDS ensures SameByte(tr, ram, tr', ram', w) {
      assert OnPage(fewer, w) && OnPage(pages, w) && !InHeader(stores, w);
      SameEntrySameByte(tr, tr', ram, w);
      assert SameByte(tr', ram, tr', ram', w);
    }
    ReadsStays(tr, ram, tr', ram', a, HeaderBytes(headers[a]));
  }

  lemma HeapSetGrows(end: int, end': int)
    requires HeapEnds(end) && HeapEnds(end') && end <= end'
    ensures HeapSet(end) <= HeapSet(end')
  {
    forall p | p in HeapSet(end) ensures InRange(HEAP_PAGE, PagesUpTo(end'), p) {}
  }

  lemma NotInHeader(bs: seq<Block>, end: int, stores: set<int>, a: int, w: int)
    requires Tiles(bs, HEAP_START, end) && stores <= Addrs(bs) && a in Addrs(bs) && a !in stores
    requires a <= w < a + FIELDS
    ensures !InHeader(stores, w)
  {
    if b :| b in stores && b <= w < b + FIELDS {
      HeadersApart(bs, HEAP_START, end, a, b);
    }
  }

  // ---------- stores ----------

  /** A store that misses what is protected keeps it. */
  lemma StoreKeeps(tr: map<int, int>, ram: Ram, ram': Ram, kept: set<int>, bs: seq<Block>, end: int,
                   v: int, data: seq<Byte>, fewer: set<int>, less: set<Block>)
    requires Tiles(bs, HEAP_START, end) && HeapEnds(end) && fewer <= kept && less <= Live(bs)
    requires Written(tr, ram, ram', kept + HeapSet(end), v, data)
    requires forall w | v <= w < v + |data| :: !Protected(fewer, less, w)
    ensures Keeps(tr, ram, tr, ram', fewer, less)
  {
    forall w | Protected(fewer, less, w) ensures SameByte(tr, ram, tr, ram', w) {
      assert Protected(kept, Live(bs), w);
      ProtectedOnPage(kept, bs, end, w);
      assert WrittenAt(tr, ram, ram', v, data, w);
    }
  }

  /** A store that misses the headers leaves the list in memory. */
  lemma StoreKeepsHeaders(tr: map<int, int>, ram: Ram, ram': Ram, pages: set<int>, headers: map<int, Header>,
                          bs: seq<Block>, end: int, v: int, data: seq<Byte>)
    requires Tiles(bs, HEAP_START, end) && HeapEnds(end) && HeapSet(end) <= pages && InMemory(tr, ram, headers, bs)
    requires Written(tr, ram, ram', pages, v, data)
    requires forall a | a in Addrs(bs) :: a + FIELDS <= v || v + |data| <= a
    ensures InMemory(tr, ram', headers, bs)
  {
    forall a | a in Addrs(bs) ensures HeaderInMemory(tr, ram', headers, a) {
      assert HeaderInMemory(tr, ram, headers, a);
      HeaderSpans(bs, end, pages, a);
      WrittenBeside(tr, ram, ram', pages, v, data, a, HeaderBytes(headers[a]));
    }
  }

  /** The payload of a live block lies on the heap's pages. */
  lemma PayloadSpans(bs: seq<Block>, end: int, b: Block, pages: set<int>)
    requires Tiles(bs, HEAP_START, end) && HeapEnds(end) && b in bs && HeapSet(end) <= pages
    ensures Spans(pages, b.addr + HEADER, b.size)
  {
    var i :| 0 <= i < |bs| && bs[i] == b;
    Bounds(bs, HEAP_START, end, i);
    forall w | b.addr + HEADER <= w < b.addr + HEADER + b.size ensures OnPage(pages, w) {
      HeapAddress(w, end);
    }
  }

  /** The payload of a live block is apart from headers, from other payloads and from pages outside the heap. */
  lemma PayloadApart(bs: seq<Block>, end: int, b: Block, kept: set<int>)
    requires Tiles(bs, HEAP_START, end) && HeapEnds(end) && b in Live(bs) && Clear(kept)
    ensures forall a | a in Addrs(bs) :: a + FIELDS <= b.addr + HEADER || b.End() <= a
    ensures forall w | InPayload(b, w) :: !Protected(kept, Live(bs) - {b}, w)
  {
    var i :| 0 <= i < |bs| && bs[i] == b;
    Bounds(bs, HEAP_START, end, i);
    forall a | a in Addrs(bs) ensures a + FIELDS <= b.addr + HEADER || b.End() <= a {
      var j := IndexOf(bs, a);
      if i != j { PayloadsDisjoint(bs, HEAP_START, end, i, j); }
    }
    forall w | InPayload(b, w) ensures !Protected(kept, Live(bs) - {b}, w) {
      HeapAddress(w, end);
      forall c | c in Live(bs) - {b} ensures !InPayload(c, w) {
        var j :| 0 <= j < |bs| && bs[j] == c;
        PayloadsDisjoint(bs, HEAP_START, end, i, j);
      }
    }
  }

  /** Outside the heap's 28 MiB only pages of `pages` change their translation. */
  ghost predicate Outside(tr: map<int, int>, tr': map<int, int>, pages: set<int>) {
    forall p | !InHeap(p) && p !in pages :: SameEntry(tr, tr', p)
  }

  lemma OutsideTwice(tr: map<int, int>, tr': map<int, int>, tr'': map<int, int>, pages: set<int>, more: set<int>)
    requires Outside(tr, tr', pages) && Outside(tr', tr'', more) && pages <= more
    ensures Outside(tr, tr'', more)
  {
    forall p | !InHeap(p) && p !in more ensures SameEntry(tr, tr'', p) {
      assert SameEntry(tr, tr', p) && SameEntry(tr', tr'', p);
    }
  }

  /** A change of other translations keeps what is protected and leaves the list in memory. */
  lemma AgreeKeeps(tr: map<int, int>, tr': map<int, int>, ram: Ram, kept: set<int>,
                   headers: map<int, Header>, bs: seq<Block>, end: int)
    requires Tiles(bs, HEAP_START, end) && HeapEnds(end) && Agree(tr, tr', kept + HeapSet(end))
    ensures Keeps(tr, ram, tr', ram, kept, Live(bs))
    ensures InMemory(tr, ram, headers, bs) ==> InMemory(tr', ram, headers, bs)
  {
    forall w | Protected(kept, Live(bs), w) ensures SameByte(tr, ram, tr', ram, w) {
      ProtectedOnPage(kept, bs, end, w);
      SameEntrySameByte(tr, tr', ram, w);
    }
    forall a | a in Addrs(bs) && HeaderInMemory(tr, ram, headers, a) ensures HeaderInMemory(tr', ram, headers, a) {
      HeaderSpans(bs, end, HeapSet(end), a);
      forall w | a <= w < a + FIELDS ensures SameByte(tr, ram, tr', ram, w) {
        assert OnPage(HeapSet(end), w);
        SameEntrySameByte(tr, tr', ram, w);
      }
      ReadsStays(tr, ram, tr', ram, a, HeaderBytes(headers[a]));
    }
  }

  /** A store on one page outside the heap changes no byte of the heap, header or payload, and none on other pages. */
  lemma StoreOutsideHeap(tr: map<int, int>, ram: Ram, ram': Ram, kept: set<int>, others: set<int>,
                         headers: map<int, Header>, bs: seq<Block>, end: int, v: int, data: seq<Byte>)
    requires Tiles(bs, HEAP_START, end) && HeapEnds(end) && Clear(kept) && others <= kept
    requires Written(tr, ram, ram', kept + HeapSet(end), v, data) && Spans(kept - others, v, |data|)
    ensures Keeps(tr, ram, tr, ram', others, Live(bs))
    ensures InMemory(tr, ram, headers, bs) ==> InMemory(tr, ram', headers, bs)
    ensures forall w | HEAP_START <= w < end :: SameByte(tr, ram, tr, ram', w)
  {
    forall w | HEAP_START <= w < end ensures SameByte(tr, ram, tr, ram', w) && !(v <= w < v + |data|) {
      HeapAddress(w, end);
      assert OnPage(kept + HeapSet(end), w) && WrittenAt(tr, ram, ram', v, data, w);
      assert v <= w < v + |data| ==> OnPage(kept - others, w);
    }
    forall w | Protected(others, Live(bs), w) ensures SameByte(tr, ram, tr, ram', w) {
      ProtectedOnPage(others, bs, end, w);
      assert OnPage(kept + HeapSet(end), w) && WrittenAt(tr, ram, ram', v, data, w);
      assert v <= w < v + |data| ==> OnPage(kept - others, w);
    }
    forall a | a in Addrs(bs) && HeaderInMemory(tr, ram, headers, a) ensures HeaderInMemory(tr, ram', headers, a) {
      HeaderBounds(bs, HEAP_START, end, a);
      ReadsStays(tr, ram, tr, ram', a, HeaderBytes(headers[a]));
    }
  }

  /** A store to any address of the heap changes no byte on pages outside it. */
  lemma StoreInHeap(tr: map<int, int>, ram: Ram, kept: set<int>, end: int, at: int, c: Byte, w: int)
    requires HeapEnds(end) && Clear(kept) && DistinctFrames(tr, kept + HeapSet(end))
    requires HEAP_START <= at < end && OnPage(kept, w)
    ensures PageOf(at) in tr && SameByte(tr, ram, tr, ram[Phys(tr, at) := c], w)
  {
    HeapAddress(at, end);
    PhysInjective(tr, kept + HeapSet(end), at, w);
  }

  lemma ExtendedOutside(tr: map<int, int>, tr': map<int, int>, n: int, m: int, issued: int, issued': int)
    requires Extended(tr, tr', n, m, issued, issued') && 0 <= n
    ensures Outside(tr, tr', {})
  {
  }

  class Memory {
    const heap: KernelHeap
    var ram: Ram

    /**
     The heap is valid and its headers are in memory; its pages and the pages `kept` have frames of
     their own.
     */
    ghost predicate Valid(kept: set<int>)
      reads this`ram, heap`headers, heap`first, heap`heapEnd, heap`blocks, heap.vm
    {
      && heap.Valid() && Clear(kept)
      && Private(heap.vm.translation, kept + HeapSet(heap.heapEnd), heap.vm.issued)
      && InMemory(heap.vm.translation, ram, heap.headers, heap.blocks)
    }

    /** Whatever memory holds at first, the invariant holds before the heap is initialised. */
    constructor (h: KernelHeap, bytes: Ram)
      ensures heap == h && ram == bytes
      ensures h.Valid() && h.first == NULL ==> Valid({})
    {
      heap, ram := h, bytes;
    }

    /** The bytes at a block's address are its size, the address of the next block and its free flag. */
    lemma HeaderDecodes(kept: set<int>, i: int)
      requires Valid(kept) && 0 <= i < |heap.blocks|
      ensures var b := heap.blocks[i];
              FieldsAt(heap.vm.translation, ram, b.addr, Header(b.size, NextAddr(heap.blocks, i), b.free))
    {
      var bs := heap.blocks;
      var h := Header(bs[i].size, NextAddr(bs, i), bs[i].free);
      assert StoredAt(heap.headers, bs, i) && bs[i].addr in Addrs(bs);
      assert HeaderInMemory(heap.vm.translation, ram, heap.headers, bs[i].addr);
      Bounds(bs, HEAP_START, heap.heapEnd, i);
      if i + 1 < |bs| { Bounds(bs, HEAP_START, heap.heapEnd, i + 1); }
      HeaderRoundTrip(h);
      assert |HeaderBytes(h)| == FIELDS;
    }

    lemma {:induction false} WalkFrom(kept: set<int>, i: int)
      requires Valid(kept) && 0 <= i < |heap.blocks|
      ensures Walks(heap.vm.translation, ram, heap.blocks[i].addr, heap.blocks[i..])
      decreases |heap.blocks| - i
    {
      var bs := heap.blocks;
      var next := NextAddr(bs, i);
      HeaderDecodes(kept, i);
      Bounds(bs, HEAP_START, heap.heapEnd, i);
      if i + 1 < |bs| { WalkFrom(kept, i + 1); }
      assert bs[i..][1..] == bs[i + 1..];
      assert WalksOn(heap.vm.translation, ram, next, bs[i..]);
    }

    /** The list of the heap is what following `next` through the bytes of memory meets, and the only such list. */
    lemma ListInMemory(kept: set<int>, bs: seq<Block>)
      requires Valid(kept)
      ensures Walks(heap.vm.translation, ram, heap.first, bs) <==> bs == heap.blocks
    {
      if heap.first != NULL {
        WalkFrom(kept, 0);
        assert heap.blocks[0..] == heap.blocks;
      }
      if Walks(heap.vm.translation, ram, heap.first, bs) {
        WalksUnique(heap.vm.translation, ram, heap.first, bs, heap.blocks);
      }
    }

    /** Heap pages and other kept pages never share a frame. */
    lemma HeapApart(kept: set<int>, p: int, q: int)
      requires Valid(kept) && p in kept && q in HeapSet(heap.heapEnd)
      ensures FramesDiffer(heap.vm.translation, p, q)
    {
      assert p in kept + HeapSet(heap.heapEnd) && q in kept + HeapSet(heap.heapEnd);
      assert InHeap(q);
    }

    /** One page outside the heap was mapped to the frame just handed out, or none was. */
    lemma ValidMapped(kept: set<int>, tr: map<int, int>, issued: nat, p: int, frame: int, flags: int, ok: bool)
      requires heap.Listed() && Coalesced(heap.blocks) && heap.vm.Valid() && HeapEnds(heap.heapEnd) && Clear(kept)
      requires Backed(tr, PagesUpTo(heap.heapEnd), issued) && Private(tr, kept + HeapSet(heap.heapEnd), issued)
      requires InMemory(tr, ram, heap.headers, heap.blocks) && heap.vm.issued == issued + 1
      requires !InHeap(p) && p !in kept && 0 <= flags < PAGE_SIZE
      requires ok ==> frame == FIRST_FRAME + issued * 4096
      requires heap.vm.translation == if ok then tr[p := Leaf(frame, flags)] else tr
      ensures Valid(if ok then kept + {p} else kept)
      ensures forall q | q != p :: SameEntry(tr, heap.vm.translation, q)
    {
      var tr', end, pages := heap.vm.translation, heap.heapEnd, kept + HeapSet(heap.heapEnd);
      BackedStays(tr, tr', PagesUpTo(end), issued, issued + 1);
      assert Agree(tr, tr', pages);
      AgreeKeeps(tr, tr', ram, kept, heap.headers, heap.blocks, end);
      if ok {
        PrivateGrows(tr, tr', pages, issued, p, frame, flags);
        assert pages + {p} == kept + {p} + HeapSet(end);
      } else {
        PrivateStays(tr, tr', pages, issued, issued + 1);
      }
    }

    lemma ValidFewer(fewer: set<int>, kept: set<int>)
      requires Valid(kept) && fewer <= kept
      ensures Valid(fewer)
    {
      PrivateFewer(heap.vm.translation, fewer + HeapSet(heap.heapEnd), kept + HeapSet(heap.heapEnd), heap.vm.issued);
    }

    /** A store through the page tables. */
    method StoreByte(at: int, c: Byte)
      requires heap.vm.TreeValid() && 0 <= at < TWO64 && PageOf(at) in heap.vm.translation
      modifies this`ram
      ensures ram == old(ram)[Phys(heap.vm.translation, at) := c]
    {
      var pt := heap.vm.FindLeaf(at);
      var frame := Base(heap.vm.tables[pt.value][PtIndex(at)]);
      ram := ram[frame + at % PAGE_SIZE := c];
    }

    /** A load through the page tables; a byte never written is some byte. */
    method LoadByte(at: int) returns (c: Byte)
      requires heap.vm.TreeValid() && 0 <= at < TWO64 && PageOf(at) in heap.vm.translation
      ensures var b := ByteAt(heap.vm.translation, ram, at); b.Some? ==> c == b.value
    {
      var pt := heap.vm.FindLeaf(at);
      var frame := Base(heap.vm.tables[pt.value][PtIndex(at)]);
      if frame + at % PAGE_SIZE in ram {
        c := ram[frame + at % PAGE_SIZE];
      } else {
        c := *;
      }
    }

    /** Stores `data` from `v` on. */
    method Store(v: int, data: seq<Byte>, ghost pages: set<int>)
      requires heap.vm.TreeValid() && DistinctFrames(heap.vm.translation, pages) && Spans(pages, v, |data|)
      modifies this`ram
      ensures Written(heap.vm.translation, old(ram), ram, pages, v, data)
    {
      ghost var tr := heap.vm.translation;
      WrittenNothing(tr, ram, pages, v);
      for i := 0 to |data|
        invariant Written(tr, old(ram), ram, pages, v, data[..i])
      {
        assert OnPage(pages, v + i);
        WrittenMore(tr, old(ram), ram, pages, v, data[..i], data[i]);
        assert data[..i] + [data[i]] == data[..i + 1];
        StoreByte(v + i, data[i]);
      }
      assert data[..|data|] == data;
    }

    /** `memset` to zero. */
    method Zero(v: int, n: nat, ghost pages: set<int>)
      requires heap.vm.TreeValid() && DistinctFrames(heap.vm.translation, pages) && Spans(pages, v, n)
      modifies this`ram
      ensures Written(heap.vm.translation, old(ram), ram, pages, v, Repeat(0 as Byte, n))
    {
      ghost var tr := heap.vm.translation;
      WrittenNothing(tr, ram, pages, v);
      for i := 0 to n
        invariant Written(tr, old(ram), ram, pages, v, Repeat(0 as Byte, i))
      {
        assert OnPage(pages, v + i);
        WrittenMore(tr, old(ram), ram, pages, v, Repeat(0 as Byte, i), 0);
        StoreByte(v + i, 0);
      }
    }

    /** `memcpy` of the bytes `data` that lie at `from`, a range apart from the one at `to`. */
    method Copy(to: int, from: int, n: nat, ghost data: seq<Byte>, ghost pages: set<int>)
      requires heap.vm.TreeValid() && DistinctFrames(heap.vm.translation, pages) && n == |data|
      requires Spans(pages, to, n) && Spans(pages, from, n) && (to + n <= from || from + n <= to)
      requires Reads(heap.vm.translation, ram, from, data)
      modifies this`ram
      ensures Written(heap.vm.translation, old(ram), ram, pages, to, data)
    {
      ghost var tr := heap.vm.translation;
      WrittenNothing(tr, ram, pages, to);
      for i := 0 to n
        invariant Written(tr, old(ram), ram, pages, to, data[..i])
      {
        assert OnPage(pages, to + i) && OnPage(pages, from + i);
        assert ReadsAt(tr, old(ram), from, data, from + i);
        assert WrittenAt(tr, old(ram), ram, to, data[..i], from + i);
        var c := LoadByte(from + i);
        WrittenMore(tr, old(ram), ram, pages, to, data[..i], data[i]);
        assert data[..i] + [data[i]] == data[..i + 1];
        StoreByte(to + i, c);
      }
      assert data[..n] == data;
    }

    /** Loads the `n` bytes `data` that lie at `v`. */
    method Fetch(v: int, n: nat, ghost data: seq<Byte>, ghost pages: set<int>) returns (r: seq<Byte>)
      requires heap.vm.TreeValid() && (forall p | p in pages :: p in heap.vm.translation) && n == |data|
      requires Spans(pages, v, n) && Reads(heap.vm.translation, ram, v, data)
      ensures r == data
    {
      r := [];
      for i := 0 to n
        invariant r == data[..i]
      {
        assert OnPage(pages, v + i) && ReadsAt(heap.vm.translation, ram, v, data, v + i);
        var c := LoadByte(v + i);
        r := r + [c];
      }
    }

    /** The header stores of the last heap call; `bs` is a list that has all of those headers. */
    method StoreHeaders(ghost pages: set<int>, ghost bs: seq<Block>)
      requires heap.vm.TreeValid() && DistinctFrames(heap.vm.translation, pages)
      requires HeapEnds(heap.heapEnd) && HeapSet(heap.heapEnd) <= pages && Tiles(bs, HEAP_START, heap.heapEnd)
      requires heap.stores <= heap.headers.Keys && heap.stores <= Addrs(bs)
      modifies this`ram
      ensures HeadersWritten(heap.vm.translation, old(ram), ram, pages, heap.stores, heap.headers)
    {
      ghost var done: set<int> := {};
      var todo := heap.stores;
      while todo != {}
        invariant todo <= heap.stores && done == heap.stores - todo
        invariant HeadersWritten(heap.vm.translation, old(ram), ram, pages, done, heap.headers)
        decreases |todo|
      {
        var a :| a in todo;
        StoreHeader(a, pages, bs, old(ram), done);
        todo, done := todo - {a}, done + {a};
      }
      assert done == heap.stores;
    }

    /** Stores one header behind those at `done`. */
    method StoreHeader(a: int, ghost pages: set<int>, ghost bs: seq<Block>, ghost before: Ram, ghost done: set<int>)
      requires heap.vm.TreeValid() && DistinctFrames(heap.vm.translation, pages)
      requires HeapEnds(heap.heapEnd) && HeapSet(heap.heapEnd) <= pages && Tiles(bs, HEAP_START, heap.heapEnd)
      requires a in heap.headers && a !in done && done + {a} <= Addrs(bs)
      requires HeadersWritten(heap.vm.translation, before, ram, pages, done, heap.headers)
      modifies this`ram
      ensures HeadersWritten(heap.vm.translation, before, ram, pages, done + {a}, heap.headers)
    {
      HeaderSpans(bs, heap.heapEnd, pages, a);
      Store(a, HeaderBytes(heap.headers[a]), pages);
      HeadersMore(heap.vm.translation, before, old(ram), ram, pages, done, heap.headers, a, bs, heap.heapEnd);
    }

    /**
     The header stores after a heap call: the list is in memory, and no page of `kept` and no payload
     that was live before or is live now reads differently.
     */
    method SettleHeaders(ghost kept: set<int>, ghost bs: seq<Block>, ghost tr: map<int, int>,
                         ghost h: map<int, Header>, ghost list: seq<Block>, ghost end: int)
      requires heap.Valid() && Clear(kept)
      requires Private(heap.vm.translation, kept + HeapSet(heap.heapEnd), heap.vm.issued)
      requires Tiles(list, HEAP_START, end) && HeapEnds(end) && end <= heap.heapEnd && InMemory(tr, ram, h, list)
      requires Agree(tr, heap.vm.translation, kept + HeapSet(end))
      requires Tiles(bs, HEAP_START, heap.heapEnd) && heap.stores + Addrs(heap.blocks) + Addrs(list) <= Addrs(bs)
      requires OnlyAt(h, heap.headers, heap.stores) && Addrs(heap.blocks) <= Addrs(list) + heap.stores
      requires AllOutside(heap.stores, list) && AllOutside(heap.stores, heap.blocks)
      modifies this`ram
      ensures Valid(kept) && Keeps(tr, old(ram), heap.vm.translation, ram, kept, Live(list))
    {
      ghost var pages := kept + HeapSet(heap.heapEnd);
      StoreHeaders(pages, bs);
      HeadersKeep(tr, old(ram), heap.vm.translation, ram, kept, heap.stores, heap.headers,
                  bs, heap.heapEnd, list, end);
      HeadersArrive(tr, old(ram), heap.vm.translation, ram, pages, h, list, end,
                    heap.headers, heap.blocks, heap.stores, bs, heap.heapEnd);
    }

    /** `kmalloc`, with its header stores in memory. */
    method Take(size: int, ghost kept: set<int>) returns (p: int, ghost b: Block)
      requires Valid(kept) && heap.vm.issued <= FRAME_LIMIT && 0 <= size <= MAX_REQUEST
      modifies this`ram, heap`headers, heap`first, heap`heapEnd, heap`blocks, heap`stores, heap.vm
      ensures Valid(kept) && heap.vm.issued <= if p != NULL then FRAME_LIMIT else FRESH_CALLS
      ensures heap.vm.refusals == old(heap.vm.refusals) + if p != NULL then 0 else 1
      ensures Outside(old(heap.vm.translation), heap.vm.translation, {})
      ensures Keeps(old(heap.vm.translation), old(ram), heap.vm.translation, ram, kept, old(Live(heap.blocks)))
      ensures p == NULL ==> Live(heap.blocks) == old(Live(heap.blocks))
      ensures p != NULL ==>
                && p == b.addr + HEADER && size <= b.size
                && b !in old(Live(heap.blocks)) && Live(heap.blocks) == old(Live(heap.blocks)) + {b}
    {
      ghost var tr, issued := heap.vm.translation, heap.vm.issued;
      ghost var h, list, end := heap.headers, heap.blocks, heap.heapEnd;
      ghost var i;
      p, i := heap.Kmalloc(size);
      b := if p == NULL then Block(0, 0, false) else heap.blocks[i];
      ExtendedOutside(tr, heap.vm.translation, PagesUpTo(end), PagesUpTo(heap.heapEnd), issued, heap.vm.issued);
      PrivateExtended(tr, heap.vm.translation, kept, end, heap.heapEnd, issued, heap.vm.issued);
      SettleHeaders(kept, heap.blocks, tr, h, list, end);
    }

    /** `kfree` of a live block, with its header stores in memory. */
    method Release(p: int, ghost b: Block, ghost kept: set<int>)
      requires Valid(kept) && b in Live(heap.blocks) && p == b.addr + HEADER
      modifies this`ram, heap`headers, heap`blocks, heap`stores
      ensures Valid(kept) && Live(heap.blocks) == old(Live(heap.blocks)) - {b}
      ensures Keeps(heap.vm.translation, old(ram), heap.vm.translation, ram, kept, old(Live(heap.blocks)))
    {
      ghost var h, list := heap.headers, heap.blocks;
      ghost var i :| 0 <= i < |list| && list[i] == b;
      Bounds(list, HEAP_START, heap.heapEnd, i);
      heap.Kfree(p, i);
      SettleHeaders(kept, list, heap.vm.translation, h, list, heap.heapEnd);
    }

    /** Stores `data` in the payload of a live block: nothing else that is protected changes. */
    method Fill(p: int, data: seq<Byte>, ghost b: Block, ghost kept: set<int>)
      requires Valid(kept) && b in Live(heap.blocks) && p == b.addr + HEADER && |data| <= b.size
      modifies this`ram
      ensures Valid(kept) && Reads(heap.vm.translation, ram, p, data)
      ensures Keeps(heap.vm.translation, old(ram), heap.vm.translation, ram, kept, Live(heap.blocks) - {b})
    {
      ghost var pages := kept + HeapSet(heap.heapEnd);
      PayloadSpans(heap.blocks, heap.heapEnd, b, pages);
      Store(p, data, pages);
      WrittenReads(heap.vm.translation, old(ram), ram, pages, p, data);
      PayloadApart(heap.blocks, heap.heapEnd, b, kept);
      StoreKeeps(heap.vm.translation, old(ram), ram, kept, heap.blocks, heap.heapEnd, p, data,
                 kept, Live(heap.blocks) - {b});
      StoreKeepsHeaders(heap.vm.translation, old(ram), ram, pages, heap.headers, heap.blocks, heap.heapEnd, p, data);
    }

    /** After a store to pages outside the heap that are none of `others`. */
    lemma ValidStored(kept: set<int>, others: set<int>, before: Ram, v: int, data: seq<Byte>)
      requires heap.Valid() && Clear(kept) && others <= kept && Spans(kept - others, v, |data|)
      requires Private(heap.vm.translation, kept + HeapSet(heap.heapEnd), heap.vm.issued)
      requires InMemory(heap.vm.translation, before, heap.headers, heap.blocks)
      requires Written(heap.vm.translation, before, ram, kept + HeapSet(heap.heapEnd), v, data)
      ensures Valid(kept) && Reads(heap.vm.translation, ram, v, data)
      ensures Keeps(heap.vm.translation, before, heap.vm.translation, ram, others, Live(heap.blocks))
    {
      var tr, end := heap.vm.translation, heap.heapEnd;
      SpansMore(kept - others, kept + HeapSet(end), v, |data|);
      WrittenReads(tr, before, ram, kept + HeapSet(end), v, data);
      StoreOutsideHeap(tr, before, ram, kept, others, heap.headers, heap.blocks, end, v, data);
    }

    /** `memcpy` of the payload `data` of a block to pages outside the heap that are none of `others`. */
    method CopyFromHeap(to: int, from: int, n: nat, ghost data: seq<Byte>, ghost b: Block,
                        ghost kept: set<int>, ghost others: set<int>)
      requires Valid(kept) && others <= kept && Spans(kept - others, to, n)
      requires b in Live(heap.blocks) && from == b.addr + HEADER && n == |data| <= b.size
      requires Reads(heap.vm.translation, ram, from, data) && (to + n <= from || from + n <= to)
      modifies this`ram
      ensures Valid(kept) && Reads(heap.vm.translation, ram, to, data)
      ensures Keeps(heap.vm.translation, old(ram), heap.vm.translation, ram, others, Live(heap.blocks))
    {
      ghost var pages := kept + HeapSet(heap.heapEnd);
      SpansMore(kept - others, pages, to, n);
      PayloadSpans(heap.blocks, heap.heapEnd, b, pages);
      Copy(to, from, n, data, pages);
      ValidStored(kept, others, old(ram), to, data);
    }

    /** `memset` to zero on pages outside the heap that are none of `others`. */
    method ZeroOutside(v: int, n: nat, ghost kept: set<int>, ghost others: set<int>)
      requires Valid(kept) && others <= kept && Spans(kept - others, v, n)
      modifies this`ram
      ensures Valid(kept) && Reads(heap.vm.translation, ram, v, Repeat(0 as Byte, n))
      ensures Written(heap.vm.translation, old(ram), ram, kept + HeapSet(heap.heapEnd), v, Repeat(0 as Byte, n))
      ensures Keeps(heap.vm.translation, old(ram), heap.vm.translation, ram, others, Live(heap.blocks))
    {
      SpansMore(kept - others, kept + HeapSet(heap.heapEnd), v, n);
      Zero(v, n, kept + HeapSet(heap.heapEnd));
      ValidStored(kept, others, old(ram), v, Repeat(0 as Byte, n));
    }
  }
}
