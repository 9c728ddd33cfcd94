/**
 Bytes seen through the page tables: an address is read and written in the frame its page is
 mapped to.
 */
module VirtualMemory {
  import opened Types
  import opened PageTree
  import opened Vmm
  import opened HeapPages

  type Ram = map<int, Byte>

  /** The physical address of `w`. */
  function Phys(tr: map<int, int>, w: int): int
    requires PageOf(w) in tr
  {
    Base(tr[PageOf(w)]) + w % PAGE_SIZE
  }

  /** The byte a program reads at `w`; None if `w` is not mapped or its frame was never written there. */
  function ByteAt(tr: map<int, int>, ram: Ram, w: int): Option<Byte> {
    if PageOf(w) in tr && Phys(tr, w) in ram then Some(ram[Phys(tr, w)]) else None
  }

  /** The `n` page numbers from `lo` on. */
  ghost function PageRange(lo: int, n: nat): set<int> {
    set p | lo <= p < lo + n && InRange(lo, n, p)
  }

  ghost predicate InRange(lo: int, n: nat, p: int) {
    lo <= p < lo + n
  }

  lemma PageRangeMore(pages: set<int>, lo: int, n: nat)
    ensures pages + PageRange(lo, n) + {lo + n} == pages + PageRange(lo, n + 1)
    ensures lo + n !in PageRange(lo, n)
  {
  }

  // ---------- frames ----------

  /** The pages are mapped, each to a frame of its own. */
  ghost predicate DistinctFrames(tr: map<int, int>, pages: set<int>) {
    && (forall p | p in pages :: p in tr)
    && (forall p, q | p in pages && q in pages && p != q :: FramesDiffer(tr, p, q))
  }

  /** Frames of their own, all among the first `issued` that were handed out. */
  ghost predicate Private(tr: map<int, int>, pages: set<int>, issued: int) {
    DistinctFrames(tr, pages) && forall p | p in pages :: FrameBelow(tr, p, issued)
  }

  /** The two maps agree on `pages`. */
  ghost predicate Agree(tr: map<int, int>, tr': map<int, int>, pages: set<int>) {
    forall p | p in pages :: SameEntry(tr, tr', p)
  }

  lemma PrivateStays(tr: map<int, int>, tr': map<int, int>, pages: set<int>, issued: int, issued': int)
    requires Private(tr, pages, issued) && Agree(tr, tr', pages) && issued <= issued'
    ensures Private(tr', pages, issued')
  {
    forall p | p in pages ensures FrameBelow(tr', p, issued') {
      assert FrameBelow(tr, p, issued) && SameEntry(tr, tr', p);
    }
    forall p, q | p in pages && q in pages && p != q ensures FramesDiffer(tr', p, q) {
      assert FramesDiffer(tr, p, q) && SameEntry(tr, tr', p) && SameEntry(tr, tr', q);
    }
  }

  lemma PrivateFewer(tr: map<int, int>, fewer: set<int>, pages: set<int>, issued: int)
    requires Private(tr, pages, issued) && fewer <= pages
    ensures Private(tr, fewer, issued)
  {
  }

  /** Mapping a new page to the next frame. */
  lemma PrivateGrows(tr: map<int, int>, tr': map<int, int>, pages: set<int>, issued: int,
                     p: int, frame: int, flags: int)
    requires Private(tr, pages, issued) && p !in pages && frame == FIRST_FRAME + issued * 4096
    requires 0 <= flags < PAGE_SIZE && tr' == tr[p := Leaf(frame, flags)]
    ensures Private(tr', pages + {p}, issued + 1) && Agree(tr, tr', pages)
  {
    var issued' := issued + 1;
    forall q | q in pages ensures FrameBelow(tr', q, issued') && SameEntry(tr, tr', q) && FramesDiffer(tr', p, q) {
      assert FrameBelow(tr, q, issued);
    }
    forall q, r | q in pages && r in pages && q != r ensures FramesDiffer(tr', q, r) {
      assert FramesDiffer(tr, q, r);
    }
    forall q | q in pages ensures FramesDiffer(tr', q, p) {
      assert FramesDiffer(tr', p, q);
    }
  }

  /** Different addresses on pages with frames of their own lie at different places in memory. */
  lemma PhysInjective(tr: map<int, int>, pages: set<int>, v: int, w: int)
    requires DistinctFrames(tr, pages) && PageOf(v) in pages && PageOf(w) in pages
    requires Canonical(v) && Canonical(w) && v != w
    ensures Phys(tr, v) != Phys(tr, w)
  {
    PageOfInjective(v, w);
    if PageOf(v) != PageOf(w) {
      assert FramesDiffer(tr, PageOf(v), PageOf(w));
    }
  }

  // ---------- what is read ----------

  ghost predicate SameByte(tr: map<int, int>, ram: Ram, tr': map<int, int>, ram': Ram, w: int) {
    ByteAt(tr', ram', w) == ByteAt(tr, ram, w)
  }

  lemma SameEntrySameByte(tr: map<int, int>, tr': map<int, int>, ram: Ram, w: int)
    requires SameEntry(tr, tr', PageOf(w))
    ensures SameByte(tr, ram, tr', ram, w)
  {
  }

  ghost predicate ReadsAt(tr: map<int, int>, ram: Ram, v: int, data: seq<Byte>, w: int) {
    v <= w < v + |data| ==> ByteAt(tr, ram, w) == Some(data[w - v])
  }

  /** Read through the page tables, `data` lies at `v`. */
  ghost predicate Reads(tr: map<int, int>, ram: Ram, v: int, data: seq<Byte>) {
    forall w | v <= w < v + |data| :: ReadsAt(tr, ram, v, data, w)
  }

  lemma ReadsStays(tr: map<int, int>, ram: Ram, tr': map<int, int>, ram': Ram, v: int, data: seq<Byte>)
    requires Reads(tr, ram, v, data)
    requires forall w | v <= w < v + |data| :: SameByte(tr, ram, tr', ram', w)
    ensures Reads(tr', ram', v, data)
  {
    forall w | v <= w < v + |data| ensures ReadsAt(tr', ram', v, data, w) {
      assert ReadsAt(tr, ram, v, data, w) && SameByte(tr, ram, tr', ram', w);
    }
  }

  /** A part of what lies at `v` lies that much further on. */
  lemma ReadsPart(tr: map<int, int>, ram: Ram, v: int, data: seq<Byte>, i: int, j: int)
    requires Reads(tr, ram, v, data) && 0 <= i <= j <= |data|
    ensures Reads(tr, ram, v + i, data[i..j])
  {
    var part, at := data[i..j], v + i;
    forall w | at <= w < at + |part| ensures ReadsAt(tr, ram, at, part, w) {
      assert ReadsAt(tr, ram, v, data, w);
    }
  }

  lemma ReadsJoin(tr: map<int, int>, ram: Ram, v: int, a: seq<Byte>, b: seq<Byte>)
    requires Reads(tr, ram, v, a) && Reads(tr, ram, v + |a|, b)
    ensures Reads(tr, ram, v, a + b)
  {
    var ab := a + b;
    forall w | v <= w < v + |ab| ensures ReadsAt(tr, ram, v, ab, w) {
      assert ReadsAt(tr, ram, v, a, w) && ReadsAt(tr, ram, v + |a|, b, w);
    }
  }

  // ---------- writes ----------

  /** What is read at `w` after `data` was written at `v`. */
  ghost predicate WrittenAt(tr: map<int, int>, ram: Ram, ram': Ram, v: int, data: seq<Byte>, w: int) {
    ByteAt(tr, ram', w) == if v <= w < v + |data| then Some(data[w - v]) else ByteAt(tr, ram, w)
  }

  /** Read through the page tables, `data` was written at `v` and no other byte on `pages` changed. */
  ghost predicate Written(tr: map<int, int>, ram: Ram, ram': Ram, pages: set<int>, v: int, data: seq<Byte>) {
    forall w | Canonical(w) && PageOf(w) in pages :: WrittenAt(tr, ram, ram', v, data, w)
  }

  /** Every address from `v` on for `n` bytes lies on `pages`. */
  ghost predicate Spans(pages: set<int>, v: int, n: int) {
    forall w | v <= w < v + n :: OnPage(pages, w)
  }

  ghost predicate OnPage(pages: set<int>, w: int) {
    Canonical(w) && PageOf(w) in pages
  }

  lemma SpansMore(fewer: set<int>, pages: set<int>, v: int, n: int)
    requires Spans(fewer, v, n) && fewer <= pages
    ensures Spans(pages, v, n)
  {
    forall w | v <= w < v + n ensures OnPage(pages, w) {
      assert OnPage(fewer, w);
    }
  }

  lemma SpansPart(pages: set<int>, v: int, n: int, at: int, m: int)
    requires Spans(pages, v, n) && v <= at && at + m <= v + n
    ensures Spans(pages, at, m)
  {
  }

  lemma WrittenNothing(tr: map<int, int>, ram: Ram, pages: set<int>, v: int)
    ensures Written(tr, ram, ram, pages, v, [])
  {
  }

  /** One more byte. */
  lemma WrittenMore(tr: map<int, int>, ram: Ram, ram': Ram, pages: set<int>, v: int, data: seq<Byte>, c: Byte)
    requires Written(tr, ram, ram', pages, v, data) && DistinctFrames(tr, pages) && OnPage(pages, v + |data|)
    ensures Written(tr, ram, ram'[Phys(tr, v + |data|) := c], pages, v, data + [c])
  {
    var at := v + |data|;
    var ram'', data' := ram'[Phys(tr, at) := c], data + [c];
    forall w | Canonical(w) && PageOf(w) in pages
      ensures WrittenAt(tr, ram, ram'', v, data', w)
    {
      assert WrittenAt(tr, ram, ram', v, data, w);
      if w != at { PhysInjective(tr, pages, at, w); }
    }
  }

  /** What was written is read. */
  lemma WrittenReads(tr: map<int, int>, ram: Ram, ram': Ram, pages: set<int>, v: int, data: seq<Byte>)
    requires Written(tr, ram, ram', pages, v, data) && Spans(pages, v, |data|)
    ensures Reads(tr, ram', v, data)
  {
    forall w | v <= w < v + |data| ensures ReadsAt(tr, ram', v, data, w) {
      assert OnPage(pages, w) && WrittenAt(tr, ram, ram', v, data, w);
    }
  }

  /** What lies beside a write is read as before. */
  lemma WrittenBeside(tr: map<int, int>, ram: Ram, ram': Ram, pages: set<int>, v: int, data: seq<Byte>,
                      at: int, other: seq<Byte>)
    requires Written(tr, ram, ram', pages, v, data) && Spans(pages, at, |other|)
    requires Reads(tr, ram, at, other) && (at + |other| <= v || v + |data| <= at)
    ensures Reads(tr, ram', at, other)
  {
    forall w | at <= w < at + |other| ensures ReadsAt(tr, ram', at, other, w) {
      assert OnPage(pages, w) && WrittenAt(tr, ram, ram', v, data, w) && ReadsAt(tr, ram, at, other, w);
    }
  }
}
