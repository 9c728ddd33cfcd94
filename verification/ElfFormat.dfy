/** The parts of the ELF-64 format that the loader looks at (kernel/elf.h:7-94). */
module ElfFormat {
  import opened Types
  import opened PageTree
  import opened HeapPages

  const EHDR_SIZE: int := 64
  const PHDR_SIZE: int := 56
  const ET_EXEC: int := 2
  const PT_LOAD: int := 1
  const USER_BASE: int := 0x1_0000_0000

  /** Magic, 64-bit class and executable type. */
  predicate GoodHeader(h: seq<Byte>)
    requires |h| == EHDR_SIZE
  {
    h[0] == 0x7f && h[1] == 69 && h[2] == 76 && h[3] == 70 && h[4] == 2 && Word16(h, 16) == ET_EXEC
  }

  function EntryPoint(h: seq<Byte>): int requires |h| == EHDR_SIZE { Word64(h, 24) }
  function PhOff(h: seq<Byte>): int requires |h| == EHDR_SIZE { Word64(h, 32) }
  function PhEntSize(h: seq<Byte>): int requires |h| == EHDR_SIZE { Word16(h, 54) }
  function PhNum(h: seq<Byte>): int requires |h| == EHDR_SIZE { Word16(h, 56) }

  // ---------- the file header as the structure of elf.h lays it out ----------

  datatype FileHeader = FileHeader(ident: seq<Byte>, kind: int, machine: int, version: int, entry: int, phoff: int,
                                   shoff: int, flags: int, ehsize: int, phentsize: int, phnum: int,
                                   shentsize: int, shnum: int, shstrndx: int)

  ghost predicate ValidFileHeader(h: FileHeader) {
    && |h.ident| == 16 && 0 <= h.kind < 0x1_0000 && 0 <= h.entry < TWO64 && 0 <= h.phoff < TWO64
    && 0 <= h.phentsize < 0x1_0000 && 0 <= h.phnum < 0x1_0000
  }

  // The fields one after the other, in the order of their declaration

  function HeaderFront(h: FileHeader): (r: seq<Byte>)
    ensures |r| == |h.ident| + 8
  {
    h.ident + Bytes16(h.kind) + Bytes16(h.machine) + Bytes32(h.version)
  }

  function HeaderMiddle(h: FileHeader): (r: seq<Byte>)
    ensures |r| == 28
  {
    Bytes64(h.entry) + Bytes64(h.phoff) + Bytes64(h.shoff) + Bytes32(h.flags)
  }

  function HeaderBack(h: FileHeader): (r: seq<Byte>)
    ensures |r| == 12
  {
    Bytes16(h.ehsize) + Bytes16(h.phentsize) + Bytes16(h.phnum) +
    (Bytes16(h.shentsize) + Bytes16(h.shnum) + Bytes16(h.shstrndx))
  }

  function FileHeaderBytes(h: FileHeader): seq<Byte> {
    HeaderFront(h) + HeaderMiddle(h) + HeaderBack(h)
  }

  lemma FileHeaderWords(h: FileHeader)
    requires ValidFileHeader(h)
    ensures |FileHeaderBytes(h)| == 64
    ensures FileHeaderBytes(h)[..16] == h.ident && Word16(FileHeaderBytes(h), 16) == h.kind
    ensures Word64(FileHeaderBytes(h), 24) == h.entry && Word64(FileHeaderBytes(h), 32) == h.phoff
    ensures Word16(FileHeaderBytes(h), 54) == h.phentsize && Word16(FileHeaderBytes(h), 56) == h.phnum
  {
    var front, middle, back := HeaderFront(h), HeaderMiddle(h), HeaderBack(h);
    FourFields([], h.ident, Bytes16(h.kind), Bytes16(h.machine), Bytes32(h.version), middle + back);
    FourFields(front, Bytes64(h.entry), Bytes64(h.phoff), Bytes64(h.shoff), Bytes32(h.flags), back);
    FourFields(front + middle, Bytes16(h.ehsize), Bytes16(h.phentsize), Bytes16(h.phnum),
               Bytes16(h.shentsize) + Bytes16(h.shnum) + Bytes16(h.shstrndx), []);
    assert [] + front + (middle + back) == FileHeaderBytes(h) == front + middle + back + [];
    assert FileHeaderBytes(h)[..16] == front[..16] == h.ident;
  }

  /**
   The loader's reading of a header gives its fields, and it takes it for good exactly if it starts with
   the ELF magic and the 64-bit class and is of an executable.
   */
  lemma FileHeaderRoundTrip(h: FileHeader)
    requires ValidFileHeader(h)
    ensures |FileHeaderBytes(h)| == EHDR_SIZE
    ensures EntryPoint(FileHeaderBytes(h)) == h.entry && PhOff(FileHeaderBytes(h)) == h.phoff
    ensures PhEntSize(FileHeaderBytes(h)) == h.phentsize && PhNum(FileHeaderBytes(h)) == h.phnum
    ensures GoodHeader(FileHeaderBytes(h)) <==> h.ident[..5] == [0x7f, 0x45, 0x4c, 0x46, 2] && h.kind == 2
  {
    FileHeaderWords(h);
    var b, five := FileHeaderBytes(h), h.ident[..5];
    assert forall k | 0 <= k < 5 :: five[k] == b[..16][k] == b[k];
  }

  datatype Segment = Segment(kind: int, flags: int, offset: int, vaddr: int, filesz: int, memsz: int)

  /** Program header `i` of a table. */
  function ProgramHeader(table: seq<Byte>, i: nat): Segment
    requires (i + 1) * PHDR_SIZE <= |table|
  {
    var at := i * PHDR_SIZE;
    Segment(Word32(table, at), Word32(table, at + 4), Word64(table, at + 8), Word64(table, at + 16),
            Word64(table, at + 32), Word64(table, at + 40))
  }

  /** The first `n` program headers of a table. */
  function ProgramHeaders(table: seq<Byte>, n: nat): (r: seq<Segment>)
    requires n * PHDR_SIZE <= |table|
    ensures |r| == n && forall i: nat | i < n :: r[i] == ProgramHeader(table, i)
  {
    if n == 0 then [] else ProgramHeaders(table, n - 1) + [ProgramHeader(table, n - 1)]
  }

  /** A program header with the two fields that the loader ignores. */
  datatype Phdr = Phdr(segment: Segment, paddr: int, align: int)

  ghost predicate ValidSegment(s: Segment) {
    && 0 <= s.kind < TWO32 && 0 <= s.flags < TWO32 && 0 <= s.offset < TWO64 && 0 <= s.vaddr < TWO64
    && 0 <= s.filesz < TWO64 && 0 <= s.memsz < TWO64
  }

  /** The fields one after the other, in the order of their declaration. */
  function PhdrBytes(p: Phdr): (r: seq<Byte>)
    ensures |r| == PHDR_SIZE
  {
    PhdrFront(p) + PhdrBack(p)
  }

  function PhdrFront(p: Phdr): (r: seq<Byte>)
    ensures |r| == 24
  {
    Bytes32(p.segment.kind) + Bytes32(p.segment.flags) + Bytes64(p.segment.offset) + Bytes64(p.segment.vaddr)
  }

  function PhdrBack(p: Phdr): (r: seq<Byte>)
    ensures |r| == 32
  {
    Bytes64(p.paddr) + Bytes64(p.segment.filesz) + Bytes64(p.segment.memsz) + Bytes64(p.align)
  }

  lemma PhdrRoundTrip(p: Phdr)
    requires ValidSegment(p.segment)
    ensures ProgramHeader(PhdrBytes(p), 0) == p.segment
  {
    var s, front, back := p.segment, PhdrFront(p), PhdrBack(p);
    FourFields([], Bytes32(s.kind), Bytes32(s.flags), Bytes64(s.offset), Bytes64(s.vaddr), back);
    FourFields(front, Bytes64(p.paddr), Bytes64(s.filesz), Bytes64(s.memsz), Bytes64(p.align), []);
    assert [] + front + back == PhdrBytes(p) == front + back + [];
  }

  /** A table: the program headers one after the other. */
  function TableBytes(ps: seq<Phdr>): (r: seq<Byte>)
    ensures |r| == |ps| * PHDR_SIZE
  {
    if ps == [] then [] else TableBytes(ps[..|ps| - 1]) + PhdrBytes(ps[|ps| - 1])
  }

  lemma SlicesOfTwo(a: seq<Byte>, b: seq<Byte>, from: nat, to: nat)
    requires from <= to <= |a| + |b|
    ensures to <= |a| ==> (a + b)[from..to] == a[from..to]
    ensures from == |a| && to == |a| + |b| ==> (a + b)[from..to] == b
  {
  }

  lemma {:induction false} TableSlice(ps: seq<Phdr>, i: nat)
    requires i < |ps|
    ensures TableBytes(ps)[i * PHDR_SIZE..(i + 1) * PHDR_SIZE] == PhdrBytes(ps[i])
    decreases |ps|
  {
    var init, last := TableBytes(ps[..|ps| - 1]), PhdrBytes(ps[|ps| - 1]);
    SlicesOfTwo(init, last, i * PHDR_SIZE, (i + 1) * PHDR_SIZE);
    if i < |ps| - 1 { TableSlice(ps[..|ps| - 1], i); }
  }

  /** Header `i` of a table is the first one of the 56 bytes it takes. */
  lemma HeaderSlice(table: seq<Byte>, i: nat)
    requires (i + 1) * PHDR_SIZE <= |table|
    ensures ProgramHeader(table[i * PHDR_SIZE..(i + 1) * PHDR_SIZE], 0) == ProgramHeader(table, i)
  {
    var part, at := table[i * PHDR_SIZE..(i + 1) * PHDR_SIZE], i * PHDR_SIZE;
    WordsOfPart(table, part, at, 0);
    WordsOfPart(table, part, at, 4);
    WordsOfPart(table, part, at, 8);
    WordsOfPart(table, part, at, 16);
    WordsOfPart(table, part, at, 32);
    WordsOfPart(table, part, at, 40);
  }

  /** The loader's reading of a table gives the segments it was made of. */
  lemma TableRoundTrip(ps: seq<Phdr>)
    requires forall p | p in ps :: ValidSegment(p.segment)
    ensures var segs := ProgramHeaders(TableBytes(ps), |ps|);
            forall i | 0 <= i < |ps| :: segs[i] == ps[i].segment
  {
    forall i | 0 <= i < |ps| ensures ProgramHeaders(TableBytes(ps), |ps|)[i] == ps[i].segment {
      TableSlice(ps, i);
      HeaderSlice(TableBytes(ps), i);
      PhdrRoundTrip(ps[i]);
    }
  }

  predicate Writable(s: Segment) { (s.flags / 2) % 2 == 1 }

  function StartPage(s: Segment): int { Base(s.vaddr) }

  /** The flags a page of the segment at `virt` is mapped with. */
  function PageFlags(s: Segment, virt: int): (f: int)
    ensures 0 <= f < PAGE_SIZE && Present(f)
    ensures (f / 2 % 2 == 1 <==> s.flags / 2 % 2 == 1) && (f / 4 % 2 == 1 <==> virt >= 0x1_0000_0000) && f < 8
  {
    PAGE_PRESENT + (if Writable(s) then PAGE_WRITABLE else 0) + (if virt >= USER_BASE then PAGE_USER else 0)
  }

  function PageCount(s: Segment): int { (Base(s.vaddr + s.memsz + PAGE_SIZE - 1) - Base(s.vaddr)) / PAGE_SIZE }

  /** Page `p` belongs to the segment. */
  ghost predicate InSegment(s: Segment, p: int) {
    PageOf(s.vaddr) <= p < PageOf(s.vaddr) + PageCount(s)
  }

  /**
   What the loader takes for granted of a loadable segment: it fits its memory size, its addresses
   are canonical and do not wrap, its offset fits in a signed 32-bit word and it keeps clear of the heap.
   */
  ghost predicate SegmentOk(s: Segment) {
    && 0 <= s.filesz <= s.memsz && 0 <= s.offset < 0x8000_0000 && 0 <= s.vaddr
    && (s.vaddr + s.memsz + PAGE_SIZE <= 0x8000_0000_0000 ||
        (0xFFFF_8000_0000_0000 <= s.vaddr && s.vaddr + s.memsz + PAGE_SIZE <= TWO64))
    && (forall p | InSegment(s, p) :: !InHeap(p))
  }

  /** The `k`-th page of a segment, and where its addresses lie. */
  lemma SegmentPage(s: Segment, k: int)
    requires SegmentOk(s) && 0 <= k < PageCount(s)
    ensures 0 <= StartPage(s) + k * PAGE_SIZE < TWO64
    ensures PageOf(StartPage(s) + k * PAGE_SIZE) == PageOf(s.vaddr) + k
    ensures InSegment(s, PageOf(s.vaddr) + k)
  {
  }

  lemma SegmentAddress(s: Segment, w: int)
    requires SegmentOk(s) && s.vaddr <= w < s.vaddr + s.memsz
    ensures Canonical(w) && InSegment(s, PageOf(w))
  {
    var n, m, e := s.vaddr / PAGE_SIZE, w / PAGE_SIZE, (s.vaddr + s.memsz + PAGE_SIZE - 1) / PAGE_SIZE;
    assert Base(s.vaddr) == n * PAGE_SIZE && Base(s.vaddr + s.memsz + PAGE_SIZE - 1) == e * PAGE_SIZE;
    assert PageCount(s) == e - n && n <= m < e;
    if s.vaddr < 0x8000_0000_0000 {
      assert PageOf(s.vaddr) == n && PageOf(w) == m;
    } else {
      assert PageOf(s.vaddr) == n - 0xF_FFF0_0000_0000 && PageOf(w) == m - 0xF_FFF0_0000_0000;
    }
  }

  /** No page is mapped for nothing: every page of a segment that takes memory holds an address of it. */
  lemma SegmentPagesNeeded(s: Segment, p: int) returns (w: int)
    requires SegmentOk(s) && s.memsz > 0 && InSegment(s, p)
    ensures s.vaddr <= w < s.vaddr + s.memsz && PageOf(w) == p
  {
    var k := p - PageOf(s.vaddr);
    SegmentPage(s, k);
    if k == 0 {
      w := s.vaddr;
    } else {
      w := StartPage(s) + k * PAGE_SIZE;
    }
  }
}
