/**
 Loading an ELF executable (kernel/elf.c:11-183) on top of the heap, the frame allocator and
 the page tables.  The program headers and the read buffers are heap blocks in memory.  The file
 layer is used by contract: a call may fail, a read may be short.
 */
module Elf {
  import opened Types
  import opened PageTree
  import opened TablePool
  import opened Vmm
  import opened Blocks
  import opened Headers
  import opened HeapPages
  import opened ElfFormat
  import opened ElfImage
  import opened VirtualMemory
  import opened KernelMemory

  /**
   A file behind the `vfs` calls, with a count of the calls that open and close it.  `failures` counts
   the calls that failed or delivered less than the file has.
   */
  class VfsFile {
    const content: seq<Byte>
    var position: int
    var opens: int
    var closes: int
    ghost var failures: nat

    constructor (bytes: seq<Byte>)
      ensures content == bytes && position == 0 && opens == closes == 0 && failures == 0
    {
      content, position, opens, closes, failures := bytes, 0, 0, 0, 0;
    }

    method Open() returns (ok: bool)
      modifies this`position, this`opens, this`failures
      ensures opens == old(opens) + (if ok then 1 else 0)
      ensures ok ==> position == 0
      ensures failures == old(failures) + if ok then 0 else 1
    {
      ok := *;
      if ok {
        position, opens := 0, opens + 1;
      } else {
        failures := failures + 1;
      }
    }

    /** The bytes `data` go to the caller's buffer; those of a call that fails are some bytes. */
    method Read(size: int) returns (ok: bool, n: int, data: seq<Byte>)
      requires 0 <= position <= |content| && 0 <= size
      modifies this`position, this`failures
      ensures 0 <= position <= |content| && n == |data| <= size
      ensures ok ==> position == old(position) + n && data == content[old(position)..position]
      ensures failures == old(failures) + if ok && n == Clamped(size, |content| - old(position)) then 0 else 1
    {
      ok := *;
      n :| 0 <= n <= size && position + n <= |content|;
      data := content[position..position + n];
      if !ok || n != Clamped(size, |content| - position) { failures := failures + 1; }
      if ok {
        position := position + n;
      }
    }

    method Seek(offset: int) returns (ok: bool)
      requires 0 <= position <= |content| && 0 <= offset
      modifies this`position, this`failures
      ensures 0 <= position <= |content|
      ensures ok ==> position == Clamped(offset, |content|)
      ensures failures == old(failures) + if ok then 0 else 1
    {
      ok := *;
      if ok {
        position := if offset <= |content| then offset else |content|;
      } else {
        failures := failures + 1;
      }
    }

    method Close()
      modifies this`closes
      ensures closes == old(closes) + 1
    {
      closes := closes + 1;
    }
  }

  /** From `tr` to `tr'` only pages of the segment change. */
  ghost predicate OnlySegment(tr: map<int, int>, tr': map<int, int>, s: Segment) {
    forall p | !InSegment(s, p) :: SameEntry(tr, tr', p)
  }

  lemma OnlySegmentMore(tr: map<int, int>, tr': map<int, int>, tr'': map<int, int>, s: Segment)
    requires OnlySegment(tr, tr', s) && OnlySegment(tr', tr'', s)
    ensures OnlySegment(tr, tr'', s)
  {
    forall p | !InSegment(s, p) ensures SameEntry(tr, tr'', p) {
      assert SameEntry(tr, tr', p) && SameEntry(tr', tr'', p);
    }
  }

  /** Mapping a segment changes the translation of its pages only. */
  lemma OnlySegmentOutside(tr: map<int, int>, tr': map<int, int>, s: Segment, kept: set<int>, end: int)
    requires OnlySegment(tr, tr', s) && SegmentOk(s) && KeepsClear(s, kept) && HeapEnds(end)
    ensures Outside(tr, tr', PagesOf(s)) && Agree(tr, tr', kept + HeapSet(end))
  {
    forall p | !InHeap(p) && p !in PagesOf(s) ensures SameEntry(tr, tr', p) {
      PagesOfSegment(s, p);
    }
    forall p | p in kept + HeapSet(end) ensures SameEntry(tr, tr', p) {
      assert p in HeapSet(end) ==> InHeap(p);
    }
  }

  /** Where the file position is after a seek to `offset`. */
  function Clamped(offset: int, length: int): int {
    if offset <= length then offset else length
  }

  class Loader {
    const mem: Memory

    /** How often a call to the file failed or fell short, and a frame or a table could not be had. */
    ghost function Troubles(file: VfsFile): nat
      reads file`failures, mem.heap.vm`refusals
    {
      file.failures + mem.heap.vm.refusals
    }

    constructor (memory: Memory)
      ensures mem == memory
    {
      mem := memory;
    }

    /** Maps the page `p` of `virt`, a page outside the heap, to a fresh frame. */
    method MapFreshPage(virt: int, flags: int, ghost p: int, ghost kept: set<int>) returns (ok: bool)
      requires mem.Valid(kept) && mem.heap.vm.issued <= FRAME_LIMIT
      requires 0 <= virt < TWO64 && PageOf(virt) == p && 0 <= flags < PAGE_SIZE && Present(flags)
      requires !InHeap(p) && p !in kept
      modifies mem.heap.vm
      ensures mem.heap.vm.refusals == old(mem.heap.vm.refusals) + if ok then 0 else 1
      ensures mem.heap.vm.issued <= if ok then FRAME_LIMIT else FRESH_CALLS
      ensures mem.Valid(if ok then kept + {p} else kept)
      ensures forall q | q != p :: SameEntry(old(mem.heap.vm.translation), mem.heap.vm.translation, q)
      ensures ok ==> p in mem.heap.vm.translation && FlagsOf(mem.heap.vm.translation[p]) == flags
    {
      var vm := mem.heap.vm;
      var frame := vm.AllocPhysicalPage();
      ok := frame != NULL;
      if ok {
        var status := vm.MapPage(virt, frame, flags);
        ok := status == 0;
      }
      mem.ValidMapped(kept, old(vm.translation), old(vm.issued), p, frame, flags, ok);
    }

    /** Maps page `k` of the segment behind those before it. */
    method MapSegmentPage(s: Segment, k: nat, ghost kept: set<int>) returns (ok: bool)
      requires mem.Valid(kept + PageRange(PageOf(s.vaddr), k)) && mem.heap.vm.issued <= FRAME_LIMIT
      requires SegmentOk(s) && k < PageCount(s) && KeepsClear(s, kept)
      requires PermittedUpTo(s, mem.heap.vm.translation, k)
      modifies mem.heap.vm
      ensures mem.heap.vm.refusals == old(mem.heap.vm.refusals) + if ok then 0 else 1
      ensures mem.heap.vm.issued <= if ok then FRAME_LIMIT else FRESH_CALLS
      ensures mem.Valid(if ok then kept + PageRange(PageOf(s.vaddr), k + 1) else kept)
      ensures OnlySegment(old(mem.heap.vm.translation), mem.heap.vm.translation, s)
      ensures ok ==> PermittedUpTo(s, mem.heap.vm.translation, k + 1)
    {
      SegmentPage(s, k);
      var virt := StartPage(s) + k * PAGE_SIZE;
      var flags := PAGE_PRESENT;
      if Writable(s) {
        flags := flags + PAGE_WRITABLE;
      }
      if virt >= USER_BASE {
        flags := flags + PAGE_USER;
      }
      ok := MapNextPage(virt, flags, s, k, PageOf(s.vaddr), kept);
    }

    /** The same once the page's address and flags are known. */
    method MapNextPage(virt: int, flags: int, ghost s: Segment, ghost k: nat, ghost first: int, ghost kept: set<int>)
      returns (ok: bool)
      requires first == PageOf(s.vaddr) && mem.Valid(kept + PageRange(first, k)) && mem.heap.vm.issued <= FRAME_LIMIT
      requires InSegment(s, first + k) && !InHeap(first + k) && KeepsClear(s, kept)
      requires 0 <= virt < TWO64 && PageOf(virt) == first + k && flags == PageFlags(s, StartPage(s) + k * PAGE_SIZE)
      requires PermittedUpTo(s, mem.heap.vm.translation, k)
      modifies mem.heap.vm
      ensures mem.heap.vm.refusals == old(mem.heap.vm.refusals) + if ok then 0 else 1
      ensures mem.heap.vm.issued <= if ok then FRAME_LIMIT else FRESH_CALLS
      ensures mem.Valid(if ok then kept + PageRange(first, k + 1) else kept)
      ensures OnlySegment(old(mem.heap.vm.translation), mem.heap.vm.translation, s)
      ensures ok ==> PermittedUpTo(s, mem.heap.vm.translation, k + 1)
    {
      PageRangeMore(kept, first, k);
      ok := MapFreshPage(virt, flags, first + k, kept + PageRange(first, k));
      if ok {
        PermittedMore(s, old(mem.heap.vm.translation), mem.heap.vm.translation, k);
      } else {
        mem.ValidFewer(kept, kept + PageRange(first, k));
      }
    }

    /** The mapping loop of one segment. */
    method MapSegment(s: Segment, ghost kept: set<int>) returns (ok: bool)
      requires mem.Valid(kept) && mem.heap.vm.issued <= FRAME_LIMIT && SegmentOk(s) && KeepsClear(s, kept)
      modifies mem.heap.vm
      ensures mem.heap.vm.refusals == old(mem.heap.vm.refusals) + if ok then 0 else 1
      ensures mem.heap.vm.issued <= if ok then FRAME_LIMIT else FRESH_CALLS
      ensures mem.Valid(if ok then kept + PagesOf(s) else kept)
      ensures OnlySegment(old(mem.heap.vm.translation), mem.heap.vm.translation, s)
      ensures ok ==> Permitted(s, mem.heap.vm.translation)
    {
      var k := 0;
      assert kept + PageRange(PageOf(s.vaddr), k) == kept;
      while k < PageCount(s)
        invariant 0 <= k && (0 < k ==> k <= PageCount(s)) && mem.heap.vm.refusals == old(mem.heap.vm.refusals)
        invariant mem.heap.vm.issued <= FRAME_LIMIT && mem.Valid(kept + PageRange(PageOf(s.vaddr), k))
        invariant OnlySegment(old(mem.heap.vm.translation), mem.heap.vm.translation, s)
        invariant PermittedUpTo(s, mem.heap.vm.translation, k)
      {
        ghost var tr := mem.heap.vm.translation;
        ok := MapSegmentPage(s, k, kept);
        OnlySegmentMore(old(mem.heap.vm.translation), tr, mem.heap.vm.translation, s);
        if !ok {
          return;
        }
        k := k + 1;
      }
      assert PageRange(PageOf(s.vaddr), k) == PagesOf(s);
      return true;
    }

    /** Copies the file part of a segment from the buffer to its address. */
    method CopyOut(s: Segment, buffer: int, ghost data: seq<Byte>, ghost b: Block, ghost kept: set<int>)
      requires mem.Valid(kept + PagesOf(s)) && SegmentOk(s) && KeepsClear(s, kept)
      requires b in Live(mem.heap.blocks) && buffer == b.addr + HEADER && |data| == s.filesz <= b.size
      requires Reads(mem.heap.vm.translation, mem.ram, buffer, data)
      modifies mem`ram
      ensures mem.Valid(kept + PagesOf(s)) && Reads(mem.heap.vm.translation, mem.ram, s.vaddr, data)
      ensures Keeps(mem.heap.vm.translation, old(mem.ram), mem.heap.vm.translation, mem.ram,
                    kept, Live(mem.heap.blocks))
    {
      SegmentSpans(s, kept, s.vaddr, s.filesz);
      SegmentApart(s, mem.heap.blocks, mem.heap.heapEnd, b);
      mem.CopyFromHeap(s.vaddr, buffer, s.filesz, data, b, kept + PagesOf(s), kept);
    }

    /** Reads the file part of a segment into the buffer and, if it is complete, copies it to its address. */
    method ReadAndCopy(s: Segment, file: VfsFile, buffer: int, ghost b: Block, ghost kept: set<int>) returns (ok: bool)
      requires mem.Valid(kept + PagesOf(s)) && SegmentOk(s) && KeepsClear(s, kept) && 0 < s.filesz
      requires b in Live(mem.heap.blocks) && buffer == b.addr + HEADER && s.filesz <= b.size
      requires file.position == Clamped(s.offset, |file.content|)
      modifies mem`ram, file`position, file`failures
      ensures Troubles(file) >= old(Troubles(file))
      ensures ok <==> Troubles(file) == old(Troubles(file)) && InFile(file.content, s) && s.filesz < TWO32
      ensures mem.Valid(kept + PagesOf(s)) && 0 <= file.position <= |file.content|
      ensures Keeps(mem.heap.vm.translation, old(mem.ram), mem.heap.vm.translation, mem.ram,
                    kept, Live(mem.heap.blocks) - {b})
      ensures ok ==>
                && InFile(file.content, s)
                && Reads(mem.heap.vm.translation, mem.ram, s.vaddr, FilePart(file.content, s))
    {
      ghost var tr, live := mem.heap.vm.translation, Live(mem.heap.blocks);
      var n, data;
      ok, n, data := file.Read(s.filesz % TWO32);
      mem.Fill(buffer, data, b, kept + PagesOf(s));
      ghost var filled := mem.ram;
      ok := ok && n == s.filesz;
      if ok {
        ReadInFile(file.content, s, old(file.position), data);
        CopyOut(s, buffer, data, b, kept);
      } else {
        KeepsSame(tr, filled, kept, live, {});
      }
      KeepsFilled(tr, old(mem.ram), filled, tr, mem.ram, kept, kept + PagesOf(s), live, b);
    }

    /** The same, and the release of the buffer. */
    method LoadThrough(s: Segment, file: VfsFile, buffer: int, ghost b: Block, ghost kept: set<int>) returns (ok: bool)
      requires mem.Valid(kept + PagesOf(s)) && SegmentOk(s) && KeepsClear(s, kept) && 0 < s.filesz
      requires b in Live(mem.heap.blocks) && buffer == b.addr + HEADER && s.filesz <= b.size
      requires file.position == Clamped(s.offset, |file.content|)
      modifies mem`ram, mem.heap`headers, mem.heap`blocks, mem.heap`stores, file`position, file`failures
      ensures Troubles(file) >= old(Troubles(file))
      ensures ok <==> Troubles(file) == old(Troubles(file)) && InFile(file.content, s) && s.filesz < TWO32
      ensures mem.Valid(kept + PagesOf(s)) && 0 <= file.position <= |file.content|
      ensures Live(mem.heap.blocks) == old(Live(mem.heap.blocks)) - {b}
      ensures Keeps(mem.heap.vm.translation, old(mem.ram), mem.heap.vm.translation, mem.ram,
                    kept, old(Live(mem.heap.blocks)) - {b})
      ensures ok ==>
                && InFile(file.content, s)
                && Reads(mem.heap.vm.translation, mem.ram, s.vaddr, FilePart(file.content, s))
    {
      ghost var tr, ram, live, pages := mem.heap.vm.translation, mem.ram, Live(mem.heap.blocks), kept + PagesOf(s);
      ok := ReadAndCopy(s, file, buffer, b, kept);
      ghost var copied := mem.ram;
      mem.Release(buffer, b, pages);
      KeepsFewer(tr, copied, tr, mem.ram, pages, live, kept, live - {b});
      KeepsTwice(tr, ram, tr, copied, tr, mem.ram, kept, live - {b});
      if ok {
        SegmentProtected(s, kept, live);
        KeepsReads(tr, copied, tr, mem.ram, pages, live, s.vaddr, FilePart(file.content, s));
      }
    }

    /** Reads the file part of a segment through a heap buffer and copies it to its address. */
    method LoadData(s: Segment, file: VfsFile, ghost kept: set<int>) returns (ok: bool)
      requires mem.Valid(kept + PagesOf(s)) && mem.heap.vm.issued <= FRAME_LIMIT
      requires SegmentOk(s) && KeepsClear(s, kept) && 0 < s.filesz
      requires file.position == Clamped(s.offset, |file.content|)
      modifies mem`ram, mem.heap, mem.heap.vm, file`position, file`failures
      ensures Troubles(file) >= old(Troubles(file))
      ensures ok <==> Troubles(file) == old(Troubles(file)) && InFile(file.content, s) && s.filesz < TWO32
      ensures mem.Valid(kept + PagesOf(s)) && mem.heap.vm.issued <= if ok then FRAME_LIMIT else FRESH_CALLS
      ensures Live(mem.heap.blocks) == old(Live(mem.heap.blocks)) && 0 <= file.position <= |file.content|
      ensures Outside(old(mem.heap.vm.translation), mem.heap.vm.translation, {})
      ensures Keeps(old(mem.heap.vm.translation), old(mem.ram), mem.heap.vm.translation, mem.ram,
                    kept, old(Live(mem.heap.blocks)))
      ensures ok ==>
                && InFile(file.content, s)
                && Reads(mem.heap.vm.translation, mem.ram, s.vaddr, FilePart(file.content, s))
    {
      ghost var live, tr, ram := Live(mem.heap.blocks), mem.heap.vm.translation, mem.ram;
      var buffer;
      ghost var b;
      buffer, b := mem.Take(s.filesz, kept + PagesOf(s));
      ghost var tr', ram' := mem.heap.vm.translation, mem.ram;
      KeepsFewer(tr, ram, tr', ram', kept + PagesOf(s), live, kept, live);
      if buffer == NULL {
        return false;
      }
      assert live + {b} - {b} == live;
      ok := LoadThrough(s, file, buffer, b, kept);
      KeepsTwice(tr, ram, tr', ram', tr', mem.ram, kept, live);
    }

    /** Copies the file part, if there is one. */
    method LoadFilePart(s: Segment, file: VfsFile, ghost kept: set<int>) returns (ok: bool)
      requires mem.Valid(kept + PagesOf(s)) && mem.heap.vm.issued <= FRAME_LIMIT
      requires SegmentOk(s) && KeepsClear(s, kept) && file.position == Clamped(s.offset, |file.content|)
      modifies mem`ram, mem.heap, mem.heap.vm, file`position, file`failures
      ensures Troubles(file) >= old(Troubles(file))
      ensures ok <==> Troubles(file) == old(Troubles(file)) && InFile(file.content, s) && s.filesz < TWO32
      ensures mem.Valid(kept + PagesOf(s)) && mem.heap.vm.issued <= if ok then FRAME_LIMIT else FRESH_CALLS
      ensures Live(mem.heap.blocks) == old(Live(mem.heap.blocks)) && 0 <= file.position <= |file.content|
      ensures Outside(old(mem.heap.vm.translation), mem.heap.vm.translation, {})
      ensures Keeps(old(mem.heap.vm.translation), old(mem.ram), mem.heap.vm.translation, mem.ram,
                    kept, old(Live(mem.heap.blocks)))
      ensures ok ==>
                && InFile(file.content, s)
                && Reads(mem.heap.vm.translation, mem.ram, s.vaddr, FilePart(file.content, s))
    {
      ok := true;
      if s.filesz > 0 {
        ok := LoadData(s, file, kept);
      }
    }

    /** Clears what lies behind the file part, if anything does. */
    method ClearRest(s: Segment, ghost part: seq<Byte>, ghost kept: set<int>)
      requires mem.Valid(kept + PagesOf(s)) && SegmentOk(s) && KeepsClear(s, kept)
      requires |part| == s.filesz && Reads(mem.heap.vm.translation, mem.ram, s.vaddr, part)
      modifies mem`ram
      ensures mem.Valid(kept + PagesOf(s))
      ensures Reads(mem.heap.vm.translation, mem.ram, s.vaddr, part + Repeat(0 as Byte, s.memsz - s.filesz))
      ensures Keeps(mem.heap.vm.translation, old(mem.ram), mem.heap.vm.translation, mem.ram,
                    kept, Live(mem.heap.blocks))
    {
      ghost var tr, pages, zeros := mem.heap.vm.translation, kept + PagesOf(s), Repeat(0 as Byte, s.memsz - s.filesz);
      if s.memsz > s.filesz {
        SegmentSpans(s, kept, s.vaddr + s.filesz, s.memsz - s.filesz);
        mem.ZeroOutside(s.vaddr + s.filesz, s.memsz - s.filesz, pages, kept);
        RestCleared(s, kept, mem.heap.heapEnd, tr, old(mem.ram), mem.ram, part, zeros);
      } else {
        assert part + zeros == part;
      }
    }

    /** Copies the file part of a mapped segment and clears the rest. */
    method FillSegment(s: Segment, file: VfsFile, ghost kept: set<int>) returns (ok: bool)
      requires mem.Valid(kept + PagesOf(s)) && mem.heap.vm.issued <= FRAME_LIMIT
      requires SegmentOk(s) && KeepsClear(s, kept) && file.position == Clamped(s.offset, |file.content|)
      modifies mem`ram, mem.heap, mem.heap.vm, file`position, file`failures
      ensures Troubles(file) >= old(Troubles(file))
      ensures ok <==> Troubles(file) == old(Troubles(file)) && InFile(file.content, s) && s.filesz < TWO32
      ensures mem.Valid(kept + PagesOf(s)) && mem.heap.vm.issued <= if ok then FRAME_LIMIT else FRESH_CALLS
      ensures Live(mem.heap.blocks) == old(Live(mem.heap.blocks)) && 0 <= file.position <= |file.content|
      ensures Outside(old(mem.heap.vm.translation), mem.heap.vm.translation, {})
      ensures Keeps(old(mem.heap.vm.translation), old(mem.ram), mem.heap.vm.translation, mem.ram,
                    kept, old(Live(mem.heap.blocks)))
      ensures ok ==> Placed(file.content, s, mem.heap.vm.translation, mem.ram)
    {
      ok := LoadFilePart(s, file, kept);
      if !ok {
        return;
      }
      ghost var tr, ram := mem.heap.vm.translation, mem.ram;
      ClearRest(s, FilePart(file.content, s), kept);
      KeepsTwice(old(mem.heap.vm.translation), old(mem.ram), tr, ram, tr, mem.ram, kept, old(Live(mem.heap.blocks)));
    }

    /** One turn of the segment loop for a loadable segment: map, seek, copy, clear. */
    method LoadSegment(s: Segment, file: VfsFile, ghost kept: set<int>) returns (ok: bool)
      requires mem.Valid(kept) && mem.heap.vm.issued <= FRAME_LIMIT && 0 <= file.position <= |file.content|
      requires SegmentOk(s) && KeepsClear(s, kept)
      modifies mem`ram, mem.heap, mem.heap.vm, file`position, file`failures
      ensures Troubles(file) >= old(Troubles(file))
      ensures ok <==> Troubles(file) == old(Troubles(file)) && InFile(file.content, s) && s.filesz < TWO32
      ensures mem.Valid(if ok then kept + PagesOf(s) else kept)
      ensures mem.heap.vm.issued <= if ok then FRAME_LIMIT else FRESH_CALLS
      ensures Live(mem.heap.blocks) == old(Live(mem.heap.blocks)) && 0 <= file.position <= |file.content|
      ensures Outside(old(mem.heap.vm.translation), mem.heap.vm.translation, PagesOf(s))
      ensures Keeps(old(mem.heap.vm.translation), old(mem.ram), mem.heap.vm.translation, mem.ram,
                    kept, old(Live(mem.heap.blocks)))
      ensures ok ==> Placed(file.content, s, mem.heap.vm.translation, mem.ram) && Permitted(s, mem.heap.vm.translation)
    {
      ghost var tr, ram, live := mem.heap.vm.translation, mem.ram, Live(mem.heap.blocks);
      ok := MapSegment(s, kept);
      ghost var tr1 := mem.heap.vm.translation;
      SegmentMapped(s, tr, tr1, ram, kept, mem.heap.headers, mem.heap.blocks, mem.heap.heapEnd);
      if !ok {
        return;
      }
      ok := file.Seek(s.offset);
      if ok {
        ok := FillSegment(s, file, kept);
        SegmentFilled(s, tr, ram, tr1, mem.heap.vm.translation, mem.ram, kept, live);
      }
      if !ok { mem.ValidFewer(kept, kept + PagesOf(s)); }
    }

    /**
     The segments before `i` are loaded, the program headers `table` are in memory at `headers`, and
     nothing on the pages `kept` or in the payloads `live` reads differently from `tr` and `ram`.
     */
    ghost predicate InProgress(content: seq<Byte>, segs: seq<Segment>, i: nat, headers: int, table: seq<Byte>,
                               kept: set<int>, tr: map<int, int>, ram: Ram, live: set<Block>)
      requires i <= |segs|
      reads mem`ram, mem.heap, mem.heap.vm
    {
      && mem.Valid(kept + LoadedPages(segs, i)) && mem.heap.vm.issued <= FRAME_LIMIT
      && Live(mem.heap.blocks) == live && Reads(mem.heap.vm.translation, mem.ram, headers, table)
      && Keeps(tr, ram, mem.heap.vm.translation, mem.ram, kept, live)
      && Outside(tr, mem.heap.vm.translation, LoadedPages(segs, i))
      && AllLoaded(content, segs, i, mem.heap.vm.translation, mem.ram)
    }

    lemma Started(content: seq<Byte>, segs: seq<Segment>, headers: int, table: seq<Byte>, kept: set<int>)
      requires mem.Valid(kept) && mem.heap.vm.issued <= FRAME_LIMIT
      requires Reads(mem.heap.vm.translation, mem.ram, headers, table)
      ensures InProgress(content, segs, 0, headers, table, kept,
                         mem.heap.vm.translation, mem.ram, Live(mem.heap.blocks))
    {
      assert kept + LoadedPages(segs, 0) == kept;
      KeepsSame(mem.heap.vm.translation, mem.ram, kept, Live(mem.heap.blocks), {});
    }

    /** The load was given up: nothing is disturbed. */
    ghost predicate GivenUp(segs: seq<Segment>, kept: set<int>, tr: map<int, int>, ram: Ram, live: set<Block>)
      reads mem`ram, mem.heap, mem.heap.vm
    {
      && mem.Valid(kept) && mem.heap.vm.issued <= FRESH_CALLS && Live(mem.heap.blocks) == live
      && Keeps(tr, ram, mem.heap.vm.translation, mem.ram, kept, live)
      && Outside(tr, mem.heap.vm.translation, LoadedPages(segs, |segs|))
    }

    /** Program header `i`, read from the heap. */
    method FetchHeader(headers: int, i: nat, ghost b: Block, ghost table: seq<Byte>, ghost kept: set<int>)
      returns (s: Segment)
      requires mem.Valid(kept) && b in Live(mem.heap.blocks) && headers == b.addr + HEADER
      requires (i + 1) * PHDR_SIZE <= |table| <= b.size && Reads(mem.heap.vm.translation, mem.ram, headers, table)
      ensures s == ProgramHeader(table, i)
    {
      ghost var pages, at, end := kept + HeapSet(mem.heap.heapEnd), i * PHDR_SIZE, (i + 1) * PHDR_SIZE;
      PayloadSpans(mem.heap.blocks, mem.heap.heapEnd, b, pages);
      ReadsPart(mem.heap.vm.translation, mem.ram, headers, table, at, end);
      SpansPart(pages, headers, b.size, headers + at, PHDR_SIZE);
      var bytes := mem.Fetch(headers + i * PHDR_SIZE, PHDR_SIZE, table[at..end], pages);
      HeaderSlice(table, i);
      s := ProgramHeader(bytes, 0);
    }

    /** Loads segment `i`, which is loadable, behind those before it. */
    method LoadNext(s: Segment, file: VfsFile, ghost segs: seq<Segment>, ghost i: nat, ghost headers: int,
                    ghost b: Block, ghost table: seq<Byte>, ghost kept: set<int>,
                    ghost tr: map<int, int>, ghost ram: Ram, ghost live: set<Block>)
      returns (ok: bool)
      requires i < |segs| && s == segs[i] && s.kind == PT_LOAD && SegmentsOk(segs, kept)
      requires InProgress(file.content, segs, i, headers, table, kept, tr, ram, live)
      requires b in live && headers == b.addr + HEADER && |table| <= b.size && 0 <= file.position <= |file.content|
      modifies mem`ram, mem.heap, mem.heap.vm, file`position, file`failures
      ensures Troubles(file) >= old(Troubles(file))
      ensures ok <==> Troubles(file) == old(Troubles(file)) && Fits(file.content, s)
      ensures 0 <= file.position <= |file.content|
      ensures ok ==> InProgress(file.content, segs, i + 1, headers, table, kept, tr, ram, live)
      ensures !ok ==> GivenUp(segs, kept, tr, ram, live)
    {
      ghost var now, bytes, pages := mem.heap.vm.translation, mem.ram, kept + LoadedPages(segs, i);
      NextIsClear(segs, i, kept);
      ok := LoadSegment(s, file, pages);
      KeepsFewer(now, bytes, mem.heap.vm.translation, mem.ram, pages, live, kept, live);
      KeepsTwice(tr, ram, now, bytes, mem.heap.vm.translation, mem.ram, kept, live);
      LoadedOutside(segs, i, tr, now, mem.heap.vm.translation);
      if !ok {
        mem.ValidFewer(kept, pages);
        return;
      }
      assert pages + PagesOf(s) == kept + LoadedPages(segs, i + 1);
      TableStays(now, bytes, mem.heap.vm.translation, mem.ram, pages, live, b, table);
      KeepsFewer(now, bytes, mem.heap.vm.translation, mem.ram, pages, live, LoadedPages(segs, i), {});
      AgreeLoaded(segs, i, kept, now, mem.heap.vm.translation);
      AllLoadedMore(file.content, segs, i, kept, now, bytes, mem.heap.vm.translation, mem.ram);
    }

    /** One turn of the loop: program header `i` is read from the heap and its segment, if loadable, is loaded. */
    method Turn(file: VfsFile, headers: int, i: nat, ghost b: Block, ghost table: seq<Byte>, ghost segs: seq<Segment>,
                ghost kept: set<int>, ghost tr: map<int, int>, ghost ram: Ram, ghost live: set<Block>)
      returns (ok: bool)
      requires IsHeader(table, segs, i) && |table| <= b.size && SegmentsOk(segs, kept)
      requires InProgress(file.content, segs, i, headers, table, kept, tr, ram, live)
      requires b in live && headers == b.addr + HEADER && 0 <= file.position <= |file.content|
      modifies mem`ram, mem.heap, mem.heap.vm, file`position, file`failures
      ensures Troubles(file) >= old(Troubles(file))
      ensures ok <==> Troubles(file) == old(Troubles(file)) && Fits(file.content, segs[i])
      ensures 0 <= file.position <= |file.content|
      ensures ok ==> InProgress(file.content, segs, i + 1, headers, table, kept, tr, ram, live)
      ensures !ok ==> GivenUp(segs, kept, tr, ram, live)
    {
      var s := FetchHeader(headers, i, b, table, kept + LoadedPages(segs, i));
      if s.kind != PT_LOAD {
        SkippedLoaded(file.content, segs, i, mem.heap.vm.translation, mem.ram);
        return true;
      }
      ok := LoadNext(s, file, segs, i, headers, b, table, kept, tr, ram, live);
    }

    /** The loop over the program headers, each read from the heap when its turn comes. */
    method LoadSegments(file: VfsFile, headers: int, count: nat, ghost b: Block, ghost table: seq<Byte>,
                        ghost segs: seq<Segment>, ghost kept: set<int>)
      returns (ok: bool)
      requires mem.Valid(kept) && mem.heap.vm.issued <= FRAME_LIMIT && 0 <= file.position <= |file.content|
      requires b in Live(mem.heap.blocks) && headers == b.addr + HEADER && |table| <= b.size
      requires Reads(mem.heap.vm.translation, mem.ram, headers, table)
      requires |segs| == count && IsTable(table, segs) && SegmentsOk(segs, kept)
      modifies mem`ram, mem.heap, mem.heap.vm, file`position, file`failures
      ensures Troubles(file) >= old(Troubles(file))
      ensures ok <==> Troubles(file) == old(Troubles(file)) && AllFit(file.content, segs, |segs|)
      ensures 0 <= file.position <= |file.content|
      ensures ok ==> InProgress(file.content, segs, |segs|, headers, table, kept, old(mem.heap.vm.translation),
                                old(mem.ram), old(Live(mem.heap.blocks)))
      ensures !ok ==>
                GivenUp(segs, kept, old(mem.heap.vm.translation), old(mem.ram), old(Live(mem.heap.blocks)))
    {
      ghost var tr, ram, live := mem.heap.vm.translation, mem.ram, Live(mem.heap.blocks);
      Started(file.content, segs, headers, table, kept);
      var i := 0;
      while i < count
        invariant i <= count && 0 <= file.position <= |file.content|
        invariant Troubles(file) == old(Troubles(file)) && AllFit(file.content, segs, i)
        invariant InProgress(file.content, segs, i, headers, table, kept, tr, ram, live)
      {
        ok := Turn(file, headers, i, b, table, segs, kept, tr, ram, live);
        if !ok {
          return;
        }
        i := i + 1;
      }
      return true;
    }

    /** The executable is loaded, or nothing of it is kept; either way nothing else is disturbed. */
    ghost predicate Finished(ok: bool, content: seq<Byte>, kept: set<int>,
                             tr: map<int, int>, ram: Ram, live: set<Block>)
      reads mem`ram, mem.heap, mem.heap.vm
    {
      && mem.Valid(if ok then kept + Loadable(content) else kept)
      && mem.heap.vm.issued <= (if ok then FRAME_LIMIT else FRESH_CALLS)
      && Live(mem.heap.blocks) == live
      && Keeps(tr, ram, mem.heap.vm.translation, mem.ram, kept, live)
      && Outside(tr, mem.heap.vm.translation, Loadable(content))
      && (ok ==> HasTable(content) &&
                 AllLoaded(content, Segments(content), |Segments(content)|, mem.heap.vm.translation, mem.ram))
    }

    lemma NothingDone(content: seq<Byte>, kept: set<int>)
      requires mem.Valid(kept) && mem.heap.vm.issued <= FRAME_LIMIT
      ensures Finished(false, content, kept, mem.heap.vm.translation, mem.ram, Live(mem.heap.blocks))
    {
      KeepsSame(mem.heap.vm.translation, mem.ram, kept, Live(mem.heap.blocks), Loadable(content));
    }

    /** Reads the program headers into their block. */
    method ReadTable(file: VfsFile, header: seq<Byte>, headers: int, size: int, ghost b: Block, ghost kept: set<int>)
      returns (ok: bool, ghost table: seq<Byte>)
      requires mem.Valid(kept) && HasGoodHeader(file.content) && header == file.content[..EHDR_SIZE]
      requires PhEntSize(header) == PHDR_SIZE && size == PhNum(header) * PHDR_SIZE && 0 < PhNum(header)
      requires file.position == Clamped(PhOff(header), |file.content|)
      requires b in Live(mem.heap.blocks) && headers == b.addr + HEADER && size <= b.size
      modifies mem`ram, file`position, file`failures
      ensures Troubles(file) >= old(Troubles(file))
      ensures ok <==> Troubles(file) == old(Troubles(file)) && HasTable(file.content)
      ensures mem.Valid(kept) && 0 <= file.position <= |file.content|
      ensures Keeps(mem.heap.vm.translation, old(mem.ram), mem.heap.vm.translation, mem.ram,
                    kept, Live(mem.heap.blocks) - {b})
      ensures ok ==>
                && HasTable(file.content) && |Segments(file.content)| == PhNum(header)
                && IsTable(table, Segments(file.content)) && |table| <= b.size
                && Reads(mem.heap.vm.translation, mem.ram, headers, table)
    {
      var n, bytes;
      ok, n, bytes := file.Read(size);
      table := bytes;
      mem.Fill(headers, bytes, b, kept);
      if !ok || n != size {
        ok := false;
        return;
      }
      TableInFile(file.content, old(file.position), bytes);
    }

    /** Reads the program headers and loads the segments. */
    method LoadFromTable(file: VfsFile, header: seq<Byte>, headers: int, size: int,
                         ghost b: Block, ghost kept: set<int>)
      returns (ok: bool)
      requires mem.Valid(kept) && mem.heap.vm.issued <= FRAME_LIMIT
      requires HasGoodHeader(file.content) && header == file.content[..EHDR_SIZE]
      requires HasTable(file.content) ==> SegmentsOk(Segments(file.content), kept)
      requires PhEntSize(header) == PHDR_SIZE && size == PhNum(header) * PHDR_SIZE && 0 < PhNum(header)
      requires file.position == Clamped(PhOff(header), |file.content|)
      requires b in Live(mem.heap.blocks) && headers == b.addr + HEADER && size <= b.size
      modifies mem`ram, mem.heap, mem.heap.vm, file`position, file`failures
      ensures Troubles(file) >= old(Troubles(file))
      ensures ok <==> Troubles(file) == old(Troubles(file)) && Complete(file.content)
      ensures mem.heap.vm.issued <= if ok then FRAME_LIMIT else FRESH_CALLS
      ensures mem.Valid(if ok then kept + Loadable(file.content) else kept)
      ensures Live(mem.heap.blocks) == old(Live(mem.heap.blocks))
      ensures Keeps(old(mem.heap.vm.translation), old(mem.ram), mem.heap.vm.translation, mem.ram,
                    kept, old(Live(mem.heap.blocks)) - {b})
      ensures Outside(old(mem.heap.vm.translation), mem.heap.vm.translation, Loadable(file.content))
      ensures ok ==> HasTable(file.content) &&
                     AllLoaded(file.content, Segments(file.content), |Segments(file.content)|,
                               mem.heap.vm.translation, mem.ram)
    {
      ghost var tr, ram, live, table := mem.heap.vm.translation, mem.ram, Live(mem.heap.blocks), [];
      ok, table := ReadTable(file, header, headers, size, b, kept);
      if !ok {
        return;
      }
      ghost var filled := mem.ram;
      ok := LoadSegments(file, headers, PhNum(header), b, table, Segments(file.content), kept);
      KeepsFilled(tr, ram, filled, mem.heap.vm.translation, mem.ram, kept, kept, live, b);
    }

    /** From the allocation for the program headers to its release. */
    method LoadTable(file: VfsFile, header: seq<Byte>, ghost kept: set<int>) returns (ok: bool)
      requires mem.Valid(kept) && mem.heap.vm.issued <= FRAME_LIMIT
      requires FileOk(file.content, kept) && HasGoodHeader(file.content) && header == file.content[..EHDR_SIZE]
      requires 0 < PhNum(header) && file.position == Clamped(PhOff(header), |file.content|)
      modifies mem`ram, mem.heap, mem.heap.vm, file`position, file`failures
      ensures Troubles(file) >= old(Troubles(file))
      ensures ok <==> Troubles(file) == old(Troubles(file)) && Complete(file.content)
      ensures Finished(ok, file.content, kept, old(mem.heap.vm.translation), old(mem.ram), old(Live(mem.heap.blocks)))
    {
      ghost var tr, ram, live := mem.heap.vm.translation, mem.ram, Live(mem.heap.blocks);
      var size := PhNum(header) * PhEntSize(header);
      var headers;
      ghost var b;
      headers, b := mem.Take(size, kept);
      ghost var tr1, ram1 := mem.heap.vm.translation, mem.ram;
      OutsideFewer(tr, tr1, Loadable(file.content));
      if headers == NULL {
        return false;
      }
      assert live + {b} - {b} == live;
      ok := LoadAndRelease(file, header, headers, size, b, kept);
      OutsideTwice(tr, tr1, mem.heap.vm.translation, Loadable(file.content), Loadable(file.content));
      KeepsTwice(tr, ram, tr1, ram1, mem.heap.vm.translation, mem.ram, kept, live);
    }

    /** Loads the segments and releases the program headers. */
    method LoadAndRelease(file: VfsFile, header: seq<Byte>, headers: int, size: int,
                          ghost b: Block, ghost kept: set<int>)
      returns (ok: bool)
      requires mem.Valid(kept) && mem.heap.vm.issued <= FRAME_LIMIT
      requires HasGoodHeader(file.content) && header == file.content[..EHDR_SIZE]
      requires HasTable(file.content) ==> SegmentsOk(Segments(file.content), kept)
      requires PhEntSize(header) == PHDR_SIZE && size == PhNum(header) * PHDR_SIZE && 0 < PhNum(header)
      requires file.position == Clamped(PhOff(header), |file.content|)
      requires b in Live(mem.heap.blocks) && headers == b.addr + HEADER && size <= b.size
      modifies mem`ram, mem.heap, mem.heap.vm, file`position, file`failures
      ensures Troubles(file) >= old(Troubles(file))
      ensures ok <==> Troubles(file) == old(Troubles(file)) && Complete(file.content)
      ensures Finished(ok, file.content, kept, old(mem.heap.vm.translation), old(mem.ram),
                       old(Live(mem.heap.blocks)) - {b})
    {
      ghost var live := Live(mem.heap.blocks);
      ok := LoadFromTable(file, header, headers, size, b, kept);
      ghost var tr, ram, pages := mem.heap.vm.translation, mem.ram, if ok then kept + Loadable(file.content) else kept;
      mem.Release(headers, b, pages);
      KeepsFewer(tr, ram, tr, mem.ram, pages, live, kept, live - {b});
      KeepsTwice(old(mem.heap.vm.translation), old(mem.ram), tr, ram, tr, mem.ram, kept, live - {b});
      if ok { ReleasedLoaded(file.content, kept, tr, ram, mem.ram, live); }
    }

    /**
     `elf_load`.  After a success every loadable segment reads, through the page tables, as its file
     bytes followed by zeros, and its pages have its permissions.  On every path the heap's live blocks
     are those of before, nothing in them or on the pages `kept` reads differently, no page outside
     the heap and the segments changes its translation, and the file is closed as often as it was opened.
     `entry` is what was stored as the entry point.
     */
    method Load(file: VfsFile, ghost kept: set<int>) returns (ok: bool, entry: Option<int>)
      requires mem.Valid(kept) && mem.heap.vm.issued <= FRAME_LIMIT && FileOk(file.content, kept)
      modifies mem`ram, mem.heap, mem.heap.vm, file`position, file`failures, file`opens, file`closes
      ensures Troubles(file) >= old(Troubles(file))
      ensures ok <==> Troubles(file) == old(Troubles(file)) && Complete(file.content)
      ensures Finished(ok, file.content, kept, old(mem.heap.vm.translation), old(mem.ram), old(Live(mem.heap.blocks)))
      ensures file.opens - old(file.opens) == file.closes - old(file.closes) <= 1
      ensures ok ==> file.opens == old(file.opens) + 1
      ensures entry.Some? ==> HasGoodHeader(file.content) && entry.value == EntryPoint(file.content[..EHDR_SIZE])
      ensures ok ==> entry.Some?
      ensures entry.None? ==> !HasGoodHeader(file.content) || Troubles(file) > old(Troubles(file))
    {
      NothingDone(file.content, kept);
      entry := None;
      ok := file.Open();
      if !ok {
        return;
      }
      var n, header;
      ok, n, header := file.Read(EHDR_SIZE);
      if !ok || n != EHDR_SIZE {
        file.Close();
        return false, None;
      }
      if !GoodHeader(header) {
        file.Close();
        return false, None;
      }
      entry := Some(EntryPoint(header));
      ok := LoadChecked(file, header, kept);
    }

    /** `elf_load` from the check of the number of program headers on. */
    method LoadChecked(file: VfsFile, header: seq<Byte>, ghost kept: set<int>) returns (ok: bool)
      requires mem.Valid(kept) && mem.heap.vm.issued <= FRAME_LIMIT && 0 <= file.position <= |file.content|
      requires FileOk(file.content, kept) && HasGoodHeader(file.content) && header == file.content[..EHDR_SIZE]
      modifies mem`ram, mem.heap, mem.heap.vm, file`position, file`failures, file`closes
      ensures Troubles(file) >= old(Troubles(file))
      ensures ok <==> Troubles(file) == old(Troubles(file)) && Complete(file.content)
      ensures Finished(ok, file.content, kept, old(mem.heap.vm.translation), old(mem.ram), old(Live(mem.heap.blocks)))
      ensures file.closes == old(file.closes) + 1
    {
      NothingDone(file.content, kept);
      if PhNum(header) == 0 {
        file.Close();
        return false;
      }
      ok := file.Seek(PhOff(header));
      if !ok {
        file.Close();
        return;
      }
      ok := LoadTable(file, header, kept);
      file.Close();
    }

    /** Two programs one after the other: the second leaves the first as it was loaded. */
    method LoadBoth(file: VfsFile, other: VfsFile) returns (ok: bool)
      requires mem.Valid({}) && mem.heap.vm.issued <= FRAME_LIMIT && file != other
      requires FileOk(file.content, {}) && FileOk(other.content, Loadable(file.content))
      modifies mem`ram, mem.heap, mem.heap.vm
      modifies file`position, file`opens, file`closes, file`failures
      modifies other`position, other`opens, other`closes, other`failures
      ensures Live(mem.heap.blocks) == old(Live(mem.heap.blocks))
      ensures ok ==> IsLoaded(file.content) && IsLoaded(other.content)
    {
      var entry;
      ok, entry := Load(file, {});
      if !ok {
        return;
      }
      assert {} + Loadable(file.content) == Loadable(file.content);
      ghost var tr, ram, kept := mem.heap.vm.translation, mem.ram, Loadable(file.content);
      ok, entry := Load(other, kept);
      if ok {
        LoadedBeside(file.content, other.content, tr, ram, mem.heap.vm.translation, mem.ram, Live(mem.heap.blocks));
      }
    }

    /** Every loadable segment of the executable is in place with its permissions. */
    ghost predicate IsLoaded(content: seq<Byte>)
      reads mem`ram, mem.heap.vm
    {
      HasTable(content) &&
      AllLoaded(content, Segments(content), |Segments(content)|, mem.heap.vm.translation, mem.ram)
    }
  }

  /** The addresses of a segment lie on its pages, which are none of those kept. */
  lemma SegmentSpans(s: Segment, kept: set<int>, v: int, n: int)
    requires SegmentOk(s) && KeepsClear(s, kept) && s.vaddr <= v && v + n <= s.vaddr + s.memsz
    ensures Spans(kept + PagesOf(s) - kept, v, n) && Spans(kept + PagesOf(s), v, n)
  {
    forall w | v <= w < v + n ensures OnPage(kept + PagesOf(s) - kept, w) {
      SegmentAddress(s, w);
      PagesOfSegment(s, PageOf(w));
    }
    forall w | v <= w < v + n ensures OnPage(kept + PagesOf(s), w) {
      assert OnPage(kept + PagesOf(s) - kept, w);
    }
  }

  /** What changes only in the heap leaves the permissions of a segment. */
  lemma SegmentOutside(s: Segment, tr: map<int, int>, tr': map<int, int>)
    requires SegmentOk(s) && Outside(tr, tr', {}) && Permitted(s, tr)
    ensures Permitted(s, tr')
  {
    forall p | InSegment(s, p) ensures SameEntry(tr, tr', p) {}
    PermittedStays(s, tr, tr');
  }

  /** Zeros written behind the file part leave it as it is. */
  lemma RestCleared(s: Segment, kept: set<int>, end: int, tr: map<int, int>, ram: Ram, ram': Ram,
                    part: seq<Byte>, zeros: seq<Byte>)
    requires SegmentOk(s) && KeepsClear(s, kept) && |part| == s.filesz && |zeros| == s.memsz - s.filesz
    requires Reads(tr, ram, s.vaddr, part) && Reads(tr, ram', s.vaddr + s.filesz, zeros)
    requires Written(tr, ram, ram', kept + PagesOf(s) + HeapSet(end), s.vaddr + s.filesz, zeros)
    ensures Reads(tr, ram', s.vaddr, part + zeros)
  {
    var pages := kept + PagesOf(s);
    SegmentSpans(s, kept, s.vaddr, s.filesz);
    SpansMore(pages, pages + HeapSet(end), s.vaddr, s.filesz);
    WrittenBeside(tr, ram, ram', pages + HeapSet(end), s.vaddr + s.filesz, zeros, s.vaddr, part);
    ReadsJoin(tr, ram', s.vaddr, part, zeros);
  }

  /** Mapping a segment keeps what is protected. */
  lemma SegmentMapped(s: Segment, tr: map<int, int>, tr': map<int, int>, ram: Ram, kept: set<int>,
                      headers: map<int, Header>, bs: seq<Block>, end: int)
    requires OnlySegment(tr, tr', s) && SegmentOk(s) && KeepsClear(s, kept)
    requires Tiles(bs, HEAP_START, end) && HeapEnds(end)
    ensures Outside(tr, tr', PagesOf(s)) && Keeps(tr, ram, tr', ram, kept, Live(bs))
  {
    OnlySegmentOutside(tr, tr', s, kept, end);
    AgreeKeeps(tr, tr', ram, kept, headers, bs, end);
  }

  /** Filling a mapped segment changes no translation outside the heap. */
  lemma SegmentFilled(s: Segment, tr: map<int, int>, ram: Ram, tr': map<int, int>, tr'': map<int, int>, ram'': Ram,
                      kept: set<int>, live: set<Block>)
    requires SegmentOk(s) && Outside(tr, tr', PagesOf(s)) && Outside(tr', tr'', {}) && Permitted(s, tr')
    requires Keeps(tr, ram, tr', ram, kept, live) && Keeps(tr', ram, tr'', ram'', kept, live)
    ensures Outside(tr, tr'', PagesOf(s)) && Permitted(s, tr'') && Keeps(tr, ram, tr'', ram'', kept, live)
  {
    OutsideFewer(tr', tr'', PagesOf(s));
    OutsideTwice(tr, tr', tr'', PagesOf(s), PagesOf(s));
    KeepsTwice(tr, ram, tr', ram, tr'', ram'', kept, live);
    SegmentOutside(s, tr', tr'');
  }

  lemma OutsideFewer(tr: map<int, int>, tr': map<int, int>, pages: set<int>)
    requires Outside(tr, tr', {})
    ensures Outside(tr, tr', pages)
  {
  }

  /** Translations changed by the segments up to and including `i` are those of their pages. */
  lemma LoadedOutside(segs: seq<Segment>, i: nat, tr: map<int, int>, tr': map<int, int>, tr'': map<int, int>)
    requires i < |segs| && segs[i].kind == PT_LOAD
    requires Outside(tr, tr', LoadedPages(segs, i)) && Outside(tr', tr'', PagesOf(segs[i]))
    ensures Outside(tr, tr'', LoadedPages(segs, i + 1)) && Outside(tr, tr'', LoadedPages(segs, |segs|))
  {
    forall p | !InHeap(p) && p !in LoadedPages(segs, i + 1) ensures SameEntry(tr, tr'', p) {
      assert SameEntry(tr, tr', p) && SameEntry(tr', tr'', p);
    }
    LoadedPagesGrow(segs, i + 1, |segs|);
  }

  lemma {:induction false} LoadedPagesGrow(segs: seq<Segment>, i: nat, n: nat)
    requires i <= n <= |segs|
    ensures LoadedPages(segs, i) <= LoadedPages(segs, n)
    decreases n
  {
    if i < n { LoadedPagesGrow(segs, i, n - 1); }
  }

  /** Loading segment `i` leaves the pages of those before it mapped as they are. */
  lemma AgreeLoaded(segs: seq<Segment>, i: nat, kept: set<int>, tr: map<int, int>, tr': map<int, int>)
    requires i < |segs| && segs[i].kind == PT_LOAD && SegmentsOk(segs, kept) && Outside(tr, tr', PagesOf(segs[i]))
    ensures Agree(tr, tr', LoadedPages(segs, i))
  {
    forall p | p in LoadedPages(segs, i) ensures SameEntry(tr, tr', p) {
      LoadedPageOf(segs, i, p);
      var j :| 0 <= j < i && LoadedFrom(segs, j, p);
      assert Apart(segs, j, i) && SegmentOk(segs[j]);
      PagesOfSegment(segs[i], p);
    }
  }

  /** Program headers in the payload of a live block stay as they are. */
  lemma TableStays(tr: map<int, int>, ram: Ram, tr': map<int, int>, ram': Ram, kept: set<int>, live: set<Block>,
                   b: Block, table: seq<Byte>)
    requires Keeps(tr, ram, tr', ram', kept, live) && b in live && |table| <= b.size
    requires Reads(tr, ram, b.addr + HEADER, table)
    ensures Reads(tr', ram', b.addr + HEADER, table)
  {
    forall w | b.addr + HEADER <= w < b.addr + HEADER + |table| ensures Protected(kept, live, w) {
      assert InPayload(b, w);
    }
    KeepsReads(tr, ram, tr', ram', kept, live, b.addr + HEADER, table);
  }

  /** Releasing the program headers leaves the segments in place. */
  lemma ReleasedLoaded(content: seq<Byte>, kept: set<int>, tr: map<int, int>, ram: Ram, ram': Ram, live: set<Block>)
    requires HasTable(content) && SegmentsOk(Segments(content), kept)
    requires AllLoaded(content, Segments(content), |Segments(content)|, tr, ram)
    requires Keeps(tr, ram, tr, ram', kept + Loadable(content), live)
    ensures AllLoaded(content, Segments(content), |Segments(content)|, tr, ram')
  {
    KeepsFewer(tr, ram, tr, ram', kept + Loadable(content), live, Loadable(content), {});
    AllLoadedStay(content, Segments(content), |Segments(content)|, kept, tr, ram, tr, ram');
  }

  /** A program stays loaded while another one is loaded beside it. */
  lemma LoadedBeside(content: seq<Byte>, other: seq<Byte>, tr: map<int, int>, ram: Ram, tr': map<int, int>, ram': Ram,
                     live: set<Block>)
    requires FileOk(content, {}) && HasTable(content) && FileOk(other, Loadable(content)) && HasTable(other)
    requires AllLoaded(content, Segments(content), |Segments(content)|, tr, ram)
    requires Keeps(tr, ram, tr', ram', Loadable(content), live) && Outside(tr, tr', Loadable(other))
    ensures AllLoaded(content, Segments(content), |Segments(content)|, tr', ram')
  {
    var segs, kept := Segments(content), Loadable(content);
    KeepsFewer(tr, ram, tr', ram', kept, live, kept, {});
    forall p | p in kept ensures SameEntry(tr, tr', p) {
      LoadedIsClear(segs, |segs|, {}, p);
      NotLoadedBy(Segments(other), |Segments(other)|, kept, p);
    }
    AllLoadedStay(content, segs, |segs|, {}, tr, ram, tr', ram');
  }

  /** No loaded page lies in the heap. */
  lemma LoadedIsClear(segs: seq<Segment>, n: nat, kept: set<int>, p: int)
    requires SegmentsOk(segs, kept) && n <= |segs| && p in LoadedPages(segs, n)
    ensures !InHeap(p)
  {
    LoadedPageOf(segs, n, p);
    var i :| 0 <= i < n && LoadedFrom(segs, i, p);
    assert SegmentOk(segs[i]);
  }

  /** A kept page is none of those loaded beside it. */
  lemma NotLoadedBy(segs: seq<Segment>, n: nat, kept: set<int>, p: int)
    requires SegmentsOk(segs, kept) && n <= |segs| && p in kept
    ensures p !in LoadedPages(segs, n)
  {
    LoadedPageOf(segs, n, p);
    forall i | 0 <= i < n ensures !LoadedFrom(segs, i, p) {
      if segs[i].kind == PT_LOAD { assert KeepsClear(segs[i], kept); }
    }
  }

  lemma SegmentProtected(s: Segment, kept: set<int>, live: set<Block>)
    requires SegmentOk(s) && KeepsClear(s, kept)
    ensures forall w | s.vaddr <= w < s.vaddr + s.memsz :: Protected(kept + PagesOf(s), live, w)
  {
    SegmentSpans(s, kept, s.vaddr, s.memsz);
    forall w | s.vaddr <= w < s.vaddr + s.memsz ensures Protected(kept + PagesOf(s), live, w) {
      assert OnPage(kept + PagesOf(s), w);
    }
  }

  /** The file part of a segment and the payload of a block do not overlap. */
  lemma SegmentApart(s: Segment, bs: seq<Block>, end: int, b: Block)
    requires SegmentOk(s) && Tiles(bs, HEAP_START, end) && HeapEnds(end) && b in bs && s.filesz <= b.size
    ensures s.vaddr + s.filesz <= b.addr + HEADER || b.addr + HEADER + s.filesz <= s.vaddr
  {
    var i :| 0 <= i < |bs| && bs[i] == b;
    Bounds(bs, HEAP_START, end, i);
    var buffer := b.addr + HEADER;
    var w := if s.vaddr < buffer then buffer else s.vaddr;
    if s.vaddr <= w < s.vaddr + s.filesz && buffer <= w < buffer + s.filesz {
      SegmentAddress(s, w);
      HeapAddress(w, end);
    }
  }
}
