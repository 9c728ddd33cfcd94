/**
 Segments of an executable and what it means that they are loaded: pages with the right
 permissions, and memory that reads as the file's bytes followed by zeros.
 */
module ElfImage {
  import opened Types
  import opened PageTree
  import opened HeapPages
  import opened ElfFormat
  import opened VirtualMemory
  import opened KernelMemory

  // ---------- permissions ----------

  /** Page `p` of the segment is mapped present, writable exactly if the segment is, and user above 4 GiB. */
  ghost predicate PermittedPage(s: Segment, tr: map<int, int>, p: int) {
    p in tr && FlagsOf(tr[p]) == PageFlags(s, StartPage(s) + (p - PageOf(s.vaddr)) * PAGE_SIZE)
  }

  ghost predicate PermittedUpTo(s: Segment, tr: map<int, int>, k: int) {
    forall p | PageOf(s.vaddr) <= p < PageOf(s.vaddr) + k :: PermittedPage(s, tr, p)
  }

  ghost predicate Permitted(s: Segment, tr: map<int, int>) {
    forall p | InSegment(s, p) :: PermittedPage(s, tr, p)
  }

  lemma PermittedMore(s: Segment, tr: map<int, int>, tr': map<int, int>, k: int)
    requires PermittedUpTo(s, tr, k) && PageOf(s.vaddr) + k in tr'
    requires FlagsOf(tr'[PageOf(s.vaddr) + k]) == PageFlags(s, StartPage(s) + k * PAGE_SIZE)
    requires forall p | p != PageOf(s.vaddr) + k :: SameEntry(tr, tr', p)
    ensures PermittedUpTo(s, tr', k + 1)
  {
    forall p | PageOf(s.vaddr) <= p < PageOf(s.vaddr) + k ensures PermittedPage(s, tr', p) {
      assert PermittedPage(s, tr, p) && SameEntry(tr, tr', p);
    }
  }

  lemma PermittedStays(s: Segment, tr: map<int, int>, tr': map<int, int>)
    requires Permitted(s, tr) && forall p | InSegment(s, p) :: SameEntry(tr, tr', p)
    ensures Permitted(s, tr')
  {
    forall p | InSegment(s, p) ensures PermittedPage(s, tr', p) {
      assert PermittedPage(s, tr, p) && SameEntry(tr, tr', p);
    }
  }

  // ---------- contents ----------

  /** The segment keeps within the file. */
  ghost predicate InFile(content: seq<Byte>, s: Segment) {
    0 <= s.filesz <= s.memsz && 0 <= s.offset && (s.filesz > 0 ==> s.offset + s.filesz <= |content|)
  }

  /** The file part of a loadable segment is in the file, and its size is a 32-bit word as a read takes it. */
  ghost predicate Fits(content: seq<Byte>, s: Segment) {
    s.kind == 1 ==> InFile(content, s) && s.filesz < TWO32
  }

  ghost predicate AllFit(content: seq<Byte>, segs: seq<Segment>, n: nat)
    requires n <= |segs|
  {
    forall j | 0 <= j < n :: Fits(content, segs[j])
  }

  /** The bytes a segment takes from the file. */
  ghost function FilePart(content: seq<Byte>, s: Segment): (r: seq<Byte>)
    requires InFile(content, s)
    ensures |r| == s.filesz
  {
    if s.filesz == 0 then [] else content[s.offset..s.offset + s.filesz]
  }

  /** A complete read at the segment's offset is its file part. */
  lemma ReadInFile(content: seq<Byte>, s: Segment, at: int, data: seq<Byte>)
    requires 0 <= s.offset && 0 < s.filesz <= s.memsz && |data| == s.filesz
    requires 0 <= at && (at == s.offset || at == |content|) && at + |data| <= |content|
    requires data == content[at..at + |data|]
    ensures InFile(content, s) && data == FilePart(content, s)
  {
  }

  /** The memory image of a segment: its bytes in the file, then zeros. */
  ghost function Image(content: seq<Byte>, s: Segment): (r: seq<Byte>)
    requires InFile(content, s)
    ensures |r| == s.memsz
  {
    FilePart(content, s) + Repeat(0 as Byte, s.memsz - s.filesz)
  }

  /** Read through the page tables, the segment's memory is its image. */
  ghost predicate Placed(content: seq<Byte>, s: Segment, tr: map<int, int>, ram: Ram) {
    InFile(content, s) && Reads(tr, ram, s.vaddr, Image(content, s))
  }

  // ---------- all segments ----------

  /** Segments `i` and `j`, if both are loaded, lie on different pages. */
  ghost predicate Apart(segs: seq<Segment>, i: int, j: int)
    requires 0 <= i < |segs| && 0 <= j < |segs|
  {
    segs[i].kind == segs[j].kind == PT_LOAD ==> forall p | InSegment(segs[i], p) :: !InSegment(segs[j], p)
  }

  /**
   The loadable segments are as the loader expects them and lie on pages of their own, apart from
   the pages `kept`.
   */
  ghost predicate SegmentsOk(segs: seq<Segment>, kept: set<int>) {
    && (forall i | 0 <= i < |segs| && segs[i].kind == PT_LOAD :: SegmentOk(segs[i]) && KeepsClear(segs[i], kept))
    && (forall i, j | 0 <= i < j < |segs| :: Apart(segs, i, j))
  }

  ghost predicate KeepsClear(s: Segment, kept: set<int>) {
    forall p | p in kept :: !InSegment(s, p)
  }

  ghost predicate HasGoodHeader(content: seq<Byte>) {
    |content| >= EHDR_SIZE && GoodHeader(content[..EHDR_SIZE])
  }

  /** The whole program-header table is in the file. */
  ghost predicate HasTable(content: seq<Byte>) {
    HasGoodHeader(content) && var h := content[..EHDR_SIZE]; PhOff(h) + PhNum(h) * PHDR_SIZE <= |content|
  }

  ghost function Segments(content: seq<Byte>): seq<Segment>
    requires HasTable(content)
  {
    var h := content[..EHDR_SIZE];
    ProgramHeaders(content[PhOff(h)..PhOff(h) + PhNum(h) * PHDR_SIZE], PhNum(h))
  }

  /**
   The file holds a whole executable: a good header, a table of at least one program header and the file
   parts of all loadable segments.
   */
  ghost predicate Complete(content: seq<Byte>) {
    && HasTable(content) && PhNum(content[..EHDR_SIZE]) > 0
    && AllFit(content, Segments(content), |Segments(content)|)
  }

  /** What the loader takes for granted of an executable that is loaded beside the pages `kept`. */
  ghost predicate FileOk(content: seq<Byte>, kept: set<int>) {
    HasGoodHeader(content) ==>
      var h := content[..EHDR_SIZE];
      && PhEntSize(h) == PHDR_SIZE && PhOff(h) < 0x8000_0000
      && (HasTable(content) ==> SegmentsOk(Segments(content), kept))
  }

  /** The pages of a segment. */
  ghost function PagesOf(s: Segment): set<int> {
    if PageCount(s) < 0 then {} else PageRange(PageOf(s.vaddr), PageCount(s))
  }

  lemma PagesOfSegment(s: Segment, p: int)
    ensures p in PagesOf(s) <==> InSegment(s, p)
  {
  }

  /** The pages of the loadable segments among the first `n`. */
  ghost function LoadedPages(segs: seq<Segment>, n: nat): set<int>
    requires n <= |segs|
  {
    if n == 0 then {}
    else if segs[n - 1].kind == PT_LOAD then LoadedPages(segs, n - 1) + PagesOf(segs[n - 1])
    else LoadedPages(segs, n - 1)
  }

  ghost predicate LoadedFrom(segs: seq<Segment>, i: int, p: int)
    requires 0 <= i < |segs|
  {
    segs[i].kind == PT_LOAD && InSegment(segs[i], p)
  }

  lemma {:induction false} LoadedPageOf(segs: seq<Segment>, n: nat, p: int)
    requires n <= |segs|
    ensures p in LoadedPages(segs, n) <==> exists i :: 0 <= i < n && LoadedFrom(segs, i, p)
  {
    if n > 0 {
      LoadedPageOf(segs, n - 1, p);
      PagesOfSegment(segs[n - 1], p);
      assert LoadedFrom(segs, n - 1, p) <==> segs[n - 1].kind == PT_LOAD && InSegment(segs[n - 1], p);
    }
  }

  /** Segment `n` lies beside those before it. */
  lemma NextIsClear(segs: seq<Segment>, n: nat, kept: set<int>)
    requires SegmentsOk(segs, kept) && n < |segs| && segs[n].kind == PT_LOAD
    ensures KeepsClear(segs[n], kept + LoadedPages(segs, n))
  {
    forall p | p in LoadedPages(segs, n) ensures !InSegment(segs[n], p) {
      LoadedPageOf(segs, n, p);
      var i :| 0 <= i < n && LoadedFrom(segs, i, p);
      assert Apart(segs, i, n);
    }
  }

  lemma SegmentIsLoaded(segs: seq<Segment>, i: nat, j: nat)
    requires j < i <= |segs| && segs[j].kind == PT_LOAD
    ensures forall p | InSegment(segs[j], p) :: p in LoadedPages(segs, i)
  {
    forall p | InSegment(segs[j], p) ensures p in LoadedPages(segs, i) {
      LoadedPageOf(segs, i, p);
      assert LoadedFrom(segs, j, p);
    }
  }

  /** Segment `j` of the file, if it is loadable, has its data in the file and its image in memory. */
  ghost predicate Loaded(content: seq<Byte>, s: Segment, tr: map<int, int>, ram: Ram) {
    s.kind == 1 ==> Placed(content, s, tr, ram) && Permitted(s, tr)
  }

  /** Among the first `n` segments every loadable one is in place with its permissions. */
  ghost predicate AllLoaded(content: seq<Byte>, segs: seq<Segment>, n: nat, tr: map<int, int>, ram: Ram)
    requires n <= |segs|
  {
    forall j | 0 <= j < n :: Loaded(content, segs[j], tr, ram)
  }

  /** A segment on kept pages stays in place. */
  lemma LoadedStays(content: seq<Byte>, s: Segment, tr: map<int, int>, ram: Ram, tr': map<int, int>, ram': Ram,
                    pages: set<int>)
    requires Loaded(content, s, tr, ram) && Keeps(tr, ram, tr', ram', pages, {}) && Agree(tr, tr', pages)
    requires s.kind == PT_LOAD ==> SegmentOk(s) && forall p | InSegment(s, p) :: p in pages
    ensures Loaded(content, s, tr', ram')
  {
    if s.kind == PT_LOAD {
      forall w | s.vaddr <= w < s.vaddr + s.memsz ensures Protected(pages, {}, w) {
        SegmentAddress(s, w);
      }
      KeepsReads(tr, ram, tr', ram', pages, {}, s.vaddr, Image(content, s));
      PermittedStays(s, tr, tr');
    }
  }

  /** Segments stay loaded while their pages are kept. */
  lemma AllLoadedStay(content: seq<Byte>, segs: seq<Segment>, i: nat, kept: set<int>,
                      tr: map<int, int>, ram: Ram, tr': map<int, int>, ram': Ram)
    requires SegmentsOk(segs, kept) && i <= |segs| && AllLoaded(content, segs, i, tr, ram)
    requires Keeps(tr, ram, tr', ram', LoadedPages(segs, i), {}) && Agree(tr, tr', LoadedPages(segs, i))
    ensures AllLoaded(content, segs, i, tr', ram')
  {
    forall j | 0 <= j < i ensures Loaded(content, segs[j], tr', ram') {
      if segs[j].kind == PT_LOAD { SegmentIsLoaded(segs, i, j); }
      LoadedStays(content, segs[j], tr, ram, tr', ram', LoadedPages(segs, i));
    }
  }

  /** Loading segment `i` leaves the segments before it in place. */
  lemma AllLoadedMore(content: seq<Byte>, segs: seq<Segment>, i: nat, kept: set<int>,
                      tr: map<int, int>, ram: Ram, tr': map<int, int>, ram': Ram)
    requires SegmentsOk(segs, kept) && i < |segs| && AllLoaded(content, segs, i, tr, ram)
    requires Keeps(tr, ram, tr', ram', LoadedPages(segs, i), {}) && Agree(tr, tr', LoadedPages(segs, i))
    requires Placed(content, segs[i], tr', ram') && Permitted(segs[i], tr')
    ensures AllLoaded(content, segs, i + 1, tr', ram')
  {
    AllLoadedStay(content, segs, i, kept, tr, ram, tr', ram');
  }

  /** The pages that loading the executable maps. */
  ghost function Loadable(content: seq<Byte>): set<int> {
    if HasTable(content) then LoadedPages(Segments(content), |Segments(content)|) else {}
  }

  lemma SkippedLoaded(content: seq<Byte>, segs: seq<Segment>, i: nat, tr: map<int, int>, ram: Ram)
    requires i < |segs| && segs[i].kind != PT_LOAD
    ensures AllLoaded(content, segs, i, tr, ram) ==> AllLoaded(content, segs, i + 1, tr, ram)
    ensures LoadedPages(segs, i + 1) == LoadedPages(segs, i)
  {
  }

  // ---------- the program-header table in memory ----------

  /** Entry `i` of the table is program header `i`. */
  ghost predicate IsHeader(table: seq<Byte>, segs: seq<Segment>, i: nat) {
    i < |segs| && (i + 1) * PHDR_SIZE <= |table| && segs[i] == ProgramHeader(table, i)
  }

  ghost predicate IsTable(table: seq<Byte>, segs: seq<Segment>) {
    forall i: nat | i < |segs| :: IsHeader(table, segs, i)
  }

  lemma TableOfHeaders(table: seq<Byte>, n: nat)
    requires n * PHDR_SIZE <= |table|
    ensures |ProgramHeaders(table, n)| == n && IsTable(table, ProgramHeaders(table, n))
  {
    var segs := ProgramHeaders(table, n);
    forall i: nat | i < n ensures IsHeader(table, segs, i) {}
  }

  /** A complete read at the header's offset is the table of the file. */
  lemma TableInFile(content: seq<Byte>, at: int, table: seq<Byte>)
    requires HasGoodHeader(content) && PhEntSize(content[..EHDR_SIZE]) == PHDR_SIZE && 0 < PhNum(content[..EHDR_SIZE])
    requires at == PhOff(content[..EHDR_SIZE]) || at == |content|
    requires |table| == PhNum(content[..EHDR_SIZE]) * PHDR_SIZE
    requires 0 <= at && at + |table| <= |content| && table == content[at..at + |table|]
    ensures HasTable(content) && |Segments(content)| == PhNum(content[..EHDR_SIZE])
    ensures IsTable(table, Segments(content))
  {
    TableOfHeaders(table, PhNum(content[..EHDR_SIZE]));
  }
}
