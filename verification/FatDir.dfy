/**
 Directory lookup and opening (kernel/fs/fat.c:58-121, 222-259).
 */
module FatDir {
  import opened Types
  import opened FatLayout
  import opened FatVolume
  import opened FatFile

  const DIRENT: int := 32
  const DOT: Byte := 46
  const SPACE: Byte := 32

  // ---------- 8.3 names ----------

  /** The index of the first dot, or the length of the name if it has none. */
  function BaseLength(name: seq<Byte>): (n: nat)
    ensures n <= |name| && (forall k | 0 <= k < n :: name[k] != DOT) && (n < |name| ==> name[n] == DOT)
  {
    if name == [] || name[0] == DOT then 0 else BaseLength(name[1..]) + 1
  }

  function Upper(c: Byte): (u: Byte)
    ensures 'a' as int <= c as int <= 'z' as int ==> u as int == 'A' as int + (c as int - 'a' as int)
    ensures !('a' as int <= c as int <= 'z' as int) ==> u == c
  {
    if 97 <= c <= 122 then c - 32 else c
  }

  /** `s` in upper case, cut or padded with spaces to `n` characters. */
  function Padded(s: seq<Byte>, n: nat): (r: seq<Byte>)
    ensures |r| == n
    ensures forall k | 0 <= k < n :: r[k] == if k < |s| then Upper(s[k]) else SPACE
  {
    if n == 0 then [] else Padded(s, n - 1) + [if n - 1 < |s| then Upper(s[n - 1]) else SPACE]
  }

  /** Character `i` of the upper-cased, truncated and padded 8.3 form of a name. */
  function ShortChar(name: seq<Byte>, i: int): Byte
    requires 0 <= i < 11
  {
    var n := BaseLength(name);
    if i < 8 then
      if i < n then Upper(name[i]) else SPACE
    else
      var k := n + 1 + (i - 8);
      if k < |name| then Upper(name[k]) else SPACE
  }

  /** `short` is the 8.3 form of `name`. */
  ghost predicate IsShortName(short: seq<Byte>, name: seq<Byte>) {
    |short| == 11 && forall i | 0 <= i < 11 :: short[i] == ShortChar(name, i)
  }

  /** The conversion at the start of `lookup_file_in_dir`. */
  method ShortName(name: seq<Byte>) returns (short: seq<Byte>)
    ensures IsShortName(short, name)
  {
    var s := new Byte[12](_ => SPACE);
    s[11] := 0;
    var dot := 0;
    while dot < |name| && name[dot] != DOT
      invariant 0 <= dot <= |name| && forall k | 0 <= k < dot :: name[k] != DOT
    {
      dot := dot + 1;
    }
    assert dot == BaseLength(name);
    var nameLength := if dot > 8 then 8 else dot;
    CopyPart(name, 0, s, 0, nameLength);
    if dot < |name| {
      var rest := |name| - (dot + 1);
      CopyPart(name, dot + 1, s, 8, if rest > 3 then 3 else rest);
    }
    ghost var plain := s[..];
    for i := 0 to 11
      invariant forall k | 0 <= k < 11 :: s[k] == if k < i then Upper(plain[k]) else plain[k]
    {
      if 97 <= s[i] <= 122 {
        s[i] := s[i] - 32;
      }
    }
    short := s[..11];
  }

  /** The short form: eight characters of what is before the first dot and three of what is behind it. */
  lemma ShortForm(base: seq<Byte>, ext: seq<Byte>, short: seq<Byte>)
    requires DOT !in base && IsShortName(short, base + [DOT] + ext)
    ensures short == Padded(base, 8) + Padded(ext, 3)
  {
    var name, r := base + [DOT] + ext, Padded(base, 8) + Padded(ext, 3);
    FirstDot(base, ext);
    forall i | 0 <= i < 11 ensures short[i] == r[i] {
      if i >= 8 && i - 8 < |ext| { assert name[|base| + 1 + (i - 8)] == ext[i - 8]; }
    }
  }

  /** Without a dot the extension is blank. */
  lemma ShortFormNoDot(base: seq<Byte>, short: seq<Byte>)
    requires DOT !in base && IsShortName(short, base)
    ensures short == Padded(base, 8) + Padded([], 3)
  {
    assert BaseLength(base) == |base|;
    var r := Padded(base, 8) + Padded([], 3);
    assert forall i | 0 <= i < 11 :: short[i] == r[i];
  }

  lemma FirstDot(base: seq<Byte>, ext: seq<Byte>)
    requires DOT !in base
    ensures BaseLength(base + [DOT] + ext) == |base|
  {
    var name := base + [DOT] + ext;
    var n := BaseLength(name);
    assert name[|base|] == DOT;
    assert forall i | 0 <= i < |base| :: name[i] == base[i];
  }

  method CopyPart(src: seq<Byte>, from: nat, dst: array<Byte>, at: nat, n: nat)
    requires from + n <= |src| && at + n <= dst.Length
    modifies dst
    ensures forall k | 0 <= k < dst.Length :: dst[k] == if at <= k < at + n then src[from + (k - at)] else old(dst[k])
  {
    for i := 0 to n
      invariant forall k | 0 <= k < dst.Length ::
                  dst[k] == if at <= k < at + i then src[from + (k - at)] else old(dst[k])
    {
      dst[at + i] := src[from + i];
    }
  }

  // ---------- entries ----------

  predicate EndMark(e: seq<Byte>)
    requires |e| == DIRENT
  {
    e[0] == 0
  }

  /** A live entry with the short form of `name`; 0xE5 marks a deleted entry. */
  ghost predicate Matches(e: seq<Byte>, name: seq<Byte>)
    requires |e| == DIRENT
  {
    e[0] != 0xE5 && forall i | 0 <= i < 11 :: e[i] == ShortChar(name, i)
  }

  /** `at` is the offset of an entry of the directory bytes `dir`. */
  ghost predicate IsEntry(dir: seq<Byte>, at: int) {
    0 <= at && at % DIRENT == 0 && at + DIRENT <= |dir|
  }

  /** The entry at `at` neither ends the directory nor is the one looked for. */
  ghost predicate PassedOver(dir: seq<Byte>, name: seq<Byte>, at: int)
    requires IsEntry(dir, at)
  {
    !EndMark(dir[at..at + DIRENT]) && !Matches(dir[at..at + DIRENT], name)
  }

  ghost predicate AllPassed(dir: seq<Byte>, name: seq<Byte>, end: int) {
    forall p | IsEntry(dir, p) && p < end :: PassedOver(dir, name, p)
  }

  /** What a linear search finds: an entry that matches, with none before it that matches or ends the directory. */
  ghost predicate IsHit(dir: seq<Byte>, name: seq<Byte>, at: int) {
    && IsEntry(dir, at) && !EndMark(dir[at..at + DIRENT]) && Matches(dir[at..at + DIRENT], name)
    && AllPassed(dir, name, at)
  }

  /** The search stops at an end mark. */
  ghost predicate IsEnd(dir: seq<Byte>, name: seq<Byte>, at: int) {
    IsEntry(dir, at) && EndMark(dir[at..at + DIRENT]) && AllPassed(dir, name, at)
  }

  /** The linear search is deterministic: once it stops, no other entry is a hit. */
  lemma StopsOnce(dir: seq<Byte>, name: seq<Byte>, a: int, b: int)
    requires IsHit(dir, name, a) || IsEnd(dir, name, a)
    requires IsHit(dir, name, b) || IsEnd(dir, name, b)
    ensures a == b
  {
    if a < b {
      assert false;
    } else if b < a {
      assert false;
    }
  }

  datatype Scan = Hit(at: int) | End(at: int) | More | Unreadable

  /** The entry loop over one cluster, whose bytes are `dir`. */
  method ScanCluster(buffer: array<Byte>, c: int, short: seq<Byte>, ghost name: seq<Byte>, ghost dir: seq<Byte>)
    returns (r: Scan, entry: seq<Byte>)
    requires 0 <= c <= buffer.Length && c % DIRENT == 0 && buffer[..c] == dir
    requires IsShortName(short, name)
    ensures Finds(dir, name, r, 0, c) && !r.Unreadable?
    ensures r.Hit? ==> 0 <= r.at && r.at + DIRENT <= c && entry == dir[r.at..r.at + DIRENT]
  {
    entry := [];
    var i := 0;
    while i < c / DIRENT
      invariant 0 <= i <= c / DIRENT && AllPassed(dir, name, i * DIRENT)
    {
      var at := i * DIRENT;
      ghost var e := dir[at..at + DIRENT];
      EntryBytes(buffer[..], c, at, e);
      if buffer[at] == 0x00 {
        return End(at), entry;
      }
      if buffer[at] != 0xE5 {
        var same := SameName(buffer, at, short);
        if same {
          CutSlice(buffer[..], c, at, DIRENT);
          return Hit(at), buffer[at..at + DIRENT];
        }
      }
      assert PassedOver(dir, name, at);
      i := i + 1;
    }
    return More, entry;
  }

  lemma EntryBytes(bytes: seq<Byte>, c: nat, at: nat, e: seq<Byte>)
    requires at + DIRENT <= c <= |bytes| && e == bytes[..c][at..at + DIRENT]
    ensures forall k | 0 <= k < DIRENT :: e[k] == bytes[at + k]
  {
  }

  /** `memcmp` of the eleven name bytes. */
  method SameName(buffer: array<Byte>, at: int, short: seq<Byte>) returns (same: bool)
    requires 0 <= at && at + DIRENT <= buffer.Length && |short| == 11
    ensures same <==> forall i | 0 <= i < 11 :: buffer[at + i] == short[i]
  {
    var k := 0;
    while k < 11
      invariant 0 <= k <= 11 && forall i | 0 <= i < k :: buffer[at + i] == short[i]
    {
      if buffer[at + k] != short[k] {
        return false;
      }
      k := k + 1;
    }
    return true;
  }

  // ---------- the whole chain ----------

  /**
   `cs` is the cluster chain of a directory: the last cluster is followed by an end mark or by
   anything else that is not a data cluster.
   */
  ghost predicate IsDirChain(v: Volume, cs: seq<int>) {
    && IsPath(v, cs)
    && (var last := FatEntry(v, cs[|cs| - 1]); last >= END_OF_CHAIN || last >= v.layout.clusterCount + 2)
  }

  /** The bytes of a directory. */
  ghost function DirBytes(v: Volume, cs: seq<int>): (dir: seq<Byte>)
    requires ValidVolume(v) && IsDirChain(v, cs)
    ensures |dir| == Times(|cs|, v.layout.clusterSize)
  {
    PathIsStored(v, cs);
    ChainBytes(v, cs)
  }

  /** Every cluster of the directory from the first to the one that holds offset `at` can be read. */
  ghost predicate ReadableThrough(v: Volume, cs: seq<int>, at: int) {
    forall j: nat | j < |cs| && v.layout.clusterSize >= 0 && Times(j, v.layout.clusterSize) <= at ::
      ReadableCluster(v, cs[j])
  }

  /**
   What the search finds: the hit of a linear search, if no cluster before it or with it is unreadable
   and the bound on cluster numbers does not wrap.
   */
  ghost predicate Found(v: Volume, cs: seq<int>, name: seq<Byte>, at: int)
    requires ValidVolume(v) && IsDirChain(v, cs)
  {
    Searchable(v.layout) && IsHit(DirBytes(v, cs), name, at) && ReadableThrough(v, cs, at)
  }

  /** An entry of one cluster is an entry of the directory. */
  lemma LiftEntry(all: seq<Byte>, part: seq<Byte>, from: nat, name: seq<Byte>, p: int)
    requires from + |part| <= |all| && part == all[from..from + |part|] && from % DIRENT == 0 && IsEntry(part, p)
    ensures IsEntry(all, from + p) && all[from + p..from + p + DIRENT] == part[p..p + DIRENT]
    ensures PassedOver(part, name, p) <==> PassedOver(all, name, from + p)
  {
    PartOfSlice(all, part, from, |part|, p, DIRENT);
  }

  /** Entries of one cluster are entries of the directory. */
  lemma LiftPassed(all: seq<Byte>, part: seq<Byte>, from: nat, name: seq<Byte>, end: int)
    requires from + |part| <= |all| && part == all[from..from + |part|]
    requires from % DIRENT == 0 && |part| % DIRENT == 0 && end <= |part|
    requires AllPassed(all, name, from) && AllPassed(part, name, end)
    ensures AllPassed(all, name, from + end)
  {
    forall p | IsEntry(all, p) && p < from + end
      ensures PassedOver(all, name, p)
    {
      if p >= from {
        EntryInPart(from, |part|, p);
        assert IsEntry(part, p - from);
        LiftEntry(all, part, from, name, p - from);
      }
    }
  }

  lemma EntryInPart(from: int, n: int, p: int)
    requires from % DIRENT == 0 && n % DIRENT == 0 && p % DIRENT == 0 && from <= p < from + n
    ensures (p - from) % DIRENT == 0 && p - from + DIRENT <= n
  {
  }

  /** What a scan says about the entries `bytes`. */
  ghost predicate Finds(bytes: seq<Byte>, name: seq<Byte>, r: Scan, from: nat, end: nat) {
    match r
    case Hit(at) => IsHit(bytes, name, from + at)
    case End(at) => IsEnd(bytes, name, from + at)
    case More => AllPassed(bytes, name, end)
    case Unreadable => true
  }

  lemma LiftScan(all: seq<Byte>, part: seq<Byte>, from: nat, name: seq<Byte>, r: Scan)
    requires from + |part| <= |all| && part == all[from..from + |part|]
    requires from % DIRENT == 0 && |part| % DIRENT == 0 && AllPassed(all, name, from)
    requires Finds(part, name, r, 0, |part|)
    ensures Finds(all, name, r, from, from + |part|)
    ensures r.Hit? ==> all[from + r.at..from + r.at + DIRENT] == part[r.at..r.at + DIRENT]
  {
    if r.More? {
      LiftPassed(all, part, from, name, |part|);
    } else if !r.Unreadable? {
      LiftPassed(all, part, from, name, r.at);
      LiftEntry(all, part, from, name, r.at);
    }
  }

  lemma {:induction false} TimesAligned(j: nat, c: nat)
    requires c % DIRENT == 0
    ensures Times(j, c) % DIRENT == 0
  {
    if j > 0 { TimesAligned(j - 1, c); }
  }

  /** What a scan of cluster `j` of the directory says about the directory. */
  ghost predicate Scanned(v: Volume, cs: seq<int>, j: nat, name: seq<Byte>, scan: Scan, entry: seq<Byte>)
    requires ValidVolume(v) && IsDirChain(v, cs) && j < |cs|
  {
    var c, dir := v.layout.clusterSize, DirBytes(v, cs);
    && (scan.Unreadable? <==> !ReadableCluster(v, cs[j]))
    && Finds(dir, name, scan, Times(j, c), Times(j + 1, c))
    && (scan.Hit? ==> LiesAt(dir, Times(j, c), c, scan.at, entry))
  }

  /** `entry` lies at `at` in the part of `dir` from `from` on that is `c` bytes long. */
  ghost predicate LiesAt(dir: seq<Byte>, from: int, c: int, at: int, entry: seq<Byte>) {
    0 <= at < c && 0 <= from && from + at + DIRENT <= |dir| && entry == dir[from + at..from + at + DIRENT]
  }

  lemma {:induction false} ScanInChain(v: Volume, cs: seq<int>, j: nat, name: seq<Byte>, r: Scan, entry: seq<Byte>)
    requires ValidVolume(v) && IsDirChain(v, cs) && j < |cs| && ReadableCluster(v, cs[j]) && !r.Unreadable?
    requires AllPassed(DirBytes(v, cs), name, Times(j, v.layout.clusterSize))
    requires Finds(ClusterBytes(v, cs[j]), name, r, 0, v.layout.clusterSize)
    requires r.Hit? ==> 0 <= r.at && r.at + DIRENT <= v.layout.clusterSize
    requires r.Hit? ==> entry == ClusterBytes(v, cs[j])[r.at..r.at + DIRENT]
    ensures Scanned(v, cs, j, name, r, entry)
  {
    var c, dir, part := v.layout.clusterSize, DirBytes(v, cs), ClusterBytes(v, cs[j]);
    var from := Times(j, c);
    ClusterInDir(v, cs, j);
    ClusterAligned(v);
    TimesAligned(j, c);
    assert |part| == c;
    LiftScan(dir, part, from, name, r);
    assert Times(j + 1, c) == from + c;
  }

  lemma {:induction false} ClusterInDir(v: Volume, cs: seq<int>, j: nat)
    requires ValidVolume(v) && IsDirChain(v, cs) && j < |cs| && StoredCluster(v, cs[j])
    ensures var c := v.layout.clusterSize;
            && Times(j, c) + c <= |DirBytes(v, cs)|
            && DirBytes(v, cs)[Times(j, c)..Times(j, c) + c] == ClusterBytes(v, cs[j])
  {
    PathIsStored(v, cs);
    ChainSlice(v, cs, j);
  }

  lemma ClusterAligned(v: Volume)
    requires ValidVolume(v)
    ensures v.layout.clusterSize % DIRENT == 0
  {
  }

  /** One turn of the cluster loop: reads cluster `j` of the directory and scans it. */
  method SearchCluster(v: Volume, cluster: int, short: seq<Byte>,
                       ghost name: seq<Byte>, ghost cs: seq<int>, ghost j: nat)
    returns (scan: Scan, entry: seq<Byte>)
    requires ValidVolume(v) && IsDirChain(v, cs) && j < |cs| && cluster == cs[j]
    requires IsShortName(short, name)
    requires AllPassed(DirBytes(v, cs), name, Times(j, v.layout.clusterSize))
    ensures Scanned(v, cs, j, name, scan, entry)
  {
    scan, entry := Unreadable, [];
    var ok, buffer := FetchCluster(v, cluster);
    if ok {
      scan, entry := ScanCluster(buffer, v.layout.clusterSize, short, name, ClusterBytes(v, cluster));
      ScanInChain(v, cs, j, name, scan, entry);
    }
  }

  /** The clusters before the `j`-th can be read. */
  ghost predicate ReadableUpTo(v: Volume, cs: seq<int>, j: nat) {
    forall k | 0 <= k < j && k < |cs| :: ReadableCluster(v, cs[k])
  }

  /** `r` is the entry that is found, or None if none is. */
  ghost predicate IsResult(v: Volume, cs: seq<int>, name: seq<Byte>, r: Option<seq<Byte>>)
    requires ValidVolume(v) && IsDirChain(v, cs)
  {
    && (r.Some? <==> exists at :: Found(v, cs, name, at))
    && forall at | Found(v, cs, name, at) :: r == Some(DirBytes(v, cs)[at..at + DIRENT])
  }

  /** One turn of the cluster loop up to the step to the next cluster: the result, if the search ends here. */
  method Visit(v: Volume, current: int, short: seq<Byte>, ghost name: seq<Byte>, ghost cs: seq<int>, ghost j: nat)
    returns (done: bool, r: Option<seq<Byte>>)
    requires ValidVolume(v) && IsDirChain(v, cs) && j < |cs| && current == cs[j]
    requires IsShortName(short, name)
    requires Passed(v, cs, name, j) && Searchable(v.layout)
    ensures done ==> IsResult(v, cs, name, r)
    ensures !done ==> r == None && Passed(v, cs, name, j + 1)
  {
    var scan, entry := SearchCluster(v, current, short, name, cs, j);
    match scan
    case Unreadable =>
      NotFoundBehind(v, cs, name, j);
      return true, None;
    case End(at) =>
      NotFoundAfterEnd(v, cs, name, Times(j, v.layout.clusterSize) + at);
      return true, None;
    case Hit(at) =>
      FoundHere(v, cs, name, j, at);
      return true, Some(entry);
    case More =>
      return false, None;
  }

  /** The search was not stopped in the clusters before the `j`-th. */
  ghost predicate Passed(v: Volume, cs: seq<int>, name: seq<Byte>, j: nat)
    requires ValidVolume(v) && IsDirChain(v, cs)
  {
    j <= |cs| && AllPassed(DirBytes(v, cs), name, Times(j, v.layout.clusterSize)) && ReadableUpTo(v, cs, j)
  }

  /** The cluster loop. */
  method Search(v: Volume, dirCluster: int, short: seq<Byte>, ghost name: seq<Byte>, ghost cs: seq<int>)
    returns (r: Option<seq<Byte>>)
    requires ValidVolume(v) && IsDirChain(v, cs) && dirCluster == cs[0]
    requires IsShortName(short, name)
    ensures IsResult(v, cs, name, r)
  {
    var current := dirCluster;
    ghost var j := 0;
    SearchStarts(v, cs, name);
    r := None;
    var done := false;
    while !done && current < (v.layout.clusterCount + 2) % TWO32
      invariant done ==> IsResult(v, cs, name, r)
      invariant !done ==> r == None && Passed(v, cs, name, j) && Reaches(v, cs, j, current)
      decreases !done, |cs| - j
    {
      done, r := Visit(v, current, short, name, cs, j);
      if !done {
        NextInDir(v, cs, j);
        current := FatEntry(v, current);
        j := j + 1;
        if current >= END_OF_CHAIN {
          NotFoundAtAll(v, cs, name);
          done := true;
        }
      }
    }
    if !done { NothingFound(v, cs, name, j, current); }
  }

  /** The search has come to `current`, which is cluster `j` of the chain or no cluster that it looks at. */
  ghost predicate Reaches(v: Volume, cs: seq<int>, j: nat, current: int) {
    && (j < |cs| ==> current == cs[j] && (current < SearchLimit(v.layout) <==> Searchable(v.layout)))
    && (j >= |cs| ==> Searchable(v.layout) && current >= SearchLimit(v.layout))
  }

  lemma SearchStarts(v: Volume, cs: seq<int>, name: seq<Byte>)
    requires ValidVolume(v) && IsDirChain(v, cs)
    ensures Passed(v, cs, name, 0) && Reaches(v, cs, 0, cs[0])
  {
    assert InVolume(v, cs[0]);
    SearchedIff(v.layout, cs[0]);
  }

  /** A search that does not go on has nothing left to find. */
  lemma NothingFound(v: Volume, cs: seq<int>, name: seq<Byte>, j: nat, current: int)
    requires ValidVolume(v) && IsDirChain(v, cs) && Passed(v, cs, name, j) && Reaches(v, cs, j, current)
    requires current >= SearchLimit(v.layout)
    ensures forall at :: !Found(v, cs, name, at)
  {
    if Searchable(v.layout) { NotFoundAtAll(v, cs, name); }
  }

  /** Where the FAT leads from cluster `j`. */
  lemma NextInDir(v: Volume, cs: seq<int>, j: nat)
    requires ValidVolume(v) && IsDirChain(v, cs) && j < |cs| && Searchable(v.layout)
    ensures HasEntry(v, cs[j])
    ensures var next := FatEntry(v, cs[j]);
            if next >= END_OF_CHAIN then j + 1 == |cs| else Reaches(v, cs, j + 1, next)
  {
    NextOnChain(v, cs, j);
    if j + 1 < |cs| { SearchedIff(v.layout, cs[j + 1]); }
  }

  lemma NextOnChain(v: Volume, cs: seq<int>, j: nat)
    requires IsDirChain(v, cs) && j < |cs|
    ensures HasEntry(v, cs[j])
    ensures var next := FatEntry(v, cs[j]);
            if j + 1 < |cs| then next == cs[j + 1] && 2 <= next < v.layout.clusterCount + 2 && next < END_OF_CHAIN
            else next >= END_OF_CHAIN || next >= v.layout.clusterCount + 2
  {
    assert InVolume(v, cs[j]);
    if j + 1 < |cs| { assert Follows(v, cs, j + 1) && InVolume(v, cs[j + 1]); }
  }

  /**
   `lookup_file_in_dir`: the nested loops over clusters and entries find exactly what a linear
   search over the whole directory finds, as long as the clusters on the way can be read; where the
   bound on cluster numbers wraps they find nothing.
   */
  method Lookup(v: Volume, dirCluster: int, name: seq<Byte>, ghost cs: seq<int>) returns (r: Option<seq<Byte>>)
    requires ValidVolume(v) && IsDirChain(v, cs) && dirCluster == cs[0]
    ensures r.Some? <==> exists at :: Found(v, cs, name, at)
    ensures forall at | Found(v, cs, name, at) :: r == Some(DirBytes(v, cs)[at..at + DIRENT])
  {
    var short := ShortName(name);
    r := Search(v, dirCluster, short, name, cs);
  }

  /** Nothing is found at or behind a cluster that cannot be read. */
  lemma NotFoundBehind(v: Volume, cs: seq<int>, name: seq<Byte>, j: nat)
    requires ValidVolume(v) && IsDirChain(v, cs) && j < |cs| && !ReadableCluster(v, cs[j])
    requires AllPassed(DirBytes(v, cs), name, Times(j, v.layout.clusterSize))
    ensures forall at :: !Found(v, cs, name, at)
  {
    forall at ensures !Found(v, cs, name, at) {
      assert IsHit(DirBytes(v, cs), name, at) ==> Times(j, v.layout.clusterSize) <= at;
    }
  }

  /** A hit in a cluster that was read, behind clusters that were read, is what is found. */
  lemma FoundHere(v: Volume, cs: seq<int>, name: seq<Byte>, j: nat, offset: nat)
    requires ValidVolume(v) && IsDirChain(v, cs) && j < |cs| && ReadableUpTo(v, cs, j) && ReadableCluster(v, cs[j])
    requires Searchable(v.layout)
    requires offset < v.layout.clusterSize && IsHit(DirBytes(v, cs), name, Times(j, v.layout.clusterSize) + offset)
    ensures Found(v, cs, name, Times(j, v.layout.clusterSize) + offset)
    ensures forall at | Found(v, cs, name, at) :: at == Times(j, v.layout.clusterSize) + offset
  {
    var c := v.layout.clusterSize;
    var at := Times(j, c) + offset;
    forall k: nat | k < |cs| && Times(k, c) <= at ensures ReadableCluster(v, cs[k]) {
      if j < k { TimesMonotone(j, k, c); }
    }
    OnlyHit(DirBytes(v, cs), name, at);
  }

  lemma NotFoundAfterEnd(v: Volume, cs: seq<int>, name: seq<Byte>, end: int)
    requires ValidVolume(v) && IsDirChain(v, cs) && IsEnd(DirBytes(v, cs), name, end)
    ensures forall at :: !Found(v, cs, name, at)
  {
    forall at ensures !Found(v, cs, name, at) {
      if IsHit(DirBytes(v, cs), name, at) { StopsOnce(DirBytes(v, cs), name, end, at); }
    }
  }

  lemma OnlyHit(dir: seq<Byte>, name: seq<Byte>, at: int)
    requires IsHit(dir, name, at)
    ensures forall b | IsHit(dir, name, b) :: b == at
  {
    forall b | IsHit(dir, name, b) ensures b == at { StopsOnce(dir, name, at, b); }
  }

  lemma NotFoundAtAll(v: Volume, cs: seq<int>, name: seq<Byte>)
    requires ValidVolume(v) && IsDirChain(v, cs)
    requires AllPassed(DirBytes(v, cs), name, Times(|cs|, v.layout.clusterSize))
    ensures forall at :: !Found(v, cs, name, at)
  {
    forall at ensures !Found(v, cs, name, at) {
      assert IsEntry(DirBytes(v, cs), at) ==> PassedOver(DirBytes(v, cs), name, at);
    }
  }

  // ---------- opening ----------

  function EntrySize(e: seq<Byte>): int
    requires |e| == DIRENT
  {
    Word32(e, 28)
  }

  /** The high and the low half of the first cluster's number. */
  function EntryCluster(e: seq<Byte>): int
    requires |e| == DIRENT
  {
    0x1_0000 * Word16(e, 20) + Word16(e, 26)
  }

  /** A directory entry as the structure of fat.h lays it out. */
  datatype Entry = Entry(name: seq<Byte>, attributes: seq<Byte>, created: int, createdOn: int, accessed: int,
                         cluster: int, written: int, writtenOn: int, size: int)

  ghost predicate ValidEntry(e: Entry) {
    |e.name| == 11 && |e.attributes| == 3 && 0 <= e.cluster < TWO32 && 0 <= e.size < TWO32
  }

  // The fields one after the other, in the order of their declaration

  function EntryFront(e: Entry): (r: seq<Byte>)
    ensures |r| == |e.name| + |e.attributes| + 6
  {
    e.name + e.attributes + Bytes16(e.created) + (Bytes16(e.createdOn) + Bytes16(e.accessed))
  }

  function EntryBack(e: Entry): (r: seq<Byte>)
    ensures |r| == 12
  {
    Bytes16(e.cluster / 0x1_0000) + (Bytes16(e.written) + Bytes16(e.writtenOn)) +
    Bytes16(e.cluster % 0x1_0000) + Bytes32(e.size)
  }

  /** Reading an entry gives the name, the first cluster and the size it was made of. */
  lemma EntryRoundTrip(e: Entry)
    requires ValidEntry(e)
    ensures |EntryFront(e) + EntryBack(e)| == DIRENT && (EntryFront(e) + EntryBack(e))[..11] == e.name
    ensures EntryCluster(EntryFront(e) + EntryBack(e)) == e.cluster
    ensures EntrySize(EntryFront(e) + EntryBack(e)) == e.size
  {
    var front, back := EntryFront(e), EntryBack(e);
    FourFields(front, Bytes16(e.cluster / 0x1_0000), Bytes16(e.written) + Bytes16(e.writtenOn),
               Bytes16(e.cluster % 0x1_0000), Bytes32(e.size), []);
    assert front + back + [] == front + back;
    assert (front + back)[..11] == front[..11] == e.name;
  }

  /**
   `fat_open` on a FAT32 volume: finds the name in the root directory and sets the file to the
   start of the chain that its entry names.  The position is left as the caller set it, to 0.
   */
  method Open(v: Volume, file: File, path: seq<Byte>, ghost root: seq<int>) returns (ok: bool)
    requires ValidVolume(v) && v.layout.fatType.Fat32? && IsDirChain(v, root) && v.boot.rootCluster == root[0]
    requires file.position == 0
    modifies file`size, file`firstCluster, file`currentCluster
    ensures ok <==> exists at :: Found(v, root, path, at)
    ensures !ok ==> file.size == old(file.size) && file.firstCluster == old(file.firstCluster)
    ensures !ok ==> file.currentCluster == old(file.currentCluster)
    ensures forall at | Found(v, root, path, at) ::
              var e := DirBytes(v, root)[at..at + DIRENT];
              file.size == EntrySize(e) && file.firstCluster == EntryCluster(e)
    ensures ok ==> forall cs | IsFile(v, cs, file.size) && (file.size > 0 ==> cs[0] == file.firstCluster) ::
                     file.Valid(v, cs)
  {
    var found := Lookup(v, v.boot.rootCluster, path, root);
    if found.None? {
      return false;
    }
    file.size := EntrySize(found.value);
    file.firstCluster := EntryCluster(found.value);
    file.currentCluster := file.firstCluster;
    assert ClusterNumber(0, v.layout.clusterSize) == 0;
    return true;
  }

  // ---------- mount, open and read together ----------

  /** The device has the boot sector and the FAT. */
  ghost predicate HasMetadata(disk: Disk) {
    && HasSector(disk, 0, 0) && |disk.bytes[0]| == SECTOR
    && var b := BootOf(disk.bytes[0]); StoredRun(disk, b.reservedSectors, FatSectors(b))
  }

  /** The volume on a disk. */
  ghost function VolumeOf(disk: Disk): Volume
    requires ValidDisk(disk) && Mountable(disk) && HasMetadata(disk) && CanRead(disk, 0, 0)
  {
    var b := BootOf(disk.bytes[0]);
    Volume(b, Mounted(b), SectorRun(disk, b.reservedSectors, FatSectors(b)), disk)
  }

  /** The boot sector and the FAT can be read. */
  ghost predicate CanMount(disk: Disk) {
    && HasMetadata(disk) && CanRead(disk, 0, 0)
    && var b := BootOf(disk.bytes[0]); ReadableRun(disk, b.reservedSectors, FatSectors(b))
  }

  /** A FAT32 volume with clusters of at most eight sectors whose root directory is the chain `root`. */
  ghost predicate HasRoot(v: Volume, root: seq<int>) {
    && ValidVolume(v) && v.layout.fatType.Fat32? && IsDirChain(v, root) && v.boot.rootCluster == root[0]
  }

  /** The entry at `at` names the file of `size` bytes with the chain `cs`. */
  ghost predicate Names(v: Volume, root: seq<int>, at: int, cs: seq<int>, size: int)
    requires HasRoot(v, root)
  {
    && IsEntry(DirBytes(v, root), at)
    && var e := DirBytes(v, root)[at..at + DIRENT];
    && size == EntrySize(e) && IsFile(v, cs, size) && (size > 0 ==> cs[0] == EntryCluster(e))
  }

  /**
   The first bytes of a file, from the disk alone: the volume that is opened and read is the one that was
   mounted.  Byte `k` comes from the sector that the boot sector's numbers and the file's chain say.
   */
  method ReadFile(disk: Disk, gotBuffer: bool, path: seq<Byte>, want: nat, buffer: array<Byte>,
                  ghost root: seq<int>, ghost cs: seq<int>, ghost size: int)
    returns (r: Option<nat>)
    requires ValidDisk(disk) && Mountable(disk) && want <= buffer.Length
    requires CanMount(disk) ==>
               && BootOf(disk.bytes[0]).sectorsPerCluster <= 8 && HasRoot(VolumeOf(disk), root)
               && forall at | Found(VolumeOf(disk), root, path, at) :: Names(VolumeOf(disk), root, at, cs, size)
    modifies buffer
    ensures r.Some? <==>
              CanMount(disk) && gotBuffer && exists at :: Found(VolumeOf(disk), root, path, at)
    ensures r.Some? ==>
              && CanMount(disk) && ReadTo(VolumeOf(disk), cs, size, 0, want, r.value) && r.value <= want
              && forall k | 0 <= k < r.value :: FromDisk(disk, cs, k, buffer[k])
  {
    var mounted := Mount(disk, gotBuffer);
    if mounted.None? {
      return None;
    }
    assert mounted.value == VolumeOf(disk);
    r := ReadMounted(mounted.value, path, want, buffer, root, cs, size);
  }

  /** `byte` is byte `k` of the file with the chain `cs`, taken from its sector. */
  ghost predicate FromDisk(disk: Disk, cs: seq<int>, k: int, byte: Byte)
    requires CanRead(disk, 0, 0) && |disk.bytes[0]| == SECTOR
  {
    var b := BootOf(disk.bytes[0]);
    && 0 <= k && 0 < b.sectorsPerCluster && 0 <= k / (512 * b.sectorsPerCluster) < |cs|
    && b.bytesPerSector > 0
    && var s := SectorOf(b, Mounted(b), cs, k);
    && s in disk.bytes && k % (512 * b.sectorsPerCluster) % 512 < |disk.bytes[s]|
    && byte == disk.bytes[s][k % (512 * b.sectorsPerCluster) % 512]
  }

  /** Opening and reading on a mounted volume. */
  method ReadMounted(v: Volume, path: seq<Byte>, want: nat, buffer: array<Byte>,
                     ghost root: seq<int>, ghost cs: seq<int>, ghost size: int)
    returns (r: Option<nat>)
    requires want <= buffer.Length && HasRoot(v, root) && CanRead(v.disk, 0, 0) && |v.disk.bytes[0]| == SECTOR
    requires v.boot == BootOf(v.disk.bytes[0]) && v.layout == Mounted(v.boot)
    requires forall at | Found(v, root, path, at) :: Names(v, root, at, cs, size)
    modifies buffer
    ensures r.Some? <==> exists at :: Found(v, root, path, at)
    ensures r.Some? ==>
              && ReadTo(v, cs, size, 0, want, r.value) && r.value <= want
              && forall k | 0 <= k < r.value :: FromDisk(v.disk, cs, k, buffer[k])
  {
    var file := new File();
    var ok := Open(v, file, path, root);
    if !ok {
      return None;
    }
    ghost var at :| Found(v, root, path, at);
    assert Names(v, root, at, cs, size);
    var n := file.Read(v, want, buffer, cs);
    forall k | 0 <= k < n ensures FromDisk(v.disk, cs, k, buffer[k]) {
      assert buffer[k] == buffer[..n][k] == FileBytes(v, cs, size)[k];
      FileByte(v, cs, size, k);
    }
    return Some(n);
  }
}
