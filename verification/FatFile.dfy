/**
 Reading and seeking in an open file (kernel/fs/fat.c:268-354): a cursor made of a byte
 position and the cluster that holds it.
 */
module FatFile {
  import opened Types
  import opened FatLayout
  import opened FatVolume

  function Min(a: int, b: int): int { if a <= b then a else b }

  /** The number of the cluster, counted in clusters of `c` bytes, that holds byte `pos`. */
  function ClusterNumber(pos: nat, c: nat): (j: nat)
    requires c > 0
    ensures Times(j, c) <= pos < Times(j, c) + c
  {
    if pos < c then 0 else ClusterNumber(pos - c, c) + 1
  }

  /** It is the quotient, and the offset in it the remainder. */
  lemma ClusterNumberIsQuotient(pos: nat, c: nat)
    requires c > 0
    ensures ClusterNumber(pos, c) == pos / c && pos - Times(ClusterNumber(pos, c), c) == pos % c
  {
    var j := ClusterNumber(pos, c);
    TimesIsProduct(j, c);
    QuotientUnique(pos, c, j, pos - j * c);
  }

  lemma QuotientUnique(p: int, c: int, j: int, o: int)
    requires p == j * c + o && 0 <= o < c
    ensures p / c == j && p % c == o
  {
    assert p == p / c * c + p % c;
    if p / c < j {
      MulMonotone(p / c + 1, j, c);
    } else if p / c > j {
      MulMonotone(j + 1, p / c, c);
    }
  }

  lemma ClusterNumberUnique(pos: nat, c: nat, j: nat)
    requires c > 0 && Times(j, c) <= pos < Times(j, c) + c
    ensures ClusterNumber(pos, c) == j
  {
    var k := ClusterNumber(pos, c);
    if k < j { TimesMonotone(k, j, c); } else if j < k { TimesMonotone(j, k, c); }
  }

  /** Index in a chain of `n` clusters of the one a cursor at `pos` refers to: past the end it stays on the last. */
  function ClusterIndex(pos: nat, c: nat, n: nat): (j: nat)
    requires c > 0 && n > 0
    ensures j < n
  {
    Min(ClusterNumber(pos, c), n - 1)
  }

  lemma NumberInChain(pos: nat, c: nat, n: nat)
    requires c > 0 && pos < Times(n, c)
    ensures ClusterNumber(pos, c) < n
  {
    var j := ClusterNumber(pos, c);
    if j >= n { TimesMonotone(n, j, c); }
  }

  lemma PartOfSlice<T>(all: seq<T>, part: seq<T>, from: nat, c: nat, off: nat, k: nat)
    requires from + c <= |all| && off + k <= c && part == all[from..from + c]
    ensures all[from + off..from + off + k] == part[off..off + k]
  {
    var l, r := all[from + off..from + off + k], part[off..off + k];
    forall i | 0 <= i < k ensures l[i] == r[i] {
      assert part[off + i] == all[from + (off + i)];
    }
  }

  /** The bytes of the chain at an offset in cluster `j` are those of the cluster at that offset. */
  lemma {:induction false} ChunkBytes(v: Volume, cs: seq<int>, j: nat, off: nat, k: nat)
    requires ValidVolume(v) && AllStored(v, cs)
    requires j < |cs| && off + k <= v.layout.clusterSize
    ensures var at := Times(j, v.layout.clusterSize) + off;
            && at + k <= Times(|cs|, v.layout.clusterSize)
            && ChainBytes(v, cs)[at..at + k] == ClusterBytes(v, cs[j])[off..off + k]
  {
    var c := v.layout.clusterSize;
    ChainSlice(v, cs, j);
    PartOfSlice(ChainBytes(v, cs), ClusterBytes(v, cs[j]), Times(j, c), c, off, k);
  }

  /** Where the cursor has to be after `k` more bytes of the current cluster. */
  lemma Advance(pos: nat, c: nat, k: nat)
    requires c > 0 && pos - Times(ClusterNumber(pos, c), c) + k <= c
    ensures var j := ClusterNumber(pos, c);
            ClusterNumber(pos + k, c) == if pos - Times(j, c) + k < c then j else j + 1
  {
    var j := ClusterNumber(pos, c);
    ClusterNumberUnique(pos + k, c, if pos - Times(j, c) + k < c then j else j + 1);
  }

  /** `cs` is the chain of a file of `size` bytes. */
  ghost predicate IsFile(v: Volume, cs: seq<int>, size: int) {
    ValidVolume(v) && 0 <= size && (size > 0 ==> IsChain(v, cs) && size <= Times(|cs|, v.layout.clusterSize))
  }

  /** The flat file: the bytes of its clusters one after the other, cut at its size. */
  ghost function FileBytes(v: Volume, cs: seq<int>, size: int): (r: seq<Byte>)
    requires IsFile(v, cs, size)
    ensures |r| == size
  {
    if size == 0 then [] else
      PathIsStored(v, cs);
      ChainBytes(v, cs)[..size]
  }

  /** The cluster a cursor at `pos` refers to. */
  ghost function CursorCluster(v: Volume, cs: seq<int>, pos: nat): int
    requires v.layout.clusterSize > 0 && cs != []
  {
    cs[ClusterIndex(pos, v.layout.clusterSize, |cs|)]
  }

  /** The file bytes at `pos` are those of its cluster at the offset. */
  lemma CurrentBytes(v: Volume, cs: seq<int>, size: int, pos: nat, k: nat)
    requires IsFile(v, cs, size) && pos < size && pos + k <= size
    requires pos % v.layout.clusterSize + k <= v.layout.clusterSize
    ensures InVolume(v, CursorCluster(v, cs, pos))
    ensures var off := pos % v.layout.clusterSize;
            FileBytes(v, cs, size)[pos..pos + k] == ClusterBytes(v, CursorCluster(v, cs, pos))[off..off + k]
  {
    var c := v.layout.clusterSize;
    var j := ClusterNumber(pos, c);
    PathIsStored(v, cs);
    ClusterNumberIsQuotient(pos, c);
    NumberInChain(pos, c, |cs|);
    assert InVolume(v, cs[j]);
    ChunkBytes(v, cs, j, pos % c, k);
    CutSlice(ChainBytes(v, cs), size, pos, k);
  }

  lemma CutSlice<T>(all: seq<T>, size: nat, pos: nat, k: nat)
    requires pos + k <= size <= |all|
    ensures all[..size][pos..pos + k] == all[pos..pos + k]
  {
  }

  /** Where byte `k` of a file lies on the disk, in a volume of `spc` 512-byte sectors per cluster. */
  ghost function SectorOf(b: Boot, l: Layout, cs: seq<int>, k: nat): int
    requires 0 < b.sectorsPerCluster && 0 <= k / (512 * b.sectorsPerCluster) < |cs|
  {
    SectorFrom(FirstSector(b, l, cs[k / (512 * b.sectorsPerCluster)]), k % (512 * b.sectorsPerCluster))
  }

  /** The sector of a cluster that holds the byte at `offset`. */
  function SectorFrom(first: int, offset: int): int {
    (first + offset / 512) % TWO32
  }

  /** Byte `k` of a file is on the disk, in the sector of its cluster that its offset says. */
  lemma FileByte(v: Volume, cs: seq<int>, size: int, k: nat)
    requires IsFile(v, cs, size) && k < size
    ensures 0 <= k / (512 * v.boot.sectorsPerCluster) < |cs|
    ensures var s, c := SectorOf(v.boot, v.layout, cs, k), 512 * v.boot.sectorsPerCluster;
            s in v.disk.bytes && FileBytes(v, cs, size)[k] == v.disk.bytes[s][k % c % 512]
  {
    var c := v.layout.clusterSize;
    assert c == 512 * v.boot.sectorsPerCluster;
    ClusterNumberIsQuotient(k, c);
    NumberInChain(k, c, |cs|);
    ClusterByte(v, cs, size, k, c, k % c);
  }

  lemma ClusterByte(v: Volume, cs: seq<int>, size: int, k: nat, c: int, offset: nat)
    requires IsFile(v, cs, size) && k < size && c == v.layout.clusterSize && offset == k % c < c
    ensures var s := SectorFrom(FirstSector(v.boot, v.layout, CursorCluster(v, cs, k)), offset);
            s in v.disk.bytes && FileBytes(v, cs, size)[k] == v.disk.bytes[s][offset % 512]
  {
    var one: nat := 1;
    CurrentBytes(v, cs, size, k, one);
    var cluster := CursorCluster(v, cs, k);
    var bytes := ClusterBytes(v, cluster);
    assert FileBytes(v, cs, size)[k] == FileBytes(v, cs, size)[k..k + one][0];
    assert bytes[offset] == bytes[offset..offset + one][0];
    SectorRunByte(v.disk, FirstSector(v.boot, v.layout, cluster), v.boot.sectorsPerCluster, offset);
    assert HasSector(v.disk, FirstSector(v.boot, v.layout, cluster), offset / SECTOR);
  }

  // ---------- how far a read gets ----------

  /** The cluster that holds byte `pos` can be read. */
  ghost predicate ReadableAt(v: Volume, cs: seq<int>, pos: nat) {
    v.layout.clusterSize > 0 && cs != [] && ReadableCluster(v, CursorCluster(v, cs, pos))
  }

  ghost predicate ReadableFrom(v: Volume, cs: seq<int>, a: nat, b: nat) {
    forall q: nat | a <= q < b :: ReadableAt(v, cs, q)
  }

  /**
   A read of `want` bytes at `start` gets to `end`: to the wanted byte or the end of the file, or to
   the first byte on the way that is in a cluster that cannot be read.
   */
  ghost predicate ReadTo(v: Volume, cs: seq<int>, size: int, start: nat, want: nat, end: nat) {
    && start <= end <= Min(start + want, size) && ReadableFrom(v, cs, start, end)
    && (end < Min(start + want, size) ==> !ReadableAt(v, cs, end))
  }

  /** How far it gets is determined. */
  lemma ReadToUnique(v: Volume, cs: seq<int>, size: int, start: nat, want: nat, a: nat, b: nat)
    requires ReadTo(v, cs, size, start, want, a) && ReadTo(v, cs, size, start, want, b)
    ensures a == b
  {
    assert a < b ==> ReadableAt(v, cs, a);
    assert b < a ==> ReadableAt(v, cs, b);
  }

  /** Two reads one after the other get as far as one read of both. */
  lemma ReadToTwice(v: Volume, cs: seq<int>, size: int, start: nat, a: nat, mid: nat, b: nat, end: nat)
    requires ReadTo(v, cs, size, start, a, mid) && ReadTo(v, cs, size, mid, b, end)
    ensures ReadTo(v, cs, size, start, a + b, end)
  {
    assert mid < end ==> ReadableAt(v, cs, mid);
    forall q: nat | start <= q < end ensures ReadableAt(v, cs, q) {}
  }

  /** What is copied out of one cluster is in that cluster. */
  lemma ChunkReadable(v: Volume, cs: seq<int>, pos: nat, k: nat)
    requires v.layout.clusterSize > 0 && cs != [] && ReadableCluster(v, CursorCluster(v, cs, pos))
    requires pos % v.layout.clusterSize + k <= v.layout.clusterSize
    ensures ReadableFrom(v, cs, pos, pos + k)
  {
    var c := v.layout.clusterSize;
    ClusterNumberIsQuotient(pos, c);
    forall q: nat | pos <= q < pos + k ensures ReadableAt(v, cs, q) {
      ClusterNumberUnique(q, c, ClusterNumber(pos, c));
    }
  }

  /** `vfs_file` and `fat_file` together. */
  class File {
    var position: int
    var size: int
    var firstCluster: int
    var currentCluster: int

    constructor ()
      ensures position == size == firstCluster == currentCluster == 0
    {
      position, size, firstCluster, currentCluster := 0, 0, 0, 0;
    }

    /** The file is the chain `cs`, long enough for its size, and the cursor is on the cluster of the position. */
    ghost predicate Valid(v: Volume, cs: seq<int>)
      reads this
    {
      && IsFile(v, cs, size) && 0 <= position <= size
      && (size > 0 ==> firstCluster == cs[0] && currentCluster == CursorCluster(v, cs, position))
    }

    /** The end of a turn of the loop of `fat_read`: `n` bytes on, and to the next cluster when this one is used up. */
    method MoveOn(v: Volume, n: int, ghost cs: seq<int>) returns (stop: bool)
      requires Valid(v, cs) && position < size && 1 <= n && position + n <= size
      requires position % v.layout.clusterSize + n <= v.layout.clusterSize && HasEntry(v, currentCluster)
      modifies this`position, this`currentCluster
      ensures Valid(v, cs) && position == old(position) + n
      ensures stop ==> position == size
    {
      var c := v.layout.clusterSize;
      NextCluster(v, cs, size, position, n);
      var offset := position % c;
      position := position + n;
      stop := false;
      if offset + n >= c {
        var next := FatEntry(v, currentCluster);
        if next >= END_OF_CHAIN {
          stop := true;
        } else {
          currentCluster := next;
        }
      }
    }

    /**
     One turn of the loop of `fat_read`: copies at most `limit` bytes out of the current cluster to
     `buffer[at..]`, or none if the cluster cannot be read.
     */
    method ReadChunk(v: Volume, limit: int, buffer: array<Byte>, at: int, ghost cs: seq<int>)
      returns (n: int, stop: bool, ghost piece: seq<Byte>)
      requires Valid(v, cs) && position < size && 0 < limit && 0 <= at && at + limit <= buffer.Length
      modifies this`position, this`currentCluster, buffer
      ensures Valid(v, cs) && 0 <= n <= limit && position == old(position) + n
      ensures n == 0 ==> stop && !ReadableAt(v, cs, position) && buffer[..] == old(buffer[..])
      ensures n > 0 ==> piece == FileBytes(v, cs, size)[old(position)..position]
      ensures n > 0 ==> buffer[..] == Spliced(old(buffer[..]), at, piece)
      ensures ReadableFrom(v, cs, old(position), position)
      ensures n > 0 && stop ==> position == size
    {
      var toRead := if limit > size - position then size - position else limit;
      var ok;
      ok, n, piece := CopyCurrent(v, toRead, buffer, at, cs);
      if !ok {
        return 0, true, [];
      }
      ChunkReadable(v, cs, position, n);
      stop := MoveOn(v, n, cs);
    }

    /** Copies what the current cluster has at the position, at most `limit` bytes, to `buffer[at..]`. */
    method CopyCurrent(v: Volume, limit: int, buffer: array<Byte>, at: int, ghost cs: seq<int>)
      returns (ok: bool, n: int, ghost piece: seq<Byte>)
      requires Valid(v, cs) && 0 < limit <= size - position && 0 <= at && at + limit <= buffer.Length
      modifies buffer
      ensures ok <==> ReadableCluster(v, currentCluster)
      ensures !ok ==> buffer[..] == old(buffer[..])
      ensures ok ==> 1 <= n <= limit && position % v.layout.clusterSize + n <= v.layout.clusterSize
      ensures ok ==> HasEntry(v, currentCluster)
      ensures ok ==> piece == FileBytes(v, cs, size)[position..position + n]
      ensures ok ==> buffer[..] == Spliced(old(buffer[..]), at, piece)
    {
      ok, n, piece := CopyChunk(v, currentCluster, position % v.layout.clusterSize, limit, buffer, at);
      if ok { CurrentBytes(v, cs, size, position, n); }
    }

    /**
     `fat_read`: copies the next bytes of the file, as many as are asked for and left, up to a cluster
     that cannot be read.
     */
    method Read(v: Volume, want: int, buffer: array<Byte>, ghost cs: seq<int>) returns (n: int)
      requires Valid(v, cs) && 0 <= want <= buffer.Length
      modifies this`position, this`currentCluster, buffer
      ensures Valid(v, cs) && position == old(position) + n
      ensures ReadTo(v, cs, size, old(position), want, position)
      ensures buffer[..n] == FileBytes(v, cs, size)[old(position)..position]
      ensures buffer[n..] == old(buffer[n..])
    {
      ghost var before := buffer[..];
      n := ReadLoop(v, want, buffer, cs);
      SplicedParts(before, FileBytes(v, cs, size)[old(position)..position]);
      assert buffer[..n] == buffer[..][..n] && buffer[n..] == buffer[..][n..];
    }

    /** The loop of `fat_read`. */
    method ReadLoop(v: Volume, want: int, buffer: array<Byte>, ghost cs: seq<int>) returns (n: int)
      requires Valid(v, cs) && 0 <= want <= buffer.Length
      modifies this`position, this`currentCluster, buffer
      ensures Valid(v, cs) && position == old(position) + n
      ensures ReadTo(v, cs, size, old(position), want, position)
      ensures buffer[..] == Spliced(old(buffer[..]), 0, FileBytes(v, cs, size)[old(position)..position])
    {
      n := 0;
      ghost var file, start, before := FileBytes(v, cs, size), position, buffer[..];
      ghost var got: seq<Byte> := [];
      var stop := false;
      while !stop && n < want && position < size
        invariant Valid(v, cs) && 0 <= n <= want && position == start + n
        invariant |got| == n && got == file[start..position] && buffer[..] == Spliced(before, 0, got)
        invariant ReadableFrom(v, cs, start, position) && (stop ==> position == size || !ReadableAt(v, cs, position))
        decreases !stop, want - n
      {
        ghost var at := position;
        var k;
        ghost var piece;
        k, stop, piece := ReadChunk(v, want - n, buffer, n, cs);
        if k > 0 {
          SplicedMore(before, got, piece);
          JoinSlices(file, start, at, position);
          got := got + piece;
        }
        n := n + k;
      }
    }

    /**
     Any series of reads: the pieces joined together are one consecutive slice of the file, and they
     get as far as one read of all the bytes, so how the reads are split does not matter.
     */
    method ReadSeries(v: Volume, wants: seq<nat>, ghost cs: seq<int>) returns (data: seq<Byte>)
      requires Valid(v, cs)
      modifies this`position, this`currentCluster
      ensures Valid(v, cs)
      ensures ReadTo(v, cs, size, old(position), Sum(wants), position)
      ensures data == FileBytes(v, cs, size)[old(position)..position]
    {
      data := [];
      ghost var file, start := FileBytes(v, cs, size), position;
      for i := 0 to |wants|
        invariant Valid(v, cs) && ReadTo(v, cs, size, start, Sum(wants[..i]), position)
        invariant data == file[start..position]
      {
        ghost var at, sum := position, Sum(wants[..i]);
        SumStep(wants, i);
        var piece := ReadPiece(v, wants[i], cs);
        JoinSlices(file, start, at, position);
        ReadToTwice(v, cs, size, start, sum, at, wants[i], position);
        data := data + piece;
      }
      assert wants[..|wants|] == wants;
    }

    /** One read into a buffer of its own. */
    method ReadPiece(v: Volume, want: nat, ghost cs: seq<int>) returns (piece: seq<Byte>)
      requires Valid(v, cs)
      modifies this`position, this`currentCluster
      ensures Valid(v, cs) && ReadTo(v, cs, size, old(position), want, position)
      ensures piece == FileBytes(v, cs, size)[old(position)..position]
    {
      var buffer := new Byte[want];
      var n := Read(v, want, buffer, cs);
      piece := buffer[..n];
    }

    /**
     `fat_seek`: a 32-bit position, clamped to the size; the current cluster is not moved, so the
     cursor is still right exactly when the new position is in the cluster of the old one.
     */
    method Seek(offset: int, whence: int, ghost v: Volume, ghost cs: seq<int>) returns (ok: bool)
      requires Valid(v, cs) && -0x8000_0000 <= offset < 0x8000_0000 && size < TWO32
      modifies this`position
      ensures ok <==> 0 <= whence <= 2
      ensures !ok ==> position == old(position)
      ensures ok ==>
                var base := if whence == 0 then 0 else if whence == 1 then old(position) else size;
                position == Min((base + offset) % TWO32, size)
      ensures size > 0 ==>
                (Valid(v, cs) <==> ClusterIndex(position, v.layout.clusterSize, |cs|) ==
                                   ClusterIndex(old(position), v.layout.clusterSize, |cs|))
    {
      var newPos;
      if whence == 0 {
        newPos := offset % TWO32;
      } else if whence == 1 {
        newPos := (position + offset) % TWO32;
      } else if whence == 2 {
        newPos := (size + offset) % TWO32;
      } else {
        return false;
      }
      if newPos > size {
        newPos := size;
      }
      if size > 0 { SameClusterIff(v, cs, position, newPos); }
      position := newPos;
      return true;
    }
  }

  lemma JoinSlices<T>(s: seq<T>, a: nat, b: nat, c: nat)
    requires a <= b <= c <= |s|
    ensures s[a..b] + s[b..c] == s[a..c]
  {
  }

  function Sum(ns: seq<nat>): nat {
    if ns == [] then 0 else Sum(ns[..|ns| - 1]) + ns[|ns| - 1]
  }

  lemma SumStep(ns: seq<nat>, i: nat)
    requires i < |ns|
    ensures Sum(ns[..i + 1]) == Sum(ns[..i]) + ns[i]
  {
    assert ns[..i + 1][..i] == ns[..i];
  }

  /** `s` with `piece` in place of what is at `at`. */
  function Spliced<T>(s: seq<T>, at: nat, piece: seq<T>): (r: seq<T>)
    requires at + |piece| <= |s|
    ensures |r| == |s|
  {
    s[..at] + piece + s[at + |piece|..]
  }

  lemma SplicedMore<T>(s: seq<T>, a: seq<T>, b: seq<T>)
    requires |a| + |b| <= |s|
    ensures Spliced(Spliced(s, 0, a), |a|, b) == Spliced(s, 0, a + b)
  {
  }

  lemma SplicedParts<T>(s: seq<T>, a: seq<T>)
    requires |a| <= |s|
    ensures Spliced(s, 0, a)[..|a|] == a && Spliced(s, 0, a)[|a|..] == s[|a|..]
  {
  }

  method CopyOut(src: array<Byte>, offset: int, n: int, dst: array<Byte>, at: int)
    requires src != dst && 0 <= offset && 0 <= n && offset + n <= src.Length && 0 <= at && at + n <= dst.Length
    modifies dst
    ensures dst[..] == Spliced(old(dst[..]), at, src[offset..offset + n])
  {
    forall k | 0 <= k < n {
      dst[at + k] := src[offset + k];
    }
  }

  /** Reads a cluster and copies what it has from `offset` on, at most `limit` bytes, to `buffer[at..]`. */
  method CopyChunk(v: Volume, cluster: int, offset: int, limit: int, buffer: array<Byte>, at: int)
    returns (ok: bool, n: int, ghost piece: seq<Byte>)
    requires ValidVolume(v) && 0 <= offset < v.layout.clusterSize && 0 < limit && 0 <= at && at + limit <= buffer.Length
    modifies buffer
    ensures ok <==> ReadableCluster(v, cluster)
    ensures !ok ==> n == 0 && buffer[..] == old(buffer[..])
    ensures ok ==> StoredCluster(v, cluster) && n == Min(v.layout.clusterSize - offset, limit)
    ensures ok ==> piece == ClusterBytes(v, cluster)[offset..offset + n]
    ensures ok ==> buffer[..] == Spliced(old(buffer[..]), at, piece)
  {
    n, piece := 0, [];
    var c := v.layout.clusterSize;
    var clusterBuffer;
    ok, clusterBuffer := FetchCluster(v, cluster);
    if !ok {
      return;
    }
    n := c - offset;
    if n > limit {
      n := limit;
    }
    piece := ClusterBytes(v, cluster)[offset..offset + n];
    CopyPart(clusterBuffer, c, offset, n, buffer, at, ClusterBytes(v, cluster));
  }

  /** Copies `n` bytes of a cluster, already in `clusterBuffer`, to `buffer[at..]`. */
  method CopyPart(clusterBuffer: array<Byte>, c: int, offset: int, n: int, buffer: array<Byte>, at: int,
                  ghost bytes: seq<Byte>)
    requires clusterBuffer != buffer && 0 <= offset && 0 <= n && offset + n <= c <= clusterBuffer.Length
    requires 0 <= at && at + n <= buffer.Length && clusterBuffer[..c] == bytes
    modifies buffer
    ensures buffer[..] == Spliced(old(buffer[..]), at, bytes[offset..offset + n])
  {
    CutSlice(clusterBuffer[..], c, offset, n);
    CopyOut(clusterBuffer, offset, n, buffer, at);
  }

  /** Where the cursor has to be after `n` more bytes of its cluster. */
  lemma NextCluster(v: Volume, cs: seq<int>, size: int, pos: nat, n: nat)
    requires IsFile(v, cs, size) && pos < size && pos + n <= size
    requires pos % v.layout.clusterSize + n <= v.layout.clusterSize
    ensures var c, cur := v.layout.clusterSize, CursorCluster(v, cs, pos);
            && HasEntry(v, cur)
            && CursorCluster(v, cs, pos + n) ==
               (if pos % c + n < c || FatEntry(v, cur) >= END_OF_CHAIN then cur else FatEntry(v, cur))
            && (pos % c + n == c && FatEntry(v, cur) >= END_OF_CHAIN ==> pos + n == size)
  {
    var c := v.layout.clusterSize;
    var j := ClusterNumber(pos, c);
    ClusterNumberIsQuotient(pos, c);
    NumberInChain(pos, c, |cs|);
    Advance(pos, c, n);
    assert InVolume(v, cs[j]);
    if j + 1 < |cs| { assert Follows(v, cs, j + 1); }
    assert Times(j + 1, c) == Times(j, c) + c;
  }

  /** Two positions refer to the same cluster of the volume only if they refer to the same place in the chain. */
  lemma SameClusterIff(v: Volume, cs: seq<int>, q: nat, p: nat)
    requires ValidVolume(v) && IsChain(v, cs)
    ensures var c := v.layout.clusterSize;
            cs[ClusterIndex(q, c, |cs|)] == cs[ClusterIndex(p, c, |cs|)]
            <==> ClusterIndex(q, c, |cs|) == ClusterIndex(p, c, |cs|)
  {
    var c := v.layout.clusterSize;
    var i, j := ClusterIndex(q, c, |cs|), ClusterIndex(p, c, |cs|);
    if i < j { ChainAcyclic(v, cs, i, j); } else if j < i { ChainAcyclic(v, cs, j, i); }
  }

  // ---------- a seek that loses the cluster ----------

  /** A FAT32 volume with one-sector clusters on which cluster 2 is linked to cluster 3 and that ends the chain. */
  function TwoClusters(): Volume {
    Volume(Boot(SECTOR, 1, 1, 1, 0, 0, 0, 65600, 1, 2), Layout(1, 2, 2, 1, 65598, SECTOR, Fat32),
           [0, 0, 0, 0, 0, 0, 0, 0, 3, 0, 0, 0, 0xF8, 0xFF, 0xFF, 0x0F] + Repeat(0 as Byte, 496),
           Disk(map[2 := Repeat(7 as Byte, 512), 3 := Repeat(9 as Byte, 512)], {}))
  }

  lemma TwoClustersMounted()
    ensures TwoClusters().layout == Mounted(TwoClusters().boot)
  {
  }

  lemma TwoClusterEntries()
    ensures HasEntry(TwoClusters(), 2) && FatEntry(TwoClusters(), 2) == 3
    ensures HasEntry(TwoClusters(), 3) && FatEntry(TwoClusters(), 3) == END_OF_CHAIN
  {
    var b := TwoClusters().fat;
    assert b[8] == 3 && b[9] == b[10] == b[11] == 0 && b[12] == 0xF8 && b[13] == b[14] == 0xFF && b[15] == 0x0F;
  }

  lemma TwoClustersStored()
    ensures ValidVolume(TwoClusters()) && StoredCluster(TwoClusters(), 2) && StoredCluster(TwoClusters(), 3)
  {
    var v := TwoClusters();
    assert HasSector(v.disk, 2, 0) && HasSector(v.disk, 3, 0);
    assert FirstSector(v.boot, v.layout, 2) == 2 && FirstSector(v.boot, v.layout, 3) == 3;
  }

  lemma TwoClusterFile()
    ensures TwoClusters().layout == Mounted(TwoClusters().boot) && IsFile(TwoClusters(), [2, 3], 1024)
  {
    var v, cs := TwoClusters(), [2, 3];
    TwoClustersMounted();
    TwoClusterEntries();
    TwoClustersStored();
    assert InVolume(v, 2) && InVolume(v, 3) && Follows(v, cs, 1);
    TimesIsProduct(2, 512);
  }

  /** In a file of more than one cluster, a seek from the start to the second cluster leaves the cursor on the first. */
  method SeekLosesCluster(file: File, c: int, ghost v: Volume, ghost cs: seq<int>) returns (ok: bool)
    requires file.Valid(v, cs) && file.position == 0 && c == v.layout.clusterSize < file.size < TWO32
    modifies file`position
    ensures ok && file.position == c && file.currentCluster == cs[0]
    ensures !file.Valid(v, cs)
  {
    SecondCluster(c, |cs|, file.size);
    ClusterBounds(v);
    FitsWord(c);
    ok := file.Seek(c, 0, v, cs);
  }

  lemma ClusterBounds(v: Volume)
    requires ValidVolume(v)
    ensures 0 < v.layout.clusterSize <= 4096
  {
  }

  lemma FitsWord(n: int)
    requires 0 <= n < TWO32
    ensures (0 + n) % TWO32 == n
  {
  }

  /** In a chain that holds more than one cluster's bytes, byte `c` is in the second cluster and byte 0 in the first. */
  lemma SecondCluster(c: nat, n: nat, size: int)
    requires 0 < c < size <= Times(n, c)
    ensures n > 1 && ClusterIndex(c, c, n) == 1 && ClusterIndex(0, c, n) == 0
  {
    var one: nat := 1;
    assert Times(one, c) == c && (n == one ==> Times(n, c) == c);
    ClusterNumberUnique(c, c, one);
  }

  /** Such a file: after the seek its cursor at byte 512 is on cluster 2, and byte 512 is in cluster 3. */
  method SeekExample() returns (file: File)
    ensures TwoClusters().layout == Mounted(TwoClusters().boot)
    ensures IsFile(TwoClusters(), [2, 3], 1024) && CursorCluster(TwoClusters(), [2, 3], 512) == 3
    ensures file.size == 1024 && file.position == 512 && file.currentCluster == 2
    ensures !file.Valid(TwoClusters(), [2, 3])
  {
    file := new File();
    file.position, file.size, file.firstCluster, file.currentCluster := 0, 1024, 2, 2;
    TwoClusterFile();
    ClusterNumberUnique(512, 512, 1);
    var ok := SeekLosesCluster(file, SECTOR, TwoClusters(), [2, 3]);
  }
}
