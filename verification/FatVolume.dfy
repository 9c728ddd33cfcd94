/**
 A mounted FAT volume: its FAT in memory, its clusters on disk and the chains of clusters
 that files and directories are made of (kernel/fs/fat.c:33-55, 124-135, 188-202).
 */
module FatVolume {
  import opened Types
  import opened FatLayout

  const SECTOR: int := 512
  const END_OF_CHAIN: int := 0x0FFF_FFF8

  /** The 512 bytes that each sector holds, and the sectors that cannot be read. */
  datatype Disk = Disk(bytes: map<int, seq<Byte>>, bad: set<int>)

  datatype Volume = Volume(boot: Boot, layout: Layout, fat: seq<Byte>, disk: Disk)

  ghost predicate ValidDisk(d: Disk) {
    forall s | s in d.bytes :: |d.bytes[s]| == SECTOR
  }

  /** A volume with 512-byte sectors and clusters of at most 4096 bytes. */
  ghost predicate ValidVolume(v: Volume) {
    && ValidDisk(v.disk) && v.boot.bytesPerSector == SECTOR && 1 <= v.boot.sectorsPerCluster <= 8
    && v.layout.clusterSize == v.boot.sectorsPerCluster * SECTOR && 0 <= v.layout.clusterCount < TWO32
  }

  // ---------- sectors ----------

  ghost predicate HasSector(d: Disk, start: int, k: int) {
    (start + k) % TWO32 in d.bytes
  }

  ghost predicate CanRead(d: Disk, start: int, k: int) {
    HasSector(d, start, k) && (start + k) % TWO32 !in d.bad
  }

  /** The device has the `n` sectors from `start` on. */
  ghost predicate StoredRun(d: Disk, start: int, n: int) {
    forall k | 0 <= k < n :: HasSector(d, start, k)
  }

  /** They can all be read. */
  ghost predicate ReadableRun(d: Disk, start: int, n: int) {
    forall k | 0 <= k < n :: CanRead(d, start, k)
  }

  /** The bytes of `n` consecutive sectors. */
  ghost function SectorRun(d: Disk, start: int, n: nat): (r: seq<Byte>)
    requires ValidDisk(d) && StoredRun(d, start, n)
    ensures |r| == n * SECTOR
  {
    if n == 0 then [] else
      assert HasSector(d, start, n - 1);
      SectorRun(d, start, n - 1) + d.bytes[(start + (n - 1)) % TWO32]
  }

  /** Byte `k` of a run of sectors. */
  lemma {:induction false} SectorRunByte(d: Disk, start: int, n: nat, k: nat)
    requires ValidDisk(d) && StoredRun(d, start, n) && k < n * SECTOR
    ensures HasSector(d, start, k / SECTOR)
    ensures SectorRun(d, start, n)[k] == d.bytes[(start + k / SECTOR) % TWO32][k % SECTOR]
  {
    assert HasSector(d, start, k / SECTOR);
    if k < (n - 1) * SECTOR { SectorRunByte(d, start, n - 1, k); }
  }

  /** Reads consecutive sectors into a buffer: the loops of `read_cluster` and of loading the FAT. */
  method ReadSectors(d: Disk, start: int, n: nat, buffer: array<Byte>) returns (ok: bool)
    requires ValidDisk(d) && n * SECTOR <= buffer.Length
    modifies buffer
    ensures ok <==> ReadableRun(d, start, n)
    ensures ok ==> StoredRun(d, start, n) && buffer[..n * SECTOR] == SectorRun(d, start, n)
    ensures buffer[n * SECTOR..] == old(buffer[n * SECTOR..])
  {
    var i := 0;
    while i < n
      invariant 0 <= i <= n && ReadableRun(d, start, i) && StoredRun(d, start, i)
      invariant buffer[..i * SECTOR] == SectorRun(d, start, i)
      invariant buffer[n * SECTOR..] == old(buffer[n * SECTOR..])
    {
      var sector := (start + i) % TWO32;
      if sector !in d.bytes || sector in d.bad {
        assert !CanRead(d, start, i);
        return false;
      }
      assert CanRead(d, start, i);
      StoreSector(buffer, i * SECTOR, d.bytes[sector]);
      i := i + 1;
    }
    return true;
  }

  method StoreSector(buffer: array<Byte>, at: nat, data: seq<Byte>)
    requires |data| == SECTOR && at + SECTOR <= buffer.Length
    modifies buffer
    ensures buffer[..at + SECTOR] == old(buffer[..at]) + data
    ensures buffer[at + SECTOR..] == old(buffer[at + SECTOR..])
  {
    forall k | 0 <= k < SECTOR {
      buffer[at + k] := data[k];
    }
  }

  /** The boot sector's fields as `fat_mount` copies them. */
  function BootOf(s: seq<Byte>): (b: Boot)
    requires |s| == SECTOR
    ensures b.bytesPerSector > 0 && b.sectorsPerCluster > 0 ==> Readable(b)
  {
    Boot(Word16(s, 11), s[13] as int, Word16(s, 14), s[16] as int, Word16(s, 17), Word16(s, 19), Word16(s, 22),
         Word32(s, 32), Word32(s, 36), Word32(s, 44))
  }

  /** A boot sector as the structure of fat.h lays it out, with what the layout does not depend on. */
  datatype BootSector = BootSector(jump: seq<Byte>, oem: seq<Byte>, boot: Boot, media: Byte, track: int, heads: int,
                                   hidden: int, flags: int, version: int, rest: seq<Byte>)

  ghost predicate ValidBootSector(s: BootSector) {
    |s.jump| == 3 && |s.oem| == 8 && |s.rest| == 464 && Readable(s.boot)
  }

  // The fields one after the other, in the order of their declaration

  function BootClusters(b: Boot): (r: seq<Byte>)
    ensures |r| == 6
  {
    Bytes16(b.bytesPerSector) + [(b.sectorsPerCluster % 256) as Byte] +
    Bytes16(b.reservedSectors) + [(b.numFats % 256) as Byte]
  }

  function BootSizes(s: BootSector): (r: seq<Byte>)
    ensures |r| == 7
  {
    Bytes16(s.boot.rootEntries) + Bytes16(s.boot.totalSectors16) + [s.media] + Bytes16(s.boot.fatSize16)
  }

  function BootDisk(s: BootSector): (r: seq<Byte>)
    ensures |r| == 12
  {
    Bytes16(s.track) + Bytes16(s.heads) + Bytes32(s.hidden) + Bytes32(s.boot.totalSectors32)
  }

  function BootFat32(s: BootSector): (r: seq<Byte>)
    ensures |r| == 12 + |s.rest|
  {
    Bytes32(s.boot.fatSize32) + (Bytes16(s.flags) + Bytes16(s.version)) + Bytes32(s.boot.rootCluster) + s.rest
  }

  function BootSectorBytes(s: BootSector): seq<Byte> {
    (s.jump + s.oem) + BootClusters(s.boot) + BootSizes(s) + BootDisk(s) + BootFat32(s)
  }

  lemma BootFront(s: BootSector)
    requires ValidBootSector(s)
    ensures var w := BootSectorBytes(s);
            && |w| == SECTOR
            && Word16(w, 11) == s.boot.bytesPerSector && w[13] as int == s.boot.sectorsPerCluster
            && Word16(w, 14) == s.boot.reservedSectors && w[16] as int == s.boot.numFats
  {
    var b, a := s.boot, s.jump + s.oem;
    var behind := BootSizes(s) + BootDisk(s) + BootFat32(s);
    FourFields(a, Bytes16(b.bytesPerSector), [(b.sectorsPerCluster % 256) as Byte], Bytes16(b.reservedSectors),
               [(b.numFats % 256) as Byte], behind);
    assert a + BootClusters(b) + behind == BootSectorBytes(s);
  }

  lemma BootMiddle(s: BootSector)
    requires ValidBootSector(s)
    ensures var w := BootSectorBytes(s);
            && |w| == SECTOR && Word16(w, 17) == s.boot.rootEntries && Word16(w, 19) == s.boot.totalSectors16
            && Word16(w, 22) == s.boot.fatSize16
  {
    var b, a, behind := s.boot, s.jump + s.oem + BootClusters(s.boot), BootDisk(s) + BootFat32(s);
    FourFields(a, Bytes16(b.rootEntries), Bytes16(b.totalSectors16), [s.media], Bytes16(b.fatSize16), behind);
    assert a + BootSizes(s) + behind == BootSectorBytes(s);
  }

  lemma BootBack(s: BootSector)
    requires ValidBootSector(s)
    ensures var w := BootSectorBytes(s);
            && |w| == SECTOR && Word32(w, 32) == s.boot.totalSectors32
            && Word32(w, 36) == s.boot.fatSize32 && Word32(w, 44) == s.boot.rootCluster
  {
    var b, a := s.boot, (s.jump + s.oem) + BootClusters(s.boot) + BootSizes(s);
    FourFields(a, Bytes16(s.track), Bytes16(s.heads), Bytes32(s.hidden), Bytes32(b.totalSectors32), BootFat32(s));
    FourFields(a + BootDisk(s), Bytes32(b.fatSize32), Bytes16(s.flags) + Bytes16(s.version), Bytes32(b.rootCluster),
               s.rest, []);
    assert a + BootDisk(s) + BootFat32(s) + [] == BootSectorBytes(s);
  }

  /** Reading a boot sector gives the fields it was made of. */
  lemma BootRoundTrip(s: BootSector)
    requires ValidBootSector(s)
    ensures |BootSectorBytes(s)| == SECTOR && BootOf(BootSectorBytes(s)) == s.boot
  {
    BootFront(s);
    BootMiddle(s);
    BootBack(s);
  }

  /** A boot sector that can be read is one of a volume with 512-byte sectors and a FAT below 4 GiB. */
  ghost predicate Mountable(disk: Disk) {
    CanRead(disk, 0, 0) && |disk.bytes[0]| == SECTOR ==>
      var b := BootOf(disk.bytes[0]);
      b.bytesPerSector == SECTOR && b.sectorsPerCluster > 0 && FatSectors(b) * SECTOR < TWO32
  }

  /**
   `fat_mount` of a volume with 512-byte sectors: reads the boot sector, stores the layout and loads
   the FAT.  `gotBuffer` is the outcome of the allocation of its buffer.
   */
  method Mount(disk: Disk, gotBuffer: bool) returns (r: Option<Volume>)
    requires ValidDisk(disk) && Mountable(disk)
    ensures r.Some? <==>
              && CanRead(disk, 0, 0) && gotBuffer
              && var b := BootOf(disk.bytes[0]); ReadableRun(disk, b.reservedSectors, FatSectors(b))
    ensures r.Some? ==>
              var b := BootOf(disk.bytes[0]);
              && StoredRun(disk, b.reservedSectors, FatSectors(b))
              && r.value == Volume(b, Mounted(b), SectorRun(disk, b.reservedSectors, FatSectors(b)), disk)
    ensures r.Some? && BootOf(disk.bytes[0]).sectorsPerCluster <= 8 ==> ValidVolume(r.value)
  {
    if 0 !in disk.bytes || 0 in disk.bad {
      return None;
    }
    assert CanRead(disk, 0, 0);
    var b := BootOf(disk.bytes[0]);
    if !gotBuffer {
      return None;
    }
    var buffer := new Byte[FatSectors(b) * SECTOR];
    var ok := ReadSectors(disk, b.reservedSectors, FatSectors(b), buffer);
    if !ok {
      return None;
    }
    assert buffer[..] == buffer[..FatSectors(b) * SECTOR];
    r := Some(Volume(b, Mounted(b), buffer[..], disk));
    MountedValid(b);
  }

  /** What the layout of 512-byte sectors needs for a valid volume. */
  lemma MountedValid(b: Boot)
    requires Readable(b) && b.bytesPerSector == SECTOR
    ensures Mounted(b).clusterSize == b.sectorsPerCluster * SECTOR && 0 <= Mounted(b).clusterCount < TWO32
  {
    var n := (TotalSectors(b) - (b.reservedSectors + b.numFats * FatSectors(b) % TWO32 + RootSectors(b))) % TWO32;
    DivBounds(n, b.sectorsPerCluster);
    MulMonotone(1, b.sectorsPerCluster, n / b.sectorsPerCluster);
  }

  // ---------- clusters ----------

  ghost predicate StoredCluster(v: Volume, c: int) {
    StoredRun(v.disk, FirstSector(v.boot, v.layout, c), v.boot.sectorsPerCluster)
  }

  ghost predicate ReadableCluster(v: Volume, c: int) {
    ReadableRun(v.disk, FirstSector(v.boot, v.layout, c), v.boot.sectorsPerCluster)
  }

  ghost function ClusterBytes(v: Volume, c: int): (r: seq<Byte>)
    requires ValidVolume(v) && StoredCluster(v, c)
    ensures |r| == v.layout.clusterSize
  {
    SectorRun(v.disk, FirstSector(v.boot, v.layout, c), v.boot.sectorsPerCluster)
  }

  method ReadCluster(v: Volume, c: int, buffer: array<Byte>) returns (ok: bool)
    requires ValidVolume(v) && buffer.Length == 4096
    modifies buffer
    ensures ok <==> ReadableCluster(v, c)
    ensures ok ==> StoredCluster(v, c) && buffer[..v.layout.clusterSize] == ClusterBytes(v, c)
  {
    var sector := FirstSector(v.boot, v.layout, c);
    ok := ReadSectors(v.disk, sector, v.boot.sectorsPerCluster, buffer);
  }

  /** The same into a buffer of its own, which is what the callers have on their stack. */
  method FetchCluster(v: Volume, c: int) returns (ok: bool, buffer: array<Byte>)
    requires ValidVolume(v)
    ensures fresh(buffer) && buffer.Length == 4096 && (ok <==> ReadableCluster(v, c))
    ensures ok ==> StoredCluster(v, c) && buffer[..v.layout.clusterSize] == ClusterBytes(v, c)
  {
    buffer := new Byte[4096];
    ok := ReadCluster(v, c, buffer);
  }

  // ---------- the FAT ----------

  predicate HasEntry(v: Volume, c: int) {
    0 <= c && match v.layout.fatType
              case Fat32 => 4 * c + 4 <= |v.fat|
              case Fat16 => 2 * c + 2 <= |v.fat|
              case Fat12 => true
  }

  /** `read_fat_entry`: the upper four bits of a FAT32 entry are masked out; FAT12 is not supported. */
  function FatEntry(v: Volume, c: int): int
    requires HasEntry(v, c)
  {
    match v.layout.fatType
    case Fat32 => Word32(v.fat, 4 * c) % 0x1000_0000
    case Fat16 => Word16(v.fat, 2 * c)
    case Fat12 => 0
  }

  // A FAT in memory: its entries one after the other

  function Fat32Bytes(entries: seq<int>): (r: seq<Byte>)
    ensures |r| == 4 * |entries|
  {
    if entries == [] then [] else Fat32Bytes(entries[..|entries| - 1]) + Bytes32(entries[|entries| - 1])
  }

  function Fat16Bytes(entries: seq<int>): (r: seq<Byte>)
    ensures |r| == 2 * |entries|
  {
    if entries == [] then [] else Fat16Bytes(entries[..|entries| - 1]) + Bytes16(entries[|entries| - 1])
  }

  lemma {:induction false} Fat32Word(entries: seq<int>, c: nat)
    requires c < |entries| && 0 <= entries[c] < TWO32
    ensures Word32(Fat32Bytes(entries), 4 * c) == entries[c]
    decreases |entries|
  {
    var init, last := Fat32Bytes(entries[..|entries| - 1]), Bytes32(entries[|entries| - 1]);
    if c < |entries| - 1 {
      Fat32Word(entries[..|entries| - 1], c);
      WordsOfPart(init + last, init, 0, 4 * c);
    } else {
      WordsOfPart(init + last, last, 4 * c, 0);
    }
  }

  lemma {:induction false} Fat16Word(entries: seq<int>, c: nat)
    requires c < |entries| && 0 <= entries[c] < 0x1_0000
    ensures Word16(Fat16Bytes(entries), 2 * c) == entries[c]
    decreases |entries|
  {
    var init, last := Fat16Bytes(entries[..|entries| - 1]), Bytes16(entries[|entries| - 1]);
    if c < |entries| - 1 {
      Fat16Word(entries[..|entries| - 1], c);
      WordsOfPart(init + last, init, 0, 2 * c);
    } else {
      WordsOfPart(init + last, last, 2 * c, 0);
    }
  }

  /** A FAT32 entry is the lower 28 bits of its word, whatever the upper four are. */
  lemma EntryOfFat32(v: Volume, entries: seq<int>, c: nat, entry: int, upper: int)
    requires c < |entries| && v.layout.fatType.Fat32? && v.fat == Fat32Bytes(entries)
    requires entries[c] == upper * 0x1000_0000 + entry && 0 <= upper < 16 && 0 <= entry < 0x1000_0000
    ensures HasEntry(v, c) && FatEntry(v, c) == entry
  {
    LowBits(entries[c], upper, entry);
    Fat32Word(entries, c);
  }

  lemma LowBits(word: int, upper: int, low: int)
    requires word == upper * 0x1000_0000 + low && 0 <= upper < 16 && 0 <= low < 0x1000_0000
    ensures word % 0x1000_0000 == low && 0 <= word < TWO32
  {
  }

  /** A FAT16 entry is its word. */
  lemma EntryOfFat16(v: Volume, entries: seq<int>, c: nat)
    requires c < |entries| && v.layout.fatType.Fat16? && v.fat == Fat16Bytes(entries) && 0 <= entries[c] < 0x1_0000
    ensures HasEntry(v, c) && FatEntry(v, c) == entries[c]
  {
    Fat16Word(entries, c);
  }

  // ---------- chains ----------

  /** A data cluster that the device has and that has an entry in the FAT. */
  ghost predicate InVolume(v: Volume, c: int) {
    IsCluster(v.layout, c) && StoredCluster(v, c) && HasEntry(v, c)
  }

  /** The FAT links cluster `i - 1` of `cs` to cluster `i`. */
  ghost predicate Follows(v: Volume, cs: seq<int>, i: int)
    requires 0 < i < |cs|
  {
    HasEntry(v, cs[i - 1]) && FatEntry(v, cs[i - 1]) == cs[i] < END_OF_CHAIN
  }

  /** Clusters of the volume, each linked to the next. */
  ghost predicate IsPath(v: Volume, cs: seq<int>) {
    && cs != [] && (forall i | 0 <= i < |cs| :: InVolume(v, cs[i]))
    && (forall i | 0 < i < |cs| :: Follows(v, cs, i))
  }

  /** `cs` is a whole cluster chain, from its first cluster to the end mark. */
  ghost predicate IsChain(v: Volume, cs: seq<int>) {
    IsPath(v, cs) && FatEntry(v, cs[|cs| - 1]) >= END_OF_CHAIN
  }

  /** A chain that ends does not visit a cluster twice. */
  lemma {:induction false} ChainAcyclic(v: Volume, cs: seq<int>, i: int, j: int)
    requires IsChain(v, cs) && 0 <= i < j < |cs|
    ensures cs[i] != cs[j]
    decreases |cs| - j
  {
    assert Follows(v, cs, i + 1);
    if j < |cs| - 1 {
      assert Follows(v, cs, j + 1);
      ChainAcyclic(v, cs, i + 1, j + 1);
    }
  }

  /** `n * c`, by repeated addition. */
  function Times(n: nat, c: nat): (r: nat) {
    if n == 0 then 0 else Times(n - 1, c) + c
  }

  lemma {:induction false} TimesIsProduct(n: nat, c: nat)
    ensures Times(n, c) == n * c
  {
    if n > 0 { TimesIsProduct(n - 1, c); }
  }

  lemma {:induction false} TimesMonotone(m: nat, n: nat, c: nat)
    requires m <= n
    ensures Times(m, c) <= Times(n, c)
    ensures m < n ==> Times(m, c) + c <= Times(n, c)
  {
    if m < n { TimesMonotone(m, n - 1, c); }
  }

  ghost predicate AllStored(v: Volume, cs: seq<int>) {
    forall i | 0 <= i < |cs| :: StoredCluster(v, cs[i])
  }

  lemma PathIsStored(v: Volume, cs: seq<int>)
    requires IsPath(v, cs)
    ensures AllStored(v, cs)
  {
    forall i | 0 <= i < |cs| ensures StoredCluster(v, cs[i]) {
      assert InVolume(v, cs[i]);
    }
  }

  /** The bytes of the clusters of `cs` one after the other. */
  ghost function ChainBytes(v: Volume, cs: seq<int>): (r: seq<Byte>)
    requires ValidVolume(v) && AllStored(v, cs)
    ensures |r| == Times(|cs|, v.layout.clusterSize)
  {
    if cs == [] then [] else
      ChainBytes(v, cs[..|cs| - 1]) + ClusterBytes(v, cs[|cs| - 1])
  }

  /** Cluster `j` of the chain holds the bytes from `j` times the cluster size on. */
  lemma {:induction false} ChainSlice(v: Volume, cs: seq<int>, j: nat)
    requires ValidVolume(v) && AllStored(v, cs) && j < |cs|
    ensures var c := v.layout.clusterSize;
            && Times(j, c) + c <= Times(|cs|, c)
            && ChainBytes(v, cs)[Times(j, c)..Times(j, c) + c] == ClusterBytes(v, cs[j])
  {
    var c, init := v.layout.clusterSize, cs[..|cs| - 1];
    TimesMonotone(j, |cs|, c);
    if j < |cs| - 1 {
      ChainSlice(v, init, j);
      assert ChainBytes(v, cs)[Times(j, c)..Times(j, c) + c] == ChainBytes(v, init)[Times(j, c)..Times(j, c) + c];
    }
  }
}
