/**
 The layout part of mounting a FAT volume (kernel/fs/fat.c:25-30, 124-173).  All fields are
 unsigned 32-bit words, so sums and differences are taken modulo 2^32.
 */
module FatLayout {
  import opened Types

  datatype FatType = Fat12 | Fat16 | Fat32

  /** The boot-sector fields that the layout is computed from. */
  datatype Boot = Boot(bytesPerSector: int, sectorsPerCluster: int, reservedSectors: int, numFats: int,
                       rootEntries: int, totalSectors16: int, fatSize16: int, totalSectors32: int,
                       fatSize32: int, rootCluster: int)

  datatype Layout = Layout(fatStart: int, rootStart: int, dataStart: int, fatSize: int,
                           clusterCount: int, clusterSize: int, fatType: FatType)

  /** Field widths, and the two divisors are not zero. */
  ghost predicate Readable(b: Boot) {
    && 0 < b.bytesPerSector < 0x1_0000 && 0 < b.sectorsPerCluster < 0x100
    && 0 <= b.reservedSectors < 0x1_0000 && 0 <= b.numFats < 0x100 && 0 <= b.rootEntries < 0x1_0000
    && 0 <= b.totalSectors16 < 0x1_0000 && 0 <= b.fatSize16 < 0x1_0000
    && 0 <= b.totalSectors32 < TWO32 && 0 <= b.fatSize32 < TWO32 && 0 <= b.rootCluster < TWO32
  }

  function FatSectors(b: Boot): int { if b.fatSize16 == 0 then b.fatSize32 else b.fatSize16 }

  function TotalSectors(b: Boot): int { if b.totalSectors16 == 0 then b.totalSectors32 else b.totalSectors16 }

  function RootSectors(b: Boot): int
    requires b.bytesPerSector > 0
  {
    (b.rootEntries * 32 + (b.bytesPerSector - 1)) / b.bytesPerSector
  }

  /** Sectors before the data area, as a plain sum. */
  function MetaSectors(b: Boot): int
    requires b.bytesPerSector > 0
  {
    b.reservedSectors + b.numFats * FatSectors(b) + RootSectors(b)
  }

  /** They are the fewest sectors that hold the root directory's 32-byte entries. */
  lemma RootSectorsLeast(b: Boot)
    requires Readable(b)
    ensures (RootSectors(b) - 1) * b.bytesPerSector < 32 * b.rootEntries <= RootSectors(b) * b.bytesPerSector
  {
    var n := RootSectors(b);
    DivBounds(b.rootEntries * 32 + (b.bytesPerSector - 1), b.bytesPerSector);
    assert (n + 1) * b.bytesPerSector == n * b.bytesPerSector + b.bytesPerSector;
    assert (n - 1) * b.bytesPerSector == n * b.bytesPerSector - b.bytesPerSector;
  }

  /** The fields `fat_mount` stores. */
  function Mounted(b: Boot): Layout
    requires b.bytesPerSector > 0 && b.sectorsPerCluster > 0
  {
    Placed(b.reservedSectors, b.numFats * FatSectors(b), RootSectors(b), TotalSectors(b), FatSectors(b),
           b.sectorsPerCluster, b.sectorsPerCluster * b.bytesPerSector)
  }

  function Placed(reserved: int, fatArea: int, root: int, total: int, fatSize: int, spc: int, clusterSize: int): Layout
    requires spc > 0
  {
    var fats := fatArea % TWO32;
    var rootStart := (reserved + fats) % TWO32;
    var clusters := ((total - (reserved + fats + root)) % TWO32) / spc;
    Layout(reserved, rootStart, (rootStart + root) % TWO32, fatSize, clusters, clusterSize,
           if clusters < 4085 then Fat12 else if clusters < 65525 then Fat16 else Fat32)
  }

  /** `cluster_to_sector`. */
  function FirstSector(b: Boot, l: Layout, cluster: int): int {
    if cluster < 2 then 0 else (l.dataStart + (cluster - 2) * b.sectorsPerCluster) % TWO32
  }

  /** Sector `s` belongs to `cluster`. */
  ghost predicate InCluster(b: Boot, l: Layout, cluster: int, s: int) {
    FirstSector(b, l, cluster) <= s < FirstSector(b, l, cluster) + b.sectorsPerCluster
  }

  ghost predicate IsCluster(l: Layout, cluster: int) {
    2 <= cluster < l.clusterCount + 2
  }

  lemma MulMonotone(a: int, b: int, c: int)
    requires a <= b && 0 <= c
    ensures a * c <= b * c
  {
  }

  lemma DivBounds(n: int, d: int)
    requires 0 <= n && 0 < d
    ensures 0 <= n / d && n / d * d <= n < (n / d + 1) * d && n - n % d == n / d * d
  {
  }

  lemma PlacedNoWrap(reserved: int, fatArea: int, root: int, total: int, fatSize: int, spc: int, clusterSize: int)
    requires spc > 0 && 0 <= reserved && 0 <= fatArea && 0 <= root && total < TWO32
    requires reserved + fatArea + root <= total
    ensures var l := Placed(reserved, fatArea, root, total, fatSize, spc, clusterSize);
            && l.fatStart == reserved && l.rootStart == reserved + fatArea && l.dataStart == reserved + fatArea + root
            && l.clusterCount == (total - l.dataStart) / spc
  {
    assert fatArea % TWO32 == fatArea;
    assert (reserved + fatArea) % TWO32 == reserved + fatArea;
    assert (reserved + fatArea + root) % TWO32 == reserved + fatArea + root;
    assert (total - (reserved + fatArea + root)) % TWO32 == total - (reserved + fatArea + root);
  }

  lemma PlacedDataStart(reserved: int, fatArea: int, root: int, total: int, fatSize: int, spc: int, clusterSize: int)
    requires spc > 0 && 0 <= reserved && 0 <= fatArea && 0 <= root && reserved + fatArea + root < TWO32
    ensures Placed(reserved, fatArea, root, total, fatSize, spc, clusterSize).dataStart == reserved + fatArea + root
  {
  }

  lemma PartsNotNegative(b: Boot)
    requires Readable(b)
    ensures 0 <= b.numFats * FatSectors(b) && 0 <= RootSectors(b)
  {
    MulMonotone(0, b.numFats, FatSectors(b));
    DivBounds(b.rootEntries * 32 + (b.bytesPerSector - 1), b.bytesPerSector);
  }

  /** When the metadata fits in the volume nothing wraps. */
  lemma NoWrap(b: Boot)
    requires Readable(b) && MetaSectors(b) <= TotalSectors(b)
    ensures var l := Mounted(b);
            && l.fatStart == b.reservedSectors
            && l.rootStart == b.reservedSectors + b.numFats * FatSectors(b)
            && l.dataStart == MetaSectors(b)
            && l.fatStart <= l.rootStart <= l.dataStart
            && l.clusterCount == (TotalSectors(b) - MetaSectors(b)) / b.sectorsPerCluster
            && l.clusterSize == b.sectorsPerCluster * b.bytesPerSector
            && l.fatSize == (if b.fatSize16 != 0 then b.fatSize16 else b.fatSize32)
            && (l.fatType.Fat12? <==> l.clusterCount < 4085) && (l.fatType.Fat32? <==> l.clusterCount >= 65525)
            && var total := if b.totalSectors16 != 0 then b.totalSectors16 else b.totalSectors32;
            && l.dataStart + l.clusterCount * b.sectorsPerCluster <= total
            && total < l.dataStart + (l.clusterCount + 1) * b.sectorsPerCluster
  {
    PartsNotNegative(b);
    PlacedNoWrap(b.reservedSectors, b.numFats * FatSectors(b), RootSectors(b), TotalSectors(b), FatSectors(b),
                 b.sectorsPerCluster, b.sectorsPerCluster * b.bytesPerSector);
    DivBounds(TotalSectors(b) - MetaSectors(b), b.sectorsPerCluster);
  }

  /** Where cluster `c` lies. */
  lemma ClusterPlace(b: Boot, c: int)
    requires Readable(b) && MetaSectors(b) <= TotalSectors(b) && IsCluster(Mounted(b), c)
    ensures var l := Mounted(b);
            && FirstSector(b, l, c) == l.dataStart + (c - 2) * b.sectorsPerCluster
            && l.dataStart <= FirstSector(b, l, c)
            && FirstSector(b, l, c) + b.sectorsPerCluster <= l.dataStart + l.clusterCount * b.sectorsPerCluster
  {
    NoWrap(b);
    var l := Mounted(b);
    MulMonotone(0, c - 2, b.sectorsPerCluster);
    MulMonotone(c - 1, l.clusterCount, b.sectorsPerCluster);
    assert (c - 2) * b.sectorsPerCluster + b.sectorsPerCluster == (c - 1) * b.sectorsPerCluster;
  }

  /** Every data cluster lies between the metadata and the end of the volume. */
  lemma ClustersInDataArea(b: Boot, c: int, s: int)
    requires Readable(b) && MetaSectors(b) <= TotalSectors(b)
    requires IsCluster(Mounted(b), c) && InCluster(b, Mounted(b), c, s)
    ensures var l := Mounted(b);
            && l.fatStart <= l.rootStart <= l.dataStart <= s < TotalSectors(b)
  {
    NoWrap(b);
    ClusterPlace(b, c);
  }

  /** No sector belongs to two clusters. */
  lemma ClustersDisjoint(b: Boot, c: int, d: int, s: int)
    requires Readable(b) && MetaSectors(b) <= TotalSectors(b)
    requires IsCluster(Mounted(b), c) && IsCluster(Mounted(b), d)
    requires InCluster(b, Mounted(b), c, s) && InCluster(b, Mounted(b), d, s)
    ensures c == d
  {
    ClusterPlace(b, c);
    ClusterPlace(b, d);
    if c < d {
      StrictlyBefore(c, d, b.sectorsPerCluster);
    } else if d < c {
      StrictlyBefore(d, c, b.sectorsPerCluster);
    }
  }

  lemma StrictlyBefore(c: int, d: int, spc: int)
    requires c < d && 0 <= spc
    ensures (c - 2) * spc + spc <= (d - 2) * spc
  {
    MulMonotone(c - 1, d - 2, spc);
    assert (c - 2) * spc + spc == (c - 1) * spc;
  }

  /** Every sector of the data area, but for a tail shorter than a cluster, belongs to a cluster. */
  lemma ClustersCover(b: Boot, s: int) returns (c: int)
    requires Readable(b) && MetaSectors(b) <= TotalSectors(b)
    requires Mounted(b).dataStart <= s < TotalSectors(b) - (TotalSectors(b) - MetaSectors(b)) % b.sectorsPerCluster
    ensures IsCluster(Mounted(b), c) && InCluster(b, Mounted(b), c, s)
  {
    NoWrap(b);
    var l, spc := Mounted(b), b.sectorsPerCluster;
    var k := (s - l.dataStart) / spc;
    DivBounds(s - l.dataStart, spc);
    DivBounds(TotalSectors(b) - MetaSectors(b), spc);
    if k >= l.clusterCount {
      MulMonotone(l.clusterCount, k, spc);
    }
    c := k + 2;
    ClusterPlace(b, c);
  }

  /**
   The clusters lie between the metadata and the end of the volume if and only if the metadata
   fits.  If it does not, the count of data sectors wraps; cluster 2 then lies behind the volume or,
   where the sum of the metadata wraps too, in front of the end of the metadata.
   */
  lemma LayoutFitsIff(b: Boot)
    requires Readable(b) && Mounted(b).clusterCount > 0
    ensures (forall c, s | IsCluster(Mounted(b), c) && InCluster(b, Mounted(b), c, s) ::
               MetaSectors(b) <= s < TotalSectors(b))
            <==> MetaSectors(b) <= TotalSectors(b)
    ensures MetaSectors(b) < TWO32 ==>
              ((forall c, s | IsCluster(Mounted(b), c) && InCluster(b, Mounted(b), c, s) :: s < TotalSectors(b))
               <==> MetaSectors(b) <= TotalSectors(b))
  {
    var l := Mounted(b);
    if MetaSectors(b) <= TotalSectors(b) {
      forall c, s | IsCluster(l, c) && InCluster(b, l, c, s) ensures MetaSectors(b) <= s < TotalSectors(b) {
        NoWrap(b);
        ClustersInDataArea(b, c, s);
      }
    } else {
      FirstOutside(b, l);
    }
  }

  /** With too much metadata the first sector of cluster 2 lies outside the data area. */
  lemma FirstOutside(b: Boot, l: Layout)
    requires Readable(b) && l == Mounted(b) && l.clusterCount > 0 && MetaSectors(b) > TotalSectors(b)
    ensures IsCluster(l, 2) && InCluster(b, l, 2, l.dataStart)
    ensures if MetaSectors(b) < TWO32 then l.dataStart == MetaSectors(b) else l.dataStart < MetaSectors(b)
  {
    if MetaSectors(b) < TWO32 { FirstCluster(b); }
    assert (2 - 2) * b.sectorsPerCluster == 0;
  }

  lemma FirstCluster(b: Boot)
    requires Readable(b) && MetaSectors(b) < TWO32
    ensures Mounted(b).dataStart == MetaSectors(b) && FirstSector(b, Mounted(b), 2) == MetaSectors(b)
  {
    PartsNotNegative(b);
    PlacedDataStart(b.reservedSectors, b.numFats * FatSectors(b), RootSectors(b), TotalSectors(b), FatSectors(b),
                    b.sectorsPerCluster, b.sectorsPerCluster * b.bytesPerSector);
    assert (2 - 2) * b.sectorsPerCluster == 0;
  }

  /** A boot sector whose metadata does not fit: 100 sectors in all, and two FATs of 100 sectors each. */
  const OVERFULL: Boot := Boot(512, 1, 32, 2, 0, 0, 0, 100, 100, 2)

  /** The clusters are not always inside the volume: this one is mounted with cluster 2 past its end. */
  lemma LayoutOverflows()
    ensures Readable(OVERFULL) && TotalSectors(OVERFULL) < MetaSectors(OVERFULL) < TWO32
    ensures Mounted(OVERFULL).clusterCount == 4294967164
    ensures IsCluster(Mounted(OVERFULL), 2) && InCluster(OVERFULL, Mounted(OVERFULL), 2, 232)
    ensures 232 >= TotalSectors(OVERFULL)
  {
    assert MetaSectors(OVERFULL) == 232;
    FirstCluster(OVERFULL);
  }

  // ---------- the bound of a directory search ----------

  /** `cluster_count + 2` as the 32-bit word that a search compares cluster numbers with. */
  function SearchLimit(l: Layout): int {
    (l.clusterCount + 2) % TWO32
  }

  /** The bound does not wrap. */
  predicate Searchable(l: Layout) {
    l.clusterCount + 2 < TWO32
  }

  /** The bound admits a cluster if and only if it does not wrap. */
  lemma SearchedIff(l: Layout, c: int)
    requires 0 <= l.clusterCount < TWO32 && IsCluster(l, c)
    ensures c < SearchLimit(l) <==> Searchable(l)
  {
  }

  /** The bound admits every cluster if and only if it does not wrap; if it wraps, it admits none. */
  lemma SearchLimitIff(l: Layout)
    requires 0 <= l.clusterCount < TWO32
    ensures (forall c | IsCluster(l, c) :: c < SearchLimit(l)) <==> Searchable(l)
    ensures !Searchable(l) ==> forall c | IsCluster(l, c) :: c >= SearchLimit(l)
  {
    if !Searchable(l) {
      assert IsCluster(l, 2) && SearchLimit(l) < 2;
    }
  }

  /** The same volume with one sector less than its metadata. */
  const UNSEARCHABLE: Boot := OVERFULL.(totalSectors32 := 231)

  /** A search can fail to start: this boot sector is mounted as FAT32 and the bound is 1. */
  lemma SearchLimitWraps()
    ensures Readable(UNSEARCHABLE) && Mounted(UNSEARCHABLE).fatType.Fat32?
    ensures Mounted(UNSEARCHABLE).clusterCount == TWO32 - 1 && SearchLimit(Mounted(UNSEARCHABLE)) == 1
    ensures IsCluster(Mounted(UNSEARCHABLE), UNSEARCHABLE.rootCluster)
  {
    assert MetaSectors(UNSEARCHABLE) == 232;
  }
}
