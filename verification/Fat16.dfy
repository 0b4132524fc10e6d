/** The FAT16 reader: the cluster chain, the recursive cluster read and the
    record read of a file, against plain slices of the chain's contents. */
module Fat16 {
  import opened Bits
  import opened Status
  import opened Streamer

  const FAT_ENTRY_SIZE: int := 2
  const DIRECTORY_ITEM_SIZE: int := 32

  /** The fields of the boot sector that the reader uses. */
  datatype Header = Header(
    reservedSectors: nat, fatCopies: nat, sectorsPerFat: nat, rootDirEntries: nat, sectorsPerCluster: nat) {

    /** Where the root directory begins, as in `fat16_get_root_directory`. */
    function RootSector(): nat {
      fatCopies * sectorsPerFat + reservedSectors
    }

    /** The first sector behind it, rounding its size up to whole sectors. */
    function RootEnd(): nat {
      var size := rootDirEntries * DIRECTORY_ITEM_SIZE;
      RootSector() + size / SECTOR_SIZE + if size % SECTOR_SIZE != 0 then 1 else 0
    }

    function ClusterBytes(): nat {
      sectorsPerCluster * SECTOR_SIZE
    }

    /** Which cluster of its chain byte `p` of a file lies in, and where in it. */
    function Index(p: nat): nat
      requires sectorsPerCluster > 0
    {
      p / ClusterBytes()
    }

    function Within(p: nat): (o: nat)
      requires sectorsPerCluster > 0
      ensures o < ClusterBytes()
    {
      p % ClusterBytes()
    }

    /** How much of `total` bytes one piece of the recursive read takes. */
    function PieceSize(total: nat): nat {
      if total > ClusterBytes() then ClusterBytes() else total
    }

    /** The byte position of a cluster, from `fat16_cluster_to_sector`. */
    function Base(cluster: int): int {
      (RootEnd() + (cluster - 2) * sectorsPerCluster) * SECTOR_SIZE
    }

    /** The position of a cluster's entry in the first table. */
    function EntryPosition(cluster: nat): nat {
      reservedSectors * SECTOR_SIZE + cluster * FAT_ENTRY_SIZE
    }

    /** The widths of the fields on disk that positions of table entries depend
        on. */
    predicate Fits() {
      reservedSectors < 0x1_0000
    }

    /** The entry of a cluster can be read. */
    predicate EntryFits(cluster: nat) {
      EntryPosition(cluster) + FAT_ENTRY_SIZE < INT_LIMIT
    }
  }

  // ----- A reference: the layout of a volume, sector by sector

  /** What a sector before the data clusters is for (fatgen103, "FAT Volume
      Structure"). */
  datatype Use = Reserved | Table(copy: nat) | Root

  /** `n` sectors of the same use. */
  function Sectors(use: Use, n: nat): (s: seq<Use>)
    ensures |s| == n && forall i | 0 <= i < n :: s[i] == use
  {
    seq(n, _ => use)
  }

  /** The first `n` copies of the table. */
  function Tables(h: Header, n: nat): seq<Use> {
    if n == 0 then [] else Tables(h, n - 1) + Sectors(Table(n - 1), h.sectorsPerFat)
  }

  /** How many sectors hold `bytes` bytes. */
  function SectorsFor(bytes: nat): (n: nat)
    ensures n * 512 >= bytes && (n > 0 ==> (n - 1) * 512 < bytes)
    decreases bytes
  {
    if bytes == 0 then 0 else if bytes <= 512 then 1 else 1 + SectorsFor(bytes - 512)
  }

  /** The reserved sectors, the copies of the table and the root directory, one
      after the other. */
  function SystemArea(h: Header): seq<Use> {
    Sectors(Reserved, h.reservedSectors) + Tables(h, h.fatCopies) + Sectors(Root, SectorsFor(32 * h.rootDirEntries))
  }

  lemma {:induction false} TablesLength(h: Header, n: nat)
    ensures |Tables(h, n)| == n * h.sectorsPerFat
    ensures forall i | 0 <= i < |Tables(h, n)| :: Tables(h, n)[i].Table?
  {
    if n > 0 {
      TablesLength(h, n - 1);
      assert n * h.sectorsPerFat == (n - 1) * h.sectorsPerFat + h.sectorsPerFat;
    }
  }

  lemma {:induction false} TablesAt(h: Header, n: nat, copy: nat, k: nat)
    requires copy < n && k < h.sectorsPerFat
    ensures copy * h.sectorsPerFat + k < |Tables(h, n)| && Tables(h, n)[copy * h.sectorsPerFat + k] == Table(copy)
  {
    TablesLength(h, n - 1);
    if copy < n - 1 {
      TablesAt(h, n - 1, copy, k);
    }
  }

  lemma RootSectors(h: Header)
    ensures h.RootEnd() - h.RootSector() == SectorsFor(32 * h.rootDirEntries)
  {
    var bytes := 32 * h.rootDirEntries;
    var n := SectorsFor(bytes);
    assert h.RootEnd() - h.RootSector() == bytes / 512 + if bytes % 512 != 0 then 1 else 0;
  }

  /** The root directory lies where the layout has it: its sectors are those
      between the last table and the first cluster. */
  lemma RootIsWhereLaidOut(h: Header, sector: nat)
    ensures sector < |SystemArea(h)| && SystemArea(h)[sector] == Root <==> h.RootSector() <= sector < h.RootEnd()
    ensures |SystemArea(h)| == h.RootEnd()
  {
    TablesLength(h, h.fatCopies);
    RootSectors(h);
  }

  /** The entry of a cluster lies in the first copy of the table, two bytes for
      each cluster, if the table is long enough for it. */
  lemma EntriesAreInFirstTable(h: Header, cluster: nat)
    requires 2 * cluster + 2 <= 512 * h.sectorsPerFat && h.fatCopies > 0
    ensures var p := h.EntryPosition(cluster);
            && p / 512 == (p + 1) / 512 < |SystemArea(h)|
            && SystemArea(h)[p / 512] == Table(0)
            && p == 512 * h.reservedSectors + 2 * cluster
  {
    var k := 2 * cluster / 512;
    assert h.EntryPosition(cluster) == 512 * h.reservedSectors + 2 * cluster;
    assert h.EntryPosition(cluster) / 512 == h.reservedSectors + k;
    TablesAt(h, h.fatCopies, 0, k);
  }

  /** The data clusters, numbered from 2, follow the system area without gap or
      overlap: each sector behind it belongs to exactly one of them. */
  lemma ClustersFollow(h: Header, cluster: nat, sector: nat)
    requires h.sectorsPerCluster > 0 && cluster >= 2 && sector >= |SystemArea(h)|
    ensures h.Base(cluster) <= 512 * sector < h.Base(cluster) + h.ClusterBytes()
            <==> cluster == 2 + (sector - |SystemArea(h)|) / h.sectorsPerCluster
    ensures h.Base(2) == 512 * |SystemArea(h)| && h.Base(cluster + 1) == h.Base(cluster) + h.ClusterBytes()
  {
    RootIsWhereLaidOut(h, 0);
    var first, n := |SystemArea(h)|, h.sectorsPerCluster;
    var c, d := cluster - 2, sector - first;
    assert h.Base(cluster) == 512 * (first + c * n) && h.ClusterBytes() == 512 * n;
    assert h.Base(cluster + 1) == 512 * (first + (c + 1) * n);
    assert (c + 1) * n == c * n + n;
    var q, r := d / n, d % n;
    assert d == q * n + r;
    if c * n <= d < c * n + n {
      ModUnique(d, n, c, d - c * n);
    }
  }

  /** On the disk of the repository's own boot sector the root directory starts
      at sector 712 and cluster 2 at sector 716. */
  lemma OwnVolume()
    ensures var h := Header(200, 2, 0x100, 0x40, 0x80); h.RootSector() == 712 && h.Base(2) == 716 * 512
  {
  }

  /** `fat16_get_fat_entry`: a little-endian 16-bit number. */
  function FatEntry(disk: Disk, h: Header, cluster: nat): nat {
    disk(h.EntryPosition(cluster)) + 0x100 * disk(h.EntryPosition(cluster) + 1)
  }

  /** The entries at which the walk of the source gives up. */
  predicate IsStop(entry: nat) {
    entry == 0xFFF8 || entry == 0xFFFF || entry == 0xFF7 || entry == 0xFF0 || entry == 0xFF6 || entry == 0x00
  }

  /** What the FAT standard counts as free, bad or end of chain (fatgen103,
      section "FAT Data Structure"). */
  predicate IsStopInStandard(entry: nat) {
    entry == 0 || entry >= 0xFFF7
  }

  /** The entries on which the source and the standard disagree: bad clusters
      and most ends of chain, and three ordinary clusters. */
  predicate IsContested(entry: nat) {
    entry == 0xFFF7 || 0xFFF9 <= entry <= 0xFFFE || entry in {0xFF0, 0xFF6, 0xFF7}
  }

  lemma StopsDiffer(entry: nat)
    requires entry <= 0xFFFF
    ensures IsStop(entry) != IsStopInStandard(entry) <==> IsContested(entry)
  {
  }

  /** The k-th cluster of the chain from `start`, or a negative error. */
  function ClusterAt(disk: Disk, h: Header, start: nat, k: nat): (c: int)
    ensures c >= 0 || c == -1
  {
    if k == 0 then start
    else
      var previous := ClusterAt(disk, h, start, k - 1);
      if previous < 0 then previous
      else if IsStop(FatEntry(disk, h, previous)) then -EIO
      else FatEntry(disk, h, previous)
  }

  lemma {:induction false} ChainPrefix(disk: Disk, h: Header, start: nat, j: nat, k: nat)
    requires j <= k && ClusterAt(disk, h, start, k) >= 0
    ensures ClusterAt(disk, h, start, j) >= 0
  {
    if j < k {
      ChainPrefix(disk, h, start, j, k - 1);
    }
  }

  /** The same walk with the markers of the standard. */
  function StandardClusterAt(disk: Disk, h: Header, start: nat, k: nat): (c: int)
    ensures c >= 0 || c == -1
  {
    if k == 0 then start
    else
      var previous := StandardClusterAt(disk, h, start, k - 1);
      if previous < 0 then previous
      else if IsStopInStandard(FatEntry(disk, h, previous)) then -EIO
      else FatEntry(disk, h, previous)
  }

  ghost predicate WalksAgree(disk: Disk, h: Header, start: nat, n: nat) {
    forall k: nat | k <= n :: ClusterAt(disk, h, start, k) == StandardClusterAt(disk, h, start, k)
  }

  /** None of the entries that the first `n` steps of the walk look at is
      contested. */
  ghost predicate Uncontested(disk: Disk, h: Header, start: nat, n: nat) {
    forall k: nat | k < n && ClusterAt(disk, h, start, k) >= 0 ::
      !IsContested(FatEntry(disk, h, ClusterAt(disk, h, start, k)))
  }

  /** The source walks a chain as the standard does, cluster by cluster and
      error by error, if and only if no entry it looks at is contested. */
  lemma {:induction false} WalksAgreeIff(disk: Disk, h: Header, start: nat, n: nat)
    ensures WalksAgree(disk, h, start, n) <==> Uncontested(disk, h, start, n)
  {
    if n > 0 {
      WalksAgreeIff(disk, h, start, n - 1);
      StepAgreesIff(disk, h, start, n);
      assert WalksAgree(disk, h, start, n) ==> WalksAgree(disk, h, start, n - 1);
      assert Uncontested(disk, h, start, n) ==> Uncontested(disk, h, start, n - 1);
    }
  }

  lemma StepAgreesIff(disk: Disk, h: Header, start: nat, n: nat)
    requires n > 0
    ensures WalksAgree(disk, h, start, n - 1) ==>
              (ClusterAt(disk, h, start, n) == StandardClusterAt(disk, h, start, n)
               <==> (ClusterAt(disk, h, start, n - 1) >= 0 ==>
                       !IsContested(FatEntry(disk, h, ClusterAt(disk, h, start, n - 1)))))
  {
    hide FatEntry, IsStop, IsStopInStandard, IsContested;
    var previous := ClusterAt(disk, h, start, n - 1);
    if previous >= 0 {
      EntryFits16(disk, h, previous);
      StopsDiffer(FatEntry(disk, h, previous));
    }
  }

  /** An entry is a 16-bit number, so the next one can be read as well. */
  lemma EntryFits16(disk: Disk, h: Header, cluster: nat)
    ensures FatEntry(disk, h, cluster) <= 0xFFFF
    ensures h.Fits() ==> h.EntryFits(FatEntry(disk, h, cluster))
  {
  }

  // ----- The specification: a file is the concatenation of its clusters

  /** The contents of the first `n` clusters of a chain. */
  ghost function Contents(disk: Disk, h: Header, start: nat, n: nat): (s: seq<u8>)
    ensures |s| == n * h.ClusterBytes()
  {
    if n == 0 then []
    else Contents(disk, h, start, n - 1) + Bytes(disk, h.Base(ClusterAt(disk, h, start, n - 1)), h.ClusterBytes())
  }

  /** Byte `p` of the chain. */
  ghost function ByteAt(disk: Disk, h: Header, start: nat, p: nat): u8
    requires h.sectorsPerCluster > 0
  {
    disk(h.Base(ClusterAt(disk, h, start, h.Index(p))) + h.Within(p))
  }

  ghost function Slice(disk: Disk, h: Header, start: nat, offset: nat, total: nat): (s: seq<u8>)
    requires h.sectorsPerCluster > 0
    ensures |s| == total
  {
    seq<u8>(total, i requires i >= 0 => ByteAt(disk, h, start, offset + i))
  }

  lemma {:induction false} ContentsAt(disk: Disk, h: Header, start: nat, n: nat, p: nat)
    requires h.sectorsPerCluster > 0 && p < n * h.ClusterBytes()
    ensures p < |Contents(disk, h, start, n)| && Contents(disk, h, start, n)[p] == ByteAt(disk, h, start, p)
  {
    var c := h.ClusterBytes();
    assert n * c == (n - 1) * c + c;
    if p < (n - 1) * c {
      ContentsAt(disk, h, start, n - 1, p);
    } else {
      ModUnique(p, c, n - 1, p - (n - 1) * c);
    }
  }

  /** A slice is a piece of the concatenated clusters. */
  lemma SliceOfContents(disk: Disk, h: Header, start: nat, offset: nat, total: nat, n: nat)
    requires h.sectorsPerCluster > 0 && offset + total <= n * h.ClusterBytes()
    ensures Slice(disk, h, start, offset, total) == Contents(disk, h, start, n)[offset..offset + total]
  {
    forall i: nat | i < total
      ensures Slice(disk, h, start, offset, total)[i] == Contents(disk, h, start, n)[offset + i]
    {
      ContentsAt(disk, h, start, n, offset + i);
    }
  }

  lemma SliceSplit(disk: Disk, h: Header, start: nat, offset: nat, a: nat, b: nat)
    requires h.sectorsPerCluster > 0
    ensures Slice(disk, h, start, offset, a) + Slice(disk, h, start, offset + a, b)
            == Slice(disk, h, start, offset, a + b)
  {
  }

  // ----- What the recursive read delivers

  datatype Delivery = Delivery(res: int, bytes: seq<u8>)

  /** `fat16_read_internal_from_stream`: a result code and the bytes written,
      walking the chain from its start for every piece. */
  ghost function Delivered(disk: Disk, tail: Tail, h: Header, start: nat, offset: nat, total: nat): (d: Delivery)
    requires h.sectorsPerCluster > 0
    ensures d.res == 0 || d.res == -1
    ensures |d.bytes| <= total && (d.res == 0 ==> |d.bytes| == total)
    decreases total
  {
    var cluster := ClusterAt(disk, h, start, h.Index(offset));
    if cluster < 0 then Delivery(cluster, [])
    else
      var n := h.PieceSize(total);
      var piece := Streamed(disk, tail, h.Base(cluster) + h.Within(offset), n);
      if total > n then
        var rest := Delivered(disk, tail, h, start, offset + n, total - n);
        Delivery(rest.res, piece + rest.bytes)
      else Delivery(0, piece)
  }

  lemma DeliveredStep(disk: Disk, tail: Tail, h: Header, start: nat, offset: nat, total: nat)
    requires h.sectorsPerCluster > 0
    ensures var n, d := h.PieceSize(total), Delivered(disk, tail, h, start, offset, total);
            var cluster := ClusterAt(disk, h, start, h.Index(offset));
            if cluster < 0 then d == Delivery(cluster, [])
            else
              var piece := Streamed(disk, tail, h.Base(cluster) + h.Within(offset), n);
              if total <= n then d == Delivery(0, piece)
              else
                var rest := Delivered(disk, tail, h, start, offset + n, total - n);
                d == Delivery(rest.res, piece + rest.bytes)
  {
    hide Streamed, Header.Base, Header.ClusterBytes, Header.Index, Header.Within, ClusterAt;
  }

  /** Every stream read of the recursion stays inside the sector buffer. */
  predicate SectorSafe(h: Header, offset: nat, total: nat)
    requires h.sectorsPerCluster > 0
  {
    var o := h.Within(offset);
    o % SECTOR_SIZE == 0 || o % SECTOR_SIZE + total <= SECTOR_SIZE
  }

  /** The read starts a cluster or ends inside the one it starts in. */
  predicate ClusterSafe(h: Header, offset: nat, total: nat)
    requires h.sectorsPerCluster > 0
  {
    var o := h.Within(offset);
    o == 0 || o + total <= h.ClusterBytes()
  }

  /** The chain has a cluster for every byte of the request, and one to start
      with even if nothing is requested. */
  predicate LongEnough(disk: Disk, h: Header, start: nat, offset: nat, total: nat)
    requires h.sectorsPerCluster > 0
  {
    ClusterAt(disk, h, start, h.Index(if total > 0 then offset + total - 1 else offset)) >= 0
  }

  /** All offsets and stream positions of a read fit an int: for each of its
      pieces, the table entries walked to find it and the bytes it takes. */
  ghost predicate Reachable(disk: Disk, h: Header, start: nat, offset: nat, total: nat)
    requires h.sectorsPerCluster > 0
    decreases total
  {
    && offset + total < INT_LIMIT
    && (h.Index(offset) > 0 ==> h.EntryFits(start))
    && var cluster, n := ClusterAt(disk, h, start, h.Index(offset)), h.PieceSize(total);
       cluster >= 0 ==>
         && 0 <= h.Base(cluster)
         && h.Base(cluster) + h.Within(offset) + n < INT_LIMIT
         && (total > n ==> Reachable(disk, h, start, offset + n, total - n))
  }

  // ----- Positions in a chain

  lemma ClusterBytesPositive(h: Header)
    requires h.sectorsPerCluster > 0
    ensures h.ClusterBytes() >= SECTOR_SIZE && h.ClusterBytes() % SECTOR_SIZE == 0
  {
  }

  lemma IndexIs(h: Header, p: nat, k: nat, o: nat)
    requires h.sectorsPerCluster > 0 && o < h.ClusterBytes() && p == k * h.ClusterBytes() + o
    ensures h.Index(p) == k && h.Within(p) == o
  {
    hide Header.ClusterBytes;
    ModUnique(p, h.ClusterBytes(), k, o);
  }

  lemma IndexSplit(h: Header, p: nat)
    requires h.sectorsPerCluster > 0
    ensures p == h.Index(p) * h.ClusterBytes() + h.Within(p)
  {
    hide Header.ClusterBytes;
    ClusterBytesPositive(h);
  }

  /** Positions in the same cluster. */
  lemma IndexSame(h: Header, p: nat, i: nat)
    requires h.sectorsPerCluster > 0 && h.Within(p) + i < h.ClusterBytes()
    ensures h.Index(p + i) == h.Index(p) && h.Within(p + i) == h.Within(p) + i
  {
    hide Header.ClusterBytes, Header.Index, Header.Within;
    IndexSplit(h, p);
    IndexIs(h, p + i, h.Index(p), h.Within(p) + i);
  }

  /** The same position in the next cluster. */
  lemma IndexNext(h: Header, p: nat)
    requires h.sectorsPerCluster > 0
    ensures h.Index(p + h.ClusterBytes()) == h.Index(p) + 1 && h.Within(p + h.ClusterBytes()) == h.Within(p)
  {
    hide Header.ClusterBytes, Header.Index, Header.Within;
    IndexSplit(h, p);
    var k, size := h.Index(p), h.ClusterBytes();
    assert (k + 1) * size == k * size + size;
    IndexIs(h, p + size, k + 1, h.Within(p));
  }

  lemma IndexMonotone(h: Header, a: nat, b: nat)
    requires h.sectorsPerCluster > 0 && a <= b
    ensures h.Index(a) <= h.Index(b)
  {
    hide Header.ClusterBytes, Header.Index, Header.Within;
    IndexSplit(h, a);
    IndexSplit(h, b);
    if h.Index(a) > h.Index(b) {
      MulGap(h.Index(a), h.Index(b), h.ClusterBytes());
    }
  }

  /** A piece that ends inside its cluster is a slice. */
  lemma PieceIsSlice(disk: Disk, h: Header, start: nat, offset: nat, n: nat)
    requires h.sectorsPerCluster > 0 && h.Within(offset) + n <= h.ClusterBytes()
    ensures Bytes(disk, h.Base(ClusterAt(disk, h, start, h.Index(offset))) + h.Within(offset), n)
            == Slice(disk, h, start, offset, n)
  {
    hide Header.Base, Header.ClusterBytes, Header.Index, Header.Within, ClusterAt;
    var slice := Slice(disk, h, start, offset, n);
    forall i: nat | i < n
      ensures slice[i] == disk(h.Base(ClusterAt(disk, h, start, h.Index(offset))) + h.Within(offset) + i)
    {
      IndexSame(h, offset, i);
      assert slice[i] == ByteAt(disk, h, start, offset + i);
    }
  }

  /** A read that stays inside one sector, or starts a sector and stays inside
      one cluster, or starts a cluster. */
  predicate Admissible(h: Header, offset: nat, total: nat)
    requires h.sectorsPerCluster > 0
  {
    ClusterSafe(h, offset, total) && SectorSafe(h, offset, total)
  }

  /** The read succeeds exactly when the chain is long enough, and then it
      delivers exactly the requested slice of the chain. */
  lemma {:induction false} DeliversSlice(disk: Disk, tail: Tail, h: Header, start: nat, offset: nat, total: nat)
    requires h.sectorsPerCluster > 0 && Admissible(h, offset, total)
    ensures var d := Delivered(disk, tail, h, start, offset, total);
            if LongEnough(disk, h, start, offset, total) then d == Delivery(0, Slice(disk, h, start, offset, total))
            else d.res == -1
    decreases total
  {
    hide Header.Base, Header.ClusterBytes, Header.Index, Header.Within, ClusterAt;
    hide Slice, SectorSafe, Streamed, InBuffer, Bytes, Delivered;
    var size, n := h.ClusterBytes(), h.PieceSize(total);
    ClusterBytesPositive(h);
    DeliveredStep(disk, tail, h, start, offset, total);
    var last := if total > 0 then offset + total - 1 else offset;
    IndexMonotone(h, offset, last);
    if LongEnough(disk, h, start, offset, total) {
      ChainPrefix(disk, h, start, h.Index(offset), h.Index(last));
    }
    PieceIsSlice(disk, h, start, offset, n);
    PieceStreams(disk, tail, h, ClusterAt(disk, h, start, h.Index(offset)), offset, total);
    if total > n {
      IndexNext(h, offset);
      RestSafe(h, offset, total);
      DeliversSlice(disk, tail, h, start, offset + n, total - n);
      SliceSplit(disk, h, start, offset, n, total - n);
    } else if total > 0 {
      IndexSame(h, offset, total - 1);
    }
  }

  // ----- Exactly when the read is right

  /** A disk on which the table entry of `c` refers to `c` itself, and which is
      zero except for the first byte behind cluster `c`. */
  function LoopDisk(h: Header, c: nat): Disk
    requires c < 0x1_0000
  {
    (p: int) =>
      if p == h.Base(c) + h.ClusterBytes() then 1
      else if p == h.EntryPosition(c) then c % 0x100
      else if p == h.EntryPosition(c) + 1 then c / 0x100
      else 0
  }

  lemma LoopEntry(h: Header, c: nat)
    requires h.sectorsPerCluster > 0 && c < 0x1_0000 && h.EntryPosition(c) + 1 < h.Base(c)
    ensures FatEntry(LoopDisk(h, c), h, c) == c
    ensures LoopDisk(h, c)(h.Base(c)) == 0 && LoopDisk(h, c)(h.Base(c) + h.ClusterBytes()) == 1
  {
    hide Header.Base, Header.EntryPosition, Header.ClusterBytes;
    ClusterBytesPositive(h);
    var disk, p := LoopDisk(h, c), h.EntryPosition(c);
    assert disk(p) == c % 0x100;
    assert disk(p + 1) == c / 0x100;
  }

  lemma {:induction false} LoopChain(h: Header, c: nat, k: nat)
    requires h.sectorsPerCluster > 0 && c < 0x1_0000 && !IsStop(c) && h.EntryPosition(c) + 1 < h.Base(c)
    ensures ClusterAt(LoopDisk(h, c), h, c, k) == c
  {
    hide Header.Base, Header.EntryPosition, LoopDisk, FatEntry;
    if k > 0 {
      LoopChain(h, c, k - 1);
      LoopEntry(h, c);
    }
  }

  lemma LoopLong(h: Header, c: nat, offset: nat, total: nat)
    requires h.sectorsPerCluster > 0 && c < 0x1_0000 && !IsStop(c) && h.EntryPosition(c) + 1 < h.Base(c)
    ensures LongEnough(LoopDisk(h, c), h, c, offset, total)
  {
    hide Header.Base, Header.EntryPosition, Header.Index, LoopDisk, ClusterAt;
    LoopChain(h, c, h.Index(if total > 0 then offset + total - 1 else offset));
  }

  /** What `LoopDisk` holds along its chain. */
  lemma LoopSlice(h: Header, c: nat, offset: nat, total: nat, at: nat)
    requires h.sectorsPerCluster > 0 && c < 0x1_0000 && !IsStop(c) && h.EntryPosition(c) + 1 < h.Base(c)
    requires at < total
    ensures Slice(LoopDisk(h, c), h, c, offset, total)[at] == 0
  {
    hide Header.Base, Header.EntryPosition, Header.ClusterBytes, Header.Index, Header.Within, ClusterAt;
    LoopChain(h, c, h.Index(offset + at));
    assert ByteAt(LoopDisk(h, c), h, c, offset + at) == 0;
  }

  /** The bytes delivered begin with those of the first piece. */
  lemma FirstPiece(disk: Disk, tail: Tail, h: Header, start: nat, offset: nat, total: nat, at: nat)
    requires h.sectorsPerCluster > 0 && ClusterAt(disk, h, start, h.Index(offset)) >= 0
    requires at < h.PieceSize(total)
    ensures var cluster := ClusterAt(disk, h, start, h.Index(offset));
            at < |Delivered(disk, tail, h, start, offset, total).bytes|
            && Delivered(disk, tail, h, start, offset, total).bytes[at]
               == Streamed(disk, tail, h.Base(cluster) + h.Within(offset), h.PieceSize(total))[at]
  {
    hide Header.Base, Header.ClusterBytes, Header.Index, Header.Within, ClusterAt, Streamed, Delivered;
    DeliveredStep(disk, tail, h, start, offset, total);
  }

  /** A read that crosses a cluster boundary from inside a cluster, starting a
      sector, goes on in the cluster that is next on the disk, not next in the
      chain. */
  lemma CrossingReadsWrong(h: Header, c: nat, offset: nat, total: nat, tail: Tail)
    requires h.sectorsPerCluster > 0 && c < 0x1_0000 && !IsStop(c) && h.EntryPosition(c) + 1 < h.Base(c)
    requires !ClusterSafe(h, offset, total) && h.Within(offset) % SECTOR_SIZE == 0
    ensures LongEnough(LoopDisk(h, c), h, c, offset, total)
    ensures var slice := Slice(LoopDisk(h, c), h, c, offset, total);
            Delivered(LoopDisk(h, c), tail, h, c, offset, total) != Delivery(0, slice)
  {
    hide Header.Base, Header.EntryPosition, Header.ClusterBytes, Header.Index, Header.Within;
    hide LoopDisk, ClusterAt, Streamed, InBuffer, Delivered, LongEnough, Slice;
    var disk, o, n := LoopDisk(h, c), h.Within(offset), h.PieceSize(total);
    LoopChain(h, c, h.Index(offset));
    LoopLong(h, c, offset, total);
    LoopEntry(h, c);
    var at := h.ClusterBytes() - o;
    PieceStreams(disk, tail, h, c, offset, total);
    assert Bytes(disk, h.Base(c) + o, n)[at] == 1;
    FirstPiece(disk, tail, h, c, offset, total, at);
    LoopSlice(h, c, offset, total, at);
  }

  /** A read that crosses a sector boundary from inside a sector goes on in
      what lies on the stack behind the sector buffer. */
  lemma OverReadsWrong(h: Header, c: nat, offset: nat, total: nat, tail: Tail)
    requires h.sectorsPerCluster > 0 && c < 0x1_0000 && !IsStop(c) && h.EntryPosition(c) + 1 < h.Base(c)
    requires !SectorSafe(h, offset, total) && forall pos, k :: tail(pos, k) == 1
    ensures LongEnough(LoopDisk(h, c), h, c, offset, total)
    ensures var slice := Slice(LoopDisk(h, c), h, c, offset, total);
            Delivered(LoopDisk(h, c), tail, h, c, offset, total) != Delivery(0, slice)
  {
    hide Header.Base, Header.EntryPosition, Header.ClusterBytes, Header.Index, Header.Within;
    hide LoopDisk, ClusterAt, Streamed, InBuffer, Delivered, LongEnough, Slice;
    var disk, o, n := LoopDisk(h, c), h.Within(offset), h.PieceSize(total);
    ClusterBytesPositive(h);
    LoopChain(h, c, h.Index(offset));
    LoopLong(h, c, offset, total);
    BaseStartsSector(h, c);
    SameSector(h.Base(c), o);
    var at := SECTOR_SIZE - o % SECTOR_SIZE;
    InBufferIff(h.Base(c) + o, n);
    StreamLeavesBuffer(disk, tail, h.Base(c) + o, n);
    FirstPiece(disk, tail, h, c, offset, total, at);
    LoopSlice(h, c, offset, total, at);
  }

  /** A read that is not admissible fails on some disk and stack. */
  lemma InadmissibleReadsWrong(h: Header, c: nat, offset: nat, total: nat)
    requires h.sectorsPerCluster > 0 && c < 0x1_0000 && !IsStop(c) && h.EntryPosition(c) + 1 < h.Base(c)
    requires !Admissible(h, offset, total)
    ensures LongEnough(LoopDisk(h, c), h, c, offset, total)
    ensures var slice := Slice(LoopDisk(h, c), h, c, offset, total);
            Delivered(LoopDisk(h, c), ONES, h, c, offset, total) != Delivery(0, slice)
  {
    hide Delivered, LongEnough, Slice, LoopDisk;
    ClusterBytesPositive(h);
    if SectorSafe(h, offset, total) {
      AlignedIfCrossing(h, offset, total);
      CrossingReadsWrong(h, c, offset, total, ONES);
    } else {
      OverReadsWrong(h, c, offset, total, ONES);
    }
  }

  lemma AlignedIfCrossing(h: Header, offset: nat, total: nat)
    requires h.sectorsPerCluster > 0 && SectorSafe(h, offset, total) && !ClusterSafe(h, offset, total)
    ensures h.Within(offset) % SECTOR_SIZE == 0
  {
    hide Header.ClusterBytes, Header.Within;
    ClusterBytesPositive(h);
    var o, size := h.Within(offset), h.ClusterBytes();
    assert o < size && o + total > size;
    assert o - o % SECTOR_SIZE == o / SECTOR_SIZE * SECTOR_SIZE && size == size / SECTOR_SIZE * SECTOR_SIZE;
  }

  lemma SameSector(base: int, o: nat)
    requires base % SECTOR_SIZE == 0
    ensures (base + o) % SECTOR_SIZE == o % SECTOR_SIZE
  {
  }

  /** A stack of ones. */
  const ONES: Tail := (pos: int, k: nat) => 1

  /** The guard under which the read refines the slice, on every disk and
      whatever lies on the stack, both ways. */
  lemma ReadIsSliceIff(h: Header, c: nat, offset: nat, total: nat)
    requires h.sectorsPerCluster > 0 && c < 0x1_0000 && !IsStop(c) && h.EntryPosition(c) + 1 < h.Base(c)
    ensures (forall disk: Disk, tail: Tail :: LongEnough(disk, h, c, offset, total) ==>
               Delivered(disk, tail, h, c, offset, total) == Delivery(0, Slice(disk, h, c, offset, total)))
            <==> Admissible(h, offset, total)
  {
    hide Delivered, LongEnough, Slice, Admissible, LoopDisk;
    if Admissible(h, offset, total) {
      forall disk: Disk, tail: Tail | LongEnough(disk, h, c, offset, total)
        ensures Delivered(disk, tail, h, c, offset, total) == Delivery(0, Slice(disk, h, c, offset, total))
      {
        DeliversSlice(disk, tail, h, c, offset, total);
      }
    } else {
      InadmissibleReadsWrong(h, c, offset, total);
    }
  }

  // ----- The code

  lemma EntryInBuffer(h: Header, cluster: nat)
    ensures InBuffer(h.EntryPosition(cluster), 2)
  {
    hide InBuffer;
    var k := 256 * h.reservedSectors + cluster;
    assert h.EntryPosition(cluster) == 2 * k;
    ModUnique(2 * k, SECTOR_SIZE, k / 256, 2 * (k % 256));
    InBufferIff(2 * k, 2);
  }

  lemma BaseStartsSector(h: Header, cluster: int)
    ensures h.Base(cluster) % SECTOR_SIZE == 0
  {
    var sectors := h.RootEnd() + (cluster - 2) * h.sectorsPerCluster;
    assert h.Base(cluster) == sectors * SECTOR_SIZE;
  }

  /** The stream reads of one piece stay inside the sector buffer. */
  lemma PieceStreams(disk: Disk, tail: Tail, h: Header, cluster: int, offset: nat, total: nat)
    requires h.sectorsPerCluster > 0 && SectorSafe(h, offset, total)
    ensures var n, pos := h.PieceSize(total), h.Base(cluster) + h.Within(offset);
            InBuffer(pos, n) && Streamed(disk, tail, pos, n) == Bytes(disk, pos, n)
  {
    hide Header.Base, Header.ClusterBytes, Header.Within, Streamed, InBuffer, Bytes;
    ClusterBytesPositive(h);
    BaseStartsSector(h, cluster);
    SameSector(h.Base(cluster), h.Within(offset));
    var n, pos := h.PieceSize(total), h.Base(cluster) + h.Within(offset);
    InBufferIff(pos, n);
    InBufferStreams(disk, tail, pos, n);
  }

  /** What remains after a full cluster is as safe as the whole. */
  lemma RestSafe(h: Header, offset: nat, total: nat)
    requires h.sectorsPerCluster > 0 && SectorSafe(h, offset, total) && total > h.ClusterBytes()
    ensures SectorSafe(h, offset + h.ClusterBytes(), total - h.ClusterBytes())
  {
    hide Header.ClusterBytes, Header.Within, Header.Index;
    ClusterBytesPositive(h);
    IndexNext(h, offset);
  }

  /** A mounted FAT16 volume: its header and its two shared streams. */
  class Volume {
    const header: Header
    const disk: Disk
    const tail: Tail
    const clusterReadStream: DiskStream
    const fatReadStream: DiskStream

    constructor (header: Header, disk: Disk, tail: Tail)
      requires header.sectorsPerCluster > 0 && header.Fits()
      ensures this.header == header && this.disk == disk && this.tail == tail && Valid()
      ensures fresh(clusterReadStream) && fresh(fatReadStream)
    {
      this.header := header;
      this.disk := disk;
      this.tail := tail;
      clusterReadStream := new DiskStream(disk, tail);
      fatReadStream := new DiskStream(disk, tail);
    }

    ghost predicate Valid() {
      && header.sectorsPerCluster > 0 && header.Fits()
      && clusterReadStream.disk == disk && fatReadStream.disk == disk && clusterReadStream.tail == tail
      && clusterReadStream != fatReadStream
    }

    /** `fat16_get_fat_entry`. */
    method GetFatEntry(cluster: nat) returns (entry: nat)
      requires Valid() && header.EntryFits(cluster)
      modifies fatReadStream`pos
      ensures entry == FatEntry(disk, header, cluster)
      ensures var p := 512 * header.reservedSectors + 2 * cluster;
              entry == disk(p) as int + 0x100 * (disk(p + 1) as int)
    {
      var position := header.reservedSectors * SECTOR_SIZE;
      var _ := fatReadStream.Seek(position + cluster * FAT_ENTRY_SIZE);
      var result := new u8[2];
      EntryInBuffer(header, cluster);
      var _ := fatReadStream.Read(result, 0, 2);
      assert result[..] == Bytes(disk, header.EntryPosition(cluster), 2);
      assert result[0] == result[..][0] && result[1] == result[..][1];
      var low: int, high: int := result[0], result[1];
      entry := low + 0x100 * high;
    }

    /** `fat16_get_cluster_for_offset`: walk the chain from its start. */
    method GetClusterForOffset(startingCluster: nat, offset: nat) returns (res: int)
      requires Valid() && (header.Index(offset) > 0 ==> header.EntryFits(startingCluster))
      modifies fatReadStream`pos
      ensures res == ClusterAt(disk, header, startingCluster, header.Index(offset))
    {
      var sizeOfCluster := header.ClusterBytes();
      var clusterToUse := startingCluster;
      var clustersAhead := offset / sizeOfCluster;
      for i := 0 to clustersAhead
        invariant clusterToUse == ClusterAt(disk, header, startingCluster, i)
        invariant i < clustersAhead ==> header.EntryFits(clusterToUse)
      {
        var entry := GetFatEntry(clusterToUse);
        if IsStop(entry) {
          StopsForGood(disk, header, startingCluster, i + 1, clustersAhead);
          return -EIO;
        }
        EntryFits16(disk, header, clusterToUse);
        clusterToUse := entry;
      }
      res := clusterToUse;
    }

    /** `fat16_read_internal`: cluster by cluster, recursively. */
    method ReadInternal(startingCluster: nat, offset: nat, total: nat, out: array<u8>, at: nat) returns (res: int)
      requires Valid() && Reachable(disk, header, startingCluster, offset, total)
      requires at + total <= out.Length
      modifies clusterReadStream`pos, fatReadStream`pos, out
      ensures res == Delivered(disk, tail, header, startingCluster, offset, total).res
      ensures out[..]
              == Overwrite(old(out[..]), at, Delivered(disk, tail, header, startingCluster, offset, total).bytes)
      decreases total
    {
      hide Overwrite, Bytes, Streamed, InBuffer, Delivered, ClusterAt, FatEntry;
      hide Header.Base, Header.ClusterBytes, Header.Index, Header.Within;
      ClusterBytesPositive(header);
      DeliveredStep(disk, tail, header, startingCluster, offset, total);
      ghost var s := out[..];
      var sizeOfCluster := header.ClusterBytes();
      var clusterToUse := GetClusterForOffset(startingCluster, offset);
      if clusterToUse < 0 {
        OverwriteEmpty(s, at);
        return clusterToUse;
      }
      var totalToRead := if total > sizeOfCluster then sizeOfCluster else total;
      var startingPos := header.Base(clusterToUse) + header.Within(offset);
      var _ := clusterReadStream.Seek(startingPos);
      res := clusterReadStream.Read(out, at, totalToRead);
      ghost var piece := Streamed(disk, tail, startingPos, totalToRead);
      if total - totalToRead > 0 {
        ghost var rest := Delivered(disk, tail, header, startingCluster, offset + totalToRead, total - totalToRead);
        OverwriteTwice(s, at, piece, rest.bytes);
        res := ReadInternal(startingCluster, offset + totalToRead, total - totalToRead, out, at + totalToRead);
      }
    }

    /** `fat16_read`: `nmemb` records of `size` bytes from the file's position,
        which moves only if all of them could be read. */
    method Read(file: File, size: nat, nmemb: nat, out: array<u8>) returns (res: int)
      requires Valid() && size * nmemb <= out.Length
      requires forall i: nat {:trigger RecordReachable(disk, header, file.start, file.pos, size, i)} | i < nmemb ::
                 RecordReachable(disk, header, file.start, file.pos, size, i)
      modifies file`pos, clusterReadStream`pos, fatReadStream`pos, out
      ensures var d := Records(disk, tail, header, file.start, old(file.pos), size, nmemb);
              && out[..] == Overwrite(old(out[..]), 0, d.bytes)
              && if d.res == 0 then res == nmemb && file.pos == old(file.pos) + size * nmemb
                 else res == d.res && file.pos == old(file.pos)
    {
      hide Overwrite, Delivered;
      ghost var s := out[..];
      var offset := file.pos;
      OverwriteEmpty(s, 0);
      for i := 0 to nmemb
        invariant offset == file.pos + size * i && file.pos == old(file.pos)
        invariant Records(disk, tail, header, file.start, file.pos, size, i).res == 0
        invariant out[..] == Overwrite(s, 0, Records(disk, tail, header, file.start, file.pos, size, i).bytes)
      {
        ghost var before := Records(disk, tail, header, file.start, file.pos, size, i).bytes;
        RecordFits(size, i, nmemb);
        assert RecordReachable(disk, header, file.start, file.pos, size, i);
        OverwriteTwice(s, 0, before, Delivered(disk, tail, header, file.start, offset, size).bytes);
        RecordsStep(disk, tail, header, file.start, file.pos, size, i);
        res := ReadInternal(file.start, offset, size, out, size * i);
        if res < 0 {
          RecordsFail(disk, tail, header, file.start, file.pos, size, i + 1, nmemb);
          return;
        }
        offset := offset + size;
      }
      file.pos := offset;
      res := nmemb;
    }
  }

  /** An open file: the first cluster of its directory entry and a position. */
  class File {
    const start: nat
    var pos: nat

    constructor (start: nat)
      ensures this.start == start && pos == 0
    {
      this.start := start;
      pos := 0;
    }
  }

  ghost predicate RecordReachable(disk: Disk, h: Header, start: nat, pos: nat, size: nat, i: nat)
    requires h.sectorsPerCluster > 0
  {
    Reachable(disk, h, start, pos + size * i, size)
  }

  lemma RecordFits(size: nat, i: nat, n: nat)
    requires i < n
    ensures size * i + size <= size * n && size * (i + 1) == size * i + size
  {
    assert size * n == size * (i + 1) + size * (n - i - 1);
  }

  /** What reading `n` records delivers, one after the other. */
  ghost function Records(disk: Disk, tail: Tail, h: Header, start: nat, pos: nat, size: nat, n: nat): (d: Delivery)
    requires h.sectorsPerCluster > 0
    ensures d.res == 0 || d.res == -1
    ensures |d.bytes| <= size * n && (d.res == 0 ==> |d.bytes| == size * n)
  {
    if n == 0 then Delivery(0, [])
    else
      RecordFits(size, n - 1, n);
      var before := Records(disk, tail, h, start, pos, size, n - 1);
      if before.res < 0 then before
      else
        var d := Delivered(disk, tail, h, start, pos + size * (n - 1), size);
        Delivery(d.res, before.bytes + d.bytes)
  }

  lemma RecordsStep(disk: Disk, tail: Tail, h: Header, start: nat, pos: nat, size: nat, n: nat)
    requires h.sectorsPerCluster > 0 && Records(disk, tail, h, start, pos, size, n).res == 0
    ensures var d := Delivered(disk, tail, h, start, pos + size * n, size);
            Records(disk, tail, h, start, pos, size, n + 1)
            == Delivery(d.res, Records(disk, tail, h, start, pos, size, n).bytes + d.bytes)
  {
    hide Delivered;
  }

  lemma {:induction false} RecordsFail(disk: Disk, tail: Tail, h: Header, start: nat,
                                       pos: nat, size: nat, j: nat, n: nat)
    requires h.sectorsPerCluster > 0 && j <= n && Records(disk, tail, h, start, pos, size, j).res < 0
    ensures Records(disk, tail, h, start, pos, size, n) == Records(disk, tail, h, start, pos, size, j)
  {
    hide Delivered;
    if j < n {
      RecordsFail(disk, tail, h, start, pos, size, j, n - 1);
    }
  }

  /** Reading records delivers one slice of the file, if each record by itself
      is a slice; and it succeeds exactly when the chain is long enough. */
  lemma {:induction false} RecordsAreSlice(disk: Disk, tail: Tail, h: Header, start: nat, pos: nat, size: nat, n: nat)
    requires h.sectorsPerCluster > 0 && size > 0 && n > 0
    requires forall i: nat | i < n :: Admissible(h, pos + size * i, size)
    ensures var d := Records(disk, tail, h, start, pos, size, n);
            if LongEnough(disk, h, start, pos, size * n) then d == Delivery(0, Slice(disk, h, start, pos, size * n))
            else d.res == -1
  {
    hide Delivered, Admissible, Slice, LongEnough, Records;
    RecordFits(size, n - 1, n);
    assert Admissible(h, pos + size * (n - 1), size);
    DeliversSlice(disk, tail, h, start, pos + size * (n - 1), size);
    if n > 1 {
      RecordsAreSlice(disk, tail, h, start, pos, size, n - 1);
      MulGap(n - 1, 0, size);
      LongEnoughSplit(disk, h, start, pos, size * (n - 1), size);
      SliceSplit(disk, h, start, pos, size * (n - 1), size);
      if Records(disk, tail, h, start, pos, size, n - 1).res < 0 {
        RecordsFail(disk, tail, h, start, pos, size, n - 1, n);
      } else {
        RecordsStep(disk, tail, h, start, pos, size, n - 1);
      }
    } else {
      FirstRecord(disk, tail, h, start, pos, size);
    }
  }

  lemma FirstRecord(disk: Disk, tail: Tail, h: Header, start: nat, pos: nat, size: nat)
    requires h.sectorsPerCluster > 0
    ensures Records(disk, tail, h, start, pos, size, 1) == Delivered(disk, tail, h, start, pos, size)
  {
    hide Delivered;
    assert Records(disk, tail, h, start, pos, size, 0) == Delivery(0, []);
    var d := Delivered(disk, tail, h, start, pos + size * 0, size);
    assert [] + d.bytes == d.bytes;
  }

  /** What the last of the records read delivered. */
  lemma LastRecord(disk: Disk, tail: Tail, h: Header, start: nat, pos: nat, size: nat, n: nat)
    requires h.sectorsPerCluster > 0 && n > 0 && Records(disk, tail, h, start, pos, size, n).res == 0
    ensures var before := Records(disk, tail, h, start, pos, size, n - 1);
            var d := Delivered(disk, tail, h, start, pos + size * (n - 1), size);
            && before.res == 0 && d.res == 0 && |before.bytes| == size * (n - 1) && |d.bytes| == size
            && Records(disk, tail, h, start, pos, size, n).bytes == before.bytes + d.bytes
  {
    hide Delivered;
  }

  /** What one of the records read delivered. */
  lemma {:induction false} RecordsPiece(disk: Disk, tail: Tail, h: Header, start: nat,
                                        pos: nat, size: nat, n: nat, i: nat, at: nat)
    requires h.sectorsPerCluster > 0 && i < n && Records(disk, tail, h, start, pos, size, n).res == 0
    requires at == size * i
    ensures var bytes := Records(disk, tail, h, start, pos, size, n).bytes;
            var d := Delivered(disk, tail, h, start, pos + at, size);
            d.res == 0 && at + size <= |bytes| && bytes[at..at + size] == d.bytes
  {
    hide Delivered, Records;
    LastRecord(disk, tail, h, start, pos, size, n);
    if i < n - 1 {
      RecordFits(size, i, n - 1);
      RecordsPiece(disk, tail, h, start, pos, size, n - 1, i, at);
    }
  }

  /** Reading records is right on every disk, whatever lies on the stack, if and
      only if every record by itself is admissible. */
  lemma RecordsAreSliceIff(h: Header, c: nat, pos: nat, size: nat, n: nat)
    requires h.sectorsPerCluster > 0 && c < 0x1_0000 && !IsStop(c) && h.EntryPosition(c) + 1 < h.Base(c)
    requires size > 0 && n > 0
    ensures (forall disk: Disk, tail: Tail :: LongEnough(disk, h, c, pos, size * n) ==>
               Records(disk, tail, h, c, pos, size, n) == Delivery(0, Slice(disk, h, c, pos, size * n)))
            <==> (forall i: nat | i < n :: Admissible(h, pos + size * i, size))
  {
    hide Delivered, LongEnough, Slice, Admissible, LoopDisk, Records;
    if i: nat :| i < n && !Admissible(h, pos + size * i, size) {
      InadmissibleRecordsWrong(h, c, pos, size, n, i);
    } else {
      forall disk: Disk, tail: Tail | LongEnough(disk, h, c, pos, size * n)
        ensures Records(disk, tail, h, c, pos, size, n) == Delivery(0, Slice(disk, h, c, pos, size * n))
      {
        RecordsAreSlice(disk, tail, h, c, pos, size, n);
      }
    }
  }

  lemma InadmissibleRecordsWrong(h: Header, c: nat, pos: nat, size: nat, n: nat, i: nat)
    requires h.sectorsPerCluster > 0 && c < 0x1_0000 && !IsStop(c) && h.EntryPosition(c) + 1 < h.Base(c)
    requires size > 0 && i < n && !Admissible(h, pos + size * i, size)
    ensures LongEnough(LoopDisk(h, c), h, c, pos, size * n)
    ensures var slice := Slice(LoopDisk(h, c), h, c, pos, size * n);
            Records(LoopDisk(h, c), ONES, h, c, pos, size, n) != Delivery(0, slice)
  {
    hide Delivered, Admissible, LoopDisk, Records, ByteAt;
    var disk := LoopDisk(h, c);
    RecordFits(size, i, n);
    LoopLong(h, c, pos, size * n);
    InadmissibleReadsWrong(h, c, pos + size * i, size);
    var whole, part := Slice(disk, h, c, pos, size * n), Slice(disk, h, c, pos + size * i, size);
    assert whole[size * i..size * i + size] == part;
    if Records(disk, ONES, h, c, pos, size, n) == Delivery(0, whole) {
      RecordsPiece(disk, ONES, h, c, pos, size, n, i, size * i);
    }
  }

  /** A chain reaches to the end of two pieces exactly when it reaches to the
      end of the second. */
  lemma LongEnoughSplit(disk: Disk, h: Header, start: nat, pos: nat, a: nat, b: nat)
    requires h.sectorsPerCluster > 0 && a > 0 && b > 0
    ensures LongEnough(disk, h, start, pos, a + b) <==> LongEnough(disk, h, start, pos + a, b)
    ensures LongEnough(disk, h, start, pos, a + b) ==> LongEnough(disk, h, start, pos, a)
  {
    hide ClusterAt, Header.Index;
    IndexMonotone(h, pos + a - 1, pos + a + b - 1);
    if LongEnough(disk, h, start, pos, a + b) {
      ChainPrefix(disk, h, start, h.Index(pos + a - 1), h.Index(pos + a + b - 1));
    }
  }

  /** Reading n records and then m is reading n + m. */
  lemma {:induction false} RecordsCompose(disk: Disk, tail: Tail, h: Header, start: nat,
                                          pos: nat, size: nat, n: nat, m: nat)
    requires h.sectorsPerCluster > 0
    ensures var first := Records(disk, tail, h, start, pos, size, n);
            var second := Records(disk, tail, h, start, pos + size * n, size, m);
            Records(disk, tail, h, start, pos, size, n + m) ==
            if first.res < 0 then first else Delivery(second.res, first.bytes + second.bytes)
  {
    hide Delivered;
    if m > 0 {
      RecordsCompose(disk, tail, h, start, pos, size, n, m - 1);
      assert size * n + size * (m - 1) == size * (n + m - 1);
    }
  }

  lemma OverwriteEmpty(s: seq<u8>, at: nat)
    requires at <= |s|
    ensures Overwrite(s, at, []) == s
  {
  }

  /** Once the chain has ended it stays ended. */
  lemma {:induction false} StopsForGood(disk: Disk, h: Header, start: nat, j: nat, k: nat)
    requires j <= k && ClusterAt(disk, h, start, j) < 0
    ensures ClusterAt(disk, h, start, k) == -1
  {
    if j < k {
      StopsForGood(disk, h, start, j, k - 1);
    }
  }
}
