/** Directories of a FAT16 volume: counting, loading, names and lookup. */
module Directory {
  import opened Bits
  import opened Status
  import opened Streamer
  import opened Fat16
  import opened CStrings

  const SPACE: u8 := 0x20
  const DOT: u8 := 0x2e
  const DELETED: u8 := 0xE5
  const SUBDIRECTORY_BIT: nat := 4

  /** The 32 bytes of a directory entry (fatgen103, "FAT Directory Structure"). */
  type Item = s: seq<u8> | |s| == DIRECTORY_ITEM_SIZE witness seq(DIRECTORY_ITEM_SIZE, _ => 0)

  function NameField(item: Item): seq<u8> { item[..8] }
  function ExtField(item: Item): seq<u8> { item[8..11] }
  predicate IsSubdirectory(item: Item) { Bit(item[11], SUBDIRECTORY_BIT) }
  predicate IsDeleted(item: Item) { item[0] == DELETED }

  /** `fat16_get_first_cluster`: two halves, at offsets 20 and 26. */
  function FirstCluster(item: Item): nat {
    Word(item[20], item[21]) * 0x1_0000 + Word(item[26], item[27])
  }

  function Word(low: int, high: int): int {
    low + 0x100 * high
  }

  // ----- Names

  predicate IsBlank(c: u8) {
    c == 0 || c == SPACE
  }

  /** The characters before the first blank. */
  function Trimmed(s: seq<u8>): (r: seq<u8>)
    ensures |r| <= |s| && r == s[..|r|] && (forall i | 0 <= i < |r| :: !IsBlank(r[i]))
    ensures |r| < |s| ==> IsBlank(s[|r|])
  {
    if |s| == 0 || IsBlank(s[0]) then [] else [s[0]] + Trimmed(s[1..])
  }

  lemma TrimmedIs(s: seq<u8>, n: nat)
    requires n <= |s| && (forall i | 0 <= i < n :: !IsBlank(s[i])) && (n < |s| ==> IsBlank(s[n]))
    ensures Trimmed(s) == s[..n]
  {
  }

  /** NAME or NAME.EXT, both trimmed. */
  function FullName(item: Item): (r: seq<u8>)
    ensures |r| <= 12 && forall i | 0 <= i < |r| :: r[i] != 0
  {
    Trimmed(NameField(item)) + if IsBlank(ExtField(item)[0]) then [] else [DOT] + Trimmed(ExtField(item))
  }

  predicate Matches(item: Item, name: seq<u8>) {
    SameText(FullName(item), Text(name))
  }

  // ----- A reference: how the standard writes an entry

  /** A field of `n` bytes, padded with spaces. */
  function Padded(s: seq<u8>, n: nat): (r: seq<u8>)
    requires |s| <= n
    ensures |r| == n
  {
    s + seq<u8>(n - |s|, _ => 0x20)
  }

  /** The 32 bytes of an entry: name, extension, attributes at offset 11, the
      halves of the first cluster at 20 and 26, the size at 28 (fatgen103, "FAT
      Directory Structure"). */
  function Encode(name: seq<u8>, ext: seq<u8>, attributes: u8, cluster: u32, size: u32): Item
    requires |name| <= 8 && |ext| <= 3
  {
    Padded(name, 8) + Padded(ext, 3) + [attributes] + seq<u8>(8, _ => 0)
    + [ByteOf(cluster, 2), ByteOf(cluster, 3)] + [0, 0, 0, 0]
    + [ByteOf(cluster, 0), ByteOf(cluster, 1)]
    + [ByteOf(size, 0), ByteOf(size, 1), ByteOf(size, 2), ByteOf(size, 3)]
  }

  /** An entry written by the standard reads as what was written: its first
      cluster, whether it is a directory (attribute 0x10) or deleted (first byte
      0xE5), and its name, with a point before a non-empty extension. */
  lemma DecodeEncode(name: seq<u8>, ext: seq<u8>, attributes: u8, cluster: u32, size: u32)
    requires 1 <= |name| <= 8 && |ext| <= 3
    requires forall c | c in name || c in ext :: c != 0 && c != ' ' as int
    ensures var item := Encode(name, ext, attributes, cluster, size);
            && FirstCluster(item) == cluster
            && (IsSubdirectory(item) <==> attributes / 0x10 % 2 == 1)
            && (IsDeleted(item) <==> name[0] == 0xE5)
            && FullName(item) == name + if ext == [] then [] else ['.' as int] + ext
  {
    hide ByteOf, Trimmed, Bit, Padded;
    var item := Encode(name, ext, attributes, cluster, size);
    EncodedFields(name, ext, attributes, cluster, size);
    BytesOfWord(cluster, ByteOf(cluster, 0), ByteOf(cluster, 1), ByteOf(cluster, 2), ByteOf(cluster, 3));
    BitIsDigit(attributes, 4);
    assert Pow2(4) == 16 by { FourBits(); }
    TrimmedPadded(name, 8);
    TrimmedPadded(ext, 3);
  }

  /** So it is found by its name, up to case, and by no other. */
  lemma MatchesEncoded(name: seq<u8>, ext: seq<u8>, attributes: u8, cluster: u32, size: u32, query: seq<u8>)
    requires 1 <= |name| <= 8 && |ext| <= 3
    requires forall c | c in name || c in ext :: c != 0 && c != ' ' as int
    ensures Matches(Encode(name, ext, attributes, cluster, size), query)
            <==> SameText(name + if ext == [] then [] else ['.' as int] + ext, Text(query))
  {
    hide Encode, SameText, Text, FullName;
    DecodeEncode(name, ext, attributes, cluster, size);
  }

  lemma FourBits()
    ensures Pow2(4) == 16
  {
    assert Pow2(2) == 4;
  }

  lemma EncodedFields(name: seq<u8>, ext: seq<u8>, attributes: u8, cluster: u32, size: u32)
    requires 1 <= |name| <= 8 && |ext| <= 3
    ensures var item := Encode(name, ext, attributes, cluster, size);
            && NameField(item) == Padded(name, 8) && ExtField(item) == Padded(ext, 3) && item[11] == attributes
            && item[20] == ByteOf(cluster, 2) && item[21] == ByteOf(cluster, 3)
            && item[26] == ByteOf(cluster, 0) && item[27] == ByteOf(cluster, 1) && item[0] == name[0]
  {
  }

  lemma TrimmedPadded(s: seq<u8>, n: nat)
    requires |s| <= n && forall c | c in s :: c != 0 && c != ' ' as int
    ensures Trimmed(Padded(s, n)) == s
    ensures n > 0 ==> (IsBlank(Padded(s, n)[0]) <==> s == []) && (s != [] ==> Padded(s, n)[0] == s[0])
  {
    assert forall i | 0 <= i < |s| :: Padded(s, n)[i] == s[i] && s[i] in s;
    TrimmedIs(Padded(s, n), |s|);
  }

  /** `fat16_to_proper_string`: copies a blank-padded field and terminates it. */
  method ToProperString(out: array<u8>, at: nat, field: seq<u8>) returns (end: nat)
    requires |field| > 0 && at + |field| < out.Length
    modifies out
    ensures end == at + |Trimmed(field)|
    ensures out[..] == Overwrite(old(out[..]), at, Trimmed(field) + [0])
  {
    hide Overwrite, Trimmed;
    ghost var s := out[..];
    var i := 0;
    end := at;
    assert field[..0] == [];
    OverwriteEmpty(s, at);
    while i < |field| && field[i] != 0x00 && field[i] != SPACE
      invariant 0 <= i <= |field| && end == at + i
      invariant forall j | 0 <= j < i :: !IsBlank(field[j])
      invariant out[..] == Overwrite(s, at, field[..i])
    {
      OverwriteSnoc(s, at, field[..i], field[i]);
      ghost var before := out[..];
      out[end] := field[i];
      assert out[..] == before[at + i := field[i]] && field[..i + 1] == field[..i] + [field[i]];
      end := end + 1;
      i := i + 1;
    }
    TrimmedIs(field, i);
    OverwriteSnoc(s, at, field[..i], 0x00);
    ghost var before := out[..];
    out[end] := 0x00;
    assert out[..] == before[at + i := 0x00];
  }

  /** `memset` of a whole buffer to zero. */
  method ZeroBuffer(out: array<u8>)
    modifies out
    ensures forall j | 0 <= j < out.Length :: out[j] == 0
  {
    for i := 0 to out.Length
      invariant forall j | 0 <= j < i :: out[j] == 0
    {
      out[i] := 0x00;
    }
  }

  /** A terminated string in a buffer, with what came before it kept. */
  lemma TerminatedAt(before: seq<u8>, at: nat, bytes: seq<u8>, stem: seq<u8>)
    requires at + |bytes| + 1 <= |before| && before[..at] == stem
    requires forall i | 0 <= i < |stem| :: stem[i] != 0
    requires forall i | 0 <= i < |bytes| :: bytes[i] != 0
    ensures Overwrite(before, at, bytes + [0])[..at + |bytes|] == stem + bytes
    ensures Terminated(Overwrite(before, at, bytes + [0])) && Text(Overwrite(before, at, bytes + [0])) == stem + bytes
  {
    var after := Overwrite(before, at, bytes + [0]);
    assert after[..at] == stem && after[at..at + |bytes|] == bytes && after[at + |bytes|] == 0;
    TextLengthIs(after, at + |bytes|);
  }

  /** `fat16_get_full_relative_filename`. */
  method GetFullRelativeFilename(item: Item, out: array<u8>)
    requires out.Length == MAX_PATH
    modifies out
    ensures Terminated(out[..]) && Text(out[..]) == FullName(item)
  {
    hide Trimmed, Overwrite, Terminated, Text;
    ghost var stem, ext := Trimmed(NameField(item)), Trimmed(ExtField(item));
    ZeroBuffer(out);
    TerminatedAt(out[..], 0, stem, []);
    var end := ToProperString(out, 0, NameField(item));
    assert out[..][..|stem|] == stem;
    if ExtField(item)[0] != 0x00 && ExtField(item)[0] != SPACE {
      out[end] := DOT;
      assert out[..][..|stem| + 1] == stem + [DOT];
      TerminatedAt(out[..], |stem| + 1, ext, stem + [DOT]);
      end := ToProperString(out, end + 1, ExtField(item));
      assert (stem + [DOT]) + ext == stem + ([DOT] + ext);
    }
  }

  // ----- Lookup

  /** The last entry of that name, or -1. */
  function LastMatch(items: seq<Item>, name: seq<u8>): (r: int)
    ensures -1 <= r < |items|
    ensures r >= 0 ==> Matches(items[r], name)
    ensures forall i | r < i < |items| :: !Matches(items[i], name)
  {
    if |items| == 0 then -1
    else if Matches(items[|items| - 1], name) then |items| - 1
    else LastMatch(items[..|items| - 1], name)
  }

  lemma LastMatchIs(items: seq<Item>, name: seq<u8>, r: int)
    requires -1 <= r < |items| && (r >= 0 ==> Matches(items[r], name))
    requires forall i | r < i < |items| :: !Matches(items[i], name)
    ensures LastMatch(items, name) == r
  {
  }

  /** The comparison of one entry with a name. */
  method NameMatches(item: Item, name: seq<u8>) returns (matches: bool)
    requires Terminated(name)
    ensures matches == Matches(item, name)
  {
    var tmpFilename := new u8[MAX_PATH];
    GetFullRelativeFilename(item, tmpFilename);
    var r := Istrncmp(tmpFilename[..], name, MAX_PATH);
    ShortNamesCompareWhole(FullName(item), Text(name));
    matches := r == 0;
  }

  /** A name of at most twelve characters is compared in full. */
  lemma ShortNamesCompareWhole(a: seq<u8>, b: seq<u8>)
    requires |a| <= 12
    ensures SameText(Take(a, MAX_PATH), Take(b, MAX_PATH)) <==> SameText(a, b)
  {
  }

  /** With unique names the search finds the entry of that name, or none when
      there is none. */
  lemma LookupFindsTheEntry(items: seq<Item>, name: seq<u8>, k: nat)
    requires forall i: nat, j: nat | i < j < |items| :: !SameText(FullName(items[i]), FullName(items[j]))
    ensures k < |items| && Matches(items[k], name) ==> LastMatch(items, name) == k
    ensures (forall i | 0 <= i < |items| :: !Matches(items[i], name)) <==> LastMatch(items, name) == -1
  {
    var r := LastMatch(items, name);
    if k < |items| && Matches(items[k], name) && r >= 0 {
      assert SameText(FullName(items[k]), FullName(items[r])) && SameText(FullName(items[r]), FullName(items[k]));
    }
  }

  // ----- Counting and loading

  /** Raw entry `i` of a directory that starts at `pos`. */
  function RawItem(disk: Disk, pos: int, i: nat): Item {
    Bytes(disk, pos + i * DIRECTORY_ITEM_SIZE, DIRECTORY_ITEM_SIZE)
  }

  predicate IsEnd(disk: Disk, pos: int, i: nat) {
    RawItem(disk, pos, i)[0] == 0x00
  }

  /** `n` raw entries from the start. */
  function RawItems(disk: Disk, pos: int, n: nat): (s: seq<Item>)
    ensures |s| == n && forall i: nat | i < n :: s[i] == RawItem(disk, pos, i)
  {
    if n == 0 then [] else RawItems(disk, pos, n - 1) + [RawItem(disk, pos, n - 1)]
  }

  /** The entries in use. */
  function Live(items: seq<Item>): (r: seq<Item>)
    ensures |r| <= |items| && forall e | e in r :: !IsDeleted(e)
  {
    if |items| == 0 then []
    else Live(items[..|items| - 1]) + if IsDeleted(items[|items| - 1]) then [] else [items[|items| - 1]]
  }

  /** The directory ends at entry `end`, its first end marker. */
  predicate EndsAt(disk: Disk, pos: int, end: nat) {
    IsEnd(disk, pos, end) && forall i: nat | i < end :: !IsEnd(disk, pos, i)
  }

  lemma ItemInBuffer(sector: nat, k: nat)
    ensures InBuffer(sector * SECTOR_SIZE + k * DIRECTORY_ITEM_SIZE, DIRECTORY_ITEM_SIZE)
  {
    var p := sector * SECTOR_SIZE + k * DIRECTORY_ITEM_SIZE;
    assert p == 32 * (16 * sector + k);
    assert p % SECTOR_SIZE == 32 * ((16 * sector + k) % 16);
  }

  lemma OverwriteAll(s: seq<u8>, bytes: seq<u8>)
    requires |s| == |bytes|
    ensures Overwrite(s, 0, bytes) == bytes
  {
  }

  lemma EmptyListing(disk: Disk, pos: int)
    ensures |Live(RawItems(disk, pos, 0))| == 0
  {
  }

  lemma LiveStep(disk: Disk, pos: int, k: nat)
    ensures Live(RawItems(disk, pos, k + 1)) ==
            Live(RawItems(disk, pos, k)) + if IsDeleted(RawItem(disk, pos, k)) then [] else [RawItem(disk, pos, k)]
  {
    assert RawItems(disk, pos, k + 1)[..k] == RawItems(disk, pos, k);
  }

  /** `fat16_get_total_items_for_directory`: counts the entries in use before
      the end marker. */
  method GetTotalItemsForDirectory(stream: DiskStream, startSector: nat, ghost end: nat) returns (res: nat)
    requires EndsAt(stream.disk, startSector * SECTOR_SIZE, end)
    requires startSector * SECTOR_SIZE + (end + 1) * DIRECTORY_ITEM_SIZE < INT_LIMIT
    modifies stream`pos
    ensures res == |Live(RawItems(stream.disk, startSector * SECTOR_SIZE, end))|
  {
    hide RawItem, RawItems, Live;
    EmptyListing(stream.disk, startSector * SECTOR_SIZE);
    var start := startSector * SECTOR_SIZE;
    var _ := stream.Seek(start);
    ghost var k := 0;
    res := 0;
    while true
      invariant 0 <= k <= end && stream.pos == start + k * DIRECTORY_ITEM_SIZE
      invariant res == |Live(RawItems(stream.disk, start, k))|
      decreases end - k
    {
      var item := ReadItem(stream, startSector, k);
      assert item[0] == 0x00 <==> IsEnd(stream.disk, start, k);
      if item[0] == 0x00 {
        break;
      }
      LiveStep(stream.disk, start, k);
      k := k + 1;
      if item[0] == DELETED {
        continue;
      }
      res := res + 1;
    }
  }

  /** The next entry from the directory stream. */
  method ReadItem(stream: DiskStream, startSector: nat, ghost k: nat) returns (item: Item)
    requires stream.pos == startSector * SECTOR_SIZE + k * DIRECTORY_ITEM_SIZE
    requires stream.pos + DIRECTORY_ITEM_SIZE < INT_LIMIT
    modifies stream`pos
    ensures stream.pos == old(stream.pos) + DIRECTORY_ITEM_SIZE
    ensures item == RawItem(stream.disk, startSector * SECTOR_SIZE, k)
  {
    hide Bytes, Overwrite, InBuffer;
    var buffer := new u8[DIRECTORY_ITEM_SIZE];
    ItemInBuffer(startSector, k);
    OverwriteAll(buffer[..], RawItem(stream.disk, startSector * SECTOR_SIZE, k));
    var _ := stream.Read(buffer, 0, DIRECTORY_ITEM_SIZE);
    item := buffer[..];
  }

  /** `n` entries from consecutive bytes of memory. */
  function ItemsOf(bytes: seq<u8>, n: nat): (s: seq<Item>)
    requires |bytes| >= n * DIRECTORY_ITEM_SIZE
    ensures |s| == n
    ensures forall i: nat | i < n :: s[i] == bytes[i * DIRECTORY_ITEM_SIZE..(i + 1) * DIRECTORY_ITEM_SIZE]
  {
    if n == 0 then [] else ItemsOf(bytes, n - 1) + [bytes[(n - 1) * DIRECTORY_ITEM_SIZE..n * DIRECTORY_ITEM_SIZE]]
  }

  /** What `fat16_load_fat_directory` returns: null for a file, a pointer to
      memory it has already given back if reading failed, or a listing. */
  datatype Loaded = NoDirectory | Dangling | Listing(items: seq<Item>)

  /** `fat16_load_fat_directory`: counts the entries in the sectors behind the
      first cluster, then reads that many along the chain. */
  method LoadFatDirectory(v: Volume, directoryStream: DiskStream, item: Item, ghost end: nat) returns (r: Loaded)
    requires v.Valid() && directoryStream.disk == v.disk
    requires directoryStream != v.clusterReadStream && directoryStream != v.fatReadStream
    requires IsSubdirectory(item) ==> Countable(v.disk, v.header, FirstCluster(item), end)
    modifies directoryStream`pos, v.clusterReadStream`pos, v.fatReadStream`pos
    ensures r == if IsSubdirectory(item) then LoadResult(v.disk, v.header, FirstCluster(item), end) else NoDirectory
  {
    hide Bytes, Overwrite, Slice, Delivered, Streamed, InBuffer, EndsAt, LongEnough, Admissible, Reachable;
    hide RawItems, Live, Header.Base, Header.RootEnd;
    if !IsSubdirectory(item) {
      return NoDirectory;
    }
    var h, cluster := v.header, FirstCluster(item);
    SectorOfBase(h, cluster);
    var clusterSector := h.RootEnd() + (cluster - 2) * h.sectorsPerCluster;
    var totalItems := GetTotalItemsForDirectory(directoryStream, clusterSector, end);
    var directorySize := totalItems * DIRECTORY_ITEM_SIZE;
    var buffer := new u8[directorySize];
    ghost var before := buffer[..];
    StartsCluster(h, directorySize);
    DeliversSlice(v.disk, v.tail, h, cluster, 0, directorySize);
    var res := v.ReadInternal(cluster, 0, directorySize, buffer, 0);
    if res != 0 {
      return Dangling;
    }
    OverwriteAll(before, Slice(v.disk, h, cluster, 0, directorySize));
    r := Listing(ItemsOf(buffer[..], totalItems));
  }

  // ----- Items

  /** A `fat_item`: a file's entry, or a directory as it was loaded. */
  datatype FatItem = FileItem(item: Item) | DirectoryItem(directory: Loaded)

  /** Where the entries counted from `pos` on end. */
  ghost function EndOf(disk: Disk, pos: int): nat {
    if end: nat :| EndsAt(disk, pos, end) then end else 0
  }

  lemma EndIsUnique(disk: Disk, pos: int, end: nat)
    requires EndsAt(disk, pos, end)
    ensures EndOf(disk, pos) == end
  {
    var e := EndOf(disk, pos);
    assert EndsAt(disk, pos, e);
  }

  /** An item for this entry can be made: it is no directory, or a countable
      one. */
  ghost predicate CanLoad(disk: Disk, h: Header, item: Item) {
    IsSubdirectory(item) ==>
      Countable(disk, h, FirstCluster(item), EndOf(disk, h.Base(FirstCluster(item))))
  }

  ghost function ItemOf(disk: Disk, h: Header, item: Item): FatItem
    requires h.sectorsPerCluster > 0
  {
    if IsSubdirectory(item)
    then DirectoryItem(LoadResult(disk, h, FirstCluster(item), EndOf(disk, h.Base(FirstCluster(item)))))
    else FileItem(item)
  }

  /** `fat16_new_fat_item_for_directory_item`. */
  method NewItem(v: Volume, directoryStream: DiskStream, item: Item) returns (r: FatItem)
    requires v.Valid() && directoryStream.disk == v.disk
    requires directoryStream != v.clusterReadStream && directoryStream != v.fatReadStream
    requires CanLoad(v.disk, v.header, item)
    modifies directoryStream`pos, v.clusterReadStream`pos, v.fatReadStream`pos
    ensures r == ItemOf(v.disk, v.header, item)
  {
    hide LoadResult, EndOf, Countable;
    if IsSubdirectory(item) {
      var directory := LoadFatDirectory(v, directoryStream, item, EndOf(v.disk, v.header.Base(FirstCluster(item))));
      return DirectoryItem(directory);
    }
    r := FileItem(item);
  }

  /** `fat16_find_item_in_directory`, which does not stop at the first match and
      loads every directory that matches. `found` is the index of the entry the
      result is made from. */
  method FindItemInDirectory(v: Volume, directoryStream: DiskStream, items: seq<Item>, name: seq<u8>)
    returns (found: int, r: Option<FatItem>)
    requires v.Valid() && directoryStream.disk == v.disk && Terminated(name)
    requires directoryStream != v.clusterReadStream && directoryStream != v.fatReadStream
    requires forall e | e in items && Matches(e, name) :: CanLoad(v.disk, v.header, e)
    modifies directoryStream`pos, v.clusterReadStream`pos, v.fatReadStream`pos
    ensures found == LastMatch(items, name)
    ensures r == if found >= 0 then Some(ItemOf(v.disk, v.header, items[found])) else None
  {
    hide Matches, CanLoad, ItemOf;
    found, r := -1, None;
    for i := 0 to |items|
      invariant -1 <= found < i && (found >= 0 ==> Matches(items[found], name))
      invariant forall j | found < j < i :: !Matches(items[j], name)
      invariant r == if found >= 0 then Some(ItemOf(v.disk, v.header, items[found])) else None
    {
      var matches := NameMatches(items[i], name);
      if matches {
        assert items[i] in items;
        var item := NewItem(v, directoryStream, items[i]);
        found, r := i, Some(item);
      }
    }
    LastMatchIs(items, name, found);
  }

  lemma SectorOfBase(h: Header, cluster: int)
    requires h.Base(cluster) >= 0
    ensures h.RootEnd() + (cluster - 2) * h.sectorsPerCluster >= 0
    ensures h.Base(cluster) == (h.RootEnd() + (cluster - 2) * h.sectorsPerCluster) * SECTOR_SIZE
  {
  }

  lemma StartsCluster(h: Header, total: nat)
    requires h.sectorsPerCluster > 0
    ensures Admissible(h, 0, total)
  {
    ClusterBytesPositive(h);
  }

  /** A directory whose entries can be counted: there is an end marker in the
      sectors that follow its first cluster, at a position that fits an int. */
  ghost predicate Countable(disk: Disk, h: Header, cluster: nat, end: nat) {
    && h.sectorsPerCluster > 0 && h.Base(cluster) >= 0
    && EndsAt(disk, h.Base(cluster), end)
    && h.Base(cluster) + (end + 1) * DIRECTORY_ITEM_SIZE < INT_LIMIT
    && Reachable(disk, h, cluster, 0, CountedItems(disk, h, cluster, end) * DIRECTORY_ITEM_SIZE)
  }

  function CountedItems(disk: Disk, h: Header, cluster: nat, end: nat): nat {
    |Live(RawItems(disk, h.Base(cluster), end))|
  }

  /** The listing, if the chain is long enough for as many entries. */
  ghost function LoadResult(disk: Disk, h: Header, cluster: nat, end: nat): Loaded
    requires h.sectorsPerCluster > 0
  {
    if LongEnough(disk, h, cluster, 0, CountedItems(disk, h, cluster, end) * DIRECTORY_ITEM_SIZE)
    then Listing(LoadedItems(disk, h, cluster, end))
    else Dangling
  }

  /** The entries along the chain, as many as were counted. */
  ghost function LoadedItems(disk: Disk, h: Header, cluster: nat, end: nat): seq<Item>
    requires h.sectorsPerCluster > 0
  {
    var n := CountedItems(disk, h, cluster, end);
    ItemsOf(Slice(disk, h, cluster, 0, n * DIRECTORY_ITEM_SIZE), n)
  }

  /** The first `n` clusters of the chain follow each other on the disk; for
      n = 1 this always holds. */
  ghost predicate Contiguous(disk: Disk, h: Header, cluster: nat, n: nat) {
    forall k: nat | k < n :: ClusterAt(disk, h, cluster, k) == cluster + k
  }

  lemma ContiguousByte(disk: Disk, h: Header, cluster: nat, n: nat, p: nat)
    requires h.sectorsPerCluster > 0 && Contiguous(disk, h, cluster, n) && p < n * h.ClusterBytes()
    ensures ByteAt(disk, h, cluster, p) == disk(h.Base(cluster) + p)
  {
    hide ClusterAt, Header.Base, Header.ClusterBytes, Header.Index, Header.Within;
    var k := h.Index(p);
    IndexBelow(h, n, p);
    IndexSplit(h, p);
    BaseStep(h, cluster, k);
  }

  lemma IndexBelow(h: Header, n: nat, p: nat)
    requires h.sectorsPerCluster > 0 && p < n * h.ClusterBytes()
    ensures h.Index(p) < n
  {
    hide Header.ClusterBytes, Header.Index, Header.Within;
    IndexSplit(h, p);
    if h.Index(p) >= n {
      MonotoneMul(n, h.Index(p), h.ClusterBytes());
    }
  }

  lemma MonotoneMul(a: nat, b: nat, c: nat)
    requires a <= b
    ensures a * c <= b * c
  {
    assert b * c == a * c + (b - a) * c;
  }

  lemma BaseStep(h: Header, cluster: nat, k: nat)
    ensures h.Base(cluster + k) == h.Base(cluster) + k * h.ClusterBytes()
  {
    var s := h.sectorsPerCluster;
    assert (cluster + k - 2) * s == (cluster - 2) * s + k * s;
    assert k * s * SECTOR_SIZE == k * (s * SECTOR_SIZE);
  }

  /** A directory whose entries lie in consecutive clusters is loaded as the
      first so many of its raw entries. */
  lemma LoadedArePrefix(disk: Disk, h: Header, cluster: nat, end: nat, n: nat)
    requires h.sectorsPerCluster > 0 && Contiguous(disk, h, cluster, n)
    requires end * DIRECTORY_ITEM_SIZE <= n * h.ClusterBytes()
    ensures var raw := RawItems(disk, h.Base(cluster), end);
            LoadedItems(disk, h, cluster, end) == raw[..|Live(raw)|]
  {
    hide ClusterAt, Header.Base, Header.ClusterBytes;
    var raw := RawItems(disk, h.Base(cluster), end);
    var count := |Live(raw)|;
    var slice := Slice(disk, h, cluster, 0, count * DIRECTORY_ITEM_SIZE);
    forall i: nat | i < count
      ensures LoadedItems(disk, h, cluster, end)[i] == raw[i]
    {
      forall j: nat | j < DIRECTORY_ITEM_SIZE
        ensures slice[i * DIRECTORY_ITEM_SIZE + j] == raw[i][j]
      {
        ContiguousByte(disk, h, cluster, n, i * DIRECTORY_ITEM_SIZE + j);
      }
      assert slice[i * DIRECTORY_ITEM_SIZE..(i + 1) * DIRECTORY_ITEM_SIZE] == raw[i];
    }
  }

  /** `fat16_get_root_directory`: the root directory lies in consecutive
      sectors and is read as a whole; its entries are counted as above. */
  method GetRootDirectory(stream: DiskStream, h: Header, ghost end: nat) returns (items: seq<Item>, total: nat)
    requires EndsAt(stream.disk, h.RootSector() * SECTOR_SIZE, end)
    requires h.RootSector() * SECTOR_SIZE + (end + 1) * DIRECTORY_ITEM_SIZE < INT_LIMIT
    requires h.RootSector() * SECTOR_SIZE + h.rootDirEntries * DIRECTORY_ITEM_SIZE < INT_LIMIT
    modifies stream`pos
    ensures items == RawItems(stream.disk, h.RootSector() * SECTOR_SIZE, h.rootDirEntries)
    ensures total == |Live(RawItems(stream.disk, h.RootSector() * SECTOR_SIZE, end))|
    ensures |items| == h.rootDirEntries
    ensures forall i: nat, k: nat | i < |items| && k < 32 ::
              items[i][k] == stream.disk(512 * (h.reservedSectors + h.fatCopies * h.sectorsPerFat) + 32 * i + k)
  {
    hide Overwrite, Bytes, InBuffer, EndsAt, Live, Header.RootSector;
    total := GetTotalItemsForDirectory(stream, h.RootSector(), end);
    var size := h.rootDirEntries * DIRECTORY_ITEM_SIZE;
    var buffer := new u8[size];
    ghost var before := buffer[..];
    var _ := stream.Seek(h.RootSector() * SECTOR_SIZE);
    InBufferIff(h.RootSector() * SECTOR_SIZE, size);
    var _ := stream.Read(buffer, 0, size);
    OverwriteAll(before, Bytes(stream.disk, h.RootSector() * SECTOR_SIZE, size));
    items := ItemsOf(buffer[..], h.rootDirEntries);
    ItemsAreRaw(stream.disk, h.RootSector() * SECTOR_SIZE, h.rootDirEntries);
    RootBytes(stream.disk, h, items);
  }

  /** The bytes of the root directory are those behind the last table. */
  lemma RootBytes(disk: Disk, h: Header, items: seq<Item>)
    requires items == RawItems(disk, h.RootSector() * SECTOR_SIZE, h.rootDirEntries)
    ensures forall i: nat, k: nat | i < |items| && k < 32 ::
              items[i][k] == disk(512 * (h.reservedSectors + h.fatCopies * h.sectorsPerFat) + 32 * i + k)
  {
    forall i: nat, k: nat | i < |items| && k < 32
      ensures items[i][k] == disk(512 * (h.reservedSectors + h.fatCopies * h.sectorsPerFat) + 32 * i + k)
    {
      assert items[i] == RawItem(disk, h.RootSector() * SECTOR_SIZE, i);
    }
  }

  lemma {:induction false} ItemsAreRaw(disk: Disk, pos: int, n: nat)
    ensures ItemsOf(Bytes(disk, pos, n * DIRECTORY_ITEM_SIZE), n) == RawItems(disk, pos, n)
  {
    var bytes := Bytes(disk, pos, n * DIRECTORY_ITEM_SIZE);
    forall i: nat | i < n
      ensures ItemsOf(bytes, n)[i] == RawItems(disk, pos, n)[i]
    {
      assert bytes[i * DIRECTORY_ITEM_SIZE..(i + 1) * DIRECTORY_ITEM_SIZE] == RawItem(disk, pos, i);
    }
  }

  // ----- Exactly when no entry is lost

  /** No entry in use comes after a deleted one. */
  predicate DeletedLast(items: seq<Item>) {
    forall i: nat, j: nat | i < j < |items| && IsDeleted(items[i]) :: IsDeleted(items[j])
  }

  /** The first so many raw entries are the entries in use exactly when the
      deleted ones all come last. */
  lemma {:induction false} PrefixIsLiveIff(raw: seq<Item>)
    ensures raw[..|Live(raw)|] == Live(raw) <==> DeletedLast(raw)
  {
    hide Live;
    if |raw| == 0 {
      LiveAll(raw);
    } else {
      var init, last := raw[..|raw| - 1], raw[|raw| - 1];
      PrefixIsLiveIff(init);
      LiveSnoc(init, last);
      assert raw == init + [last];
      if IsDeleted(last) {
        DeletedAtEnd(init, last);
      } else {
        UsedAtEnd(init, last);
      }
    }
  }

  lemma LiveSnoc(init: seq<Item>, last: Item)
    ensures Live(init + [last]) == Live(init) + if IsDeleted(last) then [] else [last]
  {
    assert (init + [last])[..|init|] == init;
  }

  lemma DeletedAtEnd(init: seq<Item>, last: Item)
    requires IsDeleted(last)
    ensures DeletedLast(init + [last]) <==> DeletedLast(init)
    ensures (init + [last])[..|Live(init)|] == init[..|Live(init)|]
  {
    if DeletedLast(init + [last]) {
      forall i: nat, j: nat | i < j < |init| && IsDeleted(init[i])
        ensures IsDeleted(init[j])
      {
        assert IsDeleted((init + [last])[i]) && (init + [last])[j] == init[j];
      }
    }
  }

  lemma UsedAtEnd(init: seq<Item>, last: Item)
    requires !IsDeleted(last)
    requires init[..|Live(init)|] == Live(init) <==> DeletedLast(init)
    ensures var raw := init + [last];
            raw[..|Live(init)| + 1] == Live(init) + [last] <==> DeletedLast(raw)
  {
    hide Live;
    var raw := init + [last];
    LiveAll(init);
    LiveSnoc(init, last);
    if DeletedLast(raw) {
      forall i: nat | i < |init|
        ensures !IsDeleted(init[i])
      {
        assert raw[i] == init[i] && raw[|init|] == last;
      }
    } else if raw[..|Live(init)| + 1] == Live(init) + [last] {
      PrefixOfLive(raw, init, last);
    }
  }

  /** A list keeps its length exactly when nothing in it is deleted. */
  lemma {:induction false} LiveAll(items: seq<Item>)
    ensures |Live(items)| == |items| <==> forall i: nat | i < |items| :: !IsDeleted(items[i])
    ensures |Live(items)| == |items| ==> Live(items) == items
  {
    if |items| > 0 {
      LiveAll(items[..|items| - 1]);
    }
  }

  /** If an entry in use comes last and nothing is lost, nothing is deleted. */
  lemma PrefixOfLive(raw: seq<Item>, init: seq<Item>, last: Item)
    requires raw == init + [last] && !IsDeleted(last) && Live(raw) == Live(init) + [last]
    requires raw[..|Live(raw)|] == Live(raw)
    requires init[..|Live(init)|] == Live(init) ==> DeletedLast(init)
    ensures DeletedLast(raw)
  {
    hide Live;
    var n := |Live(init)|;
    assert raw[..n + 1][..n] == init[..n];
    assert raw[n] == Live(raw)[n] == last;
    if n < |init| {
      LiveAll(init[..n + 1]);
      LiveGrows(init, n + 1);
    }
    LiveAll(init);
  }

  lemma {:induction false} LiveGrows(items: seq<Item>, k: nat)
    requires k <= |items|
    ensures |Live(items[..k])| <= |Live(items)|
  {
    if k < |items| {
      LiveGrows(items[..|items| - 1], k);
      assert items[..|items| - 1][..k] == items[..k];
    } else {
      assert items[..k] == items;
    }
  }

  /** The smallest directory that loses an entry: a deleted one comes first. */
  lemma DeletedFirstLosesEntry(d: Item, e: Item)
    requires d[0] == 0xE5 && e[0] != 0xE5
    ensures [d, e][..|Live([d, e])|] == [d] && Live([d, e]) == [e] && d != e
  {
    LiveSnoc([d], e);
    LiveSnoc([], d);
    assert [d] + [e] == [d, e] && [] + [d] == [d];
    assert Live([]) == [];
  }

  // ----- Along the chain

  /** Entry `i` of a directory along its cluster chain. */
  ghost function ChainItem(disk: Disk, h: Header, cluster: nat, i: nat): Item
    requires h.sectorsPerCluster > 0
  {
    Slice(disk, h, cluster, i * DIRECTORY_ITEM_SIZE, DIRECTORY_ITEM_SIZE)
  }

  ghost function ChainItems(disk: Disk, h: Header, cluster: nat, m: nat): (s: seq<Item>)
    requires h.sectorsPerCluster > 0
    ensures |s| == m && forall i: nat | i < m :: s[i] == ChainItem(disk, h, cluster, i)
  {
    if m == 0 then [] else ChainItems(disk, h, cluster, m - 1) + [ChainItem(disk, h, cluster, m - 1)]
  }

  ghost predicate HasChainItem(disk: Disk, h: Header, cluster: nat, i: nat)
    requires h.sectorsPerCluster > 0
  {
    LongEnough(disk, h, cluster, i * DIRECTORY_ITEM_SIZE, DIRECTORY_ITEM_SIZE)
  }

  /** The directory has `m` entries: an end marker follows them on the chain, or
      the chain ends with them. */
  ghost predicate ChainEndsAt(disk: Disk, h: Header, cluster: nat, m: nat)
    requires h.sectorsPerCluster > 0
  {
    && (forall i: nat | i < m :: HasChainItem(disk, h, cluster, i) && ChainItem(disk, h, cluster, i)[0] != 0)
    && (HasChainItem(disk, h, cluster, m) ==> ChainItem(disk, h, cluster, m)[0] == 0)
  }

  /** The entries loaded are the first so many of the chain. */
  lemma LoadedAreChain(disk: Disk, h: Header, cluster: nat, end: nat)
    requires h.sectorsPerCluster > 0
    ensures LoadedItems(disk, h, cluster, end) == ChainItems(disk, h, cluster, CountedItems(disk, h, cluster, end))
  {
    hide ByteAt, CountedItems;
    var n := CountedItems(disk, h, cluster, end);
    var slice := Slice(disk, h, cluster, 0, n * DIRECTORY_ITEM_SIZE);
    forall i: nat | i < n
      ensures LoadedItems(disk, h, cluster, end)[i] == ChainItem(disk, h, cluster, i)
    {
      forall j: nat | j < DIRECTORY_ITEM_SIZE
        ensures slice[i * DIRECTORY_ITEM_SIZE + j] == ChainItem(disk, h, cluster, i)[j]
      {
      }
      assert slice[i * DIRECTORY_ITEM_SIZE..(i + 1) * DIRECTORY_ITEM_SIZE] == ChainItem(disk, h, cluster, i);
    }
  }

  /** A chain with an entry `n` - 1 is long enough for `n` entries. */
  lemma ChainIsLong(disk: Disk, h: Header, cluster: nat, n: nat)
    requires h.sectorsPerCluster > 0 && (n > 0 ==> HasChainItem(disk, h, cluster, n - 1))
    ensures LongEnough(disk, h, cluster, 0, n * DIRECTORY_ITEM_SIZE)
  {
    hide ClusterAt, Header.ClusterBytes, Header.Index;
    ClusterBytesPositive(h);
    if n == 0 {
      IndexIs(h, 0, 0, 0);
      assert ClusterAt(disk, h, cluster, 0) >= 0 by { FirstOfChain(disk, h, cluster); }
    } else {
      assert n * DIRECTORY_ITEM_SIZE - 1 == (n - 1) * DIRECTORY_ITEM_SIZE + DIRECTORY_ITEM_SIZE - 1;
    }
  }

  lemma FirstOfChain(disk: Disk, h: Header, cluster: nat)
    ensures ClusterAt(disk, h, cluster, 0) == cluster
  {
  }

  /** Loading a directory lists exactly its entries in use if and only if as
      many were counted in the sectors behind its first cluster as are in use
      along its chain, and the deleted ones come last. */
  lemma LoadListsAllIff(disk: Disk, h: Header, cluster: nat, end: nat, m: nat)
    requires h.sectorsPerCluster > 0 && ChainEndsAt(disk, h, cluster, m)
    ensures var all := ChainItems(disk, h, cluster, m);
            LoadResult(disk, h, cluster, end) == Listing(Live(all))
            <==> CountedItems(disk, h, cluster, end) == |Live(all)| && DeletedLast(all)
  {
    hide Live, LoadedItems, CountedItems, LongEnough, ChainItem, DeletedLast;
    var all, n := ChainItems(disk, h, cluster, m), CountedItems(disk, h, cluster, end);
    LoadedAreChain(disk, h, cluster, end);
    if n == |Live(all)| {
      assert n > 0 ==> HasChainItem(disk, h, cluster, n - 1);
      ChainIsLong(disk, h, cluster, n);
      assert ChainItems(disk, h, cluster, n) == all[..n];
      PrefixIsLiveIff(all);
    }
  }

  /** With the entries in consecutive clusters chain and disk agree, and the
      deleted entries alone decide. */
  lemma ConsecutiveListsAllIff(disk: Disk, h: Header, cluster: nat, end: nat, n: nat)
    requires h.sectorsPerCluster > 0 && Contiguous(disk, h, cluster, n) && EndsAt(disk, h.Base(cluster), end)
    requires end * DIRECTORY_ITEM_SIZE < n * h.ClusterBytes()
             || (end * DIRECTORY_ITEM_SIZE == n * h.ClusterBytes() && ClusterAt(disk, h, cluster, n) < 0)
    ensures ChainEndsAt(disk, h, cluster, end)
    ensures var raw := RawItems(disk, h.Base(cluster), end);
            && ChainItems(disk, h, cluster, end) == raw
            && (LoadResult(disk, h, cluster, end) == Listing(Live(raw)) <==> DeletedLast(raw))
  {
    hide Live, LoadResult, ChainItem, RawItem, Contiguous, ClusterAt, Header.Base, Header.ClusterBytes, DeletedLast;
    forall i: nat | i < end
      ensures HasChainItem(disk, h, cluster, i) && ChainItem(disk, h, cluster, i) == RawItem(disk, h.Base(cluster), i)
      ensures ChainItem(disk, h, cluster, i)[0] != 0
    {
      ItemsFillClusters(h, n, i);
      ConsecutiveItem(disk, h, cluster, n, i);
      assert !IsEnd(disk, h.Base(cluster), i);
    }
    assert IsEnd(disk, h.Base(cluster), end);
    if end * DIRECTORY_ITEM_SIZE < n * h.ClusterBytes() {
      ItemsFillClusters(h, n, end);
      ConsecutiveItem(disk, h, cluster, n, end);
    } else {
      NoItemBehind(disk, h, cluster, n, end);
    }
    LoadListsAllIff(disk, h, cluster, end, end);
  }

  /** Clusters hold whole entries. */
  lemma ItemsFillClusters(h: Header, n: nat, i: nat)
    requires i * DIRECTORY_ITEM_SIZE < n * h.ClusterBytes()
    ensures (i + 1) * DIRECTORY_ITEM_SIZE <= n * h.ClusterBytes()
  {
    assert n * h.ClusterBytes() == n * h.sectorsPerCluster * 16 * DIRECTORY_ITEM_SIZE;
  }

  lemma ConsecutiveItem(disk: Disk, h: Header, cluster: nat, n: nat, i: nat)
    requires h.sectorsPerCluster > 0 && Contiguous(disk, h, cluster, n)
    requires (i + 1) * DIRECTORY_ITEM_SIZE <= n * h.ClusterBytes()
    ensures HasChainItem(disk, h, cluster, i) && ChainItem(disk, h, cluster, i) == RawItem(disk, h.Base(cluster), i)
  {
    hide ClusterAt, Header.Base, Header.ClusterBytes, ByteAt, HasChainItem, Contiguous, Header.Index;
    var p := i * DIRECTORY_ITEM_SIZE;
    assert HasChainItem(disk, h, cluster, i) by { ConsecutiveHasItem(disk, h, cluster, n, i); }
    var item, raw := ChainItem(disk, h, cluster, i), RawItem(disk, h.Base(cluster), i);
    forall j: nat | j < DIRECTORY_ITEM_SIZE
      ensures item[j] == raw[j]
    {
      ContiguousByte(disk, h, cluster, n, p + j);
    }
  }

  lemma ConsecutiveHasItem(disk: Disk, h: Header, cluster: nat, n: nat, i: nat)
    requires h.sectorsPerCluster > 0 && Contiguous(disk, h, cluster, n)
    requires (i + 1) * DIRECTORY_ITEM_SIZE <= n * h.ClusterBytes()
    ensures HasChainItem(disk, h, cluster, i)
  {
    hide ClusterAt, Header.ClusterBytes, Header.Index;
    ClusterBytesPositive(h);
    IndexBelow(h, n, i * DIRECTORY_ITEM_SIZE + DIRECTORY_ITEM_SIZE - 1);
  }

  lemma NoItemBehind(disk: Disk, h: Header, cluster: nat, n: nat, i: nat)
    requires h.sectorsPerCluster > 0 && i * DIRECTORY_ITEM_SIZE == n * h.ClusterBytes()
    requires ClusterAt(disk, h, cluster, n) < 0
    ensures !HasChainItem(disk, h, cluster, i)
  {
    hide ClusterAt, Header.ClusterBytes, Header.Index;
    ClusterBytesPositive(h);
    IndexIs(h, i * DIRECTORY_ITEM_SIZE + DIRECTORY_ITEM_SIZE - 1, n, DIRECTORY_ITEM_SIZE - 1);
  }

  /** In a directory whose entries lie in consecutive clusters, whose deleted
      entries come last and whose names are unique, a lookup returns the entry
      in use of that name, or nothing when there is none. */
  lemma LookupInConsecutive(disk: Disk, h: Header, cluster: nat, end: nat, n: nat, name: seq<u8>)
    requires h.sectorsPerCluster > 0 && Contiguous(disk, h, cluster, n)
    requires end * DIRECTORY_ITEM_SIZE <= n * h.ClusterBytes()
    requires DeletedLast(RawItems(disk, h.Base(cluster), end))
    requires var used := Live(RawItems(disk, h.Base(cluster), end));
             forall i: nat, j: nat | i < j < |used| :: !SameText(FullName(used[i]), FullName(used[j]))
    ensures var used, items := Live(RawItems(disk, h.Base(cluster), end)), LoadedItems(disk, h, cluster, end);
            && items == used
            && (forall k: nat | k < |used| && Matches(used[k], name) :: LastMatch(items, name) == k)
            && ((forall k: nat | k < |used| :: !Matches(used[k], name)) <==> LastMatch(items, name) == -1)
  {
    hide Live, LoadedItems, Contiguous, Matches, SameText, FullName;
    LoadedArePrefix(disk, h, cluster, end, n);
    PrefixIsLiveIff(RawItems(disk, h.Base(cluster), end));
    var used := Live(RawItems(disk, h.Base(cluster), end));
    LookupFindsTheEntry(used, name, 0);
    forall k: nat | k < |used| && Matches(used[k], name)
      ensures LastMatch(used, name) == k
    {
      LookupFindsTheEntry(used, name, k);
    }
  }

  /** In a directory that is listed in full and whose names are unique, a lookup
      returns the entry in use of that name, or nothing when there is none. */
  lemma LookupInDirectory(disk: Disk, h: Header, cluster: nat, end: nat, m: nat, name: seq<u8>)
    requires h.sectorsPerCluster > 0 && ChainEndsAt(disk, h, cluster, m)
    requires CountedItems(disk, h, cluster, end) == |Live(ChainItems(disk, h, cluster, m))|
    requires DeletedLast(ChainItems(disk, h, cluster, m)) && UniqueNames(Live(ChainItems(disk, h, cluster, m)))
    ensures var used := Live(ChainItems(disk, h, cluster, m));
            LoadResult(disk, h, cluster, end) == Listing(used) && FindsIn(used, name)
  {
    hide Live, LoadResult, ChainItem, Matches;
    LoadListsAllIff(disk, h, cluster, end, m);
    UniqueIsFound(Live(ChainItems(disk, h, cluster, m)), name);
  }

  ghost predicate UniqueNames(items: seq<Item>) {
    forall i: nat, j: nat | i < j < |items| :: !SameText(FullName(items[i]), FullName(items[j]))
  }

  /** The search answers with the entry of that name, and with none if and only
      if there is none. */
  ghost predicate FindsIn(items: seq<Item>, name: seq<u8>) {
    && (forall k: nat | k < |items| && Matches(items[k], name) :: LastMatch(items, name) == k)
    && ((forall k: nat | k < |items| :: !Matches(items[k], name)) <==> LastMatch(items, name) == -1)
  }

  lemma UniqueIsFound(items: seq<Item>, name: seq<u8>)
    requires UniqueNames(items)
    ensures FindsIn(items, name)
  {
    LookupFindsTheEntry(items, name, 0);
    forall k: nat | k < |items| && Matches(items[k], name)
      ensures LastMatch(items, name) == k
    {
      LookupFindsTheEntry(items, name, k);
    }
  }

  /** The item made for a subdirectory carries exactly its entries in use under
      the same condition. */
  lemma ItemListsAllIff(disk: Disk, h: Header, item: Item, end: nat, m: nat)
    requires h.sectorsPerCluster > 0 && IsSubdirectory(item)
    requires EndsAt(disk, h.Base(FirstCluster(item)), end) && ChainEndsAt(disk, h, FirstCluster(item), m)
    ensures var all := ChainItems(disk, h, FirstCluster(item), m);
            ItemOf(disk, h, item) == DirectoryItem(Listing(Live(all)))
            <==> CountedItems(disk, h, FirstCluster(item), end) == |Live(all)| && DeletedLast(all)
  {
    hide Live, LoadResult, CountedItems, ChainItem, DeletedLast, EndOf, EndsAt, ChainEndsAt;
    EndIsUnique(disk, h.Base(FirstCluster(item)), end);
    LoadListsAllIff(disk, h, FirstCluster(item), end, m);
  }

  // ----- The root directory

  /** The count stays inside the root directory's entries if the end marker does;
      with nothing deleted, only then. */
  lemma RootCountFits(disk: Disk, pos: int, entries: nat, end: nat)
    ensures end <= entries ==> |Live(RawItems(disk, pos, end))| <= entries
    ensures (forall e | e in RawItems(disk, pos, end) :: !IsDeleted(e)) ==>
              (|Live(RawItems(disk, pos, end))| <= entries <==> end <= entries)
  {
    hide Live;
    LiveAll(RawItems(disk, pos, end));
  }

  /** When it does, the entries searched are exactly those in use if and only if
      the deleted ones come last, and then a lookup of a unique name finds it. */
  lemma LookupInRoot(disk: Disk, pos: int, entries: nat, end: nat, name: seq<u8>)
    requires |Live(RawItems(disk, pos, end))| <= entries
    ensures var used := Live(RawItems(disk, pos, end));
            var searched := RawItems(disk, pos, entries)[..|used|];
            && (searched == used <==> DeletedLast(RawItems(disk, pos, end)))
            && (DeletedLast(RawItems(disk, pos, end)) && UniqueNames(used) ==> FindsIn(searched, name))
  {
    hide Live, Matches, DeletedLast, UniqueNames, FindsIn;
    var raw := RawItems(disk, pos, end);
    assert RawItems(disk, pos, entries)[..|Live(raw)|] == raw[..|Live(raw)|];
    PrefixIsLiveIff(raw);
    if UniqueNames(Live(raw)) {
      UniqueIsFound(Live(raw), name);
    }
  }

  // ----- A directory in two pieces

  const SMALL: Header := Header(1, 1, 1, 16, 1)

  /** Cluster 2 holds sixteen entries in use and is continued by cluster 5, which
      holds one more; cluster 3 is empty. */
  function TwoPieces(p: int): u8 {
    if p == SMALL.EntryPosition(2) then 5
    else if SMALL.Base(2) <= p < SMALL.Base(3) then 0x41
    else if SMALL.Base(5) <= p < SMALL.Base(5) + DIRECTORY_ITEM_SIZE then 0x42
    else 0
  }

  /** The deleted entries (there are none) come last, and yet the entry of the
      second piece is not listed. */
  lemma FragmentedLosesEntry()
    ensures Countable(TwoPieces, SMALL, 2, 16) && ChainEndsAt(TwoPieces, SMALL, 2, 17)
    ensures DeletedLast(RawItems(TwoPieces, SMALL.Base(2), 16)) && DeletedLast(ChainItems(TwoPieces, SMALL, 2, 17))
    ensures CountedItems(TwoPieces, SMALL, 2, 16) == 16 && |Live(ChainItems(TwoPieces, SMALL, 2, 17))| == 17
    ensures LoadResult(TwoPieces, SMALL, 2, 16) != Listing(Live(ChainItems(TwoPieces, SMALL, 2, 17)))
  {
    hide Live, LoadResult, RawItem, ChainItem, LongEnough, ClusterAt, TwoPieces, Reachable;
    hide EndsAt, ChainEndsAt, Header.Base;
    TwoPiecesChain();
    TwoPiecesRaw();
    TwoPiecesReachable();
    NothingDeleted(RawItems(TwoPieces, SMALL.Base(2), 16));
    NothingDeleted(ChainItems(TwoPieces, SMALL, 2, 17));
    LoadListsAllIff(TwoPieces, SMALL, 2, 16, 17);
  }

  lemma NothingDeleted(items: seq<Item>)
    requires forall e | e in items :: !IsDeleted(e)
    ensures |Live(items)| == |items| && DeletedLast(items)
  {
    LiveAll(items);
  }

  lemma RawFirst(disk: Disk, pos: int, i: nat)
    ensures RawItem(disk, pos, i)[0] == disk(pos + i * DIRECTORY_ITEM_SIZE)
  {
  }

  lemma TwoPiecesRaw()
    ensures EndsAt(TwoPieces, SMALL.Base(2), 16) && SMALL.Base(2) == 1536
    ensures forall e | e in RawItems(TwoPieces, SMALL.Base(2), 16) :: !IsDeleted(e)
  {
    hide RawItem;
    var pos := SMALL.Base(2);
    forall i: nat | i <= 16
      ensures RawItem(TwoPieces, pos, i)[0] == if i < 16 then 0x41 else 0
    {
      RawFirst(TwoPieces, pos, i);
    }
    assert forall i: nat | i < 16 :: !IsEnd(TwoPieces, pos, i);
  }

  lemma TwoPiecesClusters()
    ensures ClusterAt(TwoPieces, SMALL, 2, 0) == 2 && ClusterAt(TwoPieces, SMALL, 2, 1) == 5
  {
    assert FatEntry(TwoPieces, SMALL, 2) == 5;
    assert ClusterAt(TwoPieces, SMALL, 2, 0) == 2;
  }

  lemma TwoPiecesReachable()
    ensures Reachable(TwoPieces, SMALL, 2, 0, 512)
  {
    hide ClusterAt, TwoPieces;
    TwoPiecesClusters();
  }

  lemma TwoPiecesItem(i: nat)
    requires i < 18
    ensures HasChainItem(TwoPieces, SMALL, 2, i)
    ensures ChainItem(TwoPieces, SMALL, 2, i)[0] == if i < 16 then 0x41 else if i == 16 then 0x42 else 0
  {
    hide ClusterAt;
    TwoPiecesClusters();
    var p := i * DIRECTORY_ITEM_SIZE;
    assert ChainItem(TwoPieces, SMALL, 2, i)[0] == ByteAt(TwoPieces, SMALL, 2, p);
    assert p / 512 == i / 16 && (p + 31) / 512 == i / 16;
  }

  lemma TwoPiecesChain()
    ensures ChainEndsAt(TwoPieces, SMALL, 2, 17)
    ensures forall e | e in ChainItems(TwoPieces, SMALL, 2, 17) :: !IsDeleted(e)
  {
    hide ChainItem, HasChainItem;
    forall i: nat | i < 18
      ensures HasChainItem(TwoPieces, SMALL, 2, i)
      ensures ChainItem(TwoPieces, SMALL, 2, i)[0] == if i < 16 then 0x41 else if i == 16 then 0x42 else 0
    {
      TwoPiecesItem(i);
    }
  }
}
