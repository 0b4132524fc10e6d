/** Reading a program from a file into memory of its own: where the heap, the
    FAT16 reader and the process loader meet. */
module Loading {
  import opened AddressSpaces
  import opened Bits
  import opened Fat16
  import opened HeapTable
  import opened KernelHeap
  import opened PageTables
  import opened Paging
  import opened Status
  import opened Streamer

  // ----- A file over memory

  /** Byte `k` of a file in page `p` of its memory, over what was there. */
  function Overlaid(bytes: seq<u8>, page: Page, p: nat, k: nat): u8
    requires k < PAGE_SIZE
  {
    if p * PAGE_SIZE + k < |bytes| then bytes[p * PAGE_SIZE + k] else PageByte(page, k)
  }

  function OverlaidWord(bytes: seq<u8>, page: Page, p: nat, i: nat): (w: u32)
    requires i < ENTRIES
    ensures forall j: nat | j < 4 :: ByteOf(w, j) == Overlaid(bytes, page, p, 4 * i + j)
  {
    var b0: u8, b1: u8 := Overlaid(bytes, page, p, 4 * i), Overlaid(bytes, page, p, 4 * i + 1);
    var b2: u8, b3: u8 := Overlaid(bytes, page, p, 4 * i + 2), Overlaid(bytes, page, p, 4 * i + 3);
    WordOfBytes(b0, b1, b2, b3);
    WordOf(b0, b1, b2, b3)
  }

  /** Page `p` of a file's memory, when the file was read over `page`. */
  function OverlaidPage(bytes: seq<u8>, page: Page, p: nat): (r: Page)
    ensures forall k: nat | k < PAGE_SIZE :: PageByte(r, k) == Overlaid(bytes, page, p, k)
  {
    var r := seq<u32>(ENTRIES, i requires 0 <= i < ENTRIES => OverlaidWord(bytes, page, p, i));
    assert forall k: nat | k < PAGE_SIZE :: k == 4 * (k / 4) + k % 4;
    r
  }

  // ----- The code

  /** Page `p` of a file's memory: its bytes, and behind them what was there. */
  ghost predicate PageHolds(was: Page, page: Page, bytes: seq<u8>, p: nat) {
    forall k: nat | k < PAGE_SIZE :: PageByte(page, k) == Overlaid(bytes, was, p, k)
  }

  ghost predicate PageOfFile(old_: Ram, ram: Ram, block: nat, p: nat, bytes: seq<u8>) {
    block + p < |ram.page| == |old_.page| && PageHolds(old_.page[block + p], ram.page[block + p], bytes, p)
  }

  ghost predicate HoldsFile(old_: Ram, ram: Ram, block: nat, n: nat, bytes: seq<u8>) {
    forall p: nat {:trigger PageOfFile(old_, ram, block, p, bytes)} | p < n :: PageOfFile(old_, ram, block, p, bytes)
  }

  ghost predicate Overlays(old_: Ram, ram: Ram, block: nat, p: nat, bytes: seq<u8>) {
    && block + p < |ram.page| == |old_.page|
    && ram.page[block + p] == OverlaidPage(bytes, old_.page[block + p], p)
  }

  /** Writing a file over a cleared page is like writing it over the page as it
      was. */
  lemma OverCleared(old_: Ram, cleared: Ram, ram: Ram, block: nat, n: nat, bytes: seq<u8>, p: nat)
    requires Zeroed(old_, cleared, block, n, |bytes|, (|bytes| + 3) / 4) && p < n
    requires Overlays(cleared, ram, block, p, bytes)
    ensures PageOfFile(old_, ram, block, p, bytes)
  {
    hide OverlaidPage, PageByte, Zeroed;
    ZeroedFrame(old_, cleared, block, n, |bytes|, (|bytes| + 3) / 4);
    var was, page := old_.page[block + p], ram.page[block + p];
    forall k: nat | k < PAGE_SIZE
      ensures PageByte(page, k) == Overlaid(bytes, was, p, k)
    {
      assert PageByte(page, k) == Overlaid(bytes, cleared.page[block + p], p, k);
      if p * PAGE_SIZE + k >= |bytes| {
        ZeroedKeepsTail(old_, cleared, block, n, |bytes|, p, k);
      }
    }
  }

  lemma FileWritten(old_: Ram, cleared: Ram, ram: Ram, block: nat, n: nat, bytes: seq<u8>)
    requires Zeroed(old_, cleared, block, n, |bytes|, (|bytes| + 3) / 4)
    requires forall p: nat {:trigger Overlays(cleared, ram, block, p, bytes)} | p < n ::
               Overlays(cleared, ram, block, p, bytes)
    ensures HoldsFile(old_, ram, block, n, bytes)
  {
    hide Zeroed, PageOfFile, Overlays;
    forall p: nat | p < n
      ensures PageOfFile(old_, ram, block, p, bytes)
    {
      OverCleared(old_, cleared, ram, block, n, bytes, p);
    }
  }

  /** The first `n` pages of a file's memory. */
  function Image(bytes: seq<u8>, pages: seq<Page>, n: nat): (r: seq<Page>)
    requires n <= |pages|
    ensures |r| == n
  {
    if n == 0 then [] else Image(bytes, pages, n - 1) + [OverlaidPage(bytes, pages[n - 1], n - 1)]
  }

  lemma {:induction false} ImageAt(bytes: seq<u8>, pages: seq<Page>, n: nat, p: nat)
    requires p < n <= |pages|
    ensures Image(bytes, pages, n)[p] == OverlaidPage(bytes, pages[p], p)
  {
    hide OverlaidPage;
    if p < n - 1 {
      ImageAt(bytes, pages, n - 1, p);
    }
  }

  /** Bytes written to the memory at `ptr`. */
  method WriteFile(m: Machine, ptr: u32, bytes: seq<u8>, n: nat, ghost block: nat)
    requires ptr == m.Address(block) && block + n <= |m.ram.page|
    modifies m`ram
    ensures m.ram.base == old(m.ram.base) && |m.ram.page| == |old(m.ram.page)|
    ensures forall p: nat {:trigger Overlays(old(m.ram), m.ram, block, p, bytes)} | p < n ::
              Overlays(old(m.ram), m.ram, block, p, bytes)
    ensures forall b: nat | b < |m.ram.page| && !(block <= b < block + n) :: m.ram.page[b] == old(m.ram.page[b])
  {
    hide OverlaidPage, Image, PageByte;
    var ram := m.ram;
    var image := Image(bytes, ram.page[ram.BlockOf(ptr)..], n);
    m.WritePages(ptr, image, block);
    forall p: nat | p < n
      ensures Overlays(ram, m.ram, block, p, bytes)
    {
      ImageAt(bytes, ram.page[block..], n, p);
      assert m.ram.page[block + p] == image[p];
    }
  }

  /** Byte by byte: the file, then what was there. */
  lemma FileBytes(old_: Ram, ram: Ram, block: nat, n: nat, bytes: seq<u8>, k: nat)
    requires HoldsFile(old_, ram, block, n, bytes) && k < n * PAGE_SIZE
    ensures block + k / PAGE_SIZE < |ram.page| == |old_.page|
    ensures RamByte(ram, block, k) == if k < |bytes| then bytes[k] else RamByte(old_, block, k)
  {
    hide PageByte;
    assert PageOfFile(old_, ram, block, k / PAGE_SIZE, bytes);
    assert k / PAGE_SIZE * PAGE_SIZE + k % PAGE_SIZE == k;
    assert Overlaid(bytes, old_.page[block + k / PAGE_SIZE], k / PAGE_SIZE, k % PAGE_SIZE)
           == if k < |bytes| then bytes[k] else RamByte(old_, block, k);
  }

  lemma FileByByte(old_: Ram, ram: Ram, block: nat, n: nat, bytes: seq<u8>)
    requires HoldsFile(old_, ram, block, n, bytes) && block + n <= |ram.page| == |old_.page|
    ensures forall k: nat | k < n * PAGE_SIZE ::
              RamByte(ram, block, k) == if k < |bytes| then bytes[k] else RamByte(old_, block, k)
  {
    hide HoldsFile, PageByte;
    forall k: nat | k < n * PAGE_SIZE
      ensures RamByte(ram, block, k) == if k < |bytes| then bytes[k] else RamByte(old_, block, k)
    {
      FileBytes(old_, ram, block, n, bytes, k);
    }
  }

  /** The words of a program in memory are its bytes, four at a time, lowest
      first. */
  lemma FileWords(old_: Ram, ram: Ram, block: nat, n: nat, bytes: seq<u8>, i: nat)
    requires HoldsFile(old_, ram, block, n, bytes) && 4 * i + 4 <= |bytes| <= n * PAGE_SIZE
    ensures block + i / ENTRIES < |ram.page|
    ensures ram.page[block + i / ENTRIES][i % ENTRIES] ==
            bytes[4 * i] as int + 0x100 * (bytes[4 * i + 1] as int)
            + 0x1_0000 * (bytes[4 * i + 2] as int) + 0x100_0000 * (bytes[4 * i + 3] as int)
  {
    hide HoldsFile, RamByte;
    FileBytes(old_, ram, block, n, bytes, 4 * i);
    FileBytes(old_, ram, block, n, bytes, 4 * i + 1);
    FileBytes(old_, ram, block, n, bytes, 4 * i + 2);
    FileBytes(old_, ram, block, n, bytes, 4 * i + 3);
    WordIsBytes(ram, block, i);
  }

  /** `fread` of a whole file as one record, from its start. */
  method ReadWhole(v: Volume, file: File, size: nat, buffer: array<u8>) returns (res: int)
    requires v.Valid() && file.pos == 0 && buffer.Length == size
    requires Reachable(v.disk, v.header, file.start, 0, size)
    modifies file`pos, v.clusterReadStream`pos, v.fatReadStream`pos, buffer
    ensures res == if LongEnough(v.disk, v.header, file.start, 0, size) then 1 else -1
    ensures res == 1 ==> buffer[..] == Slice(v.disk, v.header, file.start, 0, size)
  {
    hide Reachable, Delivered, LongEnough, Slice, Overwrite, Admissible, Records;
    ghost var before := buffer[..];
    assert forall i: nat | i < 1 :: RecordReachable(v.disk, v.header, file.start, file.pos, size, i);
    FromStart(v.header, size);
    DeliversSlice(v.disk, v.tail, v.header, file.start, 0, size);
    FirstRecord(v.disk, v.tail, v.header, file.start, 0, size);
    res := v.Read(file, size, 1, buffer);
    OverwriteWhole(before, Slice(v.disk, v.header, file.start, 0, size));
  }

  lemma FromStart(h: Header, total: nat)
    requires h.sectorsPerCluster > 0
    ensures Admissible(h, 0, total)
  {
    hide Header.ClusterBytes, Header.Index, Header.Within;
    ClusterBytesPositive(h);
    IndexIs(h, 0, 0, 0);
  }

  lemma OverwriteWhole(s: seq<u8>, bytes: seq<u8>)
    requires |s| == |bytes|
    ensures Overwrite(s, 0, bytes) == bytes
  {
  }

  /** `process_load_binary` on an open file: memory of the file's size, the whole
      file read into it as one record, and the memory given back if that fails.
      It succeeds exactly when the file's chain is long enough. */
  method ProcessLoadBinary(m: Machine, v: Volume, file: File, size: u32, ghost rest: seq<nat>)
    returns (res: int, ptr: u32, ghost block: nat)
    requires m.Valid() && v.Valid() && 0 < size <= WRAP - PAGE_SIZE
    requires Serves(m.heap.table[..], [BlocksFor(size)] + rest)
    requires file.pos == 0 && Reachable(v.disk, v.header, file.start, 0, size)
    modifies m`ram, m.heap`live, m.heap.table, file`pos, v.clusterReadStream`pos, v.fatReadStream`pos
    ensures m.Valid()
    ensures res == if LongEnough(v.disk, v.header, file.start, 0, size) then 0 else -1
    ensures res == 0 ==>
              && ptr == m.Address(block) && Serves(m.heap.table[..], rest)
              && Grew(old(m.ram), old(m.heap.live), m.ram, m.heap.live, block, BlocksFor(size))
              && HoldsFile(old(m.ram), m.ram, block, BlocksFor(size), Slice(v.disk, v.header, file.start, 0, size))
    ensures block + BlocksFor(size) <= |m.ram.page| == |old(m.ram.page)|
    ensures res == 0 ==>
              forall k: nat | k < BlocksFor(size) * PAGE_SIZE ::
                RamByte(m.ram, block, k) ==
                if k < size then Slice(v.disk, v.header, file.start, 0, size)[k] else RamByte(old(m.ram), block, k)
    ensures res != 0 ==> m.heap.live == old(m.heap.live) && m.heap.table[..] == old(m.heap.table[..])
    ensures res != 0 ==> Extends(old(m.ram), old(m.heap.live), m.ram, m.heap.live)
  {
    hide Reachable, LongEnough, Slice, Volume.Valid, Heap.Valid, Represents, Grew, Zeroed, Serves, Extends;
    hide HoldsFile, Overlays, RamByte;
    ghost var ram0, live0, table0 := m.ram, m.heap.live, m.heap.table[..];
    TableFacts(m);
    ptr, block := m.KzallocRun(size, rest);
    ghost var ram1, live1 := m.ram, m.heap.live;
    GrewFacts(ram0, live0, ram1, live1, block, BlocksFor(size));
    var buffer := new u8[size];
    var read := ReadWhole(v, file, size, buffer);
    WriteFile(m, ptr, buffer[..], BlocksFor(size), block);
    StillGrew(ram0, live0, ram1, m.ram, live1, block, BlocksFor(size));
    FileWritten(ram0, ram1, m.ram, block, BlocksFor(size), buffer[..]);
    FileByByte(ram0, m.ram, block, BlocksFor(size), buffer[..]);
    res := 0;
    if read != 1 {
      GiveBack(m, ptr, block, live0, table0);
      res, ptr := -EIO, 0;
    }
  }

  /** The new memory given back: the heap is as it was before. */
  method GiveBack(m: Machine, ptr: u32, ghost block: nat, ghost live0: Live, ghost table0: Table)
    requires m.Valid() && block < |m.ram.page| && ptr == m.Address(block) && block in m.heap.live && block !in live0
    requires m.heap.live - {block} == live0 && Represents(table0, live0) && |table0| == m.heap.table.Length
    modifies m.heap`live, m.heap.table
    ensures m.Valid() && m.heap.live == live0 && m.heap.table[..] == table0
  {
    hide Represents;
    m.Kfree(ptr, block);
    TableFacts(m);
    LiveDeterminesTable(m.heap.table[..], table0, live0);
  }

  lemma GrewFacts(ram0: Ram, live0: Live, ram: Ram, live: Live, block: nat, n: nat)
    requires Grew(ram0, live0, ram, live, block, n)
    ensures block + n <= |ram.page| == |ram0.page| && ram.base == ram0.base
    ensures block !in live0 && live == live0[block := n] && live - {block} == live0
  {
  }

  /** Filling new memory is part of the allocation. */
  lemma StillGrew(ram0: Ram, live0: Live, ram1: Ram, ram: Ram, live: Live, block: nat, n: nat)
    requires Grew(ram0, live0, ram1, live, block, n)
    requires ram.base == ram1.base && |ram.page| == |ram1.page|
    requires forall b: nat | b < |ram.page| && !(block <= b < block + n) :: ram.page[b] == ram1.page[b]
    ensures Grew(ram0, live0, ram, live, block, n)
    ensures Extends(ram0, live0, ram, live0)
  {
  }

  lemma TableFacts(m: Machine)
    requires m.Valid()
    ensures Represents(m.heap.table[..], m.heap.live) && |m.ram.page| == m.heap.table.Length
  {
  }
}
