/** The kernel heap: an in-place table of block bytes, searched first fit. */
module KernelHeap {
  import opened Bits
  import opened Status
  import opened HeapTable

  const BLOCK_SIZE: int := 4096

  const HEAP_SIZE_BYTES: int := 104857600
  const HEAP_ADDRESS: int := 0x0100_0000

  /** `heap_align_value_to_upper`, on a 32-bit unsigned. */
  function AlignUp(val: u32): u32 {
    if val % BLOCK_SIZE == 0 then val
    else (val - val % BLOCK_SIZE + BLOCK_SIZE) % WRAP
  }

  /** The number of blocks a request for `size` bytes asks for. */
  function BlocksFor(size: u32): nat {
    AlignUp(size) / BLOCK_SIZE
  }

  /** Rounding up is exact, except that the top page of sizes wraps to zero. */
  lemma BlocksForExact(size: u32)
    ensures BlocksFor(size) * BLOCK_SIZE >= size <==> size <= WRAP - BLOCK_SIZE
    ensures size <= WRAP - BLOCK_SIZE ==> (BlocksFor(size) - 1) * BLOCK_SIZE < size || size == 0 == BlocksFor(size)
    ensures size > WRAP - BLOCK_SIZE ==> BlocksFor(size) == 0
  {
  }

  /** What one request does: nothing and a null pointer if the search finds no
      start; otherwise the first fit, reserved at its own aligned address. A
      request for zero blocks gets an address but reserves nothing. */
  ghost predicate Malloced(saddr: u32, t: Table, live: Live, size: u32, ptr: u32, t': Table, live': Live) {
    var n, s := BlocksFor(size), StartBlock(t, BlocksFor(size));
    if s < 0 then ptr == 0 && t' == t && live' == live
    else
      && ptr == saddr + s * BLOCK_SIZE
      && if n == 0 then t' == t && live' == live
         else
           && IsFirstFit(t, n, s) && FreeRun(t, s, n) && s !in live
           && t' == MarkTaken(t, s, n) && live' == live[s as nat := n]
  }

  class Heap {
    const table: array<Entry>
    const saddr: u32
    ghost var live: Live

    constructor (ptr: u32, table: array<Entry>)
      ensures this.saddr == ptr && this.table == table && live == map[]
    {
      this.saddr := ptr;
      this.table := table;
      live := map[];
    }

    ghost predicate Valid()
      reads this, table
    {
      && 0 < saddr && saddr % BLOCK_SIZE == 0
      && table.Length * BLOCK_SIZE < 0x8000_0000
      && saddr + table.Length * BLOCK_SIZE < WRAP
      && Represents(table[..], live)
    }

    /** `heap_block_to_address`. */
    function BlockToAddress(block: nat): nat {
      saddr + block * BLOCK_SIZE
    }

    /** `heap_address_to_block`: the difference of the addresses as a 32-bit int,
        divided with truncation toward zero. */
    function AddressToBlock(address: u32): int {
      var d := (address - saddr) % WRAP;
      if d < 0x8000_0000 then d / BLOCK_SIZE else -((WRAP - d) / BLOCK_SIZE)
    }

    /** Every address inside a block leads back to that block, as long as its
        distance from the heap's start fits an int, and only so long: beyond it
        is 2^20 blocks too low, or one less for an address inside the block. */
    lemma AddressRoundTrip(block: nat, k: nat)
      requires k < BLOCK_SIZE && BlockToAddress(block) + k < WRAP
      ensures AddressToBlock(BlockToAddress(block) + k) == block <==> block * BLOCK_SIZE + k < 0x8000_0000
      ensures block * BLOCK_SIZE + k >= 0x8000_0000 ==>
                AddressToBlock(BlockToAddress(block) + k) == block - 0x10_0000 + if k == 0 then 0 else 1
      ensures saddr % BLOCK_SIZE == 0 ==> BlockToAddress(block) % BLOCK_SIZE == 0
    {
      assert BlockToAddress(block) + k - saddr == block * BLOCK_SIZE + k;
    }

    /** `heap_get_start_block`. */
    method GetStartBlock(totalBlocks: u32) returns (bs: int)
      ensures bs == StartBlock(table[..], totalBlocks)
    {
      ghost var t := table[..];
      var bc := 0;
      bs := -1;
      var i := 0;
      while i < table.Length
        invariant 0 <= i <= |t|
        invariant bs == -1 ==> bc == 0 && (i == 0 || !IsFree(t[i - 1]))
        invariant bs != -1 ==> 0 <= bs < i && bc == i - bs && FreeRun(t, bs, bc) && (bs == 0 || !IsFree(t[bs - 1]))
        invariant bc < totalBlocks || totalBlocks == 0
        invariant totalBlocks >= 1 ==> forall u: nat | u + totalBlocks <= i :: !FreeRun(t, u, totalBlocks)
      {
        if !IsFree(table[i]) {
          bc := 0;
          bs := -1;
          i := i + 1;
          continue;
        }
        if bs == -1 {
          bs := i;
        }
        bc := bc + 1;
        if bc == totalBlocks {
          assert FreeRun(t, bs, totalBlocks);
          break;
        }
        i := i + 1;
      }
      if i == |t| {
        TrailingStartUnique(t, if bs == -1 then |t| else bs);
      }
      if bs == -1 {
        return -ENOMEM;
      }
    }

    lemma TrailingStartUnique(t: Table, s: nat)
      requires s <= |t| && (forall i | s <= i < |t| :: IsFree(t[i])) && (s == 0 || !IsFree(t[s - 1]))
      ensures TrailingStart(t) == s
    {
    }

    /** `heap_mark_blocks_taken`. Of a request that reaches past the end of the
        table only the part inside is modelled. */
    method MarkBlocksTaken(startBlock: nat, totalBlocks: nat)
      modifies table
      ensures table[..] == MarkWithin(old(table[..]), startBlock, totalBlocks)
      ensures forall i | startBlock <= i < startBlock + totalBlocks && i < table.Length ::
                table[i] == if totalBlocks == 1 then 0x41
                            else if i == startBlock then 0xc1
                            else if i + 1 < startBlock + totalBlocks then 0x81
                            else 0x01
    {
      var endBlock := startBlock + totalBlocks - 1;
      var entry := TAKEN | IS_FIRST;
      if totalBlocks > 1 {
        entry := entry | HAS_NEXT;
      }
      var i := startBlock;
      while i <= endBlock
        invariant startBlock <= i <= endBlock + 1
        invariant i <= endBlock ==> entry == ChainByte(i - startBlock, totalBlocks)
        invariant forall j | 0 <= j < table.Length ::
                    table[j] == if startBlock <= j < i then ChainByte(j - startBlock, totalBlocks) else old(table[j])
      {
        if i < table.Length {
          table[i] := entry;
        }
        entry := TAKEN;
        if i != endBlock - 1 {
          entry := entry | HAS_NEXT;
        }
        i := i + 1;
      }
    }

    /** `heap_mark_blocks_free`. */
    method MarkBlocksFree(startingBlock: nat)
      modifies table
      ensures table[..] == MarkFree(old(table[..]), startingBlock)
    {
      var i := startingBlock;
      while i < table.Length
        invariant startingBlock <= i
        invariant MarkFree(table[..], i) == MarkFree(old(table[..]), startingBlock)
      {
        var entry := table[i];
        ghost var before := table[..];
        table[i] := FREE;
        assert table[..] == before[i := FREE];
        if entry & HAS_NEXT == 0 {
          return;
        }
        i := i + 1;
      }
    }

    /** The requests the allocator can answer without writing past its table. */
    ghost predicate CanServe(size: u32)
      reads table
    {
      var n := BlocksFor(size);
      n == 0 || HasRun(table[..], n) || !EndsFree(table[..])
    }

    /** `heap_malloc`; zero stands for the null pointer. A request that is
        longer than the free run at the end of the table, and fits nowhere,
        gets that run's address; the table then stands for no allocations at
        all. */
    method Malloc(size: u32) returns (ptr: u32)
      requires Valid()
      modifies this`live, table
      ensures Valid() <==> old(CanServe(size))
      ensures old(CanServe(size)) ==> Malloced(saddr, old(table[..]), old(live), size, ptr, table[..], live)
      ensures !old(CanServe(size)) ==>
                && live == old(live) && ptr == BlockToAddress(TrailingStart(old(table[..])))
                && table[..] == MarkWithin(old(table[..]), TrailingStart(old(table[..])), BlocksFor(size))
                && forall map_: Live :: !Represents(table[..], map_)
    {
      hide Represents;
      ghost var t := table[..];
      var n := BlocksFor(size);
      var start := GetStartBlock(n);
      if start < 0 {
        return 0;
      }
      ptr := BlockToAddress(start);
      if n > 0 {
        FirstFitIff(t, n);
        if HasRun(t, n) {
          MarkWithinFits(t, start, n);
          TakeRepresents(t, live, start, n);
          live := live[start := n];
        } else {
          TooShort(t, n);
          MarkingRepresentsIff(t, live, n);
        }
      }
      MarkBlocksTaken(start, n);
      assert n == 0 ==> table[..] == t;
    }

    /** `heap_free`, on any pointer that leads to the first block of an allocation. */
    method Free(ptr: u32)
      requires Valid() && AddressToBlock(ptr) >= 0 && AddressToBlock(ptr) in live
      modifies this`live, table
      ensures Valid()
      ensures table[..] == MarkFree(old(table[..]), AddressToBlock(ptr))
      ensures live == old(live) - {AddressToBlock(ptr) as nat}
    {
      var block := AddressToBlock(ptr);
      FreeRepresents(table[..], live, block);
      MarkBlocksFree(block);
      live := live - {block};
    }
  }

  /** `heap_create`: both ends aligned and the table of the right length, or
      an error and no heap. */
  method HeapCreate(ptr: u32, end: u32, table: array<Entry>) returns (res: int, heap: Heap?)
    modifies table
    ensures res == 0 <==>
              ptr % BLOCK_SIZE == 0 && end % BLOCK_SIZE == 0 && table.Length == (end - ptr) % WRAP / BLOCK_SIZE
    ensures res != 0 ==> res == -2 && heap == null && table[..] == old(table[..])
    ensures res == 0 ==> heap != null && fresh(heap) && heap.saddr == ptr && heap.table == table
    ensures res == 0 ==> heap.live == map[] && Represents(table[..], heap.live)
    ensures res == 0 ==> FreeCount(table[..]) == table.Length
    ensures res == 0 && 0 < ptr <= end && table.Length * BLOCK_SIZE < 0x8000_0000 ==> heap.Valid()
  {
    if ptr % BLOCK_SIZE != 0 || end % BLOCK_SIZE != 0 {
      return -EINVAGR, null;
    }
    if table.Length != (end - ptr) % WRAP / BLOCK_SIZE {
      return -EINVAGR, null;
    }
    res := 0;
    heap := new Heap(ptr, table);
    for i := 0 to table.Length
      modifies table
      invariant forall j | 0 <= j < i :: table[j] == FREE
    {
      table[i] := FREE;
    }
    Conservation(table[..], map[]);
    LiveBlocksGap(map[], 0, table.Length);
  }

  /** `kheap_init`: the kernel's own heap of 25600 blocks at 16 MiB. */
  method KheapInit() returns (heap: Heap)
    ensures fresh(heap) && fresh(heap.table) && heap.Valid()
    ensures heap.live == map[] && heap.saddr == 0x100_0000 && FreeCount(heap.table[..]) == 25600
  {
    var totalTableEntries := HEAP_SIZE_BYTES / BLOCK_SIZE;
    var table := new Entry[totalTableEntries];
    var res, h := HeapCreate(HEAP_ADDRESS, HEAP_ADDRESS + HEAP_SIZE_BYTES, table);
    heap := h;
  }
}
