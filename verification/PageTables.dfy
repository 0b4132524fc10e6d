/** Two-level page tables as values: the pages of the heap region of physical
    memory, the table walk through them, and what storing entries does to the
    mapping of a directory. The entry format is that of 32-bit paging (Intel
    SDM volume 3A, section 4.3). */
module PageTables {
  import opened Bits
  import opened Status

  const PAGE_SIZE: int := 4096
  const ENTRIES: int := 1024
  const PAGES: int := 0x10_0000

  const IS_WRITEABLE: u32 := 2

  /** One 4096-byte page, as 1024 words. */
  type Page = p: seq<u32> | |p| == ENTRIES witness seq(ENTRIES, _ => 0)

  /** Byte `k` of a page. */
  function PageByte(page: Page, k: nat): u8
    requires k < PAGE_SIZE
  {
    ByteOf(page[k / 4], k % 4)
  }

  /** The physical pages of the heap region; `base` is the page number of its
      first block. */
  datatype Ram = Ram(base: nat, page: seq<Page>) {

    predicate InRam(block: int) {
      0 <= block < |page|
    }

    /** The heap block an address lies in. */
    function BlockOf(address: u32): int {
      address / PAGE_SIZE - base
    }

    /** Store one word. */
    function Put(block: nat, i: nat, v: u32): (r: Ram)
      requires InRam(block) && i < ENTRIES
      ensures r.base == base && |r.page| == |page|
    {
      this.(page := page[block := page[block][i := v]])
    }

    /** The block of the page table behind directory entry `d`: the entry with
        its twelve flag bits masked off is that table's address. */
    function TableOf(dir: nat, d: nat): int
      requires InRam(dir) && d < ENTRIES
    {
      PageMask(page[dir][d]);
      BlockOf(And(page[dir][d], 0xffff_f000))
    }

    /** Block `dir` holds a page directory: its 1024 tables lie in memory, are
        pairwise different and differ from the directory. */
    ghost predicate Directory(dir: nat) {
      && InRam(dir)
      && (forall d: nat | d < ENTRIES :: InRam(TableOf(dir, d)) && TableOf(dir, d) != dir)
      && (forall d: nat, e: nat {:trigger Differ(dir, d, e)} | d < e < ENTRIES :: Differ(dir, d, e))
    }

    ghost predicate Differ(dir: nat, d: nat, e: nat)
      requires InRam(dir) && d < e < ENTRIES
    {
      TableOf(dir, d) != TableOf(dir, e)
    }

    ghost predicate IsTable(dir: nat, block: int)
      requires InRam(dir)
    {
      exists d: nat :: d < ENTRIES && TableOf(dir, d) == block
    }

    /** The table entry for virtual page `q`. */
    function Pte(dir: nat, q: nat): u32
      requires Directory(dir) && q < PAGES
    {
      page[TableOf(dir, q / ENTRIES)][q % ENTRIES]
    }

    function SetPte(dir: nat, q: nat, v: u32): (r: Ram)
      requires Directory(dir) && q < PAGES
    {
      Put(TableOf(dir, q / ENTRIES), q % ENTRIES, v)
    }

    /** `paging_get_physical_address`, for a page-aligned translation. */
    function Translate(dir: nat, virt: u32): int
      requires Directory(dir)
    {
      And(Pte(dir, virt / PAGE_SIZE), 0xffff_f000) + virt % PAGE_SIZE
    }

    /** A user-mode write needs present, writable and user bits in the directory
        entry and in the table entry (Intel SDM volume 3A, section 4.6). */
    ghost predicate UserWritable(dir: nat, q: nat)
      requires Directory(dir) && q < PAGES
    {
      WritableBits(page[dir][q / ENTRIES]) && WritableBits(Pte(dir, q))
    }

    /** What `count` steps of `paging_map_range` store. */
    ghost function MapPages(dir: nat, virt: u32, phys: u32, count: nat, flags: u32): Ram
      requires Directory(dir)
      decreases count
    {
      if count == 0 then this
      else
        OrBelow(phys, flags);
        SetPteKeeps(dir, virt / PAGE_SIZE, Or(phys, flags));
        SetPte(dir, virt / PAGE_SIZE, Or(phys, flags))
          .MapPages(dir, (virt + PAGE_SIZE) % WRAP, (phys + PAGE_SIZE) % WRAP, count - 1, flags)
    }

    /** Setting one entry changes that entry alone. */
    lemma SetPteKeeps(dir: nat, q: nat, v: u32)
      requires Directory(dir) && q < PAGES
      ensures var r := SetPte(dir, q, v);
              && r.base == base && |r.page| == |page| && r.Directory(dir)
              && r.page[dir] == page[dir]
              && (forall p: nat | p < PAGES :: r.Pte(dir, p) == if p == q then v else Pte(dir, p))
              && (forall b: nat | b < |page| && !IsTable(dir, b) :: r.page[b] == page[b])
    {
      var r := SetPte(dir, q, v);
      assert forall d: nat | d < ENTRIES :: r.TableOf(dir, d) == TableOf(dir, d);
      forall d: nat, e: nat | d < e < ENTRIES
        ensures r.Differ(dir, d, e)
      {
        assert Differ(dir, d, e);
      }
      forall p: nat | p < PAGES
        ensures r.Pte(dir, p) == if p == q then v else Pte(dir, p)
      {
        assert p / ENTRIES < q / ENTRIES ==> Differ(dir, p / ENTRIES, q / ENTRIES);
        assert q / ENTRIES < p / ENTRIES ==> Differ(dir, q / ENTRIES, p / ENTRIES);
      }
      assert IsTable(dir, TableOf(dir, q / ENTRIES));
    }
  }

  predicate WritableBits(e: nat) {
    Bit(e, 0) && Bit(e, 1) && Bit(e, 2)
  }

  /** The three bits are the lowest: 1, 2 and 4. */
  lemma WritableBitsAre(e: nat)
    ensures WritableBits(e) <==> e % 8 == 7
  {
    assert e / 2 / 2 == e / 4;
    assert Bit(e, 2) == Bit(e / 2, 1) == Bit(e / 2 / 2, 0);
    assert Bit(e, 1) == Bit(e / 2, 0);
    ModSplit(e, 4);
    ModSplit(e / 2, 2);
  }

  lemma OrBelow(a: u32, b: u32)
    ensures Or(a, b) < WRAP
  {
    Pow2Values();
    OrLow(0, a, b, 32);
  }

  /** `paging_is_aligned`. */
  predicate IsAligned(address: u32) {
    address % PAGE_SIZE == 0
  }

  /** `paging_align_address`: up to the next page, wrapping past the last. */
  function AlignAddress(ptr: u32): u32 {
    if ptr % PAGE_SIZE != 0 then (ptr + PAGE_SIZE - ptr % PAGE_SIZE) % WRAP else ptr
  }

  /** `paging_align_to_lower_page`. */
  function AlignToLowerPage(address: u32): u32 {
    address - address % PAGE_SIZE
  }

  /** Aligning goes to the next page boundary, round the end of the address
      space if need be; aligning down to the one before. */
  lemma AlignsToPages(address: u32)
    ensures AlignAddress(address) % 4096 == 0 && (AlignAddress(address) - address) % 0x1_0000_0000 < 4096
    ensures AlignToLowerPage(address) % 4096 == 0
    ensures AlignToLowerPage(address) <= address < AlignToLowerPage(address) + 4096
  {
  }

  /** `paging_get_indexes`: the directory and table index of a page, or
      nothing for an address inside a page. */
  function Indexes(virt: u32): (r: (int, nat, nat))
    ensures r.1 < ENTRIES && r.2 < ENTRIES
    ensures IsAligned(virt) ==> r == (0, virt / PAGE_SIZE / ENTRIES, virt / PAGE_SIZE % ENTRIES)
  {
    if !IsAligned(virt) then (-EINVAGR, 0, 0)
    else (0, virt / (ENTRIES * PAGE_SIZE), virt % (ENTRIES * PAGE_SIZE) / PAGE_SIZE)
  }

  /** No two aligned addresses have the same pair of indexes. */
  lemma IndexesInjective(a: u32, b: u32)
    requires IsAligned(a) && IsAligned(b) && Indexes(a) == Indexes(b)
    ensures a == b
  {
  }

  /** The k-th page after `virt`, with the wrap-around of 32-bit addresses. */
  function PageAfter(virt: u32, k: nat): (q: nat)
    ensures q < PAGES
  {
    (virt / PAGE_SIZE + k) % PAGES
  }

  function PhysAfter(phys: u32, k: nat): u32 {
    (phys + PAGE_SIZE * k) % WRAP
  }

  lemma PhysAfterStep(phys: u32, k: nat)
    ensures PhysAfter(phys, 0) == phys
    ensures PhysAfter((phys + PAGE_SIZE) % WRAP, k) == PhysAfter(phys, k + 1)
  {
  }

  /** How many pages `q` lies after the page of `virt`. */
  function Distance(virt: u32, q: nat): nat
    requires q < PAGES
  {
    (q - virt / PAGE_SIZE + PAGES) % PAGES
  }

  lemma DistanceInverts(virt: u32, k: nat, q: nat)
    requires k < PAGES && q < PAGES
    ensures Distance(virt, q) == k <==> q == PageAfter(virt, k)
  {
  }

  lemma DistanceStep(virt: u32, q: nat)
    requires q < PAGES
    ensures Distance(virt, q) == 0 <==> q == virt / PAGE_SIZE
    ensures Distance(virt, q) > 0 ==> Distance((virt + PAGE_SIZE) % WRAP, q) == Distance(virt, q) - 1
    ensures Distance(virt, q) == 0 ==> Distance((virt + PAGE_SIZE) % WRAP, q) == PAGES - 1
  {
    var v := virt / PAGE_SIZE;
    if v + 1 < PAGES {
      assert (virt + PAGE_SIZE) % WRAP == virt + PAGE_SIZE;
    } else {
      assert (virt + PAGE_SIZE) % WRAP == virt + PAGE_SIZE - WRAP;
    }
    assert (virt + PAGE_SIZE) % WRAP / PAGE_SIZE == if v + 1 < PAGES then v + 1 else 0;
    assert Distance(virt, q) == if q >= v then q - v else q - v + PAGES;
  }

  /** Mapping leaves the directory itself, and every block that is not one of
      its tables, as they were. */
  lemma {:induction false} MapPagesFrame(ram: Ram, dir: nat, virt: u32, phys: u32, count: nat, flags: u32)
    requires ram.Directory(dir)
    ensures var r := ram.MapPages(dir, virt, phys, count, flags);
            && r.base == ram.base && |r.page| == |ram.page| && r.Directory(dir)
            && r.page[dir] == ram.page[dir]
            && (forall b: nat | b < |ram.page| && !ram.IsTable(dir, b) :: r.page[b] == ram.page[b])
    decreases count
  {
    if count > 0 {
      OrBelow(phys, flags);
      ram.SetPteKeeps(dir, virt / PAGE_SIZE, Or(phys, flags));
      var next := ram.SetPte(dir, virt / PAGE_SIZE, Or(phys, flags));
      MapPagesFrame(next, dir, (virt + PAGE_SIZE) % WRAP, (phys + PAGE_SIZE) % WRAP, count - 1, flags);
      assert forall d: nat | d < ENTRIES :: next.TableOf(dir, d) == ram.TableOf(dir, d);
    }
  }

  lemma {:induction false} MapPagesAt(ram: Ram, dir: nat, virt: u32, phys: u32, count: nat, flags: u32, q: nat)
    requires ram.Directory(dir) && count <= PAGES && q < PAGES
    ensures ram.MapPages(dir, virt, phys, count, flags).Directory(dir)
    ensures ram.MapPages(dir, virt, phys, count, flags).Pte(dir, q) ==
            if Distance(virt, q) < count then Or(PhysAfter(phys, Distance(virt, q)), flags)
            else ram.Pte(dir, q)
    decreases count
  {
    if count > 0 {
      OrBelow(phys, flags);
      ram.SetPteKeeps(dir, virt / PAGE_SIZE, Or(phys, flags));
      var next := ram.SetPte(dir, virt / PAGE_SIZE, Or(phys, flags));
      MapPagesAt(next, dir, (virt + PAGE_SIZE) % WRAP, (phys + PAGE_SIZE) % WRAP, count - 1, flags, q);
      DistanceStep(virt, q);
      PhysAfterStep(phys, if Distance(virt, q) > 0 then Distance(virt, q) - 1 else 0);
    }
  }

  /** Mapping a range stores phys + 4096 k with the flags at the k-th page from
      virt, for every k below the count, and nothing else: every other page of
      the directory keeps its entry, every block that is not one of its tables
      keeps its contents. */
  lemma MapPagesExact(ram: Ram, dir: nat, virt: u32, phys: u32, count: nat, flags: u32)
    requires ram.Directory(dir) && count <= PAGES
    ensures var r := ram.MapPages(dir, virt, phys, count, flags);
            && r.base == ram.base && |r.page| == |ram.page| && r.Directory(dir)
            && r.page[dir] == ram.page[dir]
            && (forall k: nat | k < count ::
                  r.Pte(dir, PageAfter(virt, k)) == Or(PhysAfter(phys, k), flags))
            && (forall q: nat | q < PAGES && (forall k: nat | k < count :: q != PageAfter(virt, k)) ::
                  r.Pte(dir, q) == ram.Pte(dir, q))
            && (forall b: nat | b < |ram.page| && !ram.IsTable(dir, b) :: r.page[b] == ram.page[b])
  {
    MapPagesFrame(ram, dir, virt, phys, count, flags);
    var r := ram.MapPages(dir, virt, phys, count, flags);
    forall k: nat | k < count
      ensures r.Pte(dir, PageAfter(virt, k)) == Or(PhysAfter(phys, k), flags)
    {
      DistanceInverts(virt, k, PageAfter(virt, k));
      MapPagesAt(ram, dir, virt, phys, count, flags, PageAfter(virt, k));
    }
    forall q: nat | q < PAGES && forall k: nat | k < count :: q != PageAfter(virt, k)
      ensures r.Pte(dir, q) == ram.Pte(dir, q)
    {
      DistanceInverts(virt, Distance(virt, q), q);
      MapPagesAt(ram, dir, virt, phys, count, flags, q);
    }
  }
}
