/** Physical memory with its heap, and the paging functions that build, fill
    and free page directories in it. */
module Paging {
  import opened Bits
  import opened HeapTable
  import opened KernelHeap
  import opened PageTables
  import opened Status

  /** The word `w` after its `n` lowest bytes were set to zero. */
  function ClearLow(w: u32, n: int): u32 {
    if n <= 0 then w
    else if n == 1 then w - w % 0x100
    else if n == 2 then w - w % 0x1_0000
    else if n == 3 then w - w % 0x100_0000
    else 0
  }

  /** The first `done` words from `block` on have been cleared, up to `size`
      bytes in all; every other block is as before. */
  ghost predicate Zeroed(old_: Ram, new_: Ram, block: nat, n: nat, size: int, done: int) {
    && new_.base == old_.base && |new_.page| == |old_.page| && block + n <= |old_.page|
    && (forall b: nat | b < |old_.page| && !(block <= b < block + n) :: new_.page[b] == old_.page[b])
    && (forall b: nat, i: nat | block <= b < block + n && i < ENTRIES ::
          new_.page[b][i] ==
          if WordIndex(block, b, i) < done then ClearLow(old_.page[b][i], size - 4 * WordIndex(block, b, i))
          else old_.page[b][i])
  }

  /** How many words word `i` of block `b` lies behind the start of `block`. */
  function WordIndex(block: nat, b: nat, i: nat): int {
    (b - block) * ENTRIES + i
  }

  lemma ZeroStart(ram: Ram, block: nat, n: nat, size: nat)
    requires block + n <= |ram.page|
    ensures Zeroed(ram, ram, block, n, size, 0)
  {
  }

  lemma ZeroStep(old_: Ram, ram: Ram, block: nat, n: nat, size: nat, w: nat)
    requires Zeroed(old_, ram, block, n, size, w) && 4 * w < size <= n * PAGE_SIZE
    ensures var b, i := block + w / ENTRIES, w % ENTRIES;
            && b < |ram.page|
            && Zeroed(old_, ram.Put(b, i, ClearLow(ram.page[b][i], size - 4 * w)), block, n, size, w + 1)
  {
    var c, j := block + w / ENTRIES, w % ENTRIES;
    var r := ram.Put(c, j, ClearLow(ram.page[c][j], size - 4 * w));
    forall b: nat, i: nat | block <= b < block + n && i < ENTRIES
      ensures r.page[b][i] ==
              if WordIndex(block, b, i) < w + 1 then ClearLow(old_.page[b][i], size - 4 * WordIndex(block, b, i))
              else old_.page[b][i]
    {
      assert WordIndex(block, b, i) == w <==> b == c && i == j;
    }
  }

  lemma ZeroedFrame(old_: Ram, ram: Ram, block: nat, n: nat, size: nat, done: nat)
    requires Zeroed(old_, ram, block, n, size, done)
    ensures ram.base == old_.base && |ram.page| == |old_.page| && block + n <= |ram.page|
    ensures forall b: nat | b < |ram.page| && !(block <= b < block + n) :: ram.page[b] == old_.page[b]
  {
  }

  // ----- What `kzalloc` clears, byte by byte

  /** Byte `k` of the memory that starts at `block`. */
  function RamByte(ram: Ram, block: nat, k: nat): u8
    requires block + k / PAGE_SIZE < |ram.page|
  {
    PageByte(ram.page[block + k / PAGE_SIZE], k % PAGE_SIZE)
  }

  /** Word `i` of it. */
  function RamWord(ram: Ram, block: nat, i: nat): u32
    requires block + i / ENTRIES < |ram.page|
  {
    ram.page[block + i / ENTRIES][i % ENTRIES]
  }

  /** Memory is little-endian. */
  lemma WordIsBytes(ram: Ram, block: nat, i: nat)
    requires block + i / ENTRIES < |ram.page|
    ensures RamWord(ram, block, i) ==
            RamByte(ram, block, 4 * i) + 0x100 * RamByte(ram, block, 4 * i + 1)
            + 0x1_0000 * RamByte(ram, block, 4 * i + 2) + 0x100_0000 * RamByte(ram, block, 4 * i + 3)
  {
    hide ByteOf;
    var w := RamWord(ram, block, i);
    forall j: nat | j < 4
      ensures (4 * i + j) / PAGE_SIZE == i / ENTRIES && RamByte(ram, block, 4 * i + j) == ByteOf(w, j)
    {
      assert (4 * i + j) % PAGE_SIZE == 4 * (i % ENTRIES) + j;
    }
    BytesOfWord(w, ByteOf(w, 0), ByteOf(w, 1), ByteOf(w, 2), ByteOf(w, 3));
  }

  lemma ClearLowClears(w: u32, n: int, j: nat)
    requires j < 4 && j < n
    ensures ByteOf(ClearLow(w, n), j) == 0
  {
    var c := ClearLow(w, n);
    DivTwice(c);
    if n == 1 {
      ModUnique(c, 0x100, w / 0x100, 0);
    } else if n == 2 {
      ModUnique(c, 0x1_0000, w / 0x1_0000, 0);
    } else if n == 3 {
      ModUnique(c, 0x100_0000, w / 0x100_0000, 0);
    }
  }

  /** Every byte asked for is zero. */
  lemma ZeroedClears(old_: Ram, ram: Ram, block: nat, n: nat, size: nat, k: nat)
    requires Zeroed(old_, ram, block, n, size, (size + 3) / 4) && k < size <= n * PAGE_SIZE
    ensures block + k / PAGE_SIZE < |ram.page| && RamByte(ram, block, k) == 0
  {
    hide ClearLow, ByteOf;
    var b, i, j := block + k / PAGE_SIZE, k % PAGE_SIZE / 4, k % 4;
    var w := WordIndex(block, b, i);
    assert 4 * w + j == k;
    ClearLowClears(old_.page[b][i], size - 4 * w, j);
  }

  /** So is every word that lies wholly below the size. */
  lemma ZeroedClearsWord(old_: Ram, ram: Ram, block: nat, n: nat, size: nat, i: nat)
    requires Zeroed(old_, ram, block, n, size, (size + 3) / 4) && 4 * i + 4 <= size <= n * PAGE_SIZE
    ensures block + i / ENTRIES < |ram.page| && RamWord(ram, block, i) == 0
  {
    assert WordIndex(block, block + i / ENTRIES, i % ENTRIES) == i;
  }

  lemma ClearLowKeeps(w: u32, n: int, j: nat)
    requires n <= j < 4
    ensures ByteOf(ClearLow(w, n), j) == ByteOf(w, j)
  {
    var c := ClearLow(w, n);
    DivTwice(w);
    DivTwice(c);
    if n == 1 {
      ModUnique(c, 0x100, w / 0x100, 0);
    } else if n == 2 {
      ModUnique(c, 0x1_0000, w / 0x1_0000, 0);
    } else if n == 3 {
      ModUnique(c, 0x100_0000, w / 0x100_0000, 0);
    }
  }

  /** The rest of the last page keeps what the memory held before. */
  lemma ZeroedKeepsTail(old_: Ram, ram: Ram, block: nat, n: nat, size: nat, p: nat, k: nat)
    requires Zeroed(old_, ram, block, n, size, (size + 3) / 4) && p < n && k < PAGE_SIZE
    requires p * PAGE_SIZE + k >= size
    ensures block + p < |old_.page| == |ram.page|
    ensures PageByte(ram.page[block + p], k) == PageByte(old_.page[block + p], k)
  {
    hide ClearLow, ByteOf;
    var i, j := k / 4, k % 4;
    var w := WordIndex(block, block + p, i);
    assert 4 * w + j == p * PAGE_SIZE + k;
    if w < (size + 3) / 4 {
      ClearLowKeeps(old_.page[block + p][i], size - 4 * w, j);
    }
  }

  /** One more allocation, in blocks that belonged to none. */
  ghost predicate Grew(ram0: Ram, live0: Live, ram: Ram, live: Live, block: nat, n: nat) {
    && ram.base == ram0.base && |ram.page| == |ram0.page| && block + n <= |ram.page|
    && block !in live0 && live == live0[block := n] && Tiled(live, |ram.page|)
    && (forall b: nat | Covered(live0, b) :: !(block <= b < block + n))
    && (forall b: nat | b < |ram.page| && !(block <= b < block + n) :: ram.page[b] == ram0.page[b])
  }

  lemma TakeGrows(t: Table, live: Live, s: nat, n: nat)
    requires Represents(t, live) && n >= 1 && FreeRun(t, s, n)
    ensures Tiled(live[s := n], |t|) && s !in live
    ensures forall b: nat | Covered(live, b) :: !(s <= b < s + n)
  {
    TakeRepresents(t, live, s, n);
    forall b: nat | Covered(live, b)
      ensures !(s <= b < s + n)
    {
      var u: nat :| InChain(live, u, b);
    }
  }

  lemma FirstServed(t: Table, n: nat, rest: seq<nat>)
    requires Serves(t, [n] + rest)
    ensures n >= 1 && HasRun(t, n) && Serves(Served(t, n), rest)
    ensures var s := StartBlock(t, n); s >= 0 && FreeRun(t, s, n) && Served(t, n) == MarkTaken(t, s, n)
  {
    assert ([n] + rest)[0] == n && ([n] + rest)[1..] == rest;
    FirstFitIff(t, n);
  }

  /** Allocations of one block each. */
  ghost function Singles(blocks: set<nat>): Live {
    map b | b in blocks :: 1
  }

  /** The page whose entries map `offset`, `offset` + 4096 and so on to
      themselves. */
  ghost predicate IsIdentityPage(page: Page, offset: u32, flags: u8) {
    forall b: nat | b < ENTRIES :: page[b] == Or((offset + b * PAGE_SIZE) % WRAP, flags)
  }

  /** Where the pages of table `i` begin. */
  function TableOffset(i: nat): nat {
    i * ENTRIES * PAGE_SIZE
  }

  /** After the last table the 32-bit offset wraps to zero. */
  lemma TableOffsetStep(i: nat)
    requires i < ENTRIES
    ensures TableOffset(i) < WRAP
    ensures (TableOffset(i) + ENTRIES * PAGE_SIZE) % WRAP == if i + 1 < ENTRIES then TableOffset(i + 1) else 0
  {
  }

  ghost function Elements(s: seq<nat>): set<nat> {
    set i: nat | i < |s| :: s[i]
  }

  lemma ElementsSnoc(s: seq<nat>, x: nat)
    ensures Elements(s + [x]) == Elements(s) + {x}
  {
    var t := s + [x];
    forall y | y in Elements(s) + {x}
      ensures y in Elements(t)
    {
      if y == x {
        assert t[|s|] == x;
      } else {
        var i: nat :| i < |s| && s[i] == y;
        assert t[i] == y;
      }
    }
  }

  /** An entry made from a page address and flag bits: masking recovers the
      address, and the low bits are the flags. */
  lemma EntryParts(q: nat, f: nat)
    requires q < PAGES && f < PAGE_SIZE
    ensures Or(q * PAGE_SIZE, f) == q * PAGE_SIZE + f < WRAP
    ensures And(q * PAGE_SIZE + f, 0xffff_f000) == q * PAGE_SIZE
  {
    hide Or, And;
    OrPage(q, 0, f);
    OrZeroLeft(f);
    PageMask(q * PAGE_SIZE + f);
  }

  /** A directory entry also gets the writeable bit. */
  lemma DirectoryEntryParts(q: nat, f: u8)
    requires q < PAGES
    ensures Or(Or(q * PAGE_SIZE, f), IS_WRITEABLE) == q * PAGE_SIZE + Or(f, IS_WRITEABLE) < WRAP
    ensures Or(f, IS_WRITEABLE) < PAGE_SIZE
    ensures And(q * PAGE_SIZE + Or(f, IS_WRITEABLE), 0xffff_f000) == q * PAGE_SIZE
  {
    hide Or, And;
    EntryParts(q, f);
    OrPage(q, f, IS_WRITEABLE);
    EntryParts(q, Or(f, IS_WRITEABLE));
  }

  ghost function TablesBelow(ram: Ram, dir: nat, n: nat): set<nat>
    requires ram.Directory(dir) && n <= ENTRIES
  {
    set d: nat | d < n :: ram.TableOf(dir, d) as nat
  }

  /** A directory chunk: a block whose first word is the address of a page
      directory, apart from the directory and its tables. */
  ghost predicate IsChunk(ram: Ram, chunk: nat) {
    && ram.InRam(chunk)
    && ram.page[chunk][0] % PAGE_SIZE == 0
    && ram.InRam(DirOf(ram, chunk)) && ram.Directory(DirOf(ram, chunk))
    && chunk != DirOf(ram, chunk)
    && !ram.IsTable(DirOf(ram, chunk), chunk)
  }

  function DirOf(ram: Ram, chunk: nat): int
    requires ram.InRam(chunk)
  {
    ram.BlockOf(ram.page[chunk][0])
  }

  /** All the blocks a directory chunk is made of. */
  ghost function OwnedBlocks(ram: Ram, chunk: nat): set<nat>
    requires IsChunk(ram, chunk)
  {
    {chunk, DirOf(ram, chunk) as nat} + TablesBelow(ram, DirOf(ram, chunk), ENTRIES)
  }

  /** What the first rounds of `paging_new_4gb` have built: `tabs` are the
      tables allocated so far, none of them in use before. */
  ghost predicate Built(ram0: Ram, live0: Live, ram: Ram, live: Live, dir: nat, tabs: seq<nat>, flags: u8) {
    && ram.base == ram0.base && |ram.page| == |ram0.page| && ram.base + |ram.page| <= PAGES
    && ram.InRam(dir) && dir !in live0 && |tabs| <= ENTRIES
    && !Covered(live0, dir)
    && live == live0[dir := 1] + Singles(Elements(tabs))
    && (forall j: nat | j < |tabs| :: BuiltTable(live0, ram, dir, tabs, j, flags))
    && (forall j: nat, k: nat {:trigger Differ(tabs, j, k)} | j < k < |tabs| :: Differ(tabs, j, k))
    && (forall b: nat | b < |ram.page| && b != dir && b !in Elements(tabs) :: ram.page[b] == ram0.page[b])
  }

  ghost predicate Differ(tabs: seq<nat>, j: nat, k: nat)
    requires j < k < |tabs|
  {
    tabs[j] != tabs[k]
  }

  ghost predicate BuiltTable(live0: Live, ram: Ram, dir: nat, tabs: seq<nat>, j: nat, flags: u8)
    requires j < |tabs| <= ENTRIES && ram.InRam(dir)
  {
    && ram.InRam(tabs[j]) && tabs[j] != dir && tabs[j] !in live0 && !Covered(live0, tabs[j])
    && ram.page[dir][j] == Or(Or((ram.base + tabs[j]) * PAGE_SIZE, flags), IS_WRITEABLE)
    && IsIdentityPage(ram.page[tabs[j]], TableOffset(j), flags)
  }

  lemma BuiltStart(ram0: Ram, live0: Live, ram: Ram, dir: nat, flags: u8)
    requires ram.base == ram0.base && |ram.page| == |ram0.page| && ram.base + |ram.page| <= PAGES
    requires ram.InRam(dir) && dir !in live0 && !Covered(live0, dir)
    requires forall b: nat | b < |ram.page| && b != dir :: ram.page[b] == ram0.page[b]
    ensures Built(ram0, live0, ram, live0[dir := 1], dir, [], flags)
  {
    assert live0[dir := 1] == live0[dir := 1] + Singles(Elements([]));
  }

  /** One more round: a block that was neither live nor covered is filled and
      entered into the directory. */
  lemma BuiltStep(ram0: Ram, live0: Live, ram: Ram, live: Live, dir: nat, tabs: seq<nat>, flags: u8,
                  r: Ram, t: nat)
    requires Built(ram0, live0, ram, live, dir, tabs, flags) && |tabs| < ENTRIES
    requires t !in live && !Covered(live, t) && ram.InRam(t)
    requires r.base == ram.base && |r.page| == |ram.page|
    requires IsIdentityPage(r.page[t], TableOffset(|tabs|), flags)
    requires r.page[dir][|tabs|] == Or(Or((ram.base + t) * PAGE_SIZE, flags), IS_WRITEABLE)
    requires forall i: nat | i < ENTRIES && i != |tabs| :: r.page[dir][i] == ram.page[dir][i]
    requires forall b: nat | b < |ram.page| && b != t && b != dir :: r.page[b] == ram.page[b]
    ensures Built(ram0, live0, r, live[t := 1], dir, tabs + [t], flags)
  {
    hide Or, And, IsIdentityPage, Covered;
    var tabs' := tabs + [t];
    ElementsSnoc(tabs, t);
    BuiltFresh(ram0, live0, ram, live, dir, tabs, flags, t);
    forall j: nat | j < |tabs|
      ensures tabs[j] != t && BuiltTable(live0, r, dir, tabs', j, flags)
    {
      assert BuiltTable(live0, ram, dir, tabs, j, flags);
      assert tabs[j] in Elements(tabs);
    }
    assert BuiltTable(live0, r, dir, tabs', |tabs|, flags);
    forall j: nat, k: nat | j < k < |tabs'|
      ensures Differ(tabs', j, k)
    {
      assert k < |tabs| ==> Differ(tabs, j, k);
    }
    assert live[t := 1] == live0[dir := 1] + Singles(Elements(tabs'));
  }

  /** A block free of the allocations made so far was free before. */
  lemma BuiltFresh(ram0: Ram, live0: Live, ram: Ram, live: Live, dir: nat, tabs: seq<nat>, flags: u8, t: nat)
    requires Built(ram0, live0, ram, live, dir, tabs, flags) && t !in live && !Covered(live, t)
    ensures t !in live0 && !Covered(live0, t) && t != dir && t !in Elements(tabs)
  {
    BuiltTablesFresh(ram0, live0, ram, live, dir, tabs, flags);
    forall u: nat
      ensures !InChain(live0, u, t)
    {
      assert !InChain(live, u, t);
    }
  }

  /** What `paging_new_4gb` leaves behind: a chunk whose directory maps every
      page to itself, in blocks of its own. */
  ghost predicate FreshDirectory(ram0: Ram, live0: Live, ram: Ram, live: Live, chunk: nat, flags: u8) {
    && ram.base == ram0.base && |ram.page| == |ram0.page| && IsChunk(ram, chunk)
    && (forall d: nat | d < ENTRIES :: ram.page[DirOf(ram, chunk)][d] % PAGE_SIZE == Or(flags, IS_WRITEABLE))
    && (forall q: nat | q < PAGES :: ram.Pte(DirOf(ram, chunk), q) == q * PAGE_SIZE + flags)
    && OwnedBlocks(ram, chunk) !! live0.Keys
    && live == live0 + Singles(OwnedBlocks(ram, chunk))
    && (forall b | b in OwnedBlocks(ram, chunk) :: !Covered(live0, b))
    && (forall b: nat | b < |ram.page| && b !in OwnedBlocks(ram, chunk) :: ram.page[b] == ram0.page[b])
  }

  lemma BuiltEntry(ram0: Ram, live0: Live, ram: Ram, live: Live, dir: nat, tabs: seq<nat>, flags: u8, d: nat)
    requires Built(ram0, live0, ram, live, dir, tabs, flags) && d < |tabs|
    ensures ram.TableOf(dir, d) == tabs[d] && ram.InRam(tabs[d]) && tabs[d] != dir
    ensures ram.page[dir][d] % PAGE_SIZE == Or(flags, IS_WRITEABLE)
  {
    hide Or, And, IsIdentityPage;
    assert BuiltTable(live0, ram, dir, tabs, d, flags);
    DirectoryEntryParts(ram.base + tabs[d], flags);
  }

  lemma BuiltDirectory(ram0: Ram, live0: Live, ram: Ram, live: Live, dir: nat, tabs: seq<nat>, flags: u8)
    requires Built(ram0, live0, ram, live, dir, tabs, flags) && |tabs| == ENTRIES
    ensures ram.Directory(dir)
    ensures forall d: nat | d < ENTRIES ::
              ram.TableOf(dir, d) == tabs[d] && ram.page[dir][d] % PAGE_SIZE == Or(flags, IS_WRITEABLE)
    ensures forall q: nat | q < PAGES :: ram.Pte(dir, q) == q * PAGE_SIZE + flags
    ensures TablesBelow(ram, dir, ENTRIES) == Elements(tabs)
  {
    hide Or, And;
    forall d: nat | d < ENTRIES
      ensures ram.TableOf(dir, d) == tabs[d] && ram.InRam(tabs[d]) && tabs[d] != dir
      ensures ram.page[dir][d] % PAGE_SIZE == Or(flags, IS_WRITEABLE)
    {
      BuiltEntry(ram0, live0, ram, live, dir, tabs, flags, d);
    }
    forall d: nat, e: nat | d < e < ENTRIES
      ensures ram.Differ(dir, d, e)
    {
      assert Differ(tabs, d, e);
    }
    forall q: nat | q < PAGES
      ensures ram.Pte(dir, q) == q * PAGE_SIZE + flags
    {
      assert BuiltTable(live0, ram, dir, tabs, q / ENTRIES, flags);
      EntryParts(q, flags);
    }
  }

  /** The chunk allocated last owns itself, the directory and the tables. */
  lemma BuiltChunk(ram0: Ram, live0: Live, ram: Ram, live: Live, dir: nat, tabs: seq<nat>, flags: u8,
                   r: Ram, chunk: nat)
    requires Built(ram0, live0, ram, live, dir, tabs, flags) && |tabs| == ENTRIES
    requires chunk !in live && !Covered(live, chunk) && ram.InRam(chunk)
    requires r.base == ram.base && |r.page| == |ram.page|
    requires r.page[chunk][0] == (r.base + dir) * PAGE_SIZE
    requires forall b: nat | b < |ram.page| && b != chunk :: r.page[b] == ram.page[b]
    ensures DirOf(r, chunk) == dir && IsChunk(r, chunk)
    ensures OwnedBlocks(r, chunk) == {chunk, dir} + Elements(tabs)
    ensures forall d: nat | d < ENTRIES :: r.page[dir][d] % PAGE_SIZE == Or(flags, IS_WRITEABLE)
    ensures forall q: nat | q < PAGES :: r.Pte(dir, q) == q * PAGE_SIZE + flags
  {
    hide Or, And, IsIdentityPage, BuiltTable;
    BuiltDirectory(ram0, live0, ram, live, dir, tabs, flags);
    BuiltFresh(ram0, live0, ram, live, dir, tabs, flags, chunk);
    assert forall d: nat | d < ENTRIES :: tabs[d] in Elements(tabs);
    SameDirectory(ram, r, dir);
  }

  lemma BuiltDone(ram0: Ram, live0: Live, ram: Ram, live: Live, dir: nat, tabs: seq<nat>, flags: u8,
                  r: Ram, chunk: nat)
    requires Built(ram0, live0, ram, live, dir, tabs, flags) && |tabs| == ENTRIES
    requires chunk !in live && !Covered(live, chunk) && ram.InRam(chunk)
    requires r.base == ram.base && |r.page| == |ram.page|
    requires r.page[chunk][0] == (r.base + dir) * PAGE_SIZE
    requires forall b: nat | b < |ram.page| && b != chunk :: r.page[b] == ram.page[b]
    ensures FreshDirectory(ram0, live0, r, live[chunk := 1], chunk, flags)
  {
    hide Or, And, BuiltTable, Differ, Covered, IsChunk, OwnedBlocks;
    BuiltChunk(ram0, live0, ram, live, dir, tabs, flags, r, chunk);
    BuiltFresh(ram0, live0, ram, live, dir, tabs, flags, chunk);
    BuiltTablesFresh(ram0, live0, ram, live, dir, tabs, flags);
  }

  lemma BuiltTablesFresh(ram0: Ram, live0: Live, ram: Ram, live: Live, dir: nat, tabs: seq<nat>, flags: u8)
    requires Built(ram0, live0, ram, live, dir, tabs, flags)
    ensures forall b | b in Elements(tabs) :: !Covered(live0, b) && b !in live0
  {
    forall b | b in Elements(tabs)
      ensures !Covered(live0, b) && b !in live0
    {
      var j: nat :| j < |tabs| && tabs[j] == b;
      assert BuiltTable(live0, ram, dir, tabs, j, flags);
    }
  }

  /** A directory depends only on its own block and its tables' blocks. */
  lemma SameDirectory(ram: Ram, r: Ram, dir: nat)
    requires ram.Directory(dir) && r.base == ram.base && |r.page| == |ram.page|
    requires r.page[dir] == ram.page[dir]
    requires forall b: nat | b < |ram.page| && ram.IsTable(dir, b) :: r.page[b] == ram.page[b]
    ensures r.Directory(dir) && TablesBelow(r, dir, ENTRIES) == TablesBelow(ram, dir, ENTRIES)
    ensures forall d: nat | d < ENTRIES :: r.TableOf(dir, d) == ram.TableOf(dir, d)
    ensures forall q: nat | q < PAGES :: r.Pte(dir, q) == ram.Pte(dir, q)
  {
    assert forall d: nat | d < ENTRIES :: r.TableOf(dir, d) == ram.TableOf(dir, d);
    forall d: nat, e: nat | d < e < ENTRIES
      ensures r.Differ(dir, d, e)
    {
      assert ram.Differ(dir, d, e);
    }
    forall q: nat | q < PAGES
      ensures r.Pte(dir, q) == ram.Pte(dir, q)
    {
      assert ram.IsTable(dir, ram.TableOf(dir, q / ENTRIES));
    }
  }

  lemma AllCleared(old_: Ram, ram: Ram, block: nat, n: nat, size: nat)
    requires Zeroed(old_, ram, block, n, size, (size + 3) / 4) && size <= n * PAGE_SIZE
    ensures forall k: nat | k < size :: block + k / PAGE_SIZE < |ram.page| && RamByte(ram, block, k) == 0
    ensures forall i: nat | 4 * i + 4 <= size :: block + i / ENTRIES < |ram.page| && RamWord(ram, block, i) == 0
  {
    hide Zeroed, RamByte, RamWord;
    forall k: nat | k < size
      ensures block + k / PAGE_SIZE < |ram.page| && RamByte(ram, block, k) == 0
    {
      ZeroedClears(old_, ram, block, n, size, k);
    }
    forall i: nat | 4 * i + 4 <= size
      ensures block + i / ENTRIES < |ram.page| && RamWord(ram, block, i) == 0
    {
      ZeroedClearsWord(old_, ram, block, n, size, i);
    }
  }

  class Machine {
    const heap: Heap
    var ram: Ram

    constructor (heap: Heap)
      requires heap.Valid()
      ensures this.heap == heap && Valid()
    {
      this.heap := heap;
      ram := Ram(heap.saddr / PAGE_SIZE, seq(heap.table.Length, _ => seq(ENTRIES, _ => 0)));
    }

    ghost predicate Valid()
      reads this, heap, heap.table
    {
      heap.Valid() && ram.base * PAGE_SIZE == heap.saddr && |ram.page| == heap.table.Length
    }

    lemma HeapFacts()
      requires Valid()
      ensures Tiled(heap.live, |ram.page|)
      ensures (ram.base + |ram.page|) * PAGE_SIZE < WRAP && ram.base > 0 && |ram.page| * PAGE_SIZE < 0x8000_0000
      ensures heap.saddr == ram.base * PAGE_SIZE
    {
    }

    /** The machine address of a heap block. */
    function Address(block: nat): int
      reads this
    {
      (ram.base + block) * PAGE_SIZE
    }

    /** The word `i` of the page at `page`, as the C expression `page[i]`. */
    function Load(page: u32, i: nat): u32
      requires page % PAGE_SIZE == 0 && ram.InRam(ram.BlockOf(page)) && i < ENTRIES
      reads this
    {
      ram.page[ram.BlockOf(page)][i]
    }

    /** The assignment `page[i] = v`. */
    method Store(page: u32, i: nat, v: u32, ghost block: nat)
      requires block < |ram.page| && page == Address(block) && i < ENTRIES
      modifies this`ram
      ensures ram == old(ram).Put(block, i, v)
    {
      ram := ram.Put(ram.BlockOf(page), i, v);
    }

    /** `memset` to zero over freshly allocated blocks, a word at a time. */
    method MemsetZero(ptr: u32, size: u32, ghost block: nat, ghost n: nat)
      requires ptr == Address(block) && size <= n * PAGE_SIZE
      requires block + n <= |ram.page| && (ram.base + |ram.page|) * PAGE_SIZE <= WRAP
      modifies this`ram
      ensures ram.base == old(ram.base) && |ram.page| == |old(ram.page)|
      ensures Zeroed(old(ram), ram, block, n, size, (size + 3) / 4)
    {
      hide Zeroed, ClearLow;
      ZeroStart(ram, block, n, size);
      for w := 0 to (size + 3) / 4
        invariant ram.base == old(ram.base) && |ram.page| == |old(ram.page)|
        invariant Zeroed(old(ram), ram, block, n, size, w)
      {
        ZeroStep(old(ram), ram, block, n, size, w);
        var page, i := ptr + w / ENTRIES * PAGE_SIZE, w % ENTRIES;
        Store(page, i, ClearLow(Load(page, i), size - 4 * w), block + w / ENTRIES);
      }
    }

    /** `kzalloc`. */
    method Kzalloc(size: u32) returns (ptr: u32, ghost block: nat)
      requires Valid() && heap.CanServe(size) && size <= WRAP - PAGE_SIZE
      modifies this`ram, heap`live, heap.table
      ensures Valid() && ram.base == old(ram.base)
      ensures Malloced(heap.saddr, old(heap.table[..]), old(heap.live), size, ptr, heap.table[..], heap.live)
      ensures ptr != 0 ==> ptr == Address(block)
      ensures ptr == 0 || size == 0 ==> ram == old(ram)
      ensures ptr != 0 && size > 0 ==> Zeroed(old(ram), ram, block, BlocksFor(size), size, (size + 3) / 4)
      ensures ptr != 0 ==> forall k: nat | k < size :: block + k / PAGE_SIZE < |ram.page| && RamByte(ram, block, k) == 0
      ensures ptr != 0 ==>
                forall i: nat | 4 * i + 4 <= size :: block + i / ENTRIES < |ram.page| && RamWord(ram, block, i) == 0
    {
      hide Represents, Zeroed, IsFirstFit, HasRun, RamByte, RamWord;
      block := 0;
      ptr := heap.Malloc(size);
      if ptr == 0 {
        return;
      }
      block := ram.BlockOf(ptr);
      if size > 0 {
        BlocksForExact(size);
        MemsetZero(ptr, size, block, BlocksFor(size));
        AllCleared(old(ram), ram, block, BlocksFor(size), size);
      }
    }

    /** `kfree` of an allocation's own address. */
    method Kfree(ptr: u32, ghost block: nat)
      requires Valid() && block < |ram.page| && ptr == Address(block) && block in heap.live
      modifies heap`live, heap.table
      ensures Valid() && heap.live == old(heap.live) - {block}
      ensures heap.table[..] == MarkFree(old(heap.table[..]), block)
    {
      hide Represents, Heap.AddressToBlock;
      HeapFacts();
      heap.AddressRoundTrip(block, 0);
      heap.Free(ptr);
    }

    /** `kzalloc` of at most one page, when a block is free. */
    method KzallocPage(size: u32) returns (ptr: u32, ghost block: nat)
      requires Valid() && 0 < size <= PAGE_SIZE && FreeCount(heap.table[..]) >= 1
      modifies this`ram, heap`live, heap.table
      ensures Valid() && ram.base == old(ram.base)
      ensures block < |ram.page| && ptr == Address(block) && ptr != 0
      ensures block !in old(heap.live) && !Covered(old(heap.live), block)
      ensures heap.live == old(heap.live)[block := 1]
      ensures FreeCount(heap.table[..]) == FreeCount(old(heap.table[..])) - 1
      ensures |ram.page| == |old(ram.page)|
      ensures forall b: nat | b < |ram.page| && b != block :: ram.page[b] == old(ram.page[b])
      ensures forall k: nat | k < size :: RamByte(ram, block, k) == 0
    {
      hide RamByte, RamWord;
      ghost var t, live := heap.table[..], heap.live;
      FreeCountRun(t);
      assert BlocksFor(size) == 1;
      ptr, block := Kzalloc(size);
      TakeRepresents(t, live, block, 1);
      TakeCount(t, live, block, 1);
      assert !Covered(live, block) by {
        forall u: nat
          ensures !InChain(live, u, block)
        {
        }
      }
    }

    /** The first of several `kzalloc` requests that can all be answered. */
    method KzallocRun(size: u32, ghost rest: seq<nat>) returns (ptr: u32, ghost block: nat)
      requires Valid() && 0 < size <= WRAP - PAGE_SIZE && Serves(heap.table[..], [BlocksFor(size)] + rest)
      modifies this`ram, heap`live, heap.table
      ensures Valid() && ptr == Address(block) && ptr != 0
      ensures Grew(old(ram), old(heap.live), ram, heap.live, block, BlocksFor(size))
      ensures Zeroed(old(ram), ram, block, BlocksFor(size), size, (size + 3) / 4)
      ensures Serves(heap.table[..], rest)
      ensures FreeCount(heap.table[..]) == FreeCount(old(heap.table[..])) - BlocksFor(size)
      ensures forall k: nat | k < size :: block + k / PAGE_SIZE < |ram.page| && RamByte(ram, block, k) == 0
    {
      hide Represents, Zeroed, RamByte, RamWord;
      ghost var t, live := heap.table[..], heap.live;
      BlocksForExact(size);
      FirstServed(t, BlocksFor(size), rest);
      ptr, block := Kzalloc(size);
      TakeGrows(t, live, block, BlocksFor(size));
      TakeCount(t, live, block, BlocksFor(size));
      ZeroedFrame(old(ram), ram, block, BlocksFor(size), size, (size + 3) / 4);
    }

    /** Whole pages written to consecutive blocks. */
    method WritePages(ptr: u32, image: seq<Page>, ghost block: nat)
      requires ptr == Address(block) && block + |image| <= |ram.page|
      modifies this`ram
      ensures ram.base == old(ram.base) && |ram.page| == |old(ram.page)|
      ensures forall b: nat | b < |ram.page| ::
                ram.page[b] == if block <= b < block + |image| then image[b - block]
                                       else old(ram.page[b])
    {
      for k := 0 to |image|
        invariant ram.base == old(ram.base) && |ram.page| == |old(ram.page)|
        invariant forall b: nat | b < |ram.page| ::
                    ram.page[b] == if block <= b < block + k then image[b - block] else old(ram.page[b])
      {
        var at := ram.BlockOf(ptr) + k;
        ram := ram.(page := ram.page[at := image[k]]);
      }
    }

    /** The inner loop of `paging_new_4gb`: fill one table with consecutive
        page addresses. */
    method FillTable(entry: u32, offset: u32, flags: u8, ghost block: nat)
      requires block < |ram.page| && entry == Address(block)
      modifies this`ram
      ensures ram.base == old(ram.base) && |ram.page| == |old(ram.page)|
      ensures IsIdentityPage(ram.page[block], offset, flags)
      ensures forall b: nat | b < |ram.page| && b != block :: ram.page[b] == old(ram.page[b])
    {
      for b := 0 to ENTRIES
        invariant ram.base == old(ram.base) && |ram.page| == |old(ram.page)|
        invariant forall c: nat | c < b :: ram.page[block][c] == Or((offset + c * PAGE_SIZE) % WRAP, flags)
        invariant forall c: nat | c < |ram.page| && c != block :: ram.page[c] == old(ram.page[c])
      {
        OrBelow((offset + b * PAGE_SIZE) % WRAP, flags);
        Store(entry, b, Or((offset + b * PAGE_SIZE) % WRAP, flags), block);
      }
    }

    /** One round of the outer loop of `paging_new_4gb`: allocate a table, fill
        it and enter it into the directory. */
    method AddTable(directory: u32, i: nat, offset: u32, flags: u8, ghost dir: nat)
      returns (entry: u32, ghost block: nat)
      requires Valid() && i < ENTRIES && FreeCount(heap.table[..]) >= 1
      requires dir < |ram.page| && directory == Address(dir) && dir in heap.live
      modifies this`ram, heap`live, heap.table
      ensures Valid() && ram.base == old(ram.base) && |ram.page| == |old(ram.page)|
      ensures block < |ram.page| && entry == Address(block)
      ensures block !in old(heap.live) && !Covered(old(heap.live), block)
      ensures heap.live == old(heap.live)[block := 1]
      ensures FreeCount(heap.table[..]) == FreeCount(old(heap.table[..])) - 1
      ensures IsIdentityPage(ram.page[block], offset, flags)
      ensures ram.page[dir][i] == Or(Or((ram.base + block) * PAGE_SIZE, flags), IS_WRITEABLE)
      ensures forall j: nat | j < ENTRIES && j != i :: ram.page[dir][j] == old(ram.page[dir][j])
      ensures forall b: nat | b < |ram.page| && b != block && b != dir :: ram.page[b] == old(ram.page[b])
    {
      hide Or, Represents, Covered;
      entry, block := KzallocPage(4 * ENTRIES);
      FillTable(entry, offset, flags, block);
      DirectoryEntryParts(ram.base + block, flags);
      Store(directory, i, Or(Or(entry, flags), IS_WRITEABLE), dir);
    }

    /** `paging_new_4gb`: 1026 fresh blocks that map every page to itself. */
    method PagingNew4gb(flags: u8) returns (chunk: u32, ghost block: nat)
      requires Valid() && FreeCount(heap.table[..]) >= 1026
      modifies this`ram, heap`live, heap.table
      ensures Valid() && ram.base == old(ram.base)
      ensures block < |ram.page| && chunk == Address(block)
      ensures FreshDirectory(old(ram), old(heap.live), ram, heap.live, block, flags)
      ensures FreeCount(heap.table[..]) == FreeCount(old(heap.table[..])) - 1026
    {
      hide Represents, Built, FreshDirectory, Covered, Or;
      ghost var ram0, live0 := ram, heap.live;
      var directory, dir := KzallocPage(4 * ENTRIES);
      ghost var tabs: seq<nat> := [];
      var offset := 0;
      BuiltStart(ram0, live0, ram, dir, flags);
      for i := 0 to ENTRIES
        invariant Valid() && ram.base == ram0.base && |ram.page| == |ram0.page| && dir in heap.live
        invariant |tabs| == i && Built(ram0, live0, ram, heap.live, dir, tabs, flags)
        invariant FreeCount(heap.table[..]) == FreeCount(old(heap.table[..])) - 1 - i
        invariant offset == if i < ENTRIES then TableOffset(i) else 0
      {
        ghost var before, live := ram, heap.live;
        TableOffsetStep(i);
        var _, t := AddTable(directory, i, offset, flags, dir);
        offset := (offset + ENTRIES * PAGE_SIZE) % WRAP;
        BuiltStep(ram0, live0, before, live, dir, tabs, flags, ram, t);
        tabs := tabs + [t];
      }
      ghost var built, live := ram, heap.live;
      chunk, block := KzallocPage(4);
      Store(chunk, 0, directory, block);
      BuiltDone(ram0, live0, built, live, dir, tabs, flags, ram, block);
    }

    /** `paging_switch` loads this address: the chunk's directory. */
    function DirectoryEntry(chunk: u32): u32
      requires IsAligned(chunk) && ram.InRam(ram.BlockOf(chunk))
      reads this
    {
      Load(chunk, 0)
    }

    /** `paging_get`. An address inside a page leaves both indexes at zero. */
    function PagingGet(directory: u32, virt: u32): u32
      requires IsAligned(directory) && ram.BlockOf(directory) >= 0 && ram.Directory(ram.BlockOf(directory))
      reads this
    {
      var entry := Load(directory, Indexes(virt).1);
      PageMask(entry);
      assert ram.InRam(ram.TableOf(ram.BlockOf(directory), Indexes(virt).1));
      Load(And(entry, 0xffff_f000), Indexes(virt).2)
    }

    /** `paging_get_physical_address`. */
    function PagingGetPhysicalAddress(directory: u32, virt: u32): (r: int)
      requires IsAligned(directory) && ram.BlockOf(directory) >= 0 && ram.Directory(ram.BlockOf(directory))
      reads this
      ensures r == ram.Translate(ram.BlockOf(directory), virt)
    {
      var page := AlignToLowerPage(virt);
      And(PagingGet(directory, page), 0xffff_f000) + (virt - page)
    }

    /** `paging_set`. */
    method PagingSet(directory: u32, virt: u32, val: u32, ghost dir: nat) returns (res: int)
      requires directory == Address(dir) && ram.Directory(dir)
      modifies this`ram
      ensures !IsAligned(virt) ==> res == -2 && ram == old(ram)
      ensures IsAligned(virt) ==> res == 0 && ram == old(ram).SetPte(dir, virt / PAGE_SIZE, val)
    {
      if !IsAligned(virt) {
        return -EINVAGR;
      }
      var (_, d, t) := Indexes(virt);
      var entry := Load(directory, d);
      PageMask(entry);
      Store(And(entry, 0xffff_f000), t, val, ram.TableOf(dir, d));
      res := 0;
    }

    /** `paging_map`. */
    method PagingMap(chunk: u32, virt: u32, phys: u32, flags: u32, ghost c: nat) returns (res: int)
      requires IsChunk(ram, c) && chunk == Address(c)
      modifies this`ram
      ensures !IsAligned(virt) || !IsAligned(phys) ==> res == -2 && ram == old(ram)
      ensures IsAligned(virt) && IsAligned(phys) ==>
                res == 0 && Or(phys, flags) < WRAP
                && ram == old(ram).SetPte(DirOf(old(ram), c), virt / PAGE_SIZE, Or(phys, flags))
    {
      if virt % PAGE_SIZE != 0 || phys % PAGE_SIZE != 0 {
        return -EINVAGR;
      }
      OrBelow(phys, flags);
      res := PagingSet(DirectoryEntry(chunk), virt, Or(phys, flags), DirOf(ram, c));
    }

    /** `paging_map_range`. Alignment is only looked at when there is a page to
        map. */
    method PagingMapRange(chunk: u32, virt: u32, phys: u32, count: int, flags: u32, ghost c: nat) returns (res: int)
      requires IsChunk(ram, c) && chunk == Address(c)
      modifies this`ram
      ensures count <= 0 ==> res == 0 && ram == old(ram)
      ensures count > 0 && (!IsAligned(virt) || !IsAligned(phys)) ==> res == -2 && ram == old(ram)
      ensures count > 0 && IsAligned(virt) && IsAligned(phys) ==>
                res == 0 && ram == old(ram).MapPages(DirOf(old(ram), c), virt, phys, count, flags)
    {
      hide Or, And, Ram.MapPages, Ram.SetPte, Ram.Directory, IsAligned;
      res := 0;
      var v: u32, p: u32 := virt, phys;
      ghost var dir := DirOf(ram, c);
      for i := 0 to if count > 0 then count else 0
        invariant IsChunk(ram, c) && DirOf(ram, c) == dir && ram.base == old(ram.base)
        invariant res == 0 && (i == 0 ==> ram == old(ram) && v == virt && p == phys)
        invariant i > 0 ==> IsAligned(virt) && IsAligned(phys)
        invariant IsAligned(virt) ==> IsAligned(v)
        invariant IsAligned(phys) ==> IsAligned(p)
        invariant count > 0 ==>
                    ram.MapPages(dir, v, p, count - i, flags) == old(ram).MapPages(dir, virt, phys, count, flags)
      {
        ghost var before := ram;
        res := PagingMap(chunk, v, p, flags, c);
        if res < 0 {
          break;
        }
        SetPteKeepsChunk(before, c, v / PAGE_SIZE, Or(p, flags));
        MapPagesUnfold(before, dir, v, p, count - i, flags);
        NextAligned(v);
        NextAligned(p);
        v := (v + PAGE_SIZE) % WRAP;
        p := (p + PAGE_SIZE) % WRAP;
      }
      MapPagesNone(ram, dir, v, p, flags);
    }

    /** `paging_map_to`. */
    method PagingMapTo(chunk: u32, virt: u32, phys: u32, physEnd: u32, flags: u32, ghost c: nat) returns (res: int)
      requires IsChunk(ram, c) && chunk == Address(c)
      modifies this`ram
      ensures res == 0 <==> IsAligned(virt) && IsAligned(phys) && IsAligned(physEnd) && phys <= physEnd
      ensures res != 0 ==> res == -2 && ram == old(ram)
      ensures res == 0 ==>
                ram == old(ram).MapPages(DirOf(old(ram), c), virt, phys, (physEnd - phys) / PAGE_SIZE, flags)
    {
      if virt % PAGE_SIZE != 0 || phys % PAGE_SIZE != 0 || physEnd % PAGE_SIZE != 0 || physEnd < phys {
        return -EINVAGR;
      }
      var totalBytes := physEnd - phys;
      var totalPages := totalBytes / PAGE_SIZE;
      res := PagingMapRange(chunk, virt, phys, totalPages, flags, c);
    }

    /** `paging_free_4gb`: frees every table found by masking the directory's
        entries, then the directory and the chunk. */
    method PagingFree4gb(chunk: u32, ghost c: nat)
      requires Valid() && IsChunk(ram, c) && chunk == Address(c)
      requires OwnedBlocks(ram, c) <= heap.live.Keys
      modifies heap`live, heap.table
      ensures Valid() && heap.live == old(heap.live) - OwnedBlocks(ram, c)
    {
      hide Represents, And, Or;
      ghost var dir := DirOf(ram, c);
      for i := 0 to ENTRIES
        invariant Valid() && heap.live == old(heap.live) - TablesBelow(ram, dir, i)
      {
        var entry := Load(DirectoryEntry(chunk), i);
        PageMask(entry);
        var table := And(entry, 0xffff_f000);
        TableStillLive(ram, dir, i);
        Kfree(table, ram.TableOf(dir, i));
      }
      Kfree(DirectoryEntry(chunk), dir);
      Kfree(chunk, c);
    }
  }

  /** A fresh directory is the identity on the whole 32-bit space, and its
      entries carry exactly the given flags. */
  lemma FreshIsIdentity(ram0: Ram, live0: Live, ram: Ram, live: Live, chunk: nat, flags: u8, virt: u32)
    requires FreshDirectory(ram0, live0, ram, live, chunk, flags)
    ensures ram.Translate(DirOf(ram, chunk), virt) == virt
    ensures ram.Pte(DirOf(ram, chunk), virt / PAGE_SIZE) % PAGE_SIZE == flags
  {
    hide Or, And, FreshDirectory, Ram.Directory, Ram.Pte, DirOf, IsChunk;
    FreshPte(ram0, live0, ram, live, chunk, flags, virt / PAGE_SIZE);
    EntryParts(virt / PAGE_SIZE, flags);
  }

  lemma FreshPte(ram0: Ram, live0: Live, ram: Ram, live: Live, chunk: nat, flags: u8, q: nat)
    requires FreshDirectory(ram0, live0, ram, live, chunk, flags) && q < PAGES
    ensures ram.InRam(chunk) && DirOf(ram, chunk) >= 0 && ram.Directory(DirOf(ram, chunk))
    ensures ram.Pte(DirOf(ram, chunk), q) == q * PAGE_SIZE + flags
  {
  }

  /** With flags below 4096, mapping a range stores exactly the page addresses
      with those flags, and nothing anywhere else: not at other pages of the
      directory, and not in a directory made of other blocks. */
  lemma MapRangeExact(ram: Ram, dir: nat, virt: u32, phys: u32, count: nat, flags: u32, other: nat)
    requires ram.Directory(dir) && count <= PAGES && IsAligned(virt) && IsAligned(phys) && flags < PAGE_SIZE
    requires phys + PAGE_SIZE * count <= WRAP
    requires ram.Directory(other) && !ram.IsTable(dir, other)
    requires forall b: int | ram.IsTable(other, b) :: !ram.IsTable(dir, b)
    ensures var r := ram.MapPages(dir, virt, phys, count, flags);
            && r.Directory(dir) && r.Directory(other)
            && (forall k: nat | k < count :: r.Pte(dir, PageAfter(virt, k)) == phys + PAGE_SIZE * k + flags)
            && (forall q: nat | q < PAGES && (forall k: nat | k < count :: q != PageAfter(virt, k)) ::
                  r.Pte(dir, q) == ram.Pte(dir, q))
            && (forall q: nat | q < PAGES :: r.Pte(other, q) == ram.Pte(other, q))
  {
    hide Or, And, Ram.MapPages, Ram.TableOf, Ram.Pte, Ram.IsTable, PhysAfter, PageAfter, IsAligned;
    var r := ram.MapPages(dir, virt, phys, count, flags);
    MapPagesExact(ram, dir, virt, phys, count, flags);
    SameDirectory(ram, r, other);
    forall k: nat | k < count
      ensures r.Pte(dir, PageAfter(virt, k)) == phys + PAGE_SIZE * k + flags
    {
      RangeEntry(phys, k, count, flags);
    }
  }

  /** After a range is mapped, every address in it translates to the same place
      of the physical range, and every address outside as before. */
  lemma TranslatesMapped(ram: Ram, dir: nat, virt: u32, phys: u32, count: nat, flags: u32, address: u32)
    requires ram.Directory(dir) && count <= PAGES && virt % 4096 == 0 && phys % 4096 == 0 && flags < 4096
    requires phys + 4096 * count <= 0x1_0000_0000
    ensures var r, distance := ram.MapPages(dir, virt, phys, count, flags), (address - virt) % 0x1_0000_0000;
            && r.Directory(dir)
            && r.Translate(dir, address) ==
               if distance < 4096 * count then phys + distance else ram.Translate(dir, address)
  {
    hide Or, And, Ram.MapPages, Ram.Pte, Ram.Directory;
    var q, d := address / PAGE_SIZE, Distance(virt, address / PAGE_SIZE);
    MapPagesAt(ram, dir, virt, phys, count, flags, q);
    DistanceInBytes(virt, address);
    if d < count {
      RangeEntry(phys, d, count, flags);
      EntryParts(phys / PAGE_SIZE + d, flags);
    }
  }

  lemma DistanceInBytes(virt: u32, address: u32)
    requires virt % PAGE_SIZE == 0
    ensures (address - virt) % WRAP == Distance(virt, address / PAGE_SIZE) * PAGE_SIZE + address % PAGE_SIZE
  {
    var v, q := virt / PAGE_SIZE, address / PAGE_SIZE;
    assert address - virt == (q - v) * PAGE_SIZE + address % PAGE_SIZE;
    assert Distance(virt, q) == if q >= v then q - v else q - v + PAGES;
  }

  lemma RangeEntry(phys: u32, k: nat, count: nat, flags: u32)
    requires IsAligned(phys) && k < count && phys + PAGE_SIZE * count <= WRAP && flags < PAGE_SIZE
    ensures Or(PhysAfter(phys, k), flags) == phys + PAGE_SIZE * k + flags
  {
    hide Or, And;
    var q := phys / PAGE_SIZE + k;
    assert PhysAfter(phys, k) == q * PAGE_SIZE == phys + PAGE_SIZE * k;
    EntryParts(q, flags);
  }

  /** One call that maps pages in a directory. */
  datatype MapCall =
    | MapOne(virt: u32, phys: u32, flags: u32)
    | MapTo(virt: u32, phys: u32, physEnd: u32, flags: u32)

  /** Creating a directory, mapping in it in any way, and freeing it leaves the
      heap table byte for byte as it was. */
  method DirectoryLifetime(m: Machine, flags: u8, calls: seq<MapCall>)
    requires m.Valid() && FreeCount(m.heap.table[..]) >= 1026
    modifies m`ram, m.heap`live, m.heap.table
    ensures m.Valid() && m.heap.table[..] == old(m.heap.table[..])
  {
    hide Represents, IsChunk, OwnedBlocks, Ram.MapPages, Ram.SetPte, Or, And;
    var chunk, c := m.PagingNew4gb(flags);
    ghost var made := m.ram;
    for i := 0 to |calls|
      modifies m`ram
      invariant m.Valid() && IsChunk(m.ram, c) && chunk == m.Address(c)
      invariant OwnedBlocks(m.ram, c) == OwnedBlocks(made, c)
    {
      ghost var before := m.ram;
      match calls[i]
      case MapOne(virt, phys, f) =>
        var _ := m.PagingMap(chunk, virt, phys, f, c);
        if IsAligned(virt) && IsAligned(phys) {
          SetPteKeepsChunk(before, c, virt / PAGE_SIZE, Or(phys, f));
        }
      case MapTo(virt, phys, physEnd, f) =>
        var res := m.PagingMapTo(chunk, virt, phys, physEnd, f, c);
        if res == 0 {
          MapPagesKeepsChunk(before, c, virt, phys, (physEnd - phys) / PAGE_SIZE, f);
        }
    }
    m.PagingFree4gb(chunk, c);
    assert m.heap.live == old(m.heap.live);
    LiveDeterminesTable(m.heap.table[..], old(m.heap.table[..]), m.heap.live);
  }

  lemma {:induction false} MapPagesKeepsChunk(ram: Ram, c: nat, virt: u32, phys: u32, count: nat, flags: u32)
    requires IsChunk(ram, c)
    ensures var r := ram.MapPages(DirOf(ram, c), virt, phys, count, flags);
            IsChunk(r, c) && DirOf(r, c) == DirOf(ram, c) && r.base == ram.base && |r.page| == |ram.page|
            && OwnedBlocks(r, c) == OwnedBlocks(ram, c)
    decreases count
  {
    hide Or, And;
    if count > 0 {
      MapPagesUnfold(ram, DirOf(ram, c), virt, phys, count, flags);
      SetPteKeepsChunk(ram, c, virt / PAGE_SIZE, Or(phys, flags));
      MapPagesKeepsChunk(ram.SetPte(DirOf(ram, c), virt / PAGE_SIZE, Or(phys, flags)), c,
                         (virt + PAGE_SIZE) % WRAP, (phys + PAGE_SIZE) % WRAP, count - 1, flags);
    }
  }

  /** Mapping in a directory leaves its chunk, and the blocks it is made of,
      as they were. */
  lemma SetPteKeepsChunk(ram: Ram, c: nat, q: nat, v: u32)
    requires IsChunk(ram, c) && q < PAGES
    ensures var r := ram.SetPte(DirOf(ram, c), q, v);
            IsChunk(r, c) && DirOf(r, c) == DirOf(ram, c) && r.base == ram.base && |r.page| == |ram.page|
            && OwnedBlocks(r, c) == OwnedBlocks(ram, c)
  {
    var dir := DirOf(ram, c);
    ram.SetPteKeeps(dir, q, v);
    var r := ram.SetPte(dir, q, v);
    assert forall d: nat | d < ENTRIES :: r.TableOf(dir, d) == ram.TableOf(dir, d);
  }

  lemma MapPagesUnfold(ram: Ram, dir: nat, virt: u32, phys: u32, count: nat, flags: u32)
    requires ram.Directory(dir) && count > 0
    ensures Or(phys, flags) < WRAP
    ensures ram.SetPte(dir, virt / PAGE_SIZE, Or(phys, flags)).Directory(dir)
    ensures ram.MapPages(dir, virt, phys, count, flags) ==
            ram.SetPte(dir, virt / PAGE_SIZE, Or(phys, flags))
              .MapPages(dir, (virt + PAGE_SIZE) % WRAP, (phys + PAGE_SIZE) % WRAP, count - 1, flags)
  {
    OrBelow(phys, flags);
    ram.SetPteKeeps(dir, virt / PAGE_SIZE, Or(phys, flags));
  }

  lemma MapPagesNone(ram: Ram, dir: nat, virt: u32, phys: u32, flags: u32)
    requires ram.Directory(dir)
    ensures ram.MapPages(dir, virt, phys, 0, flags) == ram
  {
  }

  lemma NextAligned(address: u32)
    ensures IsAligned((address + PAGE_SIZE) % WRAP) <==> IsAligned(address)
  {
  }

  /** Table `i` is none of the tables before it. */
  lemma TableStillLive(ram: Ram, dir: nat, i: nat)
    requires ram.Directory(dir) && i < ENTRIES
    ensures ram.TableOf(dir, i) !in TablesBelow(ram, dir, i)
    ensures ram.TableOf(dir, i) in TablesBelow(ram, dir, ENTRIES)
    ensures TablesBelow(ram, dir, i + 1) == TablesBelow(ram, dir, i) + {ram.TableOf(dir, i) as nat}
  {
    forall d: nat | d < i
      ensures ram.TableOf(dir, d) != ram.TableOf(dir, i)
    {
      assert ram.Differ(dir, d, i);
    }
  }
}
