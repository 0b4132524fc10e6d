/** What a loaded process may write: the invariant that ties the page tables
    of every task to the heap allocations of its process, and what follows
    from it. */
module AddressSpaces {
  import opened Bits
  import opened HeapTable
  import opened PageTables
  import opened Paging
  import Registers

  const PROGRAM_VIRTUAL_ADDRESS: u32 := 0x40_0000
  const STACK_VIRTUAL_ADDRESS_START: u32 := 0x3F_F000
  const USER_STACK_SIZE: u32 := 1024 * 16
  const STACK_VIRTUAL_ADDRESS_END: u32 := STACK_VIRTUAL_ADDRESS_START - USER_STACK_SIZE

  const PROGRAM_PAGE: nat := PROGRAM_VIRTUAL_ADDRESS / PAGE_SIZE
  const STACK_PAGE: nat := STACK_VIRTUAL_ADDRESS_END / PAGE_SIZE
  const STACK_PAGES: nat := USER_STACK_SIZE / PAGE_SIZE

  /** The page that ends at `tss.esp0`. */
  const KERNEL_STACK_PAGE: nat := Registers.KERNEL_STACK_TOP / PAGE_SIZE - 1

  /** Flags of the identity mapping of a task, and of its own pages. */
  const TASK_FLAGS: u8 := 5
  const USER_FLAGS: u8 := 7

  /** The heap blocks of one task: its directory chunk, its program image (of
      no pages for an ELF process, which maps none) and its stack. */
  datatype Space = Space(chunk: nat, program: nat, programPages: nat, stack: nat)

  predicate InStack(q: nat) {
    STACK_PAGE <= q < STACK_PAGE + STACK_PAGES
  }

  predicate InProgram(s: Space, q: nat) {
    PROGRAM_PAGE <= q < PROGRAM_PAGE + s.programPages
  }

  /** The heap block behind a writable page. */
  function Backing(s: Space, q: nat): nat
    requires InStack(q) || InProgram(s, q)
  {
    if InStack(q) then s.stack + (q - STACK_PAGE) else s.program + (q - PROGRAM_PAGE)
  }

  /** The allocations a task's writable pages come from. */
  function DataKeys(s: Space): set<nat> {
    {s.stack} + if s.programPages > 0 then {s.program} else {}
  }

  ghost function Keys(ram: Ram, s: Space): set<nat>
    requires IsChunk(ram, s.chunk)
  {
    OwnedBlocks(ram, s.chunk) + DataKeys(s)
  }

  /** The entry of virtual page `q`: its own block, or the identity without
      the writable bit. */
  function ExpectedPte(base: nat, s: Space, q: nat): int {
    if InStack(q) || InProgram(s, q) then (base + Backing(s, q)) * PAGE_SIZE + USER_FLAGS
    else q * PAGE_SIZE + TASK_FLAGS
  }

  ghost predicate Mapped(ram: Ram, s: Space)
    requires IsChunk(ram, s.chunk)
  {
    && (forall d: nat | d < ENTRIES :: ram.page[DirOf(ram, s.chunk)][d] % PAGE_SIZE == USER_FLAGS)
    && (forall q: nat | q < PAGES :: ram.Pte(DirOf(ram, s.chunk), q) == ExpectedPte(ram.base, s, q))
  }

  /** The allocations of a space are live, with the lengths it relies on. */
  ghost predicate Backed(ram: Ram, live: Live, s: Space)
    requires IsChunk(ram, s.chunk)
  {
    && (forall b | b in OwnedBlocks(ram, s.chunk) :: b in live && live[b] == 1)
    && s.stack in live && live[s.stack] == STACK_PAGES
    && (s.programPages > 0 ==> s.program in live && live[s.program] == s.programPages && s.program != s.stack)
    && OwnedBlocks(ram, s.chunk) !! DataKeys(s)
    && PROGRAM_PAGE + s.programPages <= PAGES
  }

  ghost predicate SpaceOk(ram: Ram, live: Live, s: Space) {
    IsChunk(ram, s.chunk) && Mapped(ram, s) && Backed(ram, live, s)
  }

  ghost predicate Separate(ram: Ram, a: Space, b: Space)
    requires IsChunk(ram, a.chunk) && IsChunk(ram, b.chunk)
  {
    Keys(ram, a) !! Keys(ram, b)
  }

  /** The invariant over all tasks. */
  ghost predicate AllOk(ram: Ram, live: Live, spaces: seq<Space>) {
    && Tiled(live, |ram.page|) && ram.base + |ram.page| <= PAGES
    && (forall i: nat | i < |spaces| :: SpaceOk(ram, live, spaces[i]))
    && (forall i: nat, j: nat {:trigger Separate(ram, spaces[i], spaces[j])} | i < j < |spaces| ::
          Separate(ram, spaces[i], spaces[j]))
  }

  // ----- What the invariant gives

  ghost predicate Writable(ram: Ram, s: Space, q: nat)
    requires IsChunk(ram, s.chunk) && q < PAGES
  {
    ram.UserWritable(DirOf(ram, s.chunk), q)
  }

  /** The block that a page of a task translates to. */
  ghost function Target(ram: Ram, s: Space, q: nat): int
    requires IsChunk(ram, s.chunk) && q < PAGES
  {
    ram.BlockOf(ram.Pte(DirOf(ram, s.chunk), q))
  }

  lemma FlagBits(q: nat)
    ensures WritableBits(q * PAGE_SIZE + USER_FLAGS)
    ensures !WritableBits(q * PAGE_SIZE + TASK_FLAGS)
  {
    LowBits(512 * q);
    assert q * PAGE_SIZE == 8 * (512 * q);
  }

  lemma LowBits(k: nat)
    ensures WritableBits(8 * k + 7) && !WritableBits(8 * k + 5)
  {
    assert (8 * k + 7) / 2 == 4 * k + 3 && (4 * k + 3) / 2 == 2 * k + 1 && (8 * k + 5) / 2 == 4 * k + 2;
    assert Bit(8 * k + 7, 1) == Bit(4 * k + 3, 0) && Bit(8 * k + 5, 1) == Bit(4 * k + 2, 0);
    assert Bit(8 * k + 7, 2) == Bit(4 * k + 3, 1) == Bit(2 * k + 1, 0);
  }

  lemma ModBits(e: nat)
    requires e % PAGE_SIZE == USER_FLAGS
    ensures WritableBits(e)
  {
    FlagBits(e / PAGE_SIZE);
  }

  /** A task can write a page exactly when it lies in its program or stack
      range, and then it writes into its own allocation, block for block. */
  lemma WritableExactly(ram: Ram, live: Live, s: Space, q: nat)
    requires SpaceOk(ram, live, s) && q < PAGES
    ensures Writable(ram, s, q) <==> InStack(q) || InProgram(s, q)
    ensures Writable(ram, s, q) ==>
              Target(ram, s, q) == Backing(s, q)
              && InChain(live, if InStack(q) then s.stack else s.program, Backing(s, q))
  {
    ModBits(ram.page[DirOf(ram, s.chunk)][q / ENTRIES]);
    assert ram.Pte(DirOf(ram, s.chunk), q) == ExpectedPte(ram.base, s, q);
    FlagBits(q);
    if InStack(q) || InProgram(s, q) {
      FlagBits(ram.base + Backing(s, q));
    }
  }

  /** In numbers: four pages from 0x3fb000 to 0x3ff000 for the stack, and the
      program's from 0x400000 on, each over the allocation from its start. */
  lemma WritableRange(ram: Ram, live: Live, s: Space, q: nat)
    requires SpaceOk(ram, live, s) && q < PAGES
    ensures Writable(ram, s, q) <==> 0x3fb <= q < 0x3ff || 0x400 <= q < 0x400 + s.programPages
    ensures 0x3fb <= q < 0x3ff ==> Target(ram, s, q) == s.stack + (q - 0x3fb)
    ensures 0x400 <= q < 0x400 + s.programPages ==> Target(ram, s, q) == s.program + (q - 0x400)
    ensures s.stack in live && live[s.stack] == 4
  {
    WritableExactly(ram, live, s, q);
  }

  /** Every page can be read by user code, its own at the addresses above and
      physical memory everywhere else. */
  lemma ReadableEverywhere(ram: Ram, live: Live, s: Space, q: nat)
    requires SpaceOk(ram, live, s) && q < PAGES
    ensures var d, e := ram.page[DirOf(ram, s.chunk)][q / 1024], ram.Pte(DirOf(ram, s.chunk), q);
            && d % 2 == 1 && d / 4 % 2 == 1 && e % 2 == 1 && e / 4 % 2 == 1
            && (!Writable(ram, s, q) ==> e / 2 % 2 == 0 && e / 4096 == q)
  {
    WritableExactly(ram, live, s, q);
    hide Writable, Ram.Pte, Ram.TableOf, Backed, InChain;
    var d := ram.page[DirOf(ram, s.chunk)][q / ENTRIES];
    assert ram.Pte(DirOf(ram, s.chunk), q) == ExpectedPte(ram.base, s, q) && d % PAGE_SIZE == USER_FLAGS;
    FlagDigits(d / PAGE_SIZE);
    FlagDigits(q);
    if InStack(q) || InProgram(s, q) {
      FlagDigits(ram.base + Backing(s, q));
    }
  }

  lemma FlagDigits(x: nat)
    ensures var e := x * PAGE_SIZE + USER_FLAGS; e % 2 == 1 && e / 4 % 2 == 1
    ensures var e := x * PAGE_SIZE + TASK_FLAGS; e % 2 == 1 && e / 4 % 2 == 1 && e / 2 % 2 == 0 && e / 4096 == x
  {
    var e := x * PAGE_SIZE;
    ModUnique(e + 7, 2, 2048 * x + 3, 1);
    ModUnique(e + 7, 4, 1024 * x + 1, 3);
    ModUnique(e + 5, 2, 2048 * x + 2, 1);
    ModUnique(e + 5, 4, 1024 * x + 1, 1);
    ModUnique(e + 5, 4096, x, 5);
    ModUnique(2048 * x + 2, 2, 1024 * x + 1, 0);
    ModUnique(1024 * x + 1, 2, 512 * x, 1);
  }

  /** The page below the kernel stack pointer of the task state segment, where
      interrupts of user code are pushed, is the kernel's own in a task's
      directory if and only if the program has fewer than 512 pages. */
  lemma KernelStackIff(ram: Ram, live: Live, s: Space)
    requires SpaceOk(ram, live, s)
    ensures Writable(ram, s, KERNEL_STACK_PAGE) <==> s.programPages >= 512
    ensures ram.Pte(DirOf(ram, s.chunk), KERNEL_STACK_PAGE) == KERNEL_STACK_PAGE * PAGE_SIZE + TASK_FLAGS
            <==> s.programPages < 512
  {
    WritableExactly(ram, live, s, KERNEL_STACK_PAGE);
    assert ram.Pte(DirOf(ram, s.chunk), KERNEL_STACK_PAGE) == ExpectedPte(ram.base, s, KERNEL_STACK_PAGE);
  }

  /** Every block of the program and stack allocations is reached by a
      writable page. */
  lemma BackingOnto(ram: Ram, live: Live, s: Space, key: nat, b: nat) returns (q: nat)
    requires SpaceOk(ram, live, s) && key in DataKeys(s) && InChain(live, key, b)
    ensures q < PAGES && Writable(ram, s, q) && Target(ram, s, q) == b
  {
    q := if key == s.stack then STACK_PAGE + (b - key) else PROGRAM_PAGE + (b - key);
    WritableExactly(ram, live, s, q);
  }

  /** An allocation belongs to one task only. */
  lemma KeysMeet(ram: Ram, live: Live, spaces: seq<Space>, i: nat, j: nat, key: nat)
    requires AllOk(ram, live, spaces) && i < |spaces| && j < |spaces|
    requires key in Keys(ram, spaces[i]) && key in Keys(ram, spaces[j])
    ensures i == j
  {
    assert i < j ==> Separate(ram, spaces[i], spaces[j]);
    assert j < i ==> Separate(ram, spaces[j], spaces[i]);
  }

  lemma DataKeyOf(ram: Ram, live: Live, s: Space, q: nat) returns (key: nat)
    requires SpaceOk(ram, live, s) && q < PAGES && Writable(ram, s, q)
    ensures key == if InStack(q) then s.stack else s.program
    ensures key in DataKeys(s) && Target(ram, s, q) >= 0 && InChain(live, key, Target(ram, s, q))
  {
    WritableExactly(ram, live, s, q);
    key := if InStack(q) then s.stack else s.program;
  }

  /** No physical page is writable through two tasks, nor twice through one. */
  lemma WriteSeparation(ram: Ram, live: Live, spaces: seq<Space>, i: nat, j: nat, q: nat, r: nat)
    requires AllOk(ram, live, spaces) && i < |spaces| && j < |spaces| && q < PAGES && r < PAGES
    requires Writable(ram, spaces[i], q) && Writable(ram, spaces[j], r)
    requires Target(ram, spaces[i], q) == Target(ram, spaces[j], r)
    ensures i == j && q == r
  {
    var a := DataKeyOf(ram, live, spaces[i], q);
    var b := DataKeyOf(ram, live, spaces[j], r);
    ChainsDisjoint(live, |ram.page|, a, b, Target(ram, spaces[i], q));
    KeysMeet(ram, live, spaces, i, j, a);
    WritableExactly(ram, live, spaces[i], q);
    WritableExactly(ram, live, spaces[i], r);
  }

  /** What a task writes belongs to no other allocation of the kernel: in
      particular to no page table, directory or chunk of any task. */
  lemma WritesStayHome(ram: Ram, live: Live, spaces: seq<Space>, i: nat, q: nat, u: nat)
    requires AllOk(ram, live, spaces) && i < |spaces| && q < PAGES
    requires Writable(ram, spaces[i], q) && u in live && u !in DataKeys(spaces[i])
    ensures Target(ram, spaces[i], q) >= 0 && !InChain(live, u, Target(ram, spaces[i], q))
  {
    var key := DataKeyOf(ram, live, spaces[i], q);
    if InChain(live, u, Target(ram, spaces[i], q)) {
      ChainsDisjoint(live, |ram.page|, key, u, Target(ram, spaces[i], q));
    }
  }

  lemma WritesMissTables(ram: Ram, live: Live, spaces: seq<Space>, i: nat, j: nat, q: nat)
    requires AllOk(ram, live, spaces) && i < |spaces| && j < |spaces| && q < PAGES
    requires Writable(ram, spaces[i], q)
    ensures Target(ram, spaces[i], q) !in OwnedBlocks(ram, spaces[j].chunk)
  {
    var b := Target(ram, spaces[i], q);
    if b in OwnedBlocks(ram, spaces[j].chunk) {
      assert InChain(live, b, b);
      assert b !in DataKeys(spaces[i]) by {
        if b in DataKeys(spaces[i]) {
          KeysMeet(ram, live, spaces, i, j, b);
        }
      }
      WritesStayHome(ram, live, spaces, i, q, b);
    }
  }

  // ----- What keeps the invariant

  /** A space depends only on the blocks of its directory and on its own
      allocations. */
  lemma SpaceFrame(ram: Ram, live: Live, r: Ram, live': Live, s: Space)
    requires SpaceOk(ram, live, s) && r.base == ram.base && |r.page| == |ram.page|
    requires forall b | b in OwnedBlocks(ram, s.chunk) :: r.page[b] == ram.page[b]
    requires forall k | k in Keys(ram, s) :: k in live' && live'[k] == live[k]
    ensures SpaceOk(r, live', s) && OwnedBlocks(r, s.chunk) == OwnedBlocks(ram, s.chunk)
    ensures DirOf(r, s.chunk) == DirOf(ram, s.chunk)
  {
    hide Or, And, Ram.TableOf, ExpectedPte;
    var dir := DirOf(ram, s.chunk);
    assert s.chunk in OwnedBlocks(ram, s.chunk) && dir in OwnedBlocks(ram, s.chunk);
    forall b: nat | b < |ram.page| && ram.IsTable(dir, b)
      ensures r.page[b] == ram.page[b]
    {
      assert b in OwnedBlocks(ram, s.chunk);
    }
    SameDirectory(ram, r, dir);
  }

  /** The invariant survives any change that leaves the directories and the
      allocations of all tasks alone. */
  lemma AllFrame(ram: Ram, live: Live, r: Ram, live': Live, spaces: seq<Space>)
    requires AllOk(ram, live, spaces) && r.base == ram.base && |r.page| == |ram.page|
    requires Tiled(live', |r.page|)
    requires forall i: nat | i < |spaces| ::
               && (forall b | b in OwnedBlocks(ram, spaces[i].chunk) :: r.page[b] == ram.page[b])
               && (forall k | k in Keys(ram, spaces[i]) :: k in live' && live'[k] == live[k])
    ensures AllOk(r, live', spaces)
    ensures forall i: nat | i < |spaces| ::
              && SpaceOk(ram, live, spaces[i])
              && Keys(r, spaces[i]) == Keys(ram, spaces[i]) && DirOf(r, spaces[i].chunk) == DirOf(ram, spaces[i].chunk)
  {
    hide Or, And, Mapped, Backed, OwnedBlocks;
    forall i: nat | i < |spaces|
      ensures SpaceOk(r, live', spaces[i]) && Keys(r, spaces[i]) == Keys(ram, spaces[i])
      ensures DirOf(r, spaces[i].chunk) == DirOf(ram, spaces[i].chunk)
    {
      SpaceFrame(ram, live, r, live', spaces[i]);
    }
    forall i: nat, j: nat | i < j < |spaces|
      ensures Separate(r, spaces[i], spaces[j])
    {
      assert Separate(ram, spaces[i], spaces[j]);
    }
  }

  /** A word stored by a task through its own page tables keeps the invariant:
      it changes one page of the task's own allocations. */
  lemma UserStoreKeeps(ram: Ram, live: Live, spaces: seq<Space>, i: nat, q: nat, w: nat, v: u32)
    requires AllOk(ram, live, spaces) && i < |spaces| && q < PAGES && w < ENTRIES
    requires Writable(ram, spaces[i], q)
    ensures ram.InRam(Target(ram, spaces[i], q))
    ensures var r := ram.Put(Target(ram, spaces[i], q), w, v);
            && AllOk(r, live, spaces)
            && (forall j: nat | j < |spaces| :: DirOf(r, spaces[j].chunk) == DirOf(ram, spaces[j].chunk))
            && (forall j: nat, key: nat, b: nat |
                  j < |spaces| && j != i && key in DataKeys(spaces[j]) && InChain(live, key, b) ::
                    b < |ram.page| && r.page[b] == ram.page[b])
  {
    hide Mapped, Backed, IsChunk, OwnedBlocks;
    var key := DataKeyOf(ram, live, spaces[i], q);
    assert key in live by { DataKeysLive(ram, live, spaces[i]); }
    var b := Target(ram, spaces[i], q);
    var r := ram.Put(b, w, v);
    forall j: nat | j < |spaces|
      ensures forall c | c in OwnedBlocks(ram, spaces[j].chunk) :: c < |ram.page| && r.page[c] == ram.page[c]
      ensures forall k | k in Keys(ram, spaces[j]) :: k in live
    {
      WritesMissTables(ram, live, spaces, i, j, q);
      DataKeysLive(ram, live, spaces[j]);
    }
    AllFrame(ram, live, r, live, spaces);
    forall j: nat, k: nat, c: nat | j < |spaces| && j != i && k in DataKeys(spaces[j]) && InChain(live, k, c)
      ensures c < |ram.page| && r.page[c] == ram.page[c]
    {
      if c == b {
        ChainsDisjoint(live, |ram.page|, k, key, b);
        KeysMeet(ram, live, spaces, i, j, k);
      }
    }
  }

  lemma DataKeysLive(ram: Ram, live: Live, s: Space)
    requires SpaceOk(ram, live, s)
    ensures Keys(ram, s) <= live.Keys
    ensures forall b | b in OwnedBlocks(ram, s.chunk) :: b < |ram.page|
  {
  }

  /** Everything that was allocated before is still there, untouched. */
  ghost predicate Extends(ram0: Ram, live0: Live, ram: Ram, live: Live) {
    && ram.base == ram0.base && |ram.page| == |ram0.page|
    && (forall k | k in live0 :: k in live && live[k] == live0[k])
    && (forall b: nat | b < |ram0.page| && Covered(live0, b) :: ram.page[b] == ram0.page[b])
  }

  lemma ExtendsTrans(ram0: Ram, live0: Live, ram1: Ram, live1: Live, ram2: Ram, live2: Live)
    requires Extends(ram0, live0, ram1, live1) && Extends(ram1, live1, ram2, live2)
    ensures Extends(ram0, live0, ram2, live2)
  {
    forall b: nat | b < |ram0.page| && Covered(live0, b)
      ensures ram2.page[b] == ram0.page[b]
    {
      var u: nat :| InChain(live0, u, b);
      assert InChain(live1, u, b);
    }
  }

  /** Any number of allocations and writes to their own blocks keep the
      invariant, and what is newly allocated is no task's. */
  lemma ExtendsKeeps(ram0: Ram, live0: Live, ram: Ram, live: Live, spaces: seq<Space>)
    requires AllOk(ram0, live0, spaces) && Extends(ram0, live0, ram, live) && Tiled(live, |ram.page|)
    ensures AllOk(ram, live, spaces)
    ensures forall i: nat | i < |spaces| ::
              SpaceOk(ram, live, spaces[i]) && Keys(ram, spaces[i]) <= live0.Keys
  {
    hide Mapped, OwnedBlocks, Backed, Tiled;
    forall i: nat | i < |spaces|
      ensures forall b | b in OwnedBlocks(ram0, spaces[i].chunk) :: b < |ram0.page| && ram.page[b] == ram0.page[b]
      ensures Keys(ram0, spaces[i]) <= live0.Keys
    {
      DataKeysLive(ram0, live0, spaces[i]);
      OwnedCovered(ram0, live0, spaces[i]);
    }
    AllFrame(ram0, live0, ram, live, spaces);
  }

  /** One more allocation keeps the invariant, and is no task's. */
  lemma GrewKeeps(ram0: Ram, live0: Live, ram: Ram, live: Live, spaces: seq<Space>, block: nat, n: nat)
    requires AllOk(ram0, live0, spaces) && Grew(ram0, live0, ram, live, block, n)
    ensures AllOk(ram, live, spaces) && Extends(ram0, live0, ram, live)
    ensures forall i: nat | i < |spaces| ::
              SpaceOk(ram0, live0, spaces[i]) && SpaceOk(ram, live, spaces[i])
              && Keys(ram, spaces[i]) == Keys(ram0, spaces[i]) && block !in Keys(ram, spaces[i])
  {
    hide Mapped, OwnedBlocks, Backed, Grew, Tiled;
    assert Extends(ram0, live0, ram, live) && Tiled(live, |ram.page|) && block !in live0 by {
      GrewExtends(ram0, live0, ram, live, block, n);
    }
    forall i: nat | i < |spaces|
      ensures forall b | b in OwnedBlocks(ram0, spaces[i].chunk) :: b < |ram0.page| && ram.page[b] == ram0.page[b]
      ensures Keys(ram0, spaces[i]) <= live0.Keys
    {
      DataKeysLive(ram0, live0, spaces[i]);
      OwnedCovered(ram0, live0, spaces[i]);
    }
    AllFrame(ram0, live0, ram, live, spaces);
  }

  lemma GrewExtends(ram0: Ram, live0: Live, ram: Ram, live: Live, block: nat, n: nat)
    requires Grew(ram0, live0, ram, live, block, n)
    ensures Extends(ram0, live0, ram, live) && Tiled(live, |ram.page|) && block !in live0
  {
  }

  lemma OwnedCovered(ram: Ram, live: Live, s: Space)
    requires SpaceOk(ram, live, s)
    ensures forall b | b in OwnedBlocks(ram, s.chunk) :: Covered(live, b)
  {
    forall b | b in OwnedBlocks(ram, s.chunk)
      ensures Covered(live, b)
    {
      assert InChain(live, b, b);
    }
  }

  // ----- Loading a process

  /** Mapping `n` consecutive blocks for user writing. */
  lemma UserRangeAt(ram: Ram, dir: nat, virt: u32, block: nat, n: nat, q: nat)
    requires ram.Directory(dir) && q < PAGES && virt % PAGE_SIZE == 0
    requires virt / PAGE_SIZE + n <= PAGES && ram.base + block + n <= PAGES && ram.base + block < PAGES
    ensures var r := ram.MapPages(dir, virt, (ram.base + block) * PAGE_SIZE, n, USER_FLAGS);
            && r.Directory(dir)
            && r.Pte(dir, q) == if virt / PAGE_SIZE <= q < virt / PAGE_SIZE + n
                                then (ram.base + block + (q - virt / PAGE_SIZE)) * PAGE_SIZE + USER_FLAGS
                                else ram.Pte(dir, q)
  {
    hide Or, And, Ram.MapPages, Ram.Pte;
    MapPagesAt(ram, dir, virt, (ram.base + block) * PAGE_SIZE, n, USER_FLAGS, q);
    if virt / PAGE_SIZE <= q < virt / PAGE_SIZE + n {
      EntryParts(ram.base + block + (q - virt / PAGE_SIZE), USER_FLAGS);
    }
  }

  /** After the first half of `process_map_memory`, the program's pages. */
  ghost function MapProgram(ram: Ram, s: Space): (r: Ram)
    requires IsChunk(ram, s.chunk) && ram.base + s.program < PAGES
    ensures r.base == ram.base && |r.page| == |ram.page| && IsChunk(r, s.chunk)
    ensures DirOf(r, s.chunk) == DirOf(ram, s.chunk) && OwnedBlocks(r, s.chunk) == OwnedBlocks(ram, s.chunk)
  {
    var p := (ram.base + s.program) * PAGE_SIZE;
    MapPagesKeepsChunk(ram, s.chunk, PROGRAM_VIRTUAL_ADDRESS, p, s.programPages, USER_FLAGS);
    ram.MapPages(DirOf(ram, s.chunk), PROGRAM_VIRTUAL_ADDRESS, p, s.programPages, USER_FLAGS)
  }

  /** After the second half, the stack. */
  ghost function MapStack(ram: Ram, s: Space): (r: Ram)
    requires IsChunk(ram, s.chunk) && ram.base + s.stack < PAGES
    ensures r.base == ram.base && |r.page| == |ram.page| && IsChunk(r, s.chunk)
    ensures DirOf(r, s.chunk) == DirOf(ram, s.chunk) && OwnedBlocks(r, s.chunk) == OwnedBlocks(ram, s.chunk)
  {
    var p := (ram.base + s.stack) * PAGE_SIZE;
    MapPagesKeepsChunk(ram, s.chunk, STACK_VIRTUAL_ADDRESS_END, p, STACK_PAGES, USER_FLAGS);
    ram.MapPages(DirOf(ram, s.chunk), STACK_VIRTUAL_ADDRESS_END, p, STACK_PAGES, USER_FLAGS)
  }

  /** The pages of a new process after `process_map_memory`. */
  ghost function MapMemory(ram: Ram, s: Space): (r: Ram)
    requires IsChunk(ram, s.chunk) && ram.base + s.program < PAGES && ram.base + s.stack < PAGES
    ensures r.base == ram.base && |r.page| == |ram.page|
  {
    MapStack(MapProgram(ram, s), s)
  }

  /** Mapping a process touches only the tables of its own directory. */
  lemma MapMemoryFrame(ram: Ram, s: Space)
    requires IsChunk(ram, s.chunk) && ram.base + s.program < PAGES && ram.base + s.stack < PAGES
    ensures var r, dir := MapMemory(ram, s), DirOf(ram, s.chunk);
            && r.base == ram.base && |r.page| == |ram.page|
            && IsChunk(r, s.chunk) && DirOf(r, s.chunk) == dir && r.page[dir] == ram.page[dir]
            && OwnedBlocks(r, s.chunk) == OwnedBlocks(ram, s.chunk)
            && (forall b: nat | b < |ram.page| && b !in OwnedBlocks(ram, s.chunk) :: r.page[b] == ram.page[b])
  {
    hide Or, And, Ram.MapPages, OwnedBlocks, Ram.TableOf, IsChunk;
    var image := MapProgram(ram, s);
    TablesOwned(ram, s.chunk);
    TablesOwned(image, s.chunk);
    var dir := DirOf(ram, s.chunk);
    MapPagesFrame(ram, dir, PROGRAM_VIRTUAL_ADDRESS, (ram.base + s.program) * PAGE_SIZE, s.programPages, USER_FLAGS);
    MapPagesFrame(image, dir, STACK_VIRTUAL_ADDRESS_END, (ram.base + s.stack) * PAGE_SIZE, STACK_PAGES, USER_FLAGS);
  }

  lemma TablesOwned(ram: Ram, chunk: nat)
    requires IsChunk(ram, chunk)
    ensures ram.InRam(chunk) && ram.InRam(DirOf(ram, chunk)) && ram.Directory(DirOf(ram, chunk))
    ensures forall b: nat | b < |ram.page| && ram.IsTable(DirOf(ram, chunk), b) :: b in OwnedBlocks(ram, chunk)
  {
  }

  lemma MapMemoryMapped(ram0: Ram, live0: Live, ram: Ram, live: Live, s: Space)
    requires FreshDirectory(ram0, live0, ram, live, s.chunk, TASK_FLAGS)
    requires ram.base + s.program + s.programPages <= PAGES && ram.base + s.program < PAGES
    requires ram.base + s.stack + STACK_PAGES <= PAGES && PROGRAM_PAGE + s.programPages <= PAGES
    ensures IsChunk(MapMemory(ram, s), s.chunk) && Mapped(MapMemory(ram, s), s)
  {
    hide Or, And, Ram.MapPages, OwnedBlocks, Ram.TableOf, Ram.Pte;
    var dir := DirOf(ram, s.chunk);
    MapMemoryFrame(ram, s);
    var image := MapProgram(ram, s);
    forall q: nat | q < PAGES
      ensures MapMemory(ram, s).Pte(dir, q) == ExpectedPte(ram.base, s, q)
    {
      UserRangeAt(ram, dir, PROGRAM_VIRTUAL_ADDRESS, s.program, s.programPages, q);
      UserRangeAt(image, dir, STACK_VIRTUAL_ADDRESS_END, s.stack, STACK_PAGES, q);
    }
    WriteableTaskFlags();
  }

  lemma FreshIsChunk(ram0: Ram, live0: Live, ram: Ram, live: Live, chunk: nat, flags: u8)
    requires FreshDirectory(ram0, live0, ram, live, chunk, flags)
    ensures IsChunk(ram, chunk) && ram.base == ram0.base && |ram.page| == |ram0.page|
  {
  }

  lemma ReadyIgnoresChunk(ram: Ram, live: Live, spaces: seq<Space>, s: Space, c: nat)
    requires ReadyToMap(ram, live, spaces, s)
    ensures ReadyToMap(ram, live, spaces, s.(chunk := c))
    ensures s.program + s.programPages <= |ram.page| && s.stack + STACK_PAGES <= |ram.page|
    ensures s.programPages == 0 ==> s.program == 0
  {
    assert DataKeys(s.(chunk := c)) == DataKeys(s);
  }

  lemma WriteableTaskFlags()
    ensures Or(TASK_FLAGS, IS_WRITEABLE) == USER_FLAGS
  {
    OrBit(TASK_FLAGS, 1);
    Pow2Values();
  }

  /** The program and stack of a process about to be mapped, in allocations
      no task uses. */
  ghost predicate ReadyToMap(ram: Ram, live: Live, spaces: seq<Space>, s: Space) {
    && s.stack in live && live[s.stack] == STACK_PAGES && s.stack + STACK_PAGES <= |ram.page|
    && (if s.programPages > 0
        then s.program in live && live[s.program] == s.programPages && s.program != s.stack
             && s.program + s.programPages <= |ram.page|
        else s.program == 0)
    && PROGRAM_PAGE + s.programPages <= PAGES && ram.base + |ram.page| <= PAGES
    && (forall i: nat | i < |spaces| :: IsChunk(ram, spaces[i].chunk) && Keys(ram, spaces[i]) !! DataKeys(s))
  }

  /** The program and stack of a process about to be mapped, in allocations made
      since `live0`. */
  ghost predicate NewData(live0: Live, ram: Ram, live: Live, s: Space) {
    && s.stack in live && live[s.stack] == STACK_PAGES && s.stack + STACK_PAGES <= |ram.page|
    && (if s.programPages > 0
        then s.program in live && live[s.program] == s.programPages && s.program != s.stack
             && s.program + s.programPages <= |ram.page|
        else s.program == 0)
    && PROGRAM_PAGE + s.programPages <= PAGES
    && DataKeys(s) !! live0.Keys
  }

  /** The stages of a load: allocations for the process and its task on top of
      `live0`, and on top of these a fresh directory. */
  ghost predicate Staged(ram0: Ram, live0: Live, ram1: Ram, live1: Live, ram2: Ram, live2: Live, s: Space) {
    && Extends(ram0, live0, ram1, live1) && Tiled(live1, |ram1.page|) && NewData(live0, ram1, live1, s)
    && FreshDirectory(ram1, live1, ram2, live2, s.chunk, TASK_FLAGS) && Tiled(live2, |ram2.page|)
  }

  lemma NewDataIsReady(ram0: Ram, live0: Live, ram: Ram, live: Live, spaces: seq<Space>, s: Space)
    requires AllOk(ram0, live0, spaces) && Extends(ram0, live0, ram, live) && Tiled(live, |ram.page|)
    requires NewData(live0, ram, live, s)
    ensures AllOk(ram, live, spaces) && ReadyToMap(ram, live, spaces, s)
  {
    hide Mapped, OwnedBlocks, Backed, Tiled;
    ExtendsKeeps(ram0, live0, ram, live, spaces);
  }

  /** A further allocation does not get in the way. */
  lemma ReadyGrows(ram0: Ram, live0: Live, ram: Ram, live: Live, spaces: seq<Space>, s: Space, block: nat, n: nat)
    requires AllOk(ram0, live0, spaces) && ReadyToMap(ram0, live0, spaces, s)
    requires Grew(ram0, live0, ram, live, block, n)
    ensures AllOk(ram, live, spaces) && ReadyToMap(ram, live, spaces, s) && Extends(ram0, live0, ram, live)
  {
    hide Mapped, Backed, OwnedBlocks;
    GrewKeeps(ram0, live0, ram, live, spaces, block, n);
  }

  /** Loading one more process, in blocks no task uses, keeps the invariant. */
  lemma LoadKeeps(ram0: Ram, live0: Live, spaces: seq<Space>, ram: Ram, live: Live, s: Space)
    requires AllOk(ram0, live0, spaces)
    requires FreshDirectory(ram0, live0, ram, live, s.chunk, TASK_FLAGS) && Tiled(live, |ram.page|)
    requires ReadyToMap(ram0, live0, spaces, s)
    ensures ram.base + s.program < PAGES && ram.base + s.stack < PAGES
    ensures AllOk(MapMemory(ram, s), live, spaces + [s])
    ensures Extends(ram0, live0, MapMemory(ram, s), live)
  {
    hide Or, And, Mapped, IsChunk, OwnedBlocks, MapMemory;
    MapMemoryFrame(ram, s);
    MapMemoryMapped(ram0, live0, ram, live, s);
    var r := MapMemory(ram, s);
    forall i: nat | i < |spaces|
      ensures forall b | b in OwnedBlocks(ram0, spaces[i].chunk) :: b < |ram0.page| && r.page[b] == ram0.page[b]
      ensures forall k | k in Keys(ram0, spaces[i]) :: k in live && live[k] == live0[k]
    {
      DataKeysLive(ram0, live0, spaces[i]);
    }
    AllFrame(ram0, live0, r, live, spaces);
    var all := spaces + [s];
    assert SpaceOk(r, live, s);
    forall i: nat, j: nat | i < j < |all|
      ensures Separate(r, all[i], all[j])
    {
      if j < |spaces| {
        assert Separate(r, spaces[i], spaces[j]);
      } else {
        DataKeysLive(ram0, live0, spaces[i]);
      }
    }
  }
}
