/** The running system as a state machine: user steps, stores through the
    page tables, interrupts, process loading and other kernel allocations. */
module World {
  import opened Bits
  import opened HeapTable
  import opened PageTables
  import opened Paging
  import opened AddressSpaces
  import opened Registers

  /** All that matters between two instructions of user code. */
  datatype World = World(
    ram: Ram,
    live: Live,
    spaces: seq<Space>,
    saved: seq<Registers>,
    current: nat,
    cpu: Registers,
    cr3: u32) {

    /** Every task's memory is as it should be. */
    ghost predicate MemoryOk() {
      AllOk(ram, live, spaces) && |saved| == |spaces|
    }

    /** The current task has the turn: its own directory is loaded. */
    ghost predicate Ready() {
      && MemoryOk() && current < |spaces|
      && cr3 == ram.page[spaces[current].chunk][0]
    }

    /** The current task is running its own code, at the user's privilege level
        and with interrupts on. */
    ghost predicate UserMode() {
      Ready() && IsUser(cpu)
    }

    /** The directory the processor walks. */
    function Dir(): int {
      ram.BlockOf(cr3)
    }
  }

  datatype Event =
    | Compute
    | Store(virt: u32, v: u32)
    | Clock
    | Fault(trap: Trap)
    | Syscall(result: u32)
    | Ignored
    | VectorZero
    | Load
    | KernelAllocation

  /** `task_get_next` on positions in the list. */
  function NextIndex(current: nat, n: nat): nat {
    if current + 1 < n then current + 1 else 0
  }

  /** The registers `task_init` gives a new task. */
  const INITIAL_REGISTERS: Registers :=
    Registers(0, 0, 0, 0, 0, 0, 0, PROGRAM_VIRTUAL_ADDRESS, USER_CODE_SEGMENT, 0,
              STACK_VIRTUAL_ADDRESS_START, USER_DATA_SEGMENT)

  /** A task that has not run yet: at the entry point of a program, with an empty
      stack below it, in the user's segments, everything else zero. */
  predicate AtEntry(r: Registers) {
    && r.ip == 0x40_0000 && r.esp == 0x3f_f000 && r.cs == 0x1b && r.ss == 0x23 && r.flags == 0
    && r.eax == r.ebx == r.ecx == r.edx == r.esi == r.edi == r.ebp == 0
  }

  /** Task `t` has just entered its program: the first thing it runs is, for a
      binary, the first byte of its own program, and the first thing it pushes
      goes to the last word of its own stack. */
  ghost predicate Entered(w: World, t: nat) {
    && w.MemoryOk() && t < |w.spaces| && w.current == t && w.UserMode()
    && w.cpu.ip == 0x40_0000 && w.cpu.esp == 0x3f_f000 && w.cpu.cs == 0x1b && w.cpu.ss == 0x23
    && w.cpu.eax == w.cpu.ebx == w.cpu.ecx == w.cpu.edx == w.cpu.esi == w.cpu.edi == w.cpu.ebp == 0
    && w.cpu.flags == 0x200
    && Writable(w.ram, w.spaces[t], (w.cpu.esp - 4) / 4096)
    && Target(w.ram, w.spaces[t], (w.cpu.esp - 4) / 4096) == w.spaces[t].stack + 3
    && (w.cpu.esp - 4) % 4096 == 4092
    && (w.spaces[t].programPages > 0 ==>
          && Writable(w.ram, w.spaces[t], w.cpu.ip / 4096)
          && Target(w.ram, w.spaces[t], w.cpu.ip / 4096) == w.spaces[t].program)
  }

  /** Returning to such a task enters its program. */
  lemma EntersProgram(w: World, r: Registers)
    requires w.Ready() && AtEntry(r) && Returned(r, w.cpu)
    ensures Entered(w, w.current)
  {
    hide AllOk, Or, Writable, Target;
    OrZeroLeft(INTERRUPT_FLAG);
    ResumedIsUserIff(r, w.cpu);
    assert SpaceOk(w.ram, w.live, w.spaces[w.current]) by { SpaceIsOk(w, w.current); }
    WritableRange(w.ram, w.live, w.spaces[w.current], 0x3fe);
    WritableRange(w.ram, w.live, w.spaces[w.current], 0x400);
  }

  lemma SpaceIsOk(w: World, t: nat)
    requires w.MemoryOk() && t < |w.spaces|
    ensures SpaceOk(w.ram, w.live, w.spaces[t])
  {
  }

  /** The running task saved and the turn with the next one, whose directory is
      loaded; `cpu` is what `task_return` then makes of its saved registers. */
  ghost function Switched(w: World, trap: Trap, cpu: Registers): World
    requires w.UserMode()
  {
    var saved := w.saved[w.current := SavedAfter(w.cpu, trap)];
    var next := NextIndex(w.current, |w.spaces|);
    w.(saved := saved, current := next, cpu := cpu, cr3 := w.ram.page[w.spaces[next].chunk][0])
  }

  ghost predicate SwitchStep(a: World, trap: Trap, b: World)
    requires a.UserMode()
  {
    b == Switched(a, trap, b.cpu) && Returned(b.saved[b.current], b.cpu)
  }

  /** The pages that allocations other than those of `live` may occupy. */
  ghost predicate SamePages(a: World, b: World) {
    && b.ram.base == a.ram.base && |b.ram.page| == |a.ram.page|
    && forall c: nat | c < |a.ram.page| && Covered(a.live, c) :: b.ram.page[c] == a.ram.page[c]
  }

  /** How a process is loaded: allocations for it on top of those there are, a
      fresh directory on top of these, and its program and stack mapped in it. */
  ghost predicate Loads(a: World, b: World, ram1: Ram, live1: Live, ram2: Ram, s: Space) {
    && Staged(a.ram, a.live, ram1, live1, ram2, b.live, s)
    && ram2.base + s.program < PAGES && ram2.base + s.stack < PAGES
    && b == a.(ram := MapMemory(ram2, s), live := b.live, spaces := a.spaces + [s],
               saved := a.saved + [INITIAL_REGISTERS])
  }

  ghost predicate LoadStep(a: World, b: World) {
    exists ram1, live1, ram2, s :: Loads(a, b, ram1, live1, ram2, s)
  }

  lemma LoadIsStep(a: World, b: World, ram1: Ram, live1: Live, ram2: Ram, s: Space)
    requires Loads(a, b, ram1, live1, ram2, s)
    ensures LoadStep(a, b)
  {
  }

  /** What loading does to the rest of the system. */
  ghost predicate AddsTask(a: World, b: World) {
    && SamePages(a, b) && b.MemoryOk()
    && (forall k | k in a.live :: k in b.live && b.live[k] == a.live[k])
    && |b.spaces| == |a.spaces| + 1 && b.spaces[..|a.spaces|] == a.spaces
    && b.saved == a.saved + [INITIAL_REGISTERS]
    && b.current == a.current && b.cpu == a.cpu && b.cr3 == a.cr3
  }

  /** Loading keeps every task's memory as it should be, the new one's included,
      and leaves everything allocated before alone. */
  lemma LoadAddsTask(a: World, b: World)
    requires a.MemoryOk() && LoadStep(a, b)
    ensures AddsTask(a, b)
  {
    var ram1, live1, ram2, s :| Loads(a, b, ram1, live1, ram2, s);
    LoadsExtends(a, b, ram1, live1, ram2, s);
    assert b.spaces[..|a.spaces|] == a.spaces;
  }

  lemma LoadsExtends(a: World, b: World, ram1: Ram, live1: Live, ram2: Ram, s: Space)
    requires a.MemoryOk() && Loads(a, b, ram1, live1, ram2, s)
    ensures b.MemoryOk() && Extends(a.ram, a.live, b.ram, b.live)
  {
    hide AllOk, Extends, NewData, FreshDirectory, MapMemory, Tiled;
    NewDataIsReady(a.ram, a.live, ram1, live1, a.spaces, s);
    LoadKeeps(ram1, live1, a.spaces, ram2, b.live, s);
    ExtendsTrans(a.ram, a.live, ram1, live1, b.ram, b.live);
  }

  /** The kernel allocated or freed memory of its own: no task's allocation is
      freed and no page of one is written. */
  ghost predicate KernelHeapStep(a: World, b: World) {
    && b == a.(ram := b.ram, live := b.live)
    && Tiled(b.live, |b.ram.page|)
    && b.ram.base == a.ram.base && |b.ram.page| == |a.ram.page|
    && forall i: nat | i < |a.spaces| :: Untouched(a, b, i)
  }

  ghost predicate Untouched(a: World, b: World, i: nat)
    requires i < |a.spaces|
  {
    && IsChunk(a.ram, a.spaces[i].chunk)
    && (forall k | k in Keys(a.ram, a.spaces[i]) :: k in a.live && k in b.live && b.live[k] == a.live[k])
    && (forall k: nat, c: nat | k in Keys(a.ram, a.spaces[i]) && InChain(a.live, k, c) ::
          c < |a.ram.page| && c < |b.ram.page| && b.ram.page[c] == a.ram.page[c])
  }

  /** A `kzalloc` on behalf of anyone else is such a step. */
  lemma GrewIsHeapStep(a: World, ram: Ram, live: Live, block: nat, n: nat)
    requires a.MemoryOk() && Grew(a.ram, a.live, ram, live, block, n)
    ensures KernelHeapStep(a, a.(ram := ram, live := live)) && AllOk(ram, live, a.spaces)
  {
    hide Mapped, Backed, OwnedBlocks;
    GrewKeeps(a.ram, a.live, ram, live, a.spaces, block, n);
    forall i: nat | i < |a.spaces|
      ensures Untouched(a, a.(ram := ram, live := live), i)
    {
      DataKeysLive(a.ram, a.live, a.spaces[i]);
    }
  }

  /** So is a `kfree` of an allocation that is no task's. */
  lemma FreeIsHeapStep(a: World, block: nat)
    requires a.MemoryOk() && block in a.live && Tiled(a.live - {block}, |a.ram.page|)
    requires forall i: nat | i < |a.spaces| :: SpaceOk(a.ram, a.live, a.spaces[i]) && block !in Keys(a.ram, a.spaces[i])
    ensures KernelHeapStep(a, a.(live := a.live - {block})) && AllOk(a.ram, a.live - {block}, a.spaces)
  {
    hide Mapped, Backed, OwnedBlocks;
    forall i: nat | i < |a.spaces|
      ensures Untouched(a, a.(live := a.live - {block}), i)
      ensures forall b | b in OwnedBlocks(a.ram, a.spaces[i].chunk) :: b < |a.ram.page|
    {
      DataKeysLive(a.ram, a.live, a.spaces[i]);
    }
    AllFrame(a.ram, a.live, a.ram, a.live - {block}, a.spaces);
  }

  /** One step of a system that runs user code. There is none from a state in
      which the kernel failed to return to user mode: what the processor does
      then is not modelled. */
  ghost predicate Step(a: World, e: Event, b: World) {
    a.UserMode() &&
    match e
    case Compute => b == a.(cpu := b.cpu) && IsUser(b.cpu)
    case Store(virt, v) =>
      && virt % 4 == 0
      && a.Dir() >= 0 && a.ram.Directory(a.Dir()) && a.ram.UserWritable(a.Dir(), virt / PAGE_SIZE)
      && a.ram.InRam(a.ram.BlockOf(a.ram.Pte(a.Dir(), virt / PAGE_SIZE)))
      && b == a.(cpu := b.cpu,
                 ram := a.ram.Put(a.ram.BlockOf(a.ram.Pte(a.Dir(), virt / PAGE_SIZE)), virt % PAGE_SIZE / 4, v))
      && IsUser(b.cpu)
    case Clock => SwitchStep(a, NoCode, b)
    case Fault(trap) => SwitchStep(a, trap, b)
    case VectorZero => b == a.(cpu := b.cpu) && RanIdtZero(a.cpu, b.cpu)
    case Syscall(result) => b == a.(saved := a.saved[a.current := a.cpu], cpu := a.cpu.(eax := result))
    case Ignored => b == a
    case Load => LoadStep(a, b)
    case KernelAllocation => KernelHeapStep(a, b)
  }

  // ----- Every step keeps the invariant

  /** A step keeps every task's memory and gives the turn to a task with its own
      directory. It ends in user mode if and only if it is not an interrupt on
      vector 0, and no switch unless the task switched to has user selectors
      saved. */
  lemma EventKeeps(a: World, e: Event, b: World)
    requires Step(a, e, b)
    ensures b.Ready() && b.current < |b.saved|
    ensures b.UserMode() <==> !e.VectorZero? && (IsSwitch(e) ==> UserSelectors(b.saved[b.current]))
  {
    hide Or, And, Bit, Mapped, Backed, OwnedBlocks, Ram.Directory, Ram.UserWritable, UserSelectors, Returned, LoadStep;
    match e
    case Compute =>
    case Ignored =>
    case Syscall(_) =>
    case Store(virt, v) => StoreKeeps(a, virt, v, b);
    case VectorZero =>
    case Clock => SwitchKeeps(a, NoCode, b);
    case Fault(trap) => SwitchKeeps(a, trap, b);
    case Load => LoadAddsTask(a, b); ChunkCovered(a, a.current);
    case KernelAllocation => KernelHeapKeeps(a, b);
  }

  lemma SwitchKeeps(a: World, trap: Trap, b: World)
    requires a.UserMode() && SwitchStep(a, trap, b)
    ensures b.Ready() && b.current < |b.saved| && (b.UserMode() <==> UserSelectors(b.saved[b.current]))
  {
    hide Or, And, Bit, AllOk, Returned;
    ResumedIsUserIff(b.saved[b.current], b.cpu);
  }

  /** The block with a task's chunk is one of its live allocations. */
  lemma ChunkCovered(a: World, i: nat)
    requires a.MemoryOk() && i < |a.spaces|
    ensures a.spaces[i].chunk < |a.ram.page| && Covered(a.live, a.spaces[i].chunk)
  {
    var c := a.spaces[i].chunk;
    assert c in OwnedBlocks(a.ram, c);
    assert InChain(a.live, c, c);
  }

  /** A store the processor lets through is one the invariant speaks of. */
  lemma StoreKeeps(a: World, virt: u32, v: u32, b: World)
    requires Step(a, Store(virt, v), b)
    ensures b.UserMode()
    ensures forall j: nat, key: nat, c: nat |
              j < |a.spaces| && j != a.current && key in DataKeys(a.spaces[j]) && InChain(a.live, key, c) ::
                c < |a.ram.page| && b.ram.page[c] == a.ram.page[c]
    ensures forall j: nat | j < |a.spaces| :: b.ram.page[a.spaces[j].chunk][0] == a.ram.page[a.spaces[j].chunk][0]
  {
    hide Or, And, Mapped, Backed, Ram.Directory;
    var s, q := a.spaces[a.current], virt / PAGE_SIZE;
    assert a.Dir() == DirOf(a.ram, s.chunk);
    UserStoreKeeps(a.ram, a.live, a.spaces, a.current, q, virt % PAGE_SIZE / 4, v);
    forall j: nat | j < |a.spaces|
      ensures b.ram.page[a.spaces[j].chunk][0] == a.ram.page[a.spaces[j].chunk][0]
    {
      WritesMissTables(a.ram, a.live, a.spaces, a.current, j, q);
    }
  }

  lemma KernelHeapKeeps(a: World, b: World)
    requires a.UserMode() && KernelHeapStep(a, b)
    ensures b.UserMode()
  {
    hide Or, And, Mapped, Backed;
    forall i: nat | i < |a.spaces|
      ensures forall c | c in OwnedBlocks(a.ram, a.spaces[i].chunk) ::
                c < |a.ram.page| && b.ram.page[c] == a.ram.page[c]
      ensures forall k | k in Keys(a.ram, a.spaces[i]) :: k in b.live && b.live[k] == a.live[k]
    {
      assert Untouched(a, b, i);
      OwnedInChains(a, i);
    }
    AllFrame(a.ram, a.live, b.ram, b.live, a.spaces);
    assert a.spaces[a.current].chunk in OwnedBlocks(a.ram, a.spaces[a.current].chunk);
  }

  lemma OwnedInChains(a: World, i: nat)
    requires a.MemoryOk() && i < |a.spaces|
    ensures forall c | c in OwnedBlocks(a.ram, a.spaces[i].chunk) ::
              c in Keys(a.ram, a.spaces[i]) && InChain(a.live, c, c)
  {
  }

  // ----- Runs

  /** User code runs, and every task can be resumed in user mode, as after
      `task_run_first_ever_task` with freshly loaded tasks. */
  ghost predicate Started(w: World) {
    w.UserMode() && forall r | r in w.saved :: UserSelectors(r)
  }

  /** A run of the system. */
  ghost predicate Run(run: seq<World>, events: seq<Event>) {
    && |run| == |events| + 1 && Started(run[0])
    && forall i: nat | i < |events| :: StepAt(run, events, i)
  }

  ghost predicate StepAt(run: seq<World>, events: seq<Event>, i: nat)
    requires |run| == |events| + 1 && i < |events|
  {
    Step(run[i], events[i], run[i + 1])
  }

  /** No switch before step `n` took user selectors from task `t`. In particular
      no fault with an error code, unless its stray words end in the selectors. */
  ghost predicate Clean(run: seq<World>, events: seq<Event>, n: nat, t: nat)
    requires n <= |events| && |run| == |events| + 1
  {
    forall i: nat | i < n :: KeptAt(run, events, i, t)
  }

  ghost predicate KeptAt(run: seq<World>, events: seq<Event>, i: nat, t: nat)
    requires i < |events| && |run| == |events| + 1
  {
    IsSwitch(events[i]) && run[i].current == t ==> KeepsSelectors(run[i].cpu, TrapOf(events[i]))
  }

  lemma CleanStep(run: seq<World>, events: seq<Event>, n: nat, t: nat)
    requires n < |events| && |run| == |events| + 1
    ensures Clean(run, events, n + 1, t) <==> Clean(run, events, n, t) && KeptAt(run, events, n, t)
  {
  }

  /** The step before state `n` was an interrupt on vector 0. */
  predicate AfterVectorZero(events: seq<Event>, n: nat)
    requires n <= |events|
  {
    n > 0 && events[n - 1].VectorZero?
  }

  /** A task's saved selectors tell whether it is clean. */
  lemma {:induction false} SelectorsFollowTraps(run: seq<World>, events: seq<Event>, n: nat, t: nat)
    requires Run(run, events) && n < |run|
    ensures run[n].Ready() && run[n].current < |run[n].saved|
    ensures run[n].UserMode() <==> UserSelectors(run[n].saved[run[n].current]) && !AfterVectorZero(events, n)
    ensures t < |run[n].saved| ==> (UserSelectors(run[n].saved[t]) <==> Clean(run, events, n, t))
    ensures t >= |run[n].saved| ==> Clean(run, events, n, t)
  {
    hide UserSelectors, SavedAfter, KeepsSelectors, IsUser, Clean, AllOk;
    if n == 0 {
      assert Clean(run, events, 0, t) by { NothingBefore(run, events, t); }
      StartedIsUser(run[0]);
    } else {
      var a, e, b := run[n - 1], events[n - 1], run[n];
      SelectorsFollowTraps(run, events, n - 1, t);
      assert StepAt(run, events, n - 1);
      EventKeeps(a, e, b);
      CleanStep(run, events, n - 1, t);
      UserIsSelected(a.cpu);
      StepSaves(a, e, b);
    }
  }

  lemma NothingBefore(run: seq<World>, events: seq<Event>, t: nat)
    requires |run| == |events| + 1
    ensures Clean(run, events, 0, t)
  {
  }

  lemma StartedIsUser(w: World)
    requires Started(w)
    ensures w.Ready() && w.UserMode() && w.current < |w.saved| && UserSelectors(w.saved[w.current])
    ensures forall t: nat | t < |w.saved| :: UserSelectors(w.saved[t])
  {
  }

  lemma UserIsSelected(r: Registers)
    ensures IsUser(r) ==> UserSelectors(r)
  {
  }

  /** How a step changes what is saved, as far as selectors are concerned. */
  lemma StepSaves(a: World, e: Event, b: World)
    requires Step(a, e, b)
    ensures a.current < |a.saved| <= |b.saved| && a.UserMode()
    ensures forall t: nat | t < |a.saved| && t != a.current :: b.saved[t] == a.saved[t]
    ensures forall t: nat | |a.saved| <= t < |b.saved| :: UserSelectors(b.saved[t])
    ensures IsSwitch(e) ==> (UserSelectors(b.saved[a.current]) <==> KeepsSelectors(a.cpu, TrapOf(e)))
    ensures !IsSwitch(e) ==>
              b.current == a.current && (b.saved[a.current] == a.saved[a.current] || b.saved[a.current] == a.cpu)
  {
    hide AllOk, SamePages, Untouched, Returned, LoadStep, Or, And, Bit;
    match e
    case Clock => SavedSelectorsIff(a.cpu, NoCode);
    case Fault(trap) => SavedSelectorsIff(a.cpu, trap);
    case Load => LoadAddsTask(a, b);
    case _ =>
  }

  /** In every state of every run every task's memory is as it should be and the
      task with the turn has its own directory loaded; it runs in user mode if
      and only if no switch took its selectors and it did not just raise
      vector 0. */
  lemma RunKeeps(run: seq<World>, events: seq<Event>, i: nat)
    requires Run(run, events) && i < |run|
    ensures run[i].Ready()
    ensures run[i].UserMode() <==> Clean(run, events, i, run[i].current) && !AfterVectorZero(events, i)
  {
    hide World.Ready, World.UserMode, Clean, UserSelectors, Run;
    SelectorsFollowTraps(run, events, i, run[i].current);
  }

  /** Without error codes and vector 0 a run never leaves user mode. */
  lemma RunStaysInUserMode(run: seq<World>, events: seq<Event>, i: nat)
    requires Run(run, events) && i < |run|
    requires forall k: nat | k < i :: !events[k].VectorZero? && (IsSwitch(events[k]) ==> TrapOf(events[k]).NoCode?)
    ensures run[i].UserMode()
  {
    hide World.Ready, Step;
    RunKeeps(run, events, i);
  }

  /** The only task, at an ip that ends in the kernel's code selector, writes to a
      page it may only read. It never gets back to user mode; and if its esp ends
      in a selector that can be read through, it goes on in the kernel's code
      segment, at the error code. */
  lemma WriteFaultLeavesUserMode(w: World, cpu: Registers)
    requires Started(w) && |w.spaces| == 1 && w.cpu.ip == 0x40_0008
    requires Returned(SavedAfter(w.cpu, Code(7)), cpu)
    ensures var b := Switched(w, Code(7), cpu); Run([w, b], [Fault(Code(7))]) && !b.UserMode()
    ensures IsReadable(w.cpu.esp % SELECTORS) ==> cpu.cs == KERNEL_CODE_SELECTOR && cpu.ip == 7
  {
    hide AllOk, Or, And, Bit;
    var b := Switched(w, Code(7), cpu);
    assert StepAt([w, b], [Fault(Code(7))], 0);
  }

  /** Any task divides by zero, or executes `int 0`: it goes on where it was, with
      its own directory loaded, but in the kernel's code segment, where the
      rights of pages do not bind. */
  lemma VectorZeroLeavesUserMode(w: World, cpu: Registers)
    requires Started(w) && RanIdtZero(w.cpu, cpu)
    ensures var b := w.(cpu := cpu);
            && Run([w, b], [VectorZero]) && b.Ready() && !b.UserMode()
            && b.cpu.cs == KERNEL_CODE_SELECTOR && b.cpu.ip == w.cpu.ip && b.cr3 == w.cr3
  {
    hide AllOk, Or, And, Bit;
    var b := w.(cpu := cpu);
    assert StepAt([w, b], [VectorZero], 0);
  }

  /** Hence in every reachable state no physical page can be written by two
      tasks, each task writes exactly its program and stack pages, and those
      are blocks of its own allocations. The processor goes by these rights as
      long as it runs in user mode. */
  lemma RunSeparates(run: seq<World>, events: seq<Event>, n: nat, i: nat, j: nat, q: nat, r: nat)
    requires Run(run, events) && n < |run|
    requires i < |run[n].spaces| && j < |run[n].spaces| && q < PAGES && r < PAGES
    ensures run[n].Ready()
    ensures run[n].UserMode() <==> Clean(run, events, n, run[n].current) && !AfterVectorZero(events, n)
    ensures var w := run[n];
            && (Writable(w.ram, w.spaces[i], q) <==> InStack(q) || InProgram(w.spaces[i], q))
            && (Writable(w.ram, w.spaces[i], q) ==>
                  Target(w.ram, w.spaces[i], q) == Backing(w.spaces[i], q)
                  && Target(w.ram, w.spaces[i], q) !in OwnedBlocks(w.ram, w.spaces[j].chunk))
            && (Writable(w.ram, w.spaces[i], q) ==> Writable(w.ram, w.spaces[j], r) ==>
                  Target(w.ram, w.spaces[i], q) == Target(w.ram, w.spaces[j], r) ==> i == j && q == r)
  {
    hide Step, Run, Mapped, Backed, Or, And, Clean, IsUser;
    RunKeeps(run, events, n);
    var w := run[n];
    WritableExactly(w.ram, w.live, w.spaces[i], q);
    if Writable(w.ram, w.spaces[i], q) {
      WritesMissTables(w.ram, w.live, w.spaces, i, j, q);
      if Writable(w.ram, w.spaces[j], r) && Target(w.ram, w.spaces[i], q) == Target(w.ram, w.spaces[j], r) {
        WriteSeparation(w.ram, w.live, w.spaces, i, j, q, r);
      }
    }
  }

  // ----- Context switches are transparent

  /** All that task `t` can notice while it does not run. */
  ghost predicate SameFor(a: World, b: World, t: nat) {
    && t < |a.spaces| && t < |b.spaces| && t < |a.saved| && t < |b.saved|
    && a.ram.InRam(a.spaces[t].chunk) && b.ram.InRam(a.spaces[t].chunk)
    && b.spaces[t] == a.spaces[t]
    && b.ram.page[a.spaces[t].chunk][0] == a.ram.page[a.spaces[t].chunk][0]
    && (forall key | key in DataKeys(a.spaces[t]) :: key in a.live && key in b.live && b.live[key] == a.live[key])
    && (forall key: nat, c: nat | key in DataKeys(a.spaces[t]) && InChain(a.live, key, c) ::
          c < |a.ram.page| && c < |b.ram.page| && b.ram.page[c] == a.ram.page[c])
  }

  predicate IsSwitch(e: Event) {
    e.Clock? || e.Fault?
  }

  /** What a switching interrupt pushed. */
  function TrapOf(e: Event): Trap
    requires IsSwitch(e)
  {
    if e.Fault? then e.trap else NoCode
  }

  /** A step of another task leaves a suspended task's registers, directory and
      memory alone. */
  lemma StepSparesOthers(a: World, e: Event, b: World, t: nat)
    requires Step(a, e, b) && t < |a.spaces| && t != a.current
    ensures SameFor(a, b, t) && b.saved[t] == a.saved[t]
  {
    hide Or, And, Bit, Mapped, Ram.Directory, Ram.UserWritable, LoadStep, Returned;
    ChunkCovered(a, t);
    DataCovered(a, t);
    match e
    case Store(virt, v) => StoreKeeps(a, virt, v, b);
    case KernelAllocation => KernelHeapSpares(a, b, t);
    case Load => LoadSpares(a, b, t);
    case Clock => SwitchSparesAll(a, NoCode, b.cpu, t);
    case Fault(trap) => SwitchSparesAll(a, trap, b.cpu, t);
    case VectorZero =>
    case Compute =>
    case Ignored =>
    case Syscall(_) =>
  }

  lemma LoadSpares(a: World, b: World, t: nat)
    requires a.MemoryOk() && LoadStep(a, b) && t < |a.spaces|
    ensures SameFor(a, b, t) && b.saved[t] == a.saved[t]
  {
    hide Mapped, Backed, IsChunk, LoadStep;
    LoadAddsTask(a, b);
    ChunkCovered(a, t);
    DataCovered(a, t);
    assert b.spaces[..|a.spaces|][t] == b.spaces[t];
  }

  lemma KernelHeapSpares(a: World, b: World, t: nat)
    requires a.MemoryOk() && KernelHeapStep(a, b) && t < |a.spaces|
    ensures SameFor(a, b, t) && b.saved[t] == a.saved[t]
  {
    hide Mapped, Backed, IsChunk;
    assert Untouched(a, b, t);
    ChunkCovered(a, t);
    OwnedInChains(a, t);
    assert a.spaces[t].chunk in OwnedBlocks(a.ram, a.spaces[t].chunk);
    DataCovered(a, t);
  }

  /** A switch changes no memory at all. */
  lemma SwitchSparesAll(a: World, trap: Trap, cpu: Registers, t: nat)
    requires a.UserMode() && t < |a.spaces|
    ensures SameFor(a, Switched(a, trap, cpu), t)
  {
    ChunkCovered(a, t);
    DataCovered(a, t);
  }

  lemma DataCovered(a: World, t: nat)
    requires a.MemoryOk() && t < |a.spaces|
    ensures forall key | key in DataKeys(a.spaces[t]) :: key in a.live
    ensures forall key: nat, c: nat | key in DataKeys(a.spaces[t]) && InChain(a.live, key, c) ::
              c < |a.ram.page| && Covered(a.live, c)
  {
  }

  lemma SameForTrans(a: World, b: World, c: World, t: nat)
    requires SameFor(a, b, t) && SameFor(b, c, t)
    ensures SameFor(a, c, t)
  {
    forall key: nat, k: nat | key in DataKeys(a.spaces[t]) && InChain(a.live, key, k)
      ensures k < |c.ram.page| && c.ram.page[k] == a.ram.page[k]
    {
      assert InChain(b.live, key, k);
    }
  }

  /** From the moment a task is switched away until it is chosen again, its
      saved registers are those of the interrupt and its memory is untouched. */
  lemma {:induction false} Suspended(run: seq<World>, events: seq<Event>, i: nat, j: nat, t: nat)
    requires Run(run, events) && i < j < |run| && IsSwitch(events[i])
    requires t == run[i].current && forall k: nat | i < k < j :: run[k].current != t
    ensures run[i].UserMode() && run[j].Ready()
    ensures SameFor(run[i], run[j], t) && run[j].saved[t] == SavedAfter(run[i].cpu, TrapOf(events[i]))
  {
    hide World.UserMode, World.Ready, Step, SameFor, Clean;
    RunKeeps(run, events, i);
    RunKeeps(run, events, j);
    assert StepAt(run, events, i) && StepAt(run, events, j - 1);
    StepIsUser(run[i], events[i], run[i + 1]);
    ReadyTask(run[i]);
    if j == i + 1 {
      SwitchFacts(run[i], events[i], run[j]);
      SwitchSparesAll(run[i], TrapOf(events[i]), run[j].cpu, t);
    } else {
      Suspended(run, events, i, j - 1, t);
      SameForBounds(run[i], run[j - 1], t);
      StepSparesOthers(run[j - 1], events[j - 1], run[j], t);
      SameForTrans(run[i], run[j - 1], run[j], t);
    }
  }

  /** A task that does not get the turn keeps its saved registers. */
  lemma {:induction false} SavedStays(run: seq<World>, events: seq<Event>, i: nat, j: nat, t: nat)
    requires Run(run, events) && i <= j < |run| && t < |run[i].saved|
    requires forall k: nat | i <= k < j :: run[k].current != t
    ensures t < |run[j].saved| && run[j].saved[t] == run[i].saved[t]
  {
    hide World.UserMode, World.Ready, Step, SameFor, Clean;
    if i < j {
      SavedStays(run, events, i, j - 1, t);
      RunKeeps(run, events, j - 1);
      ReadyTask(run[j - 1]);
      assert StepAt(run, events, j - 1);
      StepSparesOthers(run[j - 1], events[j - 1], run[j], t);
      RunKeeps(run, events, j);
      ReadyTask(run[j]);
      SameForBounds(run[j - 1], run[j], t);
    }
  }

  /** A process loaded in a run enters its program the first time its task gets
      the turn, however long that takes and whatever happens until then. */
  lemma FirstResumption(run: seq<World>, events: seq<Event>, i: nat, j: nat)
    requires Run(run, events) && i < j < |events| && events[i].Load? && IsSwitch(events[j])
    requires var t := |run[i].spaces|; run[j + 1].current == t && forall k: nat | i < k <= j :: run[k].current != t
    ensures Entered(run[j + 1], |run[i].spaces|)
  {
    hide World.UserMode, World.Ready, Step, SameFor, Clean, Switched, Returned, Entered;
    var t := |run[i].spaces|;
    RunKeeps(run, events, i);
    ReadyTask(run[i]);
    assert StepAt(run, events, i) && StepAt(run, events, j);
    LoadSaves(run[i], events[i], run[i + 1]);
    SavedStays(run, events, i + 1, j, t);
    SwitchFacts(run[j], events[j], run[j + 1]);
    RunKeeps(run, events, j + 1);
    EntersProgram(run[j + 1], run[j + 1].saved[t]);
  }

  lemma LoadSaves(a: World, e: Event, b: World)
    requires Step(a, e, b) && e.Load?
    ensures |a.saved| == |a.spaces| && |b.saved| == |a.saved| + 1 && AtEntry(b.saved[|a.spaces|])
  {
    hide AllOk, LoadStep;
    LoadAddsTask(a, b);
  }

  lemma SameForBounds(a: World, b: World, t: nat)
    requires SameFor(a, b, t)
    ensures t < |a.spaces| && t < |b.spaces|
  {
  }

  lemma SwitchFacts(a: World, e: Event, b: World)
    requires Step(a, e, b) && IsSwitch(e)
    ensures a.UserMode() && a.current < |a.spaces| == |a.saved| == |b.saved|
    ensures b == Switched(a, TrapOf(e), b.cpu) && b.saved[a.current] == SavedAfter(a.cpu, TrapOf(e)) && IsUser(a.cpu)
    ensures b.current < |a.saved| && Returned(b.saved[b.current], b.cpu)
    ensures b.ram == a.ram && b.spaces == a.spaces && b.cr3 == b.ram.page[b.spaces[b.current].chunk][0]
    ensures forall t: nat | t < |a.saved| && t != a.current :: b.saved[t] == a.saved[t]
    ensures a.cr3 == a.ram.page[a.spaces[a.current].chunk][0]
  {
    SwitchKeeps(a, TrapOf(e), b);
  }

  /** A task that was switched away gets its page directory and every page it
      can write back as they were at that interrupt, whatever the other tasks
      and the kernel did in between. It gets its twelve registers back if and
      only if no error code was pushed, and then it goes on in user mode. */
  lemma SwitchesAreTransparent(run: seq<World>, events: seq<Event>, i: nat, j: nat, t: nat)
    requires Run(run, events) && i <= j < |events| && IsSwitch(events[i]) && IsSwitch(events[j])
    requires t == run[i].current && run[j + 1].current == t
    requires forall k: nat | i < k <= j :: run[k].current != t
    ensures run[j + 1].cr3 == run[i].cr3 && SameFor(run[i], run[j + 1], t)
    ensures run[j + 1].cpu == run[i].cpu <==> TrapOf(events[i]).NoCode?
    ensures run[j + 1].UserMode() <==> KeepsSelectors(run[i].cpu, TrapOf(events[i]))
  {
    hide World.UserMode, World.Ready, Step, SameFor, Switched, Returned, SavedAfter;
    hide IsUser, KeepsSelectors, UserSelectors;
    assert StepAt(run, events, i) && StepAt(run, events, j);
    SwitchFacts(run[i], events[i], run[i + 1]);
    SwitchFacts(run[j], events[j], run[j + 1]);
    EventKeeps(run[j], events[j], run[j + 1]);
    SwitchSparesAll(run[j], TrapOf(events[j]), run[j + 1].cpu, t);
    if i < j {
      Suspended(run, events, i, j, t);
      SameForTrans(run[i], run[j], run[j + 1], t);
    }
    ReturnsAsInterrupted(run[i].cpu, TrapOf(events[i]), run[j + 1].cpu);
    SavedSelectorsIff(run[i].cpu, TrapOf(events[i]));
    SameForChunk(run[i], run[j + 1], t);
  }

  lemma StepIsUser(a: World, e: Event, b: World)
    requires Step(a, e, b)
    ensures a.UserMode()
  {
  }

  lemma ReadyTask(w: World)
    requires w.Ready()
    ensures w.current < |w.spaces| == |w.saved|
  {
  }

  lemma SameForChunk(a: World, b: World, t: nat)
    requires SameFor(a, b, t)
    ensures t < |a.spaces| && t < |b.spaces| && b.spaces[t] == a.spaces[t]
    ensures a.ram.InRam(a.spaces[t].chunk) && b.ram.InRam(a.spaces[t].chunk)
    ensures b.ram.page[a.spaces[t].chunk][0] == a.ram.page[a.spaces[t].chunk][0]
  {
  }

  // ----- Round robin

  function Switches(events: seq<Event>, i: nat, j: nat): nat
    requires i <= j <= |events|
    decreases j
  {
    if i == j then 0 else Switches(events, i, j - 1) + if IsSwitch(events[j - 1]) then 1 else 0
  }

  /** How often task `t` is chosen by the switches from step `i` to step `j`. */
  function Choices(run: seq<World>, events: seq<Event>, i: nat, j: nat, t: nat): nat
    requires i <= j <= |events| && |run| == |events| + 1
    decreases j
  {
    if i == j then 0
    else Choices(run, events, i, j - 1, t) + if IsSwitch(events[j - 1]) && run[j].current == t then 1 else 0
  }

  /** How often it is resumed by them in user mode. */
  ghost function Resumptions(run: seq<World>, events: seq<Event>, i: nat, j: nat, t: nat): nat
    requires i <= j <= |events| && |run| == |events| + 1
    decreases j
  {
    if i == j then 0
    else
      Resumptions(run, events, i, j - 1, t)
      + if IsSwitch(events[j - 1]) && run[j].current == t && run[j].UserMode() then 1 else 0
  }

  /** Only the last choice of a run can fail to resume the chosen task. */
  lemma {:induction false} ResumptionsAreChoices(run: seq<World>, events: seq<Event>, i: nat, j: nat, t: nat)
    requires Run(run, events) && i <= j < |run|
    ensures Resumptions(run, events, i, j, t) ==
            Choices(run, events, i, j, t)
            - if i < j && IsSwitch(events[j - 1]) && run[j].current == t && !run[j].UserMode() then 1 else 0
    decreases j
  {
    hide World.UserMode, Step;
    if i < j {
      ResumptionsAreChoices(run, events, i, j - 1, t);
      assert j - 1 < |events| && StepAt(run, events, j - 1);
      StepIsUser(run[j - 1], events[j - 1], run[j]);
    }
  }

  /** How often `t` occurs among the `k` positions after `c` on a ring of `n`. */
  function Hits(c: nat, n: nat, k: nat, t: nat): nat
    requires n > 0
  {
    if k == 0 then 0 else Hits(c, n, k - 1, t) + if (c + k) % n == t then 1 else 0
  }

  lemma {:induction false} HitsBelow(c: nat, n: nat, k: nat, t: nat)
    requires c < n && t < n && k <= n
    ensures Hits(c, n, k, t) == if t > c then (if k >= t - c then 1 else 0) else if k >= t - c + n then 1 else 0
  {
    if k > 0 {
      HitsBelow(c, n, k - 1, t);
      RingStep(c, n, k);
    }
  }

  lemma RingStep(c: nat, n: nat, k: nat)
    requires c < n && k <= n
    ensures (c + k) % n == if c + k < n then c + k else c + k - n
  {
    if c + k >= n {
      ModUnique(c + k, n, 1, c + k - n);
    } else {
      ModUnique(c + k, n, 0, c + k);
    }
  }

  lemma NextIsRing(c: nat, n: nat, k: nat)
    requires n > 0
    ensures NextIndex((c + k) % n, n) == (c + (k + 1)) % n
  {
    var q, r := (c + k) / n, (c + k) % n;
    assert c + k == q * n + r;
    if r + 1 < n {
      ModUnique(c + k + 1, n, q, r + 1);
    } else {
      assert c + k + 1 == (q + 1) * n;
      ModUnique(c + k + 1, n, q + 1, 0);
    }
  }

  lemma RunSteps(run: seq<World>, events: seq<Event>, i: nat)
    requires Run(run, events) && i + 1 < |run|
    ensures |run| == |events| + 1 && StepAt(run, events, i)
  {
  }

  /** How a step moves the turn. */
  lemma StepTurn(a: World, e: Event, b: World)
    requires Step(a, e, b) && !e.Load?
    ensures |b.spaces| == |a.spaces|
    ensures b.current == if IsSwitch(e) then NextIndex(a.current, |a.spaces|) else a.current
  {
  }

  lemma {:induction false} RingPosition(run: seq<World>, events: seq<Event>, i: nat, j: nat, t: nat)
    requires Run(run, events) && i <= j < |run|
    requires forall k: nat | i <= k < j :: !events[k].Load?
    ensures |run[i].spaces| == |run[j].spaces| > run[i].current
    ensures run[j].current == (run[i].current + Switches(events, i, j)) % |run[i].spaces|
    ensures Choices(run, events, i, j, t) == Hits(run[i].current, |run[i].spaces|, Switches(events, i, j), t)
    decreases j
  {
    hide Run, Step, World.Ready, World.UserMode, Clean;
    RunKeeps(run, events, i);
    ReadyTask(run[i]);
    if i < j {
      RingPosition(run, events, i, j - 1, t);
      assert StepAt(run, events, j - 1) by { RunSteps(run, events, j - 1); }
      StepTurn(run[j - 1], events[j - 1], run[j]);
      NextIsRing(run[i].current, |run[i].spaces|, Switches(events, i, j - 1));
    } else {
      ModUnique(run[i].current, |run[i].spaces|, 0, run[i].current);
    }
  }

  /** In any stretch of a run with as many switches as there are tasks, and no
      task added, the turn comes back to the task it started from and every
      task is resumed in user mode exactly once: the last one only if no switch
      took its selectors, for the others this is so because the run went on. */
  lemma RoundRobin(run: seq<World>, events: seq<Event>, i: nat, j: nat)
    requires Run(run, events) && i <= j < |run|
    requires forall k: nat | i <= k < j :: !events[k].Load?
    requires Switches(events, i, j) == |run[i].spaces|
    ensures run[j].current == run[i].current
    ensures forall t: nat | t < |run[i].spaces| ::
              Choices(run, events, i, j, t) == 1
              && Resumptions(run, events, i, j, t) ==
                 if t == run[i].current && !Clean(run, events, j, t) then 0 else 1
  {
    hide World.UserMode, World.Ready, Step, Clean;
    var c, n := run[i].current, |run[i].spaces|;
    RingPosition(run, events, i, j, c);
    RingStep(c, n, n);
    RunKeeps(run, events, j);
    assert StepAt(run, events, j - 1);
    EventKeeps(run[j - 1], events[j - 1], run[j]);
    if !IsSwitch(events[j - 1]) {
      RunKeeps(run, events, j - 1);
      StepIsUser(run[j - 1], events[j - 1], run[j]);
      StepSaves(run[j - 1], events[j - 1], run[j]);
      CleanStep(run, events, j - 1, c);
    }
    forall t: nat | t < n
      ensures Choices(run, events, i, j, t) == 1
      ensures Resumptions(run, events, i, j, t) == if t == c && !Clean(run, events, j, t) then 0 else 1
    {
      RingPosition(run, events, i, j, t);
      HitsBelow(c, n, n, t);
      ResumptionsAreChoices(run, events, i, j, t);
    }
  }
}
