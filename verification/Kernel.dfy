/** The kernel at work: loading processes, and the interrupt handlers that
    save, switch and resume their tasks. Every method is tied to a step of the
    state machine in `World`. */
module Kernel {
  import opened Bits
  import opened Status
  import opened HeapTable
  import opened KernelHeap
  import opened PageTables
  import opened Paging
  import opened AddressSpaces
  import opened Registers
  import opened TaskList
  import opened World

  const MAX_PROCESSES: nat := 12
  const TOTAL_INTERRUPTS: nat := 512
  const MAX_ISR80H_COMMANDS: nat := 1024
  const CLOCK_INTERRUPT: nat := 0x20
  const SYSCALL_INTERRUPT: nat := 0x80

  /** Sizes of `struct process` and `struct task` in bytes. */
  const SIZEOF_PROCESS: u32 := 9364
  const SIZEOF_TASK: u32 := 64

  /** What a file turns out to be: an ELF file, which maps no pages of its own,
      or a flat binary with its size and the pages read from disk. */
  datatype Program = Elf | Binary(size: u32, image: seq<Page>) {
    ghost predicate Valid() {
      Binary? ==>
        0 < size <= WRAP - PAGE_SIZE && BlocksFor(size) == |image| && PROGRAM_PAGE + |image| <= PAGES
    }

    function Pages(): nat {
      if Elf? then 0 else |image|
    }

    function Requests(): seq<nat> {
      if Elf? then [] else [|image|]
    }
  }

  /** The requests of more than one block that loading a program makes: the
      process, the program's pages and the stack. */
  function RunsToLoad(program: Program): seq<nat> {
    [3] + program.Requests() + [STACK_PAGES]
  }

  /** How many free blocks loading takes: those, and single blocks for the task
      and its directory. */
  function BlocksToLoad(program: Program): nat {
    3 + program.Pages() + STACK_PAGES + 1 + 1026
  }

  /** The heap can answer every request of a load. */
  ghost predicate RoomFor(t: Table, program: Program) {
    Serves(t, RunsToLoad(program)) && FreeCount(t) >= BlocksToLoad(program)
  }

  /** One run for process, program and stack is enough, if as many further
      blocks are free anywhere. */
  lemma RunIsRoom(t: Table, program: Program)
    requires program.Valid() && HasRun(t, 3 + program.Pages() + STACK_PAGES) && FreeCount(t) >= BlocksToLoad(program)
    ensures RoomFor(t, program)
  {
    hide Serves, FreeCount, HasRun;
    SumOfRuns(program);
    OneRunServes(t, RunsToLoad(program));
  }

  lemma SumOfRuns(program: Program)
    requires program.Valid()
    ensures Sum(RunsToLoad(program)) == 3 + program.Pages() + STACK_PAGES
    ensures forall n | n in RunsToLoad(program) :: n >= 1
  {
    var runs, rest := RunsToLoad(program), program.Requests() + [STACK_PAGES];
    assert runs[0] == 3 && runs[1..] == rest;
    assert [STACK_PAGES][1..] == [] && Sum([STACK_PAGES]) == STACK_PAGES;
    if program.Binary? {
      BlocksForExact(program.size);
      assert rest[0] == |program.image| && rest[1..] == [STACK_PAGES];
    } else {
      assert rest == [STACK_PAGES];
    }
  }

  class Kernel {
    const machine: Machine
    const list: TaskList
    const processes: array<Process?>
    const kernelDirectory: u32
    var currentProcess: Process?
    var cpu: Registers
    var cr3: u32
    ghost var spaces: seq<Space>
    ghost var saved: seq<Registers>

    constructor (machine: Machine, kernelDirectory: u32)
      requires machine.Valid()
      ensures Valid() && fresh(list) && fresh(processes) && this.machine == machine
      ensures spaces == [] && forall i | 0 <= i < MAX_PROCESSES :: processes[i] == null
    {
      this.machine := machine;
      this.list := new TaskList();
      this.processes := new Process?[MAX_PROCESSES](_ => null);
      this.kernelDirectory := kernelDirectory;
      currentProcess := null;
      cpu := INITIAL_REGISTERS;
      cr3 := kernelDirectory;
      spaces, saved := [], [];
    }

    ghost predicate Valid()
      reads this, machine, machine.heap, machine.heap.table, list, list.tasks
    {
      && machine.Valid() && list.Valid() && processes.Length == MAX_PROCESSES
      && |spaces| == |list.tasks| == |saved|
      && (forall i: nat | i < |saved| :: list.tasks[i].registers == saved[i])
      && AllOk(machine.ram, machine.heap.live, spaces)
      && (forall i: nat | i < |spaces| :: list.tasks[i].pageDirectory == machine.Address(spaces[i].chunk))
      && (forall i: nat | i < |spaces| :: list.tasks[i].process.id < MAX_PROCESSES)
      && processes as object != machine.heap.table
    }

    /** The state of the state machine this kernel is in. */
    ghost function View(): World
      reads this, machine, machine.heap, list
    {
      World(machine.ram, machine.heap.live, spaces, saved, list.index, cpu, cr3)
    }

    // ----- Context switch

    /** `kernel_page`. */
    method KernelPage()
      modifies this`cr3
      ensures cr3 == kernelDirectory
    {
      cr3 := kernelDirectory;
    }

    /** `task_switch`: make a task current and load its own directory. */
    method TaskSwitch(task: Task, ghost k: nat)
      requires Valid() && k < |spaces| && list.tasks[k] == task
      modifies this`cr3, list`currentTask, list`index
      ensures Valid() && View() == old(View()).(current := k, cr3 := machine.ram.page[spaces[k].chunk][0])
      ensures list.tasks == old(list.tasks) && list.currentTask == task
    {
      hide AllOk, Represents;
      ChunkInRam(k);
      list.SetCurrent(task, k);
      cr3 := machine.DirectoryEntry(task.pageDirectory);
    }

    lemma ChunkInRam(k: nat)
      requires Valid() && k < |spaces|
      ensures spaces[k].chunk < |machine.ram.page| && machine.Address(spaces[k].chunk) < WRAP
    {
    }

    /** `task_next` and `task_return`. The last two parameters are what the
        processor contributes: see `TaskReturn`. */
    method TaskNext(kernelEsp: u32, fault: Registers)
      requires Valid() && |spaces| > 0 && fault.cs == KERNEL_CODE_SELECTOR
      modifies this`cr3, this`cpu, list`currentTask, list`index
      ensures Valid()
      ensures var w := old(View()); var next := NextIndex(w.current, |w.spaces|);
              next < |w.spaces| == |w.saved| && w.ram.InRam(w.spaces[next].chunk)
              && View() == w.(current := next, cpu := cpu, cr3 := w.ram.page[w.spaces[next].chunk][0])
              && Returned(w.saved[next], cpu) && (IsUser(cpu) <==> UserSelectors(w.saved[next]))
      ensures list.tasks == old(list.tasks)
    {
      hide AllOk, Machine.Valid, Returned, IsUser, UserSelectors;
      var task := list.GetNext();
      ghost var next := NextIndex(list.index, |spaces|);
      ChunkInRam(next);
      TaskSwitch(task, next);
      cpu := TaskReturn(Layout(task.registers), kernelEsp, fault);
      assert task.registers == old(View()).saved[next];
    }

    /** The common part of the interrupts that deschedule: back to the kernel's
        pages, save the current task, go on with the next. */
    method Deschedule(kernelEsp: u32, trap: Trap, fault: Registers)
      requires Valid() && View().UserMode() && fault.cs == KERNEL_CODE_SELECTOR
      modifies this`cr3, this`cpu, list`currentTask, list`index, list.tasks, this`saved
      ensures Valid() && SwitchStep(old(View()), trap, View())
      ensures list.tasks == old(list.tasks)
    {
      hide AllOk, Represents;
      var frame := InterruptEntry(cpu, kernelEsp, trap);
      KernelPage();
      SaveCurrent(frame, kernelEsp, trap);
      TaskNext(kernelEsp, fault);
    }

    /** `task_current_save_state`. */
    method SaveCurrent(frame: seq<u32>, ghost kernelEsp: u32, ghost trap: Trap)
      requires Valid() && |spaces| > 0 && frame == Stack(cpu, kernelEsp, trap)
      modifies list.tasks, this`saved
      ensures Valid() && list.tasks == old(list.tasks)
      ensures old(View()).current < |old(View()).saved|
      ensures View() == old(View()).(saved := old(View()).saved[list.index := SavedAfter(cpu, trap)])
    {
      hide AllOk, Represents;
      list.currentTask.SaveState(frame);
      ghost var k := list.index;
      saved := saved[k := list.currentTask.registers];
      assert forall i: nat | i < |list.tasks| :: i != k ==> list.tasks[i] != list.tasks[k] by {
        list.OnlyAt(list.tasks, k);
      }
      list.SameLinks();
    }

    /** `task_run_first_ever_task`: the first task gets the turn. With freshly
        loaded tasks the system enters user mode and a run can start. */
    method RunFirstEverTask(kernelEsp: u32, fault: Registers)
      requires Valid() && |spaces| > 0 && fault.cs == KERNEL_CODE_SELECTOR
      modifies this`cr3, this`cpu, list`currentTask, list`index
      ensures Valid() && View().Ready() && list.index == 0
      ensures Returned(old(View()).saved[0], cpu)
      ensures View().UserMode() <==> UserSelectors(old(View()).saved[0])
      ensures (forall r | r in old(View()).saved :: AtEntry(r)) ==> Started(View())
      ensures AtEntry(old(View()).saved[0]) ==> Entered(View(), 0)
    {
      hide AllOk, World.UserMode, Started, Entered, AtEntry, Machine.Valid, TaskList.Valid, TaskList.Forward;
      CurrentFacts();
      ghost var w := View();
      ZeroInRam(w);
      TaskSwitch(list.taskHead, 0);
      cpu := TaskReturn(Layout(list.taskHead.registers), kernelEsp, fault);
      EntersUserMode(w, cpu);
    }

    lemma ZeroInRam(w: World)
      requires w.MemoryOk() && |w.spaces| > 0
      ensures w.ram.InRam(w.spaces[0].chunk)
    {
      ChunkCovered(w, 0);
    }

    lemma EntersUserMode(w: World, cpu: Registers)
      requires w.MemoryOk() && |w.spaces| > 0 && Returned(w.saved[0], cpu)
      ensures w.ram.InRam(w.spaces[0].chunk)
      ensures var b := w.(current := 0, cpu := cpu, cr3 := w.ram.page[w.spaces[0].chunk][0]);
              && b.Ready() && (b.UserMode() <==> UserSelectors(w.saved[0]))
              && ((forall r | r in w.saved :: AtEntry(r)) ==> Started(b))
              && (AtEntry(w.saved[0]) ==> Entered(b, 0))
    {
      hide AllOk, Or, Bit, Returned, Entered;
      ChunkCovered(w, 0);
      ResumedIsUserIff(w.saved[0], cpu);
      assert w.saved[0] in w.saved;
      if AtEntry(w.saved[0]) {
        EntersProgram(w.(current := 0, cpu := cpu, cr3 := w.ram.page[w.spaces[0].chunk][0]), w.saved[0]);
      }
    }

    // ----- Interrupts

    /** An interrupt from user code on any vector, through the gate `idt_init` set
        for it: vector 0 goes to `idt_zero`, vector 0x80 to the system calls, all
        others to `interrupt_handler`. It ends in user mode if and only if it is
        not on vector 0 and did not switch to a task without user selectors. */
    method Interrupt(vector: nat, kernelEsp: u32, trap: Trap, commands: map<nat, u32>,
                     scratch: Registers, fault: Registers)
      returns (ghost e: Event)
      requires Valid() && View().UserMode() && vector < TOTAL_INTERRUPTS
      requires trap.Code? ==> PushesErrorCode(vector)
      requires !Bit(scratch.flags, 9) && fault.cs == KERNEL_CODE_SELECTOR
      modifies this, list`currentTask, list`index, list.tasks, processes
      ensures Valid() && View().Ready() && list.tasks == old(list.tasks)
      ensures Step(old(View()), e, View())
      ensures if vector == 0 then e == VectorZero
              else if vector == SYSCALL_INTERRUPT then e.Syscall?
              else e == HandlerEvent(vector, trap)
      ensures View().UserMode() <==> vector != 0 && (IsSwitch(e) ==> UserSelectors(saved[list.index]))
      ensures 1 <= vector <= 0x20 ==>
                && list.index == (if old(list.index) + 1 < |list.tasks| then old(list.index) + 1 else 0) < |list.tasks|
                && list.currentTask == list.tasks[list.index]
                && old(list.index) < |old(saved)| == |list.tasks| == |spaces| && old(spaces) == spaces
                && saved == old(saved)[old(list.index) := SavedAfter(old(cpu), if vector < 0x20 then trap else NoCode)]
                && (vector == 0x20 ==> saved[old(list.index)] == old(cpu))
                && machine.ram.InRam(spaces[list.index].chunk)
                && cr3 == machine.ram.page[spaces[list.index].chunk][0]
                && Returned(saved[list.index], cpu)
      ensures vector > 0x20 && vector != 0x80 ==> View() == old(View())
      ensures vector == 0x80 ==>
                View() == old(View()).(saved := saved, cpu := old(cpu).(eax := cpu.eax))
                && saved == old(saved)[old(list.index) := old(cpu)]
    {
      hide AllOk, World.UserMode, World.Ready, Machine.Valid, TaskList.Valid, Bit, UserSelectors, SparesOthers;
      hide SwitchStep, SavedAfter, Returned, RanIdtZero;
      ghost var w := View();
      if vector == 0 {
        IdtZero(scratch);
        e := VectorZero;
      } else if vector == SYSCALL_INTERRUPT {
        var result := Isr80h(kernelEsp, commands);
        e := Syscall(result);
      } else {
        InterruptHandler(vector, kernelEsp, trap, fault);
        e := HandlerEvent(vector, trap);
      }
      EventKeeps(w, e, View());
    }

    /** `idt_zero`, entered by the processor without a wrapper. `scratch` holds
        what the function leaves in the registers it need not preserve. */
    method IdtZero(scratch: Registers)
      requires Valid() && View().UserMode() && !Bit(scratch.flags, 9)
      modifies this`cpu
      ensures Valid() && Step(old(View()), VectorZero, View())
      ensures View().Ready() && !View().UserMode()
      ensures cpu.ip == old(cpu.ip) && cpu.cs == 0x08 && cpu.ss == 0x10 && cpu.esp == 0x5f_fff0
    {
      hide AllOk, Machine.Valid, TaskList.Valid, Bit;
      ghost var w := View();
      var stack: seq<u32> := [];
      stack := [cpu.ss] + stack;
      stack := [cpu.esp] + stack;
      stack := [cpu.flags] + stack;
      stack := [cpu.cs] + stack;
      stack := [cpu.ip] + stack;
      var esp := KERNEL_STACK_TOP - 4 * |stack|;
      cpu := cpu.(eax := scratch.eax, ecx := scratch.ecx, edx := scratch.edx, flags := scratch.flags,
                  cs := KERNEL_CODE_SELECTOR, ss := KERNEL_DATA_SELECTOR);
      cpu := cpu.(ip := stack[0], esp := esp + 4);
      EventKeeps(w, VectorZero, View());
    }

    /** `interrupt_handler`: exceptions end the process and go on with the next
        task, the clock goes on with the next task, and every other vector
        returns to the same task. A software interrupt on the vector of an
        exception pushes no error code. */
    method InterruptHandler(vector: nat, kernelEsp: u32, trap: Trap, fault: Registers)
      requires Valid() && View().UserMode() && vector < TOTAL_INTERRUPTS
      requires (trap.Code? ==> PushesErrorCode(vector)) && fault.cs == KERNEL_CODE_SELECTOR
      modifies this, list`currentTask, list`index, list.tasks, processes
      ensures Valid() && View().Ready() && list.tasks == old(list.tasks)
      ensures Step(old(View()), HandlerEvent(vector, trap), View())
      ensures View().UserMode() <==> (IsSwitch(HandlerEvent(vector, trap)) ==> UserSelectors(saved[list.index]))
      ensures vector <= 0x20 ==>
                && list.index == (if old(list.index) + 1 < |list.tasks| then old(list.index) + 1 else 0) < |list.tasks|
                && list.currentTask == list.tasks[list.index]
                && old(list.index) < |old(saved)| == |list.tasks| == |spaces| && old(spaces) == spaces
                && saved == old(saved)[old(list.index) := SavedAfter(old(cpu), if vector < 0x20 then trap else NoCode)]
                && (vector == 0x20 ==> saved[old(list.index)] == old(cpu))
                && machine.ram.InRam(spaces[list.index].chunk)
                && cr3 == machine.ram.page[spaces[list.index].chunk][0]
                && Returned(saved[list.index], cpu)
      ensures vector > 0x20 ==> View() == old(View())
      ensures vector >= 0x20 ==> processes[..] == old(processes[..]) && currentProcess == old(currentProcess)
      ensures vector < 0x20 ==>
                var p := old(list.currentTask.process);
                && processes[..] == old(processes[..])[p.id := null]
                && (SparesOthers(old(processes[..]), processes[..], p) <==>
                    old(processes[p.id]) == null || old(processes[p.id]) == p)
    {
      hide AllOk, World.UserMode, World.Ready, SwitchStep, Machine.Valid, TaskList.Valid, Stack, Or;
      hide IsUser, UserSelectors, Popped, SparesOthers, SavedAfter, Returned;
      ghost var w, e := View(), HandlerEvent(vector, trap);
      UserModeFacts(w);
      CurrentFacts();
      if vector < 0x20 {
        HandleException(list.currentTask.process, kernelEsp, trap, fault);
      } else if vector == CLOCK_INTERRUPT {
        Deschedule(kernelEsp, NoCode, fault);
      } else {
        var frame := InterruptEntry(cpu, kernelEsp, NoCode);
        KernelPage();
        TaskPage();
        Leave(frame);
        assert View() == w;
      }
      EventKeeps(w, e, View());
      if vector <= 0x20 {
        TurnPassed(w, if vector < 0x20 then trap else NoCode, View());
        CurrentFacts();
      }
    }

    /** A switch in the words of the task list. */
    lemma TurnPassed(w: World, trap: Trap, b: World)
      requires w.UserMode() && SwitchStep(w, trap, b)
      ensures w.current < |w.spaces| == |w.saved| && b.spaces == w.spaces && b.ram == w.ram
      ensures b.current == (if w.current + 1 < |w.spaces| then w.current + 1 else 0) < |b.spaces| == |b.saved|
      ensures b.saved == w.saved[w.current := SavedAfter(w.cpu, trap)]
      ensures trap.NoCode? ==> b.saved[w.current] == w.cpu
      ensures b.ram.InRam(b.spaces[b.current].chunk) && b.cr3 == b.ram.page[b.spaces[b.current].chunk][0]
      ensures Returned(b.saved[b.current], b.cpu)
    {
      hide AllOk, Returned;
      ChunkCovered(b, b.current);
    }

    /** `idt_handle_exception`: the process of the current task ends, the next
        task goes on. */
    method HandleException(process: Process, kernelEsp: u32, trap: Trap, fault: Registers)
      requires Valid() && View().UserMode() && process.id < MAX_PROCESSES && fault.cs == KERNEL_CODE_SELECTOR
      modifies this, list`currentTask, list`index, list.tasks, processes
      ensures Valid() && SwitchStep(old(View()), trap, View()) && list.tasks == old(list.tasks)
      ensures processes.Length == MAX_PROCESSES && processes[..] == old(processes[..])[process.id := null]
      ensures SparesOthers(old(processes[..]), processes[..], process) <==>
              old(processes[process.id]) == null || old(processes[process.id]) == process
    {
      hide AllOk, World.UserMode, SwitchStep, Machine.Valid, TaskList.Valid, SparesOthers;
      TerminateKeeps(process);
      Deschedule(kernelEsp, trap, fault);
    }

    /** Ending a process changes nothing but the process table. */
    method TerminateKeeps(process: Process)
      requires Valid() && process.id < MAX_PROCESSES
      modifies this`currentProcess, processes
      ensures Valid() && View() == old(View()) && list.tasks == old(list.tasks)
      ensures processes[..] == old(processes[..])[process.id := null]
      ensures SparesOthers(old(processes[..]), processes[..], process) <==>
              old(processes[process.id]) == null || old(processes[process.id]) == process
    {
      hide AllOk, Represents, SparesOthers, TaskList.Forward, AnyProcess;
      ProcessTerminate(process);
    }

    /** The event of the state machine that `interrupt_handler` is. */
    function HandlerEvent(vector: nat, trap: Trap): Event {
      if vector < 0x20 then Fault(trap) else if vector == CLOCK_INTERRUPT then Clock else Ignored
    }

    lemma CurrentFacts()
      requires Valid() && |spaces| > 0
      ensures list.index < |list.tasks| && list.currentTask == list.tasks[list.index] && list.taskHead == list.tasks[0]
      ensures list.currentTask.process.id < MAX_PROCESSES == processes.Length
    {
      hide AllOk, Machine.Valid;
    }

    lemma UserModeFacts(w: World)
      requires w.UserMode()
      ensures w.current < |w.spaces| == |w.saved| && w.ram.InRam(w.spaces[w.current].chunk)
      ensures w.cr3 == w.ram.page[w.spaces[w.current].chunk][0]
      ensures IsUser(w.cpu) && Popped(w.cpu) == w.cpu
    {
    }

    /** The end of an interrupt wrapper: the registers come from the frame. */
    method Leave(frame: seq<u32>)
      requires Valid() && |frame| == 13
      modifies this`cpu
      ensures Valid()
      ensures forall r: Registers, k: u32 :: frame == Stack(r, k, NoCode) ==> View() == old(View()).(cpu := Popped(r))
    {
      hide AllOk, Machine.Valid, TaskList.Valid, Stack, Popped;
      cpu := InterruptExit(frame);
    }

    /** The wrapper of a system call then moves the result into eax. */
    method LeaveResult(result: u32)
      requires Valid()
      modifies this`cpu
      ensures Valid() && View() == old(View()).(cpu := old(cpu).(eax := result))
    {
      hide AllOk, Machine.Valid, TaskList.Valid;
      cpu := cpu.(eax := result);
    }

    /** `task_page`: back to the current task's pages. */
    method TaskPage()
      requires Valid() && |spaces| > 0
      modifies this`cr3, list`currentTask, list`index
      ensures Valid() && View() == old(View()).(cr3 := machine.ram.page[spaces[list.index].chunk][0])
      ensures list.tasks == old(list.tasks) && list.index == old(list.index)
    {
      hide AllOk, Represents;
      TaskSwitch(list.currentTask, list.index);
    }

    /** `isr80h_handler` with the wrapper around it: the caller gets the result
        of the command named by eax in eax, and nothing else changes for it. */
    method Isr80h(kernelEsp: u32, commands: map<nat, u32>) returns (result: u32)
      requires Valid() && View().UserMode()
      modifies this`cr3, this`cpu, list`currentTask, list`index, list.tasks, this`saved
      ensures Valid() && View().UserMode() && list.tasks == old(list.tasks)
      ensures Step(old(View()), Syscall(result), View())
      ensures result == if old(cpu.eax) < 1024 && old(cpu.eax) in commands
                        then commands[old(cpu.eax)] else 0
    {
      hide AllOk, World.UserMode, Machine.Valid, TaskList.Valid, Stack, Or, Popped;
      ghost var w := View();
      UserModeFacts(w);
      CurrentFacts();
      var frame := InterruptEntry(cpu, kernelEsp, NoCode);
      KernelPage();
      SaveCurrent(frame, kernelEsp, NoCode);
      result := if cpu.eax < MAX_ISR80H_COMMANDS && cpu.eax in commands then commands[cpu.eax] else 0;
      TaskPage();
      assert View() == w.(saved := w.saved[w.current := w.cpu]);
      Leave(frame);
      LeaveResult(result);
      EventKeeps(w, Syscall(result), View());
    }

    /** A store by user code, as the processor carries it out through the page
        tables: it succeeds exactly in the task's own program and stack. */
    method UserStore(virt: u32, v: u32, after: Registers) returns (stored: bool)
      requires Valid() && View().UserMode() && virt % 4 == 0 && IsUser(after)
      modifies this`cpu, machine`ram
      ensures Valid() && View().UserMode()
      ensures stored <==> InStack(virt / PAGE_SIZE) || InProgram(spaces[list.index], virt / PAGE_SIZE)
      ensures stored ==> Step(old(View()), Store(virt, v), View())
      ensures !stored ==> View() == old(View())
    {
      hide Heap.Valid, TaskList.Valid, Or, And, Mapped, Backed, SwitchStep;
      var q := virt / PAGE_SIZE;
      ghost var w, s := View(), spaces[list.index];
      ghost var dir: nat := w.Dir();
      WritableExactly(w.ram, w.live, s, q);
      var entry := machine.Load(cr3, q / ENTRIES);
      PageMask(entry);
      assert w.ram.InRam(w.ram.TableOf(dir, q / ENTRIES));
      if !WritableBits(entry) {
        return false;
      }
      var pte := machine.Load(And(entry, 0xffff_f000), q % ENTRIES);
      if !WritableBits(pte) {
        return false;
      }
      UserStoreKeeps(w.ram, w.live, w.spaces, w.current, q, virt % PAGE_SIZE / 4, v);
      PageMask(pte);
      machine.Store(And(pte, 0xffff_f000), virt % PAGE_SIZE / 4, v, Target(w.ram, s, q));
      cpu := after;
      stored := true;
      assert Step(w, Store(virt, v), View());
      EventKeeps(w, Store(virt, v), View());
    }

    // ----- The process table

    /** `process_get_free_slot`: the lowest empty slot. */
    method GetFreeSlot() returns (slot: int)
      requires processes.Length == MAX_PROCESSES
      ensures slot == -8 <==> forall i: nat | i < 12 :: processes[i] != null
      ensures slot != -8 ==>
                0 <= slot < MAX_PROCESSES && processes[slot] == null && forall i | 0 <= i < slot :: processes[i] != null
    {
      for i := 0 to MAX_PROCESSES
        invariant forall j | 0 <= j < i :: processes[j] != null
      {
        if processes[i] == null {
          return i;
        }
      }
      return -EISTKN;
    }

    /** `process_switch_to_any`: the process in the lowest slot in use. */
    method ProcessSwitchToAny()
      requires processes.Length == MAX_PROCESSES
      modifies this`currentProcess
      ensures currentProcess == AnyProcess(processes[..], old(currentProcess))
    {
      for i := 0 to MAX_PROCESSES
        invariant AnyProcess(processes[..], currentProcess) == AnyProcess(processes[i..], currentProcess)
        invariant currentProcess == old(currentProcess)
      {
        if processes[i] != null {
          currentProcess := processes[i];
          return;
        }
        assert processes[i..][1..] == processes[i + 1..];
      }
    }

    /** The first process of a table, or the given one if it is empty. */
    static function AnyProcess(table: seq<Process?>, default: Process?): (p: Process?)
      ensures (forall i | 0 <= i < |table| :: table[i] == null) ==> p == default
      ensures forall i | 0 <= i < |table| && table[i] != null && (forall j | 0 <= j < i :: table[j] == null) ::
                p == table[i]
    {
      if |table| == 0 then default
      else if table[0] != null then table[0]
      else
        assert forall j | 0 <= j < |table| - 1 :: table[1..][j] == table[j + 1];
        AnyProcess(table[1..], default)
    }

    /** No process but `p` left the table. */
    static predicate SparesOthers(before: seq<Process?>, after: seq<Process?>, p: Process) {
      && |before| == |after|
      && forall i | 0 <= i < |before| && before[i] != null && before[i] != p :: after[i] == before[i]
    }

    /** `process_terminate`, whose freeing half is not written yet: the process
        leaves the table, and another one becomes the current process. Its task
        stays queued, so that its slot may by then hold another process, which
        leaves the table in its place. */
    method ProcessTerminate(process: Process)
      requires processes.Length == MAX_PROCESSES && process.id < MAX_PROCESSES
      modifies this`currentProcess, processes
      ensures processes[..] == old(processes[..])[process.id := null]
      ensures currentProcess == if old(currentProcess) != process then old(currentProcess)
                                else AnyProcess(processes[..], process)
      ensures SparesOthers(old(processes[..]), processes[..], process) <==>
              old(processes[process.id]) == null || old(processes[process.id]) == process
    {
      processes[process.id] := null;
      if currentProcess == process {
        ProcessSwitchToAny();
      }
    }

    // ----- The kernel's other allocations

    /** `kzalloc` for anything but a process. */
    method KernelZalloc(size: u32) returns (ptr: u32)
      requires Valid() && machine.heap.CanServe(size) && 0 < size <= WRAP - PAGE_SIZE
      modifies machine`ram, machine.heap`live, machine.heap.table
      ensures Valid() && (ptr != 0 ==> KernelHeapStep(old(View()), View())) && (ptr == 0 ==> View() == old(View()))
    {
      hide AllOk, TaskList.Valid, Zeroed, Represents, KernelHeapStep;
      ghost var w, t, n := View(), machine.heap.table[..], BlocksFor(size);
      BlocksForExact(size);
      ghost var block;
      ptr, block := machine.Kzalloc(size);
      if ptr != 0 {
        TakeGrows(t, w.live, block, n);
        ZeroedFrame(w.ram, machine.ram, block, n, size, (size + 3) / 4);
        GrewIsHeapStep(w, machine.ram, machine.heap.live, block, n);
      }
    }

    /** `kfree` of an allocation that belongs to no task. */
    method KernelFree(ptr: u32, ghost block: nat)
      requires Valid() && block < |machine.ram.page| && ptr == machine.Address(block) && block in machine.heap.live
      requires forall i: nat | i < |spaces| ::
                 SpaceOk(machine.ram, machine.heap.live, spaces[i]) && block !in Keys(machine.ram, spaces[i])
      modifies machine.heap`live, machine.heap.table
      ensures Valid() && KernelHeapStep(old(View()), View())
    {
      hide AllOk, TaskList.Valid, Represents, KernelHeapStep, SpaceOk, Keys;
      ghost var w := View();
      machine.Kfree(ptr, block);
      machine.HeapFacts();
      FreeIsHeapStep(w, block);
    }

    // ----- Loading

    /** `process_load_data`: a binary is read into pages of its own; an ELF file
        is left alone. */
    method LoadData(program: Program, ghost rest: seq<nat>) returns (ptr: u32, ghost block: nat)
      requires machine.Valid() && program.Valid() && Serves(machine.heap.table[..], program.Requests() + rest)
      modifies machine`ram, machine.heap`live, machine.heap.table
      ensures machine.Valid() && Serves(machine.heap.table[..], rest)
      ensures FreeCount(machine.heap.table[..]) == FreeCount(old(machine.heap.table[..])) - program.Pages()
      ensures if program.Binary?
              then Grew(old(machine.ram), old(machine.heap.live), machine.ram, machine.heap.live,
                        block, program.Pages())
                   && ptr == machine.Address(block) && block + |program.image| <= |machine.ram.page|
                   && machine.ram.page[block..block + |program.image|] == program.image
              else machine.ram == old(machine.ram) && machine.heap.live == old(machine.heap.live) && block == 0
    {
      hide Represents, Grew, Zeroed, RamByte, RamWord;
      ptr, block := 0, 0;
      assert program.Elf? ==> program.Requests() + rest == rest;
      if program.Binary? {
        ghost var ram0, live0 := machine.ram, machine.heap.live;
        ptr, block := machine.KzallocRun(program.size, rest);
        GrewRoom(ram0, live0, machine.ram, machine.heap.live, block, program.Pages());
        machine.WritePages(ptr, program.image, block);
      }
    }

    /** The allocations of `process_load_for_slot` before the task is created:
        the process itself, the program's pages and the stack. */
    method AllocateProcess(program: Program) returns (ptr: u32, stack: u32, ghost s: Space)
      requires machine.Valid() && AllOk(machine.ram, machine.heap.live, spaces)
      requires program.Valid() && RoomFor(machine.heap.table[..], program)
      modifies machine`ram, machine.heap`live, machine.heap.table
      ensures machine.Valid() && FreeCount(machine.heap.table[..]) >= 1 + 1026
      ensures machine.ram.base == old(machine.ram.base)
      ensures AllOk(machine.ram, machine.heap.live, spaces)
      ensures Extends(old(machine.ram), old(machine.heap.live), machine.ram, machine.heap.live)
      ensures ReadyToMap(machine.ram, machine.heap.live, spaces, s) && s.programPages == program.Pages()
      ensures NewData(old(machine.heap.live), machine.ram, machine.heap.live, s)
      ensures s.program + s.programPages <= |machine.ram.page|
      ensures stack == machine.Address(s.stack) && (program.Binary? ==> ptr == machine.Address(s.program))
      ensures program.Binary? ==> machine.ram.page[s.program..s.program + |program.image|] == program.image
    {
      hide AllOk, Represents, Grew, Extends, Zeroed, SpaceOk, Keys, ReadyToMap, NewData, Serves;
      hide FreeCount, HasRun, Heap.Valid, TaskList.Valid, Mapped, RamByte, RamWord;
      ghost var pages := program.Pages();
      ghost var ram0, live0 := machine.ram, machine.heap.live;
      assert RunsToLoad(program) == [3] + (program.Requests() + [STACK_PAGES]) && [STACK_PAGES] + [] == [STACK_PAGES];
      assert BlocksFor(SIZEOF_PROCESS) == 3 && BlocksFor(USER_STACK_SIZE) == STACK_PAGES;
      var _, b := machine.KzallocRun(SIZEOF_PROCESS, program.Requests() + [STACK_PAGES]);
      GrewKeeps(ram0, live0, machine.ram, machine.heap.live, spaces, b, 3);
      ghost var ram1, live1 := machine.ram, machine.heap.live;
      ghost var pb: nat;
      ptr, pb := LoadData(program, [STACK_PAGES]);
      ghost var ram2, live2 := machine.ram, machine.heap.live;
      ghost var sb: nat;
      stack, sb := machine.KzallocRun(USER_STACK_SIZE, []);
      s := Space(0, pb, pages, sb);
      ProcessReady(ram1, live1, ram2, live2, machine.ram, machine.heap.live, spaces, s);
      NewSinceBefore(ram0, live0, ram1, live1, machine.ram, machine.heap.live, s);
      ExtendsTrans(ram0, live0, ram1, live1, machine.ram, machine.heap.live);
    }

    /** `task_new` with `task_init`: a directory of its own, the entry point and
        stack of a program, and the last place in the list. */
    method TaskNew(process: Process)
      returns (task: Task, ghost c: nat, ghost ram1: Ram, ghost live1: Live, ghost block: nat)
      requires machine.Valid() && list.Valid() && FreeCount(machine.heap.table[..]) >= 1 + 1026
      modifies machine`ram, machine.heap`live, machine.heap.table
      modifies list, if |list.tasks| > 0 then {list.tasks[|list.tasks| - 1]} else {}
      ensures machine.Valid() && list.Valid() && fresh(task) && list.tasks == old(list.tasks) + [task]
      ensures list.index == old(list.index)
      ensures forall t | t in old(list.tasks) ::
                t.registers == old(t.registers) && t.pageDirectory == old(t.pageDirectory)
      ensures task.process == process && task.registers == INITIAL_REGISTERS && task.pageDirectory == machine.Address(c)
      ensures AtEntry(task.registers)
      ensures Grew(old(machine.ram), old(machine.heap.live), ram1, live1, block, 1)
      ensures FreshDirectory(ram1, live1, machine.ram, machine.heap.live, c, TASK_FLAGS)
    {
      hide Represents, Grew, FreshDirectory, Zeroed, RamByte, RamWord;
      var _, b := machine.KzallocPage(SIZEOF_TASK);
      ram1, live1, block := machine.ram, machine.heap.live, b;
      machine.HeapFacts();
      OneBlockGrew(old(machine.ram), old(machine.heap.live), ram1, live1, b);
      var pageDirectory, chunk := machine.PagingNew4gb(TASK_FLAGS);
      c := chunk;
      task := new Task(process, pageDirectory, INITIAL_REGISTERS);
      list.Append(task);
    }

    /** `process_map_memory`: a binary's pages from 0x400000 on, then the stack
        below it. An ELF process maps its stack only. */
    method ProcessMapMemory(pageDirectory: u32, program: Program, ptr: u32, stack: u32, ghost s: Space)
      requires machine.Valid() && IsChunk(machine.ram, s.chunk) && pageDirectory == machine.Address(s.chunk)
      requires program.Valid() && s.programPages == program.Pages()
      requires if program.Binary? then ptr == machine.Address(s.program) else s.program == 0
      requires stack == machine.Address(s.stack)
      requires s.program + s.programPages <= |machine.ram.page| && s.stack + STACK_PAGES <= |machine.ram.page|
      modifies machine`ram
      ensures machine.Valid() && machine.ram.base + s.program < PAGES && machine.ram.base + s.stack < PAGES
      ensures machine.ram == MapMemory(old(machine.ram), s)
    {
      hide Heap.Valid, Or, And, IsChunk, OwnedBlocks, Ram.MapPages, AlignAddress;
      machine.HeapFacts();
      ghost var image := MapProgram(machine.ram, s);
      if program.Binary? {
        AlignedEnd(ptr, program.size);
        var _ := machine.PagingMapTo(pageDirectory, PROGRAM_VIRTUAL_ADDRESS, ptr, AlignAddress(ptr + program.size),
                                     USER_FLAGS, s.chunk);
      } else {
        MapNothing(machine.ram, s);
      }
      assert machine.ram == image;
      AlignedEnd(stack, USER_STACK_SIZE);
      var _ := machine.PagingMapTo(pageDirectory, STACK_VIRTUAL_ADDRESS_END, stack,
                                   AlignAddress(stack + USER_STACK_SIZE), USER_FLAGS, s.chunk);
      assert machine.ram == MapStack(image, s);
    }

    /** `process_load_for_slot` up to the mapping of its memory: allocate, and
        create the task. */
    method CreateProcess(slot: nat, program: Program)
      returns (process: Process, task: Task, ghost s: Space, ghost ram1: Ram, ghost live1: Live, ghost ram2: Ram)
      requires Valid() && slot < MAX_PROCESSES && program.Valid()
      requires RoomFor(machine.heap.table[..], program)
      modifies machine`ram, machine.heap`live, machine.heap.table
      modifies list, if |list.tasks| > 0 then {list.tasks[|list.tasks| - 1]} else {}
      ensures machine.Valid() && list.Valid() && fresh(task) && list.tasks == old(list.tasks) + [task]
      ensures list.index == old(list.index)
      ensures forall t | t in old(list.tasks) ::
                t.registers == old(t.registers) && t.pageDirectory == old(t.pageDirectory)
      ensures fresh(process) && process.id == slot && process.task == task && task.process == process
      ensures process.stack == machine.Address(s.stack)
      ensures program.Binary? ==> process.ptr == machine.Address(s.program) && process.size == program.size
      ensures task.registers == INITIAL_REGISTERS && task.pageDirectory == machine.Address(s.chunk)
      ensures Staged(old(machine.ram), old(machine.heap.live), ram1, live1, ram2, machine.heap.live, s)
      ensures IsChunk(ram2, s.chunk) && ram2.base + s.program < PAGES && ram2.base + s.stack < PAGES
      ensures machine.ram == ram2 && s.program + s.programPages <= |ram2.page| && s.stack + STACK_PAGES <= |ram2.page|
      ensures s.programPages == program.Pages() && (program.Elf? ==> s.program == 0)
      ensures AllOk(MapMemory(ram2, s), machine.heap.live, spaces + [s])
      ensures program.Binary? ==> MapMemory(ram2, s).page[s.program..s.program + |program.image|] == program.image
    {
      hide Machine.Valid, TaskList.Valid, AllOk, ReadyToMap, NewData, Staged, Grew, FreshDirectory, Extends, MapMemory;
      hide IsChunk, Or;
      ghost var ram0, live0 := machine.ram, machine.heap.live;
      var ptr, stack, s0 := AllocateProcess(program);
      process := new Process(slot, ptr, if program.Binary? then program.size else 0, stack);
      ghost var ramA, liveA := machine.ram, machine.heap.live;
      var t, c, ramB, liveB, b := TaskNew(process);
      task, ram1, live1, ram2 := t, ramB, liveB, machine.ram;
      process.task := task;
      s := s0.(chunk := c);
      ReadyIgnoresChunk(ramA, liveA, spaces, s0, c);
      NewDataIgnoresChunk(live0, ramA, liveA, s0, c);
      machine.HeapFacts();
      LoadedSpace(ram0, live0, ramA, liveA, ram1, live1, ram2, machine.heap.live, spaces, s, b);
    }

    /** The body of `process_load_for_slot` up to the process table. */
    method LoadProcess(slot: nat, program: Program)
      returns (process: Process, task: Task, ghost s: Space, ghost ram1: Ram, ghost live1: Live, ghost ram2: Ram)
      requires Valid() && slot < MAX_PROCESSES && program.Valid()
      requires RoomFor(machine.heap.table[..], program)
      modifies machine`ram, machine.heap`live, machine.heap.table
      modifies list, if |list.tasks| > 0 then {list.tasks[|list.tasks| - 1]} else {}
      ensures machine.Valid() && list.Valid() && fresh(task) && list.tasks == old(list.tasks) + [task]
      ensures list.index == old(list.index)
      ensures forall t | t in old(list.tasks) ::
                t.registers == old(t.registers) && t.pageDirectory == old(t.pageDirectory)
      ensures fresh(process) && process.id == slot && process.task == task && task.process == process
      ensures process.stack == machine.Address(s.stack)
      ensures program.Binary? ==> process.ptr == machine.Address(s.program) && process.size == program.size
      ensures task.registers == INITIAL_REGISTERS && task.pageDirectory == machine.Address(s.chunk)
      ensures Staged(old(machine.ram), old(machine.heap.live), ram1, live1, ram2, machine.heap.live, s)
      ensures IsChunk(ram2, s.chunk) && ram2.base + s.program < PAGES && ram2.base + s.stack < PAGES
      ensures AllOk(machine.ram, machine.heap.live, spaces + [s]) && machine.ram.base == old(machine.ram.base)
      ensures machine.ram == MapMemory(ram2, s)
      ensures s.programPages == program.Pages() && s.program + s.programPages <= |machine.ram.page|
      ensures program.Binary? ==> machine.ram.page[s.program..s.program + |program.image|] == program.image
    {
      hide TaskList.Valid, Heap.Valid, AllOk, Staged, MapMemory, IsChunk, Or;
      process, task, s, ram1, live1, ram2 := CreateProcess(slot, program);
      ProcessMapMemory(task.pageDirectory, program, process.ptr, process.stack, s);
    }

    /** `process_load_for_slot`, when the memory for the process is there: the
        slot is taken, or the process is loaded and its task queued last. */
    method LoadForSlot(slot: nat, program: Program) returns (res: int, process: Process?)
      requires Valid() && slot < MAX_PROCESSES && program.Valid()
      requires processes[slot] == null ==> RoomFor(machine.heap.table[..], program)
      modifies this`spaces, this`saved, machine`ram, machine.heap`live, machine.heap.table, processes
      modifies list, if |list.tasks| > 0 then {list.tasks[|list.tasks| - 1]} else {}
      ensures Valid()
      ensures old(processes[slot]) != null ==>
                res == -8 && process == null && View() == old(View()) && processes[..] == old(processes[..])
      ensures old(processes[slot]) == null ==>
                && res == 0 && process != null && process.id == slot
                && processes[..] == old(processes[..])[slot := process]
                && LoadStep(old(View()), View())
                && process.task == list.tasks[|list.tasks| - 1]
                && process.stack == machine.Address(spaces[|spaces| - 1].stack)
                && |saved| == |old(saved)| + 1 && saved[..|old(saved)|] == old(saved) && AtEntry(saved[|old(saved)|])
      ensures old(processes[slot]) == null && program.Binary? ==>
                var s := spaces[|spaces| - 1];
                && process.ptr == machine.Address(s.program) && process.size == program.size
                && s.programPages == |program.image| && s.program + s.programPages <= |machine.ram.page|
                && machine.ram.page[s.program..s.program + |program.image|] == program.image
    {
      hide Machine.Valid, TaskList.Valid, AllOk, Staged, MapMemory, LoadStep;
      if processes[slot] != null {
        return -EISTKN, null;
      }
      ghost var w := View();
      var p, task, s, ram1, live1, ram2 := LoadProcess(slot, program);
      process := p;
      spaces := spaces + [s];
      saved := saved + [INITIAL_REGISTERS];
      processes[slot] := process;
      res := 0;
      assert LoadStep(w, View()) by { LoadIsStep(w, View(), ram1, live1, ram2, s); }
    }
  }

  lemma OneBlockGrew(ram0: Ram, live0: Live, ram: Ram, live: Live, block: nat)
    requires ram.base == ram0.base && |ram.page| == |ram0.page| && block < |ram.page|
    requires block !in live0 && !Covered(live0, block) && live == live0[block := 1] && Tiled(live, |ram.page|)
    requires forall b: nat | b < |ram.page| && b != block :: ram.page[b] == ram0.page[b]
    ensures Grew(ram0, live0, ram, live, block, 1)
  {
  }

  lemma MapNothing(ram: Ram, s: Space)
    requires IsChunk(ram, s.chunk) && ram.base + s.program < PAGES && s.programPages == 0
    ensures MapProgram(ram, s) == ram
  {
  }

  /** Aligning the end of an allocation gives the end of its last block. */
  lemma AlignedEnd(ptr: u32, size: u32)
    requires IsAligned(ptr) && 0 < size <= WRAP - PAGE_SIZE && ptr + BlocksFor(size) * PAGE_SIZE < WRAP
    ensures ptr + size < WRAP && AlignAddress(ptr + size) == ptr + BlocksFor(size) * PAGE_SIZE
  {
    BlocksForExact(size);
  }

  lemma NewSinceBefore(ram0: Ram, live0: Live, ram1: Ram, live1: Live, ram: Ram, live: Live, s: Space)
    requires Extends(ram0, live0, ram1, live1) && NewData(live1, ram, live, s)
    ensures NewData(live0, ram, live, s)
  {
  }

  lemma NewDataIgnoresChunk(live0: Live, ram: Ram, live: Live, s: Space, c: nat)
    requires NewData(live0, ram, live, s)
    ensures NewData(live0, ram, live, s.(chunk := c))
  {
    assert DataKeys(s.(chunk := c)) == DataKeys(s);
  }

  lemma NewDataGrows(live0: Live, ram1: Ram, live1: Live, ram: Ram, live: Live, s: Space)
    requires NewData(live0, ram1, live1, s) && Extends(ram1, live1, ram, live)
    ensures NewData(live0, ram, live, s)
  {
  }

  /** The whole of a load, from before its first allocation to after its last
      mapping. */
  lemma LoadedSpace(ram0: Ram, live0: Live, ramA: Ram, liveA: Live, ramB: Ram, liveB: Live, ramC: Ram, live: Live,
                    spaces: seq<Space>, s: Space, b: nat)
    requires Extends(ram0, live0, ramA, liveA) && AllOk(ramA, liveA, spaces) && ReadyToMap(ramA, liveA, spaces, s)
    requires NewData(live0, ramA, liveA, s)
    requires Grew(ramA, liveA, ramB, liveB, b, 1)
    requires FreshDirectory(ramB, liveB, ramC, live, s.chunk, TASK_FLAGS) && Tiled(live, |ramC.page|)
    ensures IsChunk(ramC, s.chunk) && ramC.base == ramA.base && |ramC.page| == |ramA.page|
    ensures s.program + s.programPages <= |ramC.page| && s.stack + STACK_PAGES <= |ramC.page|
    ensures s.programPages == 0 ==> s.program == 0
    ensures ramC.base + s.program < PAGES && ramC.base + s.stack < PAGES
    ensures AllOk(MapMemory(ramC, s), live, spaces + [s])
    ensures Staged(ram0, live0, ramB, liveB, ramC, live, s)
    ensures forall b: nat | s.program <= b < s.program + s.programPages :: MapMemory(ramC, s).page[b] == ramA.page[b]
  {
    hide AllOk, Grew, FreshDirectory, MapMemory, IsChunk, NewData;
    FreshIsChunk(ramB, liveB, ramC, live, s.chunk, TASK_FLAGS);
    ReadyGrows(ramA, liveA, ramB, liveB, spaces, s, b, 1);
    LoadKeeps(ramB, liveB, spaces, ramC, live, s);
    ExtendsTrans(ram0, live0, ramA, liveA, ramB, liveB);
    ExtendsTrans(ramA, liveA, ramB, liveB, MapMemory(ramC, s), live);
    NewDataGrows(live0, ramA, liveA, ramB, liveB, s);
    GrewExtends(ramA, liveA, ramB, liveB, b, 1);
    forall b: nat | s.program <= b < s.program + s.programPages
      ensures Covered(liveA, b)
    {
      assert InChain(liveA, s.program, b);
    }
  }

  /** There is room for the new pages, and filling them changes no others. */
  lemma GrewRoom(ram0: Ram, live0: Live, ram: Ram, live: Live, block: nat, n: nat)
    requires Grew(ram0, live0, ram, live, block, n)
    ensures block + n <= |ram.page| && ram.base == ram0.base && |ram.page| == |ram0.page|
    ensures forall r: Ram ::
              r.base == ram.base && |r.page| == |ram.page|
              && (forall b: nat | b < |ram.page| && !(block <= b < block + n) :: r.page[b] == ram.page[b])
              ==> Grew(ram0, live0, r, live, block, n)
  {
  }

  /** After the program's and the stack's allocation the process can be mapped,
      and the program's pages are still as they were read. */
  lemma ProcessReady(ram1: Ram, live1: Live, ram2: Ram, live2: Live, ram3: Ram, live3: Live,
                     spaces: seq<Space>, s: Space)
    requires AllOk(ram1, live1, spaces) && PROGRAM_PAGE + s.programPages <= PAGES
    requires if s.programPages > 0 then Grew(ram1, live1, ram2, live2, s.program, s.programPages)
             else ram2 == ram1 && live2 == live1 && s.program == 0
    requires Grew(ram2, live2, ram3, live3, s.stack, STACK_PAGES)
    ensures AllOk(ram3, live3, spaces) && ReadyToMap(ram3, live3, spaces, s) && NewData(live1, ram3, live3, s)
    ensures Extends(ram1, live1, ram3, live3)
    ensures s.program + s.programPages <= |ram2.page| == |ram3.page|
    ensures forall b: nat | s.program <= b < s.program + s.programPages :: ram3.page[b] == ram2.page[b]
  {
    hide Mapped, Backed, OwnedBlocks;
    if s.programPages > 0 {
      GrewKeeps(ram1, live1, ram2, live2, spaces, s.program, s.programPages);
      forall b: nat | s.program <= b < s.program + s.programPages
        ensures Covered(live2, b)
      {
        assert InChain(live2, s.program, b);
      }
    }
    GrewKeeps(ram2, live2, ram3, live3, spaces, s.stack, STACK_PAGES);
    if s.programPages > 0 {
      ExtendsTrans(ram1, live1, ram2, live2, ram3, live3);
    }
  }
}
