/** The twelve registers of a task, how an interrupt lays them out on the
    kernel stack, and the two routines that save and restore them. */
module Registers {
  import opened Bits

  datatype Registers = Registers(
    edi: u32, esi: u32, ebp: u32, ebx: u32, edx: u32, ecx: u32, eax: u32,
    ip: u32, cs: u32, flags: u32, esp: u32, ss: u32)

  const USER_DATA_SEGMENT: u32 := 0x23
  const USER_CODE_SEGMENT: u32 := 0x1b
  const KERNEL_CODE_SELECTOR: u32 := 0x08
  const KERNEL_DATA_SELECTOR: u32 := 0x10

  /** Where the processor starts to push when it leaves user mode. */
  const KERNEL_STACK_TOP: u32 := 0x60_0000

  const INTERRUPT_FLAG: u32 := 0x200

  /** One more than the largest 16-bit selector. */
  const SELECTORS: u32 := 0x1_0000

  /** The words of `struct registers`, by their index in memory. */
  function Layout(r: Registers): (w: seq<u32>)
    ensures |w| == 12
  {
    [r.edi, r.esi, r.ebp, r.ebx, r.edx, r.ecx, r.eax, r.ip, r.cs, r.flags, r.esp, r.ss]
  }

  /** The words of `struct interrupt_frame`: the same registers, with the
      kernel stack pointer of `pushad` in between and in another order. */
  function Frame(r: Registers, reserved: u32): (w: seq<u32>)
    ensures |w| == 13
  {
    [r.edi, r.esi, r.ebp, reserved, r.ebx, r.edx, r.ecx, r.eax, r.ip, r.cs, r.flags, r.esp, r.ss]
  }

  /** Some processor exceptions push an error code below the return address
      (Intel SDM volume 3A, section 6.13). */
  datatype Trap = NoCode | Code(error: u32)

  predicate PushesErrorCode(vector: nat) {
    vector == 8 || 10 <= vector <= 14 || vector == 17
  }

  /** The words on the kernel stack when an interrupt handler starts. */
  function Stack(r: Registers, reserved: u32, trap: Trap): (w: seq<u32>)
    ensures |w| == if trap.Code? then 14 else 13
  {
    match trap
    case NoCode => Frame(r, reserved)
    case Code(e) => Frame(r, reserved)[..8] + [e] + Frame(r, reserved)[8..]
  }

  /** What `task_save_state` copies out of those words: the interrupted
      registers, unless an error code shifted the last five by one. */
  function SavedAfter(r: Registers, trap: Trap): Registers {
    match trap
    case NoCode => r
    case Code(e) => r.(ip := e, cs := r.ip, flags := r.cs, esp := r.flags, ss := r.esp)
  }

  /** A page fault is not saved faithfully: the task would resume at the error
      code instead of its own instruction. */
  lemma ErrorCodeShiftsFrame(r: Registers)
    requires r.ip == 0x40_0000
    ensures SavedAfter(r, Code(7)) != r && SavedAfter(r, Code(7)).ip == 7
  {
  }

  // ----- Resuming

  /** Registers with which user code runs: interrupts on, and the only code and
      data segments of privilege level 3. */
  predicate IsUser(r: Registers) {
    Bit(r.flags, 9) && r.cs == USER_CODE_SEGMENT && r.ss == USER_DATA_SEGMENT
  }

  /** Selectors `task_return` can resume user code with. Of each word only the
      low half counts; every other value makes the load of `ds` or `iretd`
      fault, or resumes in the kernel's own segment. */
  predicate UserSelectors(r: Registers) {
    r.cs % SELECTORS == USER_CODE_SEGMENT && r.ss % SELECTORS == USER_DATA_SEGMENT
  }

  /** `iret` drops the upper halves of both selectors. */
  function Popped(r: Registers): Registers {
    r.(cs := r.cs % SELECTORS, ss := r.ss % SELECTORS)
  }

  /** What `task_return` loads on its way to user mode: the registers as saved,
      interrupts enabled. */
  function Resumed(r: Registers): Registers {
    OrBelow32(r.flags);
    Popped(r).(flags := Or(r.flags, INTERRUPT_FLAG))
  }

  lemma OrBelow32(a: u32)
    ensures Or(a, INTERRUPT_FLAG) < WRAP
  {
    Pow2Values();
    OrLow(0, a, INTERRUPT_FLAG, 32);
  }

  /** Resuming gives back exactly what was saved if and only if interrupts
      were already enabled and the selectors are no longer than a selector. */
  lemma ResumedExactly(r: Registers)
    ensures Resumed(r) == r <==> Bit(r.flags, 9) && r.cs < SELECTORS && r.ss < SELECTORS
    ensures Bit(Resumed(r).flags, 9)
  {
    Pow2Values();
    OrBit(r.flags, 9);
    OrBitSets(r.flags, 9);
  }

  /** Selectors that `mov ds` takes in the kernel and that can then be read
      through: the kernel's two segments, and the user's data segment at any
      requested level. The user's code segment cannot be read. */
  predicate IsReadable(selector: u32) {
    selector == KERNEL_CODE_SELECTOR || selector == KERNEL_DATA_SELECTOR || 0x20 <= selector <= 0x23
  }

  /** `iretd` stays in the kernel's code segment. */
  predicate StaysInKernel(r: Registers) {
    r.cs % SELECTORS == KERNEL_CODE_SELECTOR && IsReadable(r.ss % SELECTORS)
  }

  /** What `task_return` does with saved registers: it reaches user mode, or it
      goes on in the kernel at the saved ip, keeping the kernel's stack, or
      loading a selector faults and the processor is in some handler. */
  predicate Returned(r: Registers, cpu: Registers) {
    if UserSelectors(r) then cpu == Resumed(r)
    else if StaysInKernel(r) then cpu == Resumed(r).(esp := cpu.esp, ss := KERNEL_DATA_SELECTOR)
    else cpu.cs == KERNEL_CODE_SELECTOR
  }

  /** A task is resumed in user mode if and only if its saved selectors are the
      user ones. */
  lemma ResumedIsUserIff(r: Registers, cpu: Registers)
    requires Returned(r, cpu)
    ensures IsUser(cpu) <==> UserSelectors(r)
  {
    hide Or, Bit;
    ResumedExactly(r);
  }

  /** What the handler of vector 0 leaves behind. It is a C function that the
      processor enters directly: its return takes the pushed ip for its return
      address, so that it goes on where the task was, but in the kernel's
      segments, on the kernel's stack, without interrupts. Only the registers a
      C function may use freely are unknown. */
  predicate RanIdtZero(r: Registers, cpu: Registers) {
    && cpu == r.(eax := cpu.eax, ecx := cpu.ecx, edx := cpu.edx, flags := cpu.flags,
                 cs := KERNEL_CODE_SELECTOR, ss := KERNEL_DATA_SELECTOR, esp := KERNEL_STACK_TOP - 16)
    && !Bit(cpu.flags, 9)
  }

  /** The trap leaves user selectors in the saved frame: it pushed no error
      code, or the two words that move into the selectors' places happen to end
      in them. */
  predicate KeepsSelectors(r: Registers, trap: Trap) {
    trap.NoCode? || (r.ip % SELECTORS == USER_CODE_SEGMENT && r.esp % SELECTORS == USER_DATA_SEGMENT)
  }

  lemma SavedSelectorsIff(r: Registers, trap: Trap)
    requires IsUser(r)
    ensures UserSelectors(SavedAfter(r, trap)) <==> KeepsSelectors(r, trap)
  {
  }

  /** A task resumes as it was interrupted if and only if no error code was
      pushed. */
  lemma ResumesAsInterrupted(r: Registers, trap: Trap)
    requires IsUser(r)
    ensures Resumed(SavedAfter(r, trap)) == r <==> trap.NoCode?
  {
    hide Or;
    ResumedExactly(r);
    Pow2Values();
    OrBit(USER_CODE_SEGMENT, 9);
    assert !Bit(USER_CODE_SEGMENT, 9);
  }

  /** Saving and returning: the registers come back if and only if no error code
      was pushed, user mode if and only if the selectors were kept. */
  lemma ReturnsAsInterrupted(r: Registers, trap: Trap, cpu: Registers)
    requires IsUser(r) && Returned(SavedAfter(r, trap), cpu)
    ensures cpu == r <==> trap.NoCode?
    ensures IsUser(cpu) <==> KeepsSelectors(r, trap)
  {
    hide Or, Bit, Resumed, SavedAfter, Returned, IsUser;
    ResumesAsInterrupted(r, trap);
    SavedSelectorsIff(r, trap);
    ResumedIsUserIff(SavedAfter(r, trap), cpu);
    if UserSelectors(SavedAfter(r, trap)) {
      UserReturn(SavedAfter(r, trap), cpu);
    }
  }

  lemma UserReturn(r: Registers, cpu: Registers)
    requires Returned(r, cpu) && UserSelectors(r)
    ensures cpu == Resumed(r)
  {
  }

  /** What the processor and `pushad` push when an interrupt arrives in user
      mode; the stack grows down, so the last push comes first. */
  method InterruptEntry(cpu: Registers, kernelEsp: u32, trap: Trap) returns (stack: seq<u32>)
    ensures stack == Stack(cpu, kernelEsp, trap)
    ensures stack[..8] == [cpu.edi, cpu.esi, cpu.ebp, kernelEsp, cpu.ebx, cpu.edx, cpu.ecx, cpu.eax]
    ensures stack[8..] == (if trap.Code? then [trap.error] else []) + [cpu.ip, cpu.cs, cpu.flags, cpu.esp, cpu.ss]
  {
    stack := [];
    stack := [cpu.ss] + stack;
    stack := [cpu.esp] + stack;
    stack := [cpu.flags] + stack;
    stack := [cpu.cs] + stack;
    stack := [cpu.ip] + stack;
    assert stack == Frame(cpu, kernelEsp)[8..];
    if trap.Code? {
      stack := [trap.error] + stack;
    }
    ghost var pushed := stack;
    stack := [cpu.eax] + stack;
    stack := [cpu.ecx] + stack;
    stack := [cpu.edx] + stack;
    stack := [cpu.ebx] + stack;
    stack := [kernelEsp] + stack;
    stack := [cpu.ebp] + stack;
    stack := [cpu.esi] + stack;
    stack := [cpu.edi] + stack;
    assert stack == Frame(cpu, kernelEsp)[..8] + pushed;
  }

  /** `popad` and `iret`: back into the interrupted code. */
  method InterruptExit(stack: seq<u32>) returns (cpu: Registers)
    requires |stack| == 13
    ensures forall r: Registers, k: u32 :: stack == Stack(r, k, NoCode) ==> cpu == Popped(r)
  {
    cpu := Registers(stack[0], stack[1], stack[2], stack[4], stack[5], stack[6], stack[7],
                     stack[8], stack[9] % SELECTORS, stack[10], stack[11], stack[12] % SELECTORS);
  }

  /** `restore_general_purpose_registers`, from the word offsets it uses. */
  method RestoreGeneralPurposeRegisters(regs: seq<u32>)
    returns (edi: u32, esi: u32, ebp: u32, ebx: u32, edx: u32, ecx: u32, eax: u32)
    requires |regs| == 12
    ensures forall r: Registers :: regs == Layout(r) ==>
              && edi == r.edi && esi == r.esi && ebp == r.ebp && ebx == r.ebx
              && edx == r.edx && ecx == r.ecx && eax == r.eax
  {
    edi := regs[0 / 4];
    esi := regs[4 / 4];
    ebp := regs[8 / 4];
    edx := regs[16 / 4];
    ecx := regs[20 / 4];
    eax := regs[24 / 4];
    ebx := regs[12 / 4];
  }

  /** `task_return`: loads the data segment registers, builds an interrupt
      return frame from the saved words and leaves through `iretd`. `esp` is the
      kernel's stack pointer, `fault` what the processor has in its registers
      when it enters the handler of a fault on the way. */
  method TaskReturn(regs: seq<u32>, esp: u32, fault: Registers) returns (cpu: Registers)
    requires |regs| == 12 && fault.cs == 0x08
    ensures forall r: Registers :: regs == Layout(r) ==> Returned(r, cpu) && (IsUser(cpu) <==> UserSelectors(r))
    ensures var cs, ss := regs[8] % 0x1_0000, regs[11] % 0x1_0000;
            if cs == 0x1b && ss == 0x23
            then cpu.ip == regs[7] && cpu.cs == 0x1b && cpu.esp == regs[10] && cpu.ss == 0x23 && cpu.eax == regs[6]
            else if cs == 0x08 && (ss in {0x08, 0x10} || 0x20 <= ss <= 0x23)
            then cpu.ip == regs[7] && cpu.cs == 0x08 && cpu.esp == esp && cpu.ss == 0x10 && cpu.eax == regs[6]
            else cpu == fault
  {
    var stack: seq<u32> := [];
    stack := [regs[44 / 4]] + stack;
    stack := [regs[40 / 4]] + stack;
    OrBelow32(regs[36 / 4]);
    var flags := Or(regs[36 / 4], INTERRUPT_FLAG);
    stack := [flags] + stack;
    stack := [regs[32 / 4]] + stack;
    stack := [regs[28 / 4]] + stack;
    var ds := regs[44 / 4] % SELECTORS;
    var edi, esi, ebp, ebx, edx, ecx, eax := RestoreGeneralPurposeRegisters(regs);
    var cs := stack[1] % SELECTORS;
    if !IsReadable(ds) {
      cpu := fault;
    } else if cs == USER_CODE_SEGMENT && stack[4] % SELECTORS == USER_DATA_SEGMENT {
      cpu := Registers(edi, esi, ebp, ebx, edx, ecx, eax, stack[0], cs, stack[2], stack[3], stack[4] % SELECTORS);
    } else if cs == KERNEL_CODE_SELECTOR {
      cpu := Registers(edi, esi, ebp, ebx, edx, ecx, eax, stack[0], cs, stack[2], esp, KERNEL_DATA_SELECTOR);
    } else {
      cpu := fault;
    }
    assert regs == Layout(Registers(regs[0], regs[1], regs[2], regs[3], regs[4], regs[5], regs[6],
                                    regs[7], regs[8], regs[9], regs[10], regs[11]));
    forall r: Registers | regs == Layout(r)
      ensures Returned(r, cpu) && (IsUser(cpu) <==> UserSelectors(r))
    {
      assert regs[7] == r.ip && regs[8] == r.cs && regs[9] == r.flags && regs[10] == r.esp && regs[11] == r.ss;
      ResumedIsUserIff(r, cpu);
    }
  }
}
