/**
 The context switch on one processor: interrupt entry, task_save_state
 (src/task/task.c) and task_return (src/task/task.asm), instruction by
 instruction on a word-addressed physical memory, through the page directory that
 is loaded at each of them.  The kernel runs on the same stack addresses under the
 directory of a task and under its own, so it needs both to leave them in place.
 */
module Context {
  import opened Common
  import opened Bits
  import opened TaskRegisters

  type Memory = map<int, word>

  /** struct registers at address a: twelve words in declaration order. */
  predicate StructIn(mem: Memory, a: int) {
    && a in mem && a + 4 in mem && a + 8 in mem && a + 12 in mem && a + 16 in mem
    && a + 20 in mem && a + 24 in mem && a + 28 in mem && a + 32 in mem && a + 36 in mem
    && a + 40 in mem && a + 44 in mem
  }

  function StructAt(mem: Memory, a: int): Registers
    requires StructIn(mem, a)
  {
    Registers(mem[a], mem[a + 4], mem[a + 8], mem[a + 12], mem[a + 16], mem[a + 20], mem[a + 24],
              mem[a + 28], mem[a + 32], mem[a + 36], mem[a + 40], mem[a + 44])
  }

  /** struct interrupt_frame at address a: like the registers, with a reserved word after ebp. */
  predicate FrameIn(mem: Memory, a: int) {
    && a in mem && a + 4 in mem && a + 8 in mem && a + 12 in mem && a + 16 in mem
    && a + 20 in mem && a + 24 in mem && a + 28 in mem && a + 32 in mem && a + 36 in mem
    && a + 40 in mem && a + 44 in mem && a + 48 in mem
  }

  function FrameAt(mem: Memory, a: int): Registers
    requires FrameIn(mem, a)
  {
    Registers(mem[a], mem[a + 4], mem[a + 8], mem[a + 16], mem[a + 20], mem[a + 24], mem[a + 28],
              mem[a + 32], mem[a + 36], mem[a + 40], mem[a + 44], mem[a + 48])
  }

  /** The struct at a lies outside the stack words from low up to high. */
  predicate StructOutside(a: int, low: int, high: int) {
    a + 48 <= low || high <= a
  }

  /** Addresses at word boundaries, so that different ones name different words. */
  predicate WordAligned(addresses: set<int>) {
    forall a :: a in addresses ==> a % 4 == 0
  }

  /** Memory is unchanged outside [low, high). */
  predicate SameOutside(mem: Memory, mem': Memory, low: int, high: int) {
    forall a :: a in mem && !(low <= a < high) ==> a in mem' && mem'[a] == mem[a]
  }

  lemma StructKept(mem: Memory, mem': Memory, a: int, low: int, high: int)
    requires StructIn(mem, a) && SameOutside(mem, mem', low, high) && StructOutside(a, low, high)
    ensures StructIn(mem', a) && StructAt(mem', a) == StructAt(mem, a)
  {
  }

  lemma OnePush(m: Memory, e: int, v: word)
    ensures SameOutside(m, m[e - 4 := v], e - 4, e)
  {
  }

  /** The two pushes around the call, and the push inside it, stay below e. */
  lemma TwoPushes(m: Memory, e: int, v: word, w: word, x: word)
    ensures SameOutside(m, m[e - 4 := v][e - 8 := w], e - 12, e)
    ensures SameOutside(m, m[e - 4 := v][e - 8 := w][e - 12 := x], e - 12, e)
  {
  }

  /** The five words that iretd takes, from the lowest address. */
  predicate ReturnFrame(m: Memory, a: int, ip: word, cs: word, flags: word, esp: word, ss: word) {
    && a in m && a + 4 in m && a + 8 in m && a + 12 in m && a + 16 in m
    && m[a] == ip && m[a + 4] == cs && m[a + 8] == flags && m[a + 12] == esp && m[a + 16] == ss
  }

  lemma SameWider(m: Memory, m': Memory, low: int, mid: int, high: int)
    requires low <= mid && SameOutside(m, m', mid, high)
    ensures SameOutside(m, m', low, high)
  {
  }

  lemma FivePushes(m: Memory, e: int, v1: word, v2: word, v3: word, v4: word, v5: word)
    ensures SameOutside(m, m[e - 4 := v1][e - 8 := v2][e - 12 := v3][e - 16 := v4][e - 20 := v5], e - 20, e)
    ensures ReturnFrame(m[e - 4 := v1][e - 8 := v2][e - 12 := v3][e - 16 := v4][e - 20 := v5], e - 20, v5, v4, v3, v2, v1)
  {
  }

  /** The eight words of pushad, from the lowest address. */
  predicate PushadFrame(m: Memory, a: int, edi: word, esi: word, ebp: word, ebx: word, edx: word, ecx: word, eax: word) {
    && a in m && a + 4 in m && a + 8 in m && a + 12 in m && a + 16 in m && a + 20 in m && a + 24 in m && a + 28 in m
    && m[a] == edi && m[a + 4] == esi && m[a + 8] == ebp && m[a + 16] == ebx && m[a + 20] == edx && m[a + 24] == ecx && m[a + 28] == eax
  }

  lemma EightPushes(m: Memory, e: int, v1: word, v2: word, v3: word, v4: word, v5: word, v6: word, v7: word, v8: word)
    ensures var m' := m[e - 4 := v1][e - 8 := v2][e - 12 := v3][e - 16 := v4][e - 20 := v5][e - 24 := v6][e - 28 := v7][e - 32 := v8];
            SameOutside(m, m', e - 32, e) && PushadFrame(m', e - 32, v8, v7, v6, v4, v3, v2, v1)
  {
  }

  /** The words of the processor below the ones of pushad make an interrupt frame. */
  lemma FrameOfPushes(m0: Memory, m1: Memory, m2: Memory, a: int, r: Registers)
    requires SameOutside(m0, m1, a + 32, a + 52) && ReturnFrame(m1, a + 32, r.ip, r.cs, r.flags, r.esp, r.ss)
    requires SameOutside(m1, m2, a, a + 32) && PushadFrame(m2, a, r.edi, r.esi, r.ebp, r.ebx, r.edx, r.ecx, r.eax)
    ensures FrameIn(m2, a) && FrameAt(m2, a) == r && SameOutside(m0, m2, a, a + 52)
  {
  }

  lemma FrameKept(mem: Memory, mem': Memory, a: int, low: int, high: int)
    requires FrameIn(mem, a) && SameOutside(mem, mem', low, high) && (a + 52 <= low || high <= a)
    ensures FrameIn(mem', a) && FrameAt(mem', a) == FrameAt(mem, a)
  {
  }

  /** The words a handler leaves on its stack, below the interrupt frame. */
  predicate Scratch(scratch: Memory, low: int, high: int) {
    forall a :: a in scratch ==> low <= a < high && a % 4 == 0
  }

  lemma Chained(m0: Memory, m1: Memory, m2: Memory, low: int, high: int, mid: int)
    requires low <= mid <= high && SameOutside(m0, m1, low, high) && SameOutside(m1, m2, low, mid)
    ensures SameOutside(m0, m2, low, high)
  {
  }

  /** The words of a struct stand for themselves. */
  lemma StructPlain(t: Translation, a: int)
    requires Plain(t, a, a + 48)
    ensures Phys(t, a) == a && Phys(t, a + 4) == a + 4 && Phys(t, a + 8) == a + 8 && Phys(t, a + 12) == a + 12
    ensures Phys(t, a + 16) == a + 16 && Phys(t, a + 20) == a + 20 && Phys(t, a + 24) == a + 24 && Phys(t, a + 28) == a + 28
    ensures Phys(t, a + 32) == a + 32 && Phys(t, a + 36) == a + 36 && Phys(t, a + 40) == a + 40 && Phys(t, a + 44) == a + 44
  {
  }

  lemma TwelveStores(m: Memory, a: int, r: Registers)
    ensures var m' := m[a := r.edi][a + 4 := r.esi][a + 8 := r.ebp][a + 12 := r.ebx][a + 16 := r.edx][a + 20 := r.ecx]
                       [a + 24 := r.eax][a + 28 := r.ip][a + 32 := r.cs][a + 36 := r.flags][a + 40 := r.esp][a + 44 := r.ss];
            StructIn(m', a) && StructAt(m', a) == r && SameOutside(m, m', a, a + 48)
  {
  }

  class Cpu {
    var eax: word
    var ebx: word
    var ecx: word
    var edx: word
    var esi: word
    var edi: word
    var ebp: word
    var esp: word
    var ip: word
    var cs: word
    var ss: word
    var eflags: word
    /** ds, es, fs and gs, which are always loaded together. */
    var data_segments: word
    /** Physical memory. */
    var mem: Memory
    /** The page directory in cr3. */
    var paging: Translation

    constructor (r: Registers, m: Memory, t: Translation)
      ensures Running() == r && mem == m && paging == t
    {
      edi, esi, ebp, ebx, edx, ecx, eax := r.edi, r.esi, r.ebp, r.ebx, r.edx, r.ecx, r.eax;
      ip, cs, eflags, esp, ss := r.ip, r.cs, r.flags, r.esp, r.ss;
      data_segments := r.ss;
      mem := m;
      paging := t;
    }

    /** The registers of the code that is running. */
    function Running(): Registers
      reads this
    {
      Registers(edi, esi, ebp, ebx, edx, ecx, eax, ip, cs, eflags, esp, ss)
    }

    method Push(v: word)
      requires esp >= 4
      modifies this`esp, this`mem
      ensures esp == old(esp) - 4 && mem == old(mem)[Phys(paging, esp) := v]
    {
      esp := esp - 4;
      mem := mem[Phys(paging, esp) := v];
    }

    method Pop() returns (v: word)
      requires Phys(paging, esp) in mem && esp + 4 < WORD_SIZE
      modifies this`esp
      ensures esp == old(esp) + 4 && v == mem[Phys(paging, old(esp))]
    {
      v := mem[Phys(paging, esp)];
      esp := esp + 4;
    }

    /** What the processor does on an interrupt: move to the kernel stack and save its own state there. */
    method HardwareEntry(kernel_stack: word)
      requires kernel_stack >= 52 && Plain(paging, kernel_stack - 20, kernel_stack)
      modifies this`esp, this`mem
      ensures esp == kernel_stack - 20 && SameOutside(old(mem), mem, kernel_stack - 20, kernel_stack)
      ensures ReturnFrame(mem, kernel_stack - 20, ip, cs, eflags, old(esp), ss)
    {
      hide SameOutside, ReturnFrame;
      FivePushes(mem, kernel_stack, ss, esp, eflags, cs, ip);
      var user_esp := esp;
      esp := kernel_stack;
      Push(ss);
      Push(user_esp);
      Push(eflags);
      Push(cs);
      Push(ip);
    }

    method Pushad()
      requires esp >= 32 && Plain(paging, esp - 32, esp)
      modifies this`esp, this`mem
      ensures esp == old(esp) - 32 && SameOutside(old(mem), mem, esp, esp + 32)
      ensures PushadFrame(mem, esp, edi, esi, ebp, ebx, edx, ecx, eax)
    {
      hide SameOutside, PushadFrame, Phys;
      EightPushes(mem, esp, eax, ecx, edx, ebx, esp, ebp, esi, edi);
      var esp0 := esp;
      PushFour(eax, ecx, edx, ebx);
      PushFour(esp0, ebp, esi, edi);
    }

    method PushFour(v1: word, v2: word, v3: word, v4: word)
      requires esp >= 16 && Plain(paging, esp - 16, esp)
      modifies this`esp, this`mem
      ensures esp == old(esp) - 16
      ensures mem == old(mem)[old(esp) - 4 := v1][old(esp) - 8 := v2][old(esp) - 12 := v3][old(esp) - 16 := v4]
    {
      assert Phys(paging, esp - 4) == esp - 4 && Phys(paging, esp - 8) == esp - 8;
      assert Phys(paging, esp - 12) == esp - 12 && Phys(paging, esp - 16) == esp - 16;
      hide Plain, Phys;
      Push(v1);
      Push(v2);
      Push(v3);
      Push(v4);
    }

    /** The int stubs of idt.asm: the frame holds exactly the registers of the interrupted code. */
    method InterruptEntry(kernel_stack: word) returns (frame: word)
      requires kernel_stack >= 52 && Plain(paging, kernel_stack - 52, kernel_stack)
      modifies this`esp, this`mem
      ensures frame == esp == kernel_stack - 52
      ensures FrameIn(mem, frame) && FrameAt(mem, frame) == old(Running())
      ensures SameOutside(old(mem), mem, frame, kernel_stack)
    {
      hide SameOutside, FrameIn, FrameAt, ReturnFrame, PushadFrame;
      ghost var r, m0 := Running(), mem;
      HardwareEntry(kernel_stack);
      ghost var m1 := mem;
      Pushad();
      frame := esp;
      FrameOfPushes(m0, m1, mem, frame, r);
    }

    /** task_save_state: copy the frame into the registers of the task. */
    method SaveState(registers: int, frame: int)
      requires FrameIn(mem, frame) && StructIn(mem, registers)
      requires StructOutside(registers, frame, frame + 52)
      requires Plain(paging, frame, frame + 52) && Plain(paging, registers, registers + 48)
      modifies this`mem
      ensures StructIn(mem, registers) && StructAt(mem, registers) == FrameAt(old(mem), frame)
      ensures SameOutside(old(mem), mem, registers, registers + 48)
    {
      hide StructIn, StructAt, FrameIn, FrameAt, SameOutside;
      StoreStruct(registers, LoadFrame(frame));
    }

    /** The fields of the interrupt frame at virtual address a. */
    function LoadFrame(a: int): (r: Registers)
      requires FrameIn(mem, a) && Plain(paging, a, a + 52)
      reads this
      ensures r == FrameAt(mem, a)
    {
      Registers(mem[Phys(paging, a)], mem[Phys(paging, a + 4)], mem[Phys(paging, a + 8)], mem[Phys(paging, a + 16)], mem[Phys(paging, a + 20)], mem[Phys(paging, a + 24)],
                mem[Phys(paging, a + 28)], mem[Phys(paging, a + 32)], mem[Phys(paging, a + 36)], mem[Phys(paging, a + 40)], mem[Phys(paging, a + 44)], mem[Phys(paging, a + 48)])
    }

    /** restore_general_purpose_registers, entered with its argument above the return address. */
    method RestoreGeneralPurposeRegisters(ghost a: word)
      requires 4 <= esp && esp + 8 < WORD_SIZE && esp in mem && esp + 4 in mem && mem[esp + 4] == a && Plain(paging, esp - 4, esp + 8)
      requires StructIn(mem, a) && StructOutside(a, esp - 4, esp) && Plain(paging, a, a + 48)
      modifies this`eax, this`ebx, this`ecx, this`edx, this`esi, this`edi, this`ebp, this`esp, this`ip, this`mem
      ensures esp == old(esp) + 4 && mem == old(mem)[old(esp) - 4 := old(ebp)]
      ensures var r := StructAt(old(mem), a);
              && edi == r.edi && esi == r.esi && ebp == r.ebp && ebx == r.ebx
              && edx == r.edx && ecx == r.ecx && eax == r.eax
    {
      assert Phys(paging, esp - 4) == esp - 4 && Phys(paging, esp) == esp && Phys(paging, esp + 4) == esp + 4;
      hide Plain, Phys, StructIn, StructAt, SameOutside;
      ghost var m0, e := mem, esp;
      OnePush(m0, e, ebp);
      Push(ebp);
      StructKept(m0, mem, a, e - 4, e);
      ebp := esp;
      ebx := mem[Phys(paging, ebp + 8)];
      LoadGeneral();
      esp := esp + 4;
      ip := Pop();
    }

    /** The moves of restore_general_purpose_registers from the struct at ebx. */
    method LoadGeneral()
      requires StructIn(mem, ebx) && Plain(paging, ebx, ebx + 48)
      modifies this`eax, this`ebx, this`ecx, this`edx, this`esi, this`edi, this`ebp
      ensures var r := StructAt(mem, old(ebx));
              && edi == r.edi && esi == r.esi && ebp == r.ebp && ebx == r.ebx
              && edx == r.edx && ecx == r.ecx && eax == r.eax
    {
      StructPlain(paging, ebx);
      hide Plain, Phys;
      edi := mem[Phys(paging, ebx)];
      esi := mem[Phys(paging, ebx + 4)];
      ebp := mem[Phys(paging, ebx + 8)];
      edx := mem[Phys(paging, ebx + 16)];
      ecx := mem[Phys(paging, ebx + 20)];
      eax := mem[Phys(paging, ebx + 24)];
      ebx := mem[Phys(paging, ebx + 12)];
    }

    /** iretd to user mode: the five words that task_return pushed. */
    method Iretd()
      requires esp + 20 < WORD_SIZE && Plain(paging, esp, esp + 20)
      requires esp in mem && esp + 4 in mem && esp + 8 in mem && esp + 12 in mem && esp + 16 in mem
      modifies this`ip, this`cs, this`eflags, this`esp, this`ss
      ensures ip == mem[old(esp)] && cs == mem[old(esp) + 4] && eflags == mem[old(esp) + 8]
      ensures esp == mem[old(esp) + 12] && ss == mem[old(esp) + 16]
    {
      ip := Pop();
      cs := Pop();
      eflags := Pop();
      var user_esp := Pop();
      ss := Pop();
      esp := user_esp;
    }

    /** pushf; pop eax; or eax, 0x200; push eax. */
    method PushFlags()
      requires esp >= 4 && Plain(paging, esp - 4, esp)
      modifies this`eax, this`esp, this`mem
      ensures esp == old(esp) - 4 && mem == old(mem)[esp := ResumeFlags(eflags)]
    {
      hide ResumeFlags;
      Push(eflags);
      eax := Pop();
      eax := ResumeFlags(eax);
      Push(eax);
    }

    /** The pushes of task_return: the return frame, built from the struct and from the kernel's own flags. */
    method PushReturnFrame()
      requires 32 <= esp && esp + 4 in mem && ebp == esp && Plain(paging, esp - 32, esp + 8)
      requires StructIn(mem, mem[esp + 4]) && StructOutside(mem[esp + 4], esp - 32, esp) && Plain(paging, mem[esp + 4], mem[esp + 4] as int + 48)
      modifies this`eax, this`ebx, this`esp, this`mem
      ensures esp == old(esp) - 20
      ensures var r, e := StructAt(old(mem), old(mem[esp + 4])), old(esp);
              && mem == old(mem)[e - 4 := r.ss][e - 8 := r.esp][e - 12 := ResumeFlags(eflags)][e - 16 := r.cs][e - 20 := r.ip]
              && ebx == old(mem[esp + 4])
    {
      StructPlain(paging, mem[esp + 4]);
      assert Phys(paging, esp - 4) == esp - 4 && Phys(paging, esp - 8) == esp - 8 && Phys(paging, esp - 16) == esp - 16 && Phys(paging, esp - 20) == esp - 20;
      assert Phys(paging, esp + 4) == esp + 4;
      PlainPart(paging, esp - 32, esp + 8, esp - 12, esp - 8);
      hide ResumeFlags, Plain, Phys;
      ebx := mem[Phys(paging, ebp + 4)];
      Push(mem[Phys(paging, ebx + 44)]);
      Push(mem[Phys(paging, ebx + 40)]);
      PushFlags();
      Push(mem[Phys(paging, ebx + 32)]);
      Push(mem[Phys(paging, ebx + 28)]);
    }

    /** push dword [ebp+4]; call restore_general_purpose_registers; add esp, 4. */
    method CallRestore(return_address: word)
      requires 12 <= esp && esp + 4 < WORD_SIZE && ebp + 4 in mem && Plain(paging, esp - 12, esp) && Plain(paging, ebp + 4, ebp + 8)
      requires StructIn(mem, mem[ebp + 4]) && StructOutside(mem[ebp + 4], esp - 12, esp) && Plain(paging, mem[ebp + 4], mem[ebp + 4] as int + 48)
      modifies this`eax, this`ebx, this`ecx, this`edx, this`esi, this`edi, this`ebp, this`esp, this`ip, this`mem
      ensures esp == old(esp)
      ensures var r := StructAt(old(mem), old(mem[ebp + 4]));
              && edi == r.edi && esi == r.esi && ebp == r.ebp && ebx == r.ebx
              && edx == r.edx && ecx == r.ecx && eax == r.eax
      ensures SameOutside(old(mem), mem, old(esp) - 12, old(esp))
    {
      hide StructIn, StructAt, SameOutside;
      ghost var m0, regs, e := mem, mem[ebp + 4], esp;
      Push(mem[Phys(paging, ebp + 4)]);
      Push(return_address);
      TwoPushes(m0, e, regs, return_address, ebp);
      StructKept(m0, mem, regs, e - 12, e);
      RestoreGeneralPurposeRegisters(regs);
      esp := esp + 4;
    }

    method BuildReturnFrame()
      requires 32 <= esp && esp + 4 in mem && ebp == esp && Plain(paging, esp - 32, esp + 8)
      requires StructIn(mem, mem[esp + 4]) && StructOutside(mem[esp + 4], esp - 32, esp) && Plain(paging, mem[esp + 4], mem[esp + 4] as int + 48)
      modifies this`eax, this`ebx, this`esp, this`mem
      ensures esp == old(esp) - 20 && ebx == old(mem[esp + 4]) && old(esp) + 4 in mem && mem[old(esp) + 4] == ebx
      ensures SameOutside(old(mem), mem, old(esp) - 32, old(esp))
      ensures StructIn(mem, ebx) && StructAt(mem, ebx) == StructAt(old(mem), ebx)
      ensures var r := StructAt(mem, ebx); ReturnFrame(mem, esp, r.ip, r.cs, ResumeFlags(eflags), r.esp, r.ss)
    {
      hide StructIn, StructAt, SameOutside, ResumeFlags, ReturnFrame;
      ghost var e, m0 := esp, mem;
      ghost var r := StructAt(mem, mem[esp + 4]);
      PushReturnFrame();
      FivePushes(m0, e, r.ss, r.esp, ResumeFlags(eflags), r.cs, r.ip);
      StructKept(m0, mem, ebx, e - 20, e);
      SameWider(m0, mem, e - 32, e - 20, e);
    }

    /** mov ax, [ebx+44] and the four segment loads. */
    method LoadDataSegments()
      requires StructIn(mem, ebx) && Plain(paging, ebx, ebx + 48)
      modifies this`eax, this`data_segments
      ensures data_segments == StructAt(mem, ebx).ss % 0x1_0000
    {
      eax := eax - eax % 0x1_0000 + mem[Phys(paging, ebx + 44)] % 0x1_0000;
      data_segments := eax % 0x1_0000;
    }

    /** The general registers are restored from the struct around the return frame, which iretd then takes. */
    method RestoreAndLeave(return_address: word)
      requires 12 <= esp && esp + 20 < WORD_SIZE && ebp + 4 in mem && Plain(paging, esp - 12, esp + 20) && Plain(paging, ebp + 4, ebp + 8)
      requires esp in mem && esp + 4 in mem && esp + 8 in mem && esp + 12 in mem && esp + 16 in mem
      requires StructIn(mem, mem[ebp + 4]) && StructOutside(mem[ebp + 4], esp - 12, esp) && Plain(paging, mem[ebp + 4], mem[ebp + 4] as int + 48)
      modifies this
      ensures paging == old(paging)
      ensures var r, m, e := StructAt(old(mem), old(mem[ebp + 4])), old(mem), old(esp);
              Running() == Registers(r.edi, r.esi, r.ebp, r.ebx, r.edx, r.ecx, r.eax, m[e], m[e + 4], m[e + 8], m[e + 12], m[e + 16])
      ensures SameOutside(old(mem), mem, old(esp) - 12, old(esp)) && data_segments == old(data_segments)
    {
      hide StructIn, StructAt;
      CallRestore(return_address);
      Iretd();
    }

    /**
     task_return: every register of the struct reaches the processor, except that
     the flags are the kernel's own with the interrupt flag set.
     */
    method TaskReturn(return_address: word)
      requires 32 <= esp && esp + 4 < WORD_SIZE && esp + 4 in mem && Plain(paging, esp - 32, esp + 8)
      requires StructIn(mem, mem[esp + 4]) && StructOutside(mem[esp + 4], esp - 32, esp) && Plain(paging, mem[esp + 4], mem[esp + 4] as int + 48)
      modifies this
      ensures paging == old(paging)
      ensures Running() == StructAt(old(mem), old(mem[esp + 4])).(flags := ResumeFlags(old(eflags)))
      ensures data_segments == ss % 0x1_0000
      ensures SameOutside(old(mem), mem, old(esp) - 32, old(esp))
    {
      hide StructIn, StructAt, SameOutside, ResumeFlags;
      ebp := esp;
      ghost var e, m0 := esp, mem;
      BuildReturnFrame();
      ghost var m1 := mem;
      LoadDataSegments();
      RestoreAndLeave(return_address);
      Chained(m0, m1, mem, e - 32, e, e - 20);
    }

    /** The call task_return(&next_task->registers) from kernel code at call_esp. */
    method CallTaskReturn(next: word, call_esp: word, return_address: word)
      requires 32 <= call_esp && call_esp + 8 < WORD_SIZE && Plain(paging, call_esp - 32, call_esp + 8)
      requires StructIn(mem, next) && StructOutside(next, call_esp - 32, call_esp + 8) && Plain(paging, next, next + 48)
      modifies this
      ensures paging == old(paging)
      ensures Running() == StructAt(old(mem), next).(flags := ResumeFlags(old(eflags)))
      ensures SameOutside(old(mem), mem, call_esp - 32, call_esp + 8)
    {
      ghost var m0 := mem;
      esp := call_esp + 8;
      Push(next);
      Push(return_address);
      StructKept(m0, mem, next, call_esp, call_esp + 8);
      TaskReturn(return_address);
    }

    /** The lower half of popad: the word of esp is passed over. */
    method PopadLow()
      requires esp + 52 < WORD_SIZE && FrameIn(mem, esp) && Plain(paging, esp, esp + 52)
      modifies this`edi, this`esi, this`ebp, this`esp
      ensures esp == old(esp) + 16
      ensures var r := FrameAt(mem, old(esp)); edi == r.edi && esi == r.esi && ebp == r.ebp
    {
      edi := Pop();
      esi := Pop();
      ebp := Pop();
      esp := esp + 4;
    }

    method PopadHigh(ghost a: int)
      requires a + 52 < WORD_SIZE && FrameIn(mem, a) && esp == a + 16 && Plain(paging, a, a + 52)
      modifies this`ebx, this`edx, this`ecx, this`eax, this`esp
      ensures esp == a + 32
      ensures var r := FrameAt(mem, a); ebx == r.ebx && edx == r.edx && ecx == r.ecx && eax == r.eax
    {
      ebx := Pop();
      edx := Pop();
      ecx := Pop();
      eax := Pop();
    }

    /** popad and iret of the int stubs: the interrupted code goes on with every register, the flags included. */
    method LeaveInterrupt()
      requires esp + 52 < WORD_SIZE && FrameIn(mem, esp) && Plain(paging, esp, esp + 52)
      modifies this
      ensures Running() == FrameAt(old(mem), old(esp)) && mem == old(mem) && paging == old(paging)
    {
      ghost var a := esp;
      PopadLow();
      PopadHigh(a);
      Iretd();
    }

    /**
     Interrupt entry under the directory of the task, and the compiled handler,
     which loads the kernel's directory and may use every register and the stack
     below the frame, with the task_save_state of a registered interrupt: the
     frame, and then also the struct of the task, hold the registers of the
     interrupted code.
     */
    method EnterAndSave(kernel_stack: word, kernel: Translation, low: int, scratch: Memory, saved: word, registered: bool)
      returns (frame: word)
      requires 52 <= kernel_stack && low <= kernel_stack - 52 && Scratch(scratch, low, kernel_stack - 52)
      requires Plain(paging, low, kernel_stack) && Plain(kernel, low, kernel_stack) && Plain(kernel, saved, saved + 48)
      requires StructIn(mem, saved) && StructOutside(saved, low, kernel_stack)
      modifies this
      ensures frame == kernel_stack - 52 && FrameIn(mem, frame) && FrameAt(mem, frame) == old(Running()) && paging == kernel
      ensures StructIn(mem, saved) && StructAt(mem, saved) == if registered then old(Running()) else old(StructAt(mem, saved))
      ensures SameBut(old(mem), mem, low, kernel_stack, saved)
    {
      hide StructIn, StructAt, FrameIn, FrameAt, SameOutside, SameBut, Plain, Phys, Scratch;
      ghost var m0 := mem;
      PlainPart(kernel, low, kernel_stack, kernel_stack - 52, kernel_stack);
      frame := EnterHandler(kernel_stack, kernel, low, scratch);
      ghost var m1 := mem;
      StructKept(m0, m1, saved, low, kernel_stack);
      if registered {
        SaveState(saved, frame);
        FrameKept(m1, mem, frame, saved, saved + 48);
      }
      OutsideIsBut(m0, m1, mem, low, kernel_stack, saved);
    }

    /** Interrupt entry, kernel_page, and what the handler does with registers and stack. */
    method EnterHandler(kernel_stack: word, kernel: Translation, low: int, scratch: Memory) returns (frame: word)
      requires 52 <= kernel_stack && low <= kernel_stack - 52 && Scratch(scratch, low, kernel_stack - 52)
      requires Plain(paging, low, kernel_stack)
      modifies this
      ensures frame == kernel_stack - 52 && FrameIn(mem, frame) && FrameAt(mem, frame) == old(Running()) && paging == kernel
      ensures SameOutside(old(mem), mem, low, kernel_stack)
    {
      hide FrameIn, FrameAt, SameOutside, Plain, Phys, Scratch;
      ghost var m0 := mem;
      PlainPart(paging, low, kernel_stack, kernel_stack - 52, kernel_stack);
      frame := InterruptEntry(kernel_stack);
      ghost var m1 := mem;
      mem := mem + scratch;
      paging := kernel;
      eax, ebx, ecx, edx, esi, edi, ebp, eflags := *, *, *, *, *, *, *, *;
      ScratchOutside(m1, scratch, low, frame);
      FrameKept(m1, mem, frame, low, frame);
      TwoStretches(m0, m1, mem, low, frame, kernel_stack);
    }

    /** An interrupt that returns to the interrupted code, with the directory of its task loaded again: it sees no change at all. */
    method Interrupted(kernel_stack: word, kernel: Translation, low: int, scratch: Memory, saved: word, registered: bool)
      requires WordAligned({kernel_stack, saved})
      requires 52 <= kernel_stack && low <= kernel_stack - 52 && Scratch(scratch, low, kernel_stack - 52)
      requires Plain(paging, low, kernel_stack) && Plain(kernel, low, kernel_stack) && Plain(kernel, saved, saved + 48)
      requires StructIn(mem, saved) && StructOutside(saved, low, kernel_stack)
      modifies this
      ensures Running() == old(Running()) && paging == old(paging)
      ensures StructIn(mem, saved) && StructAt(mem, saved) == if registered then old(Running()) else old(StructAt(mem, saved))
      ensures SameBut(old(mem), mem, low, kernel_stack, saved)
    {
      hide StructIn, StructAt, FrameIn, FrameAt, SameBut, Scratch, Plain, Phys;
      PlainPart(paging, low, kernel_stack, kernel_stack - 52, kernel_stack);
      var task := paging;
      var frame := EnterAndSave(kernel_stack, kernel, low, scratch, saved, registered);
      paging := task;
      esp := frame;
      LeaveInterrupt();
    }

    /**
     One timer interrupt, from the user code of the task saved at `saved` to the
     user code of the task at `next`: the interrupted registers end up in the first
     struct, and the registers of the second struct run, all but the flags.
     task_return already runs under the directory of the second task.
     */
    method Preempt(kernel_stack: word, kernel: Translation, scratch: Memory, saved: word, next: word, next_paging: Translation,
                   call_esp: word, return_address: word, kernel_flags: word)
      requires WordAligned({kernel_stack, call_esp, saved, next})
      requires 32 <= call_esp && call_esp + 60 <= kernel_stack && Scratch(scratch, call_esp - 32, kernel_stack - 52)
      requires Plain(paging, call_esp - 32, kernel_stack) && Plain(kernel, call_esp - 32, kernel_stack) && Plain(kernel, saved, saved + 48)
      requires Plain(next_paging, call_esp - 32, kernel_stack) && Plain(next_paging, next, next + 48)
      requires StructIn(mem, saved) && StructOutside(saved, call_esp - 32, kernel_stack)
      requires StructIn(mem, next) && StructOutside(next, call_esp - 32, kernel_stack)
      requires saved == next || StructOutside(next, saved, saved + 48)
      modifies this
      ensures StructIn(mem, saved) && StructAt(mem, saved) == old(Running()) && paging == next_paging
      ensures Running() == (if saved == next then old(Running()) else old(StructAt(mem, next))).(flags := ResumeFlags(kernel_flags))
      ensures SameBut(old(mem), mem, call_esp - 32, kernel_stack, saved)
    {
      hide StructIn, StructAt, SameBut, SameOutside, FrameIn, FrameAt, Scratch, ResumeFlags, Plain, Phys;
      ghost var m0 := mem;
      PlainPart(next_paging, call_esp - 32, kernel_stack, call_esp - 32, call_esp + 8);
      var _ := EnterAndSave(kernel_stack, kernel, call_esp - 32, scratch, saved, true);
      if saved != next {
        OtherKept(m0, mem, next, saved, call_esp - 32, kernel_stack);
      }
      eflags := kernel_flags;
      paging := next_paging;
      ghost var m1 := mem;
      CallTaskReturn(next, call_esp, return_address);
      StructKept(m1, mem, saved, call_esp - 32, call_esp + 8);
      Widen(m0, m1, mem, call_esp - 32, call_esp + 8, kernel_stack, saved);
    }

    /** The fields of a struct of registers at virtual address a. */
    method StoreStruct(a: int, r: Registers)
      requires Plain(paging, a, a + 48)
      modifies this`mem
      ensures StructIn(mem, a) && StructAt(mem, a) == r && SameOutside(old(mem), mem, a, a + 48)
    {
      hide StructIn, StructAt, SameOutside, Plain, Phys;
      StructPlain(paging, a);
      TwelveStores(mem, a, r);
      mem := mem[Phys(paging, a) := r.edi][Phys(paging, a + 4) := r.esi][Phys(paging, a + 8) := r.ebp][Phys(paging, a + 12) := r.ebx]
                [Phys(paging, a + 16) := r.edx][Phys(paging, a + 20) := r.ecx][Phys(paging, a + 24) := r.eax][Phys(paging, a + 28) := r.ip]
                [Phys(paging, a + 32) := r.cs][Phys(paging, a + 36) := r.flags][Phys(paging, a + 40) := r.esp][Phys(paging, a + 44) := r.ss];
    }

    /** task_init on the registers of a new task: memset, and then the fields that are not zero. */
    method TaskInit(a: word, is_elf: bool, entry: word)
      requires Plain(paging, a, a + 48)
      modifies this`mem
      ensures StructIn(mem, a) && StructAt(mem, a) == InitialRegisters(is_elf, entry) && SameOutside(old(mem), mem, a, a + 48)
    {
      StructPlain(paging, a);
      hide Plain, Phys;
      StoreStruct(a, Registers(0, 0, 0, 0, 0, 0, 0, 0, 0, 0, 0, 0));
      mem := mem[Phys(paging, a + 28) := 0x40_0000];
      if is_elf {
        mem := mem[Phys(paging, a + 28) := entry];
      }
      mem := mem[Phys(paging, a + 44) := 0x23][Phys(paging, a + 32) := 0x1b][Phys(paging, a + 40) := 0x3F_F000];
    }

    /** One instruction of user code leaves these registers. */
    method Execute(r: Registers)
      modifies this`eax, this`ebx, this`ecx, this`edx, this`esi, this`edi, this`ebp, this`esp, this`ip, this`cs, this`ss, this`eflags
      ensures Running() == r
    {
      edi, esi, ebp, ebx, edx, ecx, eax := r.edi, r.esi, r.ebp, r.ebx, r.edx, r.ecx, r.eax;
      ip, cs, eflags, esp, ss := r.ip, r.cs, r.flags, r.esp, r.ss;
    }
  }

  lemma ScratchOutside(m: Memory, scratch: Memory, low: int, high: int)
    requires Scratch(scratch, low, high)
    ensures SameOutside(m, m + scratch, low, high)
  {
  }

  lemma TwoStretches(m0: Memory, m1: Memory, m2: Memory, low: int, mid: int, high: int)
    requires low <= mid <= high && SameOutside(m0, m1, mid, high) && SameOutside(m1, m2, low, mid)
    ensures SameOutside(m0, m2, low, high)
  {
  }

  lemma OutsideIsBut(m0: Memory, m1: Memory, m2: Memory, low: int, high: int, a: int)
    requires SameOutside(m0, m1, low, high) && (m2 == m1 || SameOutside(m1, m2, a, a + 48))
    ensures SameBut(m0, m2, low, high, a)
  {
  }

  /** Memory is unchanged outside the stack words [low, high) and the struct at a. */
  predicate SameBut(mem: Memory, mem': Memory, low: int, high: int, a: int) {
    forall x :: x in mem && !(low <= x < high) && !(a <= x < a + 48) ==> x in mem' && mem'[x] == mem[x]
  }

  lemma OtherKept(mem: Memory, mem': Memory, next: int, saved: int, low: int, high: int)
    requires SameBut(mem, mem', low, high, saved) && StructIn(mem, next)
    requires StructOutside(next, low, high) && StructOutside(next, saved, saved + 48)
    ensures StructIn(mem', next) && StructAt(mem', next) == StructAt(mem, next)
  {
  }

  lemma Widen(m0: Memory, m1: Memory, m2: Memory, low: int, mid: int, high: int, saved: int)
    requires low <= mid <= high && SameBut(m0, m1, low, high, saved) && SameOutside(m1, m2, low, mid)
    ensures SameBut(m0, m2, low, high, saved)
  {
  }
}
