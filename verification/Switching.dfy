/**
 The kernel's own steps between user instructions: task_new, interrupt_handler and
 idt_clock (src/idt/idt.c, src/task/task.c) on the task list, the processor and the
 saved registers in memory.  Each is a step of the state machine in Preemption, so
 what is proved of its runs holds of this code.

 All of it needs the page directory of every task to leave the kernel stack and
 the registers of that task in place.  Which programs do is shown in KernelView.
 */
module Switching {
  import opened Common
  import opened Bits
  import opened TaskRegisters
  import opened Context
  import opened TaskList
  import opened Preemption

  /** The saved registers r are the struct at address a, clear of the stack. */
  ghost predicate Saved(mem: Memory, a: word, r: Registers, low: int, high: int) {
    a % 4 == 0 && StructIn(mem, a) && StructAt(mem, a) == r && StructOutside(a, low, high)
  }

  /** The structs at different positions do not overlap. */
  ghost predicate Separate(addresses: seq<word>) {
    forall i, j :: 0 <= i < |addresses| && 0 <= j < |addresses| && i != j ==> StructOutside(addresses[i], addresses[j], addresses[j] as int + 48)
  }

  ghost predicate AllSaved(mem: Memory, addresses: seq<word>, saved: seq<Registers>, low: int, high: int) {
    |saved| == |addresses| && forall i :: 0 <= i < |saved| ==> Saved(mem, addresses[i], saved[i], low, high)
  }

  lemma SavedOne(mem: Memory, mem': Memory, addresses: seq<word>, saved: seq<Registers>, low: int, high: int, c: nat, r: Registers)
    requires AllSaved(mem, addresses, saved, low, high) && Separate(addresses) && c < |saved|
    requires SameBut(mem, mem', low, high, addresses[c]) && StructIn(mem', addresses[c]) && StructAt(mem', addresses[c]) == r
    ensures AllSaved(mem', addresses, saved[c := r], low, high)
  {
    hide StructIn, StructAt, SameBut;
    forall i | 0 <= i < |saved|
      ensures Saved(mem', addresses[i], saved[c := r][i], low, high)
    {
      assert Saved(mem, addresses[i], saved[i], low, high);
      if i != c {
        OtherKept(mem, mem', addresses[i], addresses[c], low, high);
      }
    }
  }

  lemma SavedAt(mem: Memory, addresses: seq<word>, saved: seq<Registers>, low: int, high: int, c: nat, n: nat)
    requires AllSaved(mem, addresses, saved, low, high) && Separate(addresses) && c < |saved| && n < |saved|
    ensures Saved(mem, addresses[c], saved[c], low, high) && Saved(mem, addresses[n], saved[n], low, high)
    ensures addresses[c] == addresses[n] || StructOutside(addresses[n], addresses[c], addresses[c] as int + 48)
    ensures addresses[c] == addresses[n] <==> c == n
  {
    hide StructIn, StructAt;
  }

  lemma SavedKept(mem: Memory, mem': Memory, addresses: seq<word>, saved: seq<Registers>, low: int, high: int, from: int, to: int)
    requires AllSaved(mem, addresses, saved, low, high) && SameOutside(mem, mem', from, to)
    requires forall i :: 0 <= i < |addresses| ==> StructOutside(addresses[i], from, to)
    ensures AllSaved(mem', addresses, saved, low, high)
  {
    hide StructIn, StructAt, SameOutside;
    forall i | 0 <= i < |saved|
      ensures Saved(mem', addresses[i], saved[i], low, high)
    {
      assert Saved(mem, addresses[i], saved[i], low, high);
      StructKept(mem, mem', addresses[i], from, to);
    }
  }

  lemma ButWider(mem: Memory, mem': Memory, low: int, mid: int, high: int, a: int)
    requires low <= mid && SameBut(mem, mem', mid, high, a)
    ensures SameBut(mem, mem', low, high, a)
  {
  }

  /** The addresses of the saved registers of the tasks. */
  ghost function Addresses(tasks: seq<Task>): seq<word> {
    seq(|tasks|, i requires 0 <= i < |tasks| => tasks[i].registers)
  }

  /** The memory of each task is the one the state has for it. */
  ghost predicate Memories<M>(tasks: seq<Task>, memory: map<word, M>, memories: seq<M>) {
    |memories| == |tasks| && forall i :: 0 <= i < |tasks| ==> tasks[i].registers in memory && memory[tasks[i].registers] == memories[i]
  }

  /** The directories leave in place what the kernel uses under them: the stack, and the registers of the task. */
  ghost predicate InPlace(tasks: seq<Task>, kernel: Translation, low: int, high: int) {
    && Plain(kernel, low, high)
    && forall i :: 0 <= i < |tasks| ==> TaskInPlace(tasks[i], kernel, low, high)
  }

  ghost predicate TaskInPlace(t: Task, kernel: Translation, low: int, high: int) {
    && Plain(kernel, t.registers, t.registers + 48)
    && Plain(t.paging, low, high) && Plain(t.paging, t.registers, t.registers + 48)
  }

  /** Memory that is not the task's own: that of the kernel, and that of every other task. */
  datatype World<M> = World(kernel: Memory, others: map<word, M>)

  /** What the compiled handler of one interrupt leaves on the kernel stack, and where it calls task_return. */
  datatype StackWords = StackWords(scratch: Memory, call_esp: word, return_address: word)

  /** What happens next. */
  datatype Happening =
    | Instruction
    | TimerFires(kernel_flags: word, words: StackWords)
    | OtherInterrupt(registered: bool, words: StackWords)

  /** The event is this happening, with the world there was. */
  predicate Is<M>(e: Event<World<M>>, h: Happening) {
    match h
    case Instruction => e.User?
    case TimerFires(kernel_flags, _) => e == Timer(kernel_flags)
    case OtherInterrupt(registered, _) => e == Interrupt(registered)
  }

  class Switcher<M(!new)> {
    const cpu: Cpu
    const scheduler: Scheduler
    /** The kernel's own page directory. */
    const kernel: Translation
    /** The kernel stack of an interrupt, esp0 of the TSS, and the lowest address it grows to. */
    const stack_low: word
    const kernel_stack: word
    /** The memory that belongs to each task, by the address of its registers. */
    var memory: map<word, M>

    constructor (cpu: Cpu, kernel: Translation, stack_low: word, kernel_stack: word)
      requires kernel_stack % 4 == 0 && stack_low + 92 <= kernel_stack
      requires cpu.paging == kernel && Plain(kernel, stack_low, kernel_stack)
      ensures this.cpu == cpu && this.kernel == kernel && this.stack_low == stack_low && this.kernel_stack == kernel_stack
      ensures fresh(scheduler) && scheduler.tasks == [] && Waiting([], [])
    {
      this.cpu, this.kernel, this.stack_low, this.kernel_stack := cpu, kernel, stack_low, kernel_stack;
      this.scheduler := new Scheduler();
      this.memory := map[];
    }

    /** The objects are in the state s of the machine of user steps and interrupts. */
    ghost predicate Shows(s: Sys<M>)
      reads this, cpu, scheduler, scheduler.tasks
    {
      && Ok(s) && scheduler.Linked() && kernel_stack % 4 == 0 && stack_low + 92 <= kernel_stack
      && |s.saved| == |scheduler.tasks|
      && scheduler.current_task == scheduler.tasks[s.current] && cpu.paging == scheduler.tasks[s.loaded].paging
      && cpu.Running() == s.cpu
      && Memories(scheduler.tasks, memory, s.memory) && InPlace(scheduler.tasks, kernel, stack_low, kernel_stack)
      && Separate(Addresses(scheduler.tasks)) && AllSaved(cpu.mem, Addresses(scheduler.tasks), s.saved, stack_low, kernel_stack)
    }

    /** Every task as task_new and task_init leave it, none running yet. */
    ghost predicate Waiting(entries: seq<Entry>, memories: seq<M>)
      reads this, cpu, scheduler, scheduler.tasks
    {
      && |entries| == |memories| == |scheduler.tasks|
      && scheduler.Linked() && kernel_stack % 4 == 0 && stack_low + 92 <= kernel_stack && cpu.paging == kernel
      && Memories(scheduler.tasks, memory, memories) && InPlace(scheduler.tasks, kernel, stack_low, kernel_stack)
      && Separate(Addresses(scheduler.tasks))
      && AllSaved(cpu.mem, Addresses(scheduler.tasks), InitialSaved(entries), stack_low, kernel_stack)
    }

    /** task_new for a program: task_init stores the initial registers, and the task joins the list. */
    method NewTask(is_elf: bool, entry: word, registers: word, paging: Translation, m: M, ghost entries: seq<Entry>, ghost memories: seq<M>)
      requires Waiting(entries, memories)
      requires registers % 4 == 0 && StructOutside(registers, stack_low, kernel_stack)
      requires forall t :: t in scheduler.tasks ==> StructOutside(registers, t.registers, t.registers + 48) && StructOutside(t.registers, registers, registers + 48)
      requires Plain(kernel, registers, registers + 48) && Plain(paging, stack_low, kernel_stack) && Plain(paging, registers, registers + 48)
      modifies this`memory, cpu`mem, scheduler, scheduler.tasks
      ensures Waiting(entries + [Entry(is_elf, entry)], memories + [m])
      ensures forall t :: t in scheduler.tasks ==> t in old(scheduler.tasks) || fresh(t)
    {
      assert forall t :: t in scheduler.tasks ==> t.registers != registers;
      hide AllSaved, Separate, Memories, InPlace, Plain, StructIn, StructAt, SameOutside, ForwardChain, BackwardLinks, InitialSaved, StructOutside;
      ghost var ts, m0, memory0 := scheduler.tasks, cpu.mem, memory;
      cpu.TaskInit(registers, is_elf, entry);
      var task := scheduler.TaskNew(registers, paging);
      memory := memory[registers := m];
      JoinSaved(ts, task, m0, cpu.mem, entries, Entry(is_elf, entry), stack_low, kernel_stack);
      JoinPlaced(ts, task, memory0, memories, m, kernel, stack_low, kernel_stack);
    }

    /** task_run_first_ever_task: the head of the list runs, by task_return like every task after it. */
    method Start(call_esp: word, return_address: word, ghost entries: seq<Entry>, ghost memories: seq<M>)
      requires Waiting(entries, memories) && entries != []
      requires stack_low + 32 <= call_esp && call_esp + 8 <= kernel_stack && call_esp % 4 == 0
      modifies cpu, scheduler`current_task
      ensures Shows(Started(entries, memories, old(cpu.eflags)))
    {
      hide AllSaved, Separate, Memories, InPlace, StructIn, StructAt, SameOutside, ForwardChain, BackwardLinks, ResumeFlags, Plain, InitialSaved;
      var head := scheduler.task_head;
      ghost var m0, saved, ts := cpu.mem, InitialSaved(entries), scheduler.tasks;
      AtPlace(ts, kernel, stack_low, kernel_stack, 0);
      SavedAt(m0, Addresses(ts), saved, stack_low, kernel_stack, 0, 0);
      scheduler.TaskSwitch(head);
      cpu.paging := head.paging;
      PlainPart(cpu.paging, stack_low, kernel_stack, call_esp - 32, call_esp + 8);
      cpu.CallTaskReturn(head.registers, call_esp, return_address);
      OffTheStack(m0, Addresses(ts), saved, stack_low, kernel_stack, call_esp - 32, call_esp + 8);
      SavedKept(m0, cpu.mem, Addresses(ts), saved, stack_low, kernel_stack, call_esp - 32, call_esp + 8);
    }

    /** What the current task could read besides its own memory. */
    function WorldNow(): World<M>
      requires scheduler.current_task != null
      reads this, cpu, scheduler
    {
      World(cpu.mem, memory - {scheduler.current_task.registers})
    }

    /** One instruction of user code, which may read everything. */
    method UserStep(exec: Exec<M, World<M>>, ghost s: Sys<M>) returns (ghost e: Event<World<M>>)
      requires Shows(s)
      modifies this`memory, cpu
      ensures e.User? && Shows(Step(exec, s, e))
      ensures e.world.kernel == old(cpu.mem) && OthersIn(scheduler.tasks, e.world, s)
    {
      hide AllSaved, InPlace, ForwardChain, BackwardLinks;
      var task := scheduler.current_task;
      var world := WorldNow();
      e := User(world);
      CurrentMemory(s);
      var r := exec(cpu.Running(), memory[task.registers], world);
      cpu.Execute(r.0);
      OthersThere(scheduler.tasks, memory, s, world);
      StoreMemory(scheduler.tasks, memory, s.memory, s.current, r.1);
      memory := memory[task.registers := r.1];
    }

    lemma CurrentMemory(s: Sys<M>)
      requires Shows(s)
      ensures scheduler.current_task != null && scheduler.current_task.registers in memory
      ensures memory[scheduler.current_task.registers] == s.memory[s.current]
    {
    }

    /** What an interrupt finds on the kernel stack and leaves there. */
    ghost predicate StackUse(words: StackWords) {
      && stack_low + 32 <= words.call_esp && words.call_esp + 60 <= kernel_stack && words.call_esp % 4 == 0
      && Scratch(words.scratch, words.call_esp - 32, kernel_stack - 52)
    }

    lemma CurrentIndex(s: Sys<M>)
      requires Shows(s)
      ensures IndexOf(scheduler.tasks, scheduler.current_task) == s.current
    {
    }

    /**
     The timer interrupt: interrupt_handler saves the state of the current task, and
     idt_clock goes on with the next one by task_next.  kernel_flags are the flags at
     the pushf of task_return.
     */
    method Tick(exec: Exec<M, World<M>>, kernel_flags: word, words: StackWords, ghost s: Sys<M>)
      requires Shows(s) && StackUse(words)
      modifies cpu, scheduler`current_task
      ensures Shows(Step(exec, s, Timer(kernel_flags)))
    {
      hide AllSaved, Separate, Memories, InPlace, Scratch, StructIn, StructAt, ForwardChain, BackwardLinks, IndexOf, ResumeFlags, Plain;
      CurrentIndex(s);
      var task := scheduler.current_task;
      var next := scheduler.GetNext();
      ghost var c, n, ts := s.current, (s.current + 1) % |s.saved|, scheduler.tasks;
      AtPlace(ts, kernel, stack_low, kernel_stack, c);
      AtPlace(ts, kernel, stack_low, kernel_stack, n);
      ghost var r := SwitchRegisters(cpu, kernel_stack, kernel, words, task.registers, next, kernel_flags, Addresses(ts), s.saved, c, n, stack_low);
      scheduler.TaskSwitch(next);
    }

    /** Another interrupt: its handler runs and task_page returns to the current task; a registered one saves its state. */
    method Interrupted(exec: Exec<M, World<M>>, registered: bool, words: StackWords, ghost s: Sys<M>)
      requires Shows(s) && StackUse(words)
      modifies cpu, scheduler`current_task
      ensures Shows(Step(exec, s, Interrupt(registered)))
    {
      hide AllSaved, Separate, Memories, InPlace, StructIn, StructAt, ForwardChain, BackwardLinks, Plain;
      var task := scheduler.current_task;
      assert s.saved[s.current := s.saved[s.current]] == s.saved;
      AtPlace(scheduler.tasks, kernel, stack_low, kernel_stack, s.current);
      ghost var r := HandleInterrupt(cpu, kernel_stack, kernel, words.scratch, task.registers, registered,
                                     Addresses(scheduler.tasks), s.saved, s.current, stack_low);
      scheduler.TaskSwitch(task);
    }

    /** One event, whichever it is. */
    method Advance(exec: Exec<M, World<M>>, h: Happening, ghost s: Sys<M>) returns (ghost e: Event<World<M>>)
      requires Shows(s) && (!h.Instruction? ==> StackUse(h.words))
      modifies this, cpu, scheduler
      ensures Is(e, h) && Shows(Step(exec, s, e)) && scheduler.tasks == old(scheduler.tasks)
    {
      hide Shows, Step, StackUse;
      match h {
        case Instruction =>
          e := UserStep(exec, s);
        case TimerFires(kernel_flags, words) =>
          e := Timer(kernel_flags);
          Tick(exec, kernel_flags, words, s);
        case OtherInterrupt(registered, words) =>
          e := Interrupt(registered);
          Interrupted(exec, registered, words, s);
      }
    }

    lemma OnTheProcessor(s: Sys<M>, i: nat)
      requires Shows(s) && i < |s.saved|
      ensures Ok(s) && |s.saved| == |scheduler.tasks|
      ensures scheduler.current_task != null && scheduler.current_task.registers in memory
      ensures scheduler.current_task == scheduler.tasks[i] <==> s.loaded == i
      ensures (cpu.Running(), memory[scheduler.current_task.registers]) == (s.cpu, s.memory[s.loaded])
    {
    }

    /**
     A whole run of user steps and interrupts, with what one task sees at each of its
     own steps.  It is a run of the state machine, in the worlds that there were, so
     a task that is blind sees what it would see with the machine to itself.
     */
    method Observe(exec: Exec<M, World<M>>, hs: seq<Happening>, task: Task, ghost i: nat, ghost s: Sys<M>, ghost w: World<M>)
      returns (seen: seq<(Registers, M)>, ghost es: seq<Event<World<M>>>)
      requires Shows(s) && i < |s.saved| && task == scheduler.tasks[i]
      requires forall j :: 0 <= j < |hs| && !hs[j].Instruction? ==> StackUse(hs[j].words)
      modifies this, cpu, scheduler
      ensures |es| == |hs| && forall j :: 0 <= j < |hs| ==> Is(es[j], hs[j])
      ensures scheduler.tasks == old(scheduler.tasks) && Shows(Run(exec, s, es)) && seen == Trace(exec, s, es, i)
      ensures Blind(exec, StateOf(s, i), w, i == s.current) ==> seen == AloneTrace(exec, StateOf(s, i), w, |seen|)
    {
      hide Shows, Step, StackUse, AloneTrace, Blind, Alone, Is;
      seen, es := [], [];
      OnTheProcessor(s, i);
      StartEmpty(exec, s, i);
      var j := 0;
      while j < |hs|
        invariant 0 <= j == |es| <= |hs| && scheduler.tasks == old(scheduler.tasks)
        invariant forall q :: 0 <= q < j ==> Is(es[q], hs[q])
        invariant Shows(Run(exec, s, es)) && seen == Trace(exec, s, es, i)
      {
        ghost var before := Run(exec, s, es);
        OnTheProcessor(before, i);
        if hs[j].Instruction? && scheduler.current_task == task {
          seen := seen + [(View(cpu.Running()), memory[task.registers])];
        }
        ghost var e := Advance(exec, hs[j], before);
        KindOf(e, hs[j]);
        assert (es + [e])[..j] == es;
        es := es + [e];
        j := j + 1;
      }
      if Blind(exec, StateOf(s, i), w, i == s.current) {
        PreemptionInvisible(exec, s, es, i, w);
      }
    }
  }

  lemma KindOf<M>(e: Event<World<M>>, h: Happening)
    requires Is(e, h)
    ensures e.User? <==> h.Instruction?
  {
  }

  lemma AtPlace(tasks: seq<Task>, kernel: Translation, low: int, high: int, i: nat)
    requires InPlace(tasks, kernel, low, high) && i < |tasks|
    ensures Plain(kernel, low, high) && TaskInPlace(tasks[i], kernel, low, high)
  {
    hide TaskInPlace, Plain;
  }

  lemma OffTheStack(mem: Memory, addresses: seq<word>, saved: seq<Registers>, low: int, high: int, from: int, to: int)
    requires AllSaved(mem, addresses, saved, low, high) && low <= from && to <= high
    ensures forall i :: 0 <= i < |addresses| ==> StructOutside(addresses[i], from, to)
  {
    hide StructIn, StructAt;
    forall i | 0 <= i < |addresses|
      ensures StructOutside(addresses[i], from, to)
    {
      assert Saved(mem, addresses[i], saved[i], low, high);
    }
  }

  /** The world holds the memory of every task but the current one. */
  ghost predicate OthersIn<M>(tasks: seq<Task>, world: World<M>, s: Sys<M>)
    requires |s.memory| == |tasks|
  {
    forall j :: 0 <= j < |tasks| && j != s.current ==> tasks[j].registers in world.others && world.others[tasks[j].registers] == s.memory[j]
  }

  lemma OthersThere<M>(tasks: seq<Task>, memory: map<word, M>, s: Sys<M>, world: World<M>)
    requires Memories(tasks, memory, s.memory) && Separate(Addresses(tasks)) && s.current < |tasks|
    requires world.others == memory - {tasks[s.current].registers}
    ensures OthersIn(tasks, world, s)
  {
    forall j | 0 <= j < |tasks| && j != s.current
      ensures tasks[j].registers != tasks[s.current].registers
    {
      assert StructOutside(Addresses(tasks)[j], Addresses(tasks)[s.current], Addresses(tasks)[s.current] as int + 48);
    }
  }

  lemma StoreMemory<M>(tasks: seq<Task>, memory: map<word, M>, memories: seq<M>, c: nat, m: M)
    requires Memories(tasks, memory, memories) && Separate(Addresses(tasks)) && c < |tasks|
    ensures Memories(tasks, memory[tasks[c].registers := m], memories[c := m])
  {
    forall i | 0 <= i < |tasks| && i != c
      ensures tasks[i].registers != tasks[c].registers
    {
      assert StructOutside(Addresses(tasks)[i], Addresses(tasks)[c], Addresses(tasks)[c] as int + 48);
    }
  }

  /** A new task in the list: the other structs stay, and its own holds the initial registers. */
  lemma JoinSaved(ts: seq<Task>, task: Task, m: Memory, m': Memory, entries: seq<Entry>, entry: Entry, low: int, high: int)
    requires AllSaved(m, Addresses(ts), InitialSaved(entries), low, high) && Separate(Addresses(ts)) && |entries| == |ts|
    requires SameOutside(m, m', task.registers, task.registers + 48) && StructIn(m', task.registers)
    requires StructAt(m', task.registers) == InitialRegisters(entry.is_elf, entry.address)
    requires task.registers % 4 == 0 && StructOutside(task.registers, low, high)
    requires forall t :: t in ts ==> StructOutside(task.registers, t.registers, t.registers + 48) && StructOutside(t.registers, task.registers, task.registers + 48)
    ensures Separate(Addresses(ts + [task])) && AllSaved(m', Addresses(ts + [task]), InitialSaved(entries + [entry]), low, high)
  {
    hide StructIn, StructAt, SameOutside;
    var a, saved := Addresses(ts), InitialSaved(entries);
    forall i | 0 <= i < |a|
      ensures StructOutside(a[i], task.registers, task.registers + 48)
    {
      assert ts[i] in ts;
    }
    SavedKept(m, m', a, saved, low, high, task.registers, task.registers + 48);
    assert Addresses(ts + [task]) == a + [task.registers];
    assert InitialSaved(entries + [entry]) == saved + [InitialRegisters(entry.is_elf, entry.address)];
    JoinSeparate(ts, task);
    JoinAll(m', a, saved, task.registers, InitialRegisters(entry.is_elf, entry.address), low, high);
  }

  lemma JoinAll(mem: Memory, a: seq<word>, saved: seq<Registers>, b: word, r: Registers, low: int, high: int)
    requires AllSaved(mem, a, saved, low, high) && Saved(mem, b, r, low, high)
    ensures AllSaved(mem, a + [b], saved + [r], low, high)
  {
    hide Saved;
  }

  lemma JoinSeparate(ts: seq<Task>, task: Task)
    requires Separate(Addresses(ts))
    requires forall t :: t in ts ==> StructOutside(task.registers, t.registers, t.registers + 48) && StructOutside(t.registers, task.registers, task.registers + 48)
    ensures Separate(Addresses(ts + [task]))
  {
    var a, b := Addresses(ts), Addresses(ts + [task]);
    forall i, j | 0 <= i < |b| && 0 <= j < |b| && i != j
      ensures StructOutside(b[i], b[j], b[j] as int + 48)
    {
      if i < |a| && j < |a| {
        assert StructOutside(a[i], a[j], a[j] as int + 48);
      } else if i < |a| {
        assert ts[i] in ts;
      } else {
        assert ts[j] in ts;
      }
    }
  }

  lemma JoinPlaced<M>(ts: seq<Task>, task: Task, memory: map<word, M>, memories: seq<M>, m: M, kernel: Translation, low: int, high: int)
    requires Memories(ts, memory, memories) && InPlace(ts, kernel, low, high) && TaskInPlace(task, kernel, low, high)
    requires forall t :: t in ts ==> t.registers != task.registers
    ensures Memories(ts + [task], memory[task.registers := m], memories + [m]) && InPlace(ts + [task], kernel, low, high)
  {
    hide TaskInPlace, Plain;
  }

  method HandleInterrupt(cpu: Cpu, kernel_stack: word, kernel: Translation, scratch: Memory, a: word, registered: bool,
                         ghost addresses: seq<word>, ghost saved: seq<Registers>, ghost c: nat, low: word) returns (ghost r: Registers)
    requires AllSaved(cpu.mem, addresses, saved, low, kernel_stack) && Separate(addresses) && c < |saved|
    requires Plain(cpu.paging, low, kernel_stack) && Plain(kernel, low, kernel_stack) && Plain(kernel, a, a + 48)
    requires a == addresses[c] && kernel_stack % 4 == 0 && low + 52 <= kernel_stack && Scratch(scratch, low, kernel_stack - 52)
    modifies cpu
    ensures cpu.Running() == old(cpu.Running()) && cpu.paging == old(cpu.paging)
    ensures r == (if registered then old(cpu.Running()) else saved[c])
    ensures AllSaved(cpu.mem, addresses, saved[c := r], low, kernel_stack)
  {
    hide AllSaved, Separate, Scratch, StructIn, StructAt, SameBut, Plain;
    ghost var m0 := cpu.mem;
    SavedAt(m0, addresses, saved, low, kernel_stack, c, c);
    cpu.Interrupted(kernel_stack, kernel, low, scratch, a, registered);
    r := StructAt(cpu.mem, a);
    SavedOne(m0, cpu.mem, addresses, saved, low, kernel_stack, c, r);
  }

  /** The context switch on the processor, from the task with its struct at a to the next one. */
  method SwitchRegisters(cpu: Cpu, kernel_stack: word, kernel: Translation, words: StackWords, a: word, next: Task, kernel_flags: word,
                         ghost addresses: seq<word>, ghost saved: seq<Registers>, ghost c: nat, ghost n: nat, ghost low: word) returns (ghost r: Registers)
    requires AllSaved(cpu.mem, addresses, saved, low, kernel_stack) && Separate(addresses) && c < |saved| && n < |saved|
    requires Plain(cpu.paging, low, kernel_stack) && Plain(kernel, low, kernel_stack) && Plain(kernel, a, a + 48)
    requires TaskInPlace(next, kernel, low, kernel_stack)
    requires a == addresses[c] && next.registers == addresses[n] && kernel_stack % 4 == 0 && words.call_esp % 4 == 0
    requires low + 32 <= words.call_esp && words.call_esp + 60 <= kernel_stack
    requires Scratch(words.scratch, words.call_esp - 32, kernel_stack - 52)
    modifies cpu
    ensures r == old(cpu.Running()) && AllSaved(cpu.mem, addresses, saved[c := r], low, kernel_stack) && cpu.paging == next.paging
    ensures cpu.Running() == saved[c := r][n].(flags := ResumeFlags(kernel_flags))
  {
    hide AllSaved, Separate, Scratch, StructIn, StructAt, SameBut, ResumeFlags, Plain;
    ghost var m0, from := cpu.mem, words.call_esp - 32;
    SavedAt(m0, addresses, saved, low, kernel_stack, c, n);
    PlainPart(cpu.paging, low, kernel_stack, from, kernel_stack);
    PlainPart(kernel, low, kernel_stack, from, kernel_stack);
    PlainPart(next.paging, low, kernel_stack, from, kernel_stack);
    r := cpu.Running();
    cpu.Preempt(kernel_stack, kernel, words.scratch, a, next.registers, next.paging, words.call_esp, words.return_address, kernel_flags);
    ButWider(m0, cpu.mem, low, from, kernel_stack, a);
    SavedOne(m0, cpu.mem, addresses, saved, low, kernel_stack, c, r);
  }
}
