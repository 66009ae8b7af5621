# maerOS in Dafny

A model of the algorithms of the maerOS kernel, a small 32-bit x86 system, with proofs of what they keep over whole runs.
`dafny verify dfyconfig.toml` checks everything; no member depends on anything outside this directory.

The code that updates things in place is modelled by classes and methods that do the same, and each method is proved against
a function of the old state. The long-run results are lemmas about those functions.

| files | part of the system |
|---|---|
| `HeapTable.dfy`, `Heap.dfy` | the first-fit block heap and its byte-coded table |
| `PageTable.dfy`, `Paging.dfy` | two-level page tables that live in heap blocks |
| `Isolation.dfy`, `Processes.dfy` | per-process allocations, and write isolation over every run of the kernel |
| `ElfMap.dfy`, `Loading.dfy` | mapping program segments, image and stack, and when that respects isolation |
| `TaskList.dfy` | the task list and round-robin order |
| `TaskRegisters.dfy`, `Context.dfy` | saved registers and the context switch, instruction by instruction |
| `Preemption.dfy`, `Switching.dfy` | preemption over every interleaving, and the kernel code that makes its steps |
| `KernelView.dfy`, `Startup.dfy` | what the kernel sees under the page directory of a task, and what a task finds when it starts |
| `Streamer.dfy`, `Fat16.dfy` | byte reads over sectors, and file reads along a cluster chain |
| `CString.dfy`, `LinkedList.dfy`, `Command.dfy` | strtok, the command list and argv |
| `PathParser.dfy`, `Itoa.dfy`, `Gdt.dfy`, `Keyboard.dfy` | paths, decimal text, segment descriptors, the keyboard ring |
| `Bits.dfy`, `Common.dfy` | 32-bit words with the bitwise operators defined bit by bit; bytes, characters and error codes |

## Main results

- **Write isolation** (`Isolation.WriteIsolation`). From boot, after any interleaving of process creation, program mapping,
  `process_malloc`, `process_free`, kernel allocations and stores, every page of the address space whose write bit is set for a
  process stands for a heap block of that process, which no page of another process can write and which holds no page tables or
  kernel data. A heap page that no program mapping has written is open to user writes, through directory and table, exactly when it
  lies in one of the recorded live allocations. A user store may change any block that some writeable page stands for, whatever its
  virtual address, so the theorem also says that the tables protect themselves.
  Mapping calls keep this exactly when what they leave writeable belongs to the process (`Isolation.MapExactly`). A binary always
  does, but above 12 MiB it hides heap pages (`Loading.BinaryMapping`). An ELF segment does if `p_memsz` does not run past the
  image, which `process_map_elf` does not check (`Loading.SegmentFits`, `Loading.SegmentOverruns`).
  The methods on the heap, memory and process objects take these steps: `Processes.CreateProcess`, `ServeMalloc`, `ServeFree`,
  `ServeKernelMalloc`, `ServeKernelFree`, `CopyStringFromTask` and `Loading.MapMemory`. The other events are stores by user code
  and by the kernel, which are arbitrary within their bounds, and the passing of a block from the kernel to a process, which changes no memory.
- **Preemption** (`Preemption.InvisibleExactly`, `Preemption.UnnoticedExactly`). `task_return` pushes the kernel's own flags and
  not the saved ones, so for code that tests flags the promise of an unnoticed switch is false (`Preemption.Noticed`). It is also
  false for code that reads memory of others: page directories show every task all of memory, readable, and nothing keeps a program
  from looking. Exactly: a given task notices no run, whatever the other tasks execute, if and only if, wherever its own lone run is
  resumed with other flags and with other contents in the rest of memory, it goes on as before. In one given run it notices nothing
  if and only if this holds at the places where the timer did strike it, with what memory held there.
  `Switching.Switcher.Observe` runs the task list, the interrupt entry, the saved structs and `task_return` through any sequence of
  events and shows that the task sees just what the state machine says.
- **The kernel under a task's directory** (`KernelView.BinaryKeeps`, `KernelView.ElfKeeps`, `KernelView.StaysInPlace`). The code of
  the context switch relies on the stack and the saved registers being at the same addresses under every directory, which
  `Switching` therefore asks for. A program mapping leaves a stretch of kernel addresses in place exactly if it stays clear of it,
  and nothing else in any run moves one. A binary of 2 MiB or more covers the stack at 0x600000 (`KernelView.StackPageLost`): it is
  accepted and breaks no isolation, but its interrupt frames are lost.
- **Start** (`Startup.StackReady`, `Startup.BinaryReady`, `Startup.ElfReady`, `Startup.SegmentsReady`). The registers of `task_init`
  fit the address space of `process_map_memory` and the descriptor table: the stack pointer is the upper end of a writeable stack,
  the instruction pointer the first byte of the program, the selectors those of the user segments.
- **Heap** (`HeapTable.HeapRun`, `HeapTable.ReadingUnique`, `HeapTable.TableUnique`). The bytes of the table always spell out
  disjoint runs, in exactly one way, and the bytes are determined by the allocations.
- **Page tables** (`Paging.Machine.Calls`, `Paging.Machine.Lifetime`). Any sequence of mapping calls acts like writes to a flat
  map, and a directory gives back every heap block it took.
- **File reads** (`Fat16.ReadsTheFileExactly`). The reader caps each step at a cluster whatever the offset inside it, so it
  returns the bytes of the file exactly when every step that crosses a cluster end does so between adjacent clusters.

Where the code does less than its callers may hope, the exact condition is proved: a request that fits nowhere runs off the end
of the table when the last block is free (`HeapTable.OverrunExactly`), a request that rounds to no block yields an address that
is not allocated (`HeapTable.HandedOutIsLive`), the rest of the last block of an allocation is
not cleared (`Isolation.GrantContents`), removing a task other than the tail breaks the backward links
(`TaskList.Scheduler.ListRemove`), the keyboard ring goes on answering like a queue exactly if no more than 1024 characters are
pending and no backspace meets an empty buffer (`Keyboard.AllowedExactly`), and ELF segments are byte-accurate only when their addresses agree modulo
the page size (`ElfMap.CongruenceNeeded`).

## Model

| member | source | states |
|---|---|---|
| `HeapTable.BlocksExact` | src/memory/heap/heap.c:65-76 | rounding is the ceiling for sizes up to 2^32-4096, and exactly 0 and the larger sizes round to no block |
| `HeapTable.StartBlock` | src/memory/heap/heap.c:93-134 | the lowest index of n free blocks if there is one, else the start of the trailing free run, else -ENOMEM |
| `Heap.BlockHeap.GetStartBlock` | src/memory/heap/heap.c:93-134 | the scanning loop returns that block on every table and for every count |
| `HeapTable.OverrunExactly` | src/memory/heap/heap.c:127-171 | the blocks marked lie inside the table exactly when a fit exists or the last block is taken |
| `HeapTable.Codes` | src/memory/heap/heap.h:8-32 | the bytes that marking and clearing leave, in numbers, and which bytes count as free |
| `Heap.BlockHeap.MarkBlocksTaken` | src/memory/heap/heap.c:147-172 | the run gets its FIRST, HAS_NEXT and TAKEN codes and no other entry changes |
| `Heap.BlockHeap.MarkBlocksFree` | src/memory/heap/heap.c:202-215 | clears along the HAS_NEXT chain from any start, on any table |
| `Heap.AddressRoundTrip` | src/memory/heap/heap.c:139-142 | addresses handed out are non-null and convert back to their block |
| `Heap.BelowThePool` | src/memory/heap/heap.c:218-221 | an address below the pool, such as null, gives a negative block |
| `Heap.BlockHeap.Malloc` | src/memory/heap/heap.c:178-231 | null and no change, or the found run marked; one allocation is added to the live ones |
| `Heap.BlockHeap.Free` | src/memory/heap/heap.c:217-236 | a live address loses exactly its own allocation |
| `Heap.BlockHeap.constructor` | src/memory/heap/heap.c:47-62 | a created heap is empty and well formed |
| `HeapTable.RunsDisjoint` | src/memory/heap/heap.c:147-172 | two live runs never share a block, because of the codes alone |
| `HeapTable.ReadingUnique` | src/memory/heap/heap.h:8-32 | a table encodes at most one set of allocations, the one read from its bits |
| `HeapTable.TableUnique` | src/memory/heap/heap.h:8-32 | a set of allocations has at most one table |
| `HeapTable.MarkAdds` | src/memory/heap/heap.c:147-172 | marking a free run adds one new allocation and keeps the encoding |
| `HeapTable.FreeRemoves` | src/memory/heap/heap.c:202-215 | freeing clears exactly the run of that allocation, no neighbour |
| `HeapTable.MallocFree` | src/memory/heap/heap.c:178-236 | malloc then free restores the table byte for byte |
| `HeapTable.HandedOutIsLive` | src/memory/heap/heap.c:147-171 | the block returned is a live allocation exactly when the request rounds to at least one block |
| `HeapTable.TakenIsTotal` | src/memory/heap/heap.c:147-215 | the number of taken blocks is the sum of the live sizes |
| `HeapTable.ApplyKeeps` | src/memory/heap/heap.c:178-236 | each in-domain call keeps the encoding and changes the live allocations as specified |
| `HeapTable.HeapRun` | src/memory/heap/heap.c:147-236 | over every run: well formed, disjoint, counted exactly |
| `PageTable.SetEntryIsUpdate` | src/memory/paging/paging.c:169-193 | one store through the two levels changes one page of the flat map and no block but a table of that directory |
| `PageTable.WritesAreLookup` | src/memory/paging/paging.c:169-218 | after any writes a page reads as the last one to it, or as before |
| `PageTable.RangeLookup` | src/memory/paging/paging.c:118-131 | a range maps its own pages, one after the other, and no other |
| `PageTable.TranslationKeepsOffset` | src/memory/paging/paging.c:195-205 | translation takes the page from the entry and keeps the offset in it |
| `PageTable.FlagAccess` | src/memory/paging/paging.c:108-116 | flags ORed into an address are the present, write and user bits of the entry |
| `Bits.TwoFlagsRoundTrip` | src/memory/paging/paging.c:29-52 | a table address survives being ORed with two groups of flags and masked |
| `Paging.Machine.Kzalloc` | src/memory/heap/kheap.c:37-50 | allocates like the heap and clears exactly the bytes asked for |
| `Paging.Machine.FillTable` | src/memory/paging/paging.c:22-26 | 1024 identity entries with the flags, in that block only |
| `Paging.ZeroBytes` | src/memory/heap/kheap.c:42-50 | byte i is 0 for i below the size and kept from there on |
| `Paging.Machine.New4gb` | src/memory/paging/paging.c:12-36 | 1026 fresh single blocks, every page mapped to itself with the flags, and each directory word its table with the flags and the write bit |
| `Paging.FreshAccess` | src/memory/paging/paging.c:12-36 | through directory and table a fresh page gives user code exactly the access in the flags |
| `Paging.Machine.Set` | src/memory/paging/paging.c:169-193 | writes the entry of an aligned page; a misaligned address changes nothing |
| `Paging.Machine.GetEntry` | src/memory/paging/paging.c:209-218 | the entry of an aligned address, that of page 0 for another |
| `Paging.Machine.Map` | src/memory/paging/paging.c:108-116 | one page mapped, or -EINVARG and no change |
| `Paging.Machine.MapRange` | src/memory/paging/paging.c:118-131 | count pages mapped, wrapping at 4 GiB, or none when misaligned |
| `Paging.Machine.MapTo` | src/memory/paging/paging.c:133-163 | rejected calls change nothing and return -EINVARG |
| `Paging.Machine.Calls` | src/memory/paging/paging.c:108-218 | any sequence of mapping calls refines the flat map |
| `Paging.Machine.Free4gb` | src/memory/paging/paging.c:46-58 | frees the tables found by masking, the directory and the chunk, and nothing else |
| `Paging.Machine.Lifetime` | src/memory/paging/paging.c:12-58 | create, map at will, free: the heap table is exactly as before |
| `Processes.Process.FindFreeAllocationIndex` | src/task/process.c:50-63 | the lowest empty slot, or -ENOMEM when all 1024 are used |
| `Processes.Process.GetAllocationByAddr` | src/task/process.c:131-140 | the lowest slot with that pointer |
| `Processes.Process.AllocationUnjoin` | src/task/process.c:117-127 | every slot with that pointer is cleared and no other |
| `Processes.Process.Malloc` | src/task/process.c:66-99 | heap table, memory, slots and result after every outcome, with the refused ones undone |
| `Processes.Process.Free` | src/task/process.c:311-332 | unmaps, unjoins and frees a recorded pointer; another pointer changes nothing |
| `Isolation.AllocLookup` | src/task/process.c:79-92 | the mapping of an allocation covers exactly its own pages |
| `Isolation.GrantKeeps` | src/task/process.c:66-92 | a granted allocation keeps the kernel invariant |
| `Isolation.GrantContents` | src/task/process.c:66-72 | a granted allocation holds zeros up to its size, and behind that whatever its last block held before |
| `Isolation.RefusedKeeps` | src/task/process.c:93-99 | a refused one restores the heap table and keeps the invariant |
| `Isolation.RevokeKeeps` | src/task/process.c:311-332 | a free keeps the invariant |
| `Isolation.RevokedIsAbsent` | src/task/process.c:320-321 | a freed page is not even present for the process |
| `Isolation.OpenDirectory` | src/memory/paging/paging.c:29 | the directory words of a process withhold nothing, so the table entries alone decide its access |
| `Isolation.AllocsDisjoint` | src/task/process.c:66-99 | recorded allocations of all processes are pairwise disjoint |
| `Isolation.StepKeeps` | src/task/process.c:66-496 | every event keeps the invariant |
| `Isolation.GrantFrames` | src/task/process.c:79-92 | a granted allocation leaves every writeable page standing for memory of the process |
| `Isolation.RevokeUnmaps` | src/task/process.c:311-332 | and so does a revoked one, for what is left |
| `Isolation.ReachedExactly` | src/task/process.c:419-496 | the heap pages counted as written by program mappings are exactly those that some mapping of the run wrote |
| `Isolation.MapExactly` | src/memory/paging/paging.c:133-163 | a mapping call for a process keeps the invariant exactly when all it leaves writeable belongs to that process |
| `Isolation.WriteableBelongs` | src/task/process.c:66-99 | whatever page a process may write, its frame is an allocation, the image or the stack of this process |
| `Isolation.WriteIsolation` | src/task/process.c:66-496 | over every run, each page with its write bit set stands for a block of that process that no other process reaches and that holds no tables or kernel data; heap pages off the program mappings are open to user writes, through both levels, exactly in the live allocations |
| `Processes.MallocServes` | src/task/process.c:66-99 | a non-null result is recorded in a slot that was empty; a null one leaves heap table and slots as they were |
| `Processes.ServeMalloc` | src/task/process.c:66-99 | `process_malloc` on the heap, memory and process objects is the Malloc event of the kernel runs and keeps their invariant |
| `Processes.ServeFree` | src/task/process.c:311-332 | `process_free` of a non-null pointer, recorded or not, is the Free event |
| `Processes.CreateProcess` | src/task/task.c:242-253 | with 1026 free blocks, building the directory of a new process is a Create event the invariant allows |
| `Processes.ServeKernelMalloc` | src/memory/heap/kheap.c:37-50 | `kzalloc` is the KernelMalloc event, and its block is kernel data |
| `Processes.ServeKernelFree` | src/memory/heap/heap.c:233-236 | `kfree` of such a block is the KernelFree event |
| `Processes.PutBack` | src/task/task.c:176-190 | an entry written and put back, around a store elsewhere, leaves only the store |
| `Processes.CopyStringFromTask` | src/task/task.c:160-201 | heap table and page tables are as before and only a free block has changed, so the call is a store of the kernel; the three results |
| `ElfMap.MapElf` | src/task/process.c:435-462 | maps the headers before the first rejected one and reports it; with a good layout none is, and every byte of every congruent segment is in its place |
| `ElfMap.ElfByteAccurate` | src/task/process.c:445-459 | every byte of every congruent segment translates to its place in the image, readable by user code, writeable iff PF_W |
| `ElfMap.ElfSpares` | src/task/process.c:445-459 | a page of no segment is left as it was |
| `ElfMap.CongruenceNeeded` | src/task/process.c:447-454 | all bytes of a segment are right exactly when the addresses agree modulo the page size |
| `Loading.RangeOwn` | src/memory/paging/paging.c:118-163 | a range of pages respects isolation exactly when it is read-only or every frame is memory of the process |
| `Loading.BinaryMapping` | src/task/process.c:419-423 | a binary never breaks isolation; the heap pages stay writeable exactly in the allocations, each for itself, if and only if it has at most 0xC00 pages |
| `Loading.StackMapping` | src/task/process.c:493 | the stack always does |
| `Loading.SegmentOwn` | src/task/process.c:447-454 | a segment does exactly when it is read-only or all its pages are memory of the process |
| `Loading.SegmentFits` | src/task/process.c:447-454 | a segment that starts in the image, with foreign memory behind it, keeps the invariant exactly when it is read-only or ends inside the image |
| `Loading.SegmentOverruns` | src/task/process.c:454 | a writeable segment that runs past the image makes the block behind it writeable for the process |
| `Loading.MappedAllKeeps` | src/task/process.c:467-496 | mapping calls that are each in order are a run of events and keep the invariant |
| `Loading.BinaryInOrder` | src/task/process.c:467-496 | every binary with its stack is mapped in order |
| `Loading.ElfInOrder` | src/task/process.c:467-496 | an ELF program whose writeable segments end inside its image is mapped in order |
| `Loading.MapProgram` | src/task/process.c:467-496 | the binary call, the segments before the first rejected one, and the stack unless one was rejected |
| `Loading.MapMemory` | src/task/process.c:467-496 | `process_map_memory` on the memory and process objects is that run of events |
| `KernelView.PlainPages` | src/memory/paging/paging.c:195-205 | addresses stand for themselves exactly when their pages do |
| `KernelView.BinaryKeeps` | src/task/process.c:419-496 | a stretch of addresses stays in place exactly if neither the program nor its stack reaches into it |
| `KernelView.BinaryKeepsStack` | src/kernel.c:103 | the kernel stack stays in place exactly under programs that end below it |
| `KernelView.StackPageLost` | src/kernel.c:103 | under a binary of 0x200 pages or more, which is accepted, the top of the kernel stack is its image |
| `KernelView.ElfKeeps` | src/task/process.c:435-496 | a stretch stays in place exactly if the stack spares it and every segment on it lies where it is mapped |
| `KernelView.StepSpares` | src/task/process.c:66-496 | no event but a program mapping onto it changes the entry of a kernel page |
| `KernelView.KernelPageStays` | src/task/process.c:66-496 | over every run the entry of a kernel page stays, unless a program mapping writes it |
| `KernelView.StaysInPlace` | src/task/process.c:66-496 | kernel addresses in place after the program was mapped stay so for the rest of the run |
| `KernelView.DirectoryInPlace` | src/task/task.asm:9-63 | stack and registers in place page by page are what the context switch needs of a directory |
| `Startup.StackReady` | src/task/process.c:493 | esp of a new task is the upper end of its stack: the 16 KiB below it are the stack block, open to user writes |
| `Startup.BinaryReady` | src/task/process.c:419-423 | ip of a binary is the first byte of its image, and the image follows from there, open to user writes |
| `Startup.ElfReady` | src/task/task.c:259-263 | ip of an ELF program is e_entry; a byte of a congruent segment is the one of the image, open to user code as its header says |
| `Startup.SegmentsReady` | src/task/task.c:265-266 | cs and ss select, with privilege 3, the flat user code and writeable data segments of the kernel's table |
| `Startup.RestClear` | src/task/task.c:244 | all other registers and the flags are 0 |
| `TaskList.Scheduler.TaskNew` | src/task/task.c:26-62 | appends a task; the first becomes current |
| `TaskList.Scheduler.GetNext` | src/task/task.c:65-73 | the cyclic successor of the current task |
| `TaskList.Scheduler.ListRemove` | src/task/task.c:76-97 | the old order without the task, the successor current; doubly linked exactly if the tail was removed |
| `TaskList.Scheduler.Run` | src/task/task.c:26-97 | creations, switches and tail removals keep the list doubly linked |
| `TaskList.Scheduler.Turns` | src/task/task.c:113-131 | k calls of task_next visit the next k tasks of the ring, and any n consecutive ones every task exactly once |
| `TaskList.EveryTaskOnce` | src/task/task.c:65-131 | among the tasks visited, n consecutive turns run each of the n tasks exactly once, ending with the one that ran just before them |
| `Context.Cpu.InterruptEntry` | src/idt/idt.asm:70-90 | the interrupt frame holds the registers of the interrupted code |
| `Context.Cpu.SaveState` | src/task/task.c:134-148 | the saved registers are those of the frame |
| `Context.Cpu.TaskInit` | src/task/task.c:242-273 | memset and the stores of task_init leave the initial registers in the struct |
| `Context.Cpu.RestoreGeneralPurposeRegisters` | src/task/task.asm:51-63 | the seven general registers come from the struct and the stack is as before the call |
| `TaskRegisters.ResumeFlags` | src/task/task.asm:24-28 | the interrupt flag is set and every other bit is the kernel's |
| `Context.Cpu.TaskReturn` | src/task/task.asm:9-48 | all registers of the struct run, with the kernel's flags and the interrupt flag |
| `Context.Cpu.Preempt` | src/idt/idt.c:71-129 | from entry to iretd, through the directories of task, kernel and next task: one task saved, the next one running, nothing else in memory touched, if they leave stack and structs in place |
| `Context.Cpu.LeaveInterrupt` | src/idt/idt.asm:87-89 | popad and iret bring back every register of the frame, the flags included |
| `Context.Cpu.Interrupted` | src/idt/idt.asm:70-90 | under the same condition an interrupt that returns changes no register; its task's struct holds them if the interrupt is registered |
| `Preemption.UnnoticedExactly` | src/idt/idt.c:71-129 | in a given run a task notices nothing exactly when, at each point, neither the flags lost when it was last resumed nor the rest of memory at its steps since has had an effect |
| `Preemption.PreemptionInvisible` | src/idt/idt.c:71-129 | over every interleaving a blind task goes through the states of its lone run, whatever the others execute |
| `Preemption.InvisibleExactly` | src/task/task.asm:24-28 | a given task of a given system is blind, to flags and to foreign memory, if and only if it notices no run |
| `Preemption.BlindAlong` | src/task/task.asm:24-28 | a task whose own reached instructions ignore flags and foreign memory is blind |
| `Preemption.BlindEverywhere` | src/task/task.asm:24-28 | all tasks are blind exactly when no instruction looks at flags or foreign memory |
| `Preemption.Noticed` | src/task/task.c:247-248 | one task, one timer interrupt, one step: a run that shows lost flags or changed memory of others |
| `Preemption.InvisibleFromStart` | src/task/task.c:230-273 | from start-up a task sees what a lone run from its task_init registers sees if and only if that run is blind |
| `Preemption.TimerTurnsOn` | src/task/task.asm:24-28 | after every timer interrupt the next task runs with interrupts on, whatever the kernel's flags |
| `Preemption.AlwaysPreemptible` | src/task/task.asm:24-28 | if user code cannot clear the interrupt flag, interrupts are on whenever it runs, over every run from the start |
| `Switching.Switcher.NewTask` | src/task/task.c:26-62 | the new task is at the end of the list and its struct in memory holds the task_init registers |
| `Switching.Switcher.UserStep` | src/task/task.c:247-248 | a user instruction is the User step, in a world that holds kernel memory and the memories of all other tasks |
| `Switching.Switcher.Start` | src/task/task.c:230-239 | the head of the list runs with its initial registers: the start of the state machine |
| `Switching.Switcher.Tick` | src/idt/idt.c:71-129 | saving, task_next and task_return on the list, the processor and memory are the Timer step, with every directory leaving stack and registers in place |
| `Switching.Switcher.Interrupted` | src/idt/idt.c:71-82 | an interrupt that returns through task_page and iret is the Interrupt step |
| `Switching.Switcher.Observe` | src/idt/idt.c:71-129 | a whole run of this code is the run of the state machine in the worlds there were, and a blind task sees its lone run |
| `Streamer.DiskStream.Read` | src/disk/streamer.c:27-65 | the slice of the flat disk up to the first bad sector, the position advanced by as much, the sector reads counted |
| `Streamer.ReadCount` | src/disk/streamer.c:29-62 | (pos % 512 + total) / 512 + 1 sector reads when none fails |
| `Streamer.StatusSplit` | src/disk/streamer.c:27-65 | two reads in a row fail where, and as, one read of both does |
| `Fat16.GetClusterForOffset` | src/fs/fat/fat16.c:424-467 | the cluster that many links down the chain, or -EIO where the chain stops |
| `Fat16.ReadInternal` | src/fs/fat/fat16.c:469-507 | status of the first failing step, or the bytes of the positions used; nothing outside the request is written |
| `Fat16.ReadsTheFileExactly` | src/fs/fat/fat16.c:481-502 | the positions are those of the file exactly when steps cross only between adjacent clusters |
| `Fat16.FileByte` | src/fs/fat/fat16.c:384-387 | the file is the clusters of its chain one after the other, cluster c at its place in the data area, which starts with number 2 |
| `Fat16.FileSlice` | src/fs/fat/fat16.c:469-507 | under that condition the buffer is the slice of the file |
| `Fat16.ReadFile` | src/fs/fat/fat16.c:509-514 | fat16_read_internal yields the slice of the file, or the first error |
| `Fat16.AlignedOrInside` | src/fs/fat/fat16.c:481-502 | aligned offsets and requests inside one cluster meet the condition |
| `Fat16.ConsecutiveRead` | src/fs/fat/fat16.c:384-387 | a consecutive chain is read as one stretch of the disk |
| `Fat16.FatRead` | src/fs/fat/fat16.c:730-751 | nmemb or the error of the first member that fails; the members before it are in the buffer, as the slice of the file if none crosses to a cluster not next to it, and nothing behind it is touched |
| `Fat16.MembersAreOneRead` | src/fs/fat/fat16.c:730-751 | on a consecutive chain the members are one read of size * nmemb bytes, up to the last byte of the chain |
| `Fat16.MembersFailAsOne` | src/fs/fat/fat16.c:730-751 | and they fail exactly when, and with the same error as, that one read |
| `CString.Strncpy` | programs/stdlib/src/string.c:96-109 | the string cut to what the buffer holds, terminated |
| `CString.Tokenizer.Strtok` | programs/stdlib/src/string.c:120-176 | the first token in place and the rest to come; null with a null cursor at the end; a left-over cursor wins over the argument |
| `CString.TokensOfJoined` | programs/stdlib/src/string.c:120-176 | words joined by spaces tokenise back to themselves |
| `Command.ParseCommand` | programs/stdlib/src/peachos.c:5-50 | the list holds the words of the line, as many as could be allocated; the cursor is clean exactly when all were |
| `Command.CountArguments` | src/task/process.c:248-259 | the length of the list |
| `Command.InjectArguments` | src/task/process.c:269-308 | argc and argv describe the list, or an error and nothing is set; the allocations granted, also before a failure, stay recorded |
| `Command.CommandLine` | src/task/process.c:248-308 | a line becomes its words in argv, and the tokeniser is clean for the next one |
| `Command.ArgumentsRoundTrip` | programs/stdlib/src/peachos.c:15-47 | arguments joined by spaces come back as they were |
| `PathParser.GetDriveByPath` | src/fs/pparser.c:15-35 | the drive digit of an accepted path, else -EBADPATH |
| `PathParser.GetPathPart` | src/fs/pparser.c:46-70 | the piece up to the slash, which with its terminator fits the 108-byte buffer |
| `PathParser.Parse` | src/fs/pparser.c:72-144 | null exactly for other strings; else the drive and the components before the first empty one |
| `PathParser.PrintParse` | src/fs/pparser.c:9-144 | printing then parsing is the identity exactly on plain parts |
| `Itoa.Itoa` | programs/stdlib/src/stdlib.c:4-29 | the canonical decimal text, right-aligned before the terminator, inside the buffer for every int |
| `Itoa.DecimalRoundTrip` | programs/stdlib/src/stdlib.c:4-29 | that text is canonical and parses back to the number |
| `Itoa.TextLength` | programs/stdlib/src/stdlib.c:6-7 | at most eleven characters, and eleven exactly from -1000000000 down |
| `Gdt.EncodeEntry` | src/gdt/gdt.c:4-33 | accepted exactly when the limit is representable, and then decodes to the same base, limit and type, as a 32-bit segment |
| `Gdt.EncodeTable` | src/gdt/gdt.c:35-41 | the same for every entry up to the first rejected one |
| `Gdt.BuildKernelTable` | src/kernel.c:58-65 | the kernel's six descriptors are all encoded |
| `Gdt.KernelSegments` | src/kernel.c:58-65 | the kernel's own code, data and task state segments |
| `Keyboard.PushExactly` | src/keyboard/keyboard.c:76-92 | the character joins the queue while fewer than 1024 are pending; in a full buffer it is the next to come out and no queue is left |
| `Keyboard.PopIsOldest` | src/keyboard/keyboard.c:94-114 | pop returns and removes the oldest, and 0 exactly when none is pending |
| `Keyboard.BackspaceExactly` | src/keyboard/keyboard.c:54-62 | removes the newest; on an empty buffer no queue is left |
| `Keyboard.RingIsQueue` | src/keyboard/keyboard.c:48-114 | over every run the ring answers like a queue |
| `Keyboard.FullPushShows` | src/keyboard/keyboard.c:76-92 | after a push into a full buffer, 1025 pops answer differently from a queue |
| `Keyboard.EmptyBackspaceShows` | src/keyboard/keyboard.c:54-62 | after a backspace on an empty buffer, the next character pushed is not popped |
| `Keyboard.AllowedExactly` | src/keyboard/keyboard.c:48-114 | an operation is within the two limits if and only if the ring still answers like a queue in every run within them that follows |
| `Keyboard.KeyboardBuffer.Push` | src/keyboard/keyboard.c:76-92 | the store and the tail step, none for a zero character |
| `Keyboard.KeyboardBuffer.Pop` | src/keyboard/keyboard.c:94-114 | the character at the head, cleared and passed, if there is one |
| `Keyboard.KeyboardBuffer.Backspace` | src/keyboard/keyboard.c:54-62 | the tail steps back and its slot is cleared |

## Left out

- Device input and output, the interrupt controller, boot code and the loading of descriptor tables: hardware effects. A sector read is a function that may fail, and loading a page directory sets which memory is visible.
- Terminal, shell, syscall registration, file descriptors and process slots: user interface and table scans that would only add easy members.
- heap_create's checks of its arguments: the model starts from a table of the right length.
- Zero-size and wrapping requests to process_malloc: they yield an address that is not allocated, so isolation is stated for requests that round to at least one block, and for frees of non-null pointers.
- process_terminate: it passes null pointers through process_free to the heap, where the block index is negative.
- Isolation.WriteIsolation: a mapping call that leaves memory of others writeable is no event of the runs; which calls do is proved exactly. Image and stack stay with their process, since process_terminate is left out.
- Processes.Process.Malloc: the failure of paging_map_to is modelled, although no recorded allocation can meet it.
- Contents of process memory and task_get_stack_item: not modelled; a store by user code may change any block its tables allow.
- Lists after the removal of a task other than the tail: only the single removal is characterised, since the stale prev links make later removals depend on freed memory.
- TaskList.Scheduler.TaskNew: the failing paths are not modelled, because they pass a null task or a null page directory to task_free, which dereferences it.
- Preemption.PreemptionInvisible: the tasks of a run are fixed; system calls, which change the registers of the caller on purpose, and exceptions, which end it, are not steps of it. User code may read all memory and writes only its own, which is what write isolation is about.
- Switching.Switcher.Tick: besides stack and registers the kernel also needs its code and data in place under the directory of a task; those are not part of the memory here, and KernelView.BinaryKeeps and KernelView.ElfKeeps say which programs leave them there.
- Processes.CopyStringFromTask: what the string is comes from outside, the copy into the caller's buffer is a store of the kernel after it, and lengths of zero or less, which ask the heap for no block, are not covered.
- Fat16.FatRead: of the member that fails only its place in the buffer is known, not what of it was read.
- Command.InjectArguments: process_malloc is a number of requests that succeed, and the sizes granted are given instead of their addresses.
- Fat16.ReadInternal: the table entry of a cluster is a function given to the reader. The code seeks to the product of table position and entry offset and compares with 12-bit markers, so no agreement with the FAT Data Structure section of Microsoft's FAT specification is claimed.
- FAT directories, file opening and fat16_seek: not modelled.
- Streamer.DiskStream.Read: positions are non-negative and stay below 2^31.
- Command.ParseCommand: starts with a clean cursor, and the 512-byte argument buffers are kept as the strings in them.
- Command.CommandLine: the list is passed to the kernel as it is, without the translation of the user address.
- PathParser.Parse: allocations succeed, as the code takes for granted, and a part is kept as the string in its buffer.
- Gdt.EncodeEntry: masks and shifts are written as remainder and division, and the panic as a result.
- Keyboard.KeyboardBuffer.Push: the lookup of the current process is left out; the counters wrap at 2^32.
