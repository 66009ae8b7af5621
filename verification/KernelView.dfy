/**
 What the kernel sees under the page directory of a task.

 An interrupt pushes its frame on the kernel stack under the directory of the task,
 and task_return reads the saved registers under the directory of the next one
 (src/idt/idt.asm, src/task/task.asm).  Both stand for themselves in a fresh
 directory.  Program mappings may move them: here is exactly which do, and that
 nothing else does.
 */
module KernelView {
  import opened Common
  import opened Bits
  import opened HeapTable
  import opened PageTable
  import opened Paging
  import opened Isolation
  import opened ElfMap
  import opened Loading
  import opened TaskRegisters

  /** esp0 of the TSS, and the page its stack starts in. */
  const KERNEL_STACK: word := 0x60_0000
  const STACK_PAGE: nat := 0x5FF
  const PROGRAM_PAGE: nat := 0x400
  const USER_STACK_PAGE: nat := 0x3FB

  /** The addresses that a page directory moves. */
  ghost function ViewOf(m: Mem, dir: word): Translation
    requires DirOk(m, dir)
  {
    map a | 0 <= a < WORD_SIZE && PhysicalAddress(m, dir, a) != a :: PhysicalAddress(m, dir, a)
  }

  /** The page stands for itself. */
  ghost predicate Kept(m: Mem, dir: word, page: nat)
    requires DirOk(m, dir) && page < PAGES
  {
    FrameOf(Entry(m, dir, page)) == page * PAGE_SIZE
  }

  ghost predicate AllKept(m: Mem, dir: word, first: nat, last: nat)
    requires DirOk(m, dir) && last <= PAGES
  {
    forall page :: first <= page < last ==> Kept(m, dir, page)
  }

  lemma AddressKept(m: Mem, dir: word, a: word)
    requires DirOk(m, dir)
    ensures Phys(ViewOf(m, dir), a) == a <==> Kept(m, dir, a / PAGE_SIZE)
  {
    hide DirOk, PhysicalAddress, Entry;
    TranslationKeepsOffset(m, dir, a);
  }

  /** Addresses stand for themselves exactly when their pages do. */
  lemma PlainPages(m: Mem, dir: word, first: nat, last: nat)
    requires DirOk(m, dir) && last <= PAGES
    ensures Plain(ViewOf(m, dir), first * PAGE_SIZE, last * PAGE_SIZE) <==> AllKept(m, dir, first, last)
  {
    hide DirOk, Phys, ViewOf, Kept;
    if Plain(ViewOf(m, dir), first * PAGE_SIZE, last * PAGE_SIZE) {
      forall page | first <= page < last
        ensures Kept(m, dir, page)
      {
        AddressKept(m, dir, page * PAGE_SIZE);
        assert Phys(ViewOf(m, dir), page * PAGE_SIZE) == page * PAGE_SIZE;
      }
    }
    if AllKept(m, dir, first, last) {
      forall a | first * PAGE_SIZE <= a < last * PAGE_SIZE
        ensures Phys(ViewOf(m, dir), a) == a
      {
        AddressKept(m, dir, a);
      }
    }
  }

  /** In a fresh directory everything stands for itself. */
  lemma FreshView(m: Mem, dir: word, flags: nat, last: nat)
    requires DirOk(m, dir) && flags < PAGE_SIZE && IdentityMapped(m, dir, flags) && last <= PAGES
    ensures AllKept(m, dir, 0, last)
  {
    hide DirOk, Or, Entry;
    forall page | 0 <= page < last
      ensures Kept(m, dir, page)
    {
      OrFlags(page * PAGE_SIZE, flags);
    }
  }

  // ---------- mapping calls ----------

  /** The entry that page writes leave at a page. */
  lemma MappedPage(k: Kernel, p: nat, ws: seq<Write>, page: nat)
    requires Inv(k) && p < |k.procs| && InRange(ws) && page < PAGES
    ensures var dir := DirectoryOf(k, p);
            Entry(MappedBy(k, p, ws).mem, dir, page) == Lookup(ws, page, Entry(k.mem, dir, page))
  {
    hide Inv, DirOk, DirLive, ApplyWrites, Lookup, ReachedBy;
    WritesAreLookup(k.mem, DirectoryOf(k, p), ws);
  }

  /** Where a range of pages maps: in place exactly if both addresses are the same. */
  lemma RangeFrame(virt: word, phys: word, count: nat, flags: nat, page: nat, init: word)
    requires GoodRange(virt, phys, count) && flags < PAGE_SIZE
    ensures var e := Lookup(CallWrites(RangeCall(virt, phys, count, flags)), page, init);
            if virt / PAGE_SIZE <= page < virt / PAGE_SIZE + count then FrameOf(e) == page * PAGE_SIZE <==> virt == phys else e == init
  {
    hide Lookup, CallWrites, RangeCall, FrameOf;
    RangePage(virt, phys, count, flags, page, init);
    assert virt == virt / PAGE_SIZE * PAGE_SIZE;
  }

  /** process_map_memory of a binary: a page that stood for itself still does exactly if it is neither of the program nor of its stack. */
  lemma BinaryKeepsPage(k: Kernel, p: nat, ptr: word, size: word, stack: word, page: nat)
    requires Inv(k) && p < |k.procs| && Blocks(size) >= 1 && Program(k, p, ptr, Blocks(size)) && Program(k, p, stack, Blocks(STACK_SIZE))
    requires page < PAGES && Kept(k.mem, DirectoryOf(k, p), page)
    ensures Kept(MappedAll(k, p, ProgramCalls(Binary(ptr, size), stack)).mem, DirectoryOf(k, p), page)
            <==> !(PROGRAM_PAGE <= page < PROGRAM_PAGE + Blocks(size)) && !(USER_STACK_PAGE <= page < USER_STACK_PAGE + 4)
  {
    hide Inv, Blocks, LiveOf, DirOk, DirLive, Lookup, CallWrites, MappedBy, BinaryCall, StackCall, FrameOf, RunWrites;
    var e0, n := Entry(k.mem, DirectoryOf(k, p), page), Blocks(size);
    var b, s := CallWrites(BinaryCall(ptr, size)), CallWrites(StackCall(stack));
    BinaryWrites(ptr, size, stack);
    MappedPage(k, p, b + b + s, page);
    BinaryIsRange(k, p, ptr, size);
    StackIsRange(k, p, stack);
    LookupConcat(b + b, s, page, e0);
    LookupConcat(b, b, page, e0);
    var e1 := Lookup(b, page, e0);
    var e2 := Lookup(b, page, e1);
    RangeFrame(PROGRAM_ADDRESS, ptr, n, USER_WRITEABLE, page, e0);
    RangeFrame(PROGRAM_ADDRESS, ptr, n, USER_WRITEABLE, page, e1);
    RangeFrame(STACK_END, stack, 4, USER_WRITEABLE, page, e2);
  }

  lemma BinaryWrites(ptr: word, size: word, stack: word)
    ensures var b, s := CallWrites(BinaryCall(ptr, size)), CallWrites(StackCall(stack));
            RunWrites(ProgramCalls(Binary(ptr, size), stack)) == b + b + s
  {
    hide CallWrites, BinaryCall, StackCall, RunWrites;
    var b, s := BinaryCall(ptr, size), StackCall(stack);
    RunOne(b);
    RunOne(s);
    RunConcat([b], [b]);
    RunConcat([b] + [b], [s]);
    assert ProgramCalls(Binary(ptr, size), stack) == [b] + [b] + [s];
  }

  lemma StackIsRange(k: Kernel, p: nat, stack: word)
    requires Inv(k) && p < |k.procs| && Program(k, p, stack, Blocks(STACK_SIZE))
    ensures GoodRange(STACK_END, stack, 4) && StackCall(stack) == RangeCall(STACK_END, stack, 4, USER_WRITEABLE)
  {
    StackBlocks();
    hide Inv, Blocks, LiveOf, EndOf;
    ProgramEnd(k, p, stack, STACK_SIZE);
  }

  predicate Disjoint(first: int, last: int, from: int, to: int) {
    last <= from || to <= first
  }

  /**
   So a stretch of kernel addresses stays in place exactly if neither the program
   nor its stack reaches into it.
   */
  lemma BinaryKeeps(k: Kernel, p: nat, ptr: word, size: word, stack: word, first: nat, last: nat)
    requires Inv(k) && p < |k.procs| && Blocks(size) >= 1 && Program(k, p, ptr, Blocks(size)) && Program(k, p, stack, Blocks(STACK_SIZE))
    requires first < last <= PAGES && AllKept(k.mem, DirectoryOf(k, p), first, last)
    ensures var m' := MappedAll(k, p, ProgramCalls(Binary(ptr, size), stack)).mem;
            Plain(ViewOf(m', DirectoryOf(k, p)), first * PAGE_SIZE, last * PAGE_SIZE)
            <==> && Disjoint(first, last, PROGRAM_PAGE, PROGRAM_PAGE + Blocks(size))
                 && Disjoint(first, last, USER_STACK_PAGE, USER_STACK_PAGE + 4)
  {
    hide Inv, Blocks, LiveOf, DirOk, DirLive, MappedAll, ProgramCalls, Kept, Plain, ViewOf;
    var dir, m', n := DirectoryOf(k, p), MappedAll(k, p, ProgramCalls(Binary(ptr, size), stack)).mem, Blocks(size);
    PlainPages(m', dir, first, last);
    forall page | first <= page < last
      ensures Kept(m', dir, page)
              <==> !(PROGRAM_PAGE <= page < PROGRAM_PAGE + n) && !(USER_STACK_PAGE <= page < USER_STACK_PAGE + 4)
    {
      BinaryKeepsPage(k, p, ptr, size, stack, page);
    }
    if AllKept(m', dir, first, last) {
      var a, b := if first < PROGRAM_PAGE then PROGRAM_PAGE else first, if first < USER_STACK_PAGE then USER_STACK_PAGE else first;
      assert first <= a < last ==> Kept(m', dir, a);
      assert first <= b < last ==> Kept(m', dir, b);
    }
  }

  /** The kernel stack from page `low` up stays in place exactly for programs that end below it. */
  lemma BinaryKeepsStack(k: Kernel, p: nat, ptr: word, size: word, stack: word, low: nat)
    requires Inv(k) && p < |k.procs| && Blocks(size) >= 1 && Program(k, p, ptr, Blocks(size)) && Program(k, p, stack, Blocks(STACK_SIZE))
    requires PROGRAM_PAGE <= low <= STACK_PAGE && AllKept(k.mem, DirectoryOf(k, p), low, STACK_PAGE + 1)
    ensures var m' := MappedAll(k, p, ProgramCalls(Binary(ptr, size), stack)).mem;
            Plain(ViewOf(m', DirectoryOf(k, p)), low * PAGE_SIZE, KERNEL_STACK) <==> PROGRAM_PAGE + Blocks(size) <= low
  {
    hide Inv, Blocks, LiveOf, DirOk, DirLive, MappedAll, ProgramCalls, Plain, ViewOf, AllKept;
    BinaryKeeps(k, p, ptr, size, stack, low, STACK_PAGE + 1);
  }

  /**
   A program of 2 MiB is accepted and breaks no isolation, but its pages cover the
   top of the kernel stack: under its directory an interrupt frame goes into the
   image and is not where the kernel's own directory shows it.
   */
  lemma StackPageLost(k: Kernel, p: nat, ptr: word, size: word, stack: word)
    requires Inv(k) && p < |k.procs| && Blocks(size) >= 0x200 && Program(k, p, ptr, Blocks(size)) && Program(k, p, stack, Blocks(STACK_SIZE))
    ensures AllOwn(k, p, ProgramCalls(Binary(ptr, size), stack))
    ensures var view := ViewOf(MappedAll(k, p, ProgramCalls(Binary(ptr, size), stack)).mem, DirectoryOf(k, p));
            forall a :: KERNEL_STACK - PAGE_SIZE <= a < KERNEL_STACK ==> Phys(view, a) == a - PROGRAM_ADDRESS + ptr != a
  {
    hide Inv, Blocks, LiveOf, DirOk, DirLive, MappedAll, ProgramCalls, ViewOf, Phys, AllOwn;
    BinaryInOrder(k, p, ptr, size, stack);
    var dir, m' := DirectoryOf(k, p), MappedAll(k, p, ProgramCalls(Binary(ptr, size), stack)).mem;
    LostFrame(k, p, ptr, size, stack);
    forall a | KERNEL_STACK - PAGE_SIZE <= a < KERNEL_STACK
      ensures Phys(ViewOf(m', dir), a) == a - PROGRAM_ADDRESS + ptr != a
    {
      AddressMoved(m', dir, a, PageAt(ptr, 0x1FF));
    }
  }

  lemma AddressMoved(m: Mem, dir: word, a: word, frame: int)
    requires DirOk(m, dir) && FrameOf(Entry(m, dir, a / PAGE_SIZE)) == frame
    ensures Phys(ViewOf(m, dir), a) == frame + a % PAGE_SIZE
  {
    hide DirOk, PhysicalAddress, Entry;
    TranslationKeepsOffset(m, dir, a);
  }

  lemma LostFrame(k: Kernel, p: nat, ptr: word, size: word, stack: word)
    requires Inv(k) && p < |k.procs| && Blocks(size) >= 0x200 && Program(k, p, ptr, Blocks(size)) && Program(k, p, stack, Blocks(STACK_SIZE))
    ensures var m' := MappedAll(k, p, ProgramCalls(Binary(ptr, size), stack)).mem;
            FrameOf(Entry(m', DirectoryOf(k, p), STACK_PAGE)) == PageAt(ptr, 0x1FF)
  {
    hide Inv, Blocks, LiveOf, DirOk, DirLive, Lookup, CallWrites, MappedBy, BinaryCall, StackCall, FrameOf, RunWrites, Writeable;
    var e0, n := Entry(k.mem, DirectoryOf(k, p), STACK_PAGE), Blocks(size);
    var b, s := CallWrites(BinaryCall(ptr, size)), CallWrites(StackCall(stack));
    BinaryWrites(ptr, size, stack);
    MappedPage(k, p, b + b + s, STACK_PAGE);
    BinaryIsRange(k, p, ptr, size);
    StackIsRange(k, p, stack);
    LookupConcat(b + b, s, STACK_PAGE, e0);
    LookupConcat(b, b, STACK_PAGE, e0);
    RangePage(PROGRAM_ADDRESS, ptr, n, USER_WRITEABLE, STACK_PAGE, Lookup(b, STACK_PAGE, e0));
    RangeFrame(STACK_END, stack, 4, USER_WRITEABLE, STACK_PAGE, Lookup(b, STACK_PAGE, Lookup(b, STACK_PAGE, e0)));
  }

  // ---------- ELF programs ----------

  /** The segment is mapped to where it lies in memory. */
  predicate SegmentInPlace(elf_memory: word, ph: Phdr) {
    AlignToLower(ph.p_vaddr) == AlignToLower(PhysOf(elf_memory, ph))
  }

  lemma ElfCalls(image: Image, stack: word)
    requires image.Elf? && InPool(image.elf_file) && AllAccepted(image)
    ensures RunWrites(ProgramCalls(image, stack)) == ElfWrites(image.elf_memory, image.phdrs) + CallWrites(StackCall(stack))
  {
    var first, calls, s := FirstCall(image), SegmentCalls(image.elf_memory, image.phdrs), StackCall(stack);
    assert CallWrites(first) == [] by { NoPages(image.elf_file); }
    hide CallWrites, RunWrites, StackCall, SegmentCalls, FirstCall, AcceptedPrefix;
    assert image.phdrs[..|image.phdrs|] == image.phdrs;
    RunOne(first);
    RunOne(s);
    ElfRun(image.elf_memory, image.phdrs);
    RunConcat([first], calls);
    RunConcat([first] + calls, [s]);
    assert [] + RunWrites(calls) == RunWrites(calls);
  }

  lemma NoPages(a: word)
    requires InPool(a)
    ensures CallWrites(BinaryCall(a, 0)) == []
  {
    assert EndOf(Alloc(a, 0)) == a;
  }

  /** process_map_memory of an ELF program: a page stays in place exactly if the stack spares it and every segment on it is in place. */
  lemma ElfKeepsPage(k: Kernel, p: nat, image: Image, stack: word, page: nat)
    requires Inv(k) && p < |k.procs| && image.Elf? && InPool(image.elf_file) && Program(k, p, stack, Blocks(STACK_SIZE))
    requires GoodLayout(image.elf_memory, image.phdrs) && page < PAGES && Kept(k.mem, DirectoryOf(k, p), page)
    ensures Kept(MappedAll(k, p, ProgramCalls(image, stack)).mem, DirectoryOf(k, p), page)
            <==> && !(USER_STACK_PAGE <= page < USER_STACK_PAGE + 4)
                 && forall i :: 0 <= i < |image.phdrs| && InSegment(image.elf_memory, image.phdrs[i], page) ==>
                      SegmentInPlace(image.elf_memory, image.phdrs[i])
  {
    var e0, em, phdrs := Entry(k.mem, DirectoryOf(k, p), page), image.elf_memory, image.phdrs;
    LayoutMapped(k.mem, DirectoryOf(k, p), em, phdrs);
    ElfCalls(image, stack);
    hide Inv, Blocks, LiveOf, DirOk, DirLive, Lookup, CallWrites, MappedBy, StackCall, FrameOf, RunWrites, ElfWrites, GoodLayout,
         InSegment, SegmentInPlace, ProgramCalls;
    var ws, s := ElfWrites(em, phdrs), CallWrites(StackCall(stack));
    MappedPage(k, p, ws + s, page);
    StackIsRange(k, p, stack);
    LookupConcat(ws, s, page, e0);
    var e1 := Lookup(ws, page, e0);
    RangeFrame(STACK_END, stack, 4, USER_WRITEABLE, page, e1);
    if i :| 0 <= i < |phdrs| && InSegment(em, phdrs[i], page) {
      OneSegment(em, phdrs, i, page);
      ElfFrame(em, phdrs, i, page, e0);
    } else {
      ElfSpares(em, phdrs, page, e0);
    }
  }

  lemma OneSegment(elf_memory: word, phdrs: seq<Phdr>, i: nat, page: nat)
    requires GoodLayout(elf_memory, phdrs) && i < |phdrs| && InSegment(elf_memory, phdrs[i], page)
    ensures forall j :: 0 <= j < |phdrs| && InSegment(elf_memory, phdrs[j], page) ==> j == i
  {
    hide InSegment, NoWrap;
  }

  lemma ElfFrame(elf_memory: word, phdrs: seq<Phdr>, i: nat, page: nat, init: word)
    requires GoodLayout(elf_memory, phdrs) && i < |phdrs| && InSegment(elf_memory, phdrs[i], page)
    ensures FrameOf(Lookup(ElfWrites(elf_memory, phdrs), page, init)) == page * PAGE_SIZE <==> SegmentInPlace(elf_memory, phdrs[i])
  {
    var ph := phdrs[i];
    FirstPageIs(ph);
    hide Or, Lookup, ElfWrites, InSegment, AlignToLower, PhysOf, NoWrap, GoodLayout, FirstPage, FrameOf;
    LayoutNoWrap(elf_memory, phdrs, i);
    ElfLookup(elf_memory, phdrs, i, page, init);
    SegmentAddress(elf_memory, ph, page);
    FlaggedFrame(AlignToLower(PhysOf(elf_memory, ph)) + (page - FirstPage(ph)) * PAGE_SIZE, FlagsOf(ph));
  }

  lemma FirstPageIs(ph: Phdr)
    ensures AlignToLower(ph.p_vaddr) == FirstPage(ph) * PAGE_SIZE
  {
  }

  /** A stretch of kernel addresses stays in place exactly if the stack and every segment off its own place stay clear of it. */
  lemma ElfKeeps(k: Kernel, p: nat, image: Image, stack: word, first: nat, last: nat)
    requires Inv(k) && p < |k.procs| && image.Elf? && InPool(image.elf_file) && Program(k, p, stack, Blocks(STACK_SIZE))
    requires GoodLayout(image.elf_memory, image.phdrs) && first < last <= PAGES && AllKept(k.mem, DirectoryOf(k, p), first, last)
    ensures var m' := MappedAll(k, p, ProgramCalls(image, stack)).mem;
            Plain(ViewOf(m', DirectoryOf(k, p)), first * PAGE_SIZE, last * PAGE_SIZE)
            <==> forall page :: first <= page < last ==> PageSpared(image, page)
  {
    hide Inv, Blocks, LiveOf, DirOk, DirLive, MappedAll, ProgramCalls, Kept, Plain, ViewOf, GoodLayout, PageSpared;
    var dir, m' := DirectoryOf(k, p), MappedAll(k, p, ProgramCalls(image, stack)).mem;
    PlainPages(m', dir, first, last);
    forall page | first <= page < last
      ensures Kept(m', dir, page) <==> PageSpared(image, page)
    {
      ElfSparesPage(k, p, image, stack, page);
    }
  }

  ghost predicate PageSpared(image: Image, page: nat)
    requires image.Elf?
  {
    && !(USER_STACK_PAGE <= page < USER_STACK_PAGE + 4)
    && forall i :: 0 <= i < |image.phdrs| && InSegment(image.elf_memory, image.phdrs[i], page) ==>
         SegmentInPlace(image.elf_memory, image.phdrs[i])
  }

  lemma ElfSparesPage(k: Kernel, p: nat, image: Image, stack: word, page: nat)
    requires Inv(k) && p < |k.procs| && image.Elf? && InPool(image.elf_file) && Program(k, p, stack, Blocks(STACK_SIZE))
    requires GoodLayout(image.elf_memory, image.phdrs) && page < PAGES && Kept(k.mem, DirectoryOf(k, p), page)
    ensures Kept(MappedAll(k, p, ProgramCalls(image, stack)).mem, DirectoryOf(k, p), page) <==> PageSpared(image, page)
  {
    hide Inv, Blocks, LiveOf, DirOk, DirLive, MappedAll, ProgramCalls, Kept, GoodLayout;
    ElfKeepsPage(k, p, image, stack, page);
  }

  // ---------- over whole runs ----------

  /** A page of the kernel: outside the heap, or of a heap block that the kernel has allocated. */
  ghost predicate KernelPage(k: Kernel, page: nat) {
    HeapPage(page) ==> KernelCovers(k, page - HEAP_PAGE)
  }

  /** The entry of this page for process p is the same in both states. */
  ghost predicate SameEntry(k: Kernel, k': Kernel, p: nat, page: nat)
    requires Inv(k) && Inv(k') && p < |k.procs| <= |k'.procs| && page < PAGES
  {
    DirectoryOf(k', p) == DirectoryOf(k, p) && Entry(k'.mem, DirectoryOf(k', p), page) == Entry(k.mem, DirectoryOf(k, p), page)
  }

  lemma TablesSame(k: Kernel, k': Kernel, p: nat, page: nat)
    requires Inv(k) && Inv(k') && p < |k.procs| <= |k'.procs| && page < PAGES
    requires k'.procs[p].chunk == k.procs[p].chunk && KeepsTables(k.mem, k'.mem, k.owner, p)
    ensures SameEntry(k, k', p, page)
  {
    hide Inv, DirOk, DirLive, LiveOf, WellFormed, KeepsTables, Isolated, OwnFrames, OwnsAllocs;
    ProcFacts(k, p);
    ProcFacts(k', p);
    TablesFrame(k.mem, k'.mem, k.owner, k.owner, p, k.procs[p].chunk);
  }

  lemma WritesSame(k: Kernel, k': Kernel, m: Mem, ws: seq<Write>, p: nat, page: nat)
    requires Inv(k) && Inv(k') && p < |k.procs| <= |k'.procs| && page < PAGES && k'.procs[p].chunk == k.procs[p].chunk
    requires KeepsTables(k.mem, m, k.owner, p) && DirOk(m, DirectoryOf(k, p)) && InRange(ws)
    requires k'.mem == ApplyWrites(m, DirectoryOf(k, p), ws)
    requires forall init: word :: Lookup(ws, page, init) == init
    ensures SameEntry(k, k', p, page)
  {
    hide Inv, DirOk, DirLive, LiveOf, WellFormed, KeepsTables, Isolated, OwnFrames, OwnsAllocs, ApplyWrites, Lookup, ChunkOk;
    var chunk, dir := k.procs[p].chunk, DirectoryOf(k, p);
    ProcFacts(k, p);
    ProcFacts(k', p);
    TablesFrame(k.mem, m, k.owner, k.owner, p, chunk);
    MapKeepsTables(m, k.owner, p, chunk, ws);
    WritesAreLookup(m, dir, ws);
  }

  /** The writes for an allocation leave the pages of the kernel alone. */
  lemma AllocSparesKernel(a: Alloc, flags: nat, page: nat)
    requires GoodAlloc(a) && flags < PAGE_SIZE && (HeapPage(page) ==> !InAlloc(a, page - HEAP_PAGE))
    ensures forall init: word :: Lookup(MapWritesOf(a, flags), page, init) == init
  {
    hide GoodAlloc, InAlloc, Lookup, MapWritesOf;
    forall init: word
      ensures Lookup(MapWritesOf(a, flags), page, init) == init
    {
      if HeapPage(page) {
        AllocLookup(a, flags, page - HEAP_PAGE, init);
      } else {
        AllocSpares(a, flags, page, init);
      }
    }
  }

  lemma GrantSpares(k: Kernel, q: nat, s: nat, size: word, slot: nat, p: nat, page: nat)
    requires Inv(k) && q < |k.procs| && slot < 1024 && k.procs[q].allocs[slot].ptr == 0
    requires Blocks(size) >= 1 && FreeRun(k.table, s, Blocks(size))
    requires p < |k.procs| && page < PAGES && KernelPage(k, page)
    ensures var r := Granted(k.table, k.mem, DirectoryOf(k, q), k.procs[q].allocs, s, size, slot);
            var k' := Kernel(r.table, r.mem, k.procs[q := k.procs[q].(allocs := r.allocs)], k.owner[s := AllocOf(q, slot)]);
            Inv(k') && SameEntry(k, k', p, page)
  {
    var n, a := Blocks(size), Alloc(AddressOf(s), size);
    BlocksExact(size);
    GrantKeeps(k, q, s, size, slot);
    GrantFrame(k, s, size);
    ZeroKeepsDir(k.table, k.mem, DirectoryOf(k, q), s, size);
    assert GoodAlloc(a);
    assert |k.table| == HEAP_BLOCKS;
    hide Inv, WellFormed, LiveOf, Blocks, ZeroMem, Mark, ApplyWrites, MapWritesOf, DirOk, DirLive, GoodAlloc, KeepsTables, FreeRun, Lookup;
    var m1, ws := ZeroMem(k.mem, s, size), MapWritesOf(a, USER_WRITEABLE);
    var k' := Kernel(Mark(k.table, s, n), ApplyWrites(m1, DirectoryOf(k, q), ws),
                     k.procs[q := k.procs[q].(allocs := k.procs[q].allocs[slot := a])], k.owner[s := AllocOf(q, slot)]);
    if p == q {
      if HeapPage(page) {
        var t :| HasOwner(k.owner, t, KernelData) && Covers(LiveOf(k.table), t, page - HEAP_PAGE);
        assert !InAlloc(a, page - HEAP_PAGE);
      }
      AllocSparesKernel(a, USER_WRITEABLE, page);
      WritesSame(k, k', m1, ws, p, page);
    } else {
      OthersSame(k, k', m1, ws, q, p, page);
    }
  }

  /** Page writes for one process change no entry of another. */
  lemma OthersSame(k: Kernel, k': Kernel, m: Mem, ws: seq<Write>, q: nat, p: nat, page: nat)
    requires Inv(k) && Inv(k') && p < |k.procs| <= |k'.procs| && q < |k.procs| && p != q && page < PAGES
    requires k'.procs[p].chunk == k.procs[p].chunk && KeepsTables(k.mem, m, k.owner, p) && KeepsTables(k.mem, m, k.owner, q)
    requires DirOk(m, DirectoryOf(k, q)) && InRange(ws) && k'.mem == ApplyWrites(m, DirectoryOf(k, q), ws)
    ensures SameEntry(k, k', p, page)
  {
    hide Inv, DirOk, DirLive, LiveOf, WellFormed, Isolated, OwnFrames, OwnsAllocs, ApplyWrites, ChunkOk;
    var chunk := k.procs[q].chunk;
    ProcFacts(k, q);
    TablesFrame(k.mem, m, k.owner, k.owner, q, chunk);
    MapSparesOthers(m, k.owner, q, chunk, ws, p);
    TablesSame(k, k', p, page);
  }

  lemma MallocSpares(k: Kernel, q: nat, size: word, p: nat, page: nat)
    requires Inv(k) && Enabled(k, Event.Malloc(q, size)) && p < |k.procs| && page < PAGES && KernelPage(k, page)
    ensures Inv(Step(k, Event.Malloc(q, size))) && SameEntry(k, Step(k, Event.Malloc(q, size)), p, page)
  {
    hide Inv, FreeRun, Blocks, FreeFrom, Mark, ZeroMem, Mappable, ApplyWrites, MapWritesOf,
         WellFormed, LiveOf, DirLive, DirOk, SlotOf, StartBlock, Serviceable, KernelPage, KeepsTables;
    MallocKeeps(k, q, size);
    StartInside(k, size);
    var s := StartBlock(k.table, Blocks(size));
    var slot := SlotOf(k.procs[q].allocs, 0, 0);
    var k' := Step(k, Event.Malloc(q, size));
    if s < 0 {
      assert k' == k;
    } else if slot < 0 || !Mappable(Alloc(AddressOf(s), size)) {
      GrantFrame(k, s, size);
      TablesSame(k, k', p, page);
    } else {
      GrantSpares(k, q, s, size, slot, p, page);
    }
  }

  lemma RevokeSpares(k: Kernel, q: nat, i: nat, p: nat, page: nat)
    requires Inv(k) && q < |k.procs| && i < 1024 && k.procs[q].allocs[i].ptr != 0
    requires p < |k.procs| && page < PAGES && KernelPage(k, page)
    ensures InPool(k.procs[q].allocs[i].ptr) && Inv(Revoked(k, q, i)) && SameEntry(k, Revoked(k, q, i), p, page)
  {
    hide Inv, WellFormed, LiveOf, Blocks, FreeFrom, ApplyWrites, MapWritesOf, DirOk, DirLive, Lookup, GoodAlloc;
    RevokeKeeps(k, q, i);
    SlotIsOwner(k, q, i);
    var a, k' := k.procs[q].allocs[i], Revoked(k, q, i);
    if p == q {
      if HeapPage(page) {
        NotInAlloc(k, q, i, page - HEAP_PAGE);
      }
      AllocSparesKernel(a, 0, page);
      WritesSame(k, k', k.mem, MapWritesOf(a, 0), p, page);
    } else {
      OthersSame(k, k', k.mem, MapWritesOf(a, 0), q, p, page);
    }
  }

  /** What the kernel has allocated is in no allocation of a process. */
  lemma NotInAlloc(k: Kernel, q: nat, i: nat, b: nat)
    requires Inv(k) && q < |k.procs| && i < 1024 && KernelCovers(k, b)
    ensures !InAlloc(k.procs[q].allocs[i], b)
  {
    hide Inv, LiveOf, Blocks, GoodAlloc;
    var a := k.procs[q].allocs[i];
    var t :| HasOwner(k.owner, t, KernelData) && Covers(LiveOf(k.table), t, b);
    if InAlloc(a, b) {
      SlotIsOwner(k, q, i);
      assert Covers(LiveOf(k.table), BlockOf(a.ptr), b);
      OneRun(k, t, BlockOf(a.ptr), b);
    }
  }

  lemma FreeSpares(k: Kernel, q: nat, ptr: word, p: nat, page: nat)
    requires Inv(k) && Enabled(k, Event.Free(q, ptr)) && p < |k.procs| && page < PAGES && KernelPage(k, page)
    ensures Inv(Step(k, Event.Free(q, ptr))) && SameEntry(k, Step(k, Event.Free(q, ptr)), p, page)
  {
    hide Inv, WellFormed, LiveOf, DirOk, DirLive, SlotOf, KernelPage, Revoked, ProcessFree;
    FreeKeeps(k, q, ptr);
    var i := SlotOf(k.procs[q].allocs, ptr, 0);
    if i >= 0 {
      FreeIsRevoke(k, q, ptr);
      RevokeSpares(k, q, i, p, page);
    } else {
      assert Step(k, Event.Free(q, ptr)) == k;
    }
  }

  lemma MapSpares(k: Kernel, q: nat, call: MapCall, p: nat, page: nat)
    requires Inv(k) && Enabled(k, MapPages(q, call)) && p < |k.procs| && page < PAGES
    requires p == q ==> !WritesPage(CallWrites(call), page)
    ensures Inv(Step(k, MapPages(q, call))) && SameEntry(k, Step(k, MapPages(q, call)), p, page)
  {
    hide Inv, WellFormed, LiveOf, DirOk, DirLive, CallWrites, ApplyWrites, MapsOwn, ReachedBy, Lookup;
    MapPagesKeeps(k, q, call);
    var k', ws := Step(k, MapPages(q, call)), CallWrites(call);
    if p == q {
      forall init: word
        ensures Lookup(ws, page, init) == init
      {
        LookupMiss(ws, page, init);
      }
      WritesSame(k, k', k.mem, ws, p, page);
    } else {
      OthersSame(k, k', k.mem, ws, q, p, page);
    }
  }

  /** Events that leave the tables of every process alone. */
  lemma OtherSpares(k: Kernel, e: Event, p: nat, page: nat)
    requires Inv(k) && Enabled(k, e) && p < |k.procs| && page < PAGES
    requires !e.Malloc? && !e.Free? && !e.MapPages?
    ensures Inv(Step(k, e)) && |k.procs| <= |Step(k, e).procs| && SameEntry(k, Step(k, e), p, page)
  {
    StepKeeps(k, e);
    OtherTables(k, e, p);
    hide Inv, Enabled, Step, KeepsTables, SameEntry;
    TablesSame(k, Step(k, e), p, page);
  }

  lemma OtherTables(k: Kernel, e: Event, p: nat)
    requires Inv(k) && Enabled(k, e) && p < |k.procs| && !e.Malloc? && !e.Free? && !e.MapPages?
    ensures |k.procs| <= |Step(k, e).procs| && Step(k, e).procs[p].chunk == k.procs[p].chunk
    ensures KeepsTables(k.mem, Step(k, e).mem, k.owner, p)
  {
    hide WellFormed, LiveOf, ChunkOk, ProcOk, IdentityMapped, DirOk, TagOf, Blocks, FreeRun, Reaches, ZeroMem, Mark, StartBlock, Serviceable;
    match e
    case KernelMalloc(size) =>
      StartInside(k, size);
      if StartBlock(k.table, Blocks(size)) >= 0 {
        GrantFrame(k, StartBlock(k.table, Blocks(size)), size);
      }
    case UserStore(q, mem) =>
      forall b: nat | b < HEAP_BLOCKS && mem[b] != k.mem[b] && b in k.owner
        ensures !HoldsTables(k.owner[b])
      {
        ReachedBelongs(k, q, b);
      }
    case _ =>
  }

  /** One event leaves the entry of a kernel page alone, unless it is a program mapping for that process onto that page. */
  lemma StepSpares(k: Kernel, e: Event, p: nat, page: nat)
    requires Inv(k) && Enabled(k, e) && p < |k.procs| && page < PAGES && KernelPage(k, page)
    requires e.MapPages? && e.p == p ==> !WritesPage(CallWrites(e.call), page)
    ensures Inv(Step(k, e)) && |k.procs| <= |Step(k, e).procs| && SameEntry(k, Step(k, e), p, page)
  {
    hide Inv, Enabled, Step, KernelPage, SameEntry, CallWrites;
    MapsExisting(k, e, p);
    match e
    case Malloc(q, size) => MallocSpares(k, q, size, p, page);
    case Free(q, ptr) => FreeSpares(k, q, ptr, p, page);
    case MapPages(q, call) => MapSpares(k, q, call, p, page);
    case _ => OtherSpares(k, e, p, page);
  }

  /**
   The view of the kernel stays over every run: from the point where process p
   exists, a page that belongs to the kernel at each step, and that no program
   mapping of p writes, keeps its entry.  So the stack, outside the heap, and the
   registers of a task, in a block of the kernel, stay in place and present.
   */
  lemma {:induction false} KernelPageStays(m: Mem, es: seq<Event>, start: nat, p: nat, page: nat)
    requires Possible(m, es) && start <= |es| && Possible(m, es[..start]) && p < |After(m, es[..start]).procs| && page < PAGES
    requires forall n :: start <= n < |es| && Possible(m, es[..n]) ==> KernelPage(After(m, es[..n]), page)
    requires Spared(es[start..], p, page)
    ensures p < |After(m, es).procs|
    ensures var k, k' := After(m, es[..start]), After(m, es); |k.procs| <= |k'.procs| && SameEntry(k, k', p, page)
    decreases |es|
  {
    hide Inv, Enabled, Step, KernelPage, CallWrites, Spared;
    if start == |es| {
      assert es[..start] == es;
    } else {
      var n := |es| - 1;
      var front := es[..n];
      assert front[..start] == es[..start];
      forall j | start <= j < |front| && Possible(m, front[..j])
        ensures KernelPage(After(m, front[..j]), page)
      {
        assert front[..j] == es[..j];
      }
      var rest := es[start..];
      SparedStep(rest, p, page);
      assert rest[..|rest| - 1] == front[start..] && rest[|rest| - 1] == es[n];
      KernelPageStays(m, front, start, p, page);
      assert es[..n] == front && KernelPage(After(m, front), page);
      StepSpares(After(m, front), es[n], p, page);
    }
  }

  /** At every step of the run from `start` on the page belongs to the kernel, and no program mapping of p writes it. */
  ghost predicate LeftAlone(m: Mem, es: seq<Event>, start: nat, p: nat, page: nat)
    requires start <= |es|
  {
    && (forall n :: start <= n < |es| && Possible(m, es[..n]) ==> KernelPage(After(m, es[..n]), page))
    && Spared(es[start..], p, page)
  }

  /** Kernel addresses that are in place when the program has been mapped stay in place for the rest of the run. */
  lemma StaysInPlace(m: Mem, es: seq<Event>, start: nat, p: nat, first: nat, last: nat)
    requires Possible(m, es) && start <= |es| && Possible(m, es[..start]) && p < |After(m, es[..start]).procs| && last <= PAGES
    requires forall page :: first <= page < last ==> LeftAlone(m, es, start, p, page)
    requires var k := After(m, es[..start]); Plain(ViewOf(k.mem, DirectoryOf(k, p)), first * PAGE_SIZE, last * PAGE_SIZE)
    ensures p < |After(m, es).procs|
    ensures var k := After(m, es); Plain(ViewOf(k.mem, DirectoryOf(k, p)), first * PAGE_SIZE, last * PAGE_SIZE)
  {
    hide Inv, After, Possible, DirOk, DirLive, Plain, ViewOf, KernelPage, Spared;
    var k, k' := After(m, es[..start]), After(m, es);
    PlainPages(k.mem, DirectoryOf(k, p), first, last);
    ProcessStays(m, es, start, p);
    forall page | first <= page < last
      ensures Kept(k'.mem, DirectoryOf(k', p), page)
    {
      assert LeftAlone(m, es, start, p, page);
      KernelPageStays(m, es, start, p, page);
      assert Kept(k.mem, DirectoryOf(k, p), page);
    }
    PlainPages(k'.mem, DirectoryOf(k', p), first, last);
  }

  lemma {:induction false} ProcessStays(m: Mem, es: seq<Event>, start: nat, p: nat)
    requires Possible(m, es) && start <= |es| && Possible(m, es[..start]) && p < |After(m, es[..start]).procs|
    ensures p < |After(m, es).procs|
    decreases |es|
  {
    hide Inv, Enabled, Step;
    if start == |es| {
      assert es[..start] == es;
    } else {
      var n := |es| - 1;
      assert es[..n][..start] == es[..start];
      ProcessStays(m, es[..n], start, p);
      MapsExisting(After(m, es[..n]), es[n], p);
    }
  }

  /** The pages of the stack and of the saved registers being in place, so is all that Switching needs of the directory. */
  lemma DirectoryInPlace(m: Mem, dir: word, registers: word, low: word)
    requires DirOk(m, dir) && registers + 48 <= WORD_SIZE && AllKept(m, dir, low / PAGE_SIZE, STACK_PAGE + 1)
    requires AllKept(m, dir, registers / PAGE_SIZE, (registers + 47) / PAGE_SIZE + 1)
    ensures Plain(ViewOf(m, dir), low, KERNEL_STACK) && Plain(ViewOf(m, dir), registers, registers + 48)
  {
    hide DirOk, ViewOf, AllKept, Plain;
    var view := ViewOf(m, dir);
    PlainPages(m, dir, low / PAGE_SIZE, STACK_PAGE + 1);
    PlainPages(m, dir, registers / PAGE_SIZE, (registers + 47) / PAGE_SIZE + 1);
    PlainPart(view, low / PAGE_SIZE * PAGE_SIZE, KERNEL_STACK, low, KERNEL_STACK);
    PlainPart(view, registers / PAGE_SIZE * PAGE_SIZE, ((registers + 47) / PAGE_SIZE + 1) * PAGE_SIZE, registers, registers + 48);
  }
}
