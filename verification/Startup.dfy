/**
 A task as it starts: the registers of task_init (src/task/task.c) against the
 address space that process_map_memory builds (src/task/process.c) and the segments
 of the kernel's descriptor table (src/kernel.c).
 */
module Startup {
  import opened Common
  import opened Bits
  import opened HeapTable
  import opened PageTable
  import opened Paging
  import opened Isolation
  import opened ElfMap
  import opened Loading
  import opened KernelView
  import opened TaskRegisters
  import opened Gdt

  /** Address a stands for `phys`, and user code may read it, and write it if asked. */
  ghost predicate Backed(m: Mem, dir: word, a: int, phys: int, write: bool)
    requires DirOk(m, dir)
  {
    && 0 <= a < WORD_SIZE && PhysicalAddress(m, dir, a) == phys && CanRead(m, dir, a / PAGE_SIZE)
    && (write ==> CanWrite(m, dir, a / PAGE_SIZE))
  }

  /** The address space after process_map_memory. */
  ghost function ProgramSpace(k: Kernel, p: nat, image: Image, stack: word): (m: Mem)
    requires Inv(k) && p < |k.procs|
    ensures DirOk(m, DirectoryOf(k, p))
  {
    MappedAll(k, p, ProgramCalls(image, stack)).mem
  }

  /** An address of a page whose entry is known, in a space whose directory is open. */
  lemma PageBacked(k: Kernel, p: nat, image: Image, stack: word, page: nat, frame: int, flags: nat, a: int)
    requires Inv(k) && p < |k.procs| && AllOwn(k, p, ProgramCalls(image, stack)) && page < PAGES && UserRead(flags)
    requires var e := Entry(ProgramSpace(k, p, image, stack), DirectoryOf(k, p), page); FrameOf(e) == frame && SameAccess(e, flags)
    requires page * PAGE_SIZE <= a < (page + 1) * PAGE_SIZE
    ensures Backed(ProgramSpace(k, p, image, stack), DirectoryOf(k, p), a, frame + a % PAGE_SIZE, Writeable(flags))
  {
    hide Inv, DirOk, DirLive, ProgramCalls, AllOwn, PhysicalAddress, Entry, FrameOf;
    var cs := ProgramCalls(image, stack);
    MappedAllKeeps(k, p, cs);
    SameProcs(k, p, RunWrites(cs));
    SameDirectory(k, p, RunWrites(cs));
    OpenDirectory(MappedAll(k, p, cs), p, page);
    Translated(ProgramSpace(k, p, image, stack), DirectoryOf(k, p), a, page, frame);
  }

  lemma Translated(m: Mem, dir: word, a: int, page: nat, frame: int)
    requires DirOk(m, dir) && page < PAGES && page * PAGE_SIZE <= a < (page + 1) * PAGE_SIZE && FrameOf(Entry(m, dir, page)) == frame
    ensures 0 <= a < WORD_SIZE && a / PAGE_SIZE == page && PhysicalAddress(m, dir, a) == frame + a % PAGE_SIZE
  {
    hide DirOk, PhysicalAddress, Entry;
    assert a / PAGE_SIZE == page;
    TranslationKeepsOffset(m, dir, a);
  }

  // ---------- the stack ----------

  /** The entry of a stack page, which is mapped last. */
  lemma StackEntry(k: Kernel, p: nat, image: Image, stack: word, page: nat)
    requires Inv(k) && p < |k.procs| && AllAccepted(image) && Program(k, p, stack, Blocks(STACK_SIZE))
    requires USER_STACK_PAGE <= page < USER_STACK_PAGE + 4
    ensures var e := Entry(ProgramSpace(k, p, image, stack), DirectoryOf(k, p), page);
            FrameOf(e) == PageAt(stack, page - USER_STACK_PAGE) && SameAccess(e, USER_WRITEABLE)
  {
    hide Inv, Blocks, LiveOf, DirOk, DirLive, Lookup, CallWrites, MappedBy, StackCall, RunWrites, ImageCalls, FirstCall, AllAccepted, FrameOf,
         SameAccess;
    var front := [FirstCall(image)] + ImageCalls(image);
    var e0 := Entry(k.mem, DirectoryOf(k, p), page);
    RunConcat(front, [StackCall(stack)]);
    RunOne(StackCall(stack));
    MappedPage(k, p, RunWrites(front) + CallWrites(StackCall(stack)), page);
    LookupConcat(RunWrites(front), CallWrites(StackCall(stack)), page, e0);
    StackIsRange(k, p, stack);
    RangePage(STACK_END, stack, 4, USER_WRITEABLE, page, Lookup(RunWrites(front), page, e0));
  }

  /**
   The stack pointer of a new task is the upper end of its stack: each byte i of the
   16 KiB below it is byte i of the stack block, and user code may write it.
   */
  lemma StackReady(k: Kernel, p: nat, image: Image, stack: word, entry: word, i: nat)
    requires Inv(k) && p < |k.procs| && AllAccepted(image) && AllOwn(k, p, ProgramCalls(image, stack))
    requires Program(k, p, stack, Blocks(STACK_SIZE)) && i < 0x4000
    ensures var esp := InitialRegisters(image.Elf?, entry).esp;
            Backed(ProgramSpace(k, p, image, stack), DirectoryOf(k, p), esp - 0x4000 + i, stack + i, true)
  {
    hide Inv, Blocks, LiveOf, DirOk, DirLive, ProgramCalls, AllOwn, AllAccepted, ProgramSpace, Backed, Entry, PageAt, FrameOf, SameAccess, Program;
    var esp, j := InitialRegisters(image.Elf?, entry).esp, i / PAGE_SIZE;
    ByteInPage(USER_STACK_PAGE, stack, i);
    StackEntry(k, p, image, stack, USER_STACK_PAGE + j);
    PageBacked(k, p, image, stack, USER_STACK_PAGE + j, PageAt(stack, j), USER_WRITEABLE, esp - 0x4000 + i);
  }

  /** Byte i from the start of a page lies i / 4096 pages on, and as far into the memory that the pages stand for. */
  lemma ByteInPage(first: nat, phys: int, i: nat)
    ensures var j, a := i / PAGE_SIZE, first * PAGE_SIZE + i;
            && (first + j) * PAGE_SIZE <= a < (first + j + 1) * PAGE_SIZE
            && PageAt(phys, j) + a % PAGE_SIZE == phys + i
  {
    var j, r := i / PAGE_SIZE, i % PAGE_SIZE;
    assert first * PAGE_SIZE + i == PAGE_SIZE * (first + j) + r;
    DivModUnique(first * PAGE_SIZE + i, PAGE_SIZE, first + j, r);
  }

  // ---------- the first instruction ----------

  lemma BinaryEntry(k: Kernel, p: nat, ptr: word, size: word, stack: word, page: nat)
    requires Inv(k) && p < |k.procs| && Blocks(size) >= 1 && Program(k, p, ptr, Blocks(size)) && Program(k, p, stack, Blocks(STACK_SIZE))
    requires PROGRAM_PAGE <= page < PROGRAM_PAGE + Blocks(size)
    ensures page < PAGES
    ensures var e := Entry(ProgramSpace(k, p, Binary(ptr, size), stack), DirectoryOf(k, p), page);
            FrameOf(e) == PageAt(ptr, page - PROGRAM_PAGE) && SameAccess(e, USER_WRITEABLE)
  {
    BinaryIsRange(k, p, ptr, size);
    StackIsRange(k, p, stack);
    BinaryWrites(ptr, size, stack);
    hide Inv, Blocks, LiveOf, DirOk, DirLive, Lookup, CallWrites, MappedBy, BinaryCall, StackCall, RunWrites, FrameOf, SameAccess, ProgramCalls;
    var e0, n := Entry(k.mem, DirectoryOf(k, p), page), Blocks(size);
    var b, s := CallWrites(BinaryCall(ptr, size)), CallWrites(StackCall(stack));
    MappedPage(k, p, b + b + s, page);
    LookupConcat(b + b, s, page, e0);
    LookupConcat(b, b, page, e0);
    var e1 := Lookup(b, page, e0);
    RangePage(PROGRAM_ADDRESS, ptr, n, USER_WRITEABLE, page, e1);
    RangePage(STACK_END, stack, 4, USER_WRITEABLE, page, Lookup(b, page, e1));
  }

  /** A binary starts at its first byte, and its bytes follow from there, open to user code. */
  lemma BinaryReady(k: Kernel, p: nat, ptr: word, size: word, stack: word, entry: word, i: nat)
    requires Inv(k) && p < |k.procs| && Blocks(size) >= 1 && Program(k, p, ptr, Blocks(size)) && Program(k, p, stack, Blocks(STACK_SIZE))
    requires i < Blocks(size) * PAGE_SIZE
    ensures var ip := InitialRegisters(false, entry).ip;
            Backed(ProgramSpace(k, p, Binary(ptr, size), stack), DirectoryOf(k, p), ip + i, ptr + i, true)
  {
    hide Inv, Blocks, LiveOf, DirOk, DirLive, ProgramCalls, AllOwn, ProgramSpace, Backed, Entry, Program, FrameOf, SameAccess;
    BinaryInOrder(k, p, ptr, size, stack);
    var ip, j := InitialRegisters(false, entry).ip, i / PAGE_SIZE;
    ByteInPage(PROGRAM_PAGE, ptr, i);
    BinaryEntry(k, p, ptr, size, stack, PROGRAM_PAGE + j);
    PageBacked(k, p, Binary(ptr, size), stack, PROGRAM_PAGE + j, PageAt(ptr, j), USER_WRITEABLE, ip + i);
  }

  /** The entry of a page of segment i, which the stack spares. */
  lemma ElfEntry(k: Kernel, p: nat, image: Image, stack: word, i: nat, page: nat)
    requires Inv(k) && p < |k.procs| && image.Elf? && InPool(image.elf_file) && Program(k, p, stack, Blocks(STACK_SIZE))
    requires GoodLayout(image.elf_memory, image.phdrs) && i < |image.phdrs| && page < PAGES
    requires InSegment(image.elf_memory, image.phdrs[i], page) && !(USER_STACK_PAGE <= page < USER_STACK_PAGE + 4)
    ensures var ph, e := image.phdrs[i], Entry(ProgramSpace(k, p, image, stack), DirectoryOf(k, p), page);
            && FrameOf(e) == AlignToLower(PhysOf(image.elf_memory, ph)) + (page - FirstPage(ph)) * PAGE_SIZE
            && SameAccess(e, FlagsOf(ph))
  {
    var em, phdrs := image.elf_memory, image.phdrs;
    LayoutMapped(k.mem, DirectoryOf(k, p), em, phdrs);
    ElfCalls(image, stack);
    hide Inv, Blocks, LiveOf, DirOk, DirLive, Lookup, CallWrites, MappedBy, StackCall, RunWrites, ElfWrites, GoodLayout, NoWrap, InSegment,
         ImageMapped, AlignToLower, PhysOf, FirstPage, SameAccess, FrameOf, ProgramCalls, AllAccepted, FlagsOf;
    StackIsRange(k, p, stack);
    var ws, s, e0 := ElfWrites(em, phdrs), CallWrites(StackCall(stack)), Entry(k.mem, DirectoryOf(k, p), page);
    MappedPage(k, p, ws + s, page);
    LookupConcat(ws, s, page, e0);
    RangePage(STACK_END, stack, 4, USER_WRITEABLE, page, Lookup(ws, page, e0));
    SegmentAccess(em, phdrs, i, page, e0);
  }

  lemma SegmentAccess(elf_memory: word, phdrs: seq<Phdr>, i: nat, page: nat, init: word)
    requires GoodLayout(elf_memory, phdrs) && i < |phdrs| && InSegment(elf_memory, phdrs[i], page)
    ensures var ph, e := phdrs[i], Lookup(ElfWrites(elf_memory, phdrs), page, init);
            && FrameOf(e) == AlignToLower(PhysOf(elf_memory, ph)) + (page - FirstPage(ph)) * PAGE_SIZE
            && SameAccess(e, FlagsOf(ph))
  {
    hide Or, Lookup, ElfWrites, InSegment, AlignToLower, PhysOf, NoWrap, GoodLayout, FirstPage, FrameOf, SameAccess, FlagsOf;
    var ph := phdrs[i];
    LayoutNoWrap(elf_memory, phdrs, i);
    ElfLookup(elf_memory, phdrs, i, page, init);
    SegmentAddress(elf_memory, ph, page);
    var frame := AlignToLower(PhysOf(elf_memory, ph)) + (page - FirstPage(ph)) * PAGE_SIZE;
    FlagAccess(frame, FlagsOf(ph));
    FlaggedFrame(frame, FlagsOf(ph));
  }

  /**
   An ELF program starts at e_entry; wherever that lies in a congruent segment clear
   of the stack it is the byte that the image has there, as is every byte of such a
   segment, open to user code as its header says.
   */
  lemma ElfReady(k: Kernel, p: nat, image: Image, stack: word, entry: word, i: nat, a: word)
    requires Inv(k) && p < |k.procs| && image.Elf? && InPool(image.elf_file) && AllOwn(k, p, ProgramCalls(image, stack))
    requires Program(k, p, stack, Blocks(STACK_SIZE)) && GoodLayout(image.elf_memory, image.phdrs) && i < |image.phdrs|
    requires var ph := image.phdrs[i]; Congruent(image.elf_memory, ph) && ph.p_vaddr <= a < ph.p_vaddr + ph.p_memsz
    requires !(USER_STACK_PAGE <= a / PAGE_SIZE < USER_STACK_PAGE + 4)
    ensures InitialRegisters(true, entry).ip == entry
    ensures var ph := image.phdrs[i];
            Backed(ProgramSpace(k, p, image, stack), DirectoryOf(k, p), a, image.elf_memory + ph.p_offset + (a - ph.p_vaddr), WriteSegment(ph))
  {
    var em, ph := image.elf_memory, image.phdrs[i];
    hide Inv, Blocks, LiveOf, DirOk, DirLive, ProgramCalls, AllOwn, ProgramSpace, Backed, Program, GoodLayout, NoWrap, InSegment,
         Congruent, AlignToLower, PhysOf, FirstPage, WriteSegment;
    LayoutNoWrap(em, image.phdrs, i);
    CongruentPage(em, ph, a - ph.p_vaddr);
    SegmentBacked(k, p, image, stack, i, a);
  }

  lemma SegmentBacked(k: Kernel, p: nat, image: Image, stack: word, i: nat, a: word)
    requires Inv(k) && p < |k.procs| && image.Elf? && InPool(image.elf_file) && AllOwn(k, p, ProgramCalls(image, stack))
    requires Program(k, p, stack, Blocks(STACK_SIZE)) && GoodLayout(image.elf_memory, image.phdrs) && i < |image.phdrs|
    requires InSegment(image.elf_memory, image.phdrs[i], a / PAGE_SIZE) && !(USER_STACK_PAGE <= a / PAGE_SIZE < USER_STACK_PAGE + 4)
    ensures var ph := image.phdrs[i];
            var frame := AlignToLower(PhysOf(image.elf_memory, ph)) + (a / PAGE_SIZE - FirstPage(ph)) * PAGE_SIZE;
            Backed(ProgramSpace(k, p, image, stack), DirectoryOf(k, p), a, frame + a % PAGE_SIZE, WriteSegment(ph))
  {
    hide Inv, Blocks, LiveOf, DirOk, DirLive, ProgramCalls, AllOwn, ProgramSpace, Backed, Entry, Program, FrameOf, SameAccess, GoodLayout,
         InSegment, AlignToLower, PhysOf, FirstPage;
    var ph, page := image.phdrs[i], a / PAGE_SIZE;
    ElfEntry(k, p, image, stack, i, page);
    PageBacked(k, p, image, stack, page, AlignToLower(PhysOf(image.elf_memory, ph)) + (page - FirstPage(ph)) * PAGE_SIZE, FlagsOf(ph), a);
  }

  // ---------- the segments ----------

  /** Everything else is clear: no value of another task is left in a register, and the saved flags are 0. */
  lemma RestClear(is_elf: bool, entry: word)
    ensures var r := InitialRegisters(is_elf, entry);
            && r.edi == r.esi == r.ebp == r.ebx == r.edx == r.ecx == r.eax == 0 && r.flags == 0
  {
  }

  /**
   The code and stack segments of a new task are the user segments of the kernel's
   table, at privilege level 3: one executable, the other writeable data.
   */
  lemma SegmentsReady(is_elf: bool, entry: word, tss: word, tss_size: word)
    ensures var r, t := InitialRegisters(is_elf, entry), KernelTable(tss, tss_size);
            && (exists i :: 0 <= i < |t| && Selects(r.cs, i) && UserSegment(t[i]) && Executable(t[i]))
            && (exists i :: 0 <= i < |t| && Selects(r.ss, i) && UserSegment(t[i]) && WriteableData(t[i]))
  {
    var r, t := InitialRegisters(is_elf, entry), KernelTable(tss, tss_size);
    assert Selects(r.cs, 3) && UserSegment(t[3]) && Executable(t[3]);
    assert Selects(r.ss, 4) && UserSegment(t[4]) && WriteableData(t[4]);
  }
}
