/**
 process_map_memory of src/task/process.c: program image, ELF segments and stack
 in the address space of a process, and exactly when that respects isolation.
 */
module Loading {
  import opened Common
  import opened Bits
  import opened HeapTable
  import opened PageTable
  import opened Paging
  import opened Isolation
  import opened Processes
  import opened ElfMap
  import opened TaskRegisters

  /** MAEROS_USER_PROGRAM_STACK_SIZE and MAEROS_PROGRAM_VIRTUAL_STACK_ADDRESS_END. */
  const STACK_SIZE: word := 0x4000
  const STACK_END: word := 0x3F_B000
  /** The pages from the program address up to the heap. */
  const PROGRAM_PAGES: nat := 0xC00

  function BinaryCall(ptr: word, size: word): MapCall {
    MapCall.MapTo(PROGRAM_ADDRESS, ptr, EndOf(Alloc(ptr, size)), USER_WRITEABLE)
  }

  function StackCall(stack: word): MapCall {
    MapCall.MapTo(STACK_END, stack, EndOf(Alloc(stack, STACK_SIZE)), USER_WRITEABLE)
  }

  // ---------- ranges of pages ----------

  /** The physical page at a is image or stack of process p. */
  ghost predicate OwnPage(k: Kernel, p: nat, a: int) {
    0 <= a < WORD_SIZE && InPool(a) && InImage(k.table, k.owner, p, BlockOf(a))
  }

  /** The physical page at a may be writeable for process p at this page: image, stack, or an allocation at its own page. */
  ghost predicate OwnAt(k: Kernel, p: nat, page: nat, a: int)
    requires p < |k.procs|
  {
    OwnPage(k, p, a) || (0 <= a < WORD_SIZE && InPool(a) && AllocPage(k.procs[p].allocs, page, a))
  }

  ghost predicate OwnRange(k: Kernel, p: nat, first: nat, phys: int, count: int)
    requires p < |k.procs|
  {
    forall j :: 0 <= j < count ==> OwnAt(k, p, first + j, PageAt(phys, j))
  }

  function PageAt(phys: int, j: int): int {
    phys + j * PAGE_SIZE
  }

  /** No address of the range wraps, and neither end is misaligned. */
  predicate GoodRange(virt: word, phys: word, count: nat) {
    && Aligned(virt) && Aligned(phys)
    && virt + count * PAGE_SIZE <= WORD_SIZE && phys + count * PAGE_SIZE < WORD_SIZE
  }

  function RangeCall(virt: word, phys: word, count: nat, flags: nat): MapCall
    requires GoodRange(virt, phys, count) && flags < PAGE_SIZE
  {
    MapCall.MapTo(virt, phys, phys + count * PAGE_SIZE, flags)
  }

  lemma RangePage(virt: word, phys: word, count: nat, flags: nat, page: nat, init: word)
    requires GoodRange(virt, phys, count) && flags < PAGE_SIZE
    ensures var e, v := Lookup(CallWrites(RangeCall(virt, phys, count, flags)), page, init), virt / PAGE_SIZE;
            if v <= page < v + count
            then FrameOf(e) == PageAt(phys, page - v) && SameAccess(e, flags)
            else e == init
  {
    hide Or, And, Lookup, SameAccess, FrameOf;
    RangeLookup(virt, phys, count, flags, page, init);
    var v := virt / PAGE_SIZE;
    if v <= page < v + count {
      var a := phys + (page - v) * PAGE_SIZE;
      FlagAccess(a, flags);
      FlaggedFrame(a, flags);
    }
  }

  /** A range respects isolation exactly when it is read-only or all its frames are the process's own. */
  lemma RangeOwn(k: Kernel, p: nat, virt: word, phys: word, count: nat, flags: nat)
    requires GoodRange(virt, phys, count) && flags < PAGE_SIZE && p < |k.procs|
    ensures MapsOwn(k, p, RangeCall(virt, phys, count, flags)) <==> !Writeable(flags) || OwnRange(k, p, virt / PAGE_SIZE, phys, count)
  {
    hide Lookup, CallWrites, RangeCall, InImage, Writeable, AllocPage;
    var c, v, allocs := RangeCall(virt, phys, count, flags), virt / PAGE_SIZE, k.procs[p].allocs;
    forall page: nat | page < PAGES
      ensures FrameOk(k.table, k.owner, p, allocs, page, Lookup(CallWrites(c), page, 0))
              <==> (v <= page < v + count && Writeable(flags) ==> OwnAt(k, p, page, PageAt(phys, page - v)))
    {
      RangePage(virt, phys, count, flags, page, 0);
      ZeroFrameOk(k.table, k.owner, p, allocs, page);
    }
    if MapsOwn(k, p, c) && Writeable(flags) {
      forall j | 0 <= j < count
        ensures OwnAt(k, p, v + j, PageAt(phys, j))
      {
        assert FrameOk(k.table, k.owner, p, allocs, v + j, Lookup(CallWrites(c), v + j, 0));
      }
    }
  }

  /** The entry of a page after a range was mapped for process p. */
  lemma RangeEntry(k: Kernel, p: nat, virt: word, phys: word, count: nat, flags: nat, page: nat)
    requires Inv(k) && p < |k.procs| && GoodRange(virt, phys, count) && flags < PAGE_SIZE && page < PAGES
    ensures var m', dir, v := Mapped(k, p, RangeCall(virt, phys, count, flags)).mem, DirectoryOf(k, p), virt / PAGE_SIZE;
            if v <= page < v + count
            then FrameOf(Entry(m', dir, page)) == PageAt(phys, page - v) && SameAccess(Entry(m', dir, page), flags)
            else Entry(m', dir, page) == Entry(k.mem, dir, page)
  {
    hide Inv, Lookup, CallWrites, RangeCall, ApplyWrites, DirOk, DirLive, Writeable, ReachedBy;
    var dir := DirectoryOf(k, p);
    WritesAreLookup(k.mem, dir, CallWrites(RangeCall(virt, phys, count, flags)));
    RangePage(virt, phys, count, flags, page, Entry(k.mem, dir, page));
  }

  // ---------- image and stack ----------

  /** The live allocation at address a is n blocks of image or stack of process p. */
  ghost predicate Program(k: Kernel, p: nat, a: word, n: nat) {
    InPool(a) && HasOwner(k.owner, BlockOf(a), ImageOf(p)) && LiveSize(k.table, BlockOf(a), n)
  }

  lemma RunInside(k: Kernel, s: nat, n: nat)
    requires Inv(k) && LiveSize(k.table, s, n)
    ensures 1 <= n && s + n <= HEAP_BLOCKS
  {
    hide LiveOf, ProcOk;
  }

  lemma ProgramInside(k: Kernel, p: nat, a: word, n: nat)
    requires Inv(k) && Program(k, p, a, n)
    ensures 1 <= n && BlockOf(a) + n <= HEAP_BLOCKS
    ensures forall j :: 0 <= j < n ==> OwnPage(k, p, PageAt(a, j))
  {
    hide LiveOf, Inv;
    var s := BlockOf(a);
    RunInside(k, s, n);
    forall j | 0 <= j < n
      ensures OwnPage(k, p, PageAt(a, j))
    {
      assert PageAt(a, j) == AddressOf(s + j);
      assert Covers(LiveOf(k.table), s, s + j);
    }
  }

  lemma ProgramEnd(k: Kernel, p: nat, a: word, size: word)
    requires Inv(k) && Blocks(size) >= 1 && Program(k, p, a, Blocks(size))
    ensures EndOf(Alloc(a, size)) == a + Blocks(size) * PAGE_SIZE
    ensures BlockOf(a) + Blocks(size) <= HEAP_BLOCKS && forall j :: 0 <= j < Blocks(size) ==> OwnPage(k, p, PageAt(a, j))
  {
    hide Blocks, Inv, LiveOf;
    BlocksExact(size);
    ProgramInside(k, p, a, Blocks(size));
    GoodAllocEnd(Alloc(a, size));
  }

  /** Every heap page of process p is writeable exactly inside its allocations, and then stands for itself. */
  ghost predicate HeapExact(k: Kernel, p: nat, m: Mem)
    requires Inv(k) && p < |k.procs| && DirOk(m, DirectoryOf(k, p))
  {
    Isolated(m, DirectoryOf(k, p), k.procs[p].allocs, {})
  }

  /** process_map_binary as a range of pages from the program address. */
  lemma BinaryIsRange(k: Kernel, p: nat, ptr: word, size: word)
    requires Inv(k) && p < |k.procs| && Blocks(size) >= 1 && Program(k, p, ptr, Blocks(size))
    ensures GoodRange(PROGRAM_ADDRESS, ptr, Blocks(size))
    ensures BinaryCall(ptr, size) == RangeCall(PROGRAM_ADDRESS, ptr, Blocks(size), USER_WRITEABLE)
  {
    hide Inv, Blocks, LiveOf, EndOf;
    ProgramEnd(k, p, ptr, size);
  }

  /**
   process_map_binary never breaks isolation, because all it makes writeable is the
   image.  But only a program that ends below the heap, at most 12 MiB, leaves the
   heap pages writeable exactly inside the allocations.
   */
  lemma BinaryMapping(k: Kernel, p: nat, ptr: word, size: word)
    requires Inv(k) && p < |k.procs| && Blocks(size) >= 1 && Program(k, p, ptr, Blocks(size))
    ensures Enabled(k, MapPages(p, BinaryCall(ptr, size))) && Inv(Mapped(k, p, BinaryCall(ptr, size)))
    ensures HeapExact(k, p, k.mem) ==> (HeapExact(k, p, Mapped(k, p, BinaryCall(ptr, size)).mem) <==> Blocks(size) <= PROGRAM_PAGES)
  {
    hide Inv, Blocks, LiveOf, MapsOwn, EndOf, Isolated, DirLive, DirOk, Mapped, BinaryCall;
    ProgramEnd(k, p, ptr, size);
    BinaryIsRange(k, p, ptr, size);
    RangeOwn(k, p, PROGRAM_ADDRESS, ptr, Blocks(size), USER_WRITEABLE);
    MapExactly(k, p, BinaryCall(ptr, size));
    if HeapExact(k, p, k.mem) {
      BinaryHeapPages(k, p, ptr, size);
    }
  }

  lemma BinaryHeapPages(k: Kernel, p: nat, ptr: word, size: word)
    requires Inv(k) && p < |k.procs| && Blocks(size) >= 1 && Program(k, p, ptr, Blocks(size)) && HeapExact(k, p, k.mem)
    ensures HeapExact(k, p, Mapped(k, p, BinaryCall(ptr, size)).mem) <==> Blocks(size) <= PROGRAM_PAGES
  {
    hide Inv, Blocks, LiveOf, EndOf, Mapped, BinaryCall, DirOk, DirLive, HeapEntryOk;
    var n, dir, m' := Blocks(size), DirectoryOf(k, p), Mapped(k, p, BinaryCall(ptr, size)).mem;
    BinaryIsRange(k, p, ptr, size);
    if n <= PROGRAM_PAGES {
      forall b: nat | b < HEAP_BLOCKS
        ensures HeapPageOk(m', dir, k.procs[p].allocs, b)
      {
        RangeEntry(k, p, PROGRAM_ADDRESS, ptr, n, USER_WRITEABLE, HEAP_PAGE + b);
        assert HeapPageOk(k.mem, dir, k.procs[p].allocs, b);
      }
    } else {
      RangeEntry(k, p, PROGRAM_ADDRESS, ptr, n, USER_WRITEABLE, HEAP_PAGE);
      StandsElsewhere(Entry(m', dir, HEAP_PAGE), k.procs[p].allocs, PageAt(ptr, PROGRAM_PAGES));
      assert !HeapPageOk(m', dir, k.procs[p].allocs, 0);
    }
  }

  lemma StandsElsewhere(e: word, allocs: Allocs, frame: int)
    requires Writeable(e) && FrameOf(e) == frame && frame > HEAP_ADDRESS
    ensures !HeapEntryOk(e, allocs, 0)
  {
  }

  lemma StackBlocks()
    ensures Blocks(STACK_SIZE) == 4
  {
    BlocksExact(STACK_SIZE);
  }

  /** The stack always goes below the program. */
  lemma StackMapping(k: Kernel, p: nat, stack: word)
    requires Inv(k) && p < |k.procs| && Program(k, p, stack, Blocks(STACK_SIZE))
    ensures Enabled(k, MapPages(p, StackCall(stack)))
  {
    StackBlocks();
    hide Inv, Blocks, LiveOf, MapsOwn, EndOf;
    ProgramEnd(k, p, stack, STACK_SIZE);
    assert StackCall(stack) == RangeCall(STACK_END, stack, 4, USER_WRITEABLE);
    RangeOwn(k, p, STACK_END, stack, 4, USER_WRITEABLE);
  }

  // ---------- ELF segments ----------

  lemma SegmentIsRange(elf_memory: word, ph: Phdr)
    requires NoWrap(elf_memory, ph)
    ensures PageCount(elf_memory, ph) >= 0
    ensures GoodRange(AlignToLower(ph.p_vaddr), AlignToLower(PhysOf(elf_memory, ph)), PageCount(elf_memory, ph))
    ensures SegmentCall(elf_memory, ph)
            == RangeCall(AlignToLower(ph.p_vaddr), AlignToLower(PhysOf(elf_memory, ph)), PageCount(elf_memory, ph), FlagsOf(ph))
  {
    hide And;
    SegmentShape(elf_memory, ph);
    assert AlignToLower(ph.p_vaddr) == FirstPage(ph) * PAGE_SIZE;
  }

  /** A segment respects isolation exactly when it is read-only or lies in memory of the process. */
  lemma SegmentOwn(k: Kernel, p: nat, elf_memory: word, ph: Phdr)
    requires p < |k.procs| && NoWrap(elf_memory, ph)
    ensures MapsOwn(k, p, SegmentCall(elf_memory, ph))
            <==> !WriteSegment(ph) || OwnRange(k, p, FirstPage(ph), AlignToLower(PhysOf(elf_memory, ph)), PageCount(elf_memory, ph))
  {
    SegmentIsRange(elf_memory, ph);
    assert AlignToLower(ph.p_vaddr) / PAGE_SIZE == FirstPage(ph);
    hide And, MapsOwn, OwnRange, SegmentCall, PhysOf, PageCount, AlignToLower, FirstPage;
    RangeOwn(k, p, AlignToLower(ph.p_vaddr), AlignToLower(PhysOf(elf_memory, ph)), PageCount(elf_memory, ph), FlagsOf(ph));
  }

  /** The pages of an image at a page boundary that a segment covers: from the one of p_offset to the last one it touches. */
  lemma SegmentPages(elf_memory: word, ph: Phdr)
    requires NoWrap(elf_memory, ph) && Aligned(elf_memory)
    ensures AlignToLower(PhysOf(elf_memory, ph)) == PageAt(elf_memory, ph.p_offset / PAGE_SIZE)
    ensures ph.p_offset / PAGE_SIZE + PageCount(elf_memory, ph) == (ph.p_offset + ph.p_memsz + 4095) / PAGE_SIZE
  {
    SegmentShape(elf_memory, ph);
    var q, x := elf_memory / PAGE_SIZE, ph.p_offset + ph.p_memsz;
    LowerIs(q, ph.p_offset);
    UpperIs(q, x);
    hide AlignToLower, AlignToUpper;
    assert EndPage(elf_memory, ph) == (q + (x + 4095) / PAGE_SIZE) * PAGE_SIZE;
  }

  lemma LowerIs(q: nat, x: nat)
    requires q * PAGE_SIZE + x < WORD_SIZE
    ensures AlignToLower(q * PAGE_SIZE + x) == (q + x / PAGE_SIZE) * PAGE_SIZE
  {
  }

  lemma UpperIs(q: nat, x: nat)
    requires q * PAGE_SIZE + x <= WORD_SIZE - PAGE_SIZE
    ensures AlignToUpper(q * PAGE_SIZE + x) == (q + (x + 4095) / PAGE_SIZE) * PAGE_SIZE
  {
  }

  /** A segment that is read-only or ends inside an image of n blocks. */
  ghost predicate SegmentInOrder(elf_memory: word, n: nat, ph: Phdr) {
    && NoWrap(elf_memory, ph)
    && (!WriteSegment(ph) || ph.p_offset + ph.p_memsz <= n * PAGE_SIZE)
  }

  lemma SegmentInside(k: Kernel, p: nat, elf_memory: word, n: nat, ph: Phdr)
    requires Inv(k) && p < |k.procs| && Program(k, p, elf_memory, n) && SegmentInOrder(elf_memory, n, ph)
    ensures MapsOwn(k, p, SegmentCall(elf_memory, ph))
  {
    hide Inv, And, SegmentCall, PhysOf, PageCount, AlignToLower, LiveOf, OwnPage, NoWrap, MapsOwn, AllocPage;
    SegmentOwn(k, p, elf_memory, ph);
    SegmentPages(elf_memory, ph);
    ProgramInside(k, p, elf_memory, n);
    var first, count := ph.p_offset / PAGE_SIZE, PageCount(elf_memory, ph);
    if ph.p_offset + ph.p_memsz <= n * PAGE_SIZE {
      assert forall j :: PageAt(PageAt(elf_memory, first), j) == PageAt(elf_memory, first + j);
      assert first + count <= n;
    }
  }

  /**
   A segment of an image of n blocks, with its start inside the image and memory of
   others behind it: mapping it keeps the kernel in order exactly when it is
   read-only or ends inside the image.  p_memsz is not compared with the file, so a
   larger one makes whatever comes next in the pool writeable.
   */
  lemma SegmentFits(k: Kernel, p: nat, elf_memory: word, n: nat, ph: Phdr)
    requires Inv(k) && p < |k.procs| && NoWrap(elf_memory, ph)
    requires Program(k, p, elf_memory, n) && ph.p_offset <= n * PAGE_SIZE && !Belongs(k, p, BlockOf(elf_memory) + n)
    ensures Inv(Mapped(k, p, SegmentCall(elf_memory, ph)))
            <==> !WriteSegment(ph) || ph.p_offset + ph.p_memsz <= n * PAGE_SIZE
  {
    hide Inv, And, SegmentCall, PhysOf, PageCount, AlignToLower, LiveOf, OwnAt, NoWrap, MapsOwn;
    MapExactly(k, p, SegmentCall(elf_memory, ph));
    if !WriteSegment(ph) || ph.p_offset + ph.p_memsz <= n * PAGE_SIZE {
      SegmentInside(k, p, elf_memory, n, ph);
    } else {
      SegmentOwn(k, p, elf_memory, ph);
      SegmentPages(elf_memory, ph);
      var first, count := ph.p_offset / PAGE_SIZE, PageCount(elf_memory, ph);
      var start := PageAt(elf_memory, first);
      assert 0 <= n - first < count;
      assert PageAt(start, n - first) == PageAt(elf_memory, n);
      NotOwnBehind(k, p, elf_memory, n, FirstPage(ph) + (n - first));
    }
  }

  /** A block that does not belong to p may not be writeable for p anywhere. */
  lemma NotOwnBehind(k: Kernel, p: nat, a: word, n: nat, page: nat)
    requires Inv(k) && p < |k.procs| && InPool(a) && !Belongs(k, p, BlockOf(a) + n)
    ensures !OwnAt(k, p, page, PageAt(a, n))
  {
    hide Inv, LiveOf, InAllocs;
    var b, x := BlockOf(a) + n, PageAt(a, n);
    if 0 <= x < WORD_SIZE && InPool(x) {
      assert BlockOf(x) == b;
      if AllocPage(k.procs[p].allocs, page, x) {
        WriteableIsOwn(k, p, b);
      }
    }
  }

  /** What such a segment does: some page of the process then stands, writeable, for the block behind the image. */
  lemma SegmentOverruns(k: Kernel, p: nat, elf_memory: word, n: nat, ph: Phdr)
    requires Inv(k) && p < |k.procs| && NoWrap(elf_memory, ph) && WriteSegment(ph)
    requires Program(k, p, elf_memory, n) && ph.p_offset <= n * PAGE_SIZE < ph.p_offset + ph.p_memsz
    requires BlockOf(elf_memory) + n < HEAP_BLOCKS
    ensures exists page :: 0 <= page < PAGES
                           && WritesTo(Entry(Mapped(k, p, SegmentCall(elf_memory, ph)).mem, DirectoryOf(k, p), page), BlockOf(elf_memory) + n)
  {
    hide Inv, And, SegmentCall, PhysOf, PageCount, AlignToLower, LiveOf, NoWrap, DirOk, DirLive, Mapped, Writeable;
    SegmentIsRange(elf_memory, ph);
    SegmentPages(elf_memory, ph);
    var virt, phys, count := AlignToLower(ph.p_vaddr), AlignToLower(PhysOf(elf_memory, ph)), PageCount(elf_memory, ph);
    var j := n - ph.p_offset / PAGE_SIZE;
    assert 0 <= j < count;
    var page := virt / PAGE_SIZE + j;
    RangeEntry(k, p, virt, phys, count, FlagsOf(ph), page);
    assert PageAt(phys, j) == AddressOf(BlockOf(elf_memory) + n);
    assert 0 <= page < PAGES && WritesTo(Entry(Mapped(k, p, SegmentCall(elf_memory, ph)).mem, DirectoryOf(k, p), page), BlockOf(elf_memory) + n);
  }

  // ---------- process_map_memory ----------

  /** The kernel after a number of mapping calls for process p. */
  ghost function MappedAll(k: Kernel, p: nat, cs: seq<MapCall>): (k': Kernel)
    requires Inv(k) && p < |k.procs|
    ensures DirOk(k'.mem, DirectoryOf(k, p))
  {
    MappedBy(k, p, RunWrites(cs))
  }

  ghost predicate AllOwn(k: Kernel, p: nat, cs: seq<MapCall>)
    requires p < |k.procs|
  {
    forall i :: 0 <= i < |cs| ==> MapsOwn(k, p, cs[i])
  }

  /** Mapping calls that are each in order are a run of MapPages events. */
  lemma {:induction false} MappedAllKeeps(k: Kernel, p: nat, cs: seq<MapCall>)
    requires Inv(k) && p < |k.procs| && AllOwn(k, p, cs)
    ensures Inv(MappedAll(k, p, cs))
    ensures cs != [] ==>
              var before, e := MappedAll(k, p, cs[..|cs| - 1]), MapPages(p, cs[|cs| - 1]);
              Inv(before) && Enabled(before, e) && Step(before, e) == MappedAll(k, p, cs)
  {
    hide WellFormed, LiveOf, ApplyWrites, CallWrites, FrameOk, DirOk, DirLive, Inv, MappedBy;
    if cs == [] {
      MappedNone(k, p);
    } else {
      var front, c := cs[..|cs| - 1], cs[|cs| - 1];
      MappedAllKeeps(k, p, front);
      MappedTwice(k, p, RunWrites(front), CallWrites(c));
      SameProcs(k, p, RunWrites(front));
      MapPagesKeeps(MappedAll(k, p, front), p, c);
    }
  }

  lemma SameProcs(k: Kernel, p: nat, ws: seq<Write>)
    requires Inv(k) && p < |k.procs| && InRange(ws)
    ensures var k' := MappedBy(k, p, ws);
            k'.table == k.table && k'.owner == k.owner && |k'.procs| == |k.procs| && k'.procs[p].allocs == k.procs[p].allocs
  {
  }

  lemma MappedNone(k: Kernel, p: nat)
    requires Inv(k) && p < |k.procs|
    ensures MappedBy(k, p, []) == k
  {
    hide Inv, DirOk, DirLive, ReachedBy;
    ApplyNone(k.mem, DirectoryOf(k, p));
    ReachedNone();
    assert k.procs[p].reached + {} == k.procs[p].reached;
    assert k.procs[p := k.procs[p]] == k.procs;
  }

  lemma MappedTwice(k: Kernel, p: nat, ws: seq<Write>, vs: seq<Write>)
    requires Inv(k) && p < |k.procs| && InRange(ws) && InRange(vs) && Inv(MappedBy(k, p, ws))
    ensures MappedBy(MappedBy(k, p, ws), p, vs) == MappedBy(k, p, ws + vs)
  {
    hide Inv, DirOk, DirLive, ReachedBy, ApplyWrites;
    var k' := MappedBy(k, p, ws);
    SameDirectory(k, p, ws);
    ApplyConcat(k.mem, DirectoryOf(k, p), ws, vs);
    ReachedConcat(ws, vs);
    var r := k.procs[p].reached;
    assert r + ReachedBy(ws) + ReachedBy(vs) == r + (ReachedBy(ws) + ReachedBy(vs));
    assert k'.procs[p := k'.procs[p].(reached := k'.procs[p].reached + ReachedBy(vs))]
           == k.procs[p := k.procs[p].(reached := r + ReachedBy(ws + vs))];
  }

  lemma ReachedNone()
    ensures ReachedBy([]) == {}
  {
  }

  lemma ReachedConcat(ws: seq<Write>, vs: seq<Write>)
    ensures ReachedBy(ws + vs) == ReachedBy(ws) + ReachedBy(vs)
  {
    forall b | 0 <= b < HEAP_BLOCKS
      ensures WritesAt(ws + vs, b) <==> WritesAt(ws, b) || WritesAt(vs, b)
    {
      var page := HEAP_PAGE + b;
      if i :| 0 <= i < |vs| && vs[i].page == page {
        assert (ws + vs)[|ws| + i].page == page;
      }
      if i :| 0 <= i < |ws| && ws[i].page == page {
        assert (ws + vs)[i].page == page;
      }
      if i :| 0 <= i < |ws + vs| && (ws + vs)[i].page == page {
        assert if i < |ws| then ws[i].page == page else vs[i - |ws|].page == page;
      }
    }
  }

  lemma SameDirectory(k: Kernel, p: nat, ws: seq<Write>)
    requires Inv(k) && p < |k.procs| && InRange(ws) && Inv(MappedBy(k, p, ws))
    ensures DirectoryOf(MappedBy(k, p, ws), p) == DirectoryOf(k, p)
  {
    hide Inv, ApplyWrites, DirOk, DirLive, ReachedBy;
    ProcFacts(k, p);
    MappingKeepsChunk(k.mem, MappedBy(k, p, ws).mem, k.procs[p].chunk, ws);
  }

  /** A loaded program: raw bytes, or an ELF file with its image and program headers. */
  datatype Image =
    | Binary(ptr: word, size: word)
    | Elf(elf_file: word, elf_memory: word, phdrs: seq<Phdr>)

  function SegmentCalls(elf_memory: word, phdrs: seq<Phdr>): seq<MapCall> {
    seq(|phdrs|, i requires 0 <= i < |phdrs| => SegmentCall(elf_memory, phdrs[i]))
  }

  /** process_map_binary comes first for every program; ptr shares its place with elf_file, and an ELF program has size 0. */
  function FirstCall(image: Image): MapCall {
    match image
    case Binary(ptr, size) => BinaryCall(ptr, size)
    case Elf(elf_file, _, _) => BinaryCall(elf_file, 0)
  }

  function ImageCalls(image: Image): seq<MapCall> {
    match image
    case Binary(ptr, size) => [BinaryCall(ptr, size)]
    case Elf(_, elf_memory, phdrs) => SegmentCalls(elf_memory, phdrs[..AcceptedPrefix(elf_memory, phdrs, 0)])
  }

  predicate AllAccepted(image: Image) {
    image.Elf? ==> AcceptedPrefix(image.elf_memory, image.phdrs, 0) == |image.phdrs|
  }

  /** Everything process_map_memory maps: the stack only if no segment is rejected. */
  function ProgramCalls(image: Image, stack: word): seq<MapCall> {
    [FirstCall(image)] + ImageCalls(image) + if AllAccepted(image) then [StackCall(stack)] else []
  }

  lemma {:induction false} RunConcat(cs: seq<MapCall>, ds: seq<MapCall>)
    ensures RunWrites(cs + ds) == RunWrites(cs) + RunWrites(ds)
  {
    hide CallWrites;
    if ds == [] {
      assert cs + ds == cs;
    } else {
      var front, last := ds[..|ds| - 1], CallWrites(ds[|ds| - 1]);
      RunConcat(cs, front);
      ButLast(cs, ds);
      assert RunWrites(cs + ds) == RunWrites(cs + front) + last;
      assert RunWrites(ds) == RunWrites(front) + last;
      hide RunWrites;
      assert RunWrites(cs) + RunWrites(front) + last == RunWrites(cs) + (RunWrites(front) + last);
    }
  }

  lemma RunOne(c: MapCall)
    ensures RunWrites([c]) == CallWrites(c)
  {
    assert [c][..0] == [];
  }

  lemma {:induction false} ElfRun(elf_memory: word, phdrs: seq<Phdr>)
    ensures ElfWrites(elf_memory, phdrs) == RunWrites(SegmentCalls(elf_memory, phdrs))
  {
    hide CallWrites, SegmentCall;
    if phdrs != [] {
      var n := |phdrs| - 1;
      ElfRun(elf_memory, phdrs[..n]);
      assert SegmentCalls(elf_memory, phdrs)[..n] == SegmentCalls(elf_memory, phdrs[..n]);
    }
  }

  lemma ApplyRun(m: Mem, dir: word, cs: seq<MapCall>, ds: seq<MapCall>)
    requires DirOk(m, dir)
    ensures ApplyWrites(m, dir, RunWrites(cs + ds)) == ApplyWrites(ApplyWrites(m, dir, RunWrites(cs)), dir, RunWrites(ds))
  {
    hide DirOk, ApplyWrites, RunWrites;
    RunConcat(cs, ds);
    ApplyConcat(m, dir, RunWrites(cs), RunWrites(ds));
  }

  /** The switch on the file type: the segments of an ELF program, or the binary once more. */
  method MapImage(k: Machine, dir: word, image: Image) returns (res: int)
    requires DirOk(k.mem, dir)
    modifies k`mem
    ensures k.mem == ApplyWrites(old(k.mem), dir, RunWrites(ImageCalls(image)))
    ensures res == if AllAccepted(image) then 0 else -EINVARG
  {
    hide DirOk, ApplyWrites, CallWrites, RunWrites;
    match image {
      case Binary(ptr, size) =>
        RunOne(BinaryCall(ptr, size));
        var _ := k.Call(dir, BinaryCall(ptr, size));
        res := 0;
      case Elf(_, elf_memory, phdrs) =>
        ElfRun(elf_memory, phdrs[..AcceptedPrefix(elf_memory, phdrs, 0)]);
        res := MapElf(k, dir, elf_memory, phdrs);
    }
  }

  method MapProgram(k: Machine, dir: word, image: Image, stack: word) returns (res: int)
    requires DirOk(k.mem, dir)
    modifies k`mem
    ensures k.mem == ApplyWrites(old(k.mem), dir, RunWrites(ProgramCalls(image, stack)))
    ensures res == if AllAccepted(image) then 0 else -EINVARG
  {
    hide DirOk, ApplyWrites, CallWrites, RunWrites, ImageCalls, AllAccepted;
    ghost var m := k.mem;
    RunOne(FirstCall(image));
    RunOne(StackCall(stack));
    ApplyRun(m, dir, [FirstCall(image)], ImageCalls(image));
    ApplyRun(m, dir, [FirstCall(image)] + ImageCalls(image), [StackCall(stack)]);
    var _ := k.Call(dir, FirstCall(image));
    res := MapImage(k, dir, image);
    assert [FirstCall(image)] + ImageCalls(image) + [] == [FirstCall(image)] + ImageCalls(image);
    if res < 0 {
      return;
    }
    var _ := k.Call(dir, StackCall(stack));
  }

  /**
   process_map_memory on the memory and process objects is a run of MapPages
   events, so a program whose calls are in order leaves the kernel so.
   */
  method MapMemory(k: Machine, ps: seq<Process>, p: nat, image: Image, stack: word, ghost s: Kernel) returns (res: int)
    requires Represents(k, ps, s) && Inv(s) && p < |ps| && AllOwn(s, p, ProgramCalls(image, stack))
    modifies k`mem
    ensures Represents(k, ps, MappedAll(s, p, ProgramCalls(image, stack))) && Inv(MappedAll(s, p, ProgramCalls(image, stack)))
    ensures res == if AllAccepted(image) then 0 else -EINVARG
  {
    hide Inv, WellFormed, LiveOf, SameProc, AllOwn, DirOk, DirLive, ChunkOk, ProgramCalls, RunWrites, ApplyWrites;
    InvReady(k, ps, s, p);
    MappedAllKeeps(s, p, ProgramCalls(image, stack));
    res := MapProgram(k, Directory(k.mem, ps[p].page_directory), image, stack);
    RepresentsAll(k, ps, s, MappedAll(s, p, ProgramCalls(image, stack)));
  }

  /** The first call maps nothing for an ELF program, whose elf_file structure starts a heap block. */
  lemma FirstCallOfElf(k: Kernel, p: nat, image: Image)
    requires image.Elf? && InPool(image.elf_file) && p < |k.procs|
    ensures CallWrites(FirstCall(image)) == [] && MapsOwn(k, p, FirstCall(image))
  {
    hide LiveOf;
    assert EndOf(Alloc(image.elf_file, 0)) == image.elf_file;
    forall page: nat | page < PAGES
      ensures FrameOk(k.table, k.owner, p, k.procs[p].allocs, page, Lookup([], page, 0))
    {
      ZeroFrameOk(k.table, k.owner, p, k.procs[p].allocs, page);
    }
  }

  /** A binary in memory of the process, with a stack of its own, is in order. */
  lemma BinaryInOrder(k: Kernel, p: nat, ptr: word, size: word, stack: word)
    requires Inv(k) && p < |k.procs| && Blocks(size) >= 1
    requires Program(k, p, ptr, Blocks(size)) && Program(k, p, stack, Blocks(STACK_SIZE))
    ensures AllOwn(k, p, ProgramCalls(Binary(ptr, size), stack))
  {
    hide Inv, Blocks, LiveOf, MapsOwn, BinaryCall, StackCall;
    BinaryMapping(k, p, ptr, size);
    StackMapping(k, p, stack);
  }

  /** An ELF program whose segments each fit its image or are read-only is in order. */
  lemma ElfInOrder(k: Kernel, p: nat, image: Image, n: nat, stack: word)
    requires Inv(k) && p < |k.procs| && image.Elf? && InPool(image.elf_file)
    requires Program(k, p, image.elf_memory, n) && Program(k, p, stack, Blocks(STACK_SIZE))
    requires forall i :: 0 <= i < |image.phdrs| ==> SegmentInOrder(image.elf_memory, n, image.phdrs[i])
    ensures AllOwn(k, p, ProgramCalls(image, stack))
  {
    hide Inv, Blocks, LiveOf, MapsOwn, SegmentCall, StackCall, AcceptedPrefix, FirstCall;
    FirstCallOfElf(k, p, image);
    StackMapping(k, p, stack);
    forall i | 0 <= i < |image.phdrs|
      ensures MapsOwn(k, p, SegmentCall(image.elf_memory, image.phdrs[i]))
    {
      assert SegmentInOrder(image.elf_memory, n, image.phdrs[i]);
      SegmentInside(k, p, image.elf_memory, n, image.phdrs[i]);
    }
  }
}
