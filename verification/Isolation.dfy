/**
 Write isolation between processes over whole runs of the kernel.

 process_malloc and process_free (src/task/process.c) are functions of the heap
 table, the heap memory, a page directory and the allocation list of a process.
 The kernel state adds, for the proofs only, who owns each live heap block.
 */
module Isolation {
  import opened Common
  import opened Bits
  import opened HeapTable
  import opened PageTable
  import opened Paging

  /** The flags of a page that user code may write, and of one it may only read. */
  const USER_WRITEABLE: nat := IS_WRITEABLE + IS_PRESENT + ACCESS_FROM_ALL
  const USER_READONLY: nat := IS_PRESENT + ACCESS_FROM_ALL
  /** The page number of heap block 0 under identity mapping. */
  const HEAP_PAGE: nat := 4096

  datatype Alloc = Alloc(ptr: word, size: word)
  const NO_ALLOC := Alloc(0, 0)
  /** MAEROS_MAX_PROGRAM_ALLOCATIONS slots. */
  type Allocs = a: seq<Alloc> | |a| == 1024 witness seq(1024, _ => Alloc(0, 0))

  // ---------- the two calls ----------

  /** The lowest slot whose pointer is ptr, or -1. */
  function SlotOf(allocs: Allocs, ptr: word, from: nat): (i: int)
    requires from <= 1024
    ensures i == -1 || from <= i < 1024
    ensures i == -1 ==> forall j :: from <= j < 1024 ==> allocs[j].ptr != ptr
    ensures i != -1 ==> allocs[i].ptr == ptr && forall j :: from <= j < i ==> allocs[j].ptr != ptr
    decreases 1024 - from
  {
    if from == 1024 then -1 else if allocs[from].ptr == ptr then from else SlotOf(allocs, ptr, from + 1)
  }

  /** process_allocation_unjoin: clear every slot with this pointer. */
  function Unjoin(allocs: Allocs, ptr: word): Allocs {
    seq(1024, i requires 0 <= i < 1024 => if allocs[i].ptr == ptr then Alloc(0, 0) else allocs[i])
  }

  function EndOf(a: Alloc): word {
    AlignToUpper(Wrap(a.ptr + a.size))
  }

  function MapWritesOf(a: Alloc, flags: word): (ws: seq<Write>)
    ensures InRange(ws)
  {
    MapToWrites(a.ptr, a.ptr, EndOf(a), flags)
  }

  datatype Outcome = Outcome(table: Table, mem: Mem, allocs: Allocs, ptr: word)

  /** The directory and its tables stand in live heap blocks. */
  ghost predicate DirLive(t: Table, m: Mem, dir: word)
    requires DirOk(m, dir)
  {
    BlockOf(dir) in LiveOf(t) && forall i :: 0 <= i < ENTRIES ==> TableBlock(m, dir, i) in LiveOf(t)
  }

  /** Clearing blocks that were free leaves every live block alone. */
  lemma ZeroFree(t: Table, m: Mem, s: nat, size: word)
    requires WellFormed(t) && |t| == HEAP_BLOCKS && FreeRun(t, s, Blocks(size)) && Blocks(size) >= 1
    ensures forall b :: 0 <= b < HEAP_BLOCKS && b in LiveOf(t) ==> ZeroMem(m, s, size)[b] == m[b]
    ensures forall b :: 0 <= b < HEAP_BLOCKS && !(s <= b < s + Blocks(size)) ==> ZeroMem(m, s, size)[b] == m[b]
  {
    BlocksExact(size);
    forall b: nat | b < HEAP_BLOCKS && b in LiveOf(t)
      ensures !(s <= b < s + Blocks(size))
    {
      FirstIsCovered(t, LiveOf(t), b);
      FreeMeansUncovered(t, LiveOf(t), b);
    }
  }

  lemma ZeroKeepsDir(t: Table, m: Mem, dir: word, s: nat, size: word)
    requires WellFormed(t) && |t| == HEAP_BLOCKS && FreeRun(t, s, Blocks(size)) && Blocks(size) >= 1
    requires DirOk(m, dir) && DirLive(t, m, dir)
    ensures DirOk(ZeroMem(m, s, size), dir)
    ensures forall i :: 0 <= i < ENTRIES ==> TableAddr(ZeroMem(m, s, size), dir, i) == TableAddr(m, dir, i)
    ensures forall p :: 0 <= p < PAGES ==> Entry(ZeroMem(m, s, size), dir, p) == Entry(m, dir, p)
  {
    hide WellFormed, LiveOf, FreeRun, Blocks;
    ZeroFree(t, m, s, size);
    DirFrame(m, ZeroMem(m, s, size), dir);
    EntryFrame(m, ZeroMem(m, s, size), dir);
  }

  /** The allocation of block s, mapped writeable and recorded in a slot. */
  ghost function Granted(t: Table, m: Mem, dir: word, allocs: Allocs, s: nat, size: word, slot: nat): Outcome
    requires |t| == HEAP_BLOCKS && WellFormed(t) && DirOk(m, dir) && DirLive(t, m, dir)
    requires Blocks(size) >= 1 && FreeRun(t, s, Blocks(size)) && slot < 1024
  {
    ZeroKeepsDir(t, m, dir, s, size);
    Outcome(Mark(t, s, Blocks(size)),
            ApplyWrites(ZeroMem(m, s, size), dir, MapWritesOf(Alloc(AddressOf(s), size), USER_WRITEABLE)),
            allocs[slot := Alloc(AddressOf(s), size)], AddressOf(s))
  }

  ghost function ProcessMalloc(t: Table, m: Mem, dir: word, allocs: Allocs, size: word): (r: Outcome)
    requires |t| == HEAP_BLOCKS && WellFormed(t) && DirOk(m, dir) && DirLive(t, m, dir)
    requires Blocks(size) >= 1 && Serviceable(t, Blocks(size))
    ensures r.ptr != 0 ==> InPool(r.ptr) && SlotOf(allocs, 0, 0) >= 0
  {
    var s := StartBlock(t, Blocks(size));
    if s < 0 then Outcome(t, m, allocs, 0)
    else if SlotOf(allocs, 0, 0) < 0 || !Mappable(Alloc(AddressOf(s), size))
    then Outcome(FreeFrom(Mark(t, s, Blocks(size)), s), ZeroMem(m, s, size), allocs, 0)
    else Granted(t, m, dir, allocs, s, size, SlotOf(allocs, 0, 0))
  }

  predicate Mappable(a: Alloc) {
    MapToAccepted(a.ptr, a.ptr, EndOf(a))
  }

  ghost function ProcessFree(t: Table, m: Mem, dir: word, allocs: Allocs, ptr: word): Outcome
    requires |t| == HEAP_BLOCKS && DirOk(m, dir)
    requires SlotOf(allocs, ptr, 0) >= 0 ==> InPool(ptr)
  {
    var index := SlotOf(allocs, ptr, 0);
    if index < 0 then Outcome(t, m, allocs, ptr)
    else
      var a := allocs[index];
      if !Mappable(a) then Outcome(t, m, allocs, ptr)
      else Outcome(FreeFrom(t, BlockOf(ptr)), ApplyWrites(m, dir, MapWritesOf(a, 0)), Unjoin(allocs, ptr), ptr)
  }

  // ---------- what the calls write ----------

  /** Block b belongs to allocation a. */
  predicate InAlloc(a: Alloc, b: nat) {
    a.ptr != 0 && InPool(a.ptr) && BlockOf(a.ptr) <= b < BlockOf(a.ptr) + Blocks(a.size)
  }

  /** A recorded allocation that lies inside the pool. */
  predicate GoodAlloc(a: Alloc) {
    && InPool(a.ptr) && 0 < a.size <= WORD_SIZE - PAGE_SIZE
    && BlockOf(a.ptr) + Blocks(a.size) <= HEAP_BLOCKS
  }

  lemma GoodAllocEnd(a: Alloc)
    requires GoodAlloc(a)
    ensures EndOf(a) == a.ptr + Blocks(a.size) * PAGE_SIZE
    ensures Mappable(a) && (EndOf(a) - a.ptr) / PAGE_SIZE == Blocks(a.size)
  {
    hide Blocks, AlignToUpper;
    BlocksExact(a.size);
    UpperPage(a.ptr / PAGE_SIZE + Blocks(a.size), a.ptr + a.size);
  }

  lemma UpperPage(k: nat, x: int)
    requires k * PAGE_SIZE - PAGE_SIZE < x <= k * PAGE_SIZE < WORD_SIZE && k > 0
    ensures 0 <= x < WORD_SIZE && AlignToUpper(x) == k * PAGE_SIZE
  {
  }

  /** The virtual page of block b after the writes for a: flagged if b belongs to a, untouched otherwise. */
  lemma AllocLookup(a: Alloc, flags: nat, b: nat, init: word)
    requires GoodAlloc(a) && flags < PAGE_SIZE && b < HEAP_BLOCKS
    ensures !InAlloc(a, b) ==> Lookup(MapWritesOf(a, flags), HEAP_PAGE + b, init) == init
    ensures InAlloc(a, b) ==> SameAccess(Lookup(MapWritesOf(a, flags), HEAP_PAGE + b, init), flags)
    ensures InAlloc(a, b) ==> FrameOf(Lookup(MapWritesOf(a, flags), HEAP_PAGE + b, init)) == AddressOf(b)
  {
    hide Or, Lookup, Blocks, SameAccess, FrameOf;
    GoodAllocEnd(a);
    var n := Blocks(a.size);
    RangeLookup(a.ptr, a.ptr, n, flags, HEAP_PAGE + b, init);
    if InAlloc(a, b) {
      FlagAccess(AddressOf(b), flags);
      FlaggedFrame(AddressOf(b), flags);
    }
  }

  /** Pages outside the heap are not touched by the writes for an allocation. */
  lemma AllocSpares(a: Alloc, flags: nat, page: nat, init: word)
    requires GoodAlloc(a) && flags < PAGE_SIZE && !HeapPage(page)
    ensures Lookup(MapWritesOf(a, flags), page, init) == init
  {
    hide Or, Lookup, Blocks;
    GoodAllocEnd(a);
    RangeLookup(a.ptr, a.ptr, Blocks(a.size), flags, page, init);
  }

  // ---------- kernel states ----------

  /** A process: its page directory, its allocations, and the heap blocks at whose own pages its program has been mapped. */
  datatype Proc = Proc(chunk: word, allocs: Allocs, reached: set<nat>)

  /** What a live heap block is for; ImageOf is the program image or the stack of a process. */
  datatype Owner =
    | KernelData
    | ChunkOf(p: nat)
    | DirOf(p: nat)
    | TableOf(p: nat, i: nat)
    | AllocOf(p: nat, slot: nat)
    | ImageOf(p: nat)

  datatype Kernel = Kernel(table: Table, mem: Mem, procs: seq<Proc>, owner: map<nat, Owner>)

  /** The directory itself withholds nothing: what user code may do is decided by the table entries. */
  ghost predicate DirOpen(m: Mem, dir: word)
    requires InPool(dir)
  {
    forall i :: 0 <= i < ENTRIES ==> UserWrite(m[BlockOf(dir)][i])
  }

  /** The page tables of process p stand in blocks owned as such, under an open directory. */
  ghost predicate OwnsTables(m: Mem, owner: map<nat, Owner>, p: nat, chunk: word) {
    && ChunkOk(m, chunk) && DirOpen(m, Directory(m, chunk))
    && HasOwner(owner, BlockOf(chunk), ChunkOf(p))
    && HasOwner(owner, BlockOf(Directory(m, chunk)), DirOf(p))
    && forall i :: 0 <= i < ENTRIES ==> HasOwner(owner, TableBlock(m, Directory(m, chunk), i), TableOf(p, i))
  }

  predicate HasOwner(owner: map<nat, Owner>, b: nat, o: Owner) {
    b in owner && owner[b] == o
  }

  /** Every recorded allocation is a live one of the recorded size, owned by its slot. */
  ghost predicate OwnsAllocs(t: Table, owner: map<nat, Owner>, p: nat, allocs: Allocs) {
    forall i :: 0 <= i < 1024 && allocs[i].ptr != 0 ==>
      && GoodAlloc(allocs[i])
      && HasOwner(owner, BlockOf(allocs[i].ptr), AllocOf(p, i))
      && LiveSize(t, BlockOf(allocs[i].ptr), Blocks(allocs[i].size))
  }

  ghost predicate LiveSize(t: Table, b: nat, n: nat) {
    b in LiveOf(t) && LiveOf(t)[b] == n
  }

  ghost predicate InAllocs(allocs: Allocs, b: nat) {
    exists i :: 0 <= i < 1024 && InAlloc(allocs[i], b)
  }

  /** Outside the reached blocks, a heap page is writeable exactly inside the allocations, to user code, and then stands for itself. */
  ghost predicate Isolated(m: Mem, dir: word, allocs: Allocs, reached: set<nat>)
    requires DirOk(m, dir)
  {
    forall b :: 0 <= b < HEAP_BLOCKS && b !in reached ==> HeapPageOk(m, dir, allocs, b)
  }

  ghost predicate HeapPageOk(m: Mem, dir: word, allocs: Allocs, b: nat)
    requires DirOk(m, dir) && b < HEAP_BLOCKS
  {
    HeapEntryOk(Entry(m, dir, HEAP_PAGE + b), allocs, b)
  }

  ghost predicate HeapEntryOk(e: word, allocs: Allocs, b: nat)
    requires b < HEAP_BLOCKS
  {
    (Writeable(e) <==> InAllocs(allocs, b)) && (Writeable(e) ==> UserWrite(e) && FrameOf(e) == AddressOf(b))
  }

  /** The physical page that an entry names. */
  function FrameOf(e: word): word {
    e - e % PAGE_SIZE
  }

  lemma FlaggedFrame(a: word, flags: nat)
    requires Aligned(a) && flags < PAGE_SIZE
    ensures Or(a, flags) < WORD_SIZE && FrameOf(Or(a, flags)) == a
  {
    hide Or;
    OrFlags(a, flags);
  }

  predicate HeapPage(page: nat) {
    HEAP_PAGE <= page < HEAP_PAGE + HEAP_BLOCKS
  }

  /** Block b lies in the program image or the stack of process p. */
  ghost predicate InImage(t: Table, owner: map<nat, Owner>, p: nat, b: nat) {
    exists s :: HasOwner(owner, s, ImageOf(p)) && Covers(LiveOf(t), s, b)
  }

  /** If entry e at this page lets process p write, then to its image or stack, or at the page of an allocation to that page. */
  ghost predicate FrameOk(t: Table, owner: map<nat, Owner>, p: nat, allocs: Allocs, page: nat, e: word) {
    Writeable(e) ==> InPool(FrameOf(e)) && (InImage(t, owner, p, BlockOf(FrameOf(e))) || AllocPage(allocs, page, FrameOf(e)))
  }

  ghost predicate AllocPage(allocs: Allocs, page: nat, frame: word) {
    HeapPage(page) && frame == page * PAGE_SIZE && InAllocs(allocs, page - HEAP_PAGE)
  }

  ghost predicate OwnFrames(t: Table, m: Mem, owner: map<nat, Owner>, p: nat, dir: word, allocs: Allocs)
    requires DirOk(m, dir)
  {
    forall page :: 0 <= page < PAGES ==> FrameOk(t, owner, p, allocs, page, Entry(m, dir, page))
  }

  ghost predicate ProcOk(k: Kernel, p: nat)
    requires p < |k.procs|
  {
    var pr := k.procs[p];
    && OwnsTables(k.mem, k.owner, p, pr.chunk)
    && OwnsAllocs(k.table, k.owner, p, pr.allocs)
    && Isolated(k.mem, Directory(k.mem, pr.chunk), pr.allocs, pr.reached)
    && OwnFrames(k.table, k.mem, k.owner, p, Directory(k.mem, pr.chunk), pr.allocs)
  }

  ghost predicate Inv(k: Kernel) {
    && |k.table| == HEAP_BLOCKS && WellFormed(k.table)
    && k.owner.Keys == LiveOf(k.table).Keys
    && forall p :: 0 <= p < |k.procs| ==> ProcOk(k, p)
  }

  // ---------- steps ----------

  /**
   What can happen: the kernel creates a process, serves malloc and free for one,
   allocates and frees memory of its own, makes an allocation the program image or
   stack of a process, and maps pages for one; a process stores through any page its
   tables make writeable; the kernel stores anywhere but into page tables.
   */
  datatype Event =
    | Create(chunk: word, table: Table, mem: Mem)
    | Malloc(p: nat, size: word)
    | Free(p: nat, ptr: word)
    | KernelMalloc(size: word)
    | KernelFree(block: nat)
    | Adopt(p: nat, block: nat)
    | MapPages(p: nat, call: MapCall)
    | UserStore(p: nat, mem: Mem)
    | KernelStore(mem: Mem)

  /** The writes go to this page. */
  ghost predicate WritesPage(ws: seq<Write>, page: nat) {
    exists i :: 0 <= i < |ws| && ws[i].page == page
  }

  /** The heap blocks at whose own pages the writes map something. */
  ghost function ReachedBy(ws: seq<Write>): set<nat> {
    set b | 0 <= b < HEAP_BLOCKS && WritesAt(ws, b)
  }

  ghost predicate WritesAt(ws: seq<Write>, b: nat) {
    WritesPage(ws, HEAP_PAGE + b)
  }

  /** Whatever the call leaves writeable belongs to process p. */
  ghost predicate MapsOwn(k: Kernel, p: nat, c: MapCall)
    requires p < |k.procs|
  {
    forall page :: 0 <= page < PAGES ==> FrameOk(k.table, k.owner, p, k.procs[p].allocs, page, Lookup(CallWrites(c), page, 0))
  }

  ghost predicate KernelCovers(k: Kernel, b: nat) {
    exists s :: HasOwner(k.owner, s, KernelData) && Covers(LiveOf(k.table), s, b)
  }

  ghost function DirectoryOf(k: Kernel, p: nat): (dir: word)
    requires Inv(k) && p < |k.procs|
    ensures DirOk(k.mem, dir) && DirLive(k.table, k.mem, dir)
  {
    hide WellFormed, LiveOf;
    assert ProcOk(k, p);
    Directory(k.mem, k.procs[p].chunk)
  }

  /** Some page of process p is writeable and stands for heap block b. */
  ghost predicate Reaches(k: Kernel, p: nat, b: nat)
    requires Inv(k) && p < |k.procs|
  {
    b < HEAP_BLOCKS && exists page :: 0 <= page < PAGES && WritesTo(Entry(k.mem, DirectoryOf(k, p), page), b)
  }

  predicate WritesTo(e: word, b: nat)
    requires b < HEAP_BLOCKS
  {
    Writeable(e) && FrameOf(e) == AddressOf(b)
  }

  /** Memory changes only where the tables of p allow a write, at whatever address. */
  ghost predicate UserChange(k: Kernel, p: nat, m: Mem)
    requires Inv(k) && p < |k.procs|
  {
    forall b :: 0 <= b < HEAP_BLOCKS && m[b] != k.mem[b] ==> Reaches(k, p, b)
  }

  ghost predicate KernelChange(k: Kernel, m: Mem) {
    forall b :: 0 <= b < HEAP_BLOCKS && m[b] != k.mem[b] && b in k.owner ==> !HoldsTables(k.owner[b])
  }

  ghost predicate Enabled(k: Kernel, e: Event)
    requires Inv(k)
  {
    match e
    case Create(chunk, table, mem) => NewChunk(k.table, k.mem, table, mem, chunk, USER_READONLY)
    case Malloc(p, size) => p < |k.procs| && Blocks(size) >= 1 && Serviceable(k.table, Blocks(size))
    case Free(p, ptr) => p < |k.procs| && ptr != 0
    case KernelMalloc(size) => Blocks(size) >= 1 && Serviceable(k.table, Blocks(size))
    case KernelFree(block) => HasOwner(k.owner, block, KernelData)
    case Adopt(p, block) => p < |k.procs| && HasOwner(k.owner, block, KernelData)
    case MapPages(p, call) => p < |k.procs| && MapsOwn(k, p, call)
    case UserStore(p, mem) => p < |k.procs| && UserChange(k, p, mem)
    case KernelStore(mem) => KernelChange(k, mem)
  }

  ghost function TagOf(m: Mem, chunk: word, p: nat, b: nat): Owner
    requires ChunkOk(m, chunk) && b in ChunkBlocks(m, chunk)
  {
    if b == BlockOf(chunk) then ChunkOf(p)
    else if b == BlockOf(Directory(m, chunk)) then DirOf(p)
    else var i :| 0 <= i < ENTRIES && TableBlock(m, Directory(m, chunk), i) == b; TableOf(p, i)
  }

  function NoAllocs(): Allocs {
    seq(1024, _ => NO_ALLOC)
  }

  ghost function Tagged(m: Mem, chunk: word, p: nat): map<nat, Owner>
    requires ChunkOk(m, chunk)
  {
    map b | b in ChunkBlocks(m, chunk) :: TagOf(m, chunk, p, b)
  }

  ghost function AfterMalloc(k: Kernel, p: nat, size: word): Kernel
    requires Inv(k) && Enabled(k, Event.Malloc(p, size))
  {
    var r := ProcessMalloc(k.table, k.mem, DirectoryOf(k, p), k.procs[p].allocs, size);
    Kernel(r.table, r.mem, k.procs[p := k.procs[p].(allocs := r.allocs)],
           if r.ptr == 0 then k.owner else k.owner[BlockOf(r.ptr) := AllocOf(p, SlotOf(k.procs[p].allocs, 0, 0))])
  }

  ghost function AfterFree(k: Kernel, p: nat, ptr: word): Kernel
    requires Inv(k) && Enabled(k, Event.Free(p, ptr))
  {
    assert ProcOk(k, p);
    if SlotOf(k.procs[p].allocs, ptr, 0) < 0 then k
    else
      var r := ProcessFree(k.table, k.mem, DirectoryOf(k, p), k.procs[p].allocs, ptr);
      Kernel(r.table, r.mem, k.procs[p := k.procs[p].(allocs := r.allocs)], k.owner - {BlockOf(ptr)})
  }

  ghost function AfterKernelMalloc(k: Kernel, size: word): Kernel
    requires |k.table| == HEAP_BLOCKS && Blocks(size) >= 1 && Serviceable(k.table, Blocks(size))
  {
    var s := StartBlock(k.table, Blocks(size));
    if s < 0 then k
    else k.(table := Mark(k.table, s, Blocks(size)), mem := ZeroMem(k.mem, s, size), owner := k.owner[s := KernelData])
  }

  /** The kernel after page writes for process p. */
  ghost function MappedBy(k: Kernel, p: nat, ws: seq<Write>): (k': Kernel)
    requires Inv(k) && p < |k.procs| && InRange(ws)
    ensures DirOk(k'.mem, DirectoryOf(k, p))
  {
    Kernel(k.table, ApplyWrites(k.mem, DirectoryOf(k, p), ws),
           k.procs[p := k.procs[p].(reached := k.procs[p].reached + ReachedBy(ws))], k.owner)
  }

  ghost function Mapped(k: Kernel, p: nat, call: MapCall): (k': Kernel)
    requires Inv(k) && p < |k.procs|
    ensures DirOk(k'.mem, DirectoryOf(k, p))
  {
    MappedBy(k, p, CallWrites(call))
  }

  ghost function Step(k: Kernel, e: Event): Kernel
    requires Inv(k) && Enabled(k, e)
  {
    match e
    case Create(chunk, table, mem) =>
      Kernel(table, mem, k.procs + [Proc(chunk, NoAllocs(), {})], k.owner + Tagged(mem, chunk, |k.procs|))
    case Malloc(p, size) => AfterMalloc(k, p, size)
    case Free(p, ptr) => AfterFree(k, p, ptr)
    case KernelMalloc(size) => AfterKernelMalloc(k, size)
    case KernelFree(block) => Kernel(FreeFrom(k.table, block), k.mem, k.procs, k.owner - {block})
    case Adopt(p, block) => Kernel(k.table, k.mem, k.procs, k.owner[block := ImageOf(p)])
    case MapPages(p, call) => Mapped(k, p, call)
    case UserStore(p, mem) => Kernel(k.table, mem, k.procs, k.owner)
    case KernelStore(mem) => Kernel(k.table, mem, k.procs, k.owner)
  }

  // ---------- frames ----------

  predicate Mine(o: Owner, p: nat) {
    !o.KernelData? && o.p == p
  }

  predicate HoldsTables(o: Owner) {
    o.ChunkOf? || o.DirOf? || o.TableOf?
  }

  predicate TableTag(o: Owner, p: nat) {
    HoldsTables(o) && o.p == p
  }

  /** An allocation, the image or the stack of process p. */
  predicate UserTag(o: Owner, p: nat) {
    (o.AllocOf? || o.ImageOf?) && o.p == p
  }

  ghost predicate Belongs(k: Kernel, p: nat, b: nat) {
    exists s :: s in k.owner && UserTag(k.owner[s], p) && Covers(LiveOf(k.table), s, b)
  }

  /** The blocks of a process keep their owner. */
  ghost predicate KeepsOwner(owner: map<nat, Owner>, owner': map<nat, Owner>, p: nat) {
    forall b :: b in owner && Mine(owner[b], p) ==> HasOwner(owner', b, owner[b])
  }

  ghost predicate KeepsLive(t: Table, t': Table, owner: map<nat, Owner>, p: nat) {
    forall b :: b in owner && Mine(owner[b], p) && b in LiveOf(t) ==> LiveSize(t', b, LiveOf(t)[b])
  }

  ghost predicate KeepsTables(m: Mem, m': Mem, owner: map<nat, Owner>, p: nat) {
    forall b :: 0 <= b < HEAP_BLOCKS && b in owner && TableTag(owner[b], p) ==> m'[b] == m[b]
  }

  lemma TablesFrame(m: Mem, m': Mem, owner: map<nat, Owner>, owner': map<nat, Owner>, p: nat, chunk: word)
    requires OwnsTables(m, owner, p, chunk) && KeepsOwner(owner, owner', p) && KeepsTables(m, m', owner, p)
    ensures OwnsTables(m', owner', p, chunk) && Directory(m', chunk) == Directory(m, chunk)
    ensures forall q :: 0 <= q < PAGES ==> Entry(m', Directory(m, chunk), q) == Entry(m, Directory(m, chunk), q)
  {
    var dir := Directory(m, chunk);
    EntryFrame(m, m', dir);
    DirFrame(m, m', dir);
    forall i | 0 <= i < ENTRIES
      ensures TableBlock(m', dir, i) == TableBlock(m, dir, i)
      ensures HasOwner(owner', TableBlock(m', dir, i), TableOf(p, i))
    {
      assert HasOwner(owner, TableBlock(m, dir, i), TableOf(p, i));
      assert TableAddr(m', dir, i) == TableAddr(m, dir, i);
    }
  }

  lemma AllocsFrame(t: Table, t': Table, owner: map<nat, Owner>, owner': map<nat, Owner>, p: nat, allocs: Allocs)
    requires OwnsAllocs(t, owner, p, allocs) && KeepsOwner(owner, owner', p) && KeepsLive(t, t', owner, p)
    ensures OwnsAllocs(t', owner', p, allocs)
  {
    hide LiveOf, Blocks;
  }

  lemma IsolatedFrame(m: Mem, m': Mem, dir: word, allocs: Allocs, reached: set<nat>)
    requires DirOk(m, dir) && DirOk(m', dir) && Isolated(m, dir, allocs, reached)
    requires forall q :: 0 <= q < PAGES ==> Entry(m', dir, q) == Entry(m, dir, q)
    ensures Isolated(m', dir, allocs, reached)
  {
    hide DirOk, HeapEntryOk;
    forall b | 0 <= b < HEAP_BLOCKS && b !in reached
      ensures HeapPageOk(m', dir, allocs, b)
    {
      assert Entry(m', dir, HEAP_PAGE + b) == Entry(m, dir, HEAP_PAGE + b);
    }
  }

  /** The image and the stack of a process stay where they are. */
  ghost predicate KeepsImage(t: Table, t': Table, owner: map<nat, Owner>, owner': map<nat, Owner>, p: nat) {
    forall s :: HasOwner(owner, s, ImageOf(p)) && s in LiveOf(t) ==> HasOwner(owner', s, ImageOf(p)) && LiveSize(t', s, LiveOf(t)[s])
  }

  lemma FrameOkKept(t: Table, t': Table, owner: map<nat, Owner>, owner': map<nat, Owner>, p: nat, allocs: Allocs, page: nat, e: word)
    requires FrameOk(t, owner, p, allocs, page, e) && KeepsImage(t, t', owner, owner', p)
    ensures FrameOk(t', owner', p, allocs, page, e)
  {
    hide LiveOf, AllocPage;
    if Writeable(e) && InImage(t, owner, p, BlockOf(FrameOf(e))) {
      var b := BlockOf(FrameOf(e));
      var s :| HasOwner(owner, s, ImageOf(p)) && Covers(LiveOf(t), s, b);
      assert Covers(LiveOf(t'), s, b);
    }
  }

  lemma FramesKept(t: Table, t': Table, m: Mem, m': Mem, owner: map<nat, Owner>, owner': map<nat, Owner>, p: nat, dir: word, allocs: Allocs)
    requires DirOk(m, dir) && DirOk(m', dir) && OwnFrames(t, m, owner, p, dir, allocs) && KeepsImage(t, t', owner, owner', p)
    requires forall q :: 0 <= q < PAGES ==> Entry(m', dir, q) == Entry(m, dir, q)
    ensures OwnFrames(t', m', owner', p, dir, allocs)
  {
    hide DirOk, FrameOk, KeepsImage;
    forall page | 0 <= page < PAGES
      ensures FrameOk(t', owner', p, allocs, page, Entry(m', dir, page))
    {
      FrameOkKept(t, t', owner, owner', p, allocs, page, Entry(m, dir, page));
    }
  }

  lemma ImageKept(t: Table, t': Table, owner: map<nat, Owner>, owner': map<nat, Owner>, p: nat)
    requires KeepsOwner(owner, owner', p) && KeepsLive(t, t', owner, p)
    ensures KeepsImage(t, t', owner, owner', p)
  {
    hide LiveOf;
  }

  /** A step that leaves the blocks of p alone keeps everything known about p. */
  lemma ProcFrame(k: Kernel, k': Kernel, p: nat)
    requires p < |k.procs| && p < |k'.procs| && ProcOk(k, p) && k'.procs[p] == k.procs[p]
    requires KeepsOwner(k.owner, k'.owner, p) && KeepsLive(k.table, k'.table, k.owner, p) && KeepsTables(k.mem, k'.mem, k.owner, p)
    ensures ProcOk(k', p)
  {
    hide KeepsOwner, KeepsLive, KeepsTables, KeepsImage, OwnsAllocs, Isolated, LiveOf, OwnFrames;
    var pr := k.procs[p];
    ImageKept(k.table, k'.table, k.owner, k'.owner, p);
    TablesFrame(k.mem, k'.mem, k.owner, k'.owner, p, pr.chunk);
    AllocsFrame(k.table, k'.table, k.owner, k'.owner, p, pr.allocs);
    IsolatedFrame(k.mem, k'.mem, Directory(k.mem, pr.chunk), pr.allocs, pr.reached);
    FramesKept(k.table, k'.table, k.mem, k'.mem, k.owner, k'.owner, p, Directory(k.mem, pr.chunk), pr.allocs);
  }

  // ---------- each event keeps the invariant ----------

  lemma OwnerIsLive(k: Kernel, b: nat)
    requires Inv(k) && b in k.owner
    ensures b in LiveOf(k.table) && Covers(LiveOf(k.table), b, b) && b < HEAP_BLOCKS
  {
    FirstIsCovered(k.table, LiveOf(k.table), b);
  }

  /** A block inside a live run has an owner of its own only if it is the start of that run. */
  lemma InsideRun(k: Kernel, s: nat, b: nat)
    requires Inv(k) && Covers(LiveOf(k.table), s, b) && b in k.owner
    ensures b == s
  {
    OwnerIsLive(k, b);
    RunsDisjoint(k.table, LiveOf(k.table), s, b, b);
  }

  /** The pages a process may write belong to its own live allocations. */
  lemma WriteableIsOwn(k: Kernel, p: nat, b: nat)
    requires Inv(k) && p < |k.procs| && b < HEAP_BLOCKS && InAllocs(k.procs[p].allocs, b)
    ensures exists s, i :: HasOwner(k.owner, s, AllocOf(p, i)) && Covers(LiveOf(k.table), s, b)
    ensures b in k.owner ==> k.owner[b].AllocOf?
  {
    hide LiveOf, WellFormed, Blocks;
    assert ProcOk(k, p);
    var i :| 0 <= i < 1024 && InAlloc(k.procs[p].allocs[i], b);
    var s := BlockOf(k.procs[p].allocs[i].ptr);
    assert HasOwner(k.owner, s, AllocOf(p, i)) && Covers(LiveOf(k.table), s, b);
    if b in k.owner {
      InsideRun(k, s, b);
    }
  }

  lemma MapKeepsTables(m: Mem, owner: map<nat, Owner>, p: nat, chunk: word, ws: seq<Write>)
    requires OwnsTables(m, owner, p, chunk) && InRange(ws)
    ensures OwnsTables(ApplyWrites(m, Directory(m, chunk), ws), owner, p, chunk)
    ensures Directory(ApplyWrites(m, Directory(m, chunk), ws), chunk) == Directory(m, chunk)
  {
    var dir := Directory(m, chunk);
    var m' := ApplyWrites(m, dir, ws);
    MappingKeepsChunk(m, m', chunk, ws);
    forall i | 0 <= i < ENTRIES
      ensures HasOwner(owner, TableBlock(m', dir, i), TableOf(p, i))
    {
      assert TableAddr(m', dir, i) == TableAddr(m, dir, i);
    }
  }

  /** Mapping calls for one process leave the tables of every other one alone. */
  lemma MapSparesOthers(m: Mem, owner: map<nat, Owner>, p: nat, chunk: word, ws: seq<Write>, q: nat)
    requires OwnsTables(m, owner, p, chunk) && InRange(ws) && q != p
    ensures KeepsTables(m, ApplyWrites(m, Directory(m, chunk), ws), owner, q)
  {
    var dir := Directory(m, chunk);
    WritesAreLookup(m, dir, ws);
    forall b: nat | b < HEAP_BLOCKS && b in owner && TableTag(owner[b], q)
      ensures !IsTable(m, dir, b)
    {
      assert forall i :: 0 <= i < ENTRIES ==> HasOwner(owner, TableBlock(m, dir, i), TableOf(p, i));
    }
  }

  /** The directory words that paging_new_4gb writes for a task withhold nothing. */
  lemma FreshOpen(m: Mem, chunk: word)
    requires ChunkOk(m, chunk) && DirWords(m, Directory(m, chunk), USER_READONLY)
    ensures DirOpen(m, Directory(m, chunk))
  {
    var dir := Directory(m, chunk);
    forall i | 0 <= i < ENTRIES
      ensures UserWrite(m[BlockOf(dir)][i])
    {
      assert InPool(TableAddr(m, dir, i));
      LowBits(TableAddr(m, dir, i), Or(USER_READONLY, 2));
      SameBits(USER_READONLY);
    }
  }

  lemma NewTags(m: Mem, owner: map<nat, Owner>, p: nat, chunk: word)
    requires ChunkOk(m, chunk) && DirOpen(m, Directory(m, chunk))
    ensures OwnsTables(m, owner + Tagged(m, chunk, p), p, chunk)
  {
    var dir, tags := Directory(m, chunk), Tagged(m, chunk, p);
    forall i | 0 <= i < ENTRIES
      ensures HasOwner(owner + tags, TableBlock(m, dir, i), TableOf(p, i))
    {
      var b := TableBlock(m, dir, i);
      assert b in TableBlocks(m, dir, ENTRIES);
      var o := TagOf(m, chunk, p, b);
      assert forall j :: 0 <= j < ENTRIES && TableBlock(m, dir, j) == b ==> TableAddr(m, dir, j) == TableAddr(m, dir, i);
      assert forall j :: 0 <= j < ENTRIES && TableBlock(m, dir, j) == b ==> j == i;
      assert o == TableOf(p, i);
    }
  }

  lemma FreshIsolated(m: Mem, dir: word)
    requires DirOk(m, dir) && IdentityMapped(m, dir, USER_READONLY)
    ensures Isolated(m, dir, NoAllocs(), {})
    ensures forall t, owner, p :: OwnFrames(t, m, owner, p, dir, NoAllocs())
  {
    hide DirOk, Or, And, LiveOf;
    forall page | 0 <= page < PAGES
      ensures !Writeable(Entry(m, dir, page))
    {
      FlagAccess(page * PAGE_SIZE, USER_READONLY);
    }
    assert forall b :: 0 <= b < HEAP_BLOCKS ==> !Writeable(Entry(m, dir, HEAP_PAGE + b)) && !InAllocs(NoAllocs(), b);
  }

  lemma CreateOthers(k: Kernel, chunk: word, t: Table, m: Mem, p: nat)
    requires Inv(k) && Enabled(k, Create(chunk, t, m)) && p < |k.procs|
    ensures ProcOk(Step(k, Create(chunk, t, m)), p)
  {
    hide WellFormed, LiveOf, ChunkOk, OwnsTables, OwnsAllocs, Isolated, OwnFrames, IdentityMapped, DirOk, TagOf;
    assert Tagged(m, chunk, |k.procs|).Keys == ChunkBlocks(m, chunk);
    assert ProcOk(k, p);
    ProcFrame(k, Step(k, Create(chunk, t, m)), p);
  }

  lemma CreateNew(k: Kernel, chunk: word, t: Table, m: Mem)
    requires Inv(k) && Enabled(k, Create(chunk, t, m))
    ensures ProcOk(Step(k, Create(chunk, t, m)), |k.procs|)
  {
    hide Inv, WellFormed, LiveOf, ChunkOk, OwnsTables, OwnsAllocs, Isolated, OwnFrames, IdentityMapped, DirOk, TagOf, DirWords;
    FreshOpen(m, chunk);
    NewTags(m, k.owner, |k.procs|, chunk);
    NewProcess(t, m, k.owner + Tagged(m, chunk, |k.procs|), |k.procs|, chunk);
  }

  lemma CreateKeeps(k: Kernel, chunk: word, t: Table, m: Mem)
    requires Inv(k) && Enabled(k, Create(chunk, t, m))
    ensures Inv(Step(k, Create(chunk, t, m)))
  {
    hide WellFormed, LiveOf, ChunkOk, ProcOk, IdentityMapped, DirOk, TagOf;
    assert Tagged(m, chunk, |k.procs|).Keys == ChunkBlocks(m, chunk);
    forall p: nat | p <= |k.procs|
      ensures ProcOk(Step(k, Create(chunk, t, m)), p)
    {
      if p < |k.procs| {
        CreateOthers(k, chunk, t, m, p);
      } else {
        CreateNew(k, chunk, t, m);
      }
    }
  }

  lemma NewProcess(t: Table, m: Mem, owner: map<nat, Owner>, p: nat, chunk: word)
    requires ChunkOk(m, chunk) && IdentityMapped(m, Directory(m, chunk), USER_READONLY)
    ensures OwnsAllocs(t, owner, p, NoAllocs()) && Isolated(m, Directory(m, chunk), NoAllocs(), {})
    ensures OwnFrames(t, m, owner, p, Directory(m, chunk), NoAllocs())
  {
    hide LiveOf;
    FreshIsolated(m, Directory(m, chunk));
  }

  /** A block taken from the free ones is not part of anything live, and clearing it is harmless. */
  lemma GrantFrame(k: Kernel, s: nat, size: word)
    requires Inv(k) && Blocks(size) >= 1 && FreeRun(k.table, s, Blocks(size))
    ensures s !in LiveOf(k.table) && WellFormed(Mark(k.table, s, Blocks(size)))
    ensures LiveOf(Mark(k.table, s, Blocks(size))) == LiveOf(k.table)[s := Blocks(size)]
    ensures forall p :: KeepsTables(k.mem, ZeroMem(k.mem, s, size), k.owner, p)
    ensures forall b, i :: s <= b < s + Blocks(size) ==> !Covers(LiveOf(k.table), i, b)
  {
    var n := Blocks(size);
    MarkAdds(k.table, LiveOf(k.table), s, n);
    ReadingUnique(Mark(k.table, s, n), LiveOf(k.table)[s := n]);
    ZeroFree(k.table, k.mem, s, size);
    forall b: nat | s <= b < s + n && IsFree(k.table[b])
      ensures !exists i :: Covers(LiveOf(k.table), i, b)
    {
      FreeMeansUncovered(k.table, LiveOf(k.table), b);
    }
  }

  lemma KernelGrantKeeps(k: Kernel, s: nat, size: word)
    requires Inv(k) && Blocks(size) >= 1 && FreeRun(k.table, s, Blocks(size))
    ensures Inv(Kernel(Mark(k.table, s, Blocks(size)), ZeroMem(k.mem, s, size), k.procs, k.owner[s := KernelData]))
  {
    hide WellFormed, LiveOf, Blocks, ZeroMem, Mark, OwnsTables, OwnsAllocs, Isolated;
    var k' := Kernel(Mark(k.table, s, Blocks(size)), ZeroMem(k.mem, s, size), k.procs, k.owner[s := KernelData]);
    GrantFrame(k, s, size);
    forall p: nat | p < |k.procs|
      ensures ProcOk(k', p)
    {
      assert ProcOk(k, p);
      ProcFrame(k, k', p);
    }
  }

  lemma KernelMallocKeeps(k: Kernel, size: word)
    requires Inv(k) && Enabled(k, KernelMalloc(size))
    ensures Inv(Step(k, KernelMalloc(size)))
  {
    hide Inv, Blocks, FreeRun;
    var s := StartBlock(k.table, Blocks(size));
    if s >= 0 {
      KernelGrantKeeps(k, s, size);
    }
  }

  lemma KernelFreeKeeps(k: Kernel, block: nat)
    requires Inv(k) && Enabled(k, KernelFree(block))
    ensures Inv(Step(k, KernelFree(block)))
  {
    hide WellFormed, LiveOf, FreeFrom, OwnsTables, OwnsAllocs, Isolated;
    var k' := Step(k, KernelFree(block));
    ApplyKeeps(k.table, HeapOp.Free(block));
    forall p: nat | p < |k.procs|
      ensures ProcOk(k', p)
    {
      assert ProcOk(k, p);
      ProcFrame(k, k', p);
    }
  }

  lemma {:induction false} LookupMiss(ws: seq<Write>, page: nat, init: word)
    requires forall i :: 0 <= i < |ws| ==> ws[i].page != page
    ensures Lookup(ws, page, init) == init
  {
    if ws != [] {
      LookupMiss(ws[..|ws| - 1], page, init);
    }
  }

  /** The entries of a page after a mapping call: what the call leaves there, or what was there. */
  lemma {:induction false} LookupInit(ws: seq<Write>, page: nat, init: word)
    ensures Lookup(ws, page, init) == Lookup(ws, page, 0) || (Lookup(ws, page, init) == init && Lookup(ws, page, 0) == 0)
  {
    if ws != [] && ws[|ws| - 1].page != page {
      LookupInit(ws[..|ws| - 1], page, init);
    }
  }

  lemma ZeroEntry()
    ensures !Writeable(0)
  {
  }

  /** The tables of p after a call for p: in order exactly when the call maps only its own frames. */
  lemma MappedFrames(k: Kernel, p: nat, call: MapCall)
    requires Inv(k) && p < |k.procs|
    ensures var dir := DirectoryOf(k, p);
            OwnFrames(k.table, Mapped(k, p, call).mem, k.owner, p, dir, k.procs[p].allocs) <==> MapsOwn(k, p, call)
  {
    hide Inv, WellFormed, LiveOf, DirOk, DirLive, CallWrites, Lookup, ApplyWrites, FrameOk, And, ReachedBy;
    var dir, ws, m', allocs := DirectoryOf(k, p), CallWrites(call), Mapped(k, p, call).mem, k.procs[p].allocs;
    ProcFacts(k, p);
    WritesAreLookup(k.mem, dir, ws);
    forall page: nat | page < PAGES
      ensures FrameOk(k.table, k.owner, p, allocs, page, Entry(m', dir, page))
              <==> FrameOk(k.table, k.owner, p, allocs, page, Lookup(ws, page, 0))
    {
      assert FrameOk(k.table, k.owner, p, allocs, page, Entry(k.mem, dir, page));
      LookupInit(ws, page, Entry(k.mem, dir, page));
      ZeroFrameOk(k.table, k.owner, p, allocs, page);
    }
    assert OwnFrames(k.table, m', k.owner, p, dir, allocs)
           ==> forall page: nat :: page < PAGES ==> FrameOk(k.table, k.owner, p, allocs, page, Entry(m', dir, page));
  }

  lemma ZeroFrameOk(t: Table, owner: map<nat, Owner>, p: nat, allocs: Allocs, page: nat)
    ensures FrameOk(t, owner, p, allocs, page, 0)
  {
    ZeroEntry();
  }

  lemma MappedRest(k: Kernel, p: nat, call: MapCall)
    requires Inv(k) && p < |k.procs|
    ensures var pr, k' := k.procs[p], Mapped(k, p, call);
            && OwnsTables(k'.mem, k'.owner, p, pr.chunk) && Directory(k'.mem, pr.chunk) == DirectoryOf(k, p)
            && Isolated(k'.mem, DirectoryOf(k, p), pr.allocs, pr.reached + ReachedBy(CallWrites(call)))
  {
    hide WellFormed, LiveOf, OwnsAllocs, DirOk, ChunkOk, CallWrites, Lookup, ApplyWrites, OwnFrames, HeapEntryOk;
    var k', pr := Mapped(k, p, call), k.procs[p];
    var ws, dir := CallWrites(call), DirectoryOf(k, p);
    assert ProcOk(k, p);
    MapKeepsTables(k.mem, k.owner, p, pr.chunk, ws);
    WritesAreLookup(k.mem, dir, ws);
    forall b: nat | b < HEAP_BLOCKS && b !in pr.reached + ReachedBy(ws)
      ensures HeapPageOk(k'.mem, dir, pr.allocs, b)
    {
      assert !WritesPage(ws, HEAP_PAGE + b);
      LookupMiss(ws, HEAP_PAGE + b, Entry(k.mem, dir, HEAP_PAGE + b));
    }
  }

  /** A mapping call for a process keeps the kernel in order exactly when all it leaves writeable belongs to that process. */
  lemma MapExactly(k: Kernel, p: nat, call: MapCall)
    requires Inv(k) && p < |k.procs|
    ensures Inv(Mapped(k, p, call)) <==> MapsOwn(k, p, call)
  {
    hide WellFormed, LiveOf, OwnsAllocs, OwnsTables, DirOk, ChunkOk, CallWrites, ApplyWrites, Isolated, OwnFrames, MapsOwn, ReachedBy;
    var k' := Mapped(k, p, call);
    MappedRest(k, p, call);
    MappedFrames(k, p, call);
    assert ProcOk(k, p);
    assert ProcOk(k', p) <==> MapsOwn(k, p, call);
    forall q: nat | q < |k.procs| && q != p
      ensures ProcOk(k', q)
    {
      assert ProcOk(k, q);
      MapSparesOthers(k.mem, k.owner, p, k.procs[p].chunk, CallWrites(call), q);
      SameTableFrame(k, k', q);
    }
  }

  lemma MapPagesKeeps(k: Kernel, p: nat, call: MapCall)
    requires Inv(k) && Enabled(k, MapPages(p, call))
    ensures Inv(Step(k, MapPages(p, call)))
  {
    hide Inv, MapsOwn, Mapped, CallWrites;
    MapExactly(k, p, call);
  }

  /** An allocation of the kernel becomes image or stack of a process. */
  lemma AdoptKeeps(k: Kernel, p: nat, block: nat)
    requires Inv(k) && Enabled(k, Adopt(p, block))
    ensures Inv(Step(k, Adopt(p, block)))
  {
    hide WellFormed, LiveOf, OwnsTables, OwnsAllocs, Isolated, OwnFrames;
    var k' := Step(k, Adopt(p, block));
    forall q: nat | q < |k.procs|
      ensures ProcOk(k', q)
    {
      assert ProcOk(k, q);
      ProcFrame(k, k', q);
    }
  }

  /** ProcFrame for steps that change neither the heap table nor the owners. */
  lemma SameTableFrame(k: Kernel, k': Kernel, q: nat)
    requires q < |k.procs| == |k'.procs| && ProcOk(k, q) && k'.procs[q] == k.procs[q]
    requires k'.table == k.table && k'.owner == k.owner && KeepsTables(k.mem, k'.mem, k.owner, q)
    ensures ProcOk(k', q)
  {
    ProcFrame(k, k', q);
  }

  /** Whatever a process can write belongs to it: one of its allocations, its image or its stack. */
  lemma WriteableBelongs(k: Kernel, p: nat, page: nat)
    requires Inv(k) && p < |k.procs| && page < PAGES && Writeable(Entry(k.mem, DirectoryOf(k, p), page))
    ensures var e := Entry(k.mem, DirectoryOf(k, p), page);
            InPool(FrameOf(e)) && Belongs(k, p, BlockOf(FrameOf(e)))
  {
    hide Inv, WellFormed, LiveOf, DirOk, DirLive, Writeable, InAllocs;
    ProcFacts(k, p);
    var e := Entry(k.mem, DirectoryOf(k, p), page);
    assert FrameOk(k.table, k.owner, p, k.procs[p].allocs, page, e);
    if AllocPage(k.procs[p].allocs, page, FrameOf(e)) {
      WriteableIsOwn(k, p, page - HEAP_PAGE);
    }
  }

  lemma ReachedBelongs(k: Kernel, p: nat, b: nat)
    requires Inv(k) && p < |k.procs| && Reaches(k, p, b)
    ensures Belongs(k, p, b) && (b in k.owner ==> UserTag(k.owner[b], p))
  {
    hide Inv, WellFormed, LiveOf, DirOk, DirLive, Writeable;
    var page :| 0 <= page < PAGES && WritesTo(Entry(k.mem, DirectoryOf(k, p), page), b);
    WriteableBelongs(k, p, page);
    var s :| s in k.owner && UserTag(k.owner[s], p) && Covers(LiveOf(k.table), s, b);
    if b in k.owner {
      InsideRun(k, s, b);
    }
  }

  lemma StoreKeeps(k: Kernel, e: Event)
    requires (e.UserStore? || e.KernelStore?) && Inv(k) && Enabled(k, e)
    ensures Inv(Step(k, e))
  {
    hide WellFormed, LiveOf, OwnsAllocs, OwnsTables, Isolated, OwnFrames, Reaches;
    var k' := Step(k, e);
    forall b: nat | b < HEAP_BLOCKS && k'.mem[b] != k.mem[b] && b in k.owner
      ensures !HoldsTables(k.owner[b])
    {
      if e.UserStore? {
        ReachedBelongs(k, e.p, b);
      }
    }
    forall q: nat | q < |k.procs|
      ensures ProcOk(k', q)
    {
      assert ProcOk(k, q);
      SameTableFrame(k, k', q);
    }
  }

  // ---------- process_malloc ----------

  lemma GrantInAllocs(allocs: Allocs, slot: nat, a: Alloc, b: nat)
    requires slot < 1024 && allocs[slot].ptr == 0
    ensures InAllocs(allocs[slot := a], b) <==> InAllocs(allocs, b) || InAlloc(a, b)
  {
    hide Blocks;
    var allocs' := allocs[slot := a];
    assert InAlloc(allocs'[slot], b) == InAlloc(a, b);
    if i :| 0 <= i < 1024 && InAlloc(allocs[i], b) {
      assert InAlloc(allocs'[i], b);
    }
  }

  /** The tables of p after a grant: writeable where they were, and on the new blocks. */
  lemma GrantIsolated(m: Mem, dir: word, allocs: Allocs, reached: set<nat>, slot: nat, a: Alloc)
    requires DirOk(m, dir) && Isolated(m, dir, allocs, reached) && slot < 1024 && allocs[slot].ptr == 0 && GoodAlloc(a)
    ensures Isolated(ApplyWrites(m, dir, MapWritesOf(a, USER_WRITEABLE)), dir, allocs[slot := a], reached)
  {
    hide DirOk, ApplyWrites, MapWritesOf, Lookup, Blocks, And, InAlloc, InAllocs, GoodAlloc;
    var ws := MapWritesOf(a, USER_WRITEABLE);
    var m' := ApplyWrites(m, dir, ws);
    WritesAreLookup(m, dir, ws);
    forall b: nat | b < HEAP_BLOCKS && b !in reached
      ensures HeapPageOk(m', dir, allocs[slot := a], b)
    {
      AllocLookup(a, USER_WRITEABLE, b, Entry(m, dir, HEAP_PAGE + b));
      GrantInAllocs(allocs, slot, a, b);
      assert HeapPageOk(m, dir, allocs, b);
    }
  }

  /** A granted allocation leaves every writeable page standing for memory of the process. */
  lemma GrantFrames(t: Table, m: Mem, owner: map<nat, Owner>, p: nat, dir: word, allocs: Allocs, slot: nat, a: Alloc)
    requires DirOk(m, dir) && OwnFrames(t, m, owner, p, dir, allocs) && slot < 1024 && allocs[slot].ptr == 0 && GoodAlloc(a)
    ensures OwnFrames(t, ApplyWrites(m, dir, MapWritesOf(a, USER_WRITEABLE)), owner, p, dir, allocs[slot := a])
  {
    hide DirOk, ApplyWrites, MapWritesOf, Lookup, And, GoodAlloc, InAlloc, InAllocs, LiveOf, InImage;
    var ws := MapWritesOf(a, USER_WRITEABLE);
    WritesAreLookup(m, dir, ws);
    forall page: nat | page < PAGES
      ensures FrameOk(t, owner, p, allocs[slot := a], page, Lookup(ws, page, Entry(m, dir, page)))
    {
      assert FrameOk(t, owner, p, allocs, page, Entry(m, dir, page));
      if HeapPage(page) {
        AllocLookup(a, USER_WRITEABLE, page - HEAP_PAGE, Entry(m, dir, page));
        GrantInAllocs(allocs, slot, a, page - HEAP_PAGE);
      } else {
        AllocSpares(a, USER_WRITEABLE, page, Entry(m, dir, page));
      }
    }
  }

  /**
   What a process finds in a granted allocation: zeros up to the size it asked for,
   and in the rest of the last block whatever was there before.
   */
  lemma GrantContents(k: Kernel, p: nat, s: nat, size: word, slot: nat, i: nat)
    requires Inv(k) && p < |k.procs| && slot < 1024 && Blocks(size) >= 1 && FreeRun(k.table, s, Blocks(size)) && i < Blocks(size) * PAGE_SIZE
    ensures s + i / PAGE_SIZE < HEAP_BLOCKS
    ensures var r := Granted(k.table, k.mem, DirectoryOf(k, p), k.procs[p].allocs, s, size, slot);
            ByteAfter(r.mem, s, i) == if i < size then 0 else ByteAfter(k.mem, s, i)
  {
    assert |k.table| == HEAP_BLOCKS;
    assert s + i / PAGE_SIZE < s + Blocks(size) <= HEAP_BLOCKS;
    var b, dir := s + i / PAGE_SIZE, DirectoryOf(k, p);
    GrantFrame(k, s, size);
    ZeroKeepsDir(k.table, k.mem, dir, s, size);
    NoTableThere(k, p, b, s, size);
    hide Inv, WellFormed, LiveOf, Blocks, ZeroMem, Mark, ApplyWrites, MapWritesOf, DirLive, DirOk, FreeRun, IsTable;
    WritesAreLookup(ZeroMem(k.mem, s, size), dir, MapWritesOf(Alloc(AddressOf(s), size), USER_WRITEABLE));
    ZeroBytes(k.mem, s, size, i);
  }

  /** A block that was free is no page table. */
  lemma NoTableThere(k: Kernel, p: nat, b: nat, s: nat, size: word)
    requires Inv(k) && p < |k.procs| && Blocks(size) >= 1 && FreeRun(k.table, s, Blocks(size)) && s <= b < s + Blocks(size)
    ensures DirOk(ZeroMem(k.mem, s, size), DirectoryOf(k, p)) && !IsTable(ZeroMem(k.mem, s, size), DirectoryOf(k, p), b)
  {
    hide Inv, Encodes, LiveOf, Blocks, ZeroMem;
    var m', dir := ZeroMem(k.mem, s, size), DirectoryOf(k, p);
    assert |k.table| == HEAP_BLOCKS && WellFormed(k.table) by { TableFacts(k); }
    ZeroKeepsDir(k.table, k.mem, dir, s, size);
    GrantFrame(k, s, size);
    forall i | 0 <= i < ENTRIES
      ensures TableBlock(m', dir, i) != b
    {
      assert TableAddr(m', dir, i) == TableAddr(k.mem, dir, i);
      FirstIsCovered(k.table, LiveOf(k.table), TableBlock(k.mem, dir, i));
    }
  }

  lemma TableFacts(k: Kernel)
    requires Inv(k)
    ensures |k.table| == HEAP_BLOCKS && WellFormed(k.table)
  {
  }

  lemma GrantKeeps(k: Kernel, p: nat, s: nat, size: word, slot: nat)
    requires Inv(k) && p < |k.procs| && slot < 1024 && k.procs[p].allocs[slot].ptr == 0
    requires Blocks(size) >= 1 && FreeRun(k.table, s, Blocks(size))
    ensures var r := Granted(k.table, k.mem, DirectoryOf(k, p), k.procs[p].allocs, s, size, slot);
            Inv(Kernel(r.table, r.mem, k.procs[p := k.procs[p].(allocs := r.allocs)], k.owner[s := AllocOf(p, slot)]))
  {
    hide WellFormed, LiveOf, Blocks, ZeroMem, Mark, ApplyWrites, MapWritesOf, Isolated, OwnsAllocs, OwnFrames;
    var n, a := Blocks(size), Alloc(AddressOf(s), size);
    var chunk, allocs := k.procs[p].chunk, k.procs[p].allocs;
    var t1, m1, owner' := Mark(k.table, s, n), ZeroMem(k.mem, s, size), k.owner[s := AllocOf(p, slot)];
    var dir := DirectoryOf(k, p);
    var k1 := Kernel(t1, m1, k.procs, owner');
    BlocksExact(size);
    GrantFrame(k, s, size);
    forall q: nat | q < |k.procs|
      ensures ProcOk(k1, q)
    {
      assert ProcOk(k, q);
      ProcFrame(k, k1, q);
    }
    assert ProcOk(k, p);
    TablesFrame(k.mem, m1, k.owner, owner', p, chunk);
    var ws := MapWritesOf(a, USER_WRITEABLE);
    var k2 := Kernel(t1, ApplyWrites(m1, dir, ws), k.procs[p := k.procs[p].(allocs := allocs[slot := a])], owner');
    MapKeepsTables(m1, owner', p, chunk, ws);
    assert ProcOk(k1, p);
    GrantIsolated(m1, dir, allocs, k.procs[p].reached, slot, a);
    GrantOwned(t1, owner', p, allocs, slot, a);
    GrantFrames(t1, m1, owner', p, dir, allocs, slot, a);
    forall q: nat | q < |k.procs|
      ensures ProcOk(k2, q)
    {
      assert ProcOk(k1, q);
      if q != p {
        MapSparesOthers(m1, owner', p, chunk, ws, q);
        SameTableFrame(k1, k2, q);
      }
    }
  }

  lemma GrantOwned(t: Table, owner: map<nat, Owner>, p: nat, allocs: Allocs, slot: nat, a: Alloc)
    requires OwnsAllocs(t, owner, p, allocs) && slot < 1024 && GoodAlloc(a)
    requires HasOwner(owner, BlockOf(a.ptr), AllocOf(p, slot)) && LiveSize(t, BlockOf(a.ptr), Blocks(a.size))
    ensures OwnsAllocs(t, owner, p, allocs[slot := a])
  {
    hide LiveOf, Blocks;
  }

  /** When no slot is free the block goes straight back, and only free memory was cleared. */
  lemma RefusedKeeps(k: Kernel, s: nat, size: word)
    requires Inv(k) && Blocks(size) >= 1 && FreeRun(k.table, s, Blocks(size))
    ensures FreeFrom(Mark(k.table, s, Blocks(size)), s) == k.table
    ensures Inv(Kernel(k.table, ZeroMem(k.mem, s, size), k.procs, k.owner))
  {
    hide WellFormed, LiveOf, Blocks, ZeroMem, Mark, FreeFrom, Isolated, OwnsAllocs, OwnsTables;
    MallocFree(k.table, s, Blocks(size));
    GrantFrame(k, s, size);
    var k' := Kernel(k.table, ZeroMem(k.mem, s, size), k.procs, k.owner);
    forall q: nat | q < |k.procs|
      ensures ProcOk(k', q)
    {
      assert ProcOk(k, q);
      SameTableFrame(k, k', q);
    }
  }

  lemma StartInside(k: Kernel, size: word)
    requires Inv(k) && Blocks(size) >= 1 && Serviceable(k.table, Blocks(size))
    ensures |k.table| == HEAP_BLOCKS
    ensures var s := StartBlock(k.table, Blocks(size)); s >= 0 ==> s < HEAP_BLOCKS && FreeRun(k.table, s, Blocks(size))
  {
  }

  lemma MallocKeeps(k: Kernel, p: nat, size: word)
    requires Inv(k) && Enabled(k, Event.Malloc(p, size))
    ensures Inv(Step(k, Event.Malloc(p, size)))
  {
    hide Inv, FreeRun, Blocks, FreeFrom, Mark, ZeroMem, Mappable, ApplyWrites, MapWritesOf,
         WellFormed, LiveOf, DirLive, DirOk, SlotOf, StartBlock, Serviceable;
    StartInside(k, size);
    var s := StartBlock(k.table, Blocks(size));
    var allocs := k.procs[p].allocs;
    var slot := SlotOf(allocs, 0, 0);
    if s < 0 {
      assert Step(k, Event.Malloc(p, size)) == k;
    } else if slot < 0 || !Mappable(Alloc(AddressOf(s), size)) {
      RefusedKeeps(k, s, size);
      assert k.procs[p := k.procs[p].(allocs := allocs)] == k.procs;
    } else {
      GrantKeeps(k, p, s, size, slot);
    }
  }

  // ---------- process_free ----------

  lemma SlotIsOwner(k: Kernel, p: nat, i: nat)
    requires Inv(k) && p < |k.procs| && i < 1024 && k.procs[p].allocs[i].ptr != 0
    ensures var a := k.procs[p].allocs[i];
            && GoodAlloc(a) && HasOwner(k.owner, BlockOf(a.ptr), AllocOf(p, i))
            && LiveSize(k.table, BlockOf(a.ptr), Blocks(a.size))
  {
    hide LiveOf, WellFormed, Blocks, GoodAlloc;
    assert ProcOk(k, p);
  }

  lemma ProcFacts(k: Kernel, p: nat)
    requires Inv(k) && p < |k.procs|
    ensures ProcOk(k, p) && ChunkOk(k.mem, k.procs[p].chunk)
    ensures DirectoryOf(k, p) == Directory(k.mem, k.procs[p].chunk)
    ensures Isolated(k.mem, DirectoryOf(k, p), k.procs[p].allocs, k.procs[p].reached)
    ensures OwnFrames(k.table, k.mem, k.owner, p, DirectoryOf(k, p), k.procs[p].allocs)
  {
    assert ProcOk(k, p);
  }

  lemma OneRun(k: Kernel, s: nat, s': nat, b: nat)
    requires Inv(k) && Covers(LiveOf(k.table), s, b) && Covers(LiveOf(k.table), s', b)
    ensures s == s'
  {
    RunsDisjoint(k.table, LiveOf(k.table), s, s', b);
  }

  /** Two recorded allocations never share a block, whichever processes they belong to. */
  lemma AllocsDisjoint(k: Kernel, p: nat, i: nat, q: nat, j: nat, b: nat)
    requires Inv(k) && p < |k.procs| && q < |k.procs| && i < 1024 && j < 1024
    requires InAlloc(k.procs[p].allocs[i], b) && InAlloc(k.procs[q].allocs[j], b)
    ensures p == q && i == j
  {
    hide LiveOf, Blocks;
    SlotIsOwner(k, p, i);
    SlotIsOwner(k, q, j);
    var s1, s2 := BlockOf(k.procs[p].allocs[i].ptr), BlockOf(k.procs[q].allocs[j].ptr);
    assert Covers(LiveOf(k.table), s1, b) && Covers(LiveOf(k.table), s2, b);
    RunsDisjoint(k.table, LiveOf(k.table), s1, s2, b);
  }

  /** A live pointer sits in one slot only, so unjoining it clears just that slot. */
  lemma UnjoinIsUpdate(k: Kernel, p: nat, i: nat)
    requires Inv(k) && p < |k.procs| && i < 1024 && k.procs[p].allocs[i].ptr != 0
    ensures Unjoin(k.procs[p].allocs, k.procs[p].allocs[i].ptr) == k.procs[p].allocs[i := NO_ALLOC]
  {
    hide LiveOf, WellFormed, Inv;
    var allocs := k.procs[p].allocs;
    SlotIsOwner(k, p, i);
    forall j: nat | j < 1024 && allocs[j].ptr == allocs[i].ptr
      ensures j == i
    {
      SlotIsOwner(k, p, j);
    }
  }

  lemma RevokeInAllocs(k: Kernel, p: nat, i: nat, b: nat)
    requires Inv(k) && p < |k.procs| && i < 1024
    ensures InAllocs(k.procs[p].allocs[i := NO_ALLOC], b)
            <==> InAllocs(k.procs[p].allocs, b) && !InAlloc(k.procs[p].allocs[i], b)
  {
    hide Inv, Blocks, LiveOf;
    var allocs := k.procs[p].allocs;
    var allocs' := allocs[i := NO_ALLOC];
    forall j: nat | j < 1024 && InAlloc(allocs[j], b) && InAlloc(allocs[i], b)
      ensures j == i
    {
      AllocsDisjoint(k, p, j, p, i, b);
    }
    assert forall j :: 0 <= j < 1024 && j != i ==> InAlloc(allocs'[j], b) == InAlloc(allocs[j], b);
    assert !InAlloc(allocs'[i], b);
    if j :| 0 <= j < 1024 && InAlloc(allocs[j], b) && !InAlloc(allocs[i], b) {
      assert InAlloc(allocs'[j], b);
    }
  }

  lemma RevokeIsolated(k: Kernel, p: nat, i: nat)
    requires Inv(k) && p < |k.procs| && i < 1024 && k.procs[p].allocs[i].ptr != 0
    ensures var allocs, dir := k.procs[p].allocs, DirectoryOf(k, p);
            Isolated(ApplyWrites(k.mem, dir, MapWritesOf(allocs[i], 0)), dir, allocs[i := NO_ALLOC], k.procs[p].reached)
  {
    hide DirOk, DirLive, ApplyWrites, MapWritesOf, Lookup, And, Inv, GoodAlloc, InAlloc, InAllocs, LiveOf, WellFormed;
    SlotIsOwner(k, p, i);
    ProcFacts(k, p);
    var dir, allocs := DirectoryOf(k, p), k.procs[p].allocs;
    var ws := MapWritesOf(allocs[i], 0);
    var m' := ApplyWrites(k.mem, dir, ws);
    WritesAreLookup(k.mem, dir, ws);
    forall b: nat | b < HEAP_BLOCKS && b !in k.procs[p].reached
      ensures HeapPageOk(m', dir, allocs[i := NO_ALLOC], b)
    {
      AllocLookup(allocs[i], 0, b, Entry(k.mem, dir, HEAP_PAGE + b));
      RevokeInAllocs(k, p, i, b);
      assert HeapPageOk(k.mem, dir, allocs, b);
    }
  }

  /** A revoked allocation leaves every writeable page standing for memory that is still the process's. */
  lemma RevokeUnmaps(k: Kernel, p: nat, i: nat)
    requires Inv(k) && p < |k.procs| && i < 1024 && k.procs[p].allocs[i].ptr != 0
    ensures var allocs, dir := k.procs[p].allocs, DirectoryOf(k, p);
            OwnFrames(k.table, ApplyWrites(k.mem, dir, MapWritesOf(allocs[i], 0)), k.owner, p, dir, allocs[i := NO_ALLOC])
  {
    hide DirOk, DirLive, ApplyWrites, MapWritesOf, Lookup, And, Inv, GoodAlloc, InAlloc, InAllocs, LiveOf, WellFormed, InImage;
    SlotIsOwner(k, p, i);
    ProcFacts(k, p);
    var dir, allocs := DirectoryOf(k, p), k.procs[p].allocs;
    var ws := MapWritesOf(allocs[i], 0);
    WritesAreLookup(k.mem, dir, ws);
    forall page: nat | page < PAGES
      ensures FrameOk(k.table, k.owner, p, allocs[i := NO_ALLOC], page, Lookup(ws, page, Entry(k.mem, dir, page)))
    {
      assert FrameOk(k.table, k.owner, p, allocs, page, Entry(k.mem, dir, page));
      if HeapPage(page) {
        AllocLookup(allocs[i], 0, page - HEAP_PAGE, Entry(k.mem, dir, page));
        RevokeInAllocs(k, p, i, page - HEAP_PAGE);
      } else {
        AllocSpares(allocs[i], 0, page, Entry(k.mem, dir, page));
      }
    }
  }

  lemma RevokeOwned(k: Kernel, p: nat, i: nat, t': Table)
    requires Inv(k) && p < |k.procs| && i < 1024 && k.procs[p].allocs[i].ptr != 0
    requires InPool(k.procs[p].allocs[i].ptr) && LiveOf(t') == LiveOf(k.table) - {BlockOf(k.procs[p].allocs[i].ptr)}
    ensures OwnsAllocs(t', k.owner - {BlockOf(k.procs[p].allocs[i].ptr)}, p, k.procs[p].allocs[i := NO_ALLOC])
  {
    hide Inv, LiveOf, Blocks, GoodAlloc, WellFormed;
    var allocs := k.procs[p].allocs;
    SlotIsOwner(k, p, i);
    forall j: nat | j < 1024 && j != i && allocs[j].ptr != 0
      ensures GoodAlloc(allocs[j]) && InPool(allocs[j].ptr)
      ensures HasOwner(k.owner - {BlockOf(allocs[i].ptr)}, BlockOf(allocs[j].ptr), AllocOf(p, j))
      ensures LiveSize(t', BlockOf(allocs[j].ptr), Blocks(allocs[j].size))
    {
      SlotIsOwner(k, p, j);
      GoodAllocEnd(allocs[j]);
    }
  }

  lemma TablesDropAlloc(m: Mem, owner: map<nat, Owner>, p: nat, chunk: word, b: nat)
    requires OwnsTables(m, owner, p, chunk) && b in owner && owner[b].AllocOf?
    ensures OwnsTables(m, owner - {b}, p, chunk)
  {
    hide ChunkOk, DirOk;
  }

  lemma FreeKeeps(k: Kernel, p: nat, ptr: word)
    requires Inv(k) && Enabled(k, Event.Free(p, ptr))
    ensures Inv(Step(k, Event.Free(p, ptr)))
  {
    var allocs, chunk := k.procs[p].allocs, k.procs[p].chunk;
    var i := SlotOf(allocs, ptr, 0);
    if i >= 0 {
      RevokeKeeps(k, p, i);
      FreeIsRevoke(k, p, ptr);
    }
  }

  ghost function Revoked(k: Kernel, p: nat, i: nat): Kernel
    requires Inv(k) && p < |k.procs| && i < 1024 && InPool(k.procs[p].allocs[i].ptr)
  {
    var allocs := k.procs[p].allocs;
    Kernel(FreeFrom(k.table, BlockOf(allocs[i].ptr)),
           ApplyWrites(k.mem, DirectoryOf(k, p), MapWritesOf(allocs[i], 0)),
           k.procs[p := k.procs[p].(allocs := allocs[i := NO_ALLOC])],
           k.owner - {BlockOf(allocs[i].ptr)})
  }

  lemma FreeIsRevoke(k: Kernel, p: nat, ptr: word)
    requires Inv(k) && Enabled(k, Event.Free(p, ptr)) && SlotOf(k.procs[p].allocs, ptr, 0) >= 0
    ensures InPool(ptr) && Step(k, Event.Free(p, ptr)) == Revoked(k, p, SlotOf(k.procs[p].allocs, ptr, 0))
  {
    var i := SlotOf(k.procs[p].allocs, ptr, 0);
    hide Inv, WellFormed, LiveOf, ApplyWrites, MapWritesOf, FreeFrom, Blocks, DirOk, DirLive, SlotOf;
    SlotIsOwner(k, p, i);
    GoodAllocEnd(k.procs[p].allocs[i]);
    UnjoinIsUpdate(k, p, i);
  }

  /** A freed page is gone for the process: it is not even present. */
  lemma RevokedIsAbsent(k: Kernel, p: nat, i: nat, b: nat)
    requires Inv(k) && p < |k.procs| && i < 1024 && b < HEAP_BLOCKS && InAlloc(k.procs[p].allocs[i], b)
    ensures InPool(k.procs[p].allocs[i].ptr)
    ensures !Present(Entry(Revoked(k, p, i).mem, DirectoryOf(k, p), HEAP_PAGE + b))
  {
    hide Inv, WellFormed, LiveOf, Blocks, FreeFrom, ApplyWrites, MapWritesOf, DirLive, DirOk, Lookup;
    var a, dir := k.procs[p].allocs[i], DirectoryOf(k, p);
    SlotIsOwner(k, p, i);
    WritesAreLookup(k.mem, dir, MapWritesOf(a, 0));
    AllocLookup(a, 0, b, Entry(k.mem, dir, HEAP_PAGE + b));
  }

  lemma RevokeOthers(k: Kernel, p: nat, i: nat, q: nat)
    requires Inv(k) && p < |k.procs| && i < 1024 && k.procs[p].allocs[i].ptr != 0 && InPool(k.procs[p].allocs[i].ptr)
    requires q < |k.procs| && q != p
    ensures ProcOk(Revoked(k, p, i), q)
  {
    hide Inv, WellFormed, LiveOf, Blocks, FreeFrom, ApplyWrites, MapWritesOf, Isolated, OwnsAllocs, ChunkOk, DirLive, DirOk;
    SlotIsOwner(k, p, i);
    ProcFacts(k, p);
    ProcFacts(k, q);
    var b := BlockOf(k.procs[p].allocs[i].ptr);
    var k2 := Revoked(k, p, i);
    var k1 := Kernel(k.table, k2.mem, k.procs, k.owner);
    FreeOne(k, b);
    MapSparesOthers(k.mem, k.owner, p, k.procs[p].chunk, MapWritesOf(k.procs[p].allocs[i], 0), q);
    SameTableFrame(k, k1, q);
    ProcFrame(k1, k2, q);
  }

  lemma FreeOne(k: Kernel, b: nat)
    requires Inv(k) && b in LiveOf(k.table)
    ensures WellFormed(FreeFrom(k.table, b)) && LiveOf(FreeFrom(k.table, b)) == LiveOf(k.table) - {b}
  {
    ApplyKeeps(k.table, HeapOp.Free(b));
  }

  lemma RevokeKeeps(k: Kernel, p: nat, i: nat)
    requires Inv(k) && p < |k.procs| && i < 1024 && k.procs[p].allocs[i].ptr != 0
    ensures InPool(k.procs[p].allocs[i].ptr) && Inv(Revoked(k, p, i))
  {
    SlotIsOwner(k, p, i);
    hide WellFormed, LiveOf, Blocks, FreeFrom, ApplyWrites, MapWritesOf, Isolated, OwnsAllocs, OwnsTables, ChunkOk, DirLive, DirOk;
    var b := BlockOf(k.procs[p].allocs[i].ptr);
    var k2 := Revoked(k, p, i);
    FreeOne(k, b);
    RevokeOwner(k, p, i);
    forall q: nat | q < |k.procs| && q != p
      ensures ProcOk(k2, q)
    {
      RevokeOthers(k, p, i, q);
    }
  }

  lemma RevokeOwner(k: Kernel, p: nat, i: nat)
    requires Inv(k) && p < |k.procs| && i < 1024 && k.procs[p].allocs[i].ptr != 0 && InPool(k.procs[p].allocs[i].ptr)
    ensures ProcOk(Revoked(k, p, i), p)
  {
    hide Inv, WellFormed, LiveOf, Blocks, FreeFrom, ApplyWrites, MapWritesOf, Isolated, OwnsAllocs, OwnsTables, OwnFrames, ChunkOk, DirLive, DirOk;
    SlotIsOwner(k, p, i);
    ProcFacts(k, p);
    var allocs, chunk := k.procs[p].allocs, k.procs[p].chunk;
    var k2 := Revoked(k, p, i);
    FreeOne(k, BlockOf(allocs[i].ptr));
    MapKeepsTables(k.mem, k.owner, p, chunk, MapWritesOf(allocs[i], 0));
    TablesDropAlloc(k2.mem, k.owner, p, chunk, BlockOf(allocs[i].ptr));
    RevokeIsolated(k, p, i);
    RevokeOwned(k, p, i, k2.table);
    RevokeUnmaps(k, p, i);
    RevokeFrames(k, p, i);
  }

  lemma RevokeFrames(k: Kernel, p: nat, i: nat)
    requires Inv(k) && p < |k.procs| && i < 1024 && k.procs[p].allocs[i].ptr != 0 && InPool(k.procs[p].allocs[i].ptr)
    requires DirOk(Revoked(k, p, i).mem, DirectoryOf(k, p))
    requires OwnFrames(k.table, Revoked(k, p, i).mem, k.owner, p, DirectoryOf(k, p), Revoked(k, p, i).procs[p].allocs)
    ensures var k2 := Revoked(k, p, i); OwnFrames(k2.table, k2.mem, k2.owner, p, DirectoryOf(k, p), k2.procs[p].allocs)
  {
    hide Inv, WellFormed, LiveOf, Blocks, FreeFrom, ApplyWrites, MapWritesOf, OwnFrames, DirLive, DirOk;
    var k2 := Revoked(k, p, i);
    SlotIsOwner(k, p, i);
    FreeOne(k, BlockOf(k.procs[p].allocs[i].ptr));
    FramesKept(k.table, k2.table, k2.mem, k2.mem, k.owner, k2.owner, p, DirectoryOf(k, p), k2.procs[p].allocs);
  }

  // ---------- whole runs ----------

  lemma StepKeeps(k: Kernel, e: Event)
    requires Inv(k) && Enabled(k, e)
    ensures Inv(Step(k, e))
  {
    hide Inv, Enabled, Step;
    match e
    case Create(chunk, t, m) => CreateKeeps(k, chunk, t, m);
    case Malloc(p, size) => MallocKeeps(k, p, size);
    case Free(p, ptr) => FreeKeeps(k, p, ptr);
    case KernelMalloc(size) => KernelMallocKeeps(k, size);
    case KernelFree(block) => KernelFreeKeeps(k, block);
    case Adopt(p, block) => AdoptKeeps(k, p, block);
    case MapPages(p, call) => MapPagesKeeps(k, p, call);
    case UserStore(_, _) => StoreKeeps(k, e);
    case KernelStore(_) => StoreKeeps(k, e);
  }

  /** The kernel after kheap_init: every heap block free, no process. */
  ghost function Boot(m: Mem): Kernel {
    Kernel(seq(HEAP_BLOCKS, _ => FREE), m, [], map[])
  }

  lemma BootOk(m: Mem)
    ensures Inv(Boot(m))
  {
    ZeroTable(Boot(m).table);
  }

  /** A sequence of events each of which is possible when its turn comes. */
  ghost predicate Possible(m: Mem, es: seq<Event>)
    decreases |es|, 0
  {
    es == [] ||
    (Possible(m, es[..|es| - 1]) && Enabled(After(m, es[..|es| - 1]), es[|es| - 1]))
  }

  ghost function After(m: Mem, es: seq<Event>): (k: Kernel)
    requires Possible(m, es)
    ensures Inv(k)
    decreases |es|, 1
  {
    if es == [] then BootOk(m); Boot(m)
    else
      StepKeeps(After(m, es[..|es| - 1]), es[|es| - 1]);
      Step(After(m, es[..|es| - 1]), es[|es| - 1])
  }

  /** Only process p may write block b: it belongs to p and to nothing else. */
  ghost predicate Exclusive(k: Kernel, p: nat, b: nat)
    requires Inv(k)
  {
    && (forall q :: 0 <= q < |k.procs| && Reaches(k, q, b) ==> q == p)
    && Belongs(k, p, b)
    && !KernelCovers(k, b)
    && (forall q :: 0 <= q < |k.procs| ==> !InTables(k, q, b))
  }

  /** Block b holds the chunk, the directory or a page table of process q. */
  ghost predicate InTables(k: Kernel, q: nat, b: nat)
    requires q < |k.procs|
  {
    ChunkOk(k.mem, k.procs[q].chunk) && b in ChunkBlocks(k.mem, k.procs[q].chunk)
  }

  /** No program mapping of process p in this run writes that page. */
  ghost predicate Spared(es: seq<Event>, p: nat, page: nat) {
    forall j :: 0 <= j < |es| && es[j].MapPages? && es[j].p == p ==> !WritesPage(CallWrites(es[j].call), page)
  }

  lemma StepReached(k: Kernel, e: Event, p: nat)
    requires Inv(k) && Enabled(k, e) && p < |Step(k, e).procs|
    ensures |k.procs| <= |Step(k, e).procs| && (e.MapPages? && e.p == p ==> p < |k.procs|)
    ensures Step(k, e).procs[p].reached
            == if p >= |k.procs| then {}
               else if e.MapPages? && e.p == p then k.procs[p].reached + ReachedBy(CallWrites(e.call)) else k.procs[p].reached
  {
    hide Inv, WellFormed, LiveOf, DirOk, DirLive, ReachedBy, CallWrites, ApplyWrites, ProcessMalloc, ProcessFree, MapsOwn, NewChunk, Tagged;
  }

  /** The reached blocks are those whose pages some program mapping of the run has written. */
  lemma {:induction false} ReachedExactly(m: Mem, es: seq<Event>, p: nat, b: nat)
    requires Possible(m, es) && b < HEAP_BLOCKS
    ensures if p < |After(m, es).procs| then b in After(m, es).procs[p].reached <==> !Spared(es, p, HEAP_PAGE + b)
            else Spared(es, p, HEAP_PAGE + b)
    decreases |es|
  {
    hide Inv, Enabled, Step, WellFormed, LiveOf, CallWrites;
    if es != [] {
      var n := |es| - 1;
      var k, e := After(m, es[..n]), es[n];
      ReachedExactly(m, es[..n], p, b);
      SparedStep(es, p, HEAP_PAGE + b);
      MapsExisting(k, e, p);
      if p < |After(m, es).procs| {
        StepReached(k, e, p);
      }
    }
  }

  lemma MapsExisting(k: Kernel, e: Event, p: nat)
    requires Inv(k) && Enabled(k, e)
    ensures e.MapPages? && e.p == p ==> p < |k.procs|
    ensures |k.procs| <= |Step(k, e).procs|
  {
    hide Inv, WellFormed, LiveOf, DirOk, DirLive, ReachedBy, CallWrites, ApplyWrites, ProcessMalloc, ProcessFree, MapsOwn, NewChunk, Tagged;
  }

  lemma SparedStep(es: seq<Event>, p: nat, page: nat)
    requires es != []
    ensures var e := es[|es| - 1];
            Spared(es, p, page)
            <==> Spared(es[..|es| - 1], p, page) && (e.MapPages? && e.p == p ==> !WritesPage(CallWrites(e.call), page))
  {
    hide CallWrites, WritesPage;
    var n := |es| - 1;
    assert forall j :: 0 <= j < n ==> es[..n][j] == es[j];
  }

  /**
   Write isolation.  From boot, after any interleaving of process creation,
   program mapping, malloc, free, kernel allocation and stores: whatever page of
   its address space has its write bit set for a process, it stands for a block of
   the pool that belongs to this process, that no page of another process can
   write, and that holds no page tables or kernel data.  A heap page that no
   program mapping has written is open to writes of user code, through directory
   and table, exactly when it lies in one of the recorded live allocations, and
   then stands for itself.
   */
  lemma WriteIsolation(m: Mem, es: seq<Event>, p: nat, page: nat)
    requires Possible(m, es) && p < |After(m, es).procs| && page < PAGES
    ensures var k := After(m, es);
            var dir := DirectoryOf(k, p);
            var e := Entry(k.mem, dir, page);
            && (Writeable(e) ==> InPool(FrameOf(e)) && Exclusive(k, p, BlockOf(FrameOf(e))))
            && (HeapPage(page) && Spared(es, p, page) ==>
                  (CanWrite(k.mem, dir, page) <==> InAllocs(k.procs[p].allocs, page - HEAP_PAGE))
                  && (Writeable(e) ==> CanWrite(k.mem, dir, page) && FrameOf(e) == page * PAGE_SIZE))
  {
    hide WellFormed, LiveOf, DirLive, DirOk, After, Possible, Inv, Exclusive, InAllocs, Spared, Isolated, OwnFrames, OwnsAllocs;
    var k := After(m, es);
    ProcFacts(k, p);
    var e := Entry(k.mem, DirectoryOf(k, p), page);
    OpenDirectory(k, p, page);
    if Writeable(e) {
      WriteableBelongs(k, p, page);
      var b := BlockOf(FrameOf(e));
      assert WritesTo(e, b);
      BelongsIsExclusive(k, p, b);
    }
    if HeapPage(page) && Spared(es, p, page) {
      ReachedExactly(m, es, p, page - HEAP_PAGE);
      HeapPageFacts(k, p, page - HEAP_PAGE);
    }
  }

  lemma HeapPageFacts(k: Kernel, p: nat, b: nat)
    requires Inv(k) && p < |k.procs| && b < HEAP_BLOCKS && b !in k.procs[p].reached
    ensures HeapEntryOk(Entry(k.mem, DirectoryOf(k, p), HEAP_PAGE + b), k.procs[p].allocs, b)
  {
    hide Inv, DirOk, DirLive, HeapEntryOk;
    ProcFacts(k, p);
    assert HeapPageOk(k.mem, DirectoryOf(k, p), k.procs[p].allocs, b);
  }

  /** Through the directory of a process, user code has just the access that the table entry gives. */
  lemma OpenDirectory(k: Kernel, p: nat, page: nat)
    requires Inv(k) && p < |k.procs| && page < PAGES
    ensures var dir := DirectoryOf(k, p);
            && (CanWrite(k.mem, dir, page) <==> UserWrite(Entry(k.mem, dir, page)))
            && (CanRead(k.mem, dir, page) <==> UserRead(Entry(k.mem, dir, page)))
  {
    hide Inv, DirOk, DirLive, Entry, Isolated, OwnFrames, OwnsAllocs;
    ProcFacts(k, p);
    assert UserWrite(k.mem[BlockOf(DirectoryOf(k, p))][page / ENTRIES]);
  }

  lemma BelongsIsExclusive(k: Kernel, p: nat, b: nat)
    requires Inv(k) && p < |k.procs| && b < HEAP_BLOCKS && Belongs(k, p, b)
    ensures Exclusive(k, p, b)
  {
    hide Inv, WellFormed, LiveOf, DirLive, DirOk, ProcOk, Reaches;
    var s :| s in k.owner && UserTag(k.owner[s], p) && Covers(LiveOf(k.table), s, b);
    forall q: nat | q < |k.procs| && Reaches(k, q, b)
      ensures q == p
    {
      ReachedBelongs(k, q, b);
      var s' :| s' in k.owner && UserTag(k.owner[s'], q) && Covers(LiveOf(k.table), s', b);
      OneRun(k, s, s', b);
    }
    forall s' | HasOwner(k.owner, s', KernelData) && Covers(LiveOf(k.table), s', b)
      ensures s' == s
    {
      OneRun(k, s, s', b);
    }
    forall q: nat | q < |k.procs|
      ensures !InTables(k, q, b)
    {
      ProcFacts(k, q);
      ChunkTags(k, q, b);
      if b in k.owner {
        InsideRun(k, s, b);
      }
    }
  }

  lemma ChunkTags(k: Kernel, q: nat, b: nat)
    requires q < |k.procs| && ProcOk(k, q)
    ensures b in ChunkBlocks(k.mem, k.procs[q].chunk) ==> b in k.owner && TableTag(k.owner[b], q)
  {
    hide OwnsAllocs, Isolated;
    if b in ChunkBlocks(k.mem, k.procs[q].chunk) {
      var chunk := k.procs[q].chunk;
      var dir := Directory(k.mem, chunk);
      if b != BlockOf(chunk) && b != BlockOf(dir) {
        var i :| 0 <= i < ENTRIES && TableBlock(k.mem, dir, i) == b;
        assert HasOwner(k.owner, TableBlock(k.mem, dir, i), TableOf(q, i));
      }
    }
  }
}
