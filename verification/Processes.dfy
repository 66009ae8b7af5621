/** process_malloc and process_free of src/task/process.c, on the allocation array of a process. */
module Processes {
  import opened Common
  import opened Bits
  import opened HeapTable
  import opened PageTable
  import opened Paging
  import opened Isolation

  class Process {
    /** process->task->page_directory. */
    const page_directory: word
    const allocations: array<Alloc>

    constructor (chunk: word)
      ensures page_directory == chunk && fresh(allocations) && allocations.Length == 1024
      ensures allocations[..] == NoAllocs()
    {
      page_directory := chunk;
      allocations := new Alloc[1024](_ => NO_ALLOC);
    }

    ghost function Allocations(): Allocs
      requires allocations.Length == 1024
      reads allocations
    {
      allocations[..]
    }

    /** The tables of this process are in order and stand in live blocks. */
    ghost predicate Ready(k: Machine)
      reads this, k, k.heap, k.heap.entries
    {
      && k.Valid() && allocations.Length == 1024
      && WellFormed(k.Table())
      && ChunkOk(k.mem, page_directory)
      && BlockOf(page_directory) in LiveOf(k.Table())
      && DirLive(k.Table(), k.mem, Directory(k.mem, page_directory))
    }

    method FindFreeAllocationIndex() returns (res: int)
      requires allocations.Length == 1024
      ensures SlotOf(Allocations(), 0, 0) == if res < 0 then -1 else res
      ensures res < 0 ==> res == -ENOMEM
    {
      res := -ENOMEM;
      var i := 0;
      while i < 1024
        invariant 0 <= i <= 1024 && res == -ENOMEM
        invariant SlotOf(Allocations(), 0, i) == SlotOf(Allocations(), 0, 0)
      {
        if allocations[i].ptr == 0 {
          res := i;
          return;
        }
        i := i + 1;
      }
    }

    method GetAllocationByAddr(addr: word) returns (index: int)
      requires allocations.Length == 1024
      ensures index == SlotOf(Allocations(), addr, 0)
    {
      var i := 0;
      while i < 1024
        invariant 0 <= i <= 1024
        invariant SlotOf(Allocations(), addr, i) == SlotOf(Allocations(), addr, 0)
      {
        if allocations[i].ptr == addr {
          return i;
        }
        i := i + 1;
      }
      return -1;
    }

    method AllocationUnjoin(ptr: word)
      requires allocations.Length == 1024
      modifies allocations
      ensures Allocations() == Unjoin(old(Allocations()), ptr)
    {
      var i := 0;
      while i < 1024
        invariant 0 <= i <= 1024
        invariant forall j :: 0 <= j < i ==> allocations[j] == Unjoin(old(Allocations()), ptr)[j]
        invariant forall j :: i <= j < 1024 ==> allocations[j] == old(Allocations())[j]
      {
        if allocations[i].ptr == ptr {
          allocations[i] := Alloc(0x00, 0);
        }
        i := i + 1;
      }
    }

    method Malloc(k: Machine, size: word) returns (ptr: word)
      requires Ready(k) && Blocks(size) >= 1 && Serviceable(k.Table(), Blocks(size))
      modifies k`mem, k.heap.entries, allocations
      ensures Outcome(k.Table(), k.mem, Allocations(), ptr)
              == ProcessMalloc(old(k.Table()), old(k.mem), old(Directory(k.mem, page_directory)), old(Allocations()), size)
    {
      hide WellFormed, LiveOf, Mark, ZeroMem, ApplyWrites, MapToWrites, DirOk, DirLive, FreeFrom, FreeRun, SlotOf;
      ghost var t, m, dir := k.Table(), k.mem, Directory(k.mem, page_directory);
      InDomainSize(size);
      ptr := k.Kzalloc(size);
      if ptr == 0 {
        return 0;
      }
      GrantedDirectory(t, m, page_directory, BlockOf(ptr), size);
      var index := FindFreeAllocationIndex();
      if index < 0 {
        k.Kfree(ptr);
        return 0;
      }
      var a := Alloc(ptr, size);
      var res := k.MapTo(Directory(k.mem, page_directory), ptr, ptr, AlignToUpper(Wrap(ptr + size)), USER_WRITEABLE);
      if res < 0 {
        MapRefused(k.mem, dir, a, USER_WRITEABLE, ZeroMem(m, BlockOf(ptr), size));
        k.Kfree(ptr);
        return 0;
      }
      allocations[index] := a;
      assert allocations[..] == old(allocations[..])[index := a];
    }

    method Free(k: Machine, ptr: word)
      requires Ready(k) && (SlotOf(Allocations(), ptr, 0) >= 0 ==> InPool(ptr))
      modifies k`mem, k.heap.entries, allocations
      ensures Outcome(k.Table(), k.mem, Allocations(), ptr)
              == ProcessFree(old(k.Table()), old(k.mem), old(Directory(k.mem, page_directory)), old(Allocations()), ptr)
    {
      hide WellFormed, LiveOf, ApplyWrites, MapToWrites, DirOk, DirLive, FreeFrom, SlotOf;
      ghost var m, dir := k.mem, Directory(k.mem, page_directory);
      var index := GetAllocationByAddr(ptr);
      if index < 0 {
        return;
      }
      var a := allocations[index];
      var res := k.MapTo(Directory(k.mem, page_directory), a.ptr, a.ptr, AlignToUpper(Wrap(a.ptr + a.size)), 0);
      if res < 0 {
        MapRefused(k.mem, dir, a, 0, m);
        return;
      }
      AllocationUnjoin(ptr);
      k.Kfree(ptr);
    }
  }

  lemma InDomainSize(size: word)
    requires Blocks(size) >= 1
    ensures 0 < size <= WORD_SIZE - PAGE_SIZE
  {
    BlocksExact(size);
  }

  lemma GrantedDirectory(t: Table, m: Mem, chunk: word, s: nat, size: word)
    requires WellFormed(t) && |t| == HEAP_BLOCKS && FreeRun(t, s, Blocks(size)) && Blocks(size) >= 1
    requires ChunkOk(m, chunk) && BlockOf(chunk) in LiveOf(t) && DirLive(t, m, Directory(m, chunk))
    ensures Directory(ZeroMem(m, s, size), chunk) == Directory(m, chunk)
    ensures DirOk(ZeroMem(m, s, size), Directory(m, chunk))
  {
    ZeroFree(t, m, s, size);
    ZeroKeepsDir(t, m, Directory(m, chunk), s, size);
  }

  /** A rejected mapping writes nothing. */
  lemma MapRefused(m': Mem, dir: word, a: Alloc, flags: word, m: Mem)
    requires DirOk(m, dir) && m' == ApplyWrites(m, dir, MapWritesOf(a, flags)) && !Mappable(a)
    ensures m' == m
  {
  }

  // ---------- the methods as steps of the kernel ----------

  /** Processes with allocation arrays of their own. */
  ghost predicate OwnArrays(ps: seq<Process>) {
    && (forall i :: 0 <= i < |ps| ==> ps[i].allocations.Length == 1024)
    && (forall i, j :: 0 <= i < j < |ps| ==> ps[i].allocations != ps[j].allocations)
  }

  ghost predicate SameProc(p: Process, pr: Proc)
    reads p.allocations
  {
    p.allocations.Length == 1024 && pr.chunk == p.page_directory && pr.allocs == p.allocations[..]
  }

  /** The machine and the processes make up the kernel state s. */
  ghost predicate Represents(k: Machine, ps: seq<Process>, s: Kernel)
    reads k, k.heap, k.heap.entries, set p <- ps :: p.allocations
  {
    && k.Valid() && OwnArrays(ps)
    && s.table == k.Table() && s.mem == k.mem && |s.procs| == |ps|
    && forall i :: 0 <= i < |ps| ==> SameProc(ps[i], s.procs[i])
  }

  lemma InvReady(k: Machine, ps: seq<Process>, s: Kernel, p: nat)
    requires Represents(k, ps, s) && p < |ps| && Inv(s)
    ensures ps[p].Ready(k) && s.procs[p].allocs == ps[p].Allocations() && s.procs[p].chunk == ps[p].page_directory
    ensures DirectoryOf(s, p) == Directory(k.mem, ps[p].page_directory)
  {
    hide WellFormed, LiveOf, Isolated, OwnsAllocs;
    assert SameProc(ps[p], s.procs[p]) && ProcOk(s, p);
  }

  /** The state after a call that changed one process. */
  lemma RepresentsOne(k: Machine, ps: seq<Process>, s: Kernel, s': Kernel, p: nat)
    requires k.Valid() && OwnArrays(ps) && p < |ps| == |s.procs|
    requires forall i :: 0 <= i < |ps| && i != p ==> SameProc(ps[i], s.procs[i])
    requires s'.table == k.Table() && s'.mem == k.mem && |s'.procs| == |s.procs|
    requires SameProc(ps[p], s'.procs[p]) && forall i :: 0 <= i < |ps| && i != p ==> s'.procs[i] == s.procs[i]
    ensures Represents(k, ps, s')
  {
  }

  lemma MallocStepIs(s: Kernel, p: nat, size: word)
    requires Inv(s) && Enabled(s, Event.Malloc(p, size))
    ensures var r, s' := ProcessMalloc(s.table, s.mem, DirectoryOf(s, p), s.procs[p].allocs, size), Step(s, Event.Malloc(p, size));
            && s'.table == r.table && s'.mem == r.mem && |s'.procs| == |s.procs|
            && s'.procs[p] == s.procs[p].(allocs := r.allocs)
            && forall i :: 0 <= i < |s.procs| && i != p ==> s'.procs[i] == s.procs[i]
  {
    hide Inv, WellFormed, LiveOf, ProcessMalloc, SlotOf, DirLive, DirOk;
  }

  ghost predicate RecordedIn(before: Allocs, a: Alloc, after: Allocs) {
    exists j :: 0 <= j < 1024 && before[j].ptr == 0 && after == before[j := a]
  }

  /** A served request is recorded in an empty slot; a refused one leaves heap table and slots as they were. */
  lemma MallocServes(s: Kernel, p: nat, size: word)
    requires Inv(s) && Enabled(s, Event.Malloc(p, size))
    ensures var allocs := s.procs[p].allocs; var r := ProcessMalloc(s.table, s.mem, DirectoryOf(s, p), allocs, size);
            if r.ptr == 0 then r.table == s.table && r.allocs == allocs
            else RecordedIn(allocs, Alloc(r.ptr, size), r.allocs)
  {
    hide Inv, WellFormed, LiveOf, Mark, FreeFrom, ZeroMem, ApplyWrites, MapWritesOf, DirLive, DirOk, FreeRun, Blocks;
    var allocs := s.procs[p].allocs;
    var b := StartBlock(s.table, Blocks(size));
    if b >= 0 {
      StartInside(s, size);
      RefusedKeeps(s, b, size);
    }
  }

  /** process_malloc is the Malloc step of the kernel, so what holds over every run holds of the real structures. */
  method ServeMalloc(k: Machine, ps: seq<Process>, p: nat, size: word, ghost s: Kernel) returns (ptr: word)
    requires Represents(k, ps, s) && Inv(s) && Enabled(s, Event.Malloc(p, size))
    modifies k`mem, k.heap.entries, ps[p].allocations
    ensures Represents(k, ps, Step(s, Event.Malloc(p, size))) && Inv(Step(s, Event.Malloc(p, size)))
    ensures ptr == 0 ==> k.Table() == s.table && ps[p].Allocations() == s.procs[p].allocs
    ensures ptr != 0 ==> RecordedIn(s.procs[p].allocs, Alloc(ptr, size), ps[p].Allocations())
  {
    hide Inv, WellFormed, LiveOf, ProcessMalloc, SlotOf, DirLive, DirOk, Step, ChunkOk, SameProc;
    InvReady(k, ps, s, p);
    MallocStepIs(s, p, size);
    MallocServes(s, p, size);
    StepKeeps(s, Event.Malloc(p, size));
    ptr := ps[p].Malloc(k, size);
    SameAfter(ps[p], s.procs[p], Step(s, Event.Malloc(p, size)).procs[p]);
    RepresentsOne(k, ps, s, Step(s, Event.Malloc(p, size)), p);
  }

  lemma SameAfter(p: Process, pr: Proc, pr': Proc)
    requires p.allocations.Length == 1024 && pr.chunk == p.page_directory && pr' == pr.(allocs := p.Allocations())
    ensures SameProc(p, pr')
  {
  }

  lemma FreeStepIs(s: Kernel, p: nat, ptr: word)
    requires Inv(s) && Enabled(s, Event.Free(p, ptr))
    ensures SlotOf(s.procs[p].allocs, ptr, 0) >= 0 ==> InPool(ptr)
    ensures var r, s' := ProcessFree(s.table, s.mem, DirectoryOf(s, p), s.procs[p].allocs, ptr), Step(s, Event.Free(p, ptr));
            && s'.table == r.table && s'.mem == r.mem && |s'.procs| == |s.procs|
            && s'.procs[p] == s.procs[p].(allocs := r.allocs)
            && forall i :: 0 <= i < |s.procs| && i != p ==> s'.procs[i] == s.procs[i]
  {
    var i := SlotOf(s.procs[p].allocs, ptr, 0);
    hide Inv, WellFormed, LiveOf, DirLive, DirOk, SlotOf, ApplyWrites, MapWritesOf, FreeFrom, Unjoin, Blocks;
    if i >= 0 {
      SlotIsOwner(s, p, i);
    }
  }

  /** process_free of a non-null pointer is the Free step. */
  method ServeFree(k: Machine, ps: seq<Process>, p: nat, ptr: word, ghost s: Kernel)
    requires Represents(k, ps, s) && Inv(s) && Enabled(s, Event.Free(p, ptr))
    modifies k`mem, k.heap.entries, ps[p].allocations
    ensures Represents(k, ps, Step(s, Event.Free(p, ptr))) && Inv(Step(s, Event.Free(p, ptr)))
  {
    hide Inv, WellFormed, LiveOf, ProcessFree, SlotOf, DirLive, DirOk, Step, ChunkOk, SameProc;
    InvReady(k, ps, s, p);
    FreeStepIs(s, p, ptr);
    StepKeeps(s, Event.Free(p, ptr));
    ps[p].Free(k, ptr);
    SameAfter(ps[p], s.procs[p], Step(s, Event.Free(p, ptr)).procs[p]);
    RepresentsOne(k, ps, s, Step(s, Event.Free(p, ptr)), p);
  }

  /** Creating the page directory of a new process is the Create step. */
  method CreateProcess(k: Machine, ps: seq<Process>, ghost s: Kernel) returns (process: Process, ghost e: Event)
    requires Represents(k, ps, s) && Inv(s) && TakenCount(k.Table()) + 1026 <= HEAP_BLOCKS
    modifies k`mem, k.heap.entries
    ensures e.Create? && Enabled(s, e) && Represents(k, ps + [process], Step(s, e)) && Inv(Step(s, e))
  {
    assert WellFormed(k.Table());
    hide Inv, WellFormed, LiveOf, TakenCount, NewChunk, DirLive, Tagged, SameProc;
    var chunk := k.New4gb(USER_READONLY);
    process := new Process(chunk);
    e := Create(chunk, k.Table(), k.mem);
    StepKeeps(s, e);
    RepresentsNew(k, ps, s, process, Step(s, e));
  }

  lemma RepresentsNew(k: Machine, ps: seq<Process>, s: Kernel, process: Process, s': Kernel)
    requires k.Valid() && OwnArrays(ps) && |s.procs| == |ps| && forall i :: 0 <= i < |ps| ==> SameProc(ps[i], s.procs[i])
    requires process.allocations.Length == 1024 && forall i :: 0 <= i < |ps| ==> ps[i].allocations != process.allocations
    requires process.allocations[..] == NoAllocs()
    requires s'.table == k.Table() && s'.mem == k.mem && s'.procs == s.procs + [Proc(process.page_directory, NoAllocs(), {})]
    ensures Represents(k, ps + [process], s')
  {
    var all := ps + [process];
    forall i | 0 <= i < |all|
      ensures SameProc(all[i], s'.procs[i])
    {
      if i < |ps| {
        assert all[i] == ps[i];
      }
    }
  }

  /** The state after a call that changed no process. */
  lemma RepresentsAll(k: Machine, ps: seq<Process>, s: Kernel, s': Kernel)
    requires k.Valid() && OwnArrays(ps) && |s.procs| == |ps| && forall i :: 0 <= i < |ps| ==> SameProc(ps[i], s.procs[i])
    requires s'.table == k.Table() && s'.mem == k.mem && |s'.procs| == |s.procs|
    requires forall i :: 0 <= i < |ps| ==> s'.procs[i].chunk == s.procs[i].chunk && s'.procs[i].allocs == s.procs[i].allocs
    ensures Represents(k, ps, s')
  {
  }

  /** kzalloc for the kernel itself is the KernelMalloc step. */
  method ServeKernelMalloc(k: Machine, ps: seq<Process>, size: word, ghost s: Kernel) returns (ptr: word)
    requires Represents(k, ps, s) && Inv(s) && Enabled(s, KernelMalloc(size))
    modifies k`mem, k.heap.entries
    ensures Represents(k, ps, Step(s, KernelMalloc(size))) && Inv(Step(s, KernelMalloc(size)))
    ensures ptr != 0 ==> InPool(ptr) && HasOwner(Step(s, KernelMalloc(size)).owner, BlockOf(ptr), KernelData)
  {
    hide Inv, WellFormed, LiveOf, ZeroMem, Mark, SameProc, FreeRun, Serviceable;
    InDomainSize(size);
    StepKeeps(s, KernelMalloc(size));
    ptr := k.Kzalloc(size);
    RepresentsAll(k, ps, s, Step(s, KernelMalloc(size)));
  }

  /** kfree of what the kernel allocated is the KernelFree step. */
  method ServeKernelFree(k: Machine, ps: seq<Process>, ptr: word, ghost s: Kernel)
    requires Represents(k, ps, s) && Inv(s) && InPool(ptr) && Enabled(s, KernelFree(BlockOf(ptr)))
    modifies k.heap.entries
    ensures Represents(k, ps, Step(s, KernelFree(BlockOf(ptr)))) && Inv(Step(s, KernelFree(BlockOf(ptr))))
  {
    hide Inv, WellFormed, LiveOf, FreeFrom, SameProc;
    StepKeeps(s, KernelFree(BlockOf(ptr)));
    k.Kfree(ptr);
    RepresentsAll(k, ps, s, Step(s, KernelFree(BlockOf(ptr))));
  }

  // ---------- strings from a task ----------

  lemma ApplyOne(m: Mem, dir: word, page: nat, val: word)
    requires DirOk(m, dir) && page < PAGES
    ensures ApplyWrites(m, dir, [Write(page, val)]) == SetEntry(m, dir, page, val)
  {
    assert [Write(page, val)][..0] == [];
  }

  /** An entry written and put back, around a store elsewhere, leaves only the store. */
  lemma PutBack(m: Mem, dir: word, page: nat, val: word, b: nat, f: Frame)
    requires DirOk(m, dir) && page < PAGES && b < HEAP_BLOCKS && b != BlockOf(dir) && !IsTable(m, dir, b)
    ensures DirOk(SetEntry(m, dir, page, val)[b := f], dir)
    ensures SetEntry(SetEntry(m, dir, page, val)[b := f], dir, page, Entry(m, dir, page)) == m[b := f]
  {
    SetEntryIsUpdate(m, dir, page, val);
    var m1 := SetEntry(m, dir, page, val);
    var m2 := m1[b := f];
    var i, t := page / ENTRIES, TableBlock(m, dir, page / ENTRIES);
    assert t != b;
    assert TableAddr(m, dir, i) != dir;
    DirFrame(m1, m2, dir);
    assert TableAddr(m2, dir, i) == TableAddr(m, dir, i);
    assert m[t][page % ENTRIES := val][page % ENTRIES := m[t][page % ENTRIES]] == m[t];
  }

  /**
   The middle of copy_string_from_task: tmp is made writeable for the task, the
   string is copied into it under the task's directory, and the old entry is put
   back.  copied is what the block then holds.
   */
  method BorrowPage(k: Machine, dir: word, tmp: word, copied: Frame)
    requires DirOk(k.mem, dir) && InPool(tmp) && BlockOf(tmp) != BlockOf(dir) && !IsTable(k.mem, dir, BlockOf(tmp))
    modifies k`mem
    ensures k.mem == old(k.mem)[BlockOf(tmp) := copied]
  {
    hide DirOk, ApplyWrites, SetEntry, Or, IsTable;
    ghost var m, page, val := k.mem, tmp / PAGE_SIZE, Or(tmp, USER_WRITEABLE);
    var old_entry := k.GetEntry(dir, tmp);
    OnePage(tmp, tmp, USER_WRITEABLE);
    ApplyOne(m, dir, page, val);
    PutBack(m, dir, page, val, BlockOf(tmp), copied);
    var _ := k.Map(dir, tmp, tmp, USER_WRITEABLE);
    k.mem := k.mem[BlockOf(tmp) := copied];
    ApplyOne(k.mem, dir, page, old_entry);
    var _ := k.Set(dir, tmp, old_entry);
  }

  /** A block taken from the free ones holds no table of a process. */
  lemma FreeIsNoTable(t: Table, m: Mem, chunk: word, b: nat, size: word)
    requires WellFormed(t) && |t| == HEAP_BLOCKS && FreeRun(t, b, Blocks(size)) && Blocks(size) >= 1
    requires ChunkOk(m, chunk) && BlockOf(chunk) in LiveOf(t) && DirLive(t, m, Directory(m, chunk))
    ensures b !in LiveOf(t)
    ensures var dir, m' := Directory(m, chunk), ZeroMem(m, b, size);
            Directory(m', chunk) == dir && DirOk(m', dir) && b != BlockOf(dir) && !IsTable(m', dir, b)
  {
    hide LiveOf, WellFormed, ZeroMem;
    GrantedDirectory(t, m, chunk, b, size);
    var dir, m' := Directory(m, chunk), ZeroMem(m, b, size);
    ZeroKeepsDir(t, m, dir, b, size);
    FreeNotLive(t, b);
    forall i | 0 <= i < ENTRIES
      ensures TableBlock(m', dir, i) == TableBlock(m, dir, i)
    {
      assert TableAddr(m', dir, i) == TableAddr(m, dir, i);
    }
  }

  lemma FreeNotLive(t: Table, b: nat)
    requires WellFormed(t) && b < |t| && IsFree(t[b])
    ensures b !in LiveOf(t)
  {
    if b in LiveOf(t) {
      FirstIsCovered(t, LiveOf(t), b);
      FreeMeansUncovered(t, LiveOf(t), b);
    }
  }

  lemma OneFits(t: Table, max: word)
    requires 0 < max < PAGE_SIZE && |t| > 0
    ensures Blocks(max) == 1 && Serviceable(t, 1)
  {
    BlocksExact(max);
    if LastFree(t) {
      assert FreeRun(t, |t| - 1, 1);
    }
  }

  /** Only a block that was free differs: the kernel may store there. */
  lemma FreeStore(s: Kernel, b: nat, m': Mem)
    requires Inv(s) && b < HEAP_BLOCKS && b !in LiveOf(s.table)
    requires forall c :: 0 <= c < HEAP_BLOCKS && c != b ==> m'[c] == s.mem[c]
    ensures Enabled(s, KernelStore(m'))
  {
    hide LiveOf, WellFormed, ProcOk;
  }

  /**
   copy_string_from_task up to the copy into the caller's buffer: heap table and
   page tables are as before, and only a block that was free has changed.  So to
   everyone else the call is a store of the kernel.
   */
  method CopyStringFromTask(k: Machine, ps: seq<Process>, p: nat, max: int, copied: Frame, ghost s: Kernel) returns (res: int)
    requires Represents(k, ps, s) && Inv(s) && p < |ps| && max > 0
    modifies k`mem, k.heap.entries
    ensures res == if max >= PAGE_SIZE then -EINVARG else if StartBlock(s.table, 1) < 0 then -ENOMEM else 0
    ensures k.Table() == s.table
    ensures forall b :: 0 <= b < HEAP_BLOCKS && k.mem[b] != s.mem[b] ==> b !in LiveOf(s.table)
    ensures Enabled(s, KernelStore(k.mem)) && Represents(k, ps, Step(s, KernelStore(k.mem))) && Inv(Step(s, KernelStore(k.mem)))
  {
    hide Inv, WellFormed, LiveOf, SameProc, ZeroMem, Mark, FreeFrom, DirOk, DirLive, ChunkOk, IsTable, StartBlock, Enabled;
    InvReady(k, ps, s, p);
    NothingStored(s);
    if max >= PAGE_SIZE {
      StepKeeps(s, KernelStore(k.mem));
      RepresentsAll(k, ps, s, Step(s, KernelStore(k.mem)));
      return -EINVARG;
    }
    OneFits(k.Table(), max);
    BlocksExact(max);
    var dir := Directory(k.mem, ps[p].page_directory);
    var tmp := k.Kzalloc(max);
    if tmp == 0 {
      res := -ENOMEM;
    } else {
      ghost var b := BlockOf(tmp);
      BorrowReady(s, p, b, max);
      BorrowPage(k, dir, tmp, copied);
      k.Kfree(tmp);
      FreeStore(s, b, k.mem);
      res := 0;
    }
    StepKeeps(s, KernelStore(k.mem));
    RepresentsAll(k, ps, s, Step(s, KernelStore(k.mem)));
  }

  lemma NothingStored(s: Kernel)
    requires Inv(s)
    ensures Enabled(s, KernelStore(s.mem))
  {
  }

  lemma BorrowReady(s: Kernel, p: nat, b: nat, size: word)
    requires Inv(s) && p < |s.procs| && Blocks(size) == 1 && FreeRun(s.table, b, 1)
    ensures |s.table| == HEAP_BLOCKS && b < HEAP_BLOCKS && b !in LiveOf(s.table)
    ensures FreeFrom(Mark(s.table, b, 1), b) == s.table
    ensures forall c :: 0 <= c < HEAP_BLOCKS && c != b ==> ZeroMem(s.mem, b, size)[c] == s.mem[c]
    ensures InPool(s.procs[p].chunk)
    ensures var dir, m' := Directory(s.mem, s.procs[p].chunk), ZeroMem(s.mem, b, size);
            DirOk(m', dir) && b != BlockOf(dir) && !IsTable(m', dir, b)
  {
    hide LiveOf, ZeroMem, Mark, FreeFrom, IsTable, Isolated, OwnFrames, OwnsAllocs;
    assert ProcOk(s, p);
    FreeIsNoTable(s.table, s.mem, s.procs[p].chunk, b, size);
    MallocFree(s.table, b, 1);
    ZeroFree(s.table, s.mem, b, size);
  }
}
