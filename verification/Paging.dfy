/** The kernel memory manager of src/memory/paging/paging.c on top of the block heap. */
module Paging {
  import opened Common
  import opened Bits
  import opened HeapTable
  import opened Heap
  import opened PageTable

  // ---------- memset ----------

  /** Clear the lowest bytes of a little-endian word, at most four. */
  function ZeroWord(w: word, bytes: int): word {
    if bytes <= 0 then w
    else if bytes == 1 then w - w % 0x100
    else if bytes == 2 then w - w % 0x1_0000
    else if bytes == 3 then w - w % 0x100_0000
    else 0
  }

  function ZeroFrame(f: Frame, bytes: int): (f': Frame)
    ensures bytes <= 0 ==> f' == f
  {
    seq(1024, j requires 0 <= j < 1024 => ZeroWord(f[j], bytes - 4 * j))
  }

  /** memset(ptr, 0, size) where ptr is the start of block s. */
  function ZeroMem(m: Mem, s: nat, size: nat): (m': Mem)
    ensures forall b :: 0 <= b < HEAP_BLOCKS && !(s <= b && (b - s) * PAGE_SIZE < size) ==> m'[b] == m[b]
  {
    seq<Frame>(25600, b requires 0 <= b < 25600 => if b < s then m[b] else ZeroFrame(m[b], size - (b - s) * PAGE_SIZE))
  }

  /** Byte j of a word in memory, the lowest first. */
  function ByteIn(w: word, j: nat): byte
    requires j < 4
  {
    (if j == 0 then w else if j == 1 then w / 0x100 else if j == 2 then w / 0x1_0000 else w / 0x100_0000) % 0x100
  }

  /** Byte i counted from the start of block s. */
  function ByteAfter(m: Mem, s: nat, i: nat): byte
    requires s + i / PAGE_SIZE < HEAP_BLOCKS
  {
    ByteIn(m[s + i / PAGE_SIZE][i % PAGE_SIZE / 4], i % 4)
  }

  function FourBytes(b0: byte, b1: byte, b2: byte, b3: byte): word {
    b0 + 0x100 * b1 + 0x1_0000 * b2 + 0x100_0000 * b3
  }

  lemma BytesOfFour(b0: byte, b1: byte, b2: byte, b3: byte)
    ensures var w := FourBytes(b0, b1, b2, b3); ByteIn(w, 0) == b0 && ByteIn(w, 1) == b1 && ByteIn(w, 2) == b2 && ByteIn(w, 3) == b3
  {
    var w := FourBytes(b0, b1, b2, b3);
    assert w / 0x100_0000 == b3;
    assert w / 0x1_0000 == b2 + 0x100 * b3;
    assert w / 0x100 == b1 + 0x100 * (b2 + 0x100 * b3);
  }

  lemma FourOfWord(w: word)
    ensures w == FourBytes(ByteIn(w, 0), ByteIn(w, 1), ByteIn(w, 2), ByteIn(w, 3))
    ensures w % 0x100 == ByteIn(w, 0) && w % 0x1_0000 == FourBytes(ByteIn(w, 0), ByteIn(w, 1), 0, 0)
    ensures w % 0x100_0000 == FourBytes(ByteIn(w, 0), ByteIn(w, 1), ByteIn(w, 2), 0)
  {
    var x, y := w / 0x100, w / 0x1_0000;
    assert x / 0x100 == y && y / 0x100 == w / 0x100_0000;
  }

  lemma ZeroWordIs(w: word, bytes: int)
    ensures ZeroWord(w, bytes)
            == FourBytes(if bytes > 0 then 0 else ByteIn(w, 0), if bytes > 1 then 0 else ByteIn(w, 1),
                         if bytes > 2 then 0 else ByteIn(w, 2), if bytes > 3 then 0 else ByteIn(w, 3))
  {
    FourOfWord(w);
    hide ByteIn;
  }

  lemma ZeroWordBytes(w: word, bytes: int, j: nat)
    requires j < 4
    ensures ByteIn(ZeroWord(w, bytes), j) == if j < bytes then 0 else ByteIn(w, j)
  {
    hide ByteIn, ZeroWord, FourBytes;
    ZeroWordIs(w, bytes);
    BytesOfFour(if bytes > 0 then 0 else ByteIn(w, 0), if bytes > 1 then 0 else ByteIn(w, 1),
                if bytes > 2 then 0 else ByteIn(w, 2), if bytes > 3 then 0 else ByteIn(w, 3));
  }

  /** memset clears the first size bytes and keeps every other one. */
  lemma ZeroBytes(m: Mem, s: nat, size: nat, i: nat)
    requires s + i / PAGE_SIZE < HEAP_BLOCKS
    ensures ByteAfter(ZeroMem(m, s, size), s, i) == if i < size then 0 else ByteAfter(m, s, i)
  {
    hide ZeroWord, ByteIn;
    var b, j := i / PAGE_SIZE, i % PAGE_SIZE / 4;
    assert i == 4096 * b + 4 * j + i % 4;
    ZeroWordBytes(m[s + b][j], size - 4096 * b - 4 * j, i % 4);
  }

  // ---------- directories ----------

  function IdentityEntry(offset: word, k: nat, flags: nat): word
    requires flags < PAGE_SIZE
  {
    OrWord(Wrap(offset + k * PAGE_SIZE), flags);
    Or(Wrap(offset + k * PAGE_SIZE), flags)
  }

  /** A page table that maps 1024 pages from offset onto themselves. */
  function IdentityFrame(offset: word, flags: nat): Frame
    requires flags < PAGE_SIZE
  {
    seq(1024, k requires 0 <= k < 1024 => IdentityEntry(offset, k, flags))
  }

  function DirWord(table: word, flags: nat): word
    requires Aligned(table) && flags < PAGE_SIZE
  {
    TwoFlagsRoundTrip(table, flags, IS_WRITEABLE);
    Or(Or(table, flags), IS_WRITEABLE)
  }

  function Directory(m: Mem, chunk: word): word
    requires InPool(chunk)
  {
    m[BlockOf(chunk)][0]
  }

  /** A paging_4gb_chunk: one block for the chunk, one for the directory, 1024 for the tables, all different. */
  ghost predicate ChunkOk(m: Mem, chunk: word) {
    && InPool(chunk)
    && DirOk(m, Directory(m, chunk))
    && Directory(m, chunk) != chunk
    && forall i :: 0 <= i < ENTRIES ==> TableAddr(m, Directory(m, chunk), i) != chunk
  }

  ghost function TableBlocks(m: Mem, dir: word, k: nat): set<nat>
    requires DirOk(m, dir) && k <= ENTRIES
  {
    set i | 0 <= i < k :: TableBlock(m, dir, i)
  }

  ghost function ChunkBlocks(m: Mem, chunk: word): set<nat>
    requires ChunkOk(m, chunk)
  {
    {BlockOf(chunk), BlockOf(Directory(m, chunk))} + TableBlocks(m, Directory(m, chunk), ENTRIES)
  }

  ghost function WithSingles(l: Live, o: set<nat>): Live {
    l + map b | b in o :: 1
  }

  /** Every page maps to itself with the given flags. */
  ghost predicate IdentityMapped(m: Mem, dir: word, flags: nat)
    requires DirOk(m, dir) && flags < PAGE_SIZE
  {
    forall p :: 0 <= p < PAGES ==> Entry(m, dir, p) == Or(p * PAGE_SIZE, flags)
  }

  /** Every directory word is the address of its table with the given flags and the write bit. */
  ghost predicate DirWords(m: Mem, dir: word, flags: nat)
    requires DirOk(m, dir)
  {
    forall i :: 0 <= i < ENTRIES ==> m[BlockOf(dir)][i] == TableAddr(m, dir, i) + Or(flags, 2)
  }

  /** What paging_new_4gb does to the heap table and to memory. */
  ghost predicate NewChunk(t: Table, m: Mem, t': Table, m': Mem, chunk: word, flags: nat)
    requires flags < PAGE_SIZE
  {
    && |t'| == |t| && WellFormed(t') && ChunkOk(m', chunk)
    && IdentityMapped(m', Directory(m', chunk), flags) && DirWords(m', Directory(m', chunk), flags)
    && ChunkBlocks(m', chunk) !! LiveOf(t).Keys
    && LiveOf(t') == WithSingles(LiveOf(t), ChunkBlocks(m', chunk))
    && forall b :: 0 <= b < HEAP_BLOCKS && b !in ChunkBlocks(m', chunk) ==> m'[b] == m[b]
  }

  /** Block d holds the directory words, and each listed block a full identity table. */
  ghost predicate TablesBuilt(m: Mem, d: nat, tabs: seq<nat>, flags: nat)
    requires flags < PAGE_SIZE
  {
    && d < HEAP_BLOCKS && |tabs| <= ENTRIES
    && (forall j :: 0 <= j < |tabs| ==> tabs[j] < HEAP_BLOCKS && tabs[j] != d)
    && (forall i, j :: 0 <= i < j < |tabs| ==> tabs[i] != tabs[j])
    && (forall j :: 0 <= j < |tabs| ==> m[d][j] == DirWord(AddressOf(tabs[j]), flags))
    && (forall j :: 0 <= j < |tabs| ==> m[tabs[j]] == IdentityFrame(Wrap(j * 0x40_0000), flags))
  }

  lemma BuiltTable(m: Mem, d: nat, tabs: seq<nat>, flags: nat, j: nat)
    requires flags < PAGE_SIZE && TablesBuilt(m, d, tabs, flags) && j < |tabs|
    ensures TableAddr(m, AddressOf(d), j) == AddressOf(tabs[j])
  {
    hide Or, And;
    TwoFlagsRoundTrip(AddressOf(tabs[j]), flags, IS_WRITEABLE);
    assert m[d][j] == DirWord(AddressOf(tabs[j]), flags);
  }

  lemma IdentityAt(j: nat, k: nat, flags: nat)
    requires j < ENTRIES && k < ENTRIES && flags < PAGE_SIZE
    ensures IdentityFrame(Wrap(j * 0x40_0000), flags)[k] == Or((j * ENTRIES + k) * PAGE_SIZE, flags)
  {
    hide Or;
    assert Wrap(j * 0x40_0000) == j * 0x40_0000;
  }

  lemma BuiltDirOk(m: Mem, d: nat, tabs: seq<nat>, flags: nat)
    requires flags < PAGE_SIZE && TablesBuilt(m, d, tabs, flags) && |tabs| == ENTRIES
    ensures DirOk(m, AddressOf(d)) && IdentityMapped(m, AddressOf(d), flags)
    ensures forall j :: 0 <= j < ENTRIES ==> TableAddr(m, AddressOf(d), j) == AddressOf(tabs[j])
  {
    hide Or, TableAddr, IdentityFrame, DirWord;
    var dir := AddressOf(d);
    forall j: nat | j < ENTRIES
      ensures TableAddr(m, dir, j) == AddressOf(tabs[j])
    {
      BuiltTable(m, d, tabs, flags, j);
    }
    forall p | 0 <= p < PAGES
      ensures Entry(m, dir, p) == Or(p * PAGE_SIZE, flags)
    {
      var j, k := p / ENTRIES, p % ENTRIES;
      assert TableBlock(m, dir, j) == tabs[j];
      IdentityAt(j, k, flags);
    }
  }

  class Machine {
    const heap: BlockHeap
    var mem: Mem

    constructor (h: BlockHeap, m: Mem)
      ensures heap == h && mem == m
    {
      heap := h;
      mem := m;
    }

    /** The kernel heap of kheap_init. */
    ghost predicate Valid()
      reads this, heap
    {
      heap.Valid() && heap.saddr == HEAP_ADDRESS && heap.entries.Length == HEAP_BLOCKS
    }

    ghost function Table(): Table
      reads this, heap, heap.entries
    {
      heap.entries[..]
    }

    method Kzalloc(size: word) returns (ptr: word)
      requires Valid() && size <= WORD_SIZE - PAGE_SIZE
      requires size > 0 ==> Serviceable(Table(), Blocks(size))
      modifies this`mem, heap.entries
      ensures var t, n := old(Table()), Blocks(size);
              var s := StartBlock(t, n);
              if s < 0 then ptr == 0 && Table() == t && mem == old(mem)
              else s < HEAP_BLOCKS && s + n <= HEAP_BLOCKS && Table() == Mark(t, s, n)
                   && ptr == AddressOf(s) && mem == ZeroMem(old(mem), s, size)
    {
      BlocksExact(size);
      ptr := heap.Malloc(size);
      if ptr != 0 {
        mem := ZeroMem(mem, BlockOf(ptr), size);
      }
    }

    method Kfree(ptr: word)
      requires Valid() && InPool(ptr)
      modifies heap.entries
      ensures Table() == FreeFrom(old(Table()), BlockOf(ptr))
    {
      AddressRoundTrip(HEAP_ADDRESS, HEAP_BLOCKS, BlockOf(ptr));
      heap.Free(ptr);
    }

    method FillTable(entry: word, offset: word, flags: nat)
      requires InPool(entry) && flags < 256
      modifies this`mem
      ensures mem == old(mem)[BlockOf(entry) := IdentityFrame(offset, flags)]
    {
      var e := BlockOf(entry);
      var b := 0;
      while b < ENTRIES
        invariant 0 <= b <= ENTRIES
        invariant mem == old(mem)[e := mem[e]]
        invariant forall k :: 0 <= k < b ==> mem[e][k] == IdentityEntry(offset, k, flags)
      {
        mem := mem[e := mem[e][b := IdentityEntry(offset, b, flags)]];
        b := b + 1;
      }
      assert mem[e] == IdentityFrame(offset, flags);
    }

    /** One page table of paging_new_4gb: allocate it and fill its entries. */
    method NewTable(offset: word, flags: nat) returns (entry: word)
      requires Valid() && WellFormed(Table()) && TakenCount(Table()) < HEAP_BLOCKS && flags < 256
      modifies this`mem, heap.entries
      ensures InPool(entry) && BlockOf(entry) !in LiveOf(old(Table()))
      ensures WellFormed(Table()) && LiveOf(Table()) == LiveOf(old(Table()))[BlockOf(entry) := 1]
      ensures TakenCount(Table()) == TakenCount(old(Table())) + 1
      ensures mem == old(mem)[BlockOf(entry) := IdentityFrame(offset, flags)]
    {
      OneBlock(Table());
      entry := Kzalloc(4 * ENTRIES);
      ghost var m1 := mem;
      FillTable(entry, offset, flags);
      assert mem == old(mem)[BlockOf(entry) := IdentityFrame(offset, flags)];
    }

    /** The loop of paging_new_4gb: a table for each directory slot. */
    method BuildTables(directory: word, flags: nat) returns (ghost tabs: seq<nat>)
      requires Valid() && WellFormed(Table()) && flags < 256 && InPool(directory)
      requires BlockOf(directory) in LiveOf(Table()) && TakenCount(Table()) + ENTRIES <= HEAP_BLOCKS
      modifies this`mem, heap.entries
      ensures WellFormed(Table()) && |tabs| == ENTRIES && TablesBuilt(mem, BlockOf(directory), tabs, flags)
      ensures TakenCount(Table()) == TakenCount(old(Table())) + ENTRIES
      ensures Grown(LiveOf(old(Table())), LiveOf(Table()), tabs) && Elsewhere(old(mem), mem, BlockOf(directory), tabs)
    {
      hide WellFormed, LiveOf, TablesBuilt, TakenCount, Grown, Elsewhere;
      ghost var t0, m0 := Table(), mem;
      var d := BlockOf(directory);
      tabs := [];
      BuiltNone(mem, d, flags, LiveOf(t0));
      var offset: int := 0;
      var i := 0;
      while i < ENTRIES
        invariant 0 <= i <= ENTRIES && |tabs| == i && offset == Wrap(i * 0x40_0000)
        invariant WellFormed(Table()) && TablesBuilt(mem, d, tabs, flags)
        invariant TakenCount(Table()) == TakenCount(t0) + i
        invariant Grown(LiveOf(t0), LiveOf(Table()), tabs) && Elsewhere(m0, mem, d, tabs)
      {
        ghost var l1, m1 := LiveOf(Table()), mem;
        var entry := NewTable(offset, flags);
        offset := Wrap(offset + 0x40_0000);
        mem := mem[d := mem[d][i := DirWord(entry, flags)]];
        GrownStep(LiveOf(t0), l1, LiveOf(Table()), tabs, BlockOf(entry), d);
        ElsewhereStep(m0, m1, mem, d, tabs, BlockOf(entry));
        BuiltStep(m1, mem, d, tabs, flags, BlockOf(entry));
        tabs := tabs + [BlockOf(entry)];
        i := i + 1;
      }
    }

    /** paging_new_4gb: needs a block for the directory, one per table and one for the chunk. */
    method New4gb(flags: nat) returns (chunk: word)
      requires Valid() && WellFormed(Table()) && flags < 256
      requires TakenCount(Table()) + 1026 <= HEAP_BLOCKS
      modifies this`mem, heap.entries
      ensures NewChunk(old(Table()), old(mem), Table(), mem, chunk, flags)
    {
      hide WellFormed, LiveOf, TablesBuilt, NewChunk, TakenCount, FreeRun;
      ghost var t0, m0 := Table(), mem;
      OneBlock(Table());
      var directory := Kzalloc(4 * ENTRIES);
      ghost var d := BlockOf(directory);
      ghost var tabs := BuildTables(directory, flags);
      ghost var m1 := mem;
      OneBlock(Table());
      chunk := Kzalloc(4);
      var c := BlockOf(chunk);
      mem := mem[c := mem[c][0 := directory]];
      assert c != d && c !in tabs && d !in LiveOf(t0);
      BuiltFrame(m1, mem, d, tabs, flags, c);
      BuiltIsChunk(t0, m0, Table(), mem, d, tabs, flags, c);
    }

    // ---------- mapping calls ----------

    method Set(dir: word, virt: word, val: word) returns (res: int)
      requires DirOk(mem, dir)
      modifies this`mem
      ensures mem == ApplyWrites(old(mem), dir, CallWrites(MapCall.Set(virt, val)))
      ensures res == if Aligned(virt) then 0 else -EINVARG
    {
      ghost var ws := CallWrites(MapCall.Set(virt, val));
      if virt % PAGE_SIZE != 0 {
        return -EINVARG;
      }
      var directory_index, table_index := virt / 0x40_0000, virt % 0x40_0000 / PAGE_SIZE;
      assert virt / PAGE_SIZE / ENTRIES == directory_index && virt / PAGE_SIZE % ENTRIES == table_index;
      var table := TableAddr(mem, dir, directory_index);
      mem := mem[BlockOf(table) := mem[BlockOf(table)][table_index := val]];
      assert ws[..|ws| - 1] == [];
      return 0;
    }

    /** paging_get: when the indexes cannot be computed both stay 0. */
    method GetEntry(dir: word, virt: word) returns (e: word)
      requires DirOk(mem, dir)
      ensures e == Get(mem, dir, virt)
    {
      var directory_index, table_index := 0, 0;
      if virt % PAGE_SIZE == 0 {
        directory_index, table_index := virt / 0x40_0000, virt % 0x40_0000 / PAGE_SIZE;
        assert virt / PAGE_SIZE / ENTRIES == directory_index && virt / PAGE_SIZE % ENTRIES == table_index;
      }
      var table := TableAddr(mem, dir, directory_index);
      e := mem[BlockOf(table)][table_index];
    }

    method Map(dir: word, virt: word, phys: word, flags: word) returns (res: int)
      requires DirOk(mem, dir)
      modifies this`mem
      ensures mem == ApplyWrites(old(mem), dir, RangeWrites(virt, phys, 1, flags))
      ensures res == if Aligned(virt) && Aligned(phys) then 0 else -EINVARG
    {
      hide Or, ApplyWrites, DirOk, RangeWrites, CallWrites;
      RangeRejected(virt, phys, 1, flags);
      ApplyNone(mem, dir);
      if virt % PAGE_SIZE != 0 || phys % PAGE_SIZE != 0 {
        return -EINVARG;
      }
      OrWord(phys, flags);
      OnePage(virt, phys, flags);
      res := Set(dir, virt, Or(phys, flags));
    }

    method MapRange(dir: word, virt: word, phys: word, count: int, flags: word) returns (res: int)
      requires DirOk(mem, dir)
      modifies this`mem
      ensures mem == ApplyWrites(old(mem), dir, RangeWrites(virt, phys, count, flags))
      ensures res == if count <= 0 || (Aligned(virt) && Aligned(phys)) then 0 else -EINVARG
    {
      hide ApplyWrites, DirOk, RangeWrites, Wrap, Aligned;
      ApplyNone(mem, dir);
      RangeRejected(virt, phys, 0, flags);
      RangeRejected(virt, phys, count, flags);
      WrapStep(virt, 0);
      WrapStep(phys, 0);
      res := 0;
      var v, p := virt, phys;
      var i := 0;
      while i < count
        invariant 0 <= i && (i <= count || i == 0)
        invariant v == Wrap(virt + i * PAGE_SIZE) && p == Wrap(phys + i * PAGE_SIZE)
        invariant i > 0 ==> Aligned(virt) && Aligned(phys)
        invariant mem == ApplyWrites(old(mem), dir, RangeWrites(virt, phys, i, flags))
        invariant res == 0
      {
        WrapStep(virt, i);
        WrapStep(phys, i);
        RangeRejected(v, p, 1, flags);
        ApplyNone(mem, dir);
        res := Map(dir, v, p, flags);
        if res < 0 {
          break;
        }
        RangeStep(old(mem), dir, virt, phys, i, flags);
        v := Wrap(v + PAGE_SIZE);
        p := Wrap(p + PAGE_SIZE);
        i := i + 1;
      }
    }

    method MapTo(dir: word, virt: word, phys: word, phys_end: word, flags: word) returns (res: int)
      requires DirOk(mem, dir)
      modifies this`mem
      ensures mem == ApplyWrites(old(mem), dir, CallWrites(MapCall.MapTo(virt, phys, phys_end, flags)))
      ensures res == if MapToAccepted(virt, phys, phys_end) then 0 else -EINVARG
    {
      if virt % PAGE_SIZE != 0 {
        return -EINVARG;
      }
      if phys % PAGE_SIZE != 0 {
        return -EINVARG;
      }
      if phys_end % PAGE_SIZE != 0 {
        return -EINVARG;
      }
      if phys_end < phys {
        return -EINVARG;
      }
      var total_pages := (phys_end - phys) / PAGE_SIZE;
      res := MapRange(dir, virt, phys, total_pages, flags);
    }

    method Call(dir: word, c: MapCall) returns (res: int)
      requires DirOk(mem, dir)
      modifies this`mem
      ensures mem == ApplyWrites(old(mem), dir, CallWrites(c))
    {
      match c {
        case Set(virt, val) => res := Set(dir, virt, val);
        case Map(virt, phys, flags) => res := Map(dir, virt, phys, flags);
        case MapRange(virt, phys, count, flags) => res := MapRange(dir, virt, phys, count, flags);
        case MapTo(virt, phys, phys_end, flags) => res := MapTo(dir, virt, phys, phys_end, flags);
      }
    }

    /**
     Any sequence of mapping calls: afterwards each page reads as the last value
     written to it, or as before when none was, and no block outside the tables of
     this directory has changed.
     */
    method Calls(dir: word, cs: seq<MapCall>)
      requires DirOk(mem, dir)
      modifies this`mem
      ensures mem == ApplyWrites(old(mem), dir, RunWrites(cs))
      ensures forall p :: 0 <= p < PAGES ==>
                Get(mem, dir, p * PAGE_SIZE) == Lookup(RunWrites(cs), p, Get(old(mem), dir, p * PAGE_SIZE))
      ensures forall b :: 0 <= b < HEAP_BLOCKS && !IsTable(old(mem), dir, b) ==> mem[b] == old(mem)[b]
    {
      hide ApplyWrites, CallWrites, DirOk;
      ApplyNone(mem, dir);
      var i := 0;
      while i < |cs|
        invariant 0 <= i <= |cs|
        invariant DirOk(mem, dir)
        invariant mem == ApplyWrites(old(mem), dir, RunWrites(cs[..i]))
      {
        assert cs[..i + 1][..i] == cs[..i];
        ApplyConcat(old(mem), dir, RunWrites(cs[..i]), CallWrites(cs[i]));
        var _ := Call(dir, cs[i]);
        i := i + 1;
      }
      assert cs[..|cs|] == cs;
      WritesAreLookup(old(mem), dir, RunWrites(cs));
    }

    // ---------- release ----------

    /** paging_free_4gb: frees every table found by masking, then the directory, then the chunk. */
    method Free4gb(chunk: word)
      requires Valid() && WellFormed(Table()) && ChunkOk(mem, chunk)
      requires ChunkBlocks(mem, chunk) <= LiveOf(Table()).Keys
      modifies heap.entries
      ensures WellFormed(Table()) && LiveOf(Table()) == LiveOf(old(Table())) - ChunkBlocks(mem, chunk)
    {
      hide WellFormed, LiveOf, FreeFrom;
      ghost var l := LiveOf(Table());
      var dir := Directory(mem, chunk);
      var i := 0;
      while i < 1024
        invariant 0 <= i <= 1024
        invariant WellFormed(Table()) && LiveOf(Table()) == l - TableBlocks(mem, dir, i)
      {
        var table := TableAddr(mem, dir, i);
        assert TableBlock(mem, dir, i) in ChunkBlocks(mem, chunk);
        assert forall j :: 0 <= j < i ==> TableAddr(mem, dir, j) != table;
        ApplyKeeps(Table(), HeapOp.Free(BlockOf(table)));
        Kfree(table);
        assert TableBlocks(mem, dir, i + 1) == TableBlocks(mem, dir, i) + {TableBlock(mem, dir, i)};
        i := i + 1;
      }
      ApplyKeeps(Table(), HeapOp.Free(BlockOf(dir)));
      Kfree(dir);
      ApplyKeeps(Table(), HeapOp.Free(BlockOf(chunk)));
      Kfree(chunk);
    }

    /**
     Conservation: creating a directory, making any mapping calls in it and
     freeing it leaves the heap table exactly as it was.
     */
    method Lifetime(flags: nat, cs: seq<MapCall>)
      requires Valid() && WellFormed(Table()) && flags < 256
      requires TakenCount(Table()) + 1026 <= HEAP_BLOCKS
      modifies this`mem, heap.entries
      ensures Table() == old(Table())
    {
      ghost var t := Table();
      var chunk := New4gb(flags);
      ghost var m1, o := mem, ChunkBlocks(mem, chunk);
      var dir := Directory(mem, chunk);
      Calls(dir, cs);
      MappingKeepsChunk(m1, mem, chunk, RunWrites(cs));
      Free4gb(chunk);
      assert LiveOf(Table()) == LiveOf(t);
      TableUnique(t, Table(), LiveOf(t));
    }
  }

  // ---------- lemmas for the loops ----------

  /** The live allocations have grown by the table blocks, one block each. */
  ghost predicate Grown(l0: Live, l: Live, tabs: seq<nat>) {
    (forall b :: b in tabs ==> b !in l0) && l == WithSingles(l0, set b | b in tabs)
  }

  ghost predicate Elsewhere(m0: Mem, m: Mem, d: nat, tabs: seq<nat>) {
    forall b :: 0 <= b < HEAP_BLOCKS && b != d && b !in tabs ==> m[b] == m0[b]
  }

  lemma GrownStep(l0: Live, l: Live, l': Live, tabs: seq<nat>, e: nat, d: nat)
    requires Grown(l0, l, tabs) && e !in l && l' == l[e := 1] && d in l0
    ensures Grown(l0, l', tabs + [e]) && e != d && e !in tabs
  {
    assert (set b | b in tabs + [e]) == (set b | b in tabs) + {e};
    assert forall b :: b in tabs ==> b in l;
  }

  lemma ElsewhereStep(m0: Mem, m: Mem, m': Mem, d: nat, tabs: seq<nat>, e: nat)
    requires Elsewhere(m0, m, d, tabs)
    requires forall b :: 0 <= b < HEAP_BLOCKS && b != d && b != e ==> m'[b] == m[b]
    ensures Elsewhere(m0, m', d, tabs + [e])
  {
  }

  lemma BuiltNone(m: Mem, d: nat, flags: nat, l: Live)
    requires flags < PAGE_SIZE && d < HEAP_BLOCKS
    ensures TablesBuilt(m, d, [], flags) && Grown(l, l, []) && Elsewhere(m, m, d, [])
  {
    var none: seq<nat> := [];
    assert WithSingles(l, set b | b in none) == l;
  }

  lemma BuiltStep(m: Mem, m': Mem, d: nat, tabs: seq<nat>, flags: nat, e: nat)
    requires flags < PAGE_SIZE && TablesBuilt(m, d, tabs, flags) && |tabs| < ENTRIES
    requires e < HEAP_BLOCKS && e != d && e !in tabs
    requires m' == m[e := IdentityFrame(Wrap(|tabs| * 0x40_0000), flags)][d := m[d][|tabs| := DirWord(AddressOf(e), flags)]]
    ensures TablesBuilt(m', d, tabs + [e], flags)
  {
  }

  lemma BuiltFrame(m: Mem, m': Mem, d: nat, tabs: seq<nat>, flags: nat, c: nat)
    requires flags < PAGE_SIZE && TablesBuilt(m, d, tabs, flags)
    requires c != d && c !in tabs && forall b :: 0 <= b < HEAP_BLOCKS && b != c ==> m'[b] == m[b]
    ensures TablesBuilt(m', d, tabs, flags)
  {
  }

  lemma BuiltWords(m: Mem, d: nat, tabs: seq<nat>, flags: nat)
    requires flags < PAGE_SIZE && TablesBuilt(m, d, tabs, flags) && |tabs| == ENTRIES && DirOk(m, AddressOf(d))
    ensures DirWords(m, AddressOf(d), flags)
  {
    hide Or, And, DirOk, TableAddr, IdentityFrame;
    forall i: nat | i < ENTRIES
      ensures m[d][i] == TableAddr(m, AddressOf(d), i) + Or(flags, 2)
    {
      BuiltTable(m, d, tabs, flags, i);
      OrTwoFlags(AddressOf(tabs[i]), flags, IS_WRITEABLE);
      assert m[d][i] == DirWord(AddressOf(tabs[i]), flags);
    }
  }

  lemma BuiltBlocks(m: Mem, d: nat, tabs: seq<nat>, flags: nat, c: nat)
    requires flags < PAGE_SIZE && TablesBuilt(m, d, tabs, flags) && |tabs| == ENTRIES
    requires c < HEAP_BLOCKS && c != d && c !in tabs && m[c][0] == AddressOf(d)
    ensures ChunkOk(m, AddressOf(c)) && IdentityMapped(m, Directory(m, AddressOf(c)), flags)
    ensures DirWords(m, Directory(m, AddressOf(c)), flags)
    ensures ChunkBlocks(m, AddressOf(c)) == {d} + (set b | b in tabs) + {c}
  {
    BuiltDirOk(m, d, tabs, flags);
    BuiltWords(m, d, tabs, flags);
    hide IdentityMapped, TableAddr, DirWords;
    var dir := AddressOf(d);
    forall j | 0 <= j < ENTRIES
      ensures TableBlock(m, dir, j) == tabs[j]
    {
      assert TableAddr(m, dir, j) == AddressOf(tabs[j]);
    }
    assert TableBlocks(m, dir, ENTRIES) == set b | b in tabs;
  }

  lemma SinglesTogether(l: Live, d: nat, tabs: seq<nat>, c: nat)
    ensures WithSingles(l[d := 1], set b | b in tabs)[c := 1] == WithSingles(l, {d} + (set b | b in tabs) + {c})
  {
  }

  lemma BuiltIsChunk(t0: Table, m0: Mem, t: Table, m: Mem, d: nat, tabs: seq<nat>, flags: nat, c: nat)
    requires flags < PAGE_SIZE && TablesBuilt(m, d, tabs, flags) && |tabs| == ENTRIES && |t| == |t0|
    requires c < HEAP_BLOCKS && c != d && c !in tabs && m[c][0] == AddressOf(d) && WellFormed(t)
    requires d !in LiveOf(t0) && c !in LiveOf(t0) && forall b :: b in tabs ==> b !in LiveOf(t0)
    requires LiveOf(t) == WithSingles(LiveOf(t0)[d := 1], set b | b in tabs)[c := 1]
    requires forall b :: 0 <= b < HEAP_BLOCKS && b != d && b != c && b !in tabs ==> m[b] == m0[b]
    ensures NewChunk(t0, m0, t, m, AddressOf(c), flags)
  {
    hide WellFormed, LiveOf, IdentityMapped, DirWords, ChunkOk, ChunkBlocks, TablesBuilt, WithSingles;
    BuiltBlocks(m, d, tabs, flags, c);
    SinglesTogether(LiveOf(t0), d, tabs, c);
  }

  lemma SameBits(flags: nat)
    ensures var f := Or(flags, 2); (Present(f) <==> Present(flags)) && (UserPage(f) <==> UserPage(flags)) && Writeable(f)
  {
    assert Pow2(1) == 2;
    OrBit(flags, 1);
    hide Or;
    if !Writeable(flags) {
      SetSecond(flags);
    }
  }

  lemma SetSecond(f: nat)
    requires !Writeable(f)
    ensures (Present(f + 2) <==> Present(f)) && (UserPage(f + 2) <==> UserPage(f)) && Writeable(f + 2)
  {
    var y, r := f / 4, f % 4;
    assert f == 4 * y + r && f / 2 == 2 * y + r / 2 && r < 2;
    assert f + 2 == 4 * y + (r + 2) && (f + 2) / 2 == 2 * y + 1 && (f + 2) / 4 == y;
  }

  /** A page of a fresh directory gives user code exactly the access in the flags, through both levels. */
  lemma FreshAccess(m: Mem, dir: word, flags: nat, page: nat)
    requires DirOk(m, dir) && flags < PAGE_SIZE && IdentityMapped(m, dir, flags) && DirWords(m, dir, flags) && page < PAGES
    ensures CanRead(m, dir, page) <==> UserRead(flags)
    ensures CanWrite(m, dir, page) <==> UserWrite(flags)
  {
    var i := page / ENTRIES;
    assert InPool(dir) && InPool(TableAddr(m, dir, i));
    hide DirOk, Or, TableAddr, Entry;
    SameBits(flags);
    LowBits(TableAddr(m, dir, i), Or(flags, 2));
    FlagAccess(page * PAGE_SIZE, flags);
  }

  lemma ApplyNone(m: Mem, dir: word)
    requires DirOk(m, dir)
    ensures ApplyWrites(m, dir, []) == m
  {
  }

  lemma RangeRejected(virt: word, phys: word, count: int, flags: word)
    ensures count <= 0 || !Aligned(virt) || !Aligned(phys) ==> RangeWrites(virt, phys, count, flags) == []
  {
  }

  lemma OnePage(virt: word, phys: word, flags: word)
    requires Aligned(virt) && Aligned(phys)
    ensures Or(phys, flags) < WORD_SIZE
    ensures RangeWrites(virt, phys, 1, flags) == CallWrites(MapCall.Set(virt, Or(phys, flags)))
  {
    OrWord(phys, flags);
    assert PageWrite(virt, phys, flags, 0) == Write(virt / PAGE_SIZE, Or(phys, flags));
  }

  lemma WrapStep(a: word, i: nat)
    ensures Wrap(Wrap(a + i * PAGE_SIZE) + PAGE_SIZE) == Wrap(a + (i + 1) * PAGE_SIZE)
    ensures Aligned(Wrap(a + i * PAGE_SIZE)) == Aligned(a)
    ensures i == 0 ==> Wrap(a + i * PAGE_SIZE) == a
  {
  }

  lemma SamePage(virt: word, phys: word, flags: word, i: nat)
    ensures PageWrite(Wrap(virt + i * PAGE_SIZE), Wrap(phys + i * PAGE_SIZE), flags, 0) == PageWrite(virt, phys, flags, i)
  {
    hide Or;
    WrapAgain(virt + i * PAGE_SIZE);
    WrapAgain(phys + i * PAGE_SIZE);
    hide Wrap;
  }

  lemma WrapAgain(x: int)
    ensures Wrap(Wrap(x) + 0 * PAGE_SIZE) == Wrap(x)
  {
  }

  lemma RangeGrows(virt: word, phys: word, i: nat, flags: word)
    requires Aligned(virt) && Aligned(phys)
    ensures RangeWrites(virt, phys, i + 1, flags)
            == RangeWrites(virt, phys, i, flags)
               + RangeWrites(Wrap(virt + i * PAGE_SIZE), Wrap(phys + i * PAGE_SIZE), 1, flags)
  {
    hide PageWrite, Wrap, Aligned;
    WrapStep(virt, i);
    WrapStep(phys, i);
    SamePage(virt, phys, flags, i);
  }

  lemma RangeStep(m: Mem, dir: word, virt: word, phys: word, i: nat, flags: word)
    requires DirOk(m, dir) && Aligned(virt) && Aligned(phys)
    ensures var v, p := Wrap(virt + i * PAGE_SIZE), Wrap(phys + i * PAGE_SIZE);
            ApplyWrites(m, dir, RangeWrites(virt, phys, i + 1, flags))
            == ApplyWrites(ApplyWrites(m, dir, RangeWrites(virt, phys, i, flags)), dir, RangeWrites(v, p, 1, flags))
  {
    hide ApplyWrites, DirOk, Wrap, Aligned, RangeWrites;
    var v, p := Wrap(virt + i * PAGE_SIZE), Wrap(phys + i * PAGE_SIZE);
    RangeGrows(virt, phys, i, flags);
    ApplyConcat(m, dir, RangeWrites(virt, phys, i, flags), RangeWrites(v, p, 1, flags));
  }

  lemma MappingKeepsChunk(m: Mem, m': Mem, chunk: word, ws: seq<Write>)
    requires ChunkOk(m, chunk) && InRange(ws) && m' == ApplyWrites(m, Directory(m, chunk), ws)
    ensures ChunkOk(m', chunk) && Directory(m', chunk) == Directory(m, chunk)
    ensures ChunkBlocks(m', chunk) == ChunkBlocks(m, chunk)
  {
    var dir := Directory(m, chunk);
    WritesAreLookup(m, dir, ws);
    assert !IsTable(m, dir, BlockOf(chunk));
    assert forall i :: 0 <= i < ENTRIES ==> TableBlock(m', dir, i) == TableBlock(m, dir, i);
  }
}
