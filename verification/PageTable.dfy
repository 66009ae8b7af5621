/**
 Two-level page tables held in heap blocks, and the flat map they stand for.

 A directory entry is a table address ORed with flags; the table is found again
 by masking.  A page is named by its number, virtual address / 4096.
 */
module PageTable {
  import opened Common
  import opened Bits

  const ENTRIES: nat := 1024
  const PAGES: nat := 0x10_0000
  const IS_PRESENT: nat := 1
  const IS_WRITEABLE: nat := 2
  const ACCESS_FROM_ALL: nat := 4

  /** MAEROS_HEAP_ADDRESS, and MAEROS_HEAP_SIZE_BYTES in blocks. */
  const HEAP_ADDRESS: word := 0x0100_0000
  const HEAP_BLOCKS: nat := 25600

  /** The 1024 words of one heap block. */
  type Frame = f: seq<word> | |f| == 1024 witness seq(1024, _ => 0)
  /** The heap pool, block by block. */
  type Mem = m: seq<Frame> | |m| == 25600 witness seq<Frame>(25600, _ => ZERO_FRAME)
  const ZERO_FRAME: Frame := seq(1024, _ => 0)

  predicate InPool(a: word) {
    HEAP_ADDRESS <= a < HEAP_ADDRESS + HEAP_BLOCKS * PAGE_SIZE && Aligned(a)
  }

  function BlockOf(a: word): (b: nat)
    requires InPool(a)
    ensures b < HEAP_BLOCKS && a == AddressOf(b)
  {
    (a - HEAP_ADDRESS) / PAGE_SIZE
  }

  function AddressOf(b: nat): (a: word)
    requires b < HEAP_BLOCKS
    ensures InPool(a)
  {
    HEAP_ADDRESS + b * PAGE_SIZE
  }

  // ---------- the two levels ----------

  /** The table address kept in directory slot i. */
  function TableAddr(m: Mem, dir: word, i: nat): (a: word)
    requires InPool(dir) && i < ENTRIES
  {
    var e := m[BlockOf(dir)][i];
    MaskWord(e);
    And(e, ADDRESS_MASK)
  }

  function TableBlock(m: Mem, dir: word, i: nat): (b: nat)
    requires DirOk(m, dir) && i < ENTRIES
    ensures b < HEAP_BLOCKS
  {
    BlockOf(TableAddr(m, dir, i))
  }

  /** Every slot leads to a table of its own, none of them the directory itself. */
  ghost predicate DirOk(m: Mem, dir: word) {
    && InPool(dir)
    && (forall i :: 0 <= i < ENTRIES ==> InPool(TableAddr(m, dir, i)) && TableAddr(m, dir, i) != dir)
    && (forall i, j :: 0 <= i < j < ENTRIES ==> TableAddr(m, dir, i) != TableAddr(m, dir, j))
  }

  function Entry(m: Mem, dir: word, page: nat): word
    requires DirOk(m, dir) && page < PAGES
  {
    m[TableBlock(m, dir, page / ENTRIES)][page % ENTRIES]
  }

  function SetEntry(m: Mem, dir: word, page: nat, val: word): Mem
    requires DirOk(m, dir) && page < PAGES
  {
    var b := TableBlock(m, dir, page / ENTRIES);
    m[b := m[b][page % ENTRIES := val]]
  }

  /** Same directory words and same table words: the same directory. */
  lemma DirFrame(m: Mem, m': Mem, dir: word)
    requires DirOk(m, dir) && m'[BlockOf(dir)] == m[BlockOf(dir)]
    ensures DirOk(m', dir)
    ensures forall i :: 0 <= i < ENTRIES ==> TableAddr(m', dir, i) == TableAddr(m, dir, i)
  {
    assert forall i :: 0 <= i < ENTRIES ==> TableAddr(m', dir, i) == TableAddr(m, dir, i);
  }

  lemma EntryFrame(m: Mem, m': Mem, dir: word)
    requires DirOk(m, dir) && m'[BlockOf(dir)] == m[BlockOf(dir)]
    requires forall i :: 0 <= i < ENTRIES ==> m'[TableBlock(m, dir, i)] == m[TableBlock(m, dir, i)]
    ensures DirOk(m', dir)
    ensures forall p :: 0 <= p < PAGES ==> Entry(m', dir, p) == Entry(m, dir, p)
  {
    DirFrame(m, m', dir);
    forall p | 0 <= p < PAGES
      ensures Entry(m', dir, p) == Entry(m, dir, p)
    {
      assert TableAddr(m', dir, p / ENTRIES) == TableAddr(m, dir, p / ENTRIES);
    }
  }

  /** A block that holds one of the tables of dir. */
  ghost predicate IsTable(m: Mem, dir: word, b: nat)
    requires DirOk(m, dir)
  {
    exists i :: 0 <= i < ENTRIES && TableBlock(m, dir, i) == b
  }

  /** Writing one entry changes that page of the flat map and nothing else. */
  lemma SetEntryIsUpdate(m: Mem, dir: word, page: nat, val: word)
    requires DirOk(m, dir) && page < PAGES
    ensures var m' := SetEntry(m, dir, page, val);
            && DirOk(m', dir)
            && (forall i :: 0 <= i < ENTRIES ==> TableAddr(m', dir, i) == TableAddr(m, dir, i))
            && (forall p :: 0 <= p < PAGES ==> Entry(m', dir, p) == if p == page then val else Entry(m, dir, p))
            && (forall b :: 0 <= b < HEAP_BLOCKS && !IsTable(m, dir, b) ==> m'[b] == m[b])
  {
    var m' := SetEntry(m, dir, page, val);
    var k := page / ENTRIES;
    assert TableAddr(m, dir, k) != dir;
    DirFrame(m, m', dir);
    forall p | 0 <= p < PAGES
      ensures Entry(m', dir, p) == if p == page then val else Entry(m, dir, p)
    {
      var j := p / ENTRIES;
      assert TableAddr(m', dir, j) == TableAddr(m, dir, j);
      assert j < k || j > k ==> TableAddr(m, dir, j) != TableAddr(m, dir, k);
    }
  }

  // ---------- sequences of writes ----------

  datatype Write = Write(page: nat, val: word)

  ghost predicate InRange(ws: seq<Write>) {
    forall i :: 0 <= i < |ws| ==> ws[i].page < PAGES
  }

  /** The value of a page after the writes: the last one to that page, or what was there. */
  function Lookup(ws: seq<Write>, page: nat, init: word): word {
    if ws == [] then init
    else if ws[|ws| - 1].page == page then ws[|ws| - 1].val
    else Lookup(ws[..|ws| - 1], page, init)
  }

  ghost function ApplyWrites(m: Mem, dir: word, ws: seq<Write>): (m': Mem)
    requires DirOk(m, dir) && InRange(ws)
    ensures DirOk(m', dir)
    ensures forall i :: 0 <= i < ENTRIES ==> TableAddr(m', dir, i) == TableAddr(m, dir, i)
  {
    if ws == [] then m
    else
      var w := ws[|ws| - 1];
      var m1 := ApplyWrites(m, dir, ws[..|ws| - 1]);
      SetEntryIsUpdate(m1, dir, w.page, w.val);
      SetEntry(m1, dir, w.page, w.val)
  }

  /** The two-level tables refine the flat map: reading a page gives the last value written to it. */
  lemma {:induction false} WritesAreLookup(m: Mem, dir: word, ws: seq<Write>)
    requires DirOk(m, dir) && InRange(ws)
    ensures var m' := ApplyWrites(m, dir, ws);
            && (forall p :: 0 <= p < PAGES ==> Entry(m', dir, p) == Lookup(ws, p, Entry(m, dir, p)))
            && (forall b :: 0 <= b < HEAP_BLOCKS && !IsTable(m, dir, b) ==> m'[b] == m[b])
  {
    if ws == [] {
    } else {
      var w := ws[|ws| - 1];
      var m1 := ApplyWrites(m, dir, ws[..|ws| - 1]);
      WritesAreLookup(m, dir, ws[..|ws| - 1]);
      SetEntryIsUpdate(m1, dir, w.page, w.val);
      forall b | 0 <= b < HEAP_BLOCKS && !IsTable(m, dir, b)
        ensures !IsTable(m1, dir, b)
      {
        assert forall i :: 0 <= i < ENTRIES ==> TableBlock(m1, dir, i) == TableBlock(m, dir, i);
      }
    }
  }

  lemma {:induction false} LookupConcat(ws: seq<Write>, vs: seq<Write>, p: nat, init: word)
    ensures Lookup(ws + vs, p, init) == Lookup(vs, p, Lookup(ws, p, init))
  {
    if vs == [] {
      assert ws + vs == ws;
    } else {
      ButLast(ws, vs);
      LookupConcat(ws, vs[..|vs| - 1], p, init);
    }
  }

  // ---------- what the mapping calls write ----------

  function PageWrite(virt: word, phys: word, flags: word, i: nat): Write {
    OrWord(Wrap(phys + i * PAGE_SIZE), flags);
    Write(Wrap(virt + i * PAGE_SIZE) / PAGE_SIZE, Or(Wrap(phys + i * PAGE_SIZE), flags))
  }

  /** paging_map_range: nothing when an address is misaligned, else one write per page, wrapping at 4 GiB. */
  function RangeWrites(virt: word, phys: word, count: int, flags: word): (ws: seq<Write>)
    ensures InRange(ws)
  {
    if count <= 0 || !Aligned(virt) || !Aligned(phys) then []
    else seq(count, i requires 0 <= i < count => PageWrite(virt, phys, flags, i))
  }

  predicate MapToAccepted(virt: word, phys: word, phys_end: word) {
    Aligned(virt) && Aligned(phys) && Aligned(phys_end) && phys <= phys_end
  }

  function MapToWrites(virt: word, phys: word, phys_end: word, flags: word): (ws: seq<Write>)
    ensures InRange(ws)
  {
    if MapToAccepted(virt, phys, phys_end)
    then RangeWrites(virt, phys, (phys_end - phys) / PAGE_SIZE, flags) else []
  }

  lemma PageWriteExact(virt: word, phys: word, flags: word, i: nat)
    requires Aligned(virt) && virt + i * PAGE_SIZE < WORD_SIZE && phys + i * PAGE_SIZE < WORD_SIZE
    ensures Or(phys + i * PAGE_SIZE, flags) < WORD_SIZE
    ensures PageWrite(virt, phys, flags, i) == Write(virt / PAGE_SIZE + i, Or(phys + i * PAGE_SIZE, flags))
  {
    OrWord(phys + i * PAGE_SIZE, flags);
  }

  /** Without wrap-around, a range maps exactly its own pages, page by page. */
  lemma {:induction false} RangeLookup(virt: word, phys: word, count: nat, flags: word, p: nat, init: word)
    requires Aligned(virt) && Aligned(phys)
    requires virt + count * PAGE_SIZE <= WORD_SIZE && phys + count * PAGE_SIZE <= WORD_SIZE
    ensures var v := virt / PAGE_SIZE;
            Lookup(RangeWrites(virt, phys, count, flags), p, init)
            == if v <= p < v + count then Or(phys + (p - v) * PAGE_SIZE, flags) else init
  {
    if count == 0 {
    } else {
      var ws := RangeWrites(virt, phys, count, flags);
      assert ws[..count - 1] == RangeWrites(virt, phys, count - 1, flags);
      PageWriteExact(virt, phys, flags, count - 1);
      RangeLookup(virt, phys, count - 1, flags, p, init);
    }
  }

  // ---------- runs of mapping calls ----------

  datatype MapCall =
    | Set(virt: word, val: word)
    | Map(virt: word, phys: word, flags: word)
    | MapRange(virt: word, phys: word, count: int, flags: word)
    | MapTo(virt: word, phys: word, phys_end: word, flags: word)

  /** The page writes of one call; a rejected call writes nothing. */
  function CallWrites(c: MapCall): (ws: seq<Write>)
    ensures InRange(ws)
  {
    match c
    case Set(virt, val) => if Aligned(virt) then [Write(virt / PAGE_SIZE, val)] else []
    case Map(virt, phys, flags) => RangeWrites(virt, phys, 1, flags)
    case MapRange(virt, phys, count, flags) => RangeWrites(virt, phys, count, flags)
    case MapTo(virt, phys, phys_end, flags) => MapToWrites(virt, phys, phys_end, flags)
  }

  function RunWrites(cs: seq<MapCall>): (ws: seq<Write>)
    ensures InRange(ws)
  {
    if cs == [] then [] else RunWrites(cs[..|cs| - 1]) + CallWrites(cs[|cs| - 1])
  }

  lemma {:induction false} ApplyConcat(m: Mem, dir: word, ws: seq<Write>, vs: seq<Write>)
    requires DirOk(m, dir) && InRange(ws) && InRange(vs)
    ensures InRange(ws + vs)
    ensures ApplyWrites(m, dir, ws + vs) == ApplyWrites(ApplyWrites(m, dir, ws), dir, vs)
  {
    if vs == [] {
      assert ws + vs == ws;
    } else {
      hide DirOk, SetEntry;
      ButLast(ws, vs);
      ApplyConcat(m, dir, ws, vs[..|vs| - 1]);
    }
  }

  // ---------- address arithmetic ----------

  function AlignToUpper(a: word): word {
    if a % PAGE_SIZE != 0 then Wrap(a + PAGE_SIZE - a % PAGE_SIZE) else a
  }

  function AlignToLower(a: word): word {
    a - a % PAGE_SIZE
  }

  /** paging_get: a misaligned address leaves both indexes 0, so it reads page 0. */
  function Get(m: Mem, dir: word, virt: word): word
    requires DirOk(m, dir)
  {
    Entry(m, dir, if Aligned(virt) then virt / PAGE_SIZE else 0)
  }

  function PhysicalAddress(m: Mem, dir: word, virt: word): word
    requires DirOk(m, dir)
  {
    Wrap(And(Get(m, dir, AlignToLower(virt)), ADDRESS_MASK) + (virt - AlignToLower(virt)))
  }

  /** Translation replaces the page and keeps the offset inside it. */
  lemma TranslationKeepsOffset(m: Mem, dir: word, virt: word)
    requires DirOk(m, dir)
    ensures var e := Entry(m, dir, virt / PAGE_SIZE);
            PhysicalAddress(m, dir, virt) == (e - e % PAGE_SIZE) + virt % PAGE_SIZE
  {
    hide And, DirOk;
    var low := AlignToLower(virt);
    assert low / PAGE_SIZE == virt / PAGE_SIZE;
    MaskWord(Entry(m, dir, virt / PAGE_SIZE));
  }

  // ---------- access ----------

  /** The present, read/write and user bits of a paging-structure entry, section 4.3 of the Intel SDM Volume 3A. */
  predicate Present(e: nat) {
    e % 2 == 1
  }

  predicate Writeable(e: nat) {
    (e / 2) % 2 == 1
  }

  predicate UserPage(e: nat) {
    (e / 4) % 2 == 1
  }

  predicate UserRead(e: nat) {
    Present(e) && UserPage(e)
  }

  predicate UserWrite(e: nat) {
    Present(e) && Writeable(e) && UserPage(e)
  }

  /** User code may read the page: the directory word and the table entry both let it. */
  ghost predicate CanRead(m: Mem, dir: word, page: nat)
    requires DirOk(m, dir) && page < PAGES
  {
    UserRead(m[BlockOf(dir)][page / ENTRIES]) && UserRead(Entry(m, dir, page))
  }

  ghost predicate CanWrite(m: Mem, dir: word, page: nat)
    requires DirOk(m, dir) && page < PAGES
  {
    UserWrite(m[BlockOf(dir)][page / ENTRIES]) && UserWrite(Entry(m, dir, page))
  }

  /** The entry gives exactly the access in the flags. */
  predicate SameAccess(e: nat, flags: nat) {
    && (Present(e) <==> Present(flags)) && (Writeable(e) <==> Writeable(flags)) && (UserPage(e) <==> UserPage(flags))
  }

  /** The access bits are those of the lowest three. */
  lemma LowThree(z: nat, r: nat)
    requires r < 8
    ensures SameAccess(8 * z + r, r)
  {
    assert (8 * z + r) / 2 == 4 * z + r / 2;
    assert (8 * z + r) / 4 == 2 * z + r / 4;
  }

  lemma LowBits(a: nat, f: nat)
    requires Aligned(a)
    ensures SameAccess(a + f, f)
  {
    var q := a / PAGE_SIZE;
    LowThree(512 * q + f / 8, f % 8);
    LowThree(f / 8, f % 8);
    hide SameAccess;
    assert a + f == 8 * (512 * q + f / 8) + f % 8 && f == 8 * (f / 8) + f % 8;
    Together(a + f, f, f % 8);
  }

  lemma Together(e: nat, f: nat, r: nat)
    requires SameAccess(e, r) && SameAccess(f, r)
    ensures SameAccess(e, f)
  {
  }

  /** Flags ORed into an aligned address are the access that the entry gives. */
  lemma FlagAccess(a: word, f: nat)
    requires Aligned(a) && f < PAGE_SIZE
    ensures Or(a, f) == a + f < WORD_SIZE && SameAccess(Or(a, f), f)
  {
    hide Or, SameAccess;
    OrFlags(a, f);
    LowBits(a, f);
  }
}
