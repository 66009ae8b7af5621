/** The block heap of src/memory/heap/heap.c, updating its table in place. */
module Heap {
  import opened Common
  import opened Bits
  import opened HeapTable

  /** (int) of a 32-bit word. */
  function ToInt(x: word): int {
    if x < 0x8000_0000 then x else x - WORD_SIZE
  }

  function BlockToAddress(saddr: word, block: nat): word {
    Wrap(saddr + block * PAGE_SIZE)
  }

  function AddressToBlock(saddr: word, address: word): int {
    TruncDiv(ToInt(Wrap(address - saddr)), PAGE_SIZE)
  }

  /** A pool of total blocks at saddr that stays inside the signed 32-bit offsets the code computes with. */
  predicate Geometry(saddr: word, total: nat) {
    0 < saddr && saddr + total * PAGE_SIZE < WORD_SIZE && total <= 0x8_0000
  }

  /** Addresses handed out are non-null, distinct from each other, and lead back to their block. */
  lemma AddressRoundTrip(saddr: word, total: nat, block: nat)
    requires Geometry(saddr, total) && block < total
    ensures BlockToAddress(saddr, block) == saddr + block * PAGE_SIZE > 0
    ensures AddressToBlock(saddr, BlockToAddress(saddr, block)) == block
  {
  }

  /** An address below the pool, such as null, leads to a negative block: the subtraction is signed. */
  lemma BelowThePool(saddr: word, address: word)
    requires PAGE_SIZE <= saddr - address <= 0x8000_0000
    ensures AddressToBlock(saddr, address) == -((saddr - address) / PAGE_SIZE) < 0
  {
    assert Wrap(address - saddr) == address - saddr + WORD_SIZE;
  }

  class BlockHeap {
    const saddr: word
    const entries: array<bv8>

    ghost predicate Valid()
      reads this
    {
      Geometry(saddr, entries.Length)
    }

    /** heap_create on a table of the right length, which clears every entry. */
    constructor (ptr: word, table: array<bv8>)
      requires Geometry(ptr, table.Length)
      modifies table
      ensures Valid() && saddr == ptr && entries == table
      ensures WellFormed(entries[..]) && LiveOf(entries[..]) == map[]
    {
      saddr := ptr;
      entries := table;
      new;
      for i := 0 to table.Length
        invariant forall j :: 0 <= j < i ==> table[j] == FREE
      {
        table[i] := FREE;
      }
      ZeroTable(entries[..]);
    }

    method GetStartBlock(total_blocks: nat) returns (r: int)
      ensures r == StartBlock(entries[..], total_blocks)
    {
      ghost var t := entries[..];
      var current := 0;
      var start := -1;
      var i := 0;
      while i < entries.Length
        invariant 0 <= i <= entries.Length
        invariant start == -1 ==> current == 0 && (i == 0 || !IsFree(t[i - 1]))
        invariant start != -1 ==> 0 <= start && start + current == i && FreeRun(t, start, current) && current >= 1
        invariant start > 0 ==> !IsFree(t[start - 1])
        invariant total_blocks >= 1 ==> current < total_blocks
        invariant forall s: nat :: total_blocks >= 1 && s + total_blocks <= i ==> !FreeRun(t, s, total_blocks)
      {
        if !IsFree(entries[i]) {
          current := 0;
          start := -1;
          i := i + 1;
          continue;
        }
        if start == -1 {
          start := i;
        }
        current := current + 1;
        if current == total_blocks {
          assert FreeRun(t, start, total_blocks);
          FitIs(t, total_blocks, start);
          return start;
        }
        i := i + 1;
      }
      if start == -1 {
        return -ENOMEM;
      }
      TrailingIs(t, start);
      return start;
    }

    method MarkBlocksTaken(start_block: nat, total_blocks: nat)
      requires start_block + total_blocks <= entries.Length
      modifies entries
      ensures entries[..] == Mark(old(entries[..]), start_block, total_blocks)
    {
      var end_block := start_block + total_blocks - 1;
      var entry := TAKEN | IS_FIRST;
      if total_blocks > 1 {
        entry := entry | HAS_NEXT;
      }
      ghost var t := entries[..];
      var i := start_block;
      while i <= end_block
        invariant start_block <= i <= end_block + 1
        invariant i <= end_block ==> entry == RunByte(i - start_block, total_blocks)
        invariant forall j :: start_block <= j < i ==> entries[j] == RunByte(j - start_block, total_blocks)
        invariant forall j :: 0 <= j < entries.Length && !(start_block <= j < i) ==> entries[j] == t[j]
      {
        entries[i] := entry;
        entry := TAKEN;
        if i != end_block - 1 {
          entry := entry | HAS_NEXT;
        }
        i := i + 1;
      }
    }

    method MarkBlocksFree(starting_block: nat)
      modifies entries
      ensures entries[..] == FreeFrom(old(entries[..]), starting_block)
    {
      ghost var t := entries[..];
      var i := starting_block;
      while i < entries.Length
        invariant starting_block <= i
        invariant FreeFrom(entries[..], i) == FreeFrom(t, starting_block)
      {
        var entry := entries[i];
        ghost var u := entries[..];
        entries[i] := FREE;
        assert entries[..] == u[i := FREE];
        if entry & HAS_NEXT == 0 {
          return;
        }
        i := i + 1;
      }
    }

    /** heap_malloc: null (0) when the search fails. */
    method Malloc(size: word) returns (address: word)
      requires Valid()
      requires Blocks(size) >= 1 ==> Serviceable(entries[..], Blocks(size))
      modifies entries
      ensures var t, n := old(entries[..]), Blocks(size);
              var s := StartBlock(t, n);
              if s < 0 then address == 0 && entries[..] == t
              else s + n <= |t| && entries[..] == Mark(t, s, n) && address == saddr + s * PAGE_SIZE > 0
      ensures old(WellFormed(entries[..])) && Blocks(size) >= 1 ==>
                WellFormed(entries[..]) && LiveOf(entries[..]) == LiveAfter(old(entries[..]), HeapOp.Malloc(size))
    {
      var n := AlignUp(size) / PAGE_SIZE;
      ghost var t := entries[..];
      var start_block := GetStartBlock(n);
      if n >= 1 {
        OverrunExactly(t, n);
        if WellFormed(t) {
          ApplyKeeps(t, HeapOp.Malloc(size));
        }
      }
      if start_block < 0 {
        return 0;
      }
      AddressRoundTrip(saddr, entries.Length, start_block);
      address := BlockToAddress(saddr, start_block);
      MarkBlocksTaken(start_block, n);
      assert n == 0 ==> Mark(t, start_block, n) == t;
    }

    /** heap_free: the block index must not be negative, as it is for a null pointer. */
    method Free(ptr: word)
      requires Valid() && AddressToBlock(saddr, ptr) >= 0
      modifies entries
      ensures entries[..] == FreeFrom(old(entries[..]), AddressToBlock(saddr, ptr))
      ensures old(WellFormed(entries[..]) && AddressToBlock(saddr, ptr) in LiveOf(entries[..])) ==>
                WellFormed(entries[..]) && LiveOf(entries[..]) == old(LiveOf(entries[..])) - {AddressToBlock(saddr, ptr)}
    {
      ghost var b := AddressToBlock(saddr, ptr);
      ghost var t := entries[..];
      if WellFormed(t) && b in LiveOf(t) {
        ApplyKeeps(t, HeapOp.Free(b));
      }
      MarkBlocksFree(AddressToBlock(saddr, ptr));
    }
  }

  lemma FitIs(t: Table, n: nat, s: nat)
    requires n >= 1 && FreeRun(t, s, n)
    requires forall q: nat :: q < s ==> !FreeRun(t, q, n)
    ensures StartBlock(t, n) == s
  {
  }

  lemma TrailingIs(t: Table, s: nat)
    requires s < |t| && FreeRun(t, s, |t| - s) && (s == 0 || !IsFree(t[s - 1]))
    ensures TrailingStart(t, |t|) == s
  {
  }
}
