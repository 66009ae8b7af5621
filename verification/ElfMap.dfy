/** process_map_elf of src/task/process.c: program headers become page mappings. */
module ElfMap {
  import opened Common
  import opened Bits
  import opened PageTable
  import opened Paging
  import opened Isolation

  const PF_W: nat := 2

  datatype Phdr = Phdr(p_offset: word, p_vaddr: word, p_memsz: word, p_flags: word)

  // ---------- one segment ----------

  function PhysOf(elf_memory: word, ph: Phdr): word {
    Wrap(elf_memory + ph.p_offset)
  }

  /** The header asks for write permission: bit 1 of p_flags in the Program Header section of the TIS ELF specification. */
  predicate WriteSegment(ph: Phdr) {
    (ph.p_flags / 2) % 2 == 1
  }

  function FlagsOf(ph: Phdr): (f: nat)
    ensures f < PAGE_SIZE && UserRead(f) && (Writeable(f) <==> WriteSegment(ph))
  {
    SecondBit(ph.p_flags);
    if And(ph.p_flags, PF_W) != 0 then USER_WRITEABLE else USER_READONLY
  }

  function EndPage(elf_memory: word, ph: Phdr): word {
    AlignToUpper(Wrap(PhysOf(elf_memory, ph) + ph.p_memsz))
  }

  function SegmentCall(elf_memory: word, ph: Phdr): MapCall {
    MapCall.MapTo(AlignToLower(ph.p_vaddr), AlignToLower(PhysOf(elf_memory, ph)), EndPage(elf_memory, ph), FlagsOf(ph))
  }

  predicate Accepted(elf_memory: word, ph: Phdr) {
    AlignToLower(PhysOf(elf_memory, ph)) <= EndPage(elf_memory, ph)
  }

  function FirstPage(ph: Phdr): nat {
    ph.p_vaddr / PAGE_SIZE
  }

  function PageCount(elf_memory: word, ph: Phdr): int {
    (EndPage(elf_memory, ph) - AlignToLower(PhysOf(elf_memory, ph))) / PAGE_SIZE
  }

  /** The page lies in the virtual range the segment is mapped to. */
  predicate InSegment(elf_memory: word, ph: Phdr, page: int) {
    FirstPage(ph) <= page < FirstPage(ph) + PageCount(elf_memory, ph)
  }

  /** Neither the physical nor the virtual range of the segment wraps around 4 GiB. */
  predicate NoWrap(elf_memory: word, ph: Phdr) {
    && elf_memory + ph.p_offset + ph.p_memsz <= WORD_SIZE - PAGE_SIZE
    && (FirstPage(ph) + PageCount(elf_memory, ph)) * PAGE_SIZE <= WORD_SIZE
  }

  /** Virtual and physical address agree inside the page: the p_align rule for a page-aligned image. */
  predicate Congruent(elf_memory: word, ph: Phdr) {
    (elf_memory + ph.p_offset) % PAGE_SIZE == ph.p_vaddr % PAGE_SIZE
  }

  lemma UpperBound(x: word)
    requires x <= WORD_SIZE - PAGE_SIZE
    ensures x <= AlignToUpper(x) < x + PAGE_SIZE && Aligned(AlignToUpper(x))
  {
  }

  lemma LowerBound(x: word)
    ensures x - PAGE_SIZE < AlignToLower(x) <= x && Aligned(AlignToLower(x))
  {
  }

  lemma UpperAligned(x: word)
    ensures Aligned(AlignToUpper(x))
  {
  }

  lemma AlignedDistance(low: int, high: int)
    requires Aligned(low) && Aligned(high) && low <= high
    ensures (high - low) / PAGE_SIZE >= 0 && low + (high - low) / PAGE_SIZE * PAGE_SIZE == high
  {
  }

  lemma NoWrapEnds(elf_memory: word, ph: Phdr)
    requires NoWrap(elf_memory, ph)
    ensures elf_memory + ph.p_offset + ph.p_memsz <= WORD_SIZE - PAGE_SIZE
    ensures PhysOf(elf_memory, ph) == elf_memory + ph.p_offset
    ensures EndPage(elf_memory, ph) == AlignToUpper(elf_memory + ph.p_offset + ph.p_memsz)
  {
    hide AlignToUpper;
  }

  lemma SegmentShape(elf_memory: word, ph: Phdr)
    requires NoWrap(elf_memory, ph)
    ensures PhysOf(elf_memory, ph) == elf_memory + ph.p_offset
    ensures Accepted(elf_memory, ph) && PageCount(elf_memory, ph) >= 0
    ensures AlignToLower(PhysOf(elf_memory, ph)) + PageCount(elf_memory, ph) * PAGE_SIZE == EndPage(elf_memory, ph)
    ensures EndPage(elf_memory, ph) >= elf_memory + ph.p_offset + ph.p_memsz
  {
    hide AlignToUpper, AlignToLower, PhysOf, EndPage, NoWrap, Wrap;
    NoWrapEnds(elf_memory, ph);
    UpperBound(elf_memory + ph.p_offset + ph.p_memsz);
    LowerBound(elf_memory + ph.p_offset);
    AlignedDistance(AlignToLower(PhysOf(elf_memory, ph)), EndPage(elf_memory, ph));
  }

  /** What the writes of one segment leave at a page. */
  lemma SegmentLookup(elf_memory: word, ph: Phdr, page: nat, init: word)
    requires NoWrap(elf_memory, ph)
    ensures var ws := CallWrites(SegmentCall(elf_memory, ph));
            Lookup(ws, page, init)
            == if InSegment(elf_memory, ph, page)
               then Or(AlignToLower(PhysOf(elf_memory, ph)) + (page - FirstPage(ph)) * PAGE_SIZE, FlagsOf(ph)) else init
  {
    hide Lookup, Or, And;
    SegmentShape(elf_memory, ph);
    var v, p := AlignToLower(ph.p_vaddr), AlignToLower(PhysOf(elf_memory, ph));
    assert v / PAGE_SIZE == FirstPage(ph);
    RangeLookup(v, p, PageCount(elf_memory, ph), FlagsOf(ph), page, init);
  }

  // ---------- the whole image ----------

  function ElfWrites(elf_memory: word, phdrs: seq<Phdr>): (ws: seq<Write>)
    ensures InRange(ws)
  {
    if phdrs == [] then []
    else ElfWrites(elf_memory, phdrs[..|phdrs| - 1]) + CallWrites(SegmentCall(elf_memory, phdrs[|phdrs| - 1]))
  }

  /** Every segment stays inside 4 GiB, and no two are mapped to a common page. */
  ghost predicate GoodLayout(elf_memory: word, phdrs: seq<Phdr>) {
    && (forall i :: 0 <= i < |phdrs| ==> NoWrap(elf_memory, phdrs[i]))
    && (forall i, j, page :: 0 <= i < j < |phdrs| ==> !(InSegment(elf_memory, phdrs[i], page) && InSegment(elf_memory, phdrs[j], page)))
  }

  /** A page of segment i is mapped by that segment alone. */
  lemma {:induction false} ElfLookup(elf_memory: word, phdrs: seq<Phdr>, i: nat, page: nat, init: word)
    requires GoodLayout(elf_memory, phdrs) && i < |phdrs| && InSegment(elf_memory, phdrs[i], page)
    ensures Lookup(ElfWrites(elf_memory, phdrs), page, init)
            == Or(AlignToLower(PhysOf(elf_memory, phdrs[i])) + (page - FirstPage(phdrs[i])) * PAGE_SIZE, FlagsOf(phdrs[i]))
  {
    hide Lookup, Or, CallWrites, SegmentCall, FlagsOf, FirstPage, PhysOf, AlignToLower, NoWrap, InSegment;
    var n := |phdrs| - 1;
    var front, ph := phdrs[..n], phdrs[n];
    LookupConcat(ElfWrites(elf_memory, front), CallWrites(SegmentCall(elf_memory, ph)), page, init);
    SegmentLookup(elf_memory, ph, page, Lookup(ElfWrites(elf_memory, front), page, init));
    if i < n {
      ElfLookup(elf_memory, front, i, page, init);
    }
  }

  /** A page of no segment is left as it was. */
  lemma {:induction false} ElfSpares(elf_memory: word, phdrs: seq<Phdr>, page: nat, init: word)
    requires GoodLayout(elf_memory, phdrs) && forall i :: 0 <= i < |phdrs| ==> !InSegment(elf_memory, phdrs[i], page)
    ensures Lookup(ElfWrites(elf_memory, phdrs), page, init) == init
  {
    hide Lookup, Or, CallWrites, SegmentCall, NoWrap, InSegment;
    if phdrs == [] {
      LookupMiss([], page, init);
    } else {
      var n := |phdrs| - 1;
      var front, ph := phdrs[..n], phdrs[n];
      ElfSpares(elf_memory, front, page, init);
      LookupConcat(ElfWrites(elf_memory, front), CallWrites(SegmentCall(elf_memory, ph)), page, init);
      SegmentLookup(elf_memory, ph, page, init);
    }
  }

  /** User code may read the page, and write it exactly if the header says so. */
  predicate SegmentEntry(e: word, ph: Phdr) {
    UserRead(e) && (Writeable(e) <==> WriteSegment(ph))
  }

  /** Byte k of segment ph is where the file image has it, with the write permission of the header. */
  ghost predicate ByteMapped(m: Mem, dir: word, elf_memory: word, ph: Phdr, k: nat)
    requires DirOk(m, dir) && NoWrap(elf_memory, ph)
  {
    && ph.p_vaddr + k < WORD_SIZE
    && PhysicalAddress(m, dir, ph.p_vaddr + k) == elf_memory + ph.p_offset + k
    && SegmentEntry(Entry(m, dir, (ph.p_vaddr + k) / PAGE_SIZE), ph)
  }

  lemma SegmentAddress(elf_memory: word, ph: Phdr, page: nat)
    requires NoWrap(elf_memory, ph) && InSegment(elf_memory, ph, page)
    ensures var a := AlignToLower(PhysOf(elf_memory, ph)) + (page - FirstPage(ph)) * PAGE_SIZE;
            0 <= a < WORD_SIZE && Aligned(a)
  {
    SegmentShape(elf_memory, ph);
    LowerBound(PhysOf(elf_memory, ph));
    hide AlignToLower, AlignToUpper;
  }

  /** The entry of a page of segment i once the whole image is mapped. */
  lemma MappedEntry(m: Mem, dir: word, elf_memory: word, phdrs: seq<Phdr>, i: nat, page: nat)
    requires DirOk(m, dir) && GoodLayout(elf_memory, phdrs) && i < |phdrs|
    requires page < PAGES && InSegment(elf_memory, phdrs[i], page)
    ensures var ph := phdrs[i];
            var e := Entry(ApplyWrites(m, dir, ElfWrites(elf_memory, phdrs)), dir, page);
            && e - e % PAGE_SIZE == AlignToLower(PhysOf(elf_memory, ph)) + (page - FirstPage(ph)) * PAGE_SIZE
            && SegmentEntry(e, ph)
  {
    hide Lookup, Or, And, ApplyWrites, ElfWrites, DirOk, NoWrap, AlignToLower, InSegment, GoodLayout, PhysOf, EndPage;
    var ph := phdrs[i];
    var a := AlignToLower(PhysOf(elf_memory, ph)) + (page - FirstPage(ph)) * PAGE_SIZE;
    LayoutNoWrap(elf_memory, phdrs, i);
    WritesAreLookup(m, dir, ElfWrites(elf_memory, phdrs));
    ElfLookup(elf_memory, phdrs, i, page, Entry(m, dir, page));
    SegmentAddress(elf_memory, ph, page);
    FlagAccess(a, FlagsOf(ph));
    OrFlags(a, FlagsOf(ph));
  }

  /** Byte-accurate mapping: every byte of every congruent segment translates to its place in the image. */
  lemma ElfByteAccurate(m: Mem, dir: word, elf_memory: word, phdrs: seq<Phdr>, i: nat, k: nat)
    requires DirOk(m, dir) && GoodLayout(elf_memory, phdrs) && i < |phdrs|
    requires Congruent(elf_memory, phdrs[i]) && k < phdrs[i].p_memsz
    ensures ByteMapped(ApplyWrites(m, dir, ElfWrites(elf_memory, phdrs)), dir, elf_memory, phdrs[i], k)
  {
    hide ApplyWrites, ElfWrites, DirOk, GoodLayout, And, SegmentEntry, PhysicalAddress;
    var ph := phdrs[i];
    LayoutNoWrap(elf_memory, phdrs, i);
    CongruentPage(elf_memory, ph, k);
    MappedEntry(m, dir, elf_memory, phdrs, i, (ph.p_vaddr + k) / PAGE_SIZE);
    TranslationKeepsOffset(ApplyWrites(m, dir, ElfWrites(elf_memory, phdrs)), dir, ph.p_vaddr + k);
  }

  /** Every byte of every congruent segment is where the image has it. */
  ghost predicate ImageMapped(m: Mem, dir: word, elf_memory: word, phdrs: seq<Phdr>)
    requires DirOk(m, dir) && GoodLayout(elf_memory, phdrs)
  {
    forall i, k :: 0 <= i < |phdrs| && Congruent(elf_memory, phdrs[i]) && 0 <= k < phdrs[i].p_memsz ==>
      ByteMapped(m, dir, elf_memory, phdrs[i], k)
  }

  lemma LayoutMapped(m: Mem, dir: word, elf_memory: word, phdrs: seq<Phdr>)
    requires DirOk(m, dir) && GoodLayout(elf_memory, phdrs)
    ensures ImageMapped(ApplyWrites(m, dir, ElfWrites(elf_memory, phdrs)), dir, elf_memory, phdrs)
    ensures AcceptedPrefix(elf_memory, phdrs, 0) == |phdrs|
  {
    hide ApplyWrites, ElfWrites, DirOk, ByteMapped, AcceptedPrefix;
    var m' := ApplyWrites(m, dir, ElfWrites(elf_memory, phdrs));
    forall i, k | 0 <= i < |phdrs| && Congruent(elf_memory, phdrs[i]) && 0 <= k < phdrs[i].p_memsz
      ensures ByteMapped(m', dir, elf_memory, phdrs[i], k)
    {
      ElfByteAccurate(m, dir, elf_memory, phdrs, i, k);
    }
    var n := AcceptedPrefix(elf_memory, phdrs, 0);
    if n < |phdrs| {
      SegmentShape(elf_memory, phdrs[n]);
    }
  }

  lemma LayoutNoWrap(elf_memory: word, phdrs: seq<Phdr>, i: nat)
    requires GoodLayout(elf_memory, phdrs) && i < |phdrs|
    ensures NoWrap(elf_memory, phdrs[i])
  {
  }

  lemma CongruentPage(elf_memory: word, ph: Phdr, k: nat)
    requires NoWrap(elf_memory, ph) && Congruent(elf_memory, ph) && k < ph.p_memsz
    ensures ph.p_vaddr + k < WORD_SIZE
    ensures var page := (ph.p_vaddr + k) / PAGE_SIZE;
            && page < PAGES && InSegment(elf_memory, ph, page)
            && AlignToLower(PhysOf(elf_memory, ph)) + (page - FirstPage(ph)) * PAGE_SIZE + (ph.p_vaddr + k) % PAGE_SIZE
               == elf_memory + ph.p_offset + k
  {
    hide EndPage;
    SegmentShape(elf_memory, ph);
  }

  /**
   The alignment rule is needed: for a non-empty segment, all its bytes are where
   the image has them exactly when the two addresses agree modulo the page size.
   */
  lemma CongruenceNeeded(m: Mem, dir: word, elf_memory: word, phdrs: seq<Phdr>, i: nat)
    requires DirOk(m, dir) && GoodLayout(elf_memory, phdrs) && i < |phdrs| && phdrs[i].p_memsz > 0
    ensures var m' := ApplyWrites(m, dir, ElfWrites(elf_memory, phdrs));
            (forall k :: 0 <= k < phdrs[i].p_memsz ==> ByteMapped(m', dir, elf_memory, phdrs[i], k))
            <==> Congruent(elf_memory, phdrs[i])
  {
    hide ApplyWrites, ElfWrites, DirOk, GoodLayout, And, SegmentEntry, PhysicalAddress;
    var ph := phdrs[i];
    var m' := ApplyWrites(m, dir, ElfWrites(elf_memory, phdrs));
    LayoutNoWrap(elf_memory, phdrs, i);
    if Congruent(elf_memory, ph) {
      forall k: nat | k < ph.p_memsz
        ensures ByteMapped(m', dir, elf_memory, ph, k)
      {
        ElfByteAccurate(m, dir, elf_memory, phdrs, i, k);
      }
    } else {
      NonEmptySegment(elf_memory, ph);
      MappedEntry(m, dir, elf_memory, phdrs, i, FirstPage(ph));
      TranslationKeepsOffset(m', dir, ph.p_vaddr);
      assert !ByteMapped(m', dir, elf_memory, ph, 0);
    }
  }

  lemma NonEmptySegment(elf_memory: word, ph: Phdr)
    requires NoWrap(elf_memory, ph) && ph.p_memsz > 0
    ensures InSegment(elf_memory, ph, FirstPage(ph)) && FirstPage(ph) < PAGES
  {
    hide EndPage;
    SegmentShape(elf_memory, ph);
  }

  // ---------- the loop ----------

  /** The headers handled before the first rejected one. */
  function AcceptedPrefix(elf_memory: word, phdrs: seq<Phdr>, from: nat): (n: nat)
    requires from <= |phdrs|
    ensures from <= n <= |phdrs|
    ensures forall i :: from <= i < n ==> Accepted(elf_memory, phdrs[i])
    ensures n < |phdrs| ==> !Accepted(elf_memory, phdrs[n])
    decreases |phdrs| - from
  {
    if from == |phdrs| || !Accepted(elf_memory, phdrs[from]) then from else AcceptedPrefix(elf_memory, phdrs, from + 1)
  }

  lemma SegmentAccepted(elf_memory: word, ph: Phdr)
    ensures MapToAccepted(AlignToLower(ph.p_vaddr), AlignToLower(PhysOf(elf_memory, ph)), EndPage(elf_memory, ph))
            <==> Accepted(elf_memory, ph)
    ensures !Accepted(elf_memory, ph) ==> CallWrites(SegmentCall(elf_memory, ph)) == []
  {
    hide AlignToUpper, AlignToLower, And, Or, FlagsOf, RangeWrites;
    UpperAligned(Wrap(PhysOf(elf_memory, ph) + ph.p_memsz));
    LowerBound(ph.p_vaddr);
    LowerBound(PhysOf(elf_memory, ph));
  }

  /**
   process_map_elf: maps header after header and stops at the first that is
   rejected.  With a good layout none is, and the image is mapped byte for byte.
   */
  method MapElf(k: Machine, dir: word, elf_memory: word, phdrs: seq<Phdr>) returns (res: int)
    requires DirOk(k.mem, dir)
    modifies k`mem
    ensures k.mem == ApplyWrites(old(k.mem), dir, ElfWrites(elf_memory, phdrs[..AcceptedPrefix(elf_memory, phdrs, 0)]))
    ensures res == if AcceptedPrefix(elf_memory, phdrs, 0) == |phdrs| then 0 else -EINVARG
    ensures DirOk(k.mem, dir) && (GoodLayout(elf_memory, phdrs) ==> res == 0 && ImageMapped(k.mem, dir, elf_memory, phdrs))
  {
    hide DirOk, ApplyWrites, ElfWrites, AcceptedPrefix, GoodLayout, ImageMapped;
    if GoodLayout(elf_memory, phdrs) {
      LayoutMapped(k.mem, dir, elf_memory, phdrs);
      assert phdrs[..|phdrs|] == phdrs;
    }
    res := MapHeaders(k, dir, elf_memory, phdrs);
  }

  /** The loop over the program headers. */
  method MapHeaders(k: Machine, dir: word, elf_memory: word, phdrs: seq<Phdr>) returns (res: int)
    requires DirOk(k.mem, dir)
    modifies k`mem
    ensures k.mem == ApplyWrites(old(k.mem), dir, ElfWrites(elf_memory, phdrs[..AcceptedPrefix(elf_memory, phdrs, 0)]))
    ensures res == if AcceptedPrefix(elf_memory, phdrs, 0) == |phdrs| then 0 else -EINVARG
  {
    hide ApplyWrites, DirOk, CallWrites, Or;
    ApplyNone(k.mem, dir);
    res := 0;
    var i := 0;
    while i < |phdrs|
      invariant 0 <= i <= |phdrs| && res == 0
      invariant DirOk(k.mem, dir)
      invariant AcceptedPrefix(elf_memory, phdrs, i) == AcceptedPrefix(elf_memory, phdrs, 0)
      invariant k.mem == ApplyWrites(old(k.mem), dir, ElfWrites(elf_memory, phdrs[..i]))
    {
      var ph := phdrs[i];
      var phys := PhysOf(elf_memory, ph);
      var flags := USER_READONLY;
      if And(ph.p_flags, PF_W) != 0 {
        ReadonlyOrWriteable();
        flags := Or(flags, IS_WRITEABLE);
      }
      SegmentAccepted(elf_memory, ph);
      ApplyNone(k.mem, dir);
      res := k.MapTo(dir, AlignToLower(ph.p_vaddr), AlignToLower(phys), AlignToUpper(Wrap(phys + ph.p_memsz)), flags);
      if res < 0 {
        return;
      }
      assert phdrs[..i + 1][..i] == phdrs[..i];
      ApplyConcat(old(k.mem), dir, ElfWrites(elf_memory, phdrs[..i]), CallWrites(SegmentCall(elf_memory, ph)));
      i := i + 1;
    }
    assert phdrs[..|phdrs|] == phdrs;
  }

  lemma ReadonlyOrWriteable()
    ensures Or(USER_READONLY, IS_WRITEABLE) == USER_WRITEABLE
  {
  }
}
