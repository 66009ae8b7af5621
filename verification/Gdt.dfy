/**
 Segment descriptors, src/gdt/gdt.c.  Masks with 2^k - 1 and shifts of unsigned
 words are written as remainder and division.
 */
module Gdt {
  import opened Common
  import opened Bits

  datatype Descriptor = Descriptor(base: word, limit: word, kind: byte)

  /** The descriptors that encodeGdtEntry does not panic on. */
  predicate Encodable(d: Descriptor) {
    d.limit > 65536 ==> d.limit % 0x1000 == 0xFFF
  }

  function DecodeBase(b2: byte, b3: byte, b4: byte, b7: byte): word {
    b2 + 0x100 * b3 + 0x1_0000 * b4 + 0x100_0000 * b7
  }

  /** In pages, with the low 12 bits ones, when the G bit is set. */
  function DecodeLimit(b0: byte, b1: byte, b6: byte): word {
    var raw := b0 + 0x100 * b1 + 0x1_0000 * (b6 % 16);
    if b6 >= 0x80 then raw * 0x1000 + 0xFFF else raw
  }

  /** The segment descriptor of section 3.4.5 of the Intel SDM Volume 3A. */
  function Decode(b: seq<byte>): Descriptor
    requires |b| == 8
  {
    Descriptor(DecodeBase(b[2], b[3], b[4], b[7]), DecodeLimit(b[0], b[1], b[6]), b[5])
  }

  /** The D/B bit is set and the L and AVL bits are clear: a 32-bit segment. */
  predicate SizeBits(b6: byte) {
    (b6 / 0x40) % 2 == 1 && (b6 / 0x20) % 2 == 0 && (b6 / 0x10) % 2 == 0
  }

  lemma SizeKept(high: byte, low: nat)
    requires (high == 0x40 || high == 0xC0) && low < 16
    ensures SizeBits(high + low)
  {
  }

  /** Byte k of a little-endian word. */
  function ByteOf(x: word, k: nat): byte
    requires k < 4
  {
    (if k == 0 then x else if k == 1 then x / 0x100 else if k == 2 then x / 0x1_0000 else x / 0x100_0000) % 0x100
  }

  lemma BaseBytes(x: word)
    ensures DecodeBase(ByteOf(x, 0), ByteOf(x, 1), ByteOf(x, 2), ByteOf(x, 3)) == x
  {
    var y, z := x / 0x100, x / 0x1_0000;
    assert y / 0x100 == z && z / 0x100 == x / 0x100_0000;
  }

  /** The three bytes that hold the limit give it back exactly for the limits that are accepted. */
  lemma LimitBytes(x: word)
    ensures var limit := if x > 65536 then x / 0x1000 else x;
            var flags := if x > 65536 then 0xC0 else 0x40;
            DecodeLimit(ByteOf(limit, 0), ByteOf(limit, 1), flags + (limit / 0x1_0000) % 16) == x
            <==> (x > 65536 ==> x % 0x1000 == 0xFFF)
  {
    var limit := if x > 65536 then x / 0x1000 else x;
    assert limit / 0x100 / 0x100 == limit / 0x1_0000 < 16;
    assert ByteOf(limit, 0) + 0x100 * ByteOf(limit, 1) + 0x1_0000 * (limit / 0x1_0000) == limit;
  }

  /** encodeGdtEntry into the eight bytes at `at`; false stands for the panic. */
  method EncodeEntry(target: array<byte>, at: nat, source: Descriptor) returns (ok: bool)
    requires at + 8 <= target.Length
    modifies target
    ensures ok <==> Encodable(source)
    ensures ok ==> Decode(target[at..at + 8]) == source && SizeBits(target[at + 6])
    ensures !ok ==> target[..] == old(target[..])
    ensures forall i :: 0 <= i < target.Length && !(at <= i < at + 8) ==> target[i] == old(target[i])
  {
    if source.limit > 65536 && source.limit % 0x1000 != 0xFFF {
      return false;
    }
    BaseBytes(source.base);
    LimitBytes(source.limit);
    hide ByteOf, DecodeBase, DecodeLimit, SizeBits;
    var limit: word := source.limit;
    target[at + 6] := 0x40;
    if source.limit > 65536 {
      limit := limit / 0x1000;
      target[at + 6] := 0xC0;
    }
    SizeKept(target[at + 6], (limit / 0x1_0000) % 16);
    StoreBytes(target, at, limit, source);
    return true;
  }

  /** The stores of the limit, base and type bytes, in their order. */
  method StoreBytes(target: array<byte>, at: nat, limit: word, source: Descriptor)
    requires at + 8 <= target.Length && target[at + 6] <= 0xC0
    modifies target
    ensures target[at] == ByteOf(limit, 0) && target[at + 1] == ByteOf(limit, 1)
    ensures target[at + 6] == old(target[at + 6]) + (limit / 0x1_0000) % 16
    ensures target[at + 2] == ByteOf(source.base, 0) && target[at + 3] == ByteOf(source.base, 1)
    ensures target[at + 4] == ByteOf(source.base, 2) && target[at + 7] == ByteOf(source.base, 3)
    ensures target[at + 5] == source.kind
    ensures forall i :: 0 <= i < target.Length && !(at <= i < at + 8) ==> target[i] == old(target[i])
  {
    hide ByteOf;
    target[at] := ByteOf(limit, 0);
    target[at + 1] := ByteOf(limit, 1);
    target[at + 6] := target[at + 6] + (limit / 0x1_0000) % 16;
    target[at + 2] := ByteOf(source.base, 0);
    target[at + 3] := ByteOf(source.base, 1);
    target[at + 4] := ByteOf(source.base, 2);
    target[at + 7] := ByteOf(source.base, 3);
    target[at + 5] := source.kind;
  }

  /** The eight bytes are the 32-bit segment d. */
  predicate Encoded(b: seq<byte>, d: Descriptor)
    requires |b| == 8
  {
    Decode(b) == d && SizeBits(b[6])
  }

  /** gdt_structured_to_gdt: stops at the first descriptor that cannot be encoded. */
  method EncodeTable(gdt: array<byte>, entries: seq<Descriptor>) returns (n: nat)
    requires gdt.Length == 8 * |entries|
    modifies gdt
    ensures n <= |entries| && (n < |entries| ==> !Encodable(entries[n]))
    ensures forall k :: 0 <= k < n ==> Encodable(entries[k]) && Encoded(gdt[8 * k..8 * k + 8], entries[k])
  {
    hide Decode, Encodable, SizeBits;
    n := 0;
    while n < |entries|
      invariant 0 <= n <= |entries|
      invariant forall k :: 0 <= k < n ==> Encodable(entries[k]) && Encoded(gdt[8 * k..8 * k + 8], entries[k])
    {
      ghost var before := gdt[..];
      var ok := EncodeEntry(gdt, 8 * n, entries[n]);
      assert forall k :: 0 <= k < n ==> gdt[8 * k..8 * k + 8] == before[8 * k..8 * k + 8];
      if !ok {
        return;
      }
      n := n + 1;
    }
  }

  // ---------- the kernel's table ----------

  /** The descriptors of src/kernel.c, with the task state segment at tss. */
  function KernelTable(tss: word, tss_size: word): (t: seq<Descriptor>)
    ensures |t| == 6
  {
    [Descriptor(0, 0, 0), Descriptor(0, 0xffff_ffff, 0x9a), Descriptor(0, 0xffff_ffff, 0x92),
     Descriptor(0, 0xffff_ffff, 0xf8), Descriptor(0, 0xffff_ffff, 0xf2), Descriptor(tss, tss_size, 0xE9)]
  }

  /** A present code or data segment for privilege level 3 that covers all of memory. */
  predicate UserSegment(d: Descriptor) {
    d.base == 0 && d.limit == 0xffff_ffff && (d.kind / 0x80) % 2 == 1 && (d.kind / 0x20) % 4 == 3 && (d.kind / 0x10) % 2 == 1
  }

  predicate Executable(d: Descriptor) {
    (d.kind / 8) % 2 == 1
  }

  /** A data segment that may be written. */
  predicate WriteableData(d: Descriptor) {
    !Executable(d) && (d.kind / 2) % 2 == 1
  }

  /** The selector names entry i of the table, with requested privilege 3. */
  predicate Selects(selector: word, i: nat) {
    selector % 4 == 3 && (selector / 4) % 2 == 0 && selector / 8 == i
  }

  /** The kernel's own segments: selector 8 is code and 16 writeable data, both for privilege 0, and 0x28 an available 32-bit task state. */
  lemma KernelSegments(tss: word, tss_size: word)
    ensures var t := KernelTable(tss, tss_size);
            && t[0] == Descriptor(0, 0, 0)
            && (forall i :: 1 <= i <= 2 ==> t[i].base == 0 && t[i].limit == 0xffff_ffff && (t[i].kind / 0x10) % 0x10 == 9)
            && Executable(t[1]) && WriteableData(t[2])
            && t[5].base == tss && t[5].limit == tss_size && (t[5].kind / 0x80) % 2 == 1 && t[5].kind % 0x20 == 9
  {
  }

  /** The kernel's table is encoded completely. */
  method BuildKernelTable(gdt: array<byte>, tss: word, tss_size: word) returns (n: nat)
    requires gdt.Length == 48 && Encodable(Descriptor(tss, tss_size, 0xE9))
    modifies gdt
    ensures n == 6 && forall k :: 0 <= k < 6 ==> Encoded(gdt[8 * k..8 * k + 8], KernelTable(tss, tss_size)[k])
  {
    n := EncodeTable(gdt, KernelTable(tss, tss_size));
  }
}
