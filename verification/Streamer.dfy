/** The byte-addressed disk stream of src/disk/streamer.c over 512-byte sectors. */
module Streamer {
  import opened Common

  const SECTOR_SIZE: nat := 512
  /** Positions are C ints. */
  const INT_LIMIT: nat := 0x8000_0000

  type errno = x: int | x < 0 witness -1
  type Sector = s: seq<byte> | |s| == 512 witness seq(512, _ => 0)

  /** One sector read: its bytes, or a negative error code. */
  datatype SectorRead = Data(bytes: Sector) | Failed(code: errno)
  /** disk_read_block for one sector; any sector may fail. */
  type Disk = nat -> SectorRead

  /** The flat disk: byte a of the concatenated sectors. */
  function ByteAt(disk: Disk, a: nat): byte {
    var s := disk(a / SECTOR_SIZE);
    if s.Data? then s.bytes[a % SECTOR_SIZE] else 0
  }

  /** The n bytes at index `at` of a buffer are the slice of the disk at position p. */
  ghost predicate Holds(out: seq<byte>, at: nat, n: nat, disk: Disk, p: nat) {
    at + n <= |out| && forall k :: at <= k < at + n ==> out[k] == ByteAt(disk, p + (k - at))
  }

  /** Only the n bytes at index `at` may differ. */
  ghost predicate SameElsewhere(before: seq<byte>, after: seq<byte>, at: nat, n: nat) {
    |before| == |after| && forall k :: 0 <= k < |before| && !(at <= k < at + n) ==> after[k] == before[k]
  }

  /** The first unreadable sector in [a, b], or b + 1. */
  function FirstBad(disk: Disk, a: nat, b: nat): (f: nat)
    requires a <= b + 1
    ensures a <= f <= b + 1
    ensures forall k :: a <= k < f ==> disk(k).Data?
    ensures f <= b ==> disk(f).Failed?
    decreases b + 1 - a
  {
    if a > b || disk(a).Failed? then a else FirstBad(disk, a + 1, b)
  }

  /** The last sector touched by a read of total bytes at pos: one past the bytes when they end on a boundary. */
  function LastSector(pos: nat, total: nat): nat {
    (pos + total) / SECTOR_SIZE
  }

  function Bad(disk: Disk, pos: nat, total: nat): (f: nat) {
    FirstBad(disk, pos / SECTOR_SIZE, LastSector(pos, total))
  }

  /** Bytes delivered: all of them, or those before the first unreadable sector. */
  function Delivered(disk: Disk, pos: nat, total: nat): (n: nat)
    ensures n <= total
  {
    var f := Bad(disk, pos, total);
    if f > LastSector(pos, total) then total
    else if f == pos / SECTOR_SIZE then 0
    else f * SECTOR_SIZE - pos
  }

  function Status(disk: Disk, pos: nat, total: nat): int {
    var f := Bad(disk, pos, total);
    if f > LastSector(pos, total) then 0 else disk(f).code
  }

  function SectorReads(disk: Disk, pos: nat, total: nat): nat {
    var f := Bad(disk, pos, total);
    if f > LastSector(pos, total) then f - pos / SECTOR_SIZE else f + 1 - pos / SECTOR_SIZE
  }

  /** A read that meets no bad sector issues exactly this many sector reads. */
  lemma ReadCount(disk: Disk, pos: nat, total: nat)
    requires Status(disk, pos, total) == 0
    ensures SectorReads(disk, pos, total) == (pos % SECTOR_SIZE + total) / SECTOR_SIZE + 1
    ensures Delivered(disk, pos, total) == total
  {
  }

  class DiskStream {
    const disk: Disk
    var pos: nat
    /** Sector reads issued so far. */
    ghost var issued: nat

    constructor (d: Disk)
      ensures disk == d && pos == 0 && issued == 0
    {
      disk := d;
      pos, issued := 0, 0;
    }

    method Seek(p: nat)
      modifies this`pos
      ensures pos == p
    {
      pos := p;
    }

    /**
     diskstreamer_read: the delivered bytes are the slice of the flat disk at the
     position, which advances by exactly as many; nothing else of the buffer changes.
     */
    method Read(out: array<byte>, at: nat, total: nat) returns (res: int)
      requires at + total <= out.Length && pos + total < INT_LIMIT
      modifies this`pos, this`issued, out
      ensures res == Status(disk, old(pos), total)
      ensures pos == old(pos) + Delivered(disk, old(pos), total)
      ensures issued == old(issued) + SectorReads(disk, old(pos), total)
      ensures Holds(out[..], at, Delivered(disk, old(pos), total), disk, old(pos))
      ensures SameElsewhere(old(out[..]), out[..], at, Delivered(disk, old(pos), total))
      decreases total
    {
      hide Status, Delivered, SectorReads, Holds, SameElsewhere, ByteAt;
      var sector := pos / SECTOR_SIZE;
      var offset := pos % SECTOR_SIZE;
      var total_to_read := total;
      var overflow := offset + total_to_read >= SECTOR_SIZE;
      if overflow {
        total_to_read := total_to_read - (offset + total_to_read - SECTOR_SIZE);
      }
      var block := disk(sector);
      issued := issued + 1;
      StepFacts(disk, pos, total);
      HoldsNone(out[..], at, disk, pos);
      if block.Failed? {
        return block.code;
      }
      ghost var p, before := pos, out[..];
      CopyOut(block.bytes, offset, out, at, total_to_read, p);
      ghost var mid := out[..];
      pos := pos + total_to_read;
      res := 0;
      if overflow {
        res := Read(out, at + total_to_read, total - total_to_read);
        HoldsJoin(before, mid, out[..], at, total_to_read,
                  Delivered(disk, p + total_to_read, total - total_to_read), disk, p);
      }
    }

    /** The copy loop, inside one sector. */
    method CopyOut(bytes: Sector, offset: nat, out: array<byte>, at: nat, n: nat, ghost p: nat)
      requires at + n <= out.Length && offset + n <= SECTOR_SIZE
      requires p % SECTOR_SIZE == offset && disk(p / SECTOR_SIZE) == Data(bytes)
      modifies out
      ensures Holds(out[..], at, n, disk, p) && SameElsewhere(old(out[..]), out[..], at, n)
    {
      var i := 0;
      while i < n
        invariant 0 <= i <= n
        invariant Holds(out[..], at, i, disk, p) && SameElsewhere(old(out[..]), out[..], at, i)
      {
        SameSector(p, i);
        out[at + i] := bytes[offset + i];
        i := i + 1;
      }
    }
  }

  lemma HoldsNone(out: seq<byte>, at: nat, disk: Disk, p: nat)
    requires at <= |out|
    ensures Holds(out, at, 0, disk, p) && SameElsewhere(out, out, at, 0)
  {
  }

  /** The bytes of the first sector and of the rest form one slice. */
  lemma HoldsJoin(before: seq<byte>, mid: seq<byte>, out: seq<byte>, at: nat, n: nat, d: nat, disk: Disk, p: nat)
    requires Holds(mid, at, n, disk, p) && SameElsewhere(before, mid, at, n)
    requires Holds(out, at + n, d, disk, p + n) && SameElsewhere(mid, out, at + n, d)
    ensures Holds(out, at, n + d, disk, p) && SameElsewhere(before, out, at, n + d)
  {
    hide ByteAt;
    forall k | at <= k < at + (n + d)
      ensures out[k] == ByteAt(disk, p + (k - at))
    {
      if k < at + n {
        assert out[k] == mid[k];
      } else {
        assert p + n + (k - (at + n)) == p + (k - at);
      }
    }
  }

  lemma SameSector(p: nat, i: nat)
    requires p % SECTOR_SIZE + i < SECTOR_SIZE
    ensures (p + i) / SECTOR_SIZE == p / SECTOR_SIZE && (p + i) % SECTOR_SIZE == p % SECTOR_SIZE + i
  {
  }

  /** How a read splits at the end of its first sector. */
  lemma StepFacts(disk: Disk, pos: nat, total: nat)
    ensures var s, o := pos / SECTOR_SIZE, pos % SECTOR_SIZE;
            if disk(s).Failed? then
              Status(disk, pos, total) == disk(s).code && Delivered(disk, pos, total) == 0 && SectorReads(disk, pos, total) == 1
            else if o + total < SECTOR_SIZE then
              Status(disk, pos, total) == 0 && Delivered(disk, pos, total) == total && SectorReads(disk, pos, total) == 1
            else
              var n := SECTOR_SIZE - o;
              && Status(disk, pos, total) == Status(disk, pos + n, total - n)
              && Delivered(disk, pos, total) == n + Delivered(disk, pos + n, total - n)
              && SectorReads(disk, pos, total) == 1 + SectorReads(disk, pos + n, total - n)
  {
    var s, o := pos / SECTOR_SIZE, pos % SECTOR_SIZE;
    if disk(s).Data? && o + total >= SECTOR_SIZE {
      var n := SECTOR_SIZE - o;
      assert (pos + n) / SECTOR_SIZE == s + 1;
      assert LastSector(pos + n, total - n) == LastSector(pos, total) >= s + 1;
      assert Bad(disk, pos, total) == Bad(disk, pos + n, total - n);
    }
  }

  lemma {:induction false} FirstBadSplit(disk: Disk, a: nat, b: nat, c: nat)
    requires a <= b <= c
    ensures FirstBad(disk, a, c) == if FirstBad(disk, a, b) <= b then FirstBad(disk, a, b) else FirstBad(disk, b, c)
    decreases b - a
  {
    if a < b && disk(a).Data? {
      FirstBadSplit(disk, a + 1, b, c);
    }
  }

  /** Two reads one after the other fail where, and as, one read of both does. */
  lemma StatusSplit(disk: Disk, pos: nat, n: nat, m: nat)
    ensures Status(disk, pos, n + m) == if Status(disk, pos, n) != 0 then Status(disk, pos, n) else Status(disk, pos + n, m)
  {
    FirstBadSplit(disk, pos / SECTOR_SIZE, LastSector(pos, n), LastSector(pos, n + m));
    assert LastSector(pos + n, m) == LastSector(pos, n + m);
  }
}
