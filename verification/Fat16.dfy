/** Reading a file along its cluster chain, src/fs/fat/fat16.c, through a disk stream. */
module Fat16 {
  import opened Common
  import opened Bits
  import opened Streamer

  /** What the reader needs of the file system; next is fat16_get_fat_entry, taken as it comes. */
  datatype Volume = Volume(sectors_per_cluster: nat, data_sector: int, next: int -> int)

  /** A cluster has at least one sector, or the offset division fails. */
  predicate Mounted(v: Volume) {
    v.sectors_per_cluster > 0
  }

  function ClusterBytes(v: Volume): (n: nat)
    ensures Mounted(v) ==> n > 0
  {
    v.sectors_per_cluster * SECTOR_SIZE
  }

  /** Table entries that end a walk: end of chain, bad, reserved and unused. */
  predicate Stops(entry: int) {
    entry == 0xFF8 || entry == 0xFFF || entry == 0xFF7 || entry == 0xFF0 || entry == 0xFF6 || entry == 0
  }

  /** The cluster k links down the chain, or -EIO when the chain stops before. */
  function Walk(next: int -> int, cluster: int, k: nat): int
    decreases k
  {
    if k == 0 then cluster
    else if Stops(next(cluster)) then -EIO
    else Walk(next, next(cluster), k - 1)
  }

  function ClusterAt(v: Volume, cluster: int, offset: nat): int
    requires Mounted(v)
  {
    Walk(v.next, cluster, offset / ClusterBytes(v))
  }

  /** fat16_cluster_to_sector, in bytes. */
  function ClusterStart(v: Volume, cluster: int): int {
    (v.data_sector + (cluster - 2) * v.sectors_per_cluster) * SECTOR_SIZE
  }

  /** The disk position of byte `offset` of the file that starts at `cluster`. */
  function PositionOf(v: Volume, cluster: int, offset: nat): int
    requires Mounted(v)
  {
    ClusterStart(v, ClusterAt(v, cluster, offset)) + offset % ClusterBytes(v)
  }

  /** The bytes read in one step: at most a cluster, whatever the offset inside it. */
  function StepBytes(v: Volume, total: nat): nat {
    if total > ClusterBytes(v) then ClusterBytes(v) else total
  }

  /** The disk position that the reader uses for byte k of a request at `offset`. */
  function AddressRead(v: Volume, cluster: int, offset: nat, k: nat): int
    requires Mounted(v)
    decreases k
  {
    if k < ClusterBytes(v) then PositionOf(v, cluster, offset) + k
    else AddressRead(v, cluster, offset + ClusterBytes(v), k - ClusterBytes(v))
  }

  /** The byte at a disk position; file positions can lie before the disk only in a broken volume. */
  function DiskByte(disk: Disk, a: int): byte {
    if a < 0 then 0 else ByteAt(disk, a)
  }

  /** Every step stays within the non-negative C ints. */
  predicate WithinInts(v: Volume, cluster: int, offset: nat, total: nat)
    requires Mounted(v)
    decreases total
  {
    && (ClusterAt(v, cluster, offset) >= 0 ==>
          0 <= PositionOf(v, cluster, offset) && PositionOf(v, cluster, offset) + StepBytes(v, total) < INT_LIMIT)
    && (total > ClusterBytes(v) ==> WithinInts(v, cluster, offset + ClusterBytes(v), total - ClusterBytes(v)))
  }

  /** The result: the error of the first step that fails, or 0. */
  function ReadStatus(v: Volume, disk: Disk, cluster: int, offset: nat, total: nat): int
    requires Mounted(v) && WithinInts(v, cluster, offset, total)
    decreases total
  {
    var c := ClusterAt(v, cluster, offset);
    if c < 0 then c
    else
      var st := Status(disk, PositionOf(v, cluster, offset), StepBytes(v, total));
      if st != 0 || total <= ClusterBytes(v) then st
      else ReadStatus(v, disk, cluster, offset + ClusterBytes(v), total - ClusterBytes(v))
  }

  /** Bytes at..at+total of the buffer come from the positions the reader used. */
  ghost predicate Filled(out: seq<byte>, at: nat, total: nat, v: Volume, disk: Disk, cluster: int, offset: nat)
    requires Mounted(v)
  {
    at + total <= |out| &&
    forall x :: at <= x < at + total ==> out[x] == DiskByte(disk, AddressRead(v, cluster, offset, x - at))
  }

  method GetClusterForOffset(v: Volume, starting_cluster: int, offset: nat) returns (res: int)
    requires Mounted(v)
    ensures res == ClusterAt(v, starting_cluster, offset)
  {
    var cluster_to_use := starting_cluster;
    var clusters_ahead := offset / ClusterBytes(v);
    var i := 0;
    while i < clusters_ahead
      invariant 0 <= i <= clusters_ahead
      invariant Walk(v.next, cluster_to_use, clusters_ahead - i) == ClusterAt(v, starting_cluster, offset)
    {
      var entry := v.next(cluster_to_use);
      if entry == 0xFF8 || entry == 0xFFF {
        return -EIO;
      }
      if entry == 0xFF7 {
        return -EIO;
      }
      if entry == 0xFF0 || entry == 0xFF6 {
        return -EIO;
      }
      if entry == 0x00 {
        return -EIO;
      }
      cluster_to_use := entry;
      i := i + 1;
    }
    return cluster_to_use;
  }

  /** fat16_read_internal_from_stream. */
  method ReadInternal(v: Volume, stream: DiskStream, cluster: int, offset: nat, total: nat, out: array<byte>, at: nat)
    returns (res: int)
    requires Mounted(v) && WithinInts(v, cluster, offset, total) && at + total <= out.Length
    modifies stream`pos, stream`issued, out
    ensures res == ReadStatus(v, stream.disk, cluster, offset, total)
    ensures res == 0 ==> Filled(out[..], at, total, v, stream.disk, cluster, offset)
    ensures SameElsewhere(old(out[..]), out[..], at, total)
    decreases total
  {
    hide Status, Delivered, SectorReads, Holds, SameElsewhere, ByteAt, PositionOf, Filled;
    NoChange(out[..], at, total);
    var cluster_to_use := GetClusterForOffset(v, cluster, offset);
    if cluster_to_use < 0 {
      return cluster_to_use;
    }
    var starting_pos := ClusterStart(v, cluster_to_use) + offset % ClusterBytes(v);
    assert starting_pos == PositionOf(v, cluster, offset) by { PositionIs(v, cluster, offset); }
    var total_to_read := if total > ClusterBytes(v) then ClusterBytes(v) else total;
    ghost var before := out[..];
    stream.Seek(starting_pos);
    res := stream.Read(out, at, total_to_read);
    ReadParts(stream.disk, starting_pos, total_to_read);
    ghost var mid := out[..];
    Wider(before, mid, at, Delivered(stream.disk, starting_pos, total_to_read), total);
    if res != 0 {
      return;
    }
    FilledStep(mid, at, total_to_read, v, stream.disk, cluster, offset);
    var rest := total - total_to_read;
    if rest > 0 {
      res := ReadInternal(v, stream, cluster, offset + total_to_read, rest, out, at + total_to_read);
      SameJoin(before, mid, out[..], at, total_to_read, rest);
      if res == 0 {
        FilledJoin(mid, out[..], at, rest, v, stream.disk, cluster, offset);
      }
    }
  }

  lemma NoChange(out: seq<byte>, at: nat, n: nat)
    ensures SameElsewhere(out, out, at, n)
  {
  }

  lemma PositionIs(v: Volume, cluster: int, offset: nat)
    requires Mounted(v)
    ensures PositionOf(v, cluster, offset) == ClusterStart(v, ClusterAt(v, cluster, offset)) + offset % ClusterBytes(v)
  {
  }

  lemma ReadParts(disk: Disk, pos: nat, n: nat)
    ensures Delivered(disk, pos, n) <= n && (Status(disk, pos, n) == 0 ==> Delivered(disk, pos, n) == n)
  {
  }

  lemma Wider(before: seq<byte>, after: seq<byte>, at: nat, n: nat, n': nat)
    requires SameElsewhere(before, after, at, n) && n <= n'
    ensures SameElsewhere(before, after, at, n')
  {
  }

  lemma SameJoin(before: seq<byte>, mid: seq<byte>, out: seq<byte>, at: nat, n: nat, d: nat)
    requires SameElsewhere(before, mid, at, n + d) && SameElsewhere(mid, out, at + n, d)
    ensures SameElsewhere(before, out, at, n + d)
  {
  }

  lemma FilledStep(out: seq<byte>, at: nat, n: nat, v: Volume, disk: Disk, cluster: int, offset: nat)
    requires Mounted(v) && n <= ClusterBytes(v) && PositionOf(v, cluster, offset) >= 0
    requires Holds(out, at, n, disk, PositionOf(v, cluster, offset))
    ensures Filled(out, at, n, v, disk, cluster, offset)
  {
    hide PositionOf, ByteAt;
  }

  lemma FilledJoin(mid: seq<byte>, out: seq<byte>, at: nat, rest: nat, v: Volume, disk: Disk, cluster: int, offset: nat)
    requires Mounted(v) && Filled(mid, at, ClusterBytes(v), v, disk, cluster, offset)
    requires SameElsewhere(mid, out, at + ClusterBytes(v), rest)
    requires Filled(out, at + ClusterBytes(v), rest, v, disk, cluster, offset + ClusterBytes(v))
    ensures Filled(out, at, ClusterBytes(v) + rest, v, disk, cluster, offset)
  {
    hide PositionOf, DiskByte;
    var n := ClusterBytes(v);
    forall x | at <= x < at + (n + rest)
      ensures out[x] == DiskByte(disk, AddressRead(v, cluster, offset, x - at))
    {
      if x < at + n {
        assert out[x] == mid[x];
      } else {
        assert x - at - n == x - (at + n);
      }
    }
  }

  // ---------- when the reader returns the file ----------

  /** Byte k of the request comes from where the chain puts it. */
  ghost predicate ByteRight(v: Volume, cluster: int, offset: nat, k: nat)
    requires Mounted(v)
  {
    AddressRead(v, cluster, offset, k) == PositionOf(v, cluster, offset + k)
  }

  /** Every byte comes from where the chain puts it. */
  ghost predicate ReadsTheFile(v: Volume, cluster: int, offset: nat, total: nat)
    requires Mounted(v)
  {
    forall k :: 0 <= k < total ==> ByteRight(v, cluster, offset, k)
  }

  /** A step that starts inside a cluster and runs over its end needs the next cluster of the chain right behind it. */
  predicate CrossesOnlyAdjacent(v: Volume, cluster: int, offset: nat, total: nat)
    requires Mounted(v)
    decreases total
  {
    && StepAdjacent(v, cluster, offset, StepBytes(v, total))
    && (total > ClusterBytes(v) ==> CrossesOnlyAdjacent(v, cluster, offset + ClusterBytes(v), total - ClusterBytes(v)))
  }

  /** Division when the offset moves on by k less than a cluster. */
  lemma OffsetPlus(o: nat, k: nat, n: nat)
    requires n > 0 && k <= n
    ensures o % n + k < n ==> (o + k) / n == o / n && (o + k) % n == o % n + k
    ensures o % n + k >= n ==> (o + k) / n == o / n + 1 && (o + k) % n == o % n + k - n
  {
    var q, r := o / n, o % n;
    assert o + k == n * q + (r + k);
    if r + k < n {
      DivModUnique(o + k, n, q, r + k);
    } else {
      assert n * (q + 1) == n * q + n;
      DivModUnique(o + k, n, q + 1, r + k - n);
    }
  }

  lemma ClusterDistance(v: Volume, c: int, d: int)
    requires Mounted(v)
    ensures ClusterStart(v, d) == ClusterStart(v, c) + ClusterBytes(v) <==> d == c + 1
    ensures ClusterStart(v, d) == ClusterStart(v, c) + (d - c) * ClusterBytes(v)
  {
    var n := v.sectors_per_cluster;
    assert (d - 2) * n - (c - 2) * n == (d - c) * n;
    assert ((d - c) * n) * SECTOR_SIZE == (d - c) * (n * SECTOR_SIZE);
    if d - c >= 2 { assert (d - c) * ClusterBytes(v) >= 2 * ClusterBytes(v); }
    if d - c <= 0 { assert (d - c) * ClusterBytes(v) <= 0; }
  }

  /** Inside one step, byte k comes from the right place unless it lies past the end of a cluster that is not followed by its successor. */
  lemma StepPosition(v: Volume, cluster: int, offset: nat, k: nat)
    requires Mounted(v) && k < ClusterBytes(v)
    ensures PositionOf(v, cluster, offset) + k == PositionOf(v, cluster, offset + k)
            <==> (offset % ClusterBytes(v) + k < ClusterBytes(v)
                  || Walk(v.next, cluster, offset / ClusterBytes(v) + 1) == Walk(v.next, cluster, offset / ClusterBytes(v)) + 1)
  {
    hide Walk, ClusterStart, ClusterBytes;
    var n := ClusterBytes(v);
    OffsetPlus(offset, k, n);
    ClusterDistance(v, Walk(v.next, cluster, offset / n), Walk(v.next, cluster, offset / n + 1));
  }

  /** The condition for the step at `offset` that reads m bytes. */
  predicate StepAdjacent(v: Volume, cluster: int, offset: nat, m: nat)
    requires Mounted(v)
  {
    var q := offset / ClusterBytes(v);
    offset % ClusterBytes(v) + m > ClusterBytes(v) ==> Walk(v.next, cluster, q + 1) == Walk(v.next, cluster, q) + 1
  }

  lemma StepExactly(v: Volume, cluster: int, offset: nat, m: nat)
    requires Mounted(v) && m <= ClusterBytes(v)
    ensures (forall k :: 0 <= k < m ==> ByteRight(v, cluster, offset, k)) <==> StepAdjacent(v, cluster, offset, m)
  {
    hide Walk, PositionOf, ClusterBytes;
    var n := ClusterBytes(v);
    forall k: nat | k < m
      ensures ByteRight(v, cluster, offset, k)
              <==> (offset % n + k < n || Walk(v.next, cluster, offset / n + 1) == Walk(v.next, cluster, offset / n) + 1)
    {
      StepPosition(v, cluster, offset, k);
    }
    if offset % n + m > n {
      assert ByteRight(v, cluster, offset, m - 1)
             <==> Walk(v.next, cluster, offset / n + 1) == Walk(v.next, cluster, offset / n) + 1;
    }
  }

  lemma LaterByte(v: Volume, cluster: int, offset: nat, k: nat)
    requires Mounted(v) && k >= ClusterBytes(v)
    ensures ByteRight(v, cluster, offset, k) <==> ByteRight(v, cluster, offset + ClusterBytes(v), k - ClusterBytes(v))
  {
    hide PositionOf;
    assert offset + ClusterBytes(v) + (k - ClusterBytes(v)) == offset + k;
  }

  /** The reader returns the bytes of the file exactly when every step that crosses a cluster end does so between adjacent clusters. */
  lemma {:induction false} ReadsTheFileExactly(v: Volume, cluster: int, offset: nat, total: nat)
    requires Mounted(v)
    ensures ReadsTheFile(v, cluster, offset, total) <==> CrossesOnlyAdjacent(v, cluster, offset, total)
    decreases total
  {
    hide Walk, PositionOf, ClusterBytes, ByteRight;
    var n := ClusterBytes(v);
    StepExactly(v, cluster, offset, StepBytes(v, total));
    if total > n {
      var later := offset + n;
      ReadsTheFileExactly(v, cluster, later, total - n);
      forall k: nat | k < total && k >= n
        ensures ByteRight(v, cluster, offset, k) <==> ByteRight(v, cluster, later, k - n)
      {
        LaterByte(v, cluster, offset, k);
      }
      forall k: nat | k < total - n && ReadsTheFile(v, cluster, offset, total)
        ensures ByteRight(v, cluster, later, k)
      {
        assert ByteRight(v, cluster, offset, k + n);
      }
    }
  }

  // ---------- the file ----------

  /**
   Cluster c of the data area, which starts at data_sector: the clusters follow one
   another from number 2 on, and each has sectors_per_cluster sectors of 512 bytes.
   */
  ghost function ClusterData(v: Volume, disk: Disk, c: int): (bytes: seq<byte>)
    ensures |bytes| == v.sectors_per_cluster * 512
  {
    var n := v.sectors_per_cluster * 512;
    seq<byte>(n, j requires 0 <= j < n => DiskByte(disk, v.data_sector * 512 + (c - 2) * n + j))
  }

  /** The file: the clusters of the first links of its chain, one after the other. */
  ghost function FileData(v: Volume, disk: Disk, cluster: int, links: nat): seq<byte> {
    if links == 0 then []
    else FileData(v, disk, cluster, links - 1) + ClusterData(v, disk, Walk(v.next, cluster, links - 1))
  }

  /** The file reaches up to byte `end` in that many clusters. */
  predicate Reaches(v: Volume, links: nat, end: nat) {
    end <= links * (v.sectors_per_cluster * 512)
  }

  lemma ClusterByte(v: Volume, disk: Disk, c: int, j: nat)
    requires j < v.sectors_per_cluster * 512
    ensures ClusterData(v, disk, c)[j] == DiskByte(disk, ClusterStart(v, c) + j)
  {
    hide DiskByte;
    assert ((c - 2) * v.sectors_per_cluster) * 512 == (c - 2) * (v.sectors_per_cluster * 512);
  }

  /** Byte x of the file is at the position where the chain puts it. */
  lemma {:induction false} FileByte(v: Volume, disk: Disk, cluster: int, links: nat, x: nat)
    requires Mounted(v) && x < links * ClusterBytes(v)
    ensures |FileData(v, disk, cluster, links)| == links * ClusterBytes(v)
    ensures FileData(v, disk, cluster, links)[x] == DiskByte(disk, PositionOf(v, cluster, x))
    decreases links
  {
    var n := ClusterBytes(v);
    var before := (links - 1) * n;
    assert n == v.sectors_per_cluster * 512 && links * n == before + n;
    FileLength(v, disk, cluster, links);
    FileLength(v, disk, cluster, links - 1);
    hide Walk, ClusterStart, ClusterData, DiskByte, ClusterBytes;
    if x < before {
      FileByte(v, disk, cluster, links - 1, x);
    } else {
      DivModUnique(x, n, links - 1, x - before);
      ClusterByte(v, disk, Walk(v.next, cluster, links - 1), x - before);
    }
  }

  lemma {:induction false} FileLength(v: Volume, disk: Disk, cluster: int, links: nat)
    ensures |FileData(v, disk, cluster, links)| == links * ClusterBytes(v)
  {
    if links > 0 {
      FileLength(v, disk, cluster, links - 1);
      assert links * ClusterBytes(v) == (links - 1) * ClusterBytes(v) + ClusterBytes(v);
    }
  }

  /** The bytes of the file from offset on, total of them. */
  ghost predicate IsSlice(bytes: seq<byte>, v: Volume, disk: Disk, cluster: int, offset: nat, total: nat) {
    |bytes| == total && forall links :: Reaches(v, links, offset + total) ==> SliceOf(bytes, FileData(v, disk, cluster, links), offset)
  }

  ghost predicate SliceOf(bytes: seq<byte>, file: seq<byte>, offset: nat) {
    offset + |bytes| <= |file| && bytes == file[offset..offset + |bytes|]
  }

  lemma PositionsAreSlice(bytes: seq<byte>, v: Volume, disk: Disk, cluster: int, offset: nat)
    requires Mounted(v)
    requires forall k :: 0 <= k < |bytes| ==> bytes[k] == DiskByte(disk, PositionOf(v, cluster, offset + k))
    ensures IsSlice(bytes, v, disk, cluster, offset, |bytes|)
  {
    hide DiskByte, PositionOf;
    forall links: nat | Reaches(v, links, offset + |bytes|)
      ensures SliceOf(bytes, FileData(v, disk, cluster, links), offset)
    {
      assert links * ClusterBytes(v) == links * (v.sectors_per_cluster * 512);
      FileLength(v, disk, cluster, links);
      hide FileData;
      forall k: nat | k < |bytes|
        ensures FileData(v, disk, cluster, links)[offset + k] == bytes[k]
      {
        FileByte(v, disk, cluster, links, offset + k);
      }
    }
  }

  /** A successful read under that condition: the buffer holds bytes offset..offset+total of the file. */
  lemma FileSlice(out: seq<byte>, at: nat, total: nat, v: Volume, disk: Disk, cluster: int, offset: nat)
    requires Mounted(v) && Filled(out, at, total, v, disk, cluster, offset) && CrossesOnlyAdjacent(v, cluster, offset, total)
    ensures IsSlice(out[at..at + total], v, disk, cluster, offset, total)
  {
    hide PositionOf, AddressRead, DiskByte, CrossesOnlyAdjacent, ClusterBytes, IsSlice;
    ReadsTheFileExactly(v, cluster, offset, total);
    var bytes := out[at..at + total];
    forall k: nat | k < total
      ensures bytes[k] == DiskByte(disk, PositionOf(v, cluster, offset + k))
    {
      assert out[at + k] == DiskByte(disk, AddressRead(v, cluster, offset, (at + k) - at));
      assert ByteRight(v, cluster, offset, k);
    }
    PositionsAreSlice(bytes, v, disk, cluster, offset);
  }

  /** fat16_read_internal: on success, and if no step leaves a cluster for one that is not next to it, the slice of the file. */
  method ReadFile(v: Volume, stream: DiskStream, cluster: int, offset: nat, total: nat, out: array<byte>, at: nat) returns (res: int)
    requires Mounted(v) && WithinInts(v, cluster, offset, total) && at + total <= out.Length
    modifies stream`pos, stream`issued, out
    ensures res == ReadStatus(v, stream.disk, cluster, offset, total)
    ensures res == 0 ==> Filled(out[..], at, total, v, stream.disk, cluster, offset)
    ensures res == 0 && CrossesOnlyAdjacent(v, cluster, offset, total) ==>
              IsSlice(out[at..at + total], v, stream.disk, cluster, offset, total)
    ensures SameElsewhere(old(out[..]), out[..], at, total)
  {
    hide Filled, SameElsewhere, ReadStatus, WithinInts, IsSlice, CrossesOnlyAdjacent;
    res := ReadInternal(v, stream, cluster, offset, total, out, at);
    if res == 0 && CrossesOnlyAdjacent(v, cluster, offset, total) {
      FileSlice(out[..], at, total, v, stream.disk, cluster, offset);
      assert out[..][at..at + total] == out[at..at + total];
    }
  }

  /** Enough: an aligned offset, or a request inside one cluster. */
  lemma {:induction false} AlignedOrInside(v: Volume, cluster: int, offset: nat, total: nat)
    requires Mounted(v)
    requires offset % ClusterBytes(v) == 0 || offset % ClusterBytes(v) + total <= ClusterBytes(v)
    ensures CrossesOnlyAdjacent(v, cluster, offset, total)
    decreases total
  {
    var n := ClusterBytes(v);
    if total > n {
      OffsetPlus(offset, n, n);
      AlignedOrInside(v, cluster, offset + n, total - n);
    }
  }

  // ---------- consecutive chains and fat16_read ----------

  /** The chain occupies clusters one after the other, for the first n links. */
  ghost predicate Consecutive(v: Volume, cluster: int, n: nat) {
    forall k :: 0 <= k <= n ==> Walk(v.next, cluster, k) == cluster + k
  }

  lemma ConsecutivePosition(v: Volume, cluster: int, offset: nat)
    requires Mounted(v) && Walk(v.next, cluster, offset / ClusterBytes(v)) == cluster + offset / ClusterBytes(v)
    ensures PositionOf(v, cluster, offset) == ClusterStart(v, cluster) + offset
  {
    hide Walk, ClusterStart, ClusterBytes;
    var n := ClusterBytes(v);
    ClusterDistance(v, cluster, cluster + offset / n);
    assert offset == n * (offset / n) + offset % n;
  }

  /** On a consecutive chain every byte is read from one stretch of the disk. */
  lemma {:induction false} ConsecutiveRead(v: Volume, cluster: int, offset: nat, k: nat, links: nat)
    requires Mounted(v) && Consecutive(v, cluster, links) && (offset + k) / ClusterBytes(v) <= links
    ensures AddressRead(v, cluster, offset, k) == ClusterStart(v, cluster) + offset + k
    decreases k
  {
    hide Walk, ClusterStart, ClusterBytes;
    var n := ClusterBytes(v);
    if k < n {
      OffsetPlus(offset, k, n);
      ConsecutivePosition(v, cluster, offset);
    } else {
      assert offset + n + (k - n) == offset + k;
      ConsecutiveRead(v, cluster, offset + n, k - n, links);
    }
  }

  /** The last byte of the request lies within the first links of the chain. */
  predicate Spans(v: Volume, links: nat, offset: nat, total: nat)
    requires Mounted(v)
  {
    total > 0 ==> (offset + total - 1) / ClusterBytes(v) <= links
  }

  /** The bytes of nmemb members of `size` bytes, each read by its own request. */
  ghost function Members(v: Volume, disk: Disk, cluster: int, offset: nat, size: nat, nmemb: nat): seq<byte>
    requires Mounted(v)
    decreases nmemb
  {
    if nmemb == 0 then []
    else Requested(v, disk, cluster, offset, size) + Members(v, disk, cluster, offset + size, size, nmemb - 1)
  }

  ghost function Requested(v: Volume, disk: Disk, cluster: int, offset: nat, total: nat): seq<byte>
    requires Mounted(v)
  {
    seq<byte>(total, k requires 0 <= k < total => DiskByte(disk, AddressRead(v, cluster, offset, k)))
  }

  /** On a consecutive chain, reading member by member gives what one read of the whole gives. */
  lemma {:induction false} MembersAreOneRead(v: Volume, disk: Disk, cluster: int, offset: nat, size: nat, nmemb: nat, links: nat)
    requires Mounted(v) && Consecutive(v, cluster, links) && Spans(v, links, offset, nmemb * size)
    ensures Members(v, disk, cluster, offset, size, nmemb) == Requested(v, disk, cluster, offset, nmemb * size)
    decreases nmemb
  {
    hide Walk, ClusterStart, ClusterBytes, DiskByte;
    var n, all := ClusterBytes(v), nmemb * size;
    forall o: nat, k: nat | offset <= o && o + k < offset + all
      ensures AddressRead(v, cluster, o, k) == ClusterStart(v, cluster) + o + k
    {
      assert Spans(v, links, offset, all);
      DivMonotone(o + k, offset + all - 1, n);
      ConsecutiveRead(v, cluster, o, k, links);
    }
    if nmemb > 0 {
      var rest := (nmemb - 1) * size;
      assert all == size + rest && offset + size + rest == offset + all;
      MembersAreOneRead(v, disk, cluster, offset + size, size, nmemb - 1, links);
      var whole := Requested(v, disk, cluster, offset, all);
      var front, back := Requested(v, disk, cluster, offset, size), Requested(v, disk, cluster, offset + size, rest);
      forall k: nat | k < all
        ensures whole[k] == (front + back)[k]
      {
        assert AddressRead(v, cluster, offset, k) == ClusterStart(v, cluster) + offset + k;
        if k >= size {
          assert AddressRead(v, cluster, offset + size, k - size) == ClusterStart(v, cluster) + (offset + size) + (k - size);
        }
      }
    } else {
      assert all == 0;
    }
  }

  lemma DivMonotone(x: nat, y: nat, n: nat)
    requires n > 0 && x <= y
    ensures x / n <= y / n
  {
    var a, b := x / n, y / n;
    assert n * a <= x <= y < n * b + n;
    Multiple(n, a - b);
    assert n * (a - b) == n * a - n * b;
  }

  /** Every request of fat16_read stays in range. */
  predicate MembersWithinInts(v: Volume, cluster: int, offset: nat, size: nat, nmemb: nat)
    requires Mounted(v)
    decreases nmemb
  {
    nmemb > 0 ==> WithinInts(v, cluster, offset, size) && MembersWithinInts(v, cluster, offset + size, size, nmemb - 1)
  }

  /** The error of the first member that fails, or 0. */
  function MembersStatus(v: Volume, disk: Disk, cluster: int, offset: nat, size: nat, nmemb: nat): int
    requires Mounted(v) && MembersWithinInts(v, cluster, offset, size, nmemb)
    decreases nmemb
  {
    if nmemb == 0 then 0
    else
      var st := ReadStatus(v, disk, cluster, offset, size);
      if st < 0 then st else MembersStatus(v, disk, cluster, offset + size, size, nmemb - 1)
  }

  /** The members read before the first one that fails. */
  function MembersDone(v: Volume, disk: Disk, cluster: int, offset: nat, size: nat, nmemb: nat): (n: nat)
    requires Mounted(v) && MembersWithinInts(v, cluster, offset, size, nmemb)
    ensures n <= nmemb
    ensures n == nmemb <==> MembersStatus(v, disk, cluster, offset, size, nmemb) >= 0
    decreases nmemb
  {
    if nmemb == 0 || ReadStatus(v, disk, cluster, offset, size) < 0 then 0
    else 1 + MembersDone(v, disk, cluster, offset + size, size, nmemb - 1)
  }

  /**
   fat16_read: nmemb, or the error of the first member that fails.  The members
   before it are in the buffer, and nothing behind it is touched.
   */
  method FatRead(v: Volume, stream: DiskStream, first_cluster: int, pos: nat, size: nat, nmemb: nat, out: array<byte>)
    returns (res: int)
    requires Mounted(v) && MembersWithinInts(v, first_cluster, pos, size, nmemb) && nmemb * size <= out.Length
    modifies stream`pos, stream`issued, out
    ensures var st := MembersStatus(v, stream.disk, first_cluster, pos, size, nmemb);
            res == if st < 0 then st else nmemb
    ensures var done := MembersDone(v, stream.disk, first_cluster, pos, size, nmemb);
            && done * size <= out.Length
            && out[..done * size] == Members(v, stream.disk, first_cluster, pos, size, done)
            && SameElsewhere(old(out[..]), out[..], 0, if done < nmemb then (done + 1) * size else done * size)
            && (MembersCross(v, first_cluster, pos, size, nmemb) ==>
                  IsSlice(out[..done * size], v, stream.disk, first_cluster, pos, done * size))
  {
    hide Filled, SameElsewhere, DiskByte, ReadStatus, WithinInts, Requested, Members, IsSlice, MembersCross;
    MembersSlice(v, stream.disk, first_cluster, pos, size, MembersDone(v, stream.disk, first_cluster, pos, size, nmemb), nmemb);
    var offset, at := pos, 0;
    var i := 0;
    SpanIs(nmemb, size);
    NoMembers(v, stream.disk, first_cluster, pos, size);
    NoChange(out[..], 0, 0);
    while i < nmemb
      invariant 0 <= i <= nmemb && at == Span(i, size) && offset == pos + at
      invariant MembersWithinInts(v, first_cluster, offset, size, nmemb - i)
      invariant Span(nmemb, size) == at + Span(nmemb - i, size)
      invariant MembersStatus(v, stream.disk, first_cluster, offset, size, nmemb - i)
                == MembersStatus(v, stream.disk, first_cluster, pos, size, nmemb)
      invariant MembersDone(v, stream.disk, first_cluster, pos, size, nmemb)
                == i + MembersDone(v, stream.disk, first_cluster, offset, size, nmemb - i)
      invariant out[..at] == Members(v, stream.disk, first_cluster, pos, size, i)
      invariant SameElsewhere(old(out[..]), out[..], 0, at)
    {
      ghost var before := out[..];
      StatusNotPositive(v, stream.disk, first_cluster, offset, size);
      SpanNext(i, size);
      res := ReadFile(v, stream, first_cluster, offset, size, out, at);
      SameThen(old(out[..]), before, out[..], at, size);
      if res < 0 {
        SpanIs(i, size);
        SpanIs(i + 1, size);
        return;
      }
      MemberRead(before, out[..], at, size, v, stream.disk, first_cluster, offset);
      MembersNext(v, stream.disk, first_cluster, pos, size, i);
      at := at + size;
      offset := offset + size;
      i := i + 1;
    }
    res := nmemb;
  }

  /** No member leaves a cluster for one that is not next to it. */
  predicate MembersCross(v: Volume, cluster: int, offset: nat, size: nat, nmemb: nat)
    requires Mounted(v)
    decreases nmemb
  {
    nmemb > 0 ==> CrossesOnlyAdjacent(v, cluster, offset, size) && MembersCross(v, cluster, offset + size, size, nmemb - 1)
  }

  /** Then the members together are the slice of the file. */
  lemma MembersSlice(v: Volume, disk: Disk, cluster: int, offset: nat, size: nat, done: nat, nmemb: nat)
    requires Mounted(v) && done <= nmemb
    ensures MembersCross(v, cluster, offset, size, nmemb) ==>
              IsSlice(Members(v, disk, cluster, offset, size, done), v, disk, cluster, offset, done * size)
  {
    hide PositionOf, DiskByte, IsSlice, Members, MembersCross;
    if MembersCross(v, cluster, offset, size, nmemb) {
      var bytes := Members(v, disk, cluster, offset, size, done);
      SpanIs(done, size);
      MembersPositions(v, disk, cluster, offset, size, done, nmemb);
      PositionsAreSlice(bytes, v, disk, cluster, offset);
    }
  }

  lemma {:induction false} MembersPositions(v: Volume, disk: Disk, cluster: int, offset: nat, size: nat, done: nat, nmemb: nat)
    requires Mounted(v) && done <= nmemb && MembersCross(v, cluster, offset, size, nmemb)
    ensures var bytes := Members(v, disk, cluster, offset, size, done);
            && |bytes| == Span(done, size)
            && forall k :: 0 <= k < |bytes| ==> bytes[k] == DiskByte(disk, PositionOf(v, cluster, offset + k))
    decreases done
  {
    hide PositionOf, DiskByte, AddressRead, CrossesOnlyAdjacent;
    if done > 0 {
      var first, rest := Requested(v, disk, cluster, offset, size), Members(v, disk, cluster, offset + size, size, done - 1);
      MembersPositions(v, disk, cluster, offset + size, size, done - 1, nmemb - 1);
      ReadsTheFileExactly(v, cluster, offset, size);
      forall k: nat | k < size + |rest|
        ensures (first + rest)[k] == DiskByte(disk, PositionOf(v, cluster, offset + k))
      {
        if k < size {
          assert ByteRight(v, cluster, offset, k);
        } else {
          assert rest[k - size] == DiskByte(disk, PositionOf(v, cluster, offset + size + (k - size)));
        }
      }
    }
  }

  lemma NoMembers(v: Volume, disk: Disk, cluster: int, offset: nat, size: nat)
    requires Mounted(v)
    ensures Members(v, disk, cluster, offset, size, 0) == []
  {
  }

  lemma {:induction false} SpanNext(n: nat, size: nat)
    ensures Span(n + 1, size) == Span(n, size) + size
  {
  }

  /** Only the next member changes, and the earlier ones stay. */
  lemma SameThen(first: seq<byte>, before: seq<byte>, out: seq<byte>, at: nat, size: nat)
    requires SameElsewhere(first, before, 0, at) && SameElsewhere(before, out, at, size) && at + size <= |out|
    ensures SameElsewhere(first, out, 0, at + size) && out[..at] == before[..at]
  {
  }

  lemma {:induction false} MembersNext(v: Volume, disk: Disk, cluster: int, offset: nat, size: nat, n: nat)
    requires Mounted(v)
    ensures Members(v, disk, cluster, offset, size, n + 1)
            == Members(v, disk, cluster, offset, size, n) + Requested(v, disk, cluster, offset + Span(n, size), size)
    decreases n
  {
    hide Requested;
    if n > 0 {
      MembersNext(v, disk, cluster, offset + size, size, n - 1);
      assert offset + size + Span(n - 1, size) == offset + Span(n, size);
    }
  }

  function Span(n: nat, size: nat): nat {
    if n == 0 then 0 else size + Span(n - 1, size)
  }

  lemma {:induction false} SpanIs(n: nat, size: nat)
    ensures Span(n, size) == n * size
  {
    if n > 0 {
      SpanIs(n - 1, size);
      assert n * size == size + (n - 1) * size;
    }
  }

  lemma MemberRead(before: seq<byte>, out: seq<byte>, at: nat, size: nat, v: Volume, disk: Disk, cluster: int, offset: nat)
    requires Mounted(v) && Filled(out, at, size, v, disk, cluster, offset) && SameElsewhere(before, out, at, size)
    ensures at + size <= |out| == |before|
    ensures out[..at + size] == before[..at] + Requested(v, disk, cluster, offset, size)
  {
    hide DiskByte, AddressRead;
  }

  lemma {:induction false} StatusNotPositive(v: Volume, disk: Disk, cluster: int, offset: nat, total: nat)
    requires Mounted(v) && WithinInts(v, cluster, offset, total)
    ensures ReadStatus(v, disk, cluster, offset, total) <= 0
    decreases total
  {
    if total > ClusterBytes(v) {
      StatusNotPositive(v, disk, cluster, offset + ClusterBytes(v), total - ClusterBytes(v));
    }
  }

  // ---------- errors on consecutive chains ----------

  /** A request that spans some bytes of a consecutive chain fails as one read of that stretch of the disk. */
  lemma {:induction false} ConsecutiveStatus(v: Volume, disk: Disk, cluster: int, offset: nat, total: nat, links: nat)
    requires Mounted(v) && Consecutive(v, cluster, links) && WithinInts(v, cluster, offset, total)
    requires total > 0 && Spans(v, links, offset, total)
    ensures var c, p := cluster + offset / ClusterBytes(v), ClusterStart(v, cluster) + offset;
            if c < 0 then ReadStatus(v, disk, cluster, offset, total) == c
            else p >= 0 && ReadStatus(v, disk, cluster, offset, total) == Status(disk, p, total)
    decreases total
  {
    hide Walk, ClusterStart, ClusterBytes, Status;
    var n := ClusterBytes(v);
    DivMonotone(offset, offset + total - 1, n);
    ConsecutivePosition(v, cluster, offset);
    if total > n {
      OffsetPlus(offset, n, n);
      ConsecutiveStatus(v, disk, cluster, offset + n, total - n, links);
      var c, p := cluster + offset / n, ClusterStart(v, cluster) + offset;
      if c >= 0 {
        StatusSplit(disk, p, n, total - n);
      }
    }
  }

  lemma SpansParts(v: Volume, links: nat, offset: nat, n: nat, m: nat)
    requires Mounted(v) && Spans(v, links, offset, n + m)
    ensures Spans(v, links, offset, n) && Spans(v, links, offset + n, m)
  {
    if n > 0 {
      DivMonotone(offset + n - 1, offset + n + m - 1, ClusterBytes(v));
    }
  }

  lemma {:induction false} MembersStatusIs(v: Volume, disk: Disk, cluster: int, offset: nat, size: nat, nmemb: nat, links: nat)
    requires Mounted(v) && Consecutive(v, cluster, links) && nmemb > 0 && size > 0 && Spans(v, links, offset, Span(nmemb, size))
    requires MembersWithinInts(v, cluster, offset, size, nmemb)
    ensures var c, p := cluster + offset / ClusterBytes(v), ClusterStart(v, cluster) + offset;
            if c < 0 then MembersStatus(v, disk, cluster, offset, size, nmemb) == c
            else p >= 0 && MembersStatus(v, disk, cluster, offset, size, nmemb) == Status(disk, p, Span(nmemb, size))
    decreases nmemb
  {
    hide Walk, ClusterStart, ClusterBytes, Status, ReadStatus, WithinInts, Spans, Consecutive;
    var n, rest := ClusterBytes(v), Span(nmemb - 1, size);
    SpansParts(v, links, offset, size, rest);
    ConsecutiveStatus(v, disk, cluster, offset, size, links);
    StatusNotPositive(v, disk, cluster, offset, size);
    if nmemb > 1 {
      MembersStatusIs(v, disk, cluster, offset + size, size, nmemb - 1, links);
      DivMonotone(offset, offset + size, n);
      var c, p := cluster + offset / n, ClusterStart(v, cluster) + offset;
      if c >= 0 {
        StatusSplit(disk, p, size, rest);
      }
    }
  }

  lemma {:induction false} EmptyMembers(v: Volume, disk: Disk, cluster: int, offset: nat, nmemb: nat)
    requires Mounted(v) && nmemb > 0 && MembersWithinInts(v, cluster, offset, 0, nmemb)
    ensures MembersStatus(v, disk, cluster, offset, 0, nmemb) == ReadStatus(v, disk, cluster, offset, 0)
    decreases nmemb
  {
    hide ReadStatus, WithinInts;
    StatusNotPositive(v, disk, cluster, offset, 0);
    if nmemb > 1 {
      EmptyMembers(v, disk, cluster, offset, nmemb - 1);
    }
  }

  /** On a consecutive chain, reading member by member fails exactly when, and as, one read of the whole does. */
  lemma MembersFailAsOne(v: Volume, disk: Disk, cluster: int, offset: nat, size: nat, nmemb: nat, links: nat)
    requires Mounted(v) && Consecutive(v, cluster, links) && nmemb > 0 && Spans(v, links, offset, nmemb * size)
    requires MembersWithinInts(v, cluster, offset, size, nmemb) && WithinInts(v, cluster, offset, nmemb * size)
    ensures MembersStatus(v, disk, cluster, offset, size, nmemb) == ReadStatus(v, disk, cluster, offset, nmemb * size)
  {
    hide Walk, ClusterStart, ClusterBytes, Status, ReadStatus, WithinInts, MembersWithinInts, MembersStatus, Consecutive, Spans;
    SpanIs(nmemb, size);
    if size == 0 {
      EmptyMembers(v, disk, cluster, offset, nmemb);
    } else {
      assert nmemb * size > 0;
      MembersStatusIs(v, disk, cluster, offset, size, nmemb, links);
      ConsecutiveStatus(v, disk, cluster, offset, nmemb * size, links);
    }
  }
}
