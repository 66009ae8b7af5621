/**
 The byte-coded block table of the kernel heap and the meaning of its codes.

 Everything here is a function of the table bytes alone: the live allocations
 are read back from the IS_FIRST and HAS_NEXT bits.
 */
module HeapTable {
  import opened Common
  import opened Bits

  const FREE: bv8 := 0x00
  const TAKEN: bv8 := 0x01
  const IS_FIRST: bv8 := 0x40
  const HAS_NEXT: bv8 := 0x80

  type Table = seq<bv8>
  /** Live allocations: first block to number of blocks. */
  type Live = map<nat, nat>

  predicate IsFree(e: bv8) {
    e & 0x0f == FREE
  }

  // ---------- sizes ----------

  /** Round a size up to whole blocks, in 32-bit arithmetic. */
  function AlignUp(size: word): word {
    if size % PAGE_SIZE == 0 then size else Wrap(size - size % PAGE_SIZE + PAGE_SIZE)
  }

  function Blocks(size: word): nat {
    AlignUp(size) / PAGE_SIZE
  }

  /** The rounding is the ceiling exactly on the sizes that do not wrap; the others ask for no block at all. */
  lemma BlocksExact(size: word)
    ensures size <= WORD_SIZE - PAGE_SIZE ==>
              PAGE_SIZE * Blocks(size) - PAGE_SIZE < size <= PAGE_SIZE * Blocks(size)
    ensures Blocks(size) == 0 <==> size == 0 || size > WORD_SIZE - PAGE_SIZE
  {
    var r := size - size % PAGE_SIZE + PAGE_SIZE;
    if size % PAGE_SIZE != 0 && size > WORD_SIZE - PAGE_SIZE {
      assert r == WORD_SIZE;
    }
  }

  // ---------- first fit ----------

  ghost predicate FreeRun(t: Table, s: nat, n: nat) {
    s + n <= |t| && forall i :: s <= i < s + n ==> IsFree(t[i])
  }

  ghost predicate Fits(t: Table, n: nat) {
    n >= 1 && exists s: nat :: FreeRun(t, s, n)
  }

  predicate LastFree(t: Table) {
    t != [] && IsFree(t[|t| - 1])
  }

  /** The start of the free run that ends just before block k. */
  function TrailingStart(t: Table, k: nat): (s: nat)
    requires k <= |t|
    ensures s <= k && (forall i :: s <= i < k ==> IsFree(t[i]))
    ensures s == 0 || !IsFree(t[s - 1])
  {
    if k > 0 && IsFree(t[k - 1]) then TrailingStart(t, k - 1) else k
  }

  ghost function LowestFit(t: Table, n: nat, from: nat): (s: nat)
    requires exists s: nat :: from <= s && FreeRun(t, s, n)
    ensures from <= s && FreeRun(t, s, n)
    ensures forall s': nat :: from <= s' < s ==> !FreeRun(t, s', n)
    decreases |t| - from
  {
    if FreeRun(t, from, n) then from else LowestFit(t, n, from + 1)
  }

  /** What heap_get_start_block returns, for every table and every count. */
  ghost function StartBlock(t: Table, n: nat): (r: int)
    ensures Fits(t, n) ==> r >= 0 && FreeRun(t, r, n) && forall s: nat :: s < r ==> !FreeRun(t, s, n)
    ensures !Fits(t, n) && LastFree(t) ==> 0 <= r < |t| && FreeRun(t, r, |t| - r) && (r == 0 || !IsFree(t[r - 1]))
    ensures !Fits(t, n) && !LastFree(t) ==> r == -ENOMEM
  {
    if Fits(t, n) then LowestFit(t, n, 0)
    else if LastFree(t) then TrailingStart(t, |t|)
    else -ENOMEM
  }

  /** The blocks that an n-block allocation marks lie inside the table exactly when a fit exists or the last block is taken. */
  ghost predicate Serviceable(t: Table, n: nat) {
    Fits(t, n) || !LastFree(t)
  }

  lemma OverrunExactly(t: Table, n: nat)
    requires n >= 1
    ensures Serviceable(t, n) <==> (StartBlock(t, n) >= 0 ==> StartBlock(t, n) + n <= |t|)
  {
    var r := StartBlock(t, n);
    if r >= 0 && r + n <= |t| && (Fits(t, n) || LastFree(t)) {
      assert FreeRun(t, r, n);
    }
  }

  // ---------- marking and clearing ----------

  /** The code of block i of an n-block allocation. */
  function RunByte(i: nat, n: nat): bv8
    requires i < n
  {
    if i == 0 then (if n > 1 then TAKEN | IS_FIRST | HAS_NEXT else TAKEN | IS_FIRST)
    else if i == n - 1 then TAKEN
    else TAKEN | HAS_NEXT
  }

  function Mark(t: Table, s: nat, n: nat): (t': Table)
    requires s + n <= |t|
    ensures |t'| == |t|
  {
    seq(|t|, i requires 0 <= i < |t| => if s <= i < s + n then RunByte(i - s, n) else t[i])
  }

  /** The bytes that a marked run leaves in the table, and the test for a free block, in numbers. */
  lemma Codes(t: Table, s: nat, n: nat, i: nat)
    requires s + n <= |t| && i < n
    ensures Mark(t, s, n)[s + i]
            == if n == 1 then 0x41 else if i == 0 then 0xC1 else if i == n - 1 then 0x01 else 0x81
    ensures Clear(t, s, n)[s + i] == 0x00
    ensures forall e: bv8 :: IsFree(e) <==> (e as int) % 16 == 0
  {
    assert TAKEN | IS_FIRST == 0x41 && TAKEN | IS_FIRST | HAS_NEXT == 0xC1 && TAKEN | HAS_NEXT == 0x81;
    assert Mark(t, s, n)[s + i] == RunByte(i, n);
    forall e: bv8
      ensures IsFree(e) <==> (e as int) % 16 == 0
    {
      LowNibble(e);
    }
  }

  lemma LowNibble(e: bv8)
    ensures (e & 0x0f) as int == (e as int) % 16
  {
    assert e & 0x0f == e % 16;
  }

  function Clear(t: Table, s: nat, n: nat): (t': Table)
    requires s + n <= |t|
    ensures |t'| == |t|
  {
    seq(|t|, i requires 0 <= i < |t| => if s <= i < s + n then FREE else t[i])
  }

  /** The loop of heap_mark_blocks_free: clear until a block without HAS_NEXT. */
  function FreeFrom(t: Table, b: nat): (t': Table)
    ensures |t'| == |t|
    decreases |t| - b
  {
    if b >= |t| then t
    else if t[b] & HAS_NEXT == 0 then t[b := FREE]
    else FreeFrom(t[b := FREE], b + 1)
  }

  // ---------- live allocations ----------

  /** Number of blocks in the HAS_NEXT chain that starts at s. */
  function ChainLength(t: Table, s: nat): (n: nat)
    ensures s < |t| ==> 1 <= n <= |t| - s
    decreases |t| - s
  {
    if s >= |t| then 0
    else if t[s] & HAS_NEXT == 0 then 1
    else 1 + ChainLength(t, s + 1)
  }

  function LiveOf(t: Table): Live {
    map s: nat | 0 <= s < |t| && t[s] & IS_FIRST != 0 :: ChainLength(t, s)
  }

  ghost predicate Covers(l: Live, s: nat, i: int) {
    s in l && s <= i < s + l[s]
  }

  /** The bytes of t spell out exactly the allocations l. */
  ghost predicate Encodes(t: Table, l: Live) {
    && (forall s :: s in l ==> 1 <= l[s] && s + l[s] <= |t|)
    && (forall s, i :: Covers(l, s, i) && i < |t| ==> t[i] == RunByte(i - s, l[s]))
    && (forall i :: 0 <= i < |t| && t[i] != FREE ==> exists s :: Covers(l, s, i))
  }

  /** The representation invariant of the heap table. */
  ghost predicate WellFormed(t: Table) {
    Encodes(t, LiveOf(t))
  }

  lemma RunByteBits(i: nat, n: nat)
    requires i < n
    ensures RunByte(i, n) & IS_FIRST != 0 <==> i == 0
    ensures RunByte(i, n) & HAS_NEXT != 0 <==> i != n - 1
    ensures !IsFree(RunByte(i, n)) && RunByte(i, n) != FREE
  {
  }

  /** Live runs never overlap: the codes themselves exclude it. */
  lemma RunsDisjoint(t: Table, l: Live, s1: nat, s2: nat, i: int)
    requires Encodes(t, l) && Covers(l, s1, i) && Covers(l, s2, i)
    ensures s1 == s2
  {
    if s1 < s2 {
      assert Covers(l, s1, s2) && Covers(l, s2, s2);
      RunByteBits(s2 - s1, l[s1]);
      RunByteBits(0, l[s2]);
    } else if s2 < s1 {
      assert Covers(l, s1, s1) && Covers(l, s2, s1);
      RunByteBits(s1 - s2, l[s2]);
      RunByteBits(0, l[s1]);
    }
  }

  lemma {:induction false} ChainOfRun(t: Table, l: Live, s: nat, i: nat)
    requires Encodes(t, l) && Covers(l, s, i)
    ensures ChainLength(t, i) == s + l[s] - i
    decreases s + l[s] - i
  {
    RunByteBits(i - s, l[s]);
    if i + 1 < s + l[s] {
      ChainOfRun(t, l, s, i + 1);
    }
  }

  lemma LiveIsRead(t: Table, l: Live, s: nat)
    requires Encodes(t, l) && s in l
    ensures s in LiveOf(t) && LiveOf(t)[s] == l[s]
  {
    assert Covers(l, s, s);
    RunByteBits(0, l[s]);
    ChainOfRun(t, l, s, s);
  }

  lemma ReadIsLive(t: Table, l: Live, s: nat)
    requires Encodes(t, l) && s < |t| && t[s] & IS_FIRST != 0
    ensures s in l
  {
    var s' :| Covers(l, s', s);
    RunByteBits(s - s', l[s']);
  }

  /** A table has at most one reading: any allocations it encodes are the ones read from its bits. */
  lemma ReadingUnique(t: Table, l: Live)
    requires Encodes(t, l)
    ensures l == LiveOf(t) && WellFormed(t)
  {
    var l' := LiveOf(t);
    forall s: nat | s in l
      ensures s in l' && l'[s] == l[s]
    {
      LiveIsRead(t, l, s);
    }
    forall s: nat | s in l'
      ensures s in l
    {
      ReadIsLive(t, l, s);
    }
    assert l == l';
  }

  /** And allocations have at most one table: the bytes are determined. */
  lemma TableUnique(t: Table, t': Table, l: Live)
    requires Encodes(t, l) && Encodes(t', l) && |t| == |t'|
    ensures t == t'
  {
    forall i | 0 <= i < |t|
      ensures t[i] == t'[i]
    {
      if exists s :: Covers(l, s, i) {
        var s :| Covers(l, s, i);
        assert t[i] == RunByte(i - s, l[s]) == t'[i];
      }
    }
  }

  lemma FirstIsCovered(t: Table, l: Live, s: nat)
    requires Encodes(t, l)
    ensures s in l ==> Covers(l, s, s)
  {
  }

  /** Free blocks of a well-formed table hold the byte 0 and belong to no allocation. */
  lemma FreeMeansUncovered(t: Table, l: Live, i: nat)
    requires Encodes(t, l) && i < |t|
    ensures IsFree(t[i]) <==> t[i] == FREE
    ensures IsFree(t[i]) <==> !exists s :: Covers(l, s, i)
  {
    if s: nat :| Covers(l, s, i) {
      RunByteBits(i - s, l[s]);
    }
  }

  /** Marking a free run adds exactly one allocation. */
  lemma MarkAdds(t: Table, l: Live, s: nat, n: nat)
    requires Encodes(t, l) && n >= 1 && FreeRun(t, s, n)
    ensures s !in l
    ensures Encodes(Mark(t, s, n), l[s := n])
  {
    var t', l' := Mark(t, s, n), l[s := n];
    forall i: nat | s <= i < s + n && IsFree(t[i])
      ensures !exists q :: Covers(l, q, i)
    {
      FreeMeansUncovered(t, l, i);
    }
    assert s in l ==> Covers(l, s, s);
    forall q: nat, i | Covers(l', q, i) && i < |t'|
      ensures t'[i] == RunByte(i - q, l'[q])
    {
      if q != s {
        assert Covers(l, q, i);
      }
    }
    forall i | 0 <= i < |t'| && t'[i] != FREE
      ensures exists q :: Covers(l', q, i)
    {
      if s <= i < s + n {
        assert Covers(l', s, i);
      } else {
        var q :| Covers(l, q, i);
        assert Covers(l', q, i);
      }
    }
  }

  lemma {:induction false} FreeFromClears(t: Table, s: nat, n: nat)
    requires n >= 1 && s + n <= |t|
    requires forall i :: s <= i < s + n ==> (t[i] & HAS_NEXT != 0 <==> i != s + n - 1)
    ensures FreeFrom(t, s) == Clear(t, s, n)
    decreases n
  {
    if n > 1 {
      var u := t[s := FREE];
      FreeFromClears(u, s + 1, n - 1);
      assert Clear(u, s + 1, n - 1) == Clear(t, s, n);
    } else {
      assert t[s := FREE] == Clear(t, s, 1);
    }
  }

  /** Freeing the first block of an allocation clears exactly its own run. */
  lemma FreeRemoves(t: Table, l: Live, s: nat)
    requires Encodes(t, l) && s in l
    ensures FreeFrom(t, s) == Clear(t, s, l[s])
    ensures Encodes(FreeFrom(t, s), l - {s})
  {
    var n := l[s];
    forall i | s <= i < s + n
      ensures t[i] & HAS_NEXT != 0 <==> i != s + n - 1
    {
      assert Covers(l, s, i);
      RunByteBits(i - s, n);
    }
    FreeFromClears(t, s, n);
    var t', l' := Clear(t, s, n), l - {s};
    forall q: nat, i | Covers(l', q, i) && i < |t'|
      ensures t'[i] == RunByte(i - q, l'[q])
    {
      assert Covers(l, q, i);
      if s <= i < s + n {
        assert Covers(l, s, i);
        RunsDisjoint(t, l, q, s, i);
      }
    }
    forall i | 0 <= i < |t'| && t'[i] != FREE
      ensures exists q :: Covers(l', q, i)
    {
      var q :| Covers(l, q, i);
      assert Covers(l', q, i);
    }
  }

  /** malloc followed by free restores the table byte for byte. */
  lemma MallocFree(t: Table, s: nat, n: nat)
    requires WellFormed(t) && n >= 1 && FreeRun(t, s, n)
    ensures FreeFrom(Mark(t, s, n), s) == t
  {
    var l := LiveOf(t);
    MarkAdds(t, l, s, n);
    FreeRemoves(Mark(t, s, n), l[s := n], s);
    assert l[s := n] - {s} == l;
    TableUnique(t, FreeFrom(Mark(t, s, n), s), l);
  }

  /** The block handed out is a live allocation exactly when the request rounds to at least one block. */
  lemma HandedOutIsLive(t: Table, n: nat)
    requires WellFormed(t) && StartBlock(t, n) >= 0 && StartBlock(t, n) + n <= |t|
    ensures StartBlock(t, n) in LiveOf(Mark(t, StartBlock(t, n), n)) <==> n >= 1
  {
    var s := StartBlock(t, n);
    if n >= 1 {
      OverrunExactly(t, n);
      assert FreeRun(t, s, n);
      MarkAdds(t, LiveOf(t), s, n);
      ReadingUnique(Mark(t, s, n), LiveOf(t)[s := n]);
    } else {
      assert Mark(t, s, n) == t;
      assert IsFree(t[s]);
      FreeMeansUncovered(t, LiveOf(t), s);
      FirstIsCovered(t, LiveOf(t), s);
    }
  }

  // ---------- counting ----------

  function TakenCount(t: Table): nat {
    if t == [] then 0 else TakenCount(t[..|t| - 1]) + if IsFree(t[|t| - 1]) then 0 else 1
  }

  ghost function Total(l: Live): nat {
    if l == map[] then 0 else var s :| s in l; l[s] + Total(l - {s})
  }

  lemma {:induction false} TotalRemove(l: Live, s: nat)
    requires s in l
    ensures Total(l) == l[s] + Total(l - {s})
  {
    var q :| q in l && Total(l) == l[q] + Total(l - {q});
    if q != s {
      TotalRemove(l - {q}, s);
      TotalRemove(l - {s}, q);
      assert l - {q} - {s} == l - {s} - {q};
    }
  }

  lemma {:induction false} CountClear(t: Table, s: nat, n: nat)
    requires s + n <= |t| && forall i :: s <= i < s + n ==> !IsFree(t[i])
    ensures TakenCount(t) == TakenCount(Clear(t, s, n)) + n
    decreases |t|
  {
    if t == [] {
    } else {
      var k := |t| - 1;
      if s + n <= k {
        CountClear(t[..k], s, n);
        assert Clear(t[..k], s, n) == Clear(t, s, n)[..k];
      } else if n > 0 {
        CountClear(t[..k], s, n - 1);
        assert Clear(t[..k], s, n - 1) == Clear(t, s, n)[..k];
      } else {
        assert Clear(t, s, n) == t;
      }
    }
  }

  lemma {:induction false} CountZero(t: Table)
    requires forall i :: 0 <= i < |t| ==> IsFree(t[i])
    ensures TakenCount(t) == 0
  {
    if t != [] {
      CountZero(t[..|t| - 1]);
    }
  }

  /** The number of taken blocks is the sum of the sizes of the live allocations. */
  lemma {:induction false} TakenIsTotal(t: Table, l: Live)
    requires Encodes(t, l)
    ensures TakenCount(t) == Total(l)
    decreases |l|
  {
    if l == map[] {
      forall i: nat | i < |t|
        ensures IsFree(t[i])
      {
        FreeMeansUncovered(t, l, i);
      }
      CountZero(t);
    } else {
      var s :| s in l;
      FreeRemoves(t, l, s);
      TakenIsTotal(FreeFrom(t, s), l - {s});
      TotalRemove(l, s);
      forall i: nat | s <= i < s + l[s]
        ensures !IsFree(t[i])
      {
        assert Covers(l, s, i);
        FreeMeansUncovered(t, l, i);
      }
      CountClear(t, s, l[s]);
    }
  }

  lemma CountMark(t: Table, s: nat, n: nat)
    requires WellFormed(t) && n >= 1 && FreeRun(t, s, n)
    ensures TakenCount(Mark(t, s, n)) == TakenCount(t) + n
  {
    var t' := Mark(t, s, n);
    forall i: nat | s <= i < s + n
      ensures !IsFree(t'[i]) && t[i] == FREE
    {
      RunByteBits(i - s, n);
      FreeMeansUncovered(t, LiveOf(t), i);
    }
    CountClear(t', s, n);
    assert Clear(t', s, n) == t;
  }

  lemma {:induction false} SomeFree(t: Table)
    requires TakenCount(t) < |t|
    ensures Fits(t, 1)
  {
    var k := |t| - 1;
    if IsFree(t[k]) {
      assert FreeRun(t, k, 1);
    } else {
      SomeFree(t[..k]);
      var s: nat :| FreeRun(t[..k], s, 1);
      assert FreeRun(t, s, 1);
    }
  }

  /** While a block is free, a one-block request succeeds and takes exactly one new block. */
  lemma OneBlock(t: Table)
    requires WellFormed(t) && TakenCount(t) < |t|
    ensures var s := StartBlock(t, 1);
            && s >= 0 && FreeRun(t, s, 1) && s !in LiveOf(t)
            && WellFormed(Mark(t, s, 1)) && LiveOf(Mark(t, s, 1)) == LiveOf(t)[s := 1]
            && TakenCount(Mark(t, s, 1)) == TakenCount(t) + 1
  {
    SomeFree(t);
    var s := StartBlock(t, 1);
    MarkAdds(t, LiveOf(t), s, 1);
    ReadingUnique(Mark(t, s, 1), LiveOf(t)[s := 1]);
    CountMark(t, s, 1);
  }

  // ---------- whole runs ----------

  datatype HeapOp = Malloc(size: word) | Free(block: nat)

  ghost function Apply(t: Table, op: HeapOp): Table
    requires InDomain(t, op)
  {
    match op
    case Malloc(size) =>
      var s := StartBlock(t, Blocks(size));
      OverrunExactly(t, Blocks(size));
      if s < 0 then t else Mark(t, s, Blocks(size))
    case Free(b) => FreeFrom(t, b)
  }

  /** Requests that round to at least one block and stay inside the table; frees of addresses that malloc handed out. */
  ghost predicate InDomain(t: Table, op: HeapOp) {
    match op
    case Malloc(size) => Blocks(size) >= 1 && Serviceable(t, Blocks(size))
    case Free(b) => b in LiveOf(t)
  }

  ghost predicate IsRun(ts: seq<Table>, ops: seq<HeapOp>) {
    && |ts| == |ops| + 1
    && forall i :: 0 <= i < |ops| ==> InDomain(ts[i], ops[i]) && ts[i + 1] == Apply(ts[i], ops[i])
  }

  /** How one operation changes the live allocations. */
  ghost function LiveAfter(t: Table, op: HeapOp): Live
    requires InDomain(t, op)
  {
    match op
    case Malloc(size) =>
      var s := StartBlock(t, Blocks(size));
      if s < 0 then LiveOf(t) else LiveOf(t)[s := Blocks(size)]
    case Free(b) => LiveOf(t) - {b}
  }

  lemma ApplyKeeps(t: Table, op: HeapOp)
    requires WellFormed(t) && InDomain(t, op)
    ensures WellFormed(Apply(t, op)) && |Apply(t, op)| == |t|
    ensures LiveOf(Apply(t, op)) == LiveAfter(t, op)
    ensures op.Malloc? && StartBlock(t, Blocks(op.size)) >= 0 ==> StartBlock(t, Blocks(op.size)) !in LiveOf(t)
  {
    match op
    case Malloc(size) =>
      var n := Blocks(size);
      var s := StartBlock(t, n);
      if s >= 0 {
        MarkAdds(t, LiveOf(t), s, n);
        ReadingUnique(Mark(t, s, n), LiveOf(t)[s := n]);
      }
    case Free(b) =>
      FreeRemoves(t, LiveOf(t), b);
      ReadingUnique(FreeFrom(t, b), LiveOf(t) - {b});
  }

  lemma ZeroTable(t: Table)
    requires forall i :: 0 <= i < |t| ==> t[i] == FREE
    ensures WellFormed(t) && LiveOf(t) == map[]
  {
    ReadingUnique(t, map[]);
  }

  /**
   Over every run of in-domain mallocs and frees from an empty heap, every table
   reached is well formed, its live runs are disjoint and inside the table, and
   the taken blocks are counted exactly by the live allocations.
   */
  lemma {:induction false} HeapRun(ts: seq<Table>, ops: seq<HeapOp>, k: nat)
    requires IsRun(ts, ops) && k <= |ops|
    requires forall i :: 0 <= i < |ts[0]| ==> ts[0][i] == FREE
    ensures WellFormed(ts[k]) && |ts[k]| == |ts[0]|
    ensures TakenCount(ts[k]) == Total(LiveOf(ts[k]))
    ensures forall s1, s2, i :: Covers(LiveOf(ts[k]), s1, i) && Covers(LiveOf(ts[k]), s2, i) ==> s1 == s2
    ensures k > 0 ==> LiveOf(ts[k]) == LiveAfter(ts[k - 1], ops[k - 1])
  {
    if k == 0 {
      ZeroTable(ts[0]);
    } else {
      HeapRun(ts, ops, k - 1);
      ApplyKeeps(ts[k - 1], ops[k - 1]);
    }
    var l := LiveOf(ts[k]);
    TakenIsTotal(ts[k], l);
    forall s1: nat, s2: nat, i | Covers(l, s1, i) && Covers(l, s2, i)
      ensures s1 == s2
    {
      RunsDisjoint(ts[k], l, s1, s2, i);
    }
  }
}
