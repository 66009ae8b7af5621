/** The keyboard ring of a process, src/keyboard/keyboard.c, as a queue of characters. */
module Keyboard {
  import opened Common
  import opened Bits

  /** MAEROS_KEYBOARD_BUFFER_SIZE. */
  const SIZE: nat := 1024

  type Buffer = b: seq<char> | |b| == 1024 witness seq(1024, _ => '\0')

  /** head and tail are 32-bit counters; a slot is the counter modulo the size. */
  datatype Ring = Ring(buffer: Buffer, head: word, tail: word)

  function Pushed(r: Ring, c: char): Ring {
    if c == NUL then r else Ring(r.buffer[r.tail % SIZE := c], r.head, Wrap(r.tail + 1))
  }

  function Popped(r: Ring): (Ring, char) {
    var c := r.buffer[r.head % SIZE];
    if c == NUL then (r, NUL) else (Ring(r.buffer[r.head % SIZE := NUL], Wrap(r.head + 1), r.tail), c)
  }

  function Backspaced(r: Ring): Ring {
    var tail := Wrap(r.tail - 1);
    Ring(r.buffer[tail % SIZE := NUL], r.head, tail)
  }

  // ---------- the queue it stands for ----------

  /** How many slots after the head slot j lies. */
  function Distance(head: int, j: int): (d: nat)
    ensures d < SIZE
  {
    (j - head) % SIZE
  }

  /** The pending characters are q, oldest first, and every unused slot is zero. */
  ghost predicate Represents(r: Ring, q: seq<char>) {
    && |q| <= SIZE && r.tail == Wrap(r.head + |q|)
    && (forall i :: 0 <= i < |q| ==> q[i] != NUL)
    && (forall j :: 0 <= j < SIZE ==> r.buffer[j] == if Distance(r.head, j) < |q| then q[Distance(r.head, j)] else NUL)
  }

  lemma DistanceOf(head: word, k: int)
    requires 0 <= k < SIZE
    ensures Distance(head, Wrap(head + k) % SIZE) == k
  {
    WrapSlot(head + k);
    var x := head + k;
    DivModUnique(x % SIZE - head, SIZE, -(x / SIZE), k);
  }

  lemma WrapSlot(x: int)
    ensures Wrap(x) % SIZE == x % SIZE
  {
    var q, r := Wrap(x) / SIZE, Wrap(x) % SIZE;
    DivModUnique(x, SIZE, x / WORD_SIZE * 0x40_0000 + q, r);
  }

  lemma WrapAdd(x: int, d: int)
    ensures Wrap(Wrap(x) + d) == Wrap(x + d) && (0 <= x < WORD_SIZE ==> Wrap(x) == x)
  {
  }

  /** Slots at the same distance are the same slot. */
  lemma DistanceInjective(head: word, i: int, j: int)
    requires 0 <= i < SIZE && 0 <= j < SIZE && Distance(head, i) == Distance(head, j)
    ensures i == j
  {
  }

  lemma DistanceNext(head: word, j: int)
    requires 0 <= j < SIZE
    ensures Distance(Wrap(head + 1), j) == if Distance(head, j) == 0 then SIZE - 1 else Distance(head, j) - 1
  {
    var d, q := Distance(head, j), (j - head) / SIZE;
    var h := Wrap(head + 1);
    var w := if h == 0 then 0x40_0000 else 0;
    if d == 0 {
      DivModUnique(j - h, SIZE, q + w - 1, SIZE - 1);
    } else {
      DivModUnique(j - h, SIZE, q + w, d - 1);
    }
  }

  /**
   A character joins at the back while there is room.  In a full buffer it takes the
   place of the oldest, so that the newest comes out first, and no queue is left.
   */
  lemma PushExactly(r: Ring, q: seq<char>, c: char)
    requires Represents(r, q) && c != NUL
    ensures |q| < SIZE ==> Represents(Pushed(r, c), q + [c])
    ensures |q| == SIZE ==> Popped(Pushed(r, c)).1 == c && forall q' :: !Represents(Pushed(r, c), q')
  {
    if |q| == SIZE {
      FullPush(r, q, c);
    } else {
      hide Distance, Wrap;
      var slot := r.tail % SIZE;
      DistanceOf(r.head, |q|);
      WrapAdd(r.head + |q|, 1);
      var r', q' := Pushed(r, c), q + [c];
      forall j | 0 <= j < SIZE
        ensures r'.buffer[j] == if Distance(r.head, j) < |q'| then q'[Distance(r.head, j)] else NUL
      {
        if Distance(r.head, j) == |q| {
          DistanceInjective(r.head, j, slot);
        }
      }
    }
  }

  lemma FullPush(r: Ring, q: seq<char>, c: char)
    requires Represents(r, q) && c != NUL && |q| == SIZE
    ensures Popped(Pushed(r, c)).1 == c && forall q' :: !Represents(Pushed(r, c), q')
  {
    FullSlot(r, q);
    forall q': seq<char>
      ensures !Represents(Pushed(r, c), q')
    {
      if |q'| <= SIZE {
        WrapDiffers(r.head, |q'|, SIZE + 1);
      }
    }
  }

  lemma WrapDiffers(x: word, a: nat, b: nat)
    requires a < b < WORD_SIZE
    ensures Wrap(x + a) != Wrap(x + b)
  {
  }

  /** In a full buffer the tail is at the slot of the head. */
  lemma FullSlot(r: Ring, q: seq<char>)
    requires Represents(r, q) && |q| == SIZE
    ensures r.tail % SIZE == r.head % SIZE && Wrap(r.tail + 1) == Wrap(r.head + SIZE + 1)
  {
    WrapSlot(r.head + SIZE);
  }

  /** A push into a full buffer replaces the oldest character, but for the counter. */
  lemma Overwritten(r: Ring, q: seq<char>, c: char)
    requires Represents(r, q) && |q| == SIZE && c != NUL
    ensures Represents(Pushed(r, c).(tail := r.tail), [c] + q[1..])
  {
    FullSlot(r, q);
    DistanceOf(r.head, 0);
    var slot, q' := r.head % SIZE, [c] + q[1..];
    assert Distance(r.head, slot) == 0;
    hide Distance, Wrap;
    forall j | 0 <= j < SIZE
      ensures Pushed(r, c).buffer[j] == if Distance(r.head, j) < |q'| then q'[Distance(r.head, j)] else NUL
    {
      if Distance(r.head, j) == 0 {
        DistanceInjective(r.head, j, slot);
      }
    }
  }

  /** Pop returns the oldest character and removes it, and 0 exactly when nothing is pending. */
  lemma PopIsOldest(r: Ring, q: seq<char>)
    requires Represents(r, q)
    ensures Popped(r).1 == NUL <==> q == []
    ensures q == [] ==> Popped(r).0 == r
    ensures q != [] ==> Popped(r).1 == q[0] && Represents(Popped(r).0, q[1..])
  {
    hide Distance, Wrap;
    var slot := r.head % SIZE;
    WrapAdd(r.head, 0);
    DistanceOf(r.head, 0);
    WrapAdd(r.head + 1, |q| - 1);
    if q != [] {
      var r', q' := Popped(r).0, q[1..];
      forall j | 0 <= j < SIZE
        ensures r'.buffer[j] == if Distance(r'.head, j) < |q'| then q'[Distance(r'.head, j)] else NUL
      {
        DistanceNext(r.head, j);
        if Distance(r.head, j) == 0 {
          DistanceInjective(r.head, j, slot);
        }
      }
    }
  }

  /** Backspace removes the newest character; on an empty buffer the ring stops being a queue at all. */
  lemma BackspaceExactly(r: Ring, q: seq<char>)
    requires Represents(r, q)
    ensures q != [] ==> Represents(Backspaced(r), q[..|q| - 1])
    ensures q == [] ==> forall q' :: !Represents(Backspaced(r), q')
  {
    if q != [] {
      var n := |q| - 1;
      var r', q' := Backspaced(r), q[..n];
      assert r'.tail == Wrap(r.head + n);
      var slot := r'.tail % SIZE;
      DistanceOf(r.head, n);
      hide Distance, Wrap;
      forall j | 0 <= j < SIZE
        ensures r'.buffer[j] == if Distance(r.head, j) < |q'| then q'[Distance(r.head, j)] else NUL
      {
        if Distance(r.head, j) == n {
          DistanceInjective(r.head, j, slot);
        }
      }
    }
  }

  // ---------- whole runs ----------

  datatype Op = Push(c: char) | Pop | Backspace

  function StepRing(r: Ring, op: Op): (Ring, seq<char>) {
    match op
    case Push(c) => (Pushed(r, c), [])
    case Pop => (Popped(r).0, [Popped(r).1])
    case Backspace => (Backspaced(r), [])
  }

  /** The same operation on a queue. */
  function StepQueue(q: seq<char>, op: Op): (seq<char>, seq<char>) {
    match op
    case Push(c) => (if c == NUL then q else q + [c], [])
    case Pop => if q == [] then (q, [NUL]) else (q[1..], [q[0]])
    case Backspace => (if q == [] then q else q[..|q| - 1], [])
  }

  predicate Allowed(q: seq<char>, op: Op) {
    match op
    case Push(c) => c != NUL ==> |q| < SIZE
    case Pop => true
    case Backspace => q != []
  }

  /** At most SIZE characters are ever pending, and backspace finds something to remove. */
  predicate AllAllowed(q: seq<char>, ops: seq<Op>)
    decreases |ops|
  {
    ops == [] || (Allowed(q, ops[0]) && AllAllowed(StepQueue(q, ops[0]).0, ops[1..]))
  }

  /** Everything the pops return, in order. */
  function RingOutput(r: Ring, ops: seq<Op>): seq<char>
    decreases |ops|
  {
    if ops == [] then [] else StepRing(r, ops[0]).1 + RingOutput(StepRing(r, ops[0]).0, ops[1..])
  }

  function QueueOutput(q: seq<char>, ops: seq<Op>): seq<char>
    decreases |ops|
  {
    if ops == [] then [] else StepQueue(q, ops[0]).1 + QueueOutput(StepQueue(q, ops[0]).0, ops[1..])
  }

  /** Over every run the ring answers like a queue, also after its counters have wrapped around. */
  lemma {:induction false} RingIsQueue(r: Ring, q: seq<char>, ops: seq<Op>)
    requires Represents(r, q) && AllAllowed(q, ops)
    ensures RingOutput(r, ops) == QueueOutput(q, ops)
    decreases |ops|
  {
    hide Represents;
    if ops != [] {
      StepRepresents(r, q, ops[0]);
      RingIsQueue(StepRing(r, ops[0]).0, StepQueue(q, ops[0]).0, ops[1..]);
    }
  }

  // ---------- the allowed operations, exactly ----------

  function Pops(n: nat): seq<Op> {
    seq(n, _ => Pop)
  }

  /** Pops look at the head only. */
  lemma {:induction false} PopsIgnoreTail(r: Ring, tail: word, n: nat)
    ensures RingOutput(r, Pops(n)) == RingOutput(r.(tail := tail), Pops(n))
    decreases n
  {
    if n > 0 {
      assert Pops(n)[1..] == Pops(n - 1);
      PopsIgnoreTail(Popped(r).0, tail, n - 1);
      assert Popped(r.(tail := tail)) == (Popped(r).0.(tail := tail), Popped(r).1);
    }
  }

  /** As many pops as characters return them all, and one more returns 0. */
  lemma {:induction false} QueuePops(q: seq<char>)
    ensures QueueOutput(q, Pops(|q|)) == q && QueueOutput(q, Pops(|q| + 1)) == q + [NUL]
    decreases |q|
  {
    if q == [] {
      assert Pops(1)[1..] == [];
    } else {
      assert Pops(|q|)[1..] == Pops(|q| - 1) && Pops(|q| + 1)[1..] == Pops(|q|);
      QueuePops(q[1..]);
    }
  }

  lemma {:induction false} PopsAllowed(q: seq<char>, n: nat)
    ensures AllAllowed(q, Pops(n))
    decreases n
  {
    if n > 0 {
      assert Pops(n)[1..] == Pops(n - 1);
      PopsAllowed(StepQueue(q, Pop).0, n - 1);
    }
  }

  /** A push into a full buffer is lost or loses another: after 1024 pops the queue still has one character. */
  lemma FullPushShows(r: Ring, q: seq<char>, c: char)
    requires Represents(r, q) && |q| == SIZE && c != NUL
    ensures RingOutput(Pushed(r, c), Pops(SIZE + 1)) != QueueOutput(q + [c], Pops(SIZE + 1))
  {
    hide Represents, RingOutput, QueueOutput, Pops, AllAllowed;
    var q' := [c] + q[1..];
    Overwritten(r, q, c);
    PopsIgnoreTail(Pushed(r, c), r.tail, SIZE + 1);
    PopsAllowed(q', SIZE + 1);
    RingIsQueue(Pushed(r, c).(tail := r.tail), q', Pops(SIZE + 1));
    QueuePops(q');
    QueuePops(q + [c]);
    assert (q' + [NUL])[SIZE] != (q + [c])[SIZE];
  }

  /** After a backspace on an empty buffer the next character goes where pop does not look. */
  lemma EmptyBackspaceShows(r: Ring, c: char)
    requires Represents(r, []) && c != NUL
    ensures RingOutput(Backspaced(r), [Push(c), Pop]) == [NUL]
    ensures QueueOutput([], [Push(c), Pop]) == [c] && AllAllowed([], [Push(c), Pop])
  {
    var r1 := Backspaced(r);
    var r2 := Pushed(r1, c);
    var ops := [Push(c), Pop];
    assert ops[1..] == [Pop] && ops[1..][1..] == [];
    WrapSlot(r.tail - 1);
    assert (r.tail - 1) % SIZE != r.tail % SIZE;
    assert r.buffer[r.head % SIZE] == NUL;
    assert r2.buffer[r2.head % SIZE] == NUL;
    assert StepRing(r1, ops[0]) == (r2, []);
    assert QueueOutput([c], [Pop]) == [c];
    assert AllAllowed([c], [Pop]);
  }

  /**
   The two conditions are exact: an operation is allowed if and only if the ring
   still answers like a queue in every allowed run that follows.
   */
  lemma AllowedExactly(r: Ring, q: seq<char>, op: Op)
    requires Represents(r, q)
    ensures Allowed(q, op)
            <==> forall ops :: AllAllowed(StepQueue(q, op).0, ops) ==>
                   RingOutput(StepRing(r, op).0, ops) == QueueOutput(StepQueue(q, op).0, ops)
  {
    hide Represents, RingOutput, QueueOutput, AllAllowed;
    if Allowed(q, op) {
      StepRepresents(r, q, op);
      forall ops: seq<Op> | AllAllowed(StepQueue(q, op).0, ops)
        ensures RingOutput(StepRing(r, op).0, ops) == QueueOutput(StepQueue(q, op).0, ops)
      {
        RingIsQueue(StepRing(r, op).0, StepQueue(q, op).0, ops);
      }
    } else {
      match op {
        case Push(c) =>
          AtMostFull(r, q);
          PopsAllowed(q + [c], SIZE + 1);
          FullPushShows(r, q, c);
          assert AllAllowed(StepQueue(q, op).0, Pops(SIZE + 1));
        case Pop =>
        case Backspace =>
          EmptyBackspaceShows(r, 'a');
          assert AllAllowed(StepQueue(q, op).0, [Push('a'), Pop]);
      }
    }
  }

  lemma AtMostFull(r: Ring, q: seq<char>)
    requires Represents(r, q)
    ensures |q| <= SIZE
  {
  }

  lemma StepRepresents(r: Ring, q: seq<char>, op: Op)
    requires Represents(r, q) && Allowed(q, op)
    ensures Represents(StepRing(r, op).0, StepQueue(q, op).0) && StepRing(r, op).1 == StepQueue(q, op).1
  {
    hide Represents;
    match op {
      case Push(c) => if c != NUL { PushExactly(r, q, c); }
      case Pop => PopIsOldest(r, q);
      case Backspace => BackspaceExactly(r, q);
    }
  }

  // ---------- the code ----------

  class KeyboardBuffer {
    const buffer: array<char>
    var tail: word
    var head: word

    /** A zeroed process. */
    constructor ()
      ensures buffer.Length == SIZE && fresh(buffer) && Represents(Contents(), [])
    {
      buffer := new char[1024](_ => '\0');
      tail, head := 0, 0;
    }

    function Contents(): Ring
      requires buffer.Length == SIZE
      reads this, buffer
    {
      Ring(buffer[..], head, tail)
    }

    method GetTailIndex() returns (i: nat)
      ensures i == tail % SIZE < SIZE
    {
      i := tail % SIZE;
    }

    /** keyboard_push for a process that exists. */
    method Push(c: char)
      requires buffer.Length == SIZE
      modifies this`tail, buffer
      ensures Contents() == Pushed(old(Contents()), c)
    {
      if c == NUL {
        return;
      }
      var real_index := GetTailIndex();
      buffer[real_index] := c;
      tail := Wrap(tail + 1);
    }

    method Pop() returns (c: char)
      requires buffer.Length == SIZE
      modifies this`head, buffer
      ensures (Contents(), c) == Popped(old(Contents()))
    {
      var real_index := head % SIZE;
      c := buffer[real_index];
      if c == NUL {
        return NUL;
      }
      buffer[real_index] := NUL;
      head := Wrap(head + 1);
    }

    method Backspace()
      requires buffer.Length == SIZE
      modifies this`tail, buffer
      ensures Contents() == Backspaced(old(Contents()))
    {
      tail := Wrap(tail - 1);
      var real_index := GetTailIndex();
      buffer[real_index] := NUL;
    }
  }
}
