/** The doubly linked task list and round-robin order of src/task/task.c. */
module TaskList {
  import opened Common
  import opened Bits

  class Task {
    /** Where the saved registers of the task lie: &task->registers. */
    const registers: word
    /** What the page directory of the task does to addresses. */
    const paging: Translation
    var next: Task?
    var prev: Task?

    constructor (registers: word, paging: Translation)
      ensures this.registers == registers && this.paging == paging && next == null && prev == null
    {
      this.registers, this.paging := registers, paging;
      next := null;
      prev := null;
    }
  }

  ghost predicate Distinct(ts: seq<Task>) {
    forall i, j :: 0 <= i < j < |ts| ==> ts[i] != ts[j]
  }

  /** Following next from the first task visits ts in order and stops. */
  ghost predicate ForwardChain(ts: seq<Task>)
    reads ts
  {
    && Distinct(ts)
    && (forall i {:trigger ts[i].next} :: 0 <= i < |ts| - 1 ==> ts[i].next == ts[i + 1])
    && (ts != [] ==> ts[|ts| - 1].next == null)
  }

  /** Every prev leads back to the task before. */
  ghost predicate BackwardLinks(ts: seq<Task>)
    reads ts
  {
    && (forall i {:trigger ts[i].prev} :: 0 < i < |ts| ==> ts[i].prev == ts[i - 1])
    && (ts != [] ==> ts[0].prev == null)
  }

  twostate lemma LinksKept(ts: seq<Task>)
    requires forall i :: 0 <= i < |ts| ==> ts[i].next == old(ts[i].next) && ts[i].prev == old(ts[i].prev)
    ensures ForwardChain(ts) == old(ForwardChain(ts)) && BackwardLinks(ts) == old(BackwardLinks(ts))
  {
  }

  ghost function Without(ts: seq<Task>, k: nat): seq<Task>
    requires k < |ts|
  {
    ts[..k] + ts[k + 1..]
  }

  lemma WithoutAt(ts: seq<Task>, k: nat, i: nat)
    requires k < |ts| && i < |ts| - 1
    ensures Without(ts, k)[i] == if i < k then ts[i] else ts[i + 1]
  {
  }

  ghost function IndexOf(ts: seq<Task>, t: Task): (i: nat)
    requires t in ts
    ensures i < |ts| && ts[i] == t
  {
    var i :| 0 <= i < |ts| && ts[i] == t; i
  }

  /** The task after position i, going round at the end. */
  ghost function CyclicNext(ts: seq<Task>, i: nat): Task
    requires i < |ts|
  {
    ts[(i + 1) % |ts|]
  }

  class Scheduler {
    var current_task: Task?
    var task_head: Task?
    var task_tail: Task?
    ghost var tasks: seq<Task>

    constructor ()
      ensures tasks == [] && Linked()
    {
      current_task, task_head, task_tail := null, null, null;
      tasks := [];
    }

    /** Head, tail, current task and forward links agree with the list of tasks. */
    ghost predicate Chained()
      reads this, tasks
    {
      && ForwardChain(tasks)
      && task_head == (if tasks == [] then null else tasks[0])
      && task_tail == (if tasks == [] then null else tasks[|tasks| - 1])
      && (if tasks == [] then current_task == null else current_task in tasks)
    }

    ghost predicate Linked()
      reads this, tasks
    {
      Chained() && BackwardLinks(tasks)
    }

    /** task_new: append at the tail; the first task becomes the current one. */
    method TaskNew(registers: word, paging: Translation) returns (task: Task)
      requires Linked()
      modifies this, tasks
      ensures Linked() && fresh(task) && tasks == old(tasks) + [task]
      ensures current_task == if old(tasks) == [] then task else old(current_task)
      ensures task.registers == registers && task.paging == paging
    {
      task := new Task(registers, paging);
      if task_head == null {
        task_head := task;
        task_tail := task;
        current_task := task;
        tasks := [task];
        return;
      }
      ghost var ts := tasks;
      assert task !in ts;
      task_tail.next := task;
      task.prev := task_tail;
      task_tail := task;
      tasks := ts + [task];
      assert forall i :: 0 <= i < |ts| ==> tasks[i] == ts[i];
    }

    method GetNext() returns (t: Task?)
      requires Chained() && tasks != []
      ensures t == CyclicNext(tasks, IndexOf(tasks, current_task))
    {
      ghost var i := IndexOf(tasks, current_task);
      if current_task.next == null {
        assert i == |tasks| - 1;
        return task_head;
      }
      t := current_task.next;
    }

    method TaskSwitch(task: Task)
      requires Linked() && task in tasks
      modifies this`current_task
      ensures Linked() && current_task == task
    {
      current_task := task;
    }

    /** The first statement of task_list_remove: the predecessor skips the task. */
    method Unlink(task: Task, ghost k: nat)
      requires ForwardChain(tasks) && BackwardLinks(tasks) && k < |tasks| && tasks[k] == task
      modifies tasks
      ensures ForwardChain(Without(tasks, k)) && BackwardLinks(tasks)
      ensures task.next == if k < |tasks| - 1 then tasks[k + 1] else null
      ensures forall t: Task :: t in tasks ==> t.prev == old(t.prev)
    {
      if task.prev != null {
        task.prev.next := task.next;
      }
      RemoveForward(tasks, k);
    }

    /**
     task_list_remove: the forward chain is the old order without the task, and a
     removed current task hands over to its cyclic successor.  The prev of the
     successor is not repaired, so the list stays doubly linked exactly when the
     removed task was the tail.
     */
    method ListRemove(task: Task, ghost k: nat)
      requires Linked() && k < |tasks| && tasks[k] == task
      modifies this, tasks
      ensures Chained() && tasks == Without(old(tasks), k)
      ensures current_task == if old(current_task) != task then old(current_task)
                              else if |old(tasks)| == 1 then null else CyclicNext(old(tasks), k)
      ensures Linked() <==> k == |old(tasks)| - 1
      ensures forall t: Task :: t in old(tasks) ==> t.prev == old(t.prev)
    {
      hide Chained, Linked, ForwardChain, BackwardLinks, Distinct, Without, CyclicNext;
      ghost var ts := tasks;
      LinkedParts();
      Unlink(task, k);
      RemoveBackward(ts, k);
      label Unlinked:
      Relink(task, k);
      LinksKept@Unlinked(Without(ts, k));
      ChainedParts();
    }

    lemma LinkedParts()
      requires Linked() && tasks != []
      ensures ForwardChain(tasks) && BackwardLinks(tasks) && Distinct(tasks)
      ensures task_head == tasks[0] && task_tail == tasks[|tasks| - 1] && current_task in tasks
    {
    }

    lemma ChainedParts()
      requires ForwardChain(tasks)
      requires task_head == (if tasks == [] then null else tasks[0])
      requires task_tail == (if tasks == [] then null else tasks[|tasks| - 1])
      requires if tasks == [] then current_task == null else current_task in tasks
      ensures Chained() && (Linked() <==> BackwardLinks(tasks))
    {
    }

    /** The other statements of task_list_remove: head, tail and current task. */
    method Relink(task: Task, ghost k: nat)
      requires k < |tasks| && task == tasks[k] && Distinct(tasks) && BackwardLinks(tasks)
      requires task_head == tasks[0] && task_tail == tasks[|tasks| - 1] && current_task in tasks
      requires task.next == if k < |tasks| - 1 then tasks[k + 1] else null
      modifies this
      ensures tasks == Without(old(tasks), k)
      ensures task_head == (if tasks == [] then null else tasks[0])
      ensures task_tail == (if tasks == [] then null else tasks[|tasks| - 1])
      ensures if tasks == [] then current_task == null else current_task in tasks
      ensures current_task == if old(current_task) != task then old(current_task)
                              else if |old(tasks)| == 1 then null else CyclicNext(old(tasks), k)
    {
      ghost var ts := tasks;
      EndsWithout(ts, k);
      hide BackwardLinks, Distinct, Without, CyclicNext;
      MoveEnds(task, ts, k);
      HandOver(task, ts, k);
      tasks := Without(ts, k);
    }

    method MoveEnds(task: Task, ghost ts: seq<Task>, ghost k: nat)
      requires k < |ts| && task == ts[k] && Distinct(ts) && BackwardLinks(ts)
      requires task_head == ts[0] && task_tail == ts[|ts| - 1]
      requires task.next == if k < |ts| - 1 then ts[k + 1] else null
      modifies this`task_head, this`task_tail
      ensures var rest := Without(ts, k);
              && task_head == (if rest == [] then null else rest[0])
              && task_tail == (if rest == [] then null else rest[|rest| - 1])
    {
      hide BackwardLinks, Distinct, Without, CyclicNext;
      PrevIs(ts, k);
      EndsWithout(ts, k);
      EndsDiffer(ts, k);
      if task == task_head {
        task_head := task.next;
      }
      if task == task_tail {
        task_tail := task.prev;
      }
    }

    method HandOver(task: Task, ghost ts: seq<Task>, ghost k: nat)
      requires k < |ts| && task == ts[k] && Distinct(ts) && current_task in ts
      requires task.next == if k < |ts| - 1 then ts[k + 1] else null
      requires task_head == if |ts| == 1 then null else Without(ts, k)[0]
      modifies this`current_task
      ensures current_task == if old(current_task) != task then old(current_task)
                              else if |ts| == 1 then null else CyclicNext(ts, k)
      ensures if |ts| == 1 then current_task == null else current_task in Without(ts, k)
    {
      hide Distinct, Without, CyclicNext;
      EndsWithout(ts, k);
      if task == current_task {
        if task.next == null {
          current_task := task_head;
        } else {
          current_task := task.next;
        }
      } else {
        StillThere(ts, k, current_task);
      }
    }

    /** A run of task creations, switches and removals at the tail keeps the list doubly linked. */
    method Run(ops: seq<ListOp>)
      requires Linked()
      modifies this, tasks
      ensures Linked()
      ensures |tasks| == LengthAfter(|old(tasks)|, ops)
    {
      var i := 0;
      while i < |ops|
        invariant 0 <= i <= |ops| && Linked()
        invariant |tasks| == LengthAfter(|old(tasks)|, ops[..i])
        invariant forall j :: 0 <= j < |tasks| ==> fresh(tasks[j]) || tasks[j] in old(tasks)
      {
        assert ops[..i + 1][..i] == ops[..i];
        match ops[i] {
          case New(registers, paging) =>
            var _ := TaskNew(registers, paging);
          case Next =>
            if task_head != null {
              var t := GetNext();
              TaskSwitch(t);
            }
          case RemoveTail =>
            if task_tail != null {
              ListRemove(task_tail, |tasks| - 1);
            }
        }
        i := i + 1;
      }
      assert ops[..|ops|] == ops;
    }

    lemma ChainedIndex(i: nat)
      requires Chained() && i < |tasks|
      ensures IndexOf(tasks, tasks[i]) == i
    {
    }

    /** Calls of task_next: the visited tasks, in order. */
    method Turns(turns: nat) returns (visited: seq<Task>)
      requires Linked() && tasks != []
      modifies this`current_task
      ensures Linked() && |visited| == turns
      ensures InRingOrder(tasks, old(IndexOf(tasks, current_task)), visited)
      ensures forall a :: 0 <= a <= turns - |tasks| ==> EachOnce(tasks, visited, a)
      ensures turns > 0 ==> current_task == visited[turns - 1]
      ensures turns == 0 ==> current_task == old(current_task)
    {
      hide ForwardChain, BackwardLinks, IndexOf, EachOnce, InRingOrder, Distinct, CyclicNext;
      visited := [];
      ghost var c, n := IndexOf(tasks, current_task), |tasks|;
      SmallMod(c, n);
      NoTurns(tasks, c);
      while |visited| < turns
        invariant Linked() && |visited| <= turns
        invariant current_task == tasks[(c + |visited|) % n]
        invariant InRingOrder(tasks, c, visited)
        invariant |visited| > 0 ==> current_task == visited[|visited| - 1]
        decreases turns - |visited|
      {
        ChainedIndex((c + |visited|) % n);
        var t := GetNext();
        OneTurn(tasks, c, visited, t);
        TaskSwitch(t);
        visited := visited + [t];
      }
      AllRounds(tasks, c, visited);
    }
  }

  lemma NoTurns(ts: seq<Task>, c: nat)
    requires ts != []
    ensures InRingOrder(ts, c, [])
  {
  }

  lemma OneTurn(ts: seq<Task>, c: nat, visited: seq<Task>, t: Task)
    requires ts != [] && InRingOrder(ts, c, visited) && t == CyclicNext(ts, (c + |visited|) % |ts|)
    ensures InRingOrder(ts, c, visited + [t])
    ensures t in ts && t == ts[(c + (|visited| + 1)) % |ts|]
  {
    CyclicStep(c + |visited|, |ts|);
    assert TurnAt(|ts|, c, |visited|) == (c + |visited| + 1) % |ts|;
  }

  datatype ListOp = New(registers: word, paging: Translation) | Next | RemoveTail

  function LengthAfter(n: nat, ops: seq<ListOp>): nat {
    if ops == [] then n
    else
      var m := LengthAfter(n, ops[..|ops| - 1]);
      match ops[|ops| - 1]
      case New(_, _) => m + 1
      case Next => m
      case RemoveTail => if m == 0 then 0 else m - 1
  }

  // ---------- removal ----------

  /** The forward links after the removal, when the predecessor has been redirected. */
  lemma RemoveForward(ts: seq<Task>, k: nat)
    requires k < |ts| && Distinct(ts)
    requires forall i {:trigger ts[i].next} :: 0 <= i < |ts| - 1 && i != k - 1 ==> ts[i].next == ts[i + 1]
    requires k > 0 ==> ts[k - 1].next == ts[k].next
    requires k != |ts| - 1 ==> ts[|ts| - 1].next == null
    requires k == |ts| - 1 ==> ts[k].next == null
    ensures ForwardChain(Without(ts, k))
  {
    var rest := Without(ts, k);
    forall i: nat | i < |rest|
      ensures rest[i] == if i < k then ts[i] else ts[i + 1]
    {
      WithoutAt(ts, k, i);
    }
    forall i {:trigger rest[i].next} | 0 <= i < |rest| - 1
      ensures rest[i].next == rest[i + 1]
    {
    }
  }

  lemma RemoveBackward(ts: seq<Task>, k: nat)
    requires k < |ts| && Distinct(ts) && BackwardLinks(ts)
    ensures BackwardLinks(Without(ts, k)) <==> k == |ts| - 1
  {
    var rest := Without(ts, k);
    if k < |ts| - 1 {
      WithoutAt(ts, k, k);
      assert rest[k].prev == ts[k];
      if k > 0 {
        WithoutAt(ts, k, k - 1);
        assert rest[k - 1] == ts[k - 1];
      }
    } else {
      assert rest == ts[..k];
    }
  }

  lemma PrevIs(ts: seq<Task>, k: nat)
    requires k < |ts| && BackwardLinks(ts)
    ensures ts[k].prev == if k == 0 then null else ts[k - 1]
  {
  }

  lemma EndsDiffer(ts: seq<Task>, k: nat)
    requires k < |ts| && Distinct(ts)
    ensures ts[k] == ts[0] <==> k == 0
    ensures ts[k] == ts[|ts| - 1] <==> k == |ts| - 1
  {
  }

  lemma EndsWithout(ts: seq<Task>, k: nat)
    requires k < |ts| && Distinct(ts)
    ensures var rest := Without(ts, k);
            && |rest| == |ts| - 1
            && (rest != [] ==>
                  && rest[0] == (if k == 0 then ts[1] else ts[0])
                  && rest[|rest| - 1] == (if k == |ts| - 1 then ts[k - 1] else ts[|ts| - 1])
                  && CyclicNext(ts, k) == (if k == |ts| - 1 then ts[0] else ts[k + 1]))
            && (k < |ts| - 1 ==> ts[k + 1] in rest) && (k > 0 ==> ts[k - 1] in rest)
  {
    SmallMod(k + 1, |ts|);
    if k < |ts| - 1 {
      StillThere(ts, k, ts[k + 1]);
    }
    if k > 0 {
      StillThere(ts, k, ts[k - 1]);
    }
  }

  lemma StillThere(ts: seq<Task>, k: nat, t: Task)
    requires k < |ts| && t in ts && t != ts[k]
    ensures t in Without(ts, k)
  {
    var i := IndexOf(ts, t);
    if i < k {
      WithoutAt(ts, k, i);
    } else {
      WithoutAt(ts, k, i - 1);
    }
  }

  // ---------- fairness ----------

  /** The position that runs in turn k after position c of n tasks. */
  function TurnAt(n: nat, c: nat, k: nat): nat
    requires n > 0
  {
    (c + 1 + k) % n
  }

  /** The tasks visited after position c, in ring order. */
  ghost predicate InRingOrder(ts: seq<Task>, c: nat, visited: seq<Task>)
    requires ts != []
  {
    forall k :: 0 <= k < |visited| ==> visited[k] == ts[TurnAt(|ts|, c, k)]
  }

  /** Turn a + k after c is turn k after the position reached in a turns. */
  lemma {:induction false} LaterTurn(n: nat, c: nat, a: nat, k: nat)
    requires n > 0
    ensures TurnAt(n, c, a + k) == TurnAt(n, (c + a) % n, k)
    decreases k
  {
    if k == 0 {
      CyclicStep(c + a, n);
    } else {
      LaterTurn(n, c, a, k - 1);
      CyclicStep(c + a + k, n);
      CyclicStep((c + a) % n + k, n);
    }
  }

  /** In the |ts| turns from turn a on, each of the tasks runs exactly once. */
  ghost predicate EachOnce(ts: seq<Task>, visited: seq<Task>, a: nat) {
    a + |ts| <= |visited| && forall t :: t in ts ==> multiset(visited[a..a + |ts|])[t] == 1
  }

  /** A round from position d is the list cut in two, the parts exchanged. */
  lemma RoundIsRotation(ts: seq<Task>, c: nat, visited: seq<Task>, a: nat)
    requires ts != [] && InRingOrder(ts, c, visited) && a + |ts| <= |visited|
    ensures var d := (c + a) % |ts|;
            d < |ts| && visited[a..a + |ts|] == ts[d + 1..] + ts[..d + 1]
  {
    var n, d := |ts|, (c + a) % |ts|;
    var turns, rotated := visited[a..a + n], ts[d + 1..] + ts[..d + 1];
    forall k: nat | k < n
      ensures turns[k] == rotated[k]
    {
      assert visited[a + k] == ts[TurnAt(n, c, a + k)];
      LaterTurn(n, c, a, k);
      SmallMod(d + 1 + k, n);
    }
  }

  /**
   Round-robin fairness: any n consecutive turns of n tasks run each task exactly
   once, and the last of them is the task that ran just before.  So between two
   turns of one task every other task runs exactly once.
   */
  lemma EveryTaskOnce(ts: seq<Task>, c: nat, visited: seq<Task>, a: nat)
    requires c < |ts| && Distinct(ts) && InRingOrder(ts, c, visited) && a + |ts| <= |visited|
    ensures EachOnce(ts, visited, a)
    ensures visited[a + |ts| - 1] == if a == 0 then ts[c] else visited[a - 1]
  {
    hide InRingOrder, Distinct;
    RoundIsRotation(ts, c, visited, a);
    TurnBefore(ts, c, visited, a);
    var d :| d == (c + a) % |ts| && 0 <= d < |ts|;
    RotationCounts(ts, d + 1);
    RotationEnd(ts, d, visited, a);
  }

  lemma RotationEnd(ts: seq<Task>, d: nat, visited: seq<Task>, a: nat)
    requires d < |ts| && a + |ts| <= |visited| && visited[a..a + |ts|] == ts[d + 1..] + ts[..d + 1]
    ensures visited[a + |ts| - 1] == ts[d]
  {
    assert visited[a + |ts| - 1] == visited[a..a + |ts|][|ts| - 1];
  }

  lemma TurnBefore(ts: seq<Task>, c: nat, visited: seq<Task>, a: nat)
    requires c < |ts| && InRingOrder(ts, c, visited) && a < |visited|
    ensures ts[(c + a) % |ts|] == if a == 0 then ts[c] else visited[a - 1]
  {
    SmallMod(c, |ts|);
    if a > 0 {
      assert visited[a - 1] == ts[TurnAt(|ts|, c, a - 1)];
    }
  }

  lemma RotationCounts(ts: seq<Task>, d: nat)
    requires Distinct(ts) && d <= |ts|
    ensures forall t :: t in ts ==> multiset(ts[d..] + ts[..d])[t] == 1
  {
    assert ts == ts[..d] + ts[d..];
    forall t | t in ts
      ensures multiset(ts)[t] == 1
    {
      CountOne(ts, t);
    }
  }

  lemma AllRounds(ts: seq<Task>, c: nat, visited: seq<Task>)
    requires c < |ts| && ForwardChain(ts) && InRingOrder(ts, c, visited)
    ensures forall a :: 0 <= a <= |visited| - |ts| ==> EachOnce(ts, visited, a)
  {
    hide EachOnce, InRingOrder;
    forall a | 0 <= a <= |visited| - |ts|
      ensures EachOnce(ts, visited, a)
    {
      EveryTaskOnce(ts, c, visited, a);
    }
  }

  lemma {:induction false} CountOne(ts: seq<Task>, t: Task)
    requires Distinct(ts)
    ensures multiset(ts)[t] == if t in ts then 1 else 0
  {
    if ts != [] {
      var n := |ts| - 1;
      assert ts == ts[..n] + [ts[n]];
      CountOne(ts[..n], t);
    }
  }
}
