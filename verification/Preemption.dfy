/**
 Preemptive scheduling as a state machine: user steps, timer interrupts
 (idt_clock, src/idt/idt.c) and other interrupts, over any number of tasks.

 The processor executes one instruction by a function of the registers, of the
 memory of the task, and of all other memory, the world.  A page directory shows
 every task all of memory, so nothing keeps a program from reading what other
 tasks and the kernel write; it can write only what is its own.  Nothing is
 assumed about programs: whether one notices is what the results decide.
 */
module Preemption {
  import opened Bits
  import opened TaskRegisters

  /** One instruction of user code: registers and own memory before and after, and the rest of memory, which it may read. */
  type Exec<!M, !W> = (Registers, M, W) -> (Registers, M)

  /** The registers without the flags, which task_return does not restore. */
  function View(r: Registers): Registers {
    r.(flags := 0)
  }

  datatype Sys<M> = Sys(cpu: Registers, current: nat, loaded: nat, saved: seq<Registers>, memory: seq<M>)

  ghost predicate Ok<M>(s: Sys<M>) {
    |s.saved| == |s.memory| && s.current < |s.saved| && s.loaded == s.current
  }

  /** The state of task i: on the processor if it is running, in its saved registers otherwise. */
  ghost function RegistersOf<M>(s: Sys<M>, i: nat): Registers
    requires Ok(s) && i < |s.saved|
  {
    if i == s.current then s.cpu else s.saved[i]
  }

  datatype Event<W> =
      /** The current task executes an instruction; world is the memory that is not its own. */
    | User(world: W)
      /** The timer fires; kernel_flags are the flags when task_return pushes them. */
    | Timer(kernel_flags: word)
      /** Another interrupt, which returns to the interrupted task; only registered ones save its state. */
    | Interrupt(registered: bool)

  ghost function Step<M, W>(exec: Exec<M, W>, s: Sys<M>, e: Event<W>): (s': Sys<M>)
    requires Ok(s)
    ensures Ok(s') && |s'.saved| == |s.saved|
  {
    match e
    case User(world) =>
      var r := exec(s.cpu, s.memory[s.loaded], world);
      Sys(r.0, s.current, s.loaded, s.saved, s.memory[s.loaded := r.1])
    case Timer(kernel_flags) =>
      var saved := s.saved[s.current := s.cpu];
      var next := (s.current + 1) % |saved|;
      Sys(saved[next].(flags := ResumeFlags(kernel_flags)), next, next, saved, s.memory)
    case Interrupt(registered) =>
      Sys(s.cpu, s.current, s.current, if registered then s.saved[s.current := s.cpu] else s.saved, s.memory)
  }

  ghost function Run<M, W>(exec: Exec<M, W>, s: Sys<M>, es: seq<Event<W>>): (s': Sys<M>)
    requires Ok(s)
    ensures Ok(s') && |s'.saved| == |s.saved|
  {
    if es == [] then s else Step(exec, Run(exec, s, es[..|es| - 1]), es[|es| - 1])
  }

  /** The registers and memory that task i sees at each of its own steps in the run. */
  ghost function Trace<M, W>(exec: Exec<M, W>, s: Sys<M>, es: seq<Event<W>>, i: nat): seq<(Registers, M)>
    requires Ok(s) && i < |s.saved|
  {
    if es == [] then []
    else
      var before := Run(exec, s, es[..|es| - 1]);
      Trace(exec, s, es[..|es| - 1], i)
      + if es[|es| - 1].User? && before.loaded == i then [(View(before.cpu), before.memory[i])] else []
  }

  /** Steps of one task with the processor to itself, in these worlds. */
  ghost function Through<M, W>(exec: Exec<M, W>, a: (Registers, M), ws: seq<W>): (Registers, M) {
    if ws == [] then a
    else
      var b := Through(exec, a, ws[..|ws| - 1]);
      exec(b.0, b.1, ws[|ws| - 1])
  }

  /** k steps of one task alone: with the processor to itself, in a world w that does not change. */
  ghost function Alone<M, W>(exec: Exec<M, W>, a: (Registers, M), w: W, k: nat): (Registers, M) {
    if k == 0 then a
    else
      var b := Alone(exec, a, w, k - 1);
      exec(b.0, b.1, w)
  }

  ghost function AloneTrace<M, W>(exec: Exec<M, W>, a: (Registers, M), w: W, k: nat): seq<(Registers, M)> {
    seq(k, j requires 0 <= j < k => (View(Alone(exec, a, w, j).0), Alone(exec, a, w, j).1))
  }

  /** The same registers but for the flags, and the same memory. */
  ghost predicate Alike<M>(a: (Registers, M), b: (Registers, M)) {
    View(a.0) == View(b.0) && a.1 == b.1
  }

  /** What task i is at: its registers, wherever they are, and its memory. */
  ghost function StateOf<M>(s: Sys<M>, i: nat): (Registers, M)
    requires Ok(s) && i < |s.saved|
  {
    (RegistersOf(s, i), s.memory[i])
  }

  /** In this run task i goes through the states of a lone run from a in world w. */
  ghost predicate Matches<M, W>(exec: Exec<M, W>, s: Sys<M>, es: seq<Event<W>>, i: nat, a: (Registers, M), w: W)
    requires Ok(s) && i < |s.saved|
  {
    var t := Trace(exec, s, es, i);
    t == AloneTrace(exec, a, w, |t|) && Alike(StateOf(Run(exec, s, es), i), Alone(exec, a, w, |t|))
  }

  /** In this run task i cannot tell that it was ever interrupted, nor that it is not alone. */
  ghost predicate Unnoticed<M, W>(exec: Exec<M, W>, s: Sys<M>, es: seq<Event<W>>, i: nat, w: W)
    requires Ok(s) && i < |s.saved|
  {
    Matches(exec, s, es, i, StateOf(s, i), w)
  }

  // ---------- one run ----------

  /** Where task i was last resumed: after which of its steps and with which kernel flags. */
  datatype Resumption = Never | After(steps: nat, flags: word)

  function StepsOf(l: Resumption): nat {
    if l.Never? then 0 else l.steps
  }

  /** The lone run as it is resumed by task_return. */
  ghost function Resumed<M, W>(exec: Exec<M, W>, a: (Registers, M), w: W, l: Resumption): (Registers, M) {
    match l
    case Never => a
    case After(k, f) =>
      var b := Alone(exec, a, w, k);
      (b.0.(flags := ResumeFlags(f)), b.1)
  }

  /** Neither the flags lost at this resumption nor the worlds met since make a difference to the task. */
  ghost predicate Agrees<M, W>(exec: Exec<M, W>, a: (Registers, M), w: W, l: Resumption, ws: seq<W>) {
    Alike(Through(exec, Resumed(exec, a, w, l), ws), Alone(exec, a, w, StepsOf(l) + |ws|))
  }

  ghost function LastResumed<M, W>(exec: Exec<M, W>, s: Sys<M>, es: seq<Event<W>>, i: nat): (l: Resumption)
    requires Ok(s) && i < |s.saved|
  {
    if es == [] then Never
    else
      var e := es[|es| - 1];
      if e.Timer? && Run(exec, s, es).current == i then After(|Trace(exec, s, es, i)|, e.kernel_flags)
      else LastResumed(exec, s, es[..|es| - 1], i)
  }

  /** The worlds of the steps of task i since it was last resumed. */
  ghost function Since<M, W>(exec: Exec<M, W>, s: Sys<M>, es: seq<Event<W>>, i: nat): (ws: seq<W>)
    requires Ok(s) && i < |s.saved|
    ensures StepsOf(LastResumed(exec, s, es, i)) + |ws| == |Trace(exec, s, es, i)|
  {
    if es == [] then []
    else
      var front, e := es[..|es| - 1], es[|es| - 1];
      if e.Timer? && Run(exec, s, es).current == i then []
      else Since(exec, s, front, i) + if e.User? && Run(exec, s, front).loaded == i then [e.world] else []
  }

  /** At the end of this run, task i has seen nothing of the flags lost when it was last resumed, nor of the world since. */
  ghost predicate Undisturbed<M, W>(exec: Exec<M, W>, s: Sys<M>, es: seq<Event<W>>, i: nat, w: W)
    requires Ok(s) && i < |s.saved|
  {
    Agrees(exec, StateOf(s, i), w, LastResumed(exec, s, es, i), Since(exec, s, es, i))
  }

  /** Where the task is at the end of the run, if it has noticed nothing before the last event. */
  ghost function Expected<M, W>(exec: Exec<M, W>, s: Sys<M>, es: seq<Event<W>>, i: nat, w: W): (Registers, M)
    requires Ok(s) && i < |s.saved|
  {
    Through(exec, Resumed(exec, StateOf(s, i), w, LastResumed(exec, s, es, i)), Since(exec, s, es, i))
  }

  /** What one event does to task i. */
  lemma StepOf<M, W>(exec: Exec<M, W>, s: Sys<M>, e: Event<W>, i: nat)
    requires Ok(s) && i < |s.saved|
    ensures var a, s' := StateOf(s, i), Step(exec, s, e);
            StateOf(s', i)
            == if e.User? && s.loaded == i then exec(a.0, a.1, e.world)
               else if e.Timer? && s'.current == i then (a.0.(flags := ResumeFlags(e.kernel_flags)), a.1) else a
  {
  }

  lemma ThroughNext<M, W>(exec: Exec<M, W>, a: (Registers, M), ws: seq<W>, w: W)
    ensures Through(exec, a, ws + [w]) == exec(Through(exec, a, ws).0, Through(exec, a, ws).1, w)
  {
    assert (ws + [w])[..|ws|] == ws;
  }

  lemma ExpectedStep<M, W>(exec: Exec<M, W>, s: Sys<M>, es: seq<Event<W>>, i: nat, w: W)
    requires Ok(s) && i < |s.saved| && es != []
    ensures var front, e := es[..|es| - 1], es[|es| - 1];
            var before, k := Run(exec, s, front), |Trace(exec, s, front, i)|;
            var a, lone := Expected(exec, s, front, i, w), Alone(exec, StateOf(s, i), w, k);
            Expected(exec, s, es, i, w)
            == if e.User? && before.loaded == i then exec(a.0, a.1, e.world)
               else if e.Timer? && Run(exec, s, es).current == i then (lone.0.(flags := ResumeFlags(e.kernel_flags)), lone.1) else a
  {
    var front, e := es[..|es| - 1], es[|es| - 1];
    var l, ws := LastResumed(exec, s, front, i), Since(exec, s, front, i);
    hide Step, Alone;
    assert ws + [] == ws;
    if e.User? {
      ThroughNext(exec, Resumed(exec, StateOf(s, i), w, l), ws, e.world);
    }
  }

  lemma {:induction false} Located<M, W>(exec: Exec<M, W>, s: Sys<M>, es: seq<Event<W>>, i: nat, w: W)
    requires Ok(s) && i < |s.saved| && (es == [] || Unnoticed(exec, s, es[..|es| - 1], i, w))
    ensures StateOf(Run(exec, s, es), i) == Expected(exec, s, es, i, w)
  {
    if es != [] {
      var front := es[..|es| - 1];
      assert Run(exec, s, es) == Step(exec, Run(exec, s, front), es[|es| - 1]);
      hide Step, AloneTrace, Expected, Run, Trace, Alone;
      if front != [] {
        PrefixUnnoticed(exec, s, front, i, w);
      }
      Located(exec, s, front, i, w);
      StepOf(exec, Run(exec, s, front), es[|es| - 1], i);
      ExpectedStep(exec, s, es, i, w);
    }
  }

  /** What a run does not show, no shorter run shows. */
  lemma PrefixUnnoticed<M, W>(exec: Exec<M, W>, s: Sys<M>, es: seq<Event<W>>, i: nat, w: W)
    requires Ok(s) && i < |s.saved| && es != [] && Unnoticed(exec, s, es, i, w)
    ensures Unnoticed(exec, s, es[..|es| - 1], i, w)
  {
    var n := |es| - 1;
    var a := StateOf(s, i);
    var before, e := Run(exec, s, es[..n]), es[n];
    var t, t' := Trace(exec, s, es[..n], i), Trace(exec, s, es, i);
    assert AloneTrace(exec, a, w, |t|) == AloneTrace(exec, a, w, |t'|)[..|t|];
    if e.User? && before.loaded == i {
      assert t' == t + [(View(before.cpu), before.memory[i])];
      assert t'[|t|] == AloneTrace(exec, a, w, |t'|)[|t|];
    }
  }

  /** One event more is unnoticed exactly when the task is still undisturbed. */
  lemma StepExactly<M, W>(exec: Exec<M, W>, s: Sys<M>, es: seq<Event<W>>, i: nat, w: W)
    requires Ok(s) && i < |s.saved| && es != []
    ensures Unnoticed(exec, s, es, i, w) <==> Unnoticed(exec, s, es[..|es| - 1], i, w) && Undisturbed(exec, s, es, i, w)
  {
    if Unnoticed(exec, s, es, i, w) {
      PrefixUnnoticed(exec, s, es, i, w);
    }
    if Unnoticed(exec, s, es[..|es| - 1], i, w) {
      Located(exec, s, es, i, w);
      TraceStep(exec, s, es, i, w);
      hide Step, Run, Trace, AloneTrace, Alone, Through;
    }
  }

  lemma TraceStep<M, W>(exec: Exec<M, W>, s: Sys<M>, es: seq<Event<W>>, i: nat, w: W)
    requires Ok(s) && i < |s.saved| && es != [] && Unnoticed(exec, s, es[..|es| - 1], i, w)
    ensures var t := Trace(exec, s, es, i); t == AloneTrace(exec, StateOf(s, i), w, |t|)
  {
    var n, a := |es| - 1, StateOf(s, i);
    var before, e := Run(exec, s, es[..n]), es[n];
    var t, t' := Trace(exec, s, es[..n], i), Trace(exec, s, es, i);
    if e.User? && before.loaded == i {
      assert AloneTrace(exec, a, w, |t| + 1) == t + [(View(before.cpu), before.memory[i])];
    } else {
      assert t' == t;
    }
  }

  /** The task is undisturbed at every point of the run. */
  ghost predicate AlwaysUndisturbed<M, W>(exec: Exec<M, W>, s: Sys<M>, es: seq<Event<W>>, i: nat, w: W)
    requires Ok(s) && i < |s.saved|
  {
    forall q :: 0 <= q <= |es| ==> Undisturbed(exec, s, es[..q], i, w)
  }

  lemma UndisturbedStep<M, W>(exec: Exec<M, W>, s: Sys<M>, es: seq<Event<W>>, i: nat, w: W)
    requires Ok(s) && i < |s.saved| && es != []
    ensures AlwaysUndisturbed(exec, s, es, i, w)
            <==> AlwaysUndisturbed(exec, s, es[..|es| - 1], i, w) && Undisturbed(exec, s, es, i, w)
  {
    hide Undisturbed;
    var n := |es| - 1;
    forall q | 0 <= q <= n
      ensures es[..n][..q] == es[..q]
    {
    }
    assert es[..|es|] == es;
  }

  /**
   Preemption in one run, exactly: the task notices nothing if and only if, at each
   point of the run, neither the flags it lost when it was last resumed nor what
   the rest of memory held at its steps since then has had an effect.  Only the
   places where the timer did strike this task matter.
   */
  lemma {:induction false} UnnoticedExactly<M, W>(exec: Exec<M, W>, s: Sys<M>, es: seq<Event<W>>, i: nat, w: W)
    requires Ok(s) && i < |s.saved|
    ensures Unnoticed(exec, s, es, i, w) <==> AlwaysUndisturbed(exec, s, es, i, w)
  {
    if es == [] {
      assert Trace(exec, s, es, i) == AloneTrace(exec, StateOf(s, i), w, 0);
      assert es[..0] == es;
    } else {
      hide Unnoticed, Undisturbed, AlwaysUndisturbed;
      UnnoticedExactly(exec, s, es[..|es| - 1], i, w);
      StepExactly(exec, s, es, i, w);
      UndisturbedStep(exec, s, es, i, w);
    }
  }

  // ---------- every run ----------

  /**
   Wherever along its lone run the task is resumed, with whatever flags, and
   whatever the rest of memory holds from then on, it goes on as it would have.
   A task that is running at the start also goes on so without being resumed.
   */
  ghost predicate Blind<M, W(!new)>(exec: Exec<M, W>, a: (Registers, M), w: W, running: bool) {
    forall l: Resumption, ws: seq<W> :: (l.After? || running) ==> Agrees(exec, a, w, l, ws)
  }

  /**
   Preemption is invisible to a blind task: over every interleaving of user steps,
   timer interrupts and other interrupts, whatever the other tasks execute, it goes
   through the states it would go through alone.
   */
  lemma PreemptionInvisible<M, W(!new)>(exec: Exec<M, W>, s: Sys<M>, es: seq<Event<W>>, i: nat, w: W)
    requires Ok(s) && i < |s.saved| && Blind(exec, StateOf(s, i), w, i == s.current)
    ensures Unnoticed(exec, s, es, i, w)
  {
    hide Agrees;
    UnnoticedExactly(exec, s, es, i, w);
    forall q | 0 <= q <= |es|
      ensures Undisturbed(exec, s, es[..q], i, w)
    {
      var l, ws := LastResumed(exec, s, es[..q], i), Since(exec, s, es[..q], i);
      if l.Never? && i != s.current {
        NeverRan(exec, s, es[..q], i);
        NothingHappened(exec, StateOf(s, i), w);
      }
    }
  }

  lemma NothingHappened<M, W>(exec: Exec<M, W>, a: (Registers, M), w: W)
    ensures Agrees(exec, a, w, Never, [])
  {
  }

  /** A task that was not running and has not been resumed has done no step. */
  lemma {:induction false} NeverRan<M, W>(exec: Exec<M, W>, s: Sys<M>, es: seq<Event<W>>, i: nat)
    requires Ok(s) && i < |s.saved| && i != s.current && LastResumed(exec, s, es, i).Never?
    ensures Run(exec, s, es).current != i && Since(exec, s, es, i) == []
  {
    if es != [] {
      NeverRan(exec, s, es[..|es| - 1], i);
    }
  }

  /** The condition is exact for each task of each system: a task that is not blind notices some run. */
  lemma InvisibleExactly<M, W(!new)>(exec: Exec<M, W>, s: Sys<M>, i: nat, w: W)
    requires Ok(s) && i < |s.saved|
    ensures Blind(exec, StateOf(s, i), w, i == s.current) <==> forall es: seq<Event<W>> :: Unnoticed(exec, s, es, i, w)
  {
    hide Agrees, Unnoticed;
    if Blind(exec, StateOf(s, i), w, i == s.current) {
      forall es: seq<Event<W>>
        ensures Unnoticed(exec, s, es, i, w)
      {
        PreemptionInvisible(exec, s, es, i, w);
      }
    }
    if forall es: seq<Event<W>> :: Unnoticed(exec, s, es, i, w) {
      forall l: Resumption, ws: seq<W> | l.After? || i == s.current
        ensures Agrees(exec, StateOf(s, i), w, l, ws)
      {
        if l.After? {
          ProbeShows(exec, s, i, w, l.steps, l.flags, ws);
        } else {
          StartShows(exec, s, i, w, ws);
        }
      }
    }
  }

  /** The run that tries a task out: its turn, k steps, a full round of timers with flags f, and steps in the worlds ws. */
  ghost function Probe<M, W>(s: Sys<M>, i: nat, w: W, k: nat, f: word, ws: seq<W>): seq<Event<W>>
    requires Ok(s) && i < |s.saved|
  {
    Timers(f, Rounds(s, i)) + Users(Same(w, k)) + Timers(f, |s.saved|) + Users(ws)
  }

  ghost function Timers<W>(f: word, n: nat): seq<Event<W>> {
    seq(n, _ => Timer(f))
  }

  ghost function Users<W>(ws: seq<W>): seq<Event<W>> {
    seq(|ws|, i requires 0 <= i < |ws| => User(ws[i]))
  }

  ghost function Same<W>(w: W, k: nat): seq<W> {
    seq(k, _ => w)
  }

  /** Timer interrupts until it is the turn of task i, at least one. */
  ghost function Rounds<M>(s: Sys<M>, i: nat): (n: nat)
    requires Ok(s) && i < |s.saved|
    ensures n > 0 && (s.current + n == i || s.current + n == i + |s.saved|)
  {
    if s.current < i then i - s.current else i + |s.saved| - s.current
  }

  lemma ProbeShows<M, W>(exec: Exec<M, W>, s: Sys<M>, i: nat, w: W, k: nat, f: word, ws: seq<W>)
    requires Ok(s) && i < |s.saved| && Unnoticed(exec, s, Probe(s, i, w, k, f, ws), i, w)
    ensures Agrees(exec, StateOf(s, i), w, After(k, f), ws)
  {
    hide Agrees, Unnoticed, Run, Trace, LastResumed, Since;
    var n, es := |s.saved|, Probe(s, i, w, k, f, ws);
    var turn: seq<Event<W>> := Timers(f, Rounds(s, i));
    var ran := turn + Users(Same(w, k));
    var again := ran + Timers(f, n);
    StartEmpty(exec, s, i);
    SmallMod(s.current + Rounds(s, i), n);
    SmallMod(i + n, n);
    assert [] + turn == turn;
    TimersRun(exec, s, [], f, Rounds(s, i), i);
    UsersRun(exec, s, turn, Same(w, k), i);
    TimersRun(exec, s, ran, f, n, i);
    UsersRun(exec, s, again, ws, i);
    assert again + Users(ws) == es;
    LastPoint(exec, s, es, i, w);
    assert [] + ws == ws;
  }

  lemma StartShows<M, W>(exec: Exec<M, W>, s: Sys<M>, i: nat, w: W, ws: seq<W>)
    requires Ok(s) && i < |s.saved| && i == s.current && Unnoticed(exec, s, Users(ws), i, w)
    ensures Agrees(exec, StateOf(s, i), w, Never, ws)
  {
    hide Agrees, Unnoticed, Run, Trace, LastResumed, Since;
    StartEmpty(exec, s, i);
    UsersRun(exec, s, [], ws, i);
    assert [] + Users(ws) == Users(ws) && [] + ws == ws;
    LastPoint(exec, s, Users(ws), i, w);
  }

  lemma LastPoint<M, W>(exec: Exec<M, W>, s: Sys<M>, es: seq<Event<W>>, i: nat, w: W)
    requires Ok(s) && i < |s.saved| && Unnoticed(exec, s, es, i, w)
    ensures Undisturbed(exec, s, es, i, w)
  {
    hide Undisturbed, Unnoticed;
    UnnoticedExactly(exec, s, es, i, w);
    assert es[..|es|] == es;
  }

  lemma StartEmpty<M, W>(exec: Exec<M, W>, s: Sys<M>, i: nat)
    requires Ok(s) && i < |s.saved|
    ensures Run(exec, s, []) == s && Trace(exec, s, [], i) == []
    ensures LastResumed(exec, s, [], i) == Never && Since(exec, s, [], i) == []
  {
  }

  lemma OneTimer<M, W>(exec: Exec<M, W>, s: Sys<M>, es: seq<Event<W>>, f: word, i: nat)
    requires Ok(s) && i < |s.saved|
    ensures var es' := es + [Timer(f)];
            && Run(exec, s, es').current == (Run(exec, s, es).current + 1) % |s.saved|
            && Trace(exec, s, es', i) == Trace(exec, s, es, i)
            && (Run(exec, s, es').current == i ==>
                  LastResumed(exec, s, es', i) == After(|Trace(exec, s, es, i)|, f) && Since(exec, s, es', i) == [])
  {
    assert (es + [Timer(f)])[..|es|] == es;
  }

  lemma OneUser<M, W>(exec: Exec<M, W>, s: Sys<M>, es: seq<Event<W>>, w: W, i: nat)
    requires Ok(s) && i < |s.saved| && Run(exec, s, es).current == i
    ensures var es' := es + [User(w)];
            && Run(exec, s, es').current == i
            && |Trace(exec, s, es', i)| == |Trace(exec, s, es, i)| + 1
            && LastResumed(exec, s, es', i) == LastResumed(exec, s, es, i)
            && Since(exec, s, es', i) == Since(exec, s, es, i) + [w]
  {
    assert (es + [User(w)])[..|es|] == es;
  }

  /** Timer interrupts turn the ring; the last of them resumes the task whose turn it is. */
  lemma {:induction false} TimersRun<M, W>(exec: Exec<M, W>, s: Sys<M>, es: seq<Event<W>>, f: word, n: nat, i: nat)
    requires Ok(s) && i < |s.saved|
    ensures var es' := es + Timers(f, n);
            && Run(exec, s, es').current == (Run(exec, s, es).current + n) % |s.saved|
            && Trace(exec, s, es', i) == Trace(exec, s, es, i)
            && (n > 0 && Run(exec, s, es').current == i ==>
                  LastResumed(exec, s, es', i) == After(|Trace(exec, s, es, i)|, f) && Since(exec, s, es', i) == [])
  {
    hide Run, Trace, LastResumed, Since;
    if n == 0 {
      assert es + Timers(f, n) == es;
      SmallMod(Run(exec, s, es).current, |s.saved|);
    } else {
      TimersRun(exec, s, es, f, n - 1, i);
      OneTimer(exec, s, es + Timers(f, n - 1), f, i);
      assert es + Timers(f, n) == es + Timers(f, n - 1) + [Timer(f)];
      CyclicStep(Run(exec, s, es).current + n - 1, |s.saved|);
    }
  }

  /** User steps are steps of the current task and resume nobody. */
  lemma {:induction false} UsersRun<M, W>(exec: Exec<M, W>, s: Sys<M>, es: seq<Event<W>>, ws: seq<W>, i: nat)
    requires Ok(s) && i < |s.saved| && Run(exec, s, es).current == i
    ensures var es' := es + Users(ws);
            && Run(exec, s, es').current == i
            && |Trace(exec, s, es', i)| == |Trace(exec, s, es, i)| + |ws|
            && LastResumed(exec, s, es', i) == LastResumed(exec, s, es, i)
            && Since(exec, s, es', i) == Since(exec, s, es, i) + ws
    decreases |ws|
  {
    hide Run, Trace, LastResumed, Since;
    if ws == [] {
      assert es + Users(ws) == es;
    } else {
      var front, w := ws[..|ws| - 1], ws[|ws| - 1];
      UsersRun(exec, s, es, front, i);
      OneUser(exec, s, es + Users(front), w, i);
      assert es + Users(ws) == es + Users(front) + [User(w)];
      assert Since(exec, s, es, i) + front + [w] == Since(exec, s, es, i) + ws;
    }
  }

  // ---------- interrupts stay on ----------

  /** User code cannot turn interrupts off, which its privilege does not allow. */
  ghost predicate KeepsInterrupts<M(!new), W(!new)>(exec: Exec<M, W>) {
    forall r: Registers, m: M, w: W :: InterruptsOn(r.flags) ==> InterruptsOn(exec(r, m, w).0.flags)
  }

  /** After every timer interrupt the next task runs with interrupts on, whatever the kernel's flags were. */
  lemma TimerTurnsOn<M, W>(exec: Exec<M, W>, s: Sys<M>, es: seq<Event<W>>, f: word)
    requires Ok(s)
    ensures InterruptsOn(Run(exec, s, es + [Timer(f)]).cpu.flags)
  {
    assert (es + [Timer(f)])[..|es|] == es;
  }

  /** So no task of any run escapes the timer: from the start on, interrupts are on whenever user code runs. */
  lemma {:induction false} AlwaysPreemptible<M(!new), W(!new)>(exec: Exec<M, W>, s: Sys<M>, es: seq<Event<W>>)
    requires Ok(s) && InterruptsOn(s.cpu.flags) && KeepsInterrupts(exec)
    ensures InterruptsOn(Run(exec, s, es).cpu.flags)
  {
    hide InterruptsOn;
    if es != [] {
      AlwaysPreemptible(exec, s, es[..|es| - 1]);
    }
  }

  // ---------- instructions that look at nothing else ----------

  ghost predicate SameEffect<M, W>(exec: Exec<M, W>, r: Registers, m: M, w: W, f: word, w': W) {
    Alike(exec(r.(flags := f), m, w'), exec(r, m, w))
  }

  /** No instruction that the task reaches on its own lets the flags or the rest of memory influence another register or its memory. */
  ghost predicate PrivateAlong<M, W(!new)>(exec: Exec<M, W>, a: (Registers, M), w: W) {
    forall k: nat, f: word, w': W :: SameEffect(exec, Alone(exec, a, w, k).0, Alone(exec, a, w, k).1, w, f, w')
  }

  /** No instruction at all does. */
  ghost predicate Private<M(!new), W(!new)>(exec: Exec<M, W>) {
    forall r: Registers, m: M, w: W, f: word, w': W :: SameEffect(exec, r, m, w, f, w')
  }

  /** A task whose own instructions look at neither flags nor foreign memory is blind. */
  lemma BlindAlong<M, W(!new)>(exec: Exec<M, W>, a: (Registers, M), w: W)
    requires PrivateAlong(exec, a, w)
    ensures Blind(exec, a, w, true)
  {
    forall l: Resumption, ws: seq<W>
      ensures Agrees(exec, a, w, l, ws)
    {
      AgreesAlong(exec, a, w, l, ws);
    }
  }

  lemma {:induction false} AgreesAlong<M, W(!new)>(exec: Exec<M, W>, a: (Registers, M), w: W, l: Resumption, ws: seq<W>)
    requires PrivateAlong(exec, a, w)
    ensures Agrees(exec, a, w, l, ws)
    decreases |ws|
  {
    if ws != [] {
      var front, w' := ws[..|ws| - 1], ws[|ws| - 1];
      AgreesAlong(exec, a, w, l, front);
      var b, c := Through(exec, Resumed(exec, a, w, l), front), Alone(exec, a, w, StepsOf(l) + |front|);
      assert SameEffect(exec, c.0, c.1, w, b.0.flags, w');
      assert c.0.(flags := b.0.flags) == b.0;
    }
  }

  /** Every task is blind, whatever it executes, exactly when no instruction at all looks at flags or foreign memory. */
  lemma BlindEverywhere<M(!new), W(!new)>(exec: Exec<M, W>)
    ensures Private(exec) <==> forall a: (Registers, M), w: W :: Blind(exec, a, w, true)
  {
    if Private(exec) {
      forall a: (Registers, M), w: W
        ensures Blind(exec, a, w, true)
      {
        BlindAlong(exec, a, w);
      }
    }
    if forall a: (Registers, M), w: W :: Blind(exec, a, w, true) {
      forall r: Registers, m: M, w: W, f: word, w': W
        ensures SameEffect(exec, r, m, w, f, w')
      {
        BlindStep(exec, r, m, w, w');
        BlindStep(exec, r.(flags := f), m, w', w');
      }
    }
  }

  lemma BlindStep<M, W(!new)>(exec: Exec<M, W>, r: Registers, m: M, w: W, w': W)
    requires Blind(exec, (r, m), w, true)
    ensures SameEffect(exec, r, m, w, ResumeFlags(0), w')
  {
    assert Agrees(exec, (r, m), w, After(0, 0), [w']);
    var a := (r.(flags := ResumeFlags(0)), m);
    assert Alone(exec, (r, m), w, 0) == (r, m) && Alone(exec, (r, m), w, 1) == exec(r, m, w);
    assert [w'][..0] == [] && Through(exec, a, []) == a;
    assert Through(exec, a, [w']) == exec(a.0, a.1, w');
  }

  /** One task, one timer interrupt, one step: the flags the task had are gone, and the world has changed. */
  lemma Noticed<M, W>(exec: Exec<M, W>, r: Registers, m: M, w: W, w': W)
    requires !SameEffect(exec, r, m, w, ResumeFlags(0), w')
    ensures Ok(Sys(r, 0, 0, [r], [m])) && !Unnoticed(exec, Sys(r, 0, 0, [r], [m]), [Timer(0), User(w')], 0, w)
  {
    var s := Sys(r, 0, 0, [r], [m]);
    var es := [Timer(0), User(w')];
    assert es[..1] == [Timer(0)] && es[..1][..0] == [];
    var s1 := Step(exec, s, es[0]);
    assert Run(exec, s, es[..1]) == s1;
    assert s1.cpu == r.(flags := ResumeFlags(0));
    assert Run(exec, s, es) == Step(exec, s1, User(w'));
    assert Trace(exec, s, es[..1], 0) == [];
    assert |Trace(exec, s, es, 0)| == 1;
    assert Alone(exec, (r, m), w, 0) == (r, m) && Alone(exec, (r, m), w, 1) == exec(r, m, w);
  }

  // ---------- the system at start ----------

  datatype Entry = Entry(is_elf: bool, address: word)

  /** The registers that task_init leaves in each task. */
  ghost function InitialSaved(entries: seq<Entry>): (saved: seq<Registers>)
    ensures |saved| == |entries|
  {
    seq(|entries|, i requires 0 <= i < |entries| => InitialRegisters(entries[i].is_elf, entries[i].address))
  }

  /** All tasks as task_init leaves them, before the first one runs. */
  ghost function Loaded<M>(entries: seq<Entry>, memory: seq<M>): (s: Sys<M>)
    requires |entries| == |memory| > 0
    ensures Ok(s) && s.saved == InitialSaved(entries) && s.memory == memory
    ensures forall i: nat :: i < |entries| ==> RegistersOf(s, i) == InitialRegisters(entries[i].is_elf, entries[i].address)
  {
    var saved := InitialSaved(entries);
    Sys(saved[|entries| - 1], |entries| - 1, |entries| - 1, saved, memory)
  }

  /** The first task entered by task_run_first_ever_task, through task_return like any other. */
  ghost function Started<M>(entries: seq<Entry>, memory: seq<M>, kernel_flags: word): (s: Sys<M>)
    requires |entries| == |memory| > 0
    ensures Ok(s) && |s.saved| == |entries| && InterruptsOn(s.cpu.flags)
  {
    Sys(InitialSaved(entries)[0].(flags := ResumeFlags(kernel_flags)), 0, 0, InitialSaved(entries), memory)
  }

  /** Starting is like a timer interrupt that makes it the turn of the first task. */
  lemma {:induction false} StartIsTimer<M, W>(exec: Exec<M, W>, entries: seq<Entry>, memory: seq<M>, kernel_flags: word, es: seq<Event<W>>, i: nat)
    requires |entries| == |memory| > 0 && i < |entries|
    ensures var s, es' := Loaded(entries, memory), [Timer(kernel_flags)] + es;
            && Run(exec, s, es') == Run(exec, Started(entries, memory, kernel_flags), es)
            && Trace(exec, s, es', i) == Trace(exec, Started(entries, memory, kernel_flags), es, i)
  {
    var s, es' := Loaded(entries, memory), [Timer(kernel_flags)] + es;
    if es == [] {
      StartEmpty(exec, s, i);
      assert es'[..0] == [];
      assert s.saved[s.current := s.cpu] == s.saved;
      SmallMod(s.current + 1, |entries|);
      assert Step(exec, s, es'[0]) == Started(entries, memory, kernel_flags);
    } else {
      assert es'[..|es'| - 1] == [Timer(kernel_flags)] + es[..|es| - 1];
      StartIsTimer(exec, entries, memory, kernel_flags, es[..|es| - 1], i);
    }
  }

  /** From start-up, a task sees exactly what a lone run from its task_init registers sees, if and only if it is blind. */
  lemma InvisibleFromStart<M, W(!new)>(exec: Exec<M, W>, entries: seq<Entry>, memory: seq<M>, i: nat, w: W)
    requires |entries| == |memory| > 0 && i < |entries|
    ensures var a := (InitialRegisters(entries[i].is_elf, entries[i].address), memory[i]);
            Blind(exec, a, w, false)
            <==> forall f: word, es: seq<Event<W>> :: Matches(exec, Started(entries, memory, f), es, i, a, w)
  {
    hide Agrees, Run, Trace, Matches;
    var s := Loaded(entries, memory);
    var a := (InitialRegisters(entries[i].is_elf, entries[i].address), memory[i]);
    if Blind(exec, a, w, false) {
      forall f: word, es: seq<Event<W>>
        ensures Matches(exec, Started(entries, memory, f), es, i, a, w)
      {
        SameFromStart(exec, entries, memory, f, es, i, w);
        TimerFirst(exec, s, [Timer(f)] + es, i, w);
      }
    } else {
      var l: Resumption, ws: seq<W> :| l.After? && !Agrees(exec, a, w, l, ws);
      var f, es := l.flags, Probe(s, i, w, l.steps, l.flags, ws);
      assert es == [Timer(f)] + es[1..];
      SameFromStart(exec, entries, memory, f, es[1..], i, w);
      if Unnoticed(exec, s, es, i, w) {
        ProbeShows(exec, s, i, w, l.steps, f, ws);
      }
      assert !Matches(exec, Started(entries, memory, f), es[1..], i, a, w);
    }
  }

  /** In a run that starts with a timer interrupt no task does a step before it is resumed. */
  lemma TimerFirst<M, W(!new)>(exec: Exec<M, W>, s: Sys<M>, es: seq<Event<W>>, i: nat, w: W)
    requires Ok(s) && i < |s.saved| && es != [] && es[0].Timer? && Blind(exec, StateOf(s, i), w, false)
    ensures Unnoticed(exec, s, es, i, w)
  {
    hide Agrees;
    UnnoticedExactly(exec, s, es, i, w);
    forall q | 0 <= q <= |es|
      ensures Undisturbed(exec, s, es[..q], i, w)
    {
      if LastResumed(exec, s, es[..q], i).Never? {
        NotYet(exec, s, es[..q], i);
        NothingHappened(exec, StateOf(s, i), w);
      }
    }
  }

  lemma {:induction false} NotYet<M, W>(exec: Exec<M, W>, s: Sys<M>, es: seq<Event<W>>, i: nat)
    requires Ok(s) && i < |s.saved| && (es == [] || es[0].Timer?) && LastResumed(exec, s, es, i).Never?
    ensures Since(exec, s, es, i) == [] && (es != [] ==> Run(exec, s, es).current != i)
  {
    if es != [] {
      NotYet(exec, s, es[..|es| - 1], i);
    }
  }

  lemma SameFromStart<M, W>(exec: Exec<M, W>, entries: seq<Entry>, memory: seq<M>, f: word, es: seq<Event<W>>, i: nat, w: W)
    requires |entries| == |memory| > 0 && i < |entries|
    ensures var a := (InitialRegisters(entries[i].is_elf, entries[i].address), memory[i]);
            Matches(exec, Started(entries, memory, f), es, i, a, w)
            <==> Unnoticed(exec, Loaded(entries, memory), [Timer(f)] + es, i, w)
  {
    hide Run, Trace, AloneTrace, Alone;
    StartIsTimer(exec, entries, memory, f, es, i);
  }
}
