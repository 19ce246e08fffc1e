/**
  Running a block's operations on several threads: a queue of tasks, a condition variable that a
  task waits on until its dependencies exist, and one table of values.  Each atomic step of each
  worker is a transition; everything holds for every interleaving.
 */
module Executor {
  import opened FiniteSets
  import opened Blocks

  /** Where a worker is in run_task and in the run method of the task it took. */
  datatype Phase =
    | AtQueue
    | Popped(op: nat)
    | Checking(op: nat)
    | CheckingExtra(op: nat)
    | Refused(op: nat)
    | Blocked(op: nat)
    | Woken(op: nat)
    | Starting(op: nat)
    | Adding(op: nat, vals: seq<int>, k: nat)
    | Notifying(op: nat)
    | Exited
  {
    predicate HasTask() {
      !AtQueue? && !Exited?
    }

    /** The kernel has not run yet. */
    predicate Waiting() {
      HasTask() && !Announcing()
    }

    /** The kernel has run, and waiting workers have not been notified of it yet. */
    predicate Announcing() {
      Adding? || Notifying?
    }

    /** Between looking up the dependencies and waiting for them, and while notifying. */
    predicate HoldsMutex() {
      Checking? || CheckingExtra? || Refused? || Notifying?
    }

    /** Found something missing: waits, or is about to. */
    predicate Waits() {
      Refused? || Blocked?
    }
  }

  datatype Sys = Sys(queue: seq<nat>, workers: seq<Phase>, symbols: map<nat, int>, log: seq<nat>, aborted: bool) {
    predicate MutexFree() {
      forall w :: 0 <= w < |workers| ==> !workers[w].HoldsMutex()
    }

    function With(w: nat, p: Phase): Sys
      requires w < |workers|
    {
      this.(workers := workers[w := p])
    }
  }

  /** Besides captured values, the results of all earlier operations with side effects, prints excepted. */
  function SideResults(b: Block, i: nat): seq<nat>
    requires i <= |b.ops|
  {
    if i == 0 then []
    else if b.ops[i - 1].sideEffect && !b.ops[i - 1].debugPrint then SideResults(b, i - 1) + b.ops[i - 1].results
    else SideResults(b, i - 1)
  }

  function ExtraDependencies(b: Block, i: nat): seq<nat>
    requires i < |b.ops|
  {
    SideResults(b, i) + b.Captures(i)
  }

  ghost predicate OperandsThere(b: Block, symbols: map<nat, int>, i: nat) {
    i < |b.ops| && forall v :: v in b.ops[i].operands ==> v in symbols
  }

  ghost predicate ExtrasThere(b: Block, symbols: map<nat, int>, i: nat) {
    i < |b.ops| && forall v :: v in ExtraDependencies(b, i) ==> v in symbols
  }

  ghost predicate Ready(b: Block, symbols: map<nat, int>, i: nat) {
    OperandsThere(b, symbols, i) && ExtrasThere(b, symbols, i)
  }

  ghost predicate AllUses(b: Block, symbols: map<nat, int>, i: nat) {
    i < |b.ops| && forall v :: v in b.Uses(i) ==> v in symbols
  }

  // ---- the steps ----

  function Initial(b: Block, concurrency: nat): Sys {
    Sys(seq(|b.ops|, i => i), seq(concurrency, _ => AtQueue), b.init, [], false)
  }

  /** Takes the first task; one without operands does not wait. */
  ghost predicate Pop(b: Block, s: Sys, t: Sys, w: nat) {
    && w < |s.workers| && s.workers[w].AtQueue? && s.queue != [] && s.queue[0] < |b.ops|
    && t == s.(queue := s.queue[1..],
               workers := s.workers[w := if b.ops[s.queue[0]].operands != [] then Popped(s.queue[0]) else Starting(s.queue[0])])
  }

  ghost predicate Exit(s: Sys, t: Sys, w: nat) {
    w < |s.workers| && s.workers[w].AtQueue? && s.queue == [] && t == s.With(w, Exited)
  }

  ghost predicate Lock(s: Sys, t: Sys, w: nat) {
    && w < |s.workers| && (s.workers[w].Popped? || s.workers[w].Woken?) && s.MutexFree()
    && t == s.With(w, Checking(s.workers[w].op))
  }

  /** Looks the operands up, all at one moment; results may be entered before and after it. */
  ghost predicate Check(b: Block, s: Sys, t: Sys, w: nat) {
    && w < |s.workers| && s.workers[w].Checking?
    && var i := s.workers[w].op;
       t == s.With(w, if OperandsThere(b, s.symbols, i) then CheckingExtra(i) else Refused(i))
  }

  /** Then, at another moment, the other dependencies; if they are there too, goes on, releasing the mutex. */
  ghost predicate CheckExtra(b: Block, s: Sys, t: Sys, w: nat) {
    && w < |s.workers| && s.workers[w].CheckingExtra?
    && var i := s.workers[w].op;
       t == s.With(w, if ExtrasThere(b, s.symbols, i) then Starting(i) else Refused(i))
  }

  /** Waits, releasing the mutex, even if what was missing has been entered meanwhile. */
  ghost predicate Wait(s: Sys, t: Sys, w: nat) {
    w < |s.workers| && s.workers[w].Refused? && t == s.With(w, Blocked(s.workers[w].op))
  }

  /** Runs the kernel; a use that has no value yet aborts the program. */
  ghost predicate Compute(b: Block, s: Sys, t: Sys, w: nat) {
    && w < |s.workers| && s.workers[w].Starting? && s.workers[w].op < |b.ops|
    && var i := s.workers[w].op;
       var log := s.log + [i];
       t == if AllUses(b, s.symbols, i)
            then s.With(w, Adding(i, b.kernel(b.ops[i], Lookup(s.symbols, b.Uses(i))), 0)).(log := log)
            else s.(aborted := true, log := log)
  }

  /** Enters one result in the table. */
  ghost predicate Add(b: Block, s: Sys, t: Sys, w: nat) {
    && w < |s.workers| && s.workers[w].Adding? && s.workers[w].op < |b.ops|
    && var p := s.workers[w];
       p.k < |b.ops[p.op].results| && p.k < |p.vals|
       && t == s.With(w, Adding(p.op, p.vals, p.k + 1)).(symbols := s.symbols[b.ops[p.op].results[p.k] := p.vals[p.k]])
  }

  function WakeAll(ws: seq<Phase>): (r: seq<Phase>)
    ensures |r| == |ws| && forall w :: 0 <= w < |ws| ==> r[w] == if ws[w].Blocked? then Woken(ws[w].op) else ws[w]
  {
    seq(|ws|, w requires 0 <= w < |ws| => if ws[w].Blocked? then Woken(ws[w].op) else ws[w])
  }

  /** All results entered: takes the mutex. */
  ghost predicate LockAgain(b: Block, s: Sys, t: Sys, w: nat) {
    AllAdded(b, s, w) && s.MutexFree() && t == s.With(w, Notifying(s.workers[w].op))
  }

  predicate AllAdded(b: Block, s: Sys, w: nat) {
    && w < |s.workers| && s.workers[w].Adding? && s.workers[w].op < |b.ops|
    && s.workers[w].k == |b.ops[s.workers[w].op].results|
  }

  /** Wakes every waiting worker, then releases the mutex and returns to the queue. */
  ghost predicate Notify(s: Sys, t: Sys, w: nat) {
    w < |s.workers| && s.workers[w].Notifying? && t == s.(workers := WakeAll(s.workers)[w := AtQueue])
  }

  /** Condition variables may wake a waiter for no reason. */
  ghost predicate Spurious(s: Sys, t: Sys, w: nat) {
    w < |s.workers| && s.workers[w].Blocked? && t == s.With(w, Woken(s.workers[w].op))
  }

  /** A step of worker w that is not a spurious wake-up. */
  ghost predicate Proper(b: Block, s: Sys, t: Sys, w: nat) {
    !s.aborted && (Pop(b, s, t, w) || Exit(s, t, w) || Lock(s, t, w) || Check(b, s, t, w) || CheckExtra(b, s, t, w)
      || Wait(s, t, w) || Compute(b, s, t, w) || Add(b, s, t, w) || LockAgain(b, s, t, w) || Notify(s, t, w))
  }

  ghost predicate Step(b: Block, s: Sys, t: Sys) {
    exists w: nat :: Proper(b, s, t, w) || (!s.aborted && Spurious(s, t, w))
  }

  /** A run: any interleaving of the workers' steps. */
  ghost predicate Run(b: Block, concurrency: nat, run: seq<Sys>) {
    && run != [] && run[0] == Initial(b, concurrency)
    && forall k :: 0 <= k && k + 1 < |run| ==> Step(b, run[k], run[k + 1])
  }

  /** The source's proviso: an operation that captures values of the block also has an operand. */
  predicate Guarded(b: Block) {
    forall i :: 0 <= i < |b.ops| && b.ops[i].operands == [] ==> b.Captures(i) == []
  }

  // ---- the invariant ----

  /** Operations not yet taken. */
  function Taken(b: Block, s: Sys): int {
    |b.ops| - |s.queue|
  }

  ghost predicate QueueOk(b: Block, s: Sys) {
    |s.queue| <= |b.ops| && forall k :: 0 <= k < |s.queue| ==> s.queue[k] == Taken(b, s) + k
  }

  /** Every task taken is in one worker's hands or finished. */
  ghost predicate TasksOk(b: Block, s: Sys) {
    && (forall w :: 0 <= w < |s.workers| && s.workers[w].HasTask() ==> s.workers[w].op < Taken(b, s))
    && (forall w, u :: 0 <= w < u < |s.workers| && s.workers[w].HasTask() && s.workers[u].HasTask() ==>
          s.workers[w].op != s.workers[u].op)
    && forall i :: 0 <= i < Taken(b, s) ==> Held(s, i) || Finished(b, s, i)
  }

  ghost predicate Held(s: Sys, i: nat) {
    exists w :: 0 <= w < |s.workers| && s.workers[w].HasTask() && s.workers[w].op == i
  }

  ghost predicate Finished(b: Block, s: Sys, i: nat) {
    i < |b.ops| && (forall v :: v in b.ops[i].results ==> v in s.symbols) && i in s.log
  }

  /** The table holds only right values. */
  ghost predicate SymbolsOk(b: Block, s: Sys) {
    && (forall v :: v in b.init ==> v in s.symbols)
    && forall v :: v in s.symbols ==> v in After(b, |b.ops|) && s.symbols[v] == After(b, |b.ops|)[v]
  }

  ghost predicate PhaseOk(b: Block, s: Sys, p: Phase) {
    && (p.Starting? ==> AllUses(b, s.symbols, p.op) && (b.ops[p.op].operands != [] ==> Ready(b, s.symbols, p.op)))
    && (p.Waiting() && !p.Starting? ==> p.op < |b.ops| && b.ops[p.op].operands != [])
    && (p.CheckingExtra? ==> OperandsThere(b, s.symbols, p.op))
    && (p.Notifying? ==> p.op < |b.ops| && forall v :: v in b.ops[p.op].results ==> v in s.symbols)
    && (p.Adding? ==> p.op < |b.ops| && p.vals == Outputs(b, p.op) && p.k <= |b.ops[p.op].results|)
    && (p.Adding? ==> forall x :: 0 <= x < p.k && p.op < |b.ops| && x < |b.ops[p.op].results| ==> b.ops[p.op].results[x] in s.symbols)
  }

  ghost predicate PhasesOk(b: Block, s: Sys) {
    && (forall w :: 0 <= w < |s.workers| ==> PhaseOk(b, s, s.workers[w]))
    && forall w, u :: 0 <= w < |s.workers| && 0 <= u < |s.workers| && s.workers[w].HoldsMutex() && s.workers[u].HoldsMutex() ==> w == u
  }

  /** No lost wake-up: while one who waits, or is about to, could go on, someone is still to notify. */
  ghost predicate NoneForgotten(b: Block, s: Sys) {
    forall w :: 0 <= w < |s.workers| && s.workers[w].Waits() && Ready(b, s.symbols, s.workers[w].op) ==> SomeoneAnnouncing(s)
  }

  ghost predicate SomeoneAnnouncing(s: Sys) {
    exists u :: 0 <= u < |s.workers| && s.workers[u].Announcing()
  }

  /** Each operation is started at most once: exactly those taken that do not wait any more. */
  ghost predicate LogOk(b: Block, s: Sys) {
    && Distinct(s.log)
    && (forall i :: i in s.log ==> i < Taken(b, s))
    && forall w :: 0 <= w < |s.workers| && s.workers[w].Waiting() ==> s.workers[w].op !in s.log
  }

  ghost predicate AnnouncedLogged(s: Sys) {
    forall w :: 0 <= w < |s.workers| && s.workers[w].Announcing() ==> s.workers[w].op in s.log
  }

  ghost predicate Inv(b: Block, s: Sys) {
    && !s.aborted && QueueOk(b, s) && TasksOk(b, s) && SymbolsOk(b, s) && PhasesOk(b, s) && NoneForgotten(b, s)
    && LogOk(b, s) && AnnouncedLogged(s) && LeftLast(s)
  }

  /** Workers leave only when no task is left. */
  ghost predicate LeftLast(s: Sys) {
    forall w :: 0 <= w < |s.workers| && s.workers[w].Exited? ==> s.queue == []
  }

  // ---- every step keeps it ----

  lemma InitialInv(b: Block, concurrency: nat)
    requires b.WellFormed()
    ensures Inv(b, Initial(b, concurrency))
  {
    hide Block.WellFormed;
    forall v | v in b.init
      ensures v in After(b, |b.ops|) && After(b, |b.ops|)[v] == b.init[v]
    {
      AfterNone(b);
      AfterStays(b, 0, |b.ops|, v);
    }
  }

  lemma PopKeeps(b: Block, s: Sys, t: Sys, w: nat)
    requires b.WellFormed() && Guarded(b) && Inv(b, s) && Pop(b, s, t, w)
    ensures Inv(b, t)
  {
    hide AllUses, Ready, After, Guarded, TasksOk, SymbolsOk, Lookup, QueueOk, LogOk, AnnouncedLogged, PhasesOk;
    QueueAfterPop(b, s, t, w);
    LogAfterPop(b, s, t, w);
    StartsWithUses(b, s, s.queue[0]);
    PhasesAfterPop(b, s, t, w);
    if SomeoneAnnouncing(s) {
      AnnouncingStays(s, t, w);
    }
    TasksAfterPop(b, s, t, w);
    assert SymbolsOk(b, t) by { SymbolsSame(b, s, t); }
  }

  lemma PhasesAfterPop(b: Block, s: Sys, t: Sys, w: nat)
    requires PhasesOk(b, s) && Pop(b, s, t, w)
    requires b.ops[s.queue[0]].operands == [] ==> AllUses(b, s.symbols, s.queue[0])
    ensures PhasesOk(b, t)
  {
    hide AllUses, Ready, After, Lookup;
  }

  lemma QueueAfterPop(b: Block, s: Sys, t: Sys, w: nat)
    requires QueueOk(b, s) && Pop(b, s, t, w)
    ensures QueueOk(b, t) && Taken(b, t) == Taken(b, s) + 1 == s.queue[0] + 1
  {
  }

  /** The task at the head of the queue has never been taken. */
  lemma LogAfterPop(b: Block, s: Sys, t: Sys, w: nat)
    requires QueueOk(b, s) && LogOk(b, s) && AnnouncedLogged(s) && Pop(b, s, t, w)
    ensures LogOk(b, t) && AnnouncedLogged(t)
  {
  }

  lemma SymbolsSame(b: Block, s: Sys, t: Sys)
    requires SymbolsOk(b, s) && t.symbols == s.symbols
    ensures SymbolsOk(b, t)
  {
  }

  /** An operation without operands reads initial values only. */
  lemma StartsWithUses(b: Block, s: Sys, i: nat)
    requires Guarded(b) && SymbolsOk(b, s) && i < |b.ops|
    ensures b.ops[i].operands == [] ==> AllUses(b, s.symbols, i)
  {
    if b.ops[i].operands == [] {
      assert b.Uses(i) == b.Captures(i);
    }
  }

  lemma TasksAfterPop(b: Block, s: Sys, t: Sys, w: nat)
    requires Inv(b, s) && Pop(b, s, t, w)
    ensures TasksOk(b, t)
  {
    hide PhaseOk, SymbolsOk, NoneForgotten, LogOk, AnnouncedLogged;
    var i := s.queue[0];
    forall j | 0 <= j < Taken(b, t)
      ensures Held(t, j) || Finished(b, t, j)
    {
      if j == i {
        assert t.workers[w].HasTask();
      } else if Held(s, j) {
        var u :| 0 <= u < |s.workers| && s.workers[u].HasTask() && s.workers[u].op == j;
        assert t.workers[u] == s.workers[u];
      }
    }
  }

  lemma ExitKeeps(b: Block, s: Sys, t: Sys, w: nat)
    requires Inv(b, s) && Exit(s, t, w)
    ensures Inv(b, t)
  {
    hide TasksOk, After, Ready, AllUses, Lookup, SymbolsOk;
    SameTask(b, s, t, w);
    assert PhaseOk(b, s, Exited);
    hide PhaseOk;
    assert PhasesOk(b, t) by { PhasesMove(b, s, t, w); }
    assert SymbolsOk(b, t) by { SymbolsSame(b, s, t); }
    if SomeoneAnnouncing(s) {
      AnnouncingStays(s, t, w);
    }
  }

  lemma AnnouncingStays(s: Sys, t: Sys, w: nat)
    requires |s.workers| == |t.workers| && SomeoneAnnouncing(s)
    requires forall u :: 0 <= u < |s.workers| && u != w ==> t.workers[u] == s.workers[u]
    requires w < |s.workers| && (s.workers[w].Announcing() ==> t.workers[w].Announcing())
    ensures SomeoneAnnouncing(t)
  {
    var u :| 0 <= u < |s.workers| && s.workers[u].Announcing();
    assert t.workers[u].Announcing();
  }

  /** Worker w keeps its task, or had none and has none; nothing else changes. */
  lemma SameTask(b: Block, s: Sys, t: Sys, w: nat)
    requires w < |s.workers| == |t.workers| && TasksOk(b, s) && t.queue == s.queue
    requires forall v :: v in s.symbols ==> v in t.symbols
    requires forall i :: i in s.log ==> i in t.log
    requires forall u :: 0 <= u < |s.workers| && u != w ==> t.workers[u] == s.workers[u]
    requires s.workers[w].HasTask() == t.workers[w].HasTask()
    requires t.workers[w].HasTask() ==> t.workers[w].op == s.workers[w].op
    ensures TasksOk(b, t)
  {
    forall j | 0 <= j < Taken(b, t)
      ensures Held(t, j) || Finished(b, t, j)
    {
      if Held(s, j) {
        var u :| 0 <= u < |s.workers| && s.workers[u].HasTask() && s.workers[u].op == j;
        assert t.workers[u].HasTask() && t.workers[u].op == j;
      }
    }
  }

  lemma PhaseHolds(b: Block, s: Sys, w: nat)
    requires Inv(b, s) && w < |s.workers|
    ensures PhaseOk(b, s, s.workers[w])
    ensures s.workers[w].Waits() && Ready(b, s.symbols, s.workers[w].op) ==> SomeoneAnnouncing(s)
  {
    hide PhaseOk, Ready, SomeoneAnnouncing;
  }

  /** A step in which worker w goes from one phase to another with its task, and nothing else changes. */
  lemma PhaseMoves(b: Block, s: Sys, t: Sys, w: nat)
    requires Inv(b, s) && w < |s.workers| == |t.workers| && t == s.With(w, t.workers[w]) && PhaseOk(b, s, t.workers[w])
    requires s.workers[w].HasTask() && t.workers[w].HasTask() && t.workers[w].op == s.workers[w].op
    requires s.workers[w].Announcing() == t.workers[w].Announcing()
    requires t.workers[w].HoldsMutex() ==> s.workers[w].HoldsMutex() || s.MutexFree()
    requires t.workers[w].Waits() && Ready(b, s.symbols, s.workers[w].op) ==> SomeoneAnnouncing(s)
    ensures Inv(b, t)
  {
    hide After, Ready, PhaseOk, Held;
    assert TasksOk(b, t) by { SameTask(b, s, t, w); }
    if SomeoneAnnouncing(s) {
      AnnouncingStays(s, t, w);
    }
    assert PhasesOk(b, t) by { PhasesMove(b, s, t, w); }
    assert NoneForgotten(b, t);
  }

  lemma PhasesMove(b: Block, s: Sys, t: Sys, w: nat)
    requires PhasesOk(b, s) && w < |s.workers| == |t.workers| && PhaseOk(b, s, t.workers[w])
    requires t.workers == s.workers[w := t.workers[w]] && t.symbols == s.symbols
    requires t.workers[w].HoldsMutex() ==> s.workers[w].HoldsMutex() || s.MutexFree()
    ensures PhasesOk(b, t)
  {
    hide PhaseOk;
    forall u | 0 <= u < |t.workers|
      ensures PhaseOk(b, t, t.workers[u])
    {
      assert PhaseOk(b, s, t.workers[u]);
      SameSymbols(b, s, t, t.workers[u]);
    }
  }

  lemma SameSymbols(b: Block, s: Sys, t: Sys, p: Phase)
    requires s.symbols == t.symbols && PhaseOk(b, s, p)
    ensures PhaseOk(b, t, p)
  {
    hide Ready, AllUses, OperandsThere;
  }

  lemma LockKeeps(b: Block, s: Sys, t: Sys, w: nat)
    requires Inv(b, s) && Lock(s, t, w)
    ensures Inv(b, t)
  {
    hide Inv, Ready;
    PhaseHolds(b, s, w);
    PhaseMoves(b, s, t, w);
  }

  lemma SpuriousKeeps(b: Block, s: Sys, t: Sys, w: nat)
    requires Inv(b, s) && Spurious(s, t, w)
    ensures Inv(b, t)
  {
    hide Inv, Ready;
    PhaseHolds(b, s, w);
    PhaseMoves(b, s, t, w);
  }

  /** A ready operation has all its uses. */
  lemma ReadyHasUses(b: Block, symbols: map<nat, int>, i: nat)
    requires Ready(b, symbols, i)
    ensures AllUses(b, symbols, i)
  {
    forall v | v in b.Uses(i)
      ensures v in symbols
    {
      if v !in b.ops[i].operands {
        assert v in ExtraDependencies(b, i);
      }
    }
  }

  lemma CheckKeeps(b: Block, s: Sys, t: Sys, w: nat)
    requires Inv(b, s) && Check(b, s, t, w)
    ensures Inv(b, t)
  {
    hide Inv, ExtrasThere;
    PhaseHolds(b, s, w);
    PhaseMoves(b, s, t, w);
  }

  lemma CheckExtraKeeps(b: Block, s: Sys, t: Sys, w: nat)
    requires Inv(b, s) && CheckExtra(b, s, t, w)
    ensures Inv(b, t)
  {
    hide Inv, OperandsThere, ExtrasThere, AllUses;
    PhaseHolds(b, s, w);
    if Ready(b, s.symbols, s.workers[w].op) {
      ReadyHasUses(b, s.symbols, s.workers[w].op);
    }
    PhaseMoves(b, s, t, w);
  }

  lemma WaitKeeps(b: Block, s: Sys, t: Sys, w: nat)
    requires Inv(b, s) && Wait(s, t, w)
    ensures Inv(b, t)
  {
    hide Inv, Ready;
    PhaseHolds(b, s, w);
    PhaseMoves(b, s, t, w);
  }

  /** With its uses settled, an operation computes what it computes in sequence. */
  lemma SameInputs(b: Block, s: Sys, i: nat)
    requires b.WellFormed() && SymbolsOk(b, s) && AllUses(b, s.symbols, i)
    ensures Lookup(s.symbols, b.Uses(i)) == Lookup(After(b, i), b.Uses(i))
  {
    hide After;
    UsesSettled(b, i);
    var us := b.Uses(i);
    forall k | 0 <= k < |us|
      ensures Lookup(s.symbols, us)[k] == Lookup(After(b, i), us)[k]
    {
      assert us[k] in us;
    }
  }

  lemma StartsWith(b: Block, s: Sys, p: Phase)
    requires PhaseOk(b, s, p) && p.Starting?
    ensures AllUses(b, s.symbols, p.op)
  {
    hide AllUses, Ready;
  }

  /** The kernel of an operation that has its uses computes what it computes in sequence. */
  lemma AddingOutputs(b: Block, s: Sys, i: nat)
    requires b.WellFormed() && SymbolsOk(b, s) && AllUses(b, s.symbols, i)
    ensures PhaseOk(b, s, Adding(i, b.kernel(b.ops[i], Lookup(s.symbols, b.Uses(i))), 0))
  {
    hide After, Lookup, Block.WellFormed, SymbolsOk;
    SameInputs(b, s, i);
  }

  lemma ComputeKeeps(b: Block, s: Sys, t: Sys, w: nat)
    requires b.WellFormed() && Inv(b, s) && Compute(b, s, t, w)
    ensures Inv(b, t)
  {
    hide After, Lookup, Block.WellFormed, PhaseOk, SymbolsOk, Ready, AllUses, Held, Outputs;
    var i := s.workers[w].op;
    assert PhaseOk(b, s, s.workers[w]) && i < |b.ops|;
    assert AllUses(b, s.symbols, i) by { StartsWith(b, s, s.workers[w]); }
    AddingOutputs(b, s, i);
    assert TasksOk(b, t) by { SameTask(b, s, t, w); }
    assert PhasesOk(b, t) by { PhasesMove(b, s, t, w); }
    assert SymbolsOk(b, t) by { SymbolsSame(b, s, t); }
    assert t.workers[w].Announcing();
  }

  lemma AddKeeps(b: Block, s: Sys, t: Sys, w: nat)
    requires b.WellFormed() && Inv(b, s) && Add(b, s, t, w)
    ensures Inv(b, t)
  {
    hide After, Lookup, Block.WellFormed, PhaseOk, SymbolsOk, Ready, Held;
    assert SymbolsOk(b, t) by { SymbolsAfterAdd(b, s, t, w); }
    assert PhasesOk(b, t) by { PhasesAfterAdd(b, s, t, w); }
    assert TasksOk(b, t) by { SameTask(b, s, t, w); }
    assert t.workers[w].Announcing();
  }

  lemma SymbolsAfterAdd(b: Block, s: Sys, t: Sys, w: nat)
    requires b.WellFormed() && PhasesOk(b, s) && SymbolsOk(b, s) && Add(b, s, t, w)
    ensures SymbolsOk(b, t)
  {
    hide After, Lookup, Block.WellFormed;
    var p := s.workers[w];
    assert PhaseOk(b, s, p);
    AfterNext(b, p.op);
    AfterStays(b, p.op + 1, |b.ops|, b.ops[p.op].results[p.k]);
  }

  lemma PhasesAfterAdd(b: Block, s: Sys, t: Sys, w: nat)
    requires PhasesOk(b, s) && Add(b, s, t, w)
    ensures PhasesOk(b, t)
  {
    hide PhaseOk;
    forall u | 0 <= u < |t.workers|
      ensures PhaseOk(b, t, t.workers[u])
    {
      assert PhaseOk(b, s, s.workers[u]);
      if u == w {
        OneMoreAdded(b, s, t, w);
      } else {
        MoreSymbols(b, s, t, s.workers[u]);
      }
    }
  }

  lemma OneMoreAdded(b: Block, s: Sys, t: Sys, w: nat)
    requires Add(b, s, t, w) && PhaseOk(b, s, s.workers[w])
    ensures PhaseOk(b, t, t.workers[w])
  {
    hide Ready, AllUses, OperandsThere;
  }

  lemma MoreSymbols(b: Block, s: Sys, t: Sys, p: Phase)
    requires (forall v :: v in s.symbols ==> v in t.symbols) && PhaseOk(b, s, p)
    ensures PhaseOk(b, t, p)
  {
  }

  lemma LockAgainKeeps(b: Block, s: Sys, t: Sys, w: nat)
    requires Inv(b, s) && LockAgain(b, s, t, w)
    ensures Inv(b, t)
  {
    hide Inv, Ready, AllUses;
    PhaseHolds(b, s, w);
    var i := s.workers[w].op;
    forall v | v in b.ops[i].results
      ensures v in t.symbols
    {
      var x :| 0 <= x < |b.ops[i].results| && b.ops[i].results[x] == v;
    }
    PhaseMoves(b, s, t, w);
  }

  /** No one is between being refused and waiting, for the mutex is held: everyone to be woken is woken. */
  lemma NotifyKeeps(b: Block, s: Sys, t: Sys, w: nat)
    requires Inv(b, s) && Notify(s, t, w)
    ensures Inv(b, t)
  {
    hide After, Lookup, Ready, TasksOk;
    TasksAfterNotify(b, s, t, w);
  }

  lemma AnnouncedFinished(b: Block, s: Sys, w: nat)
    requires PhasesOk(b, s) && AnnouncedLogged(s) && w < |s.workers| && s.workers[w].Notifying?
    ensures Finished(b, s, s.workers[w].op)
  {
    assert PhaseOk(b, s, s.workers[w]);
  }

  lemma TasksAfterNotify(b: Block, s: Sys, t: Sys, w: nat)
    requires Inv(b, s) && Notify(s, t, w)
    ensures TasksOk(b, t)
  {
    hide After, Lookup, Ready, SymbolsOk, NoneForgotten, LogOk, PhasesOk, AnnouncedLogged;
    var i := s.workers[w].op;
    assert Finished(b, t, i) by { AnnouncedFinished(b, s, w); }
    forall j | 0 <= j < Taken(b, t)
      ensures Held(t, j) || Finished(b, t, j)
    {
      if j != i && Held(s, j) {
        var u :| 0 <= u < |s.workers| && s.workers[u].HasTask() && s.workers[u].op == j;
        assert t.workers[u].HasTask() && t.workers[u].op == j;
      }
    }
  }

  lemma StepKeeps(b: Block, s: Sys, t: Sys)
    requires b.WellFormed() && Guarded(b) && Inv(b, s) && Step(b, s, t)
    ensures Inv(b, t)
  {
    hide Inv, Pop, Exit, Lock, Check, CheckExtra, Wait, Compute, Add, LockAgain, Notify, Spurious, Guarded, Block.WellFormed;
    var w: nat :| Proper(b, s, t, w) || (!s.aborted && Spurious(s, t, w));
    if Pop(b, s, t, w) {
      PopKeeps(b, s, t, w);
    } else if Exit(s, t, w) {
      ExitKeeps(b, s, t, w);
    } else if Lock(s, t, w) {
      LockKeeps(b, s, t, w);
    } else if Check(b, s, t, w) {
      CheckKeeps(b, s, t, w);
    } else if CheckExtra(b, s, t, w) {
      CheckExtraKeeps(b, s, t, w);
    } else if Wait(s, t, w) {
      WaitKeeps(b, s, t, w);
    } else if Compute(b, s, t, w) {
      ComputeKeeps(b, s, t, w);
    } else if Add(b, s, t, w) {
      AddKeeps(b, s, t, w);
    } else if LockAgain(b, s, t, w) {
      LockAgainKeeps(b, s, t, w);
    } else if Notify(s, t, w) {
      NotifyKeeps(b, s, t, w);
    } else {
      SpuriousKeeps(b, s, t, w);
    }
  }

  /** The invariant holds all along every run. */
  lemma {:induction false} RunsKeep(b: Block, concurrency: nat, run: seq<Sys>, k: nat)
    requires b.WellFormed() && Guarded(b) && Run(b, concurrency, run) && k < |run|
    ensures Inv(b, run[k]) && |run[k].workers| == concurrency
  {
    hide Inv, Guarded, Block.WellFormed;
    if k == 0 {
      InitialInv(b, concurrency);
    } else {
      RunsKeep(b, concurrency, run, k - 1);
      assert Step(b, run[k - 1], run[k]);
      StepKeeps(b, run[k - 1], run[k]);
    }
  }

  /** A kernel starts when all it reads is there, and, if it waited, all earlier side effects have happened. */
  lemma StartsInTime(b: Block, concurrency: nat, run: seq<Sys>, k: nat, w: nat)
    requires b.WellFormed() && Guarded(b) && Run(b, concurrency, run) && k < |run|
    requires w < |run[k].workers| && run[k].workers[w].Starting?
    ensures var s, i := run[k], run[k].workers[w].op;
      i < |b.ops| && i !in s.log
      && (forall v :: v in b.Uses(i) ==> v in s.symbols && v in After(b, i) && s.symbols[v] == After(b, i)[v])
      && (b.ops[i].operands != [] ==> forall j, v ::
            0 <= j < i && b.ops[j].sideEffect && !b.ops[j].debugPrint && v in b.ops[j].results ==> v in s.symbols)
  {
    hide Run, Guarded, Block.WellFormed, After;
    RunsKeep(b, concurrency, run, k);
    var s, i := run[k], run[k].workers[w].op;
    assert PhaseOk(b, s, s.workers[w]);
    UsesSettled(b, i);
    if b.ops[i].operands != [] {
      forall j, v | 0 <= j < i && b.ops[j].sideEffect && !b.ops[j].debugPrint && v in b.ops[j].results
        ensures v in s.symbols
      {
        SideResultsAre(b, i, v);
        assert FromSideEffect(b, i, v);
        assert v in ExtraDependencies(b, i);
      }
    }
  }

  /** What a task waits for, no more and no less: all it reads, and what earlier side effects other than prints produce. */
  lemma ReadyExactly(b: Block, symbols: map<nat, int>, i: nat)
    requires i < |b.ops|
    ensures Ready(b, symbols, i) <==>
      (forall v :: v in b.ops[i].operands ==> v in symbols)
      && (forall v :: v in Walk(b.ops[i].nested) && b.DefinedBefore(|b.ops|, v) ==> v in symbols)
      && (forall j, v :: 0 <= j < i && b.ops[j].sideEffect && !b.ops[j].debugPrint && v in b.ops[j].results ==> v in symbols)
  {
    hide Walk, Block.DefinedBefore;
    forall v
      ensures v in ExtraDependencies(b, i) <==> v in b.Captures(i) || FromSideEffect(b, i, v)
    {
      SideResultsAre(b, i, v);
    }
    if Ready(b, symbols, i) {
      forall j, v | 0 <= j < i && b.ops[j].sideEffect && !b.ops[j].debugPrint && v in b.ops[j].results
        ensures v in symbols
      {
        assert FromSideEffect(b, i, v);
      }
    }
  }

  ghost predicate FromSideEffect(b: Block, i: nat, v: nat) {
    exists j :: 0 <= j < i && j < |b.ops| && b.ops[j].sideEffect && !b.ops[j].debugPrint && v in b.ops[j].results
  }

  lemma {:induction false} SideResultsAre(b: Block, i: nat, v: nat)
    requires i <= |b.ops|
    ensures v in SideResults(b, i) <==> FromSideEffect(b, i, v)
  {
    if i > 0 {
      SideResultsAre(b, i - 1, v);
      if FromSideEffect(b, i, v) {
        var j :| 0 <= j < i && b.ops[j].sideEffect && !b.ops[j].debugPrint && v in b.ops[j].results;
        assert j < i - 1 ==> FromSideEffect(b, i - 1, v);
      }
    }
  }

  // ---- no deadlock ----

  /** Everyone has left. */
  predicate Done(s: Sys) {
    forall w :: 0 <= w < |s.workers| ==> s.workers[w].Exited?
  }

  /** Some worker can take a step other than a spurious wake-up. */
  ghost predicate CanMove(b: Block, s: Sys) {
    exists t: Sys, w: nat :: Proper(b, s, t, w)
  }

  lemma NoDeadlock(b: Block, s: Sys)
    requires b.WellFormed() && Inv(b, s) && !Done(s)
    ensures CanMove(b, s)
  {
    if s.MutexFree() {
      var w := SomeoneMoves(b, s);
      WorkerMoves(b, s, w);
    } else {
      var w :| 0 <= w < |s.workers| && s.workers[w].HoldsMutex();
      HolderMoves(b, s, w);
    }
  }

  /** Whoever holds the mutex goes on without waiting for anything. */
  lemma HolderMoves(b: Block, s: Sys, w: nat)
    requires Inv(b, s) && w < |s.workers| && s.workers[w].HoldsMutex()
    ensures CanMove(b, s)
  {
    hide After, Lookup;
    var i := s.workers[w].op;
    match s.workers[w]
    case Checking(_) =>
      var t := s.With(w, if OperandsThere(b, s.symbols, i) then CheckingExtra(i) else Refused(i));
      assert Check(b, s, t, w);
      assert Proper(b, s, t, w);
    case CheckingExtra(_) =>
      var t := s.With(w, if ExtrasThere(b, s.symbols, i) then Starting(i) else Refused(i));
      assert CheckExtra(b, s, t, w);
      assert Proper(b, s, t, w);
    case Refused(_) =>
      assert Wait(s, s.With(w, Blocked(i)), w);
      assert Proper(b, s, s.With(w, Blocked(i)), w);
    case Notifying(_) =>
      var t := s.(workers := WakeAll(s.workers)[w := AtQueue]);
      assert Notify(s, t, w);
      assert Proper(b, s, t, w);
  }

  /** Neither waiting nor gone. */
  predicate Moves(p: Phase) {
    !p.Blocked? && !p.Exited?
  }

  lemma WorkerMoves(b: Block, s: Sys, w: nat)
    requires b.WellFormed() && Inv(b, s) && s.MutexFree() && w < |s.workers| && Moves(s.workers[w])
    ensures CanMove(b, s)
  {
    hide After, Lookup, Block.WellFormed;
    var p := s.workers[w];
    assert !p.HoldsMutex();
    match p
    case AtQueue =>
      if s.queue == [] {
        assert Exit(s, s.With(w, Exited), w);
        assert Proper(b, s, s.With(w, Exited), w);
      } else {
        var t := s.(queue := s.queue[1..],
          workers := s.workers[w := if b.ops[s.queue[0]].operands != [] then Popped(s.queue[0]) else Starting(s.queue[0])]);
        assert Pop(b, s, t, w);
        assert Proper(b, s, t, w);
      }
    case Popped(i) =>
      assert Lock(s, s.With(w, Checking(i)), w);
      assert Proper(b, s, s.With(w, Checking(i)), w);
    case Woken(i) =>
      assert Lock(s, s.With(w, Checking(i)), w);
      assert Proper(b, s, s.With(w, Checking(i)), w);
    case Starting(i) =>
      var t := s.With(w, Adding(i, b.kernel(b.ops[i], Lookup(s.symbols, b.Uses(i))), 0)).(log := s.log + [i]);
      assert Compute(b, s, t, w);
      assert Proper(b, s, t, w);
    case Adding(i, vals, k) =>
      AfterNext(b, i);
      if k < |b.ops[i].results| {
        var t := s.With(w, Adding(i, vals, k + 1)).(symbols := s.symbols[b.ops[i].results[k] := vals[k]]);
        assert Add(b, s, t, w);
        assert Proper(b, s, t, w);
      } else {
        assert LockAgain(b, s, s.With(w, Notifying(i)), w);
        assert Proper(b, s, s.With(w, Notifying(i)), w);
      }
  }

  /**
    Not everyone waits: of the operations waited on, the first either has an earlier one that is
    still in someone's hands, or has all it needs, and then someone is still to notify.
   */
  lemma SomeoneMoves(b: Block, s: Sys) returns (w: nat)
    requires b.WellFormed() && Inv(b, s) && !Done(s)
    ensures w < |s.workers| && Moves(s.workers[w])
  {
    hide After, Lookup, Block.WellFormed, Ready, SymbolsOk, PhasesOk, LogOk, Finished;
    w :| w < |s.workers| && !s.workers[w].Exited?;
    if s.workers[w].Blocked? {
      var first := FirstWaiting(s, w);
      var i := s.workers[first].op;
      assert i < |b.ops| by { assert Held(s, i); }
      if j: nat :| j < i && !Finished(b, s, j) {
        assert Held(s, j);
        w :| w < |s.workers| && s.workers[w].HasTask() && s.workers[w].op == j;
      } else {
        EarlierFinished(b, s, i);
        assert SomeoneAnnouncing(s);
        w :| w < |s.workers| && s.workers[w].Announcing();
      }
    }
  }

  /** The waiter with the least operation. */
  lemma FirstWaiting(s: Sys, w: nat) returns (first: nat)
    requires w < |s.workers| && s.workers[w].Blocked?
    ensures first < |s.workers| && s.workers[first].Blocked?
    ensures forall u :: 0 <= u < |s.workers| && s.workers[u].Blocked? ==> s.workers[first].op <= s.workers[u].op
  {
    first := w;
    var k := 0;
    while k < |s.workers|
      invariant 0 <= k <= |s.workers| && first < |s.workers| && s.workers[first].Blocked?
      invariant forall u :: 0 <= u < k && s.workers[u].Blocked? ==> s.workers[first].op <= s.workers[u].op
    {
      if s.workers[k].Blocked? && s.workers[k].op < s.workers[first].op {
        first := k;
      }
      k := k + 1;
    }
  }

  /** When all earlier operations have finished, an operation is ready. */
  lemma EarlierFinished(b: Block, s: Sys, i: nat)
    requires b.WellFormed() && SymbolsOk(b, s) && i < |b.ops| && forall j :: 0 <= j < i ==> Finished(b, s, j)
    ensures Ready(b, s.symbols, i)
  {
    hide After;
    forall v | v in b.Uses(i)
      ensures v in s.symbols
    {
      if v !in b.init {
        assert b.DefinedBefore(i, v);
        var j :| 0 <= j < i && j < |b.ops| && v in b.ops[j].results;
        assert Finished(b, s, j);
      }
    }
    SideResultsThere(b, s, i, i);
  }

  lemma {:induction false} SideResultsThere(b: Block, s: Sys, i: nat, n: nat)
    requires i <= n && i <= |b.ops| && forall j :: 0 <= j < n ==> Finished(b, s, j)
    ensures forall v :: v in SideResults(b, i) ==> v in s.symbols
  {
    if i > 0 {
      SideResultsThere(b, s, i - 1, n);
      assert Finished(b, s, i - 1);
    }
  }

  // ---- at the end ----

  /** Every operation was started exactly once, and the table is that of the sequential run. */
  lemma AllRun(b: Block, s: Sys)
    requires b.WellFormed() && Inv(b, s) && Done(s) && s.workers != []
    ensures s.symbols == After(b, |b.ops|)
    ensures |s.log| == |b.ops| && forall i :: 0 <= i < |b.ops| ==> i in s.log
    ensures forall k :: 0 <= k < |b.terminator| ==> b.terminator[k] in s.symbols
  {
    hide After, Lookup;
    assert s.workers[0].Exited?;
    forall i | 0 <= i < |b.ops|
      ensures Finished(b, s, i)
    {
      assert !Held(s, i);
    }
    AfterKeys(b, |b.ops|);
    forall v | v in After(b, |b.ops|)
      ensures v in s.symbols
    {
      if v !in b.init {
        var j :| 0 <= j < |b.ops| && j < |b.ops| && v in b.ops[j].results;
        assert Finished(b, s, j);
      }
    }
    assert s.symbols == After(b, |b.ops|);
    forall i | 0 <= i < |b.ops|
      ensures i in s.log
    {
      assert Finished(b, s, i);
    }
    OntoCount(s.log, |b.ops|);
  }

  // ---- every run ends ----

  /** The most results any operation has. */
  function MostResults(ops: seq<Op>): (m: nat)
    ensures forall i :: 0 <= i < |ops| ==> |ops[i].results| <= m
  {
    if ops == [] then 0
    else
      var m, k := MostResults(ops[..|ops| - 1]), |ops[|ops| - 1].results|;
      if m >= k then m else k
  }

  /** How much is left to do in a phase; a waiter counts nothing until it is woken. */
  function Rank(p: Phase, m: nat): nat {
    match p
    case AtQueue => 1
    case Popped(_) => m + 6
    case Checking(_) => m + 5
    case CheckingExtra(_) => m + 4
    case Refused(_) => 1
    case Blocked(_) => 0
    case Woken(_) => m + 6
    case Starting(_) => m + 3
    case Adding(_, _, k) => if k <= m then 2 + m - k else 2
    case Notifying(_) => 1
    case Exited => 0
  }

  /** What a task in a worker's hands counts, besides its phase: more than one notification can add. */
  function TaskWeight(m: nat, c: nat): nat {
    Total(c, m + 6) + 1
  }

  function PhaseWeight(p: Phase, m: nat, c: nat): nat {
    Rank(p, m) + if p.HasTask() then TaskWeight(m, c) else 0
  }

  function WorkersWeight(ws: seq<Phase>, m: nat, c: nat): nat {
    if ws == [] then 0 else WorkersWeight(ws[..|ws| - 1], m, c) + PhaseWeight(ws[|ws| - 1], m, c)
  }

  function Total(n: nat, each: nat): nat {
    n * each
  }

  function Measure(b: Block, s: Sys): nat {
    var m, c := MostResults(b.ops), |s.workers|;
    Total(|s.queue|, TaskWeight(m, c) + m + 7) + WorkersWeight(s.workers, m, c)
  }

  lemma {:induction false} WeightUpdate(ws: seq<Phase>, w: nat, p: Phase, m: nat, c: nat)
    requires w < |ws|
    ensures WorkersWeight(ws[w := p], m, c) == WorkersWeight(ws, m, c) - PhaseWeight(ws[w], m, c) + PhaseWeight(p, m, c)
    decreases |ws|
  {
    var n := |ws| - 1;
    if w == n {
      assert ws[w := p][..n] == ws[..n];
    } else {
      assert ws[w := p][..n] == ws[..n][w := p];
      WeightUpdate(ws[..n], w, p, m, c);
    }
  }

  lemma {:induction false} WeightWoken(ws: seq<Phase>, m: nat, c: nat)
    ensures WorkersWeight(WakeAll(ws), m, c) <= WorkersWeight(ws, m, c) + |ws| * (m + 6)
    decreases |ws|
  {
    if ws != [] {
      var n := |ws| - 1;
      WeightWoken(ws[..n], m, c);
      assert WakeAll(ws)[..n] == WakeAll(ws[..n]);
      OneMore(n, m + 6);
    }
  }

  lemma OneMore(n: int, x: int)
    ensures (n + 1) * x == n * x + x
  {
  }

  /** Every step but a spurious wake-up brings the end nearer. */
  lemma StepMeasure(b: Block, s: Sys, t: Sys, w: nat)
    requires b.WellFormed() && Inv(b, s) && Proper(b, s, t, w) && !t.aborted
    ensures Measure(b, t) < Measure(b, s)
  {
    hide WorkersWeight, TaskWeight, MostResults, Inv, Block.WellFormed, PhaseWeight, Total;
    if Pop(b, s, t, w) {
      PopMeasure(b, s, t, w);
    } else if Notify(s, t, w) {
      NotifyMeasure(b, s, t, w);
    } else {
      PhaseFalls(b, s, t, w);
      WeightUpdate(s.workers, w, t.workers[w], MostResults(b.ops), |s.workers|);
    }
  }

  lemma PhaseFalls(b: Block, s: Sys, t: Sys, w: nat)
    requires Inv(b, s) && Proper(b, s, t, w) && !t.aborted && !Pop(b, s, t, w) && !Notify(s, t, w)
    ensures var m, c := MostResults(b.ops), |s.workers|;
      t.queue == s.queue && w < |s.workers| && t.workers == s.workers[w := t.workers[w]]
      && PhaseWeight(t.workers[w], m, c) < PhaseWeight(s.workers[w], m, c)
  {
    hide Pop, Exit, Lock, Check, CheckExtra, Wait, Compute, Add, LockAgain, Notify, Inv, PhaseWeight, MostResults;
    if Compute(b, s, t, w) || Add(b, s, t, w) {
      WorkFalls(b, s, t, w);
    } else if Exit(s, t, w) || Lock(s, t, w) || Wait(s, t, w) || LockAgain(b, s, t, w) {
      TurnFalls(b, s, t, w);
    } else {
      CheckFalls(b, s, t, w);
    }
  }

  lemma WorkFalls(b: Block, s: Sys, t: Sys, w: nat)
    requires Inv(b, s) && (Compute(b, s, t, w) || Add(b, s, t, w)) && !t.aborted
    ensures var m, c := MostResults(b.ops), |s.workers|;
      t.queue == s.queue && w < |s.workers| && t.workers == s.workers[w := t.workers[w]]
      && PhaseWeight(t.workers[w], m, c) < PhaseWeight(s.workers[w], m, c)
  {
    AddingBound(b, s, w);
    hide TaskWeight, MostResults, Inv, AllUses, Lookup;
  }

  lemma TurnFalls(b: Block, s: Sys, t: Sys, w: nat)
    requires Exit(s, t, w) || Lock(s, t, w) || Wait(s, t, w) || LockAgain(b, s, t, w)
    ensures var m, c := MostResults(b.ops), |s.workers|;
      t.queue == s.queue && w < |s.workers| && t.workers == s.workers[w := t.workers[w]]
      && PhaseWeight(t.workers[w], m, c) < PhaseWeight(s.workers[w], m, c)
  {
    hide TaskWeight, MostResults;
  }

  lemma CheckFalls(b: Block, s: Sys, t: Sys, w: nat)
    requires Check(b, s, t, w) || CheckExtra(b, s, t, w)
    ensures var m, c := MostResults(b.ops), |s.workers|;
      t.queue == s.queue && w < |s.workers| && t.workers == s.workers[w := t.workers[w]]
      && PhaseWeight(t.workers[w], m, c) < PhaseWeight(s.workers[w], m, c)
  {
    hide TaskWeight, MostResults, OperandsThere, ExtrasThere;
  }

  /** A spurious one sets it back by a bounded amount. */
  lemma SpuriousMeasure(b: Block, s: Sys, t: Sys, w: nat)
    requires Spurious(s, t, w)
    ensures Measure(b, t) == Measure(b, s) + MostResults(b.ops) + 6
  {
    hide WorkersWeight, TaskWeight, MostResults;
    WeightUpdate(s.workers, w, t.workers[w], MostResults(b.ops), |s.workers|);
  }

  lemma AddingBound(b: Block, s: Sys, w: nat)
    requires Inv(b, s)
    ensures w < |s.workers| && s.workers[w].Adding? && s.workers[w].op < |b.ops| ==> |b.ops[s.workers[w].op].results| <= MostResults(b.ops)
  {
  }

  lemma PopMeasure(b: Block, s: Sys, t: Sys, w: nat)
    requires Pop(b, s, t, w)
    ensures Measure(b, t) < Measure(b, s)
  {
    hide WorkersWeight, TaskWeight, MostResults;
    var m, c := MostResults(b.ops), |s.workers|;
    WeightUpdate(s.workers, w, t.workers[w], m, c);
    OneMore(|t.queue|, TaskWeight(m, c) + m + 7);
  }

  lemma NotifyMeasure(b: Block, s: Sys, t: Sys, w: nat)
    requires Inv(b, s) && Notify(s, t, w)
    ensures Measure(b, t) < Measure(b, s)
  {
    hide WorkersWeight, MostResults;
    var m, c := MostResults(b.ops), |s.workers|;
    WeightWoken(s.workers, m, c);
    WeightUpdate(WakeAll(s.workers), w, AtQueue, m, c);
  }

  /** A run without spurious wake-ups. */
  ghost predicate ProperRun(b: Block, concurrency: nat, run: seq<Sys>) {
    Run(b, concurrency, run) && forall k :: 0 <= k && k + 1 < |run| ==> ProperStep(b, run[k], run[k + 1])
  }

  ghost predicate ProperStep(b: Block, s: Sys, t: Sys) {
    exists w: nat :: Proper(b, s, t, w)
  }

  /** Its length is bounded by the size of the block and the number of workers. */
  lemma {:induction false} ProperRunsEnd(b: Block, concurrency: nat, run: seq<Sys>, k: nat)
    requires b.WellFormed() && Guarded(b) && ProperRun(b, concurrency, run) && k < |run|
    ensures k + Measure(b, run[k]) <= Measure(b, Initial(b, concurrency))
  {
    hide Inv, Guarded, Block.WellFormed, Measure, Step, Proper;
    if k > 0 {
      ProperRunsEnd(b, concurrency, run, k - 1);
      RunsKeep(b, concurrency, run, k - 1);
      RunsKeep(b, concurrency, run, k);
      assert ProperStep(b, run[k - 1], run[k]);
      var w: nat :| Proper(b, run[k - 1], run[k], w);
      InvNotAborted(b, run[k]);
      StepMeasure(b, run[k - 1], run[k], w);
    }
  }

  lemma InvNotAborted(b: Block, s: Sys)
    requires Inv(b, s)
    ensures !s.aborted
  {
  }

  /**
    With at least one worker, a run that can go no further has started every operation exactly once
    and returns what running the operations in sequence returns.
   */
  lemma ParallelIsSequential(b: Block, concurrency: nat, run: seq<Sys>)
    requires b.WellFormed() && Guarded(b) && concurrency >= 1 && Run(b, concurrency, run)
    requires !CanMove(b, run[|run| - 1])
    ensures var s := run[|run| - 1];
      s.symbols == After(b, |b.ops|)
      && (forall k :: 0 <= k < |b.terminator| ==>
            b.terminator[k] in s.symbols && Lookup(s.symbols, b.terminator)[k] == s.symbols[b.terminator[k]])
      && |s.log| == |b.ops| && (forall i :: 0 <= i < |b.ops| ==> i in s.log)
  {
    hide Inv, Guarded, Block.WellFormed, After, CanMove, Step, Lookup;
    var s := run[|run| - 1];
    RunsKeep(b, concurrency, run, |run| - 1);
    if !Done(s) {
      NoDeadlock(b, s);
    }
    AllRun(b, s);
  }

  // ---- without taking the mutex to notify ----

  /** Notifying as soon as all results are entered, with no regard to the mutex. */
  ghost predicate NotifyUnlocked(b: Block, s: Sys, t: Sys, w: nat) {
    AllAdded(b, s, w) && t == s.(workers := WakeAll(s.workers)[w := AtQueue])
  }

  ghost predicate UnlockedStep(b: Block, s: Sys, t: Sys) {
    exists w: nat :: Proper(b, s, t, w) || (!s.aborted && NotifyUnlocked(b, s, t, w))
  }

  /** An operation and one that takes its result. */
  function Handover(): Block {
    Block([Op([], [], [0], false, false), Op([0], [], [1], false, false)], map[],
          (op: Op, args: seq<int>) => seq(|op.results|, _ => 0), [1])
  }

  /**
    Worker 1 finds the result missing; worker 0 enters it and notifies before worker 1 waits, so that
    nobody is woken, and leaves.
   */
  function LostWakeUp(): (run: seq<Sys>)
    ensures |run| == 10
  {
    [Sys([0, 1], [AtQueue, AtQueue], map[], [], false),
     Sys([1], [Starting(0), AtQueue], map[], [], false),
     Sys([], [Starting(0), Popped(1)], map[], [], false),
     Sys([], [Starting(0), Checking(1)], map[], [], false),
     Sys([], [Starting(0), Refused(1)], map[], [], false),
     Sys([], [Adding(0, [0], 0), Refused(1)], map[], [0], false),
     Sys([], [Adding(0, [0], 1), Refused(1)], map[0 := 0], [0], false),
     Sys([], [AtQueue, Refused(1)], map[0 := 0], [0], false),
     Sys([], [AtQueue, Blocked(1)], map[0 := 0], [0], false),
     Sys([], [Exited, Blocked(1)], map[0 := 0], [0], false)]
  }

  /** The mutex is needed there: without it a worker can wait for ever for what it needs and already has. */
  lemma UnlockedGetsStuck()
    ensures var b, run := Handover(), LostWakeUp();
      var last := run[|run| - 1];
      b.WellFormed() && Guarded(b) && run[0] == Initial(b, 2)
      && (forall k :: 0 <= k && k + 1 < |run| ==> UnlockedStep(b, run[k], run[k + 1]))
      && last.workers[1] == Blocked(1) && Ready(b, last.symbols, 1) && forall t: Sys :: !UnlockedStep(b, last, t)
  {
    hide Block.WellFormed, UnlockedStep, Ready;
    HandoverWellFormed();
    forall k | 0 <= k && k + 1 < |LostWakeUp()|
      ensures UnlockedStep(Handover(), LostWakeUp()[k], LostWakeUp()[k + 1])
    {
      LostWakeUpStep(k);
    }
    StuckAtLast();
  }

  lemma HandoverWellFormed()
    ensures Handover().WellFormed() && Guarded(Handover()) && LostWakeUp()[0] == Initial(Handover(), 2)
  {
    hide Block.Captures, Block.Uses, Block.DefinedBefore, Initial, LostWakeUp;
    HandoverUses();
    DefinedInTime();
    HandoverStarts();
  }

  lemma HandoverStarts()
    ensures LostWakeUp()[0] == Initial(Handover(), 2)
  {
  }

  lemma DefinedInTime()
    ensures Handover().DefinedBefore(1, 0) && Handover().DefinedBefore(2, 1)
  {
    assert 0 in Handover().ops[0].results && 1 in Handover().ops[1].results;
  }

  lemma StuckAtLast()
    ensures var last := LostWakeUp()[9];
      Ready(Handover(), last.symbols, 1) && forall t: Sys :: !UnlockedStep(Handover(), last, t)
  {
    HandoverUses();
  }

  lemma HandoverUses()
    ensures var b := Handover();
      b.Captures(0) == b.Captures(1) == [] && b.Uses(0) == [] && b.Uses(1) == [0]
      && ExtraDependencies(b, 1) == []
  {
    var b := Handover();
    assert Walk([]) == [];
  }

  lemma LostWakeUpStep(k: nat)
    requires k < 9
    ensures UnlockedStep(Handover(), LostWakeUp()[k], LostWakeUp()[k + 1])
  {
    var b, s, t := Handover(), LostWakeUp()[k], LostWakeUp()[k + 1];
    TakingSteps();
    FirstRefused();
    FirstComputes();
    LeavingSteps();
    hide Handover, LostWakeUp, Pop, Exit, Lock, Check, CheckExtra, Wait, Compute, Add, LockAgain, Notify, NotifyUnlocked;
    var w := if k == 1 || k == 2 || k == 3 || k == 7 then 1 else 0;
    assert k == 6 || Proper(b, s, t, w);
  }

  lemma TakingSteps()
    ensures var b, run := Handover(), LostWakeUp();
      Pop(b, run[0], run[1], 0) && Pop(b, run[1], run[2], 1) && Lock(run[2], run[3], 1)
      && forall k :: 0 <= k < 10 ==> !run[k].aborted
  {
  }

  lemma LeavingSteps()
    ensures var b, run := Handover(), LostWakeUp();
      Add(b, run[5], run[6], 0) && NotifyUnlocked(b, run[6], run[7], 0) && Wait(run[7], run[8], 1) && Exit(run[8], run[9], 0)
  {
  }

  lemma FirstRefused()
    ensures Check(Handover(), LostWakeUp()[3], LostWakeUp()[4], 1)
  {
    assert 0 in Handover().ops[1].operands;
  }

  lemma FirstComputes()
    ensures Compute(Handover(), LostWakeUp()[4], LostWakeUp()[5], 0)
  {
    HandoverUses();
    assert Handover().kernel(Handover().ops[0], []) == [0];
  }

  // ---- without the proviso ----

  /** The state when the first k workers have each taken one task and nobody has done more. */
  function Taking(b: Block, concurrency: nat, k: nat): Sys
    requires k <= |b.ops|
  {
    Sys(seq(|b.ops| - k, j requires 0 <= j < |b.ops| - k => k + j),
        seq(concurrency, w requires 0 <= w < concurrency =>
          if w >= k then AtQueue else if b.ops[w].operands != [] then Popped(w) else Starting(w)),
        b.init, [], false)
  }

  function Takings(b: Block, concurrency: nat, k: nat): (run: seq<Sys>)
    requires k <= |b.ops|
    ensures |run| == k + 1 && forall j :: 0 <= j <= k ==> run[j] == Taking(b, concurrency, j)
  {
    seq(k + 1, j requires 0 <= j <= k => Taking(b, concurrency, j))
  }

  lemma TakeNext(b: Block, concurrency: nat, k: nat)
    requires k < |b.ops| && k < concurrency
    ensures Step(b, Taking(b, concurrency, k), Taking(b, concurrency, k + 1))
  {
    var s, t := Taking(b, concurrency, k), Taking(b, concurrency, k + 1);
    assert t.queue == s.queue[1..];
    assert t.workers == s.workers[k := if b.ops[k].operands != [] then Popped(k) else Starting(k)];
    assert Pop(b, s, t, k);
    assert Proper(b, s, t, k);
  }

  /** An operation that captures a value of the block but has no operand may run before that value exists. */
  lemma UnguardedAborts(b: Block, i: nat, v: nat) returns (run: seq<Sys>)
    requires b.WellFormed() && i < |b.ops| && b.ops[i].operands == [] && v in b.Captures(i)
    ensures Run(b, i + 1, run) && run[|run| - 1].aborted
  {
    var c := i + 1;
    var s := Taking(b, c, i + 1);
    var last := s.(aborted := true, log := [i]);
    run := Takings(b, c, i + 1) + [last];
    assert Taking(b, c, 0) == Initial(b, c);
    forall k | 0 <= k && k + 1 < |run|
      ensures Step(b, run[k], run[k + 1])
    {
      if k <= i {
        TakeNext(b, c, k);
      } else {
        assert v in b.Uses(i);
        assert Compute(b, s, last, i);
        assert Proper(b, s, last, i);
      }
    }
  }

  /** Some run, with some number of workers, reads a value that is not there yet. */
  ghost predicate MayAbort(b: Block) {
    exists concurrency: nat, run: seq<Sys>, k: nat :: concurrency >= 1 && Run(b, concurrency, run) && k < |run| && run[k].aborted
  }

  /** The proviso is exactly what it takes. */
  lemma GuardedExactly(b: Block)
    requires b.WellFormed()
    ensures Guarded(b) <==> !MayAbort(b)
  {
    hide Inv, Block.WellFormed, Step;
    if Guarded(b) && MayAbort(b) {
      var concurrency: nat, run: seq<Sys>, k: nat :| concurrency >= 1 && Run(b, concurrency, run) && k < |run| && run[k].aborted;
      RunsKeep(b, concurrency, run, k);
      InvNotAborted(b, run[k]);
      assert false;
    }
    if !Guarded(b) {
      var i :| 0 <= i < |b.ops| && b.ops[i].operands == [] && b.Captures(i) != [];
      var v := b.Captures(i)[0];
      var run := UnguardedAborts(b, i, v);
      assert i + 1 >= 1 && Run(b, i + 1, run) && |run| - 1 < |run| && run[|run| - 1].aborted;
    }
  }
}
