/**
 The game-aware scheduler (scheduler/scheduler.cpp): process creation and termination and the timer
 tick. `Sched` is the scheduler's state as a value; the class computes its functions in place.
 */
module Scheduling {
  import opened Prelude

  const MAX_PROCESSES: nat := 1024
  const MAX_THREADS: nat := 256

  datatype ProcessState = Created | Ready | Running | Blocked | Terminated

  /** The context pointer is modelled by the process id: every process object embeds one context. */
  datatype Process = Process(pid: nat, priority: nat, state: ProcessState)

  datatype Thread = Thread(priority: nat, cpuTime: nat, isGameThread: bool, isActive: bool, context: nat)

  /** Processes and threads are referred to by their position. */
  datatype Sched = Sched(threads: seq<Thread>, processes: seq<Process>, readyQueue: seq<nat>,
                         currentProcess: Option<nat>, currentThread: Option<nat>, running: bool)

  function DynamicPriority(t: Thread): nat {
    (if t.isGameThread then t.priority * 2 else t.priority) + 1000000 / (t.cpuTime + 1)
  }

  /**
   What a thread is ranked by: its priority, doubled for a game thread, and on top of that a bonus
   which is the number of times that its CPU time plus one goes into a million.
   */
  lemma DynamicPriorityExactly(t: Thread)
    ensures var base := if t.isGameThread then t.priority + t.priority else t.priority;
            var bonus := DynamicPriority(t) - base;
            bonus >= 0 && bonus * (t.cpuTime + 1) <= 1000000 < (bonus + 1) * (t.cpuTime + 1)
  {
  }

  // ----- the scan for the best thread

  predicate Eligible(t: Thread) {
    t.isActive && DynamicPriority(t) > 0
  }

  /** The lowest-index thread of maximal dynamic priority among the first n active ones. */
  ghost predicate IsBest(ts: seq<Thread>, n: nat, i: nat) {
    && i < n <= |ts| && Eligible(ts[i])
    && (forall j | 0 <= j < n && ts[j].isActive :: DynamicPriority(ts[j]) <= DynamicPriority(ts[i]))
    && (forall j | 0 <= j < i && ts[j].isActive :: DynamicPriority(ts[j]) < DynamicPriority(ts[i]))
  }

  function BestThread(ts: seq<Thread>, n: nat): (r: Option<nat>)
    requires n <= |ts|
    ensures r.Some? ==> IsBest(ts, n, r.value)
    ensures r.None? ==> forall j | 0 <= j < n :: !Eligible(ts[j])
  {
    if n == 0 then None
    else
      var best := BestThread(ts, n - 1);
      if Eligible(ts[n - 1]) && (best.None? || DynamicPriority(ts[n - 1]) > DynamicPriority(ts[best.value]))
      then Some(n - 1) else best
  }

  // ----- the operations

  function Create(s: Sched, priority: nat): (Sched, nat) {
    if |s.processes| >= MAX_PROCESSES then (s, 0)
    else
      var pid := |s.processes| + 1;
      (s.(threads := s.threads + [Thread(priority, 0, priority > 10, true, pid)],
          processes := s.processes + [Process(pid, priority, Ready)],
          readyQueue := s.readyQueue + [|s.processes|]),
       pid)
  }

  /** The first process with the given id, or with the given context. */
  function Find(ps: seq<Process>, pid: nat, from: nat): (r: Option<nat>)
    ensures r.Some? ==> from <= r.value < |ps| && ps[r.value].pid == pid
    ensures r.None? ==> forall i | from <= i < |ps| :: ps[i].pid != pid
    decreases |ps| - from
  {
    if from >= |ps| then None else if ps[from].pid == pid then Some(from) else Find(ps, pid, from + 1)
  }

  function Deactivate(ts: seq<Thread>, context: nat): (r: seq<Thread>)
    ensures |r| == |ts|
  {
    seq(|ts|, i requires 0 <= i < |ts| =>
      if ts[i].context == context then ts[i].(isActive := false) else ts[i])
  }

  function Terminate(s: Sched, pid: nat): Sched {
    match Find(s.processes, pid, 0)
    case None => s
    case Some(i) =>
      s.(processes := s.processes[i := s.processes[i].(state := Terminated)],
         threads := Deactivate(s.threads, pid))
  }

  /** Processes and queue after the current process, if any, is put back as ready. */
  function Preempt(s: Sched): (seq<Process>, seq<nat>) {
    if s.currentProcess.Some? && s.currentProcess.value < |s.processes| then
      var c := s.currentProcess.value;
      (s.processes[c := s.processes[c].(state := Ready)], s.readyQueue + [c])
    else (s.processes, s.readyQueue)
  }

  function Tick(s: Sched): Sched {
    if !s.running then s
    else
      match BestThread(s.threads, |s.threads|)
      case None => s
      case Some(t) =>
        if s.currentThread == Some(t) then s
        else
          match Find(s.processes, s.threads[t].context, 0)
          case None => s
          case Some(p) =>
            if s.currentProcess == Some(p) then s
            else
              var (ps, q) := Preempt(s);
              s.(processes := if p < |ps| then ps[p := ps[p].(state := Running)] else ps, readyQueue := q,
                 currentProcess := Some(p), currentThread := Some(t))
  }

  datatype Op = Start | Stop | Spawn(priority: nat) | Kill(pid: nat) | Timer

  function Step(s: Sched, op: Op): Sched {
    match op
    case Start => s.(running := true)
    case Stop => s.(running := false)
    case Spawn(priority) => Create(s, priority).0
    case Kill(pid) => Terminate(s, pid)
    case Timer => Tick(s)
  }

  function Run(s: Sched, ops: seq<Op>): Sched
    decreases |ops|
  {
    if ops == [] then s else Run(Step(s, ops[0]), ops[1..])
  }

  const BOOT := Sched([], [], [], None, None, false)

  // ----- the invariant

  /** Process i and thread i belong together. */
  ghost predicate Paired(s: Sched) {
    && |s.threads| == |s.processes|
    && forall i | 0 <= i < |s.processes| ::
         s.processes[i].pid == i + 1 == s.threads[i].context && s.threads[i].cpuTime == 0
  }

  /** Only the current process is ever running, and a terminated one has no active thread. */
  ghost predicate StatesAgree(s: Sched) {
    && s.currentThread == s.currentProcess
    && (s.currentProcess.Some? ==> s.currentProcess.value < |s.processes|)
    && (forall i | 0 <= i < |s.processes| ::
          (s.processes[i].state == Running ==> s.currentProcess == Some(i)) &&
          (s.currentProcess == Some(i) ==> s.processes[i].state in {Running, Terminated}) &&
          (s.processes[i].state == Terminated ==> i < |s.threads| && !s.threads[i].isActive))
  }

  ghost predicate Inv(s: Sched) {
    Paired(s) && StatesAgree(s)
  }

  lemma CreateKeepsInv(s: Sched, priority: nat)
    requires Inv(s)
    ensures Inv(Create(s, priority).0)
  {
  }

  lemma TerminateKeepsInv(s: Sched, pid: nat)
    requires Inv(s)
    ensures Inv(Terminate(s, pid))
  {
  }

  lemma TickKeepsInv(s: Sched)
    requires Inv(s)
    ensures Inv(Tick(s))
  {
  }

  lemma StepKeepsInv(s: Sched, op: Op)
    requires Inv(s)
    ensures Inv(Step(s, op))
  {
    match op
    case Start =>
    case Stop =>
    case Spawn(priority) => CreateKeepsInv(s, priority);
    case Kill(pid) => TerminateKeepsInv(s, pid);
    case Timer => TickKeepsInv(s);
  }

  lemma {:induction false} RunKeepsInv(s: Sched, ops: seq<Op>)
    requires Inv(s)
    ensures Inv(Run(s, ops))
    decreases |ops|
  {
    if ops == [] {
    } else {
      StepKeepsInv(s, ops[0]);
      RunKeepsInv(Step(s, ops[0]), ops[1..]);
    }
  }

  /** Every run from boot: pids are unique, and at most one process is running, the current one. */
  lemma EveryRunIsSafe(ops: seq<Op>)
    ensures var s := Run(BOOT, ops);
            && (forall i, j | 0 <= i < j < |s.processes| :: s.processes[i].pid != s.processes[j].pid)
            && (forall i | 0 <= i < |s.processes| && s.processes[i].state == Running :: s.currentProcess == Some(i))
  {
    RunKeepsInv(BOOT, ops);
  }

  // ----- the tick

  /** A tick leaves the lowest-index active thread of maximal dynamic priority as current. */
  lemma TickDispatchesBest(s: Sched)
    requires Inv(s) && s.running && exists i :: 0 <= i < |s.threads| && s.threads[i].isActive
    ensures var t := Tick(s);
            && t.currentThread.Some? && IsBest(s.threads, |s.threads|, t.currentThread.value)
            && t.threads == s.threads && t.currentProcess == t.currentThread
            && t.processes[t.currentThread.value].state == Running
  {
  }

  /** A second tick, with nothing in between, changes nothing. */
  lemma SecondTickIsIdle(s: Sched)
    requires Inv(s)
    ensures Tick(Tick(s)) == Tick(s)
  {
  }

  lemma {:induction false} IdleStaysIdle(s: Sched, ops: seq<Op>)
    requires Start !in ops && !s.running && s.currentProcess.None? && s.currentThread.None?
    ensures var t := Run(s, ops); !t.running && t.currentProcess.None? && t.currentThread.None?
    decreases |ops|
  {
    if ops == [] {
    } else {
      assert ops[0] in ops;
      IdleStaysIdle(Step(s, ops[0]), ops[1..]);
    }
  }

  /** Nothing is ever dispatched before the scheduler is started. */
  lemma NothingRunsBeforeStart(ops: seq<Op>)
    requires Start !in ops
    ensures var s := Run(BOOT, ops); !s.running && s.currentProcess.None? && s.currentThread.None?
  {
    IdleStaysIdle(BOOT, ops);
  }

  // ----- who is dispatched

  /** Each thread has its process's priority, and counts as a game thread above 10. */
  ghost predicate Ranked(s: Sched) {
    && |s.threads| == |s.processes|
    && forall i | 0 <= i < |s.threads| ::
         && s.threads[i].priority == s.processes[i].priority
         && (s.threads[i].isGameThread <==> s.processes[i].priority > 10)
  }

  lemma StepKeepsRanked(s: Sched, op: Op)
    requires Inv(s) && Ranked(s)
    ensures Ranked(Step(s, op))
  {
    match op
    case Start =>
    case Stop =>
    case Spawn(priority) =>
    case Kill(pid) =>
    case Timer =>
  }

  lemma {:induction false} RunKeepsRanked(s: Sched, ops: seq<Op>)
    requires Inv(s) && Ranked(s)
    ensures Inv(Run(s, ops)) && Ranked(Run(s, ops))
    decreases |ops|
  {
    if ops == [] {
    } else {
      StepKeepsInv(s, ops[0]);
      StepKeepsRanked(s, ops[0]);
      RunKeepsRanked(Step(s, ops[0]), ops[1..]);
    }
  }

  /** Without CPU time, the threads rank as their processes' priorities do. */
  lemma RankedByPriority(s: Sched, i: nat, j: nat)
    requires Inv(s) && Ranked(s) && i < |s.threads| && j < |s.threads|
    ensures DynamicPriority(s.threads[i]) <= DynamicPriority(s.threads[j]) <==>
            s.processes[i].priority <= s.processes[j].priority
  {
    DynamicPriorityExactly(s.threads[i]);
    DynamicPriorityExactly(s.threads[j]);
  }

  /** Process c is alive, none alive has a higher priority, and none alive before c an equal one. */
  ghost predicate FirstOfHighestPriority(s: Sched, c: nat)
    requires |s.threads| == |s.processes|
  {
    && c < |s.processes| && s.threads[c].isActive
    && (forall j | 0 <= j < |s.processes| && s.threads[j].isActive ::
          s.processes[j].priority <= s.processes[c].priority)
    && (forall j | 0 <= j < c && s.threads[j].isActive :: s.processes[j].priority < s.processes[c].priority)
  }

  /**
   In every run from boot, after a tick of the running scheduler with any thread active, the current
   process is the first of the highest priority among those with an active thread.
   */
  lemma EveryTickDispatchesHighest(ops: seq<Op>)
    requires var s := Run(BOOT, ops); s.running && exists i :: 0 <= i < |s.threads| && s.threads[i].isActive
    ensures var t := Tick(Run(BOOT, ops));
            && |t.threads| == |t.processes| && t.currentProcess.Some?
            && FirstOfHighestPriority(t, t.currentProcess.value)
  {
    var s := Run(BOOT, ops);
    RunKeepsRanked(BOOT, ops);
    TickDispatchesBest(s);
    TickKeepsInv(s);
    StepKeepsRanked(s, Timer);
    var t := Tick(s);
    var c := t.currentProcess.value;
    forall j | 0 <= j < |t.processes|
      ensures DynamicPriority(t.threads[j]) <= DynamicPriority(t.threads[c]) <==>
              t.processes[j].priority <= t.processes[c].priority
      ensures DynamicPriority(t.threads[c]) <= DynamicPriority(t.threads[j]) <==>
              t.processes[c].priority <= t.processes[j].priority
    {
      RankedByPriority(t, j, c);
      RankedByPriority(t, c, j);
    }
  }

  /**
   A tick that dispatches another process makes that one running, puts the one before, if any, back
   as ready at the end of the ready queue, and changes no other; any other tick changes nothing.
   */
  lemma TickEffect(s: Sched)
    requires Inv(s)
    ensures var t := Tick(s);
            if t.currentProcess == s.currentProcess then t == s
            else
              && |t.processes| == |s.processes| && t.threads == s.threads && t.running == s.running
              && t.readyQueue == s.readyQueue + (if s.currentProcess.Some? then [s.currentProcess.value] else [])
              && forall i: nat | i < |s.processes| ::
                   t.processes[i] == s.processes[i].(state :=
                     if t.currentProcess == Some(i) then Running
                     else if s.currentProcess == Some(i) then Ready
                     else s.processes[i].state)
  {
  }

  /**
   A creation adds one process, ready and last in the ready queue, with an active thread of its own
   and the id that it answers; beyond 1024 processes it answers 0 and changes nothing.
   */
  lemma CreateEffect(s: Sched, priority: nat)
    requires Inv(s)
    ensures var (t, pid) := Create(s, priority);
            var n := |s.processes|;
            if n >= 1024 then t == s && pid == 0
            else
              && |t.processes| == |t.threads| == n + 1 && t.processes[..n] == s.processes && t.threads[..n] == s.threads
              && pid == n + 1 == t.processes[n].pid == t.threads[n].context
              && t.processes[n].state == Ready && t.processes[n].priority == t.threads[n].priority == priority
              && t.threads[n].isActive && t.threads[n].cpuTime == 0 && (t.threads[n].isGameThread <==> priority > 10)
              && t.readyQueue == s.readyQueue + [n]
              && t.currentProcess == s.currentProcess && t.currentThread == s.currentThread && t.running == s.running
  {
  }

  // ----- termination

  lemma StepKeepsInactive(s: Sched, op: Op, i: nat)
    requires Inv(s) && i < |s.threads| && !s.threads[i].isActive
    ensures var t := Step(s, op);
            && i < |t.threads| && !t.threads[i].isActive
            && (t.currentProcess == Some(i) ==> s.currentProcess == Some(i))
  {
  }

  /** Once terminated, a process is never dispatched again: it can be current later only if it is now. */
  lemma {:induction false} TerminatedNeverDispatched(s: Sched, ops: seq<Op>, i: nat)
    requires Inv(s) && i < |s.threads| && !s.threads[i].isActive
    ensures var t := Run(s, ops);
            && i < |t.threads| && !t.threads[i].isActive
            && (t.currentProcess == Some(i) ==> s.currentProcess == Some(i))
    decreases |ops|
  {
    if ops == [] {
    } else {
      StepKeepsInv(s, ops[0]);
      StepKeepsInactive(s, ops[0], i);
      TerminatedNeverDispatched(Step(s, ops[0]), ops[1..], i);
    }
  }

  /**
   Its state is another matter: a tick puts a terminated process back to ready, and on the ready
   queue, exactly when it is still the current one and some other thread is active.
   */
  lemma TickRevivesExactlyCurrent(s: Sched, i: nat)
    requires Inv(s) && i < |s.processes| && s.processes[i].state == Terminated
    ensures Tick(s).processes[i].state != Terminated <==>
            s.running && s.currentProcess == Some(i) && exists j :: 0 <= j < |s.threads| && s.threads[j].isActive
  {
  }

  lemma RunThree(s: Sched, ops: seq<Op>)
    requires |ops| >= 3
    ensures Run(s, ops) == Run(Step(Step(Step(s, ops[0]), ops[1]), ops[2]), ops[3..])
  {
    var s1, s2 := Step(s, ops[0]), Step(Step(s, ops[0]), ops[1]);
    assert ops[1..][1..] == ops[2..] && ops[2..][1..] == ops[3..];
    assert Run(s, ops) == Run(s1, ops[1..]) == Run(s2, ops[2..]);
  }

  /** One process was created and dispatched; then it is terminated and a second one is created. */
  const SERVED := Sched([Thread(1, 0, false, true, 1)], [Process(1, 1, Running)], [0], Some(0), Some(0), true)
  const STALE := Sched([Thread(1, 0, false, false, 1), Thread(1, 0, false, true, 2)],
                       [Process(1, 1, Terminated), Process(2, 1, Ready)], [0, 1], Some(0), Some(0), true)

  lemma ServedIsReached()
    ensures Step(Step(Step(BOOT, Start), Spawn(1)), Timer) == SERVED
  {
  }

  lemma StaleIsReached()
    ensures Step(Step(SERVED, Kill(1)), Spawn(1)) == STALE
  {
  }

  lemma StaleIsRevived()
    ensures Step(STALE, Timer).processes == [Process(1, 1, Ready), Process(2, 1, Running)]
    ensures Step(STALE, Timer).readyQueue == [0, 1, 0]
  {
  }

  /** From boot: a process is dispatched and terminated, and with another one waiting the next tick revives it. */
  lemma RevivedExample(ops: seq<Op>)
    requires ops == [Start, Spawn(1), Timer, Kill(1), Spawn(1), Timer]
    ensures Run(BOOT, ops).processes == [Process(1, 1, Ready), Process(2, 1, Running)]
    ensures Run(BOOT, ops).readyQueue == [0, 1, 0]
  {
    RunThree(BOOT, ops);
    ServedIsReached();
    RunThree(SERVED, ops[3..]);
    StaleIsReached();
    StaleIsRevived();
    assert ops[3..][3..] == [];
  }

  /** Termination marks one process and its thread, and an unknown pid changes nothing. */
  lemma TerminateEffect(s: Sched, pid: nat)
    requires Inv(s)
    ensures var t := Terminate(s, pid);
            if 1 <= pid <= |s.processes| then
              t == s.(processes := s.processes[pid - 1 := s.processes[pid - 1].(state := Terminated)],
                      threads := s.threads[pid - 1 := s.threads[pid - 1].(isActive := false)])
            else t == s
  {
  }

  // ----- the thread table

  /** How many processes the operations ask for. */
  function Spawns(ops: seq<Op>): nat {
    if ops == [] then 0 else (if ops[0].Spawn? then 1 else 0) + Spawns(ops[1..])
  }

  lemma {:induction false} SpawnsOfPrefix(ops: seq<Op>, k: nat)
    requires k <= |ops|
    ensures Spawns(ops[..k]) <= Spawns(ops)
  {
    if k == 0 {
    } else {
      SpawnsOfPrefix(ops[1..], k - 1);
      assert ops[..k][1..] == ops[1..][..k - 1];
    }
  }

  /** Both tables hold one entry for each process asked for, until there are 1024. */
  lemma {:induction false} RunFillsTables(s: Sched, ops: seq<Op>)
    requires Inv(s) && |s.processes| <= MAX_PROCESSES
    ensures var n, t := |s.processes| + Spawns(ops), Run(s, ops);
            |t.threads| == |t.processes| == if n <= MAX_PROCESSES then n else MAX_PROCESSES
    decreases |ops|
  {
    if ops == [] {
    } else {
      StepKeepsInv(s, ops[0]);
      RunFillsTables(Step(s, ops[0]), ops[1..]);
    }
  }

  /** From a state within the 256 threads, creation stays within them exactly if there are fewer than 256 processes. */
  lemma CreateStaysInTableExactly(s: Sched, priority: nat)
    requires Inv(s) && |s.threads| <= MAX_THREADS
    ensures |Create(s, priority).0.threads| <= MAX_THREADS <==> |s.processes| < MAX_THREADS
  {
  }

  /** No state of the run has more threads than the table. */
  ghost predicate StaysInTable(ops: seq<Op>) {
    forall k | 0 <= k <= |ops| :: |Run(BOOT, ops[..k]).threads| <= MAX_THREADS
  }

  /**
   Creation checks the number of processes against 1024, not the number of threads against 256. So
   a run stays within the thread table exactly if it asks for no more than 256 processes in all;
   terminations do not help, because no thread is ever given up.
   */
  lemma ThreadTableFillsFirst(ops: seq<Op>)
    ensures StaysInTable(ops) <==> Spawns(ops) <= MAX_THREADS
  {
    forall k | 0 <= k <= |ops|
      ensures |Run(BOOT, ops[..k]).threads| <= MAX_THREADS <==> Spawns(ops[..k]) <= MAX_THREADS
      ensures Spawns(ops[..k]) <= Spawns(ops)
    {
      RunFillsTables(BOOT, ops[..k]);
      SpawnsOfPrefix(ops, k);
    }
    assert ops[..|ops|] == ops;
  }

  lemma {:induction false} SpawnsOfSpawns(ops: seq<Op>)
    requires forall i | 0 <= i < |ops| :: ops[i].Spawn?
    ensures Spawns(ops) == |ops|
  {
    if ops == [] {
    } else {
      SpawnsOfSpawns(ops[1..]);
    }
  }

  /** The 257th process in a row gets a pid and a thread outside the table. */
  lemma OverfullExample()
    ensures var ops := seq(257, i => Spawn(0));
            |Run(BOOT, ops).threads| == 257 && !StaysInTable(ops) && StaysInTable(ops[..256])
  {
    var ops := seq(257, i => Spawn(0));
    SpawnsOfSpawns(ops);
    SpawnsOfSpawns(ops[..256]);
    RunFillsTables(BOOT, ops);
    ThreadTableFillsFirst(ops);
    ThreadTableFillsFirst(ops[..256]);
  }

  // ----- the scheduler itself

  class EnhancedScheduler {
    const threads: array<Thread>
    var activeThreadCount: nat
    var processes: seq<Process>
    var readyQueue: seq<nat>
    var currentProcess: Option<nat>
    var currentThread: Option<nat>
    var running: bool

    ghost function View(): Sched
      requires activeThreadCount <= threads.Length
      reads this, threads
    {
      Sched(threads[..activeThreadCount], processes, readyQueue, currentProcess, currentThread, running)
    }

    ghost predicate Valid()
      reads this, threads
    {
      threads.Length == MAX_THREADS && activeThreadCount <= MAX_THREADS && Inv(View())
    }

    constructor ()
      ensures Valid() && View() == BOOT
    {
      threads := new Thread[MAX_THREADS](i => Thread(0, 0, false, false, 0));
      activeThreadCount, processes, readyQueue := 0, [], [];
      currentProcess, currentThread, running := None, None, false;
    }

    method StartRunning()
      requires Valid()
      modifies this`running
      ensures Valid() && View() == Step(old(View()), Start)
    {
      if running { return; }
      running := true;
    }

    method StopRunning()
      requires Valid()
      modifies this`running
      ensures Valid() && View() == Step(old(View()), Stop)
    {
      if !running { return; }
      running := false;
    }

    /** The caller must leave room in the thread table; the code does not check it. */
    method CreateProcess(priority: nat) returns (pid: nat)
      requires threads.Length == MAX_THREADS
      requires activeThreadCount <= MAX_THREADS && (|processes| < MAX_PROCESSES ==> activeThreadCount < MAX_THREADS)
      modifies this`activeThreadCount, this`processes, this`readyQueue, threads
      ensures activeThreadCount <= MAX_THREADS && (View(), pid) == Create(old(View()), priority)
      ensures old(Valid()) ==> Valid()
    {
      ghost var before := View();
      if Inv(before) { CreateKeepsInv(before, priority); }
      if |processes| >= MAX_PROCESSES { return 0; }
      pid := |processes| + 1;
      var process := Process(pid, priority, Ready);
      threads[activeThreadCount] := Thread(priority, 0, priority > 10, true, pid);
      activeThreadCount := activeThreadCount + 1;
      readyQueue := readyQueue + [|processes|];
      processes := processes + [process];
      assert threads[..activeThreadCount] == before.threads + [Thread(priority, 0, priority > 10, true, pid)];
      assert View() == Create(before, priority).0;
    }

    method DeactivateThreads(context: nat)
      requires activeThreadCount <= threads.Length
      modifies threads
      ensures threads[..activeThreadCount] == Deactivate(old(threads[..activeThreadCount]), context)
    {
      for j := 0 to activeThreadCount
        invariant threads[..j] == Deactivate(old(threads[..j]), context)
        invariant threads[j..] == old(threads[j..])
      {
        assert threads[j] == threads[j..][0] == old(threads[j..])[0];
        if threads[j].context == context {
          threads[j] := threads[j].(isActive := false);
        }
      }
    }

    method TerminateProcess(pid: nat)
      requires Valid()
      modifies this`processes, threads
      ensures Valid() && View() == Terminate(old(View()), pid)
    {
      ghost var before := View();
      TerminateKeepsInv(before, pid);
      for i := 0 to |processes|
        invariant View() == before
        invariant Find(processes, pid, 0) == Find(processes, pid, i)
      {
        if processes[i].pid == pid {
          processes := processes[i := processes[i].(state := Terminated)];
          DeactivateThreads(pid);
          assert View() == Terminate(before, pid);
          return;
        }
      }
      assert View() == Terminate(before, pid);
    }

    /** The scan for the next thread, lowest index first. */
    method SelectThread() returns (next: Option<nat>)
      requires Valid()
      ensures next == BestThread(View().threads, activeThreadCount)
    {
      next := None;
      var maxPriority := 0;
      for i := 0 to activeThreadCount
        invariant next == BestThread(View().threads, i)
        invariant maxPriority == if next.Some? then DynamicPriority(threads[next.value]) else 0
      {
        if threads[i].isActive {
          var dynamicPriority := DynamicPriority(threads[i]);
          if dynamicPriority > maxPriority {
            maxPriority := dynamicPriority;
            next := Some(i);
          }
        }
      }
    }

    method FindProcess(context: nat) returns (found: Option<nat>)
      requires Valid()
      ensures found == Find(processes, context, 0)
    {
      for i := 0 to |processes|
        invariant Find(processes, context, 0) == Find(processes, context, i)
      {
        if processes[i].pid == context { return Some(i); }
      }
      return None;
    }

    /** The switch itself. Saving and loading registers is not part of the state. */
    method SwitchTo(p: nat, t: nat)
      requires activeThreadCount <= threads.Length && p < |processes|
      requires currentProcess.Some? ==> currentProcess.value < |processes|
      modifies this`processes, this`readyQueue, this`currentProcess, this`currentThread
      ensures var (ps, q) := old(Preempt(View()));
              View() == old(View()).(processes := ps[p := ps[p].(state := Running)], readyQueue := q,
                                     currentProcess := Some(p), currentThread := Some(t))
    {
      if currentProcess.Some? {
        var c := currentProcess.value;
        processes := processes[c := processes[c].(state := Ready)];
        readyQueue := readyQueue + [c];
      }
      currentProcess := Some(p);
      currentThread := Some(t);
      processes := processes[p := processes[p].(state := Running)];
    }

    /** The timer tick. */
    method Schedule()
      requires Valid()
      modifies this`processes, this`readyQueue, this`currentProcess, this`currentThread
      ensures Valid() && View() == Tick(old(View()))
    {
      ghost var before := View();
      TickKeepsInv(before);
      if running {
        var nextThread := SelectThread();
        if nextThread.Some? && nextThread != currentThread {
          var nextProcess := FindProcess(threads[nextThread.value].context);
          if nextProcess.Some? && nextProcess != currentProcess {
            SwitchTo(nextProcess.value, nextThread.value);
          }
        }
      }
      assert View() == Tick(before);
    }
  }
}
