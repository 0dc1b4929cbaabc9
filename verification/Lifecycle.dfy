/** The process lifecycle of process/process.c and process/syscall.c as a transition system: what
    schedule, fork, wait, exit and yield do to the processes, the ready queue and the process table.

    The stack switches are abstract: each PCB records where its process goes on (`resume`).
    `log` records what happened, for the properties of whole runs. */
module Lifecycle {
  import opened Pointers
  import opened ProcessQueue
  import S = StableQueue

  datatype Event =
    | Forked(parent: Ptr, child: Ptr)
    | Exited(child: Ptr, status: int)
    | Reaped(parent: Ptr, child: Ptr, pid: nat, status: int)

  /** `procs` holds every PCB ever linked in, reaped or not; the links between PCBs are represented
      by `ready` and `table` instead.  `idle` means that control is in cli_loop. */
  datatype Sys = Sys(
    procs: Pcbs, ready: seq<Ptr>, table: seq<Ptr>,
    current: Ptr, nextPid: nat, idle: bool, log: seq<Event>)

  /** How far the calls of kmalloc get in fork_syscall and create_process. */
  datatype Alloc = NoPcb | NoStack | Enough

  datatype Step =
    | Create(priority: int, deadline: int, timeToRun: int, alloc: Alloc, junk: Pcb)
    | Fork(alloc: Alloc, junk: Pcb)
    | Wait
    | Resume
    | Exit(status: int)
    | Yield
    | Quit
    | Dispatch

  // ---------- The steps ----------

  /** Pointers point to PCBs. */
  ghost predicate Wf(s: Sys) {
    && (s.current == NIL || Has(s.procs, s.current))
    && (forall p :: p in s.ready ==> Has(s.procs, p))
    && (forall p :: p in s.table ==> Has(s.procs, p))
    && (forall p :: Has(s.procs, p) ==> s.procs[p].parent == NIL || Has(s.procs, s.procs[p].parent))
  }

  function SetState(m: Pcbs, p: Ptr, state: State): Pcbs
    requires Has(m, p)
  {
    m[p := m[p].(state := state)]
  }

  /** `p` becomes READY and is enqueued. */
  ghost function MakeReady(s: Sys, p: Ptr): Sys
    requires Has(s.procs, p)
  {
    s.(procs := SetState(s.procs, p, Ready), ready := S.Insert(s.ready, p, PriorityOf(s.procs)))
  }

  ghost predicate IsRunning(s: Sys) {
    Has(s.procs, s.current) && s.procs[s.current].state.Running?
  }

  /** schedule, second half: the front of the queue runs, or control goes to cli_loop. */
  ghost function RunFront(s: Sys): Sys
    requires Wf(s)
  {
    if s.ready == [] then s.(idle := true) else
      var n := s.ready[0];
      assert n in s.ready;
      s.(ready := s.ready[1..], current := n, idle := false,
         procs := s.procs[n := s.procs[n].(state := Running, isNewChild := false)])
  }

  /** schedule */
  ghost function Schedule(s: Sys): Sys
    requires Wf(s)
  {
    if IsRunning(s) then
      MakeReadyWf(s, s.current);
      RunFront(MakeReady(s, s.current))
    else
      RunFront(s)
  }

  lemma MakeReadyWf(s: Sys, p: Ptr)
    requires Wf(s) && Has(s.procs, p)
    ensures Wf(MakeReady(s, p))
  {
    S.InsertElements(s.ready, p, PriorityOf(s.procs));
  }

  /** A new PCB goes to the head of the table and into the ready queue. */
  ghost function LinkIn(s: Sys, p: Pcb): Sys {
    var c := |s.procs|;
    var m := s.procs + [p];
    s.(procs := m, table := [c] + s.table, nextPid := s.nextPid + 1,
       ready := S.Insert(s.ready, c, PriorityOf(m)))
  }

  /** The PCB that create_process fills in.  It leaves `parent` alone, which is taken to be null,
      and leaves the rest of what kmalloc returned. */
  function NewPcb(junk: Pcb, pid: nat, priority: int, deadline: int, timeToRun: int): Pcb {
    junk.(pid := pid, state := Ready, priority := priority, deadline := deadline, timeToRun := timeToRun,
          next := NIL, nextInTable := NIL, parent := NIL, resume := InUser)
  }

  /** The PCB that fork_syscall fills in: deadline, time_to_run and exit_status stay uninitialised. */
  function ChildPcb(junk: Pcb, pid: nat, parent: Ptr, priority: int): Pcb {
    junk.(pid := pid, state := Ready, priority := priority,
          next := NIL, nextInTable := NIL, parent := parent, isNewChild := true, resume := InUser)
  }

  /** create_process with a new pid */
  ghost function CreateStep(s: Sys, step: Step): Sys
    requires step.Create?
  {
    if step.alloc.Enough? then
      LinkIn(s, NewPcb(step.junk, s.nextPid, step.priority, step.deadline, step.timeToRun))
    else
      s.(nextPid := s.nextPid + 1)
  }

  /** fork_syscall */
  ghost function ForkStep(s: Sys, alloc: Alloc, junk: Pcb): Sys
    requires Has(s.procs, s.current)
  {
    match alloc
    case NoPcb => s
    case NoStack => s.(nextPid := s.nextPid + 1)
    case Enough =>
      var child := ChildPcb(junk, s.nextPid, s.current, s.procs[s.current].priority);
      LinkIn(s, child).(log := s.log + [Forked(s.current, |s.procs|)])
  }

  /** The test of find_zombie_child, which compares pids; a null parent never matches. */
  predicate IsZombieOf(m: Pcbs, c: Ptr, p: Ptr)
    requires Has(m, p) && Has(m, c)
  {
    Has(m, m[c].parent) && m[m[c].parent].pid == m[p].pid && m[c].state.Zombie?
  }

  /** Where find_zombie_child stops in the table: at the first zombie child, or at the end. */
  ghost function FindZombie(m: Pcbs, table: seq<Ptr>, p: Ptr): (i: nat)
    requires Has(m, p) && forall c :: c in table ==> Has(m, c)
    ensures i <= |table|
    ensures i < |table| ==> IsZombieOf(m, table[i], p)
    ensures forall k :: 0 <= k < i ==> !IsZombieOf(m, table[k], p)
  {
    if table == [] || IsZombieOf(m, table[0], p) then 0 else
      assert forall c :: c in table[1..] ==> c in table;
      1 + FindZombie(m, table[1..], p)
  }

  /** The zombie at position `i` leaves the table and its parent gets its pid and status. */
  ghost function Reap(s: Sys, i: nat): Sys
    requires Has(s.procs, s.current) && i < |s.table| && Has(s.procs, s.table[i])
  {
    var c := s.table[i];
    s.(table := s.table[..i] + s.table[i + 1..],
       log := s.log + [Reaped(s.current, c, s.procs[c].pid, s.procs[c].exitStatus)])
  }

  /** The current process goes on in its own code. */
  ghost function BackToUser(s: Sys): Sys
    requires Has(s.procs, s.current)
  {
    s.(procs := s.procs[s.current := s.procs[s.current].(resume := InUser)])
  }

  /** wait_syscall up to the call of yield_syscall, or to its first return. */
  ghost function WaitStep(s: Sys): Sys
    requires Wf(s) && Has(s.procs, s.current)
  {
    var i := FindZombie(s.procs, s.table, s.current);
    if i < |s.table| then Reap(s, i) else
      Schedule(s.(procs := s.procs[s.current := s.procs[s.current].(state := Blocked, resume := InWait)]))
  }

  /** wait_syscall behind the call of yield_syscall. */
  ghost function ResumeStep(s: Sys): Sys
    requires Wf(s) && Has(s.procs, s.current)
  {
    var i := FindZombie(s.procs, s.table, s.current);
    BackToUser(if i < |s.table| then Reap(s, i) else s)
  }

  /** The current process becomes a zombie and wakes up its parent, if that is blocked. */
  ghost function BecomeZombie(s: Sys, status: int): Sys
    requires Wf(s) && Has(s.procs, s.current)
  {
    var m := s.procs[s.current := s.procs[s.current].(exitStatus := status, state := Zombie)];
    var z := s.(procs := m, log := s.log + [Exited(s.current, status)]);
    var p := m[s.current].parent;
    if p != NIL && m[p].state.Blocked? then MakeReady(z, p) else z
  }

  /** exit_syscall */
  ghost function ExitStep(s: Sys, status: int): Sys
    requires Wf(s) && Has(s.procs, s.current)
  {
    BecomeZombieWf(s, status);
    Schedule(BecomeZombie(s, status))
  }

  lemma BecomeZombieWf(s: Sys, status: int)
    requires Wf(s) && Has(s.procs, s.current)
    ensures Wf(BecomeZombie(s, status))
  {
    var m := s.procs[s.current := s.procs[s.current].(exitStatus := status, state := Zombie)];
    var z := s.(procs := m, log := s.log + [Exited(s.current, status)]);
    assert Wf(z);
    if Has(m, m[s.current].parent) {
      MakeReadyWf(z, m[s.current].parent);
    }
  }

  /** The current process gives up the processor in STATE_EXIT. */
  ghost function QuitStep(s: Sys): Sys
    requires Wf(s) && Has(s.procs, s.current)
  {
    Schedule(s.(procs := SetState(s.procs, s.current, State.Exit)))
  }

  /** Which steps can come next: system calls of the running process, the rest of its wait_syscall,
      or, in cli_loop, new processes and a call of schedule. */
  ghost predicate Enabled(s: Sys, step: Step) {
    match step
    case Create(_, _, _, _, _) => s.idle || (IsRunning(s) && s.procs[s.current].resume.InUser?)
    case Dispatch => s.idle
    case Resume => !s.idle && IsRunning(s) && s.procs[s.current].resume.InWait?
    case _ => !s.idle && IsRunning(s) && s.procs[s.current].resume.InUser?
  }

  ghost function Apply(s: Sys, step: Step): Sys
    requires Wf(s) && Enabled(s, step)
  {
    match step
    case Create(_, _, _, _, _) => CreateStep(s, step)
    case Fork(alloc, junk) => ForkStep(s, alloc, junk)
    case Wait => WaitStep(s)
    case Resume => ResumeStep(s)
    case Exit(status) => ExitStep(s, status)
    case Yield => Schedule(s)
    case Quit => QuitStep(s)
    case Dispatch => Schedule(s)
  }

  function Boot(): Sys {
    Sys([], [], [], NIL, 1, true, [])
  }
}
