/** process/process.c and process/syscall.c in place: the PCBs in memory, the two linked lists
    through them and the globals.  Each method is proved to be one step of `Lifecycle`. */
module Kernel {
  import opened Pointers
  import opened ProcessQueue
  import opened Lifecycle
  import opened LifecycleSafety
  import opened LifecycleEffects
  import S = StableQueue

  /** The PCBs without the links of the two lists. */
  ghost function Bare(m: Pcbs): (b: Pcbs)
    ensures |b| == |m|
    ensures forall p :: Has(m, p) ==> b[p] == m[p].(next := NIL, nextInTable := NIL)
  {
    seq(|m|, p requires 0 <= p < |m| => m[p].(next := NIL, nextInTable := NIL))
  }

  /** `head` starts a null-terminated list of the PCBs `t`, linked by `nextInTable`. */
  ghost predicate IsTable(m: Pcbs, head: Ptr, t: seq<Ptr>) {
    && S.Distinct(t)
    && (forall i :: 0 <= i < |t| ==> Has(m, t[i]) && m[t[i]].nextInTable == NextIn(t, i))
    && head == if t == [] then NIL else t[0]
  }

  lemma BareSame(m: Pcbs, m': Pcbs)
    requires SameButNext(m, m')
    ensures Bare(m') == Bare(m)
  {
  }

  lemma TableSame(m: Pcbs, m': Pcbs, head: Ptr, t: seq<Ptr>)
    requires IsTable(m, head, t) && |m| <= |m'|
    requires forall p :: Has(m, p) ==> m'[p].nextInTable == m[p].nextInTable
    ensures IsTable(m', head, t)
  {
  }

  lemma QueueSame(m: Pcbs, m': Pcbs, front: Ptr, rear: Ptr, s: seq<Ptr>)
    requires IsQueue(m, front, rear, s) && |m| <= |m'|
    requires forall p :: Has(m, p) ==> m'[p].next == m[p].next
    ensures IsQueue(m', front, rear, s)
  {
  }

  /** Changing other fields than the links of one PCB. */
  lemma BareUpdate(m: Pcbs, p: Ptr, x: Pcb)
    requires Has(m, p) && x.next == m[p].next && x.nextInTable == m[p].nextInTable
    ensures Bare(m[p := x]) == Bare(m)[p := x.(next := NIL, nextInTable := NIL)]
  {
  }

  lemma PushTable(m: Pcbs, p: Pcb, head: Ptr, t: seq<Ptr>)
    requires IsTable(m, head, t)
    ensures IsTable(m + [p.(nextInTable := head)], |m|, [|m|] + t)
  {
    var r := [|m|] + t;
    forall i, j | 0 <= i < j < |r| ensures r[i] != r[j] {
      assert r[j] == t[j - 1];
    }
  }

  /** The table after the entry at `i` was unlinked. */
  lemma UnlinkTable(m: Pcbs, head: Ptr, t: seq<Ptr>, i: nat)
    requires IsTable(m, head, t) && i < |t|
    ensures var r := t[..i] + t[i + 1..];
      if i == 0 then IsTable(m, m[t[0]].nextInTable, r)
      else IsTable(m[t[i - 1] := m[t[i - 1]].(nextInTable := m[t[i]].nextInTable)], head, r)
  {
    RemoveAt(t, i);
    var r := t[..i] + t[i + 1..];
    var m' := if i == 0 then m else m[t[i - 1] := m[t[i - 1]].(nextInTable := m[t[i]].nextInTable)];
    forall k | 0 <= k < |r| ensures Has(m', r[k]) && m'[r[k]].nextInTable == NextIn(r, k) {
      var o := if k < i then k else k + 1;
      assert r[k] == t[o];
      assert k + 1 < |r| ==> r[k + 1] == t[if k + 1 < i then k + 1 else k + 2];
      assert o != i - 1 ==> i == 0 || t[o] != t[i - 1];
    }
  }

  class Kernel {
    const mem: PcbMemory
    const readyQueue: ProcessQueue
    var tableHead: Ptr
    var current: Ptr
    var nextPid: nat
    var idle: bool  // control is in cli_loop
    ghost var table: seq<Ptr>
    ghost var log: seq<Event>

    /** The state as `Lifecycle` sees it. */
    ghost function Abs(): Sys
      reads this, mem, readyQueue
    {
      Sys(Bare(mem.pcb), readyQueue.contents, table, current, nextPid, idle, log)
    }

    ghost predicate Linked()
      reads this, mem, readyQueue
    {
      readyQueue.Valid(mem) && IsTable(mem.pcb, tableHead, table)
    }

    ghost predicate Valid()
      reads this, mem, readyQueue
    {
      Linked() && Inv(Abs())
    }

    constructor ()
      ensures Valid() && Abs() == Boot() && fresh(mem) && fresh(readyQueue)
      ensures nextPid == 1 && idle && mem.pcb == [] && readyQueue.contents == [] && table == []
    {
      mem := new PcbMemory([]);
      readyQueue := new ProcessQueue();
      tableHead, current, nextPid, idle := NIL, NIL, 1, true;
      table, log := [], [];
      new;
      assert Bare(mem.pcb) == [];
      BootValid();
    }

    lemma BootValid()
      requires Linked() && Abs() == Boot()
      ensures Valid()
    {
      BootInv();
    }

    /** Process `p` becomes READY and joins the ready queue. */
    method WakeUp(p: Ptr)
      requires Linked() && Has(mem.pcb, p) && p !in readyQueue.contents
      modifies mem, readyQueue
      ensures Linked() && Abs() == MakeReady(old(Abs()), p)
    {
      ghost var m, s := mem.pcb, readyQueue.contents;
      Store(p, mem.pcb[p].(state := Ready));
      ghost var m1 := mem.pcb;
      readyQueue.Enqueue(mem, p);
      BareSame(m1, mem.pcb);
      TableSame(m1, mem.pcb, tableHead, table);
      S.InsertSameKeys(s, p, PriorityOf(m1), PriorityOf(Bare(m)));
    }

    /** The second half of schedule. */
    method RunNext()
      requires Linked() && Wf(Abs())
      modifies this, mem, readyQueue
      ensures Linked() && Abs() == RunFront(old(Abs()))
    {
      ghost var m := mem.pcb;
      var next := readyQueue.Dequeue(mem);
      BareSame(m, mem.pcb);
      TableSame(m, mem.pcb, tableHead, table);
      if next == NIL {
        idle := true;
        return;
      }
      var p := mem.pcb[next];
      p := p.(state := Running);
      if p.isNewChild {
        p := p.(isNewChild := false);
      }
      Store(next, p);
      current := next;
      idle := false;
    }

    /** Assignments to other fields of a PCB than the links. */
    method Store(p: Ptr, x: Pcb)
      requires Linked() && Has(mem.pcb, p)
      requires x.next == mem.pcb[p].next && x.nextInTable == mem.pcb[p].nextInTable
      modifies mem
      ensures Linked() && mem.pcb == old(mem.pcb)[p := x]
      ensures Bare(mem.pcb) == Bare(old(mem.pcb))[p := x.(next := NIL, nextInTable := NIL)]
    {
      ghost var m := mem.pcb;
      mem.pcb := mem.pcb[p := x];
      BareUpdate(m, p, x);
      QueueSame(m, mem.pcb, readyQueue.front, readyQueue.rear, readyQueue.contents);
      TableSame(m, mem.pcb, tableHead, table);
    }

    /** schedule */
    method Schedule()
      requires Linked() && Wf(Abs())
      requires IsRunning(Abs()) ==> current !in readyQueue.contents
      modifies this, mem, readyQueue
      ensures Linked() && Abs() == Lifecycle.Schedule(old(Abs()))
      ensures ScheduleEffect(old(Abs()), Abs())
    {
      ScheduleHasEffect(Abs());
      if current != NIL && mem.pcb[current].state == Running {
        MakeReadyWf(Abs(), current);
        WakeUp(current);
      }
      RunNext();
    }

    /** get_new_pid */
    method GetNewPid() returns (pid: nat)
      modifies `nextPid
      ensures pid == old(nextPid) && nextPid == old(nextPid) + 1
    {
      pid := nextPid;
      nextPid := nextPid + 1;
    }

    /** A PCB filled in by its creator goes to the head of the process table. */
    method PushPcb(p: Pcb) returns (c: Ptr)
      requires Linked() && p.next == NIL && p.nextInTable == NIL
      modifies this, mem
      ensures Linked() && c == |old(mem.pcb)|
      ensures |mem.pcb| == c + 1 && Bare(mem.pcb) == Bare(old(mem.pcb)) + [p]
      ensures mem.pcb[c].priority == p.priority
      ensures Abs() == old(Abs()).(procs := Bare(mem.pcb), table := [c] + old(table))
    {
      ghost var m := mem.pcb;
      c := |mem.pcb|;
      PushTable(m, p, tableHead, table);
      mem.pcb := mem.pcb + [p.(nextInTable := tableHead)];
      QueueSame(m, mem.pcb, readyQueue.front, readyQueue.rear, readyQueue.contents);
      tableHead := c;
      table := [c] + table;
      assert Bare(mem.pcb) == Bare(m) + [p];
    }

    /** The new PCB also goes into the ready queue. */
    method LinkNew(p: Pcb, ghost s0: Sys) returns (c: Ptr)
      requires Linked() && Wf(Abs()) && Abs() == s0.(nextPid := s0.nextPid + 1)
      requires p.next == NIL && p.nextInTable == NIL
      modifies this, mem, readyQueue
      ensures Linked() && Abs() == LinkIn(s0, p) && c == |old(mem.pcb)|
    {
      c := PushPcb(p);
      ghost var m1 := mem.pcb;
      S.InsertSameKeys(readyQueue.contents, c, PriorityOf(m1), PriorityOf(Bare(m1)));
      readyQueue.Enqueue(mem, c);
      BareSame(m1, mem.pcb);
      TableSame(m1, mem.pcb, tableHead, table);
    }

    /** create_process with a new pid, where `alloc` and `junk` are what kmalloc gives. */
    method CreateProcess(priority: int, deadline: int, timeToRun: int, alloc: Alloc, junk: Pcb) returns (process: Ptr)
      requires Valid() && Enabled(Abs(), Create(priority, deadline, timeToRun, alloc, junk))
      modifies this, mem, readyQueue
      ensures Valid() && Abs() == Apply(old(Abs()), Create(priority, deadline, timeToRun, alloc, junk))
      ensures CreateEffect(old(Abs()), Abs(), priority, deadline, timeToRun, alloc, junk)
      ensures process == if alloc.Enough? then |old(mem.pcb)| else NIL
    {
      ghost var s := Abs();
      StepInv(s, Create(priority, deadline, timeToRun, alloc, junk));
      StepHasEffect(s, Create(priority, deadline, timeToRun, alloc, junk));
      var pid := GetNewPid();
      if alloc != Enough {
        return NIL;
      }
      process := LinkNew(NewPcb(junk, pid, priority, deadline, timeToRun), s);
    }

    /** fork_syscall */
    method Fork(alloc: Alloc, junk: Pcb) returns (r: int)
      requires Valid() && Enabled(Abs(), Step.Fork(alloc, junk))
      modifies this, mem, readyQueue
      ensures Valid() && Abs() == Apply(old(Abs()), Step.Fork(alloc, junk))
      ensures ForkEffect(old(Abs()), Abs(), alloc, junk)
      ensures r == if alloc.Enough? then old(nextPid) else -1
    {
      StepInv(Abs(), Step.Fork(alloc, junk));
      StepHasEffect(Abs(), Step.Fork(alloc, junk));
      r := ForkCode(alloc, junk);
    }

    method ForkCode(alloc: Alloc, junk: Pcb) returns (r: int)
      requires Linked() && Wf(Abs()) && Has(mem.pcb, current)
      modifies this, mem, readyQueue
      ensures Linked() && Abs() == ForkStep(old(Abs()), alloc, junk)
      ensures r == if alloc.Enough? then old(nextPid) else -1
    {
      ghost var s := Abs();
      if alloc == NoPcb {
        return -1;
      }
      var pid := GetNewPid();
      if alloc == NoStack {
        return -1;
      }
      var child := ChildPcb(junk, pid, current, mem.pcb[current].priority);
      var c := LinkNew(child, s);
      log := log + [Forked(current, c)];
      r := pid;
    }

    /** The loop of find_zombie_child: up to the first zombie child, with the node before it. */
    method SearchZombie(parent: Ptr) returns (zombie: Ptr, prev: Ptr, ghost i: nat)
      requires Linked() && Wf(Abs()) && Has(mem.pcb, parent)
      ensures i == FindZombie(Bare(mem.pcb), table, parent) && i <= |table|
      ensures zombie == (if i < |table| then table[i] else NIL)
      ensures prev == (if i == 0 then NIL else table[i - 1])
    {
      var m := mem.pcb;
      zombie, prev, i := tableHead, NIL, 0;
      while zombie != NIL
        invariant i <= |table| && zombie == (if i < |table| then table[i] else NIL)
        invariant prev == (if i == 0 then NIL else table[i - 1])
        invariant forall k :: 0 <= k < i ==> !IsZombieOf(Bare(m), table[k], parent)
        decreases |table| - i
      {
        assert Bare(m)[zombie].parent == m[zombie].parent;
        if m[zombie].parent != NIL && m[m[zombie].parent].pid == m[parent].pid && m[zombie].state == Zombie {
          return;
        }
        prev := zombie;
        zombie := m[zombie].nextInTable;
        i := i + 1;
      }
    }

    /** Taking `zombie`, which follows `prev`, out of the process table. */
    method Unlink(zombie: Ptr, prev: Ptr, ghost i: nat)
      requires Linked() && i < |table| && zombie == table[i] && prev == (if i == 0 then NIL else table[i - 1])
      modifies this`tableHead, this`table, mem
      ensures Linked() && Bare(mem.pcb) == Bare(old(mem.pcb))
      ensures table == old(table[..i]) + old(table[i + 1..])
    {
      ghost var m, head := mem.pcb, tableHead;
      UnlinkTable(m, head, table, i);
      if prev == NIL {
        tableHead := mem.pcb[zombie].nextInTable;
      } else {
        mem.pcb := mem.pcb[prev := mem.pcb[prev].(nextInTable := mem.pcb[zombie].nextInTable)];
      }
      QueueSame(m, mem.pcb, readyQueue.front, readyQueue.rear, readyQueue.contents);
      table := table[..i] + table[i + 1..];
    }

    /** find_zombie_child: the first zombie child leaves the process table. */
    method FindZombieChild(parent: Ptr) returns (zombie: Ptr, ghost i: nat)
      requires Linked() && Wf(Abs()) && Has(mem.pcb, parent)
      modifies this`tableHead, this`table, mem
      ensures Linked()
      ensures i == FindZombie(old(Abs()).procs, old(table), parent) && i <= |old(table)|
      ensures zombie == if i < |old(table)| then old(table)[i] else NIL
      ensures Abs() == old(Abs()).(table := if i < |old(table)| then old(table)[..i] + old(table)[i + 1..] else old(table))
    {
      var prev;
      zombie, prev, i := SearchZombie(parent);
      if zombie != NIL {
        Unlink(zombie, prev, i);
      }
    }

    /** What wait_syscall does with a zombie child: its pid and status are handed on.  Nothing
        follows kfree that reads the PCB. */
    method Collect(zombie: Ptr) returns (pid: int, status: int)
      requires Has(mem.pcb, zombie)
      modifies `log
      ensures pid == mem.pcb[zombie].pid && status == mem.pcb[zombie].exitStatus
      ensures log == old(log) + [Reaped(current, zombie, mem.pcb[zombie].pid, mem.pcb[zombie].exitStatus)]
    {
      status := mem.pcb[zombie].exitStatus;
      pid := mem.pcb[zombie].pid;
      log := log + [Reaped(current, zombie, mem.pcb[zombie].pid, status)];
    }

    /** find_zombie_child and what wait_syscall does with its result. */
    method Reclaim() returns (done: bool, pid: int, status: int)
      requires Linked() && Wf(Abs()) && Has(mem.pcb, current)
      modifies this`tableHead, this`table, this`log, mem
      ensures Linked() && Wf(Abs())
      ensures var s := old(Abs());
        var i := FindZombie(s.procs, s.table, s.current);
        && done == (i < |s.table|)
        && Abs() == (if done then Reap(s, i) else s)
        && (if done then pid == s.procs[s.table[i]].pid && status == s.procs[s.table[i]].exitStatus else pid == -1)
    {
      ghost var s := Abs();
      done, pid, status := false, -1, 0;
      var zombie;
      ghost var i;
      zombie, i := FindZombieChild(current);
      if zombie != NIL {
        ReapWf(s, i);
        done := true;
        pid, status := Collect(zombie);
      }
    }

    lemma ReapWf(s: Sys, i: nat)
      requires Wf(s) && Has(s.procs, s.current) && i < |s.table|
      ensures Wf(Reap(s, i))
    {
    }

    /** The current process blocks inside wait_syscall and gives up the processor. */
    method Block()
      requires Linked() && Wf(Abs()) && Has(mem.pcb, current)
      modifies this, mem, readyQueue
      ensures Linked()
      ensures var s := old(Abs());
        Abs() == Lifecycle.Schedule(s.(procs := s.procs[s.current := s.procs[s.current].(state := Blocked, resume := InWait)]))
    {
      Store(current, mem.pcb[current].(state := Blocked, resume := InWait));
      Schedule();
    }

    /** wait_syscall up to the call of yield_syscall, which is part of it: either a zombie child is
        there and its pid is the result, or the process blocks and another one runs. */
    method WaitCode() returns (done: bool, pid: int, status: int)
      requires Linked() && Wf(Abs()) && Has(mem.pcb, current)
      modifies this, mem, readyQueue
      ensures Linked() && Abs() == WaitStep(old(Abs()))
      ensures var s := old(Abs());
        var i := FindZombie(s.procs, s.table, s.current);
        && done == (i < |s.table|)
        && (done ==> pid == s.procs[s.table[i]].pid && status == s.procs[s.table[i]].exitStatus)
    {
      done, pid, status := Reclaim();
      if !done {
        Block();
      }
    }

    /** wait_syscall behind the call of yield_syscall. */
    method WaitRestCode() returns (pid: int, status: int)
      requires Linked() && Wf(Abs()) && Has(mem.pcb, current)
      modifies this`tableHead, this`table, this`log, mem
      ensures Linked() && Abs() == ResumeStep(old(Abs()))
      ensures var s := old(Abs());
        var i := FindZombie(s.procs, s.table, s.current);
        if i < |s.table| then pid == s.procs[s.table[i]].pid && status == s.procs[s.table[i]].exitStatus
        else pid == -1
    {
      var done;
      done, pid, status := Reclaim();
      Store(current, mem.pcb[current].(resume := InUser));
    }

    /** exit_syscall up to the call of schedule. */
    method Die(status: int)
      requires Linked() && Wf(Abs()) && Has(mem.pcb, current) && current !in readyQueue.contents
      requires forall p :: p in readyQueue.contents ==> Has(mem.pcb, p) && mem.pcb[p].state.Ready?
      modifies this, mem, readyQueue
      ensures Linked() && Abs() == BecomeZombie(old(Abs()), status)
    {
      Store(current, mem.pcb[current].(exitStatus := status, state := Zombie));
      log := log + [Exited(current, status)];
      var parent := mem.pcb[current].parent;
      if parent != NIL && mem.pcb[parent].state == Blocked {
        WakeUp(parent);
      }
    }

    /** exit_syscall */
    method ExitCode(status: int)
      requires Linked() && Wf(Abs()) && Has(mem.pcb, current) && current !in readyQueue.contents
      requires forall p :: p in readyQueue.contents ==> Has(mem.pcb, p) && mem.pcb[p].state.Ready?
      modifies this, mem, readyQueue
      ensures Linked() && Abs() == ExitStep(old(Abs()), status)
      ensures ExitEffect(old(Abs()), Abs(), status)
    {
      ExitHasEffect(Abs(), status);
      BecomeZombieWf(Abs(), status);
      Die(status);
      Schedule();
    }

    /** From `s` to `t`, `p` was given the pid and the status of a zombie child, as the log says. */
    ghost predicate HandedOn(s: Sys, t: Sys, p: Ptr, pid: int, status: int) {
      exists c :: ZombieChild(s, p, c) && pid == s.procs[c].pid && status == s.procs[c].exitStatus
        && t.log == s.log + [Reaped(p, c, s.procs[c].pid, status)]
    }

    method Wait() returns (done: bool, pid: int, status: int)
      requires Valid() && Enabled(Abs(), Step.Wait)
      modifies this, mem, readyQueue
      ensures Valid() && Abs() == Apply(old(Abs()), Step.Wait)
      ensures WaitEffect(old(Abs()), Abs())
      ensures done <==> exists c :: ZombieChild(old(Abs()), old(current), c)
      ensures if done then HandedOn(old(Abs()), Abs(), old(current), pid, status) else log == old(log)
    {
      StepInv(Abs(), Step.Wait);
      StepHasEffect(Abs(), Step.Wait);
      FindFinds(Abs(), current);
      done, pid, status := WaitCode();
    }

    /** When a process goes on inside wait_syscall there is a zombie child: the last `return -1` is
        never reached. */
    method WaitResumed() returns (pid: int, status: int)
      requires Valid() && Enabled(Abs(), Step.Resume)
      modifies this, mem
      ensures Valid() && Abs() == Apply(old(Abs()), Step.Resume)
      ensures ResumeEffect(old(Abs()), Abs())
      ensures pid != -1 && HandedOn(old(Abs()), Abs(), old(current), pid, status)
    {
      StepInv(Abs(), Step.Resume);
      StepHasEffect(Abs(), Step.Resume);
      NoLostWakeUp(Abs());
      pid, status := WaitRestCode();
    }

    method Exit(status: int)
      requires Valid() && Enabled(Abs(), Step.Exit(status))
      modifies this, mem, readyQueue
      ensures Valid() && Abs() == Apply(old(Abs()), Step.Exit(status))
      ensures ExitEffect(old(Abs()), Abs(), status)
    {
      StepInv(Abs(), Step.Exit(status));
      StepHasEffect(Abs(), Step.Exit(status));
      ExitCode(status);
    }

    /** yield_syscall */
    method Yield()
      requires Valid() && Enabled(Abs(), Step.Yield)
      modifies this, mem, readyQueue
      ensures Valid() && Abs() == Apply(old(Abs()), Step.Yield)
      ensures YieldEffect(old(Abs()), Abs())
    {
      StepInv(Abs(), Step.Yield);
      StepHasEffect(Abs(), Step.Yield);
      Schedule();
    }

    /** The current process gives up the processor in STATE_EXIT. */
    method Quit()
      requires Valid() && Enabled(Abs(), Step.Quit)
      modifies this, mem, readyQueue
      ensures Valid() && Abs() == Apply(old(Abs()), Step.Quit)
      ensures QuitEffect(old(Abs()), Abs())
    {
      StepInv(Abs(), Step.Quit);
      StepHasEffect(Abs(), Step.Quit);
      QuitCore(Abs());
      Store(current, mem.pcb[current].(state := State.Exit));
      Schedule();
    }

    /** schedule, called from cli_loop */
    method Dispatch()
      requires Valid() && Enabled(Abs(), Step.Dispatch)
      modifies this, mem, readyQueue
      ensures Valid() && Abs() == Apply(old(Abs()), Step.Dispatch)
      ensures DispatchEffect(old(Abs()), Abs())
    {
      StepInv(Abs(), Step.Dispatch);
      StepHasEffect(Abs(), Step.Dispatch);
      Schedule();
    }
  }
}
