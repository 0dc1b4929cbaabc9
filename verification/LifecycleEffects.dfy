/** What each step does, field by field: who changes and how, who is queued where, who runs next and
    what is recorded.  The predicates here use none of the functions that define the steps. */
module LifecycleEffects {
  import opened Pointers
  import opened ProcessQueue
  import opened Lifecycle
  import opened LifecycleSafety
  import S = StableQueue

  /** `q'` is `q` with `x` behind everybody as urgent as `x` and before the first less urgent one; a
      smaller number is more urgent. */
  ghost predicate Joined(q: seq<Ptr>, q': seq<Ptr>, x: Ptr, m: Pcbs) {
    exists i :: JoinedAt(q, q', x, m, i)
  }

  ghost predicate JoinedAt(q: seq<Ptr>, q': seq<Ptr>, x: Ptr, m: Pcbs, i: int) {
    && 0 <= i <= |q| && q' == q[..i] + [x] + q[i..]
    && Has(m, x) && (forall k :: 0 <= k < |q| ==> Has(m, q[k]))
    && (forall k :: 0 <= k < i ==> m[q[k]].priority <= m[x].priority)
    && (i < |q| ==> m[x].priority < m[q[i]].priority)
  }

  /** The processor goes to the front of `q`, where `m` are the PCBs before; to cli_loop if there is
      nobody. */
  ghost predicate Switched(m: Pcbs, q: seq<Ptr>, t: Sys) {
    && |t.procs| == |m|
    && if q == [] then t.idle && t.ready == [] && t.procs == m
       else
         && !t.idle && [t.current] + t.ready == q && Has(m, t.current)
         && t.procs[t.current] == m[t.current].(state := Running, isNewChild := false)
         && forall p :: Has(m, p) && p != t.current ==> t.procs[p] == m[p]
  }

  /** Neither the process table nor the pids nor the record change. */
  ghost predicate SameRecord(s: Sys, t: Sys) {
    t.table == s.table && t.nextPid == s.nextPid && t.log == s.log
  }

  /** A new PCB, at the head of the process table and in the ready queue; the others stay. */
  ghost predicate Added(s: Sys, t: Sys) {
    var c := |s.procs|;
    && |t.procs| == c + 1 && (forall p :: Has(s.procs, p) ==> t.procs[p] == s.procs[p])
    && t.procs[c].pid == s.nextPid && t.nextPid == s.nextPid + 1
    && t.procs[c].state == Ready && t.procs[c].resume == InUser
    && t.table == [c] + s.table && Joined(s.ready, t.ready, c, t.procs)
    && t.current == s.current && t.idle == s.idle
  }

  /** create_process: the numbers of the caller and no parent; what kmalloc left there stays. */
  ghost predicate CreateEffect(
    s: Sys, t: Sys, priority: int, deadline: int, timeToRun: int, alloc: Alloc, junk: Pcb)
  {
    if alloc.Enough? then
      && Added(s, t) && t.log == s.log
      && var p := t.procs[|s.procs|];
      p.priority == priority && p.deadline == deadline && p.timeToRun == timeToRun && p.parent == NIL
      && p.exitStatus == junk.exitStatus && p.isNewChild == junk.isNewChild
    else t == s.(nextPid := s.nextPid + 1)
  }

  /** fork_syscall: a child of the current process with its priority; neither deadline nor time_to_run
      nor exit_status is set. */
  ghost predicate ForkEffect(s: Sys, t: Sys, alloc: Alloc, junk: Pcb) {
    match alloc
    case NoPcb => t == s
    case NoStack => t == s.(nextPid := s.nextPid + 1)
    case Enough =>
      && Added(s, t) && t.log == s.log + [Forked(s.current, |s.procs|)] && Has(s.procs, s.current)
      && var c := t.procs[|s.procs|];
      c.parent == s.current && c.priority == s.procs[s.current].priority && c.isNewChild
      && c.deadline == junk.deadline && c.timeToRun == junk.timeToRun && c.exitStatus == junk.exitStatus
  }

  /** The first zombie child in the table, at `i`, leaves it; pid and status are recorded. */
  ghost predicate Collected(s: Sys, t: Sys, i: nat) {
    && i < |s.table| && ZombieChild(s, s.current, s.table[i])
    && (forall k :: 0 <= k < i ==> !ZombieChild(s, s.current, s.table[k]))
    && var c := s.table[i];
    && t.table == s.table[..i] + s.table[i + 1..]
    && t.log == s.log + [Reaped(s.current, c, s.procs[c].pid, s.procs[c].exitStatus)]
    && t.ready == s.ready && t.current == s.current && t.nextPid == s.nextPid && t.idle == s.idle
  }

  /** wait_syscall: a zombie child is collected, and without one the process blocks. */
  ghost predicate WaitEffect(s: Sys, t: Sys) {
    if exists c :: ZombieChild(s, s.current, c) then t.procs == s.procs && exists i: nat :: Collected(s, t, i)
    else
      && Has(s.procs, s.current) && SameRecord(s, t)
      && Switched(s.procs[s.current := s.procs[s.current].(state := Blocked, resume := InWait)], s.ready, t)
  }

  /** The rest of wait_syscall. */
  ghost predicate ResumeEffect(s: Sys, t: Sys) {
    && Has(s.procs, s.current) && t.procs == s.procs[s.current := s.procs[s.current].(resume := InUser)]
    && exists i: nat :: Collected(s, t, i)
  }

  /** exit_syscall: the process is a zombie with that status, and a blocked parent joins the queue. */
  ghost predicate ExitEffect(s: Sys, t: Sys, status: int) {
    && Has(s.procs, s.current) && t.table == s.table && t.nextPid == s.nextPid
    && t.log == s.log + [Exited(s.current, status)]
    && var m := s.procs[s.current := s.procs[s.current].(state := Zombie, exitStatus := status)];
    var p := s.procs[s.current].parent;
    if Has(m, p) && m[p].state.Blocked? then
      exists q :: Joined(s.ready, q, p, m) && Switched(m[p := m[p].(state := Ready)], q, t)
    else Switched(m, s.ready, t)
  }

  /** yield_syscall: the process joins the queue. */
  ghost predicate YieldEffect(s: Sys, t: Sys) {
    && Has(s.procs, s.current) && SameRecord(s, t)
    && exists q :: Joined(s.ready, q, s.current, s.procs)
                   && Switched(s.procs[s.current := s.procs[s.current].(state := Ready)], q, t)
  }

  /** A process in STATE_EXIT yields: it does not join. */
  ghost predicate QuitEffect(s: Sys, t: Sys) {
    && Has(s.procs, s.current) && SameRecord(s, t)
    && Switched(s.procs[s.current := s.procs[s.current].(state := State.Exit)], s.ready, t)
  }

  /** schedule, called from cli_loop. */
  ghost predicate DispatchEffect(s: Sys, t: Sys) {
    SameRecord(s, t) && Switched(s.procs, s.ready, t)
  }

  /** schedule: a running process joins the queue, and then the front runs. */
  ghost predicate ScheduleEffect(s: Sys, t: Sys) {
    if Has(s.procs, s.current) && s.procs[s.current].state.Running? then YieldEffect(s, t) else DispatchEffect(s, t)
  }

  ghost predicate Effect(s: Sys, step: Step, t: Sys) {
    match step
    case Create(priority, deadline, timeToRun, alloc, junk) => CreateEffect(s, t, priority, deadline, timeToRun, alloc, junk)
    case Fork(alloc, junk) => ForkEffect(s, t, alloc, junk)
    case Wait => WaitEffect(s, t)
    case Resume => ResumeEffect(s, t)
    case Exit(status) => ExitEffect(s, t, status)
    case Yield => YieldEffect(s, t)
    case Quit => QuitEffect(s, t)
    case Dispatch => DispatchEffect(s, t)
  }

  // ---------- The steps have these effects ----------

  lemma InsertJoins(q: seq<Ptr>, x: Ptr, m: Pcbs)
    requires Has(m, x) && forall p :: p in q ==> Has(m, p)
    ensures Joined(q, S.Insert(q, x, PriorityOf(m)), x, m)
  {
    var key := PriorityOf(m);
    var i := S.InsertPosition(q, x, key);
    forall k | 0 <= k < |q| ensures Has(m, q[k]) && key(q[k]) == m[q[k]].priority {
      assert q[k] in q;
    }
    assert JoinedAt(q, S.Insert(q, x, key), x, m, i);
  }

  lemma RunFrontSwitches(s: Sys)
    requires Wf(s)
    ensures Switched(s.procs, s.ready, RunFront(s)) && SameRecord(s, RunFront(s))
  {
    assert s.ready != [] ==> s.ready[0] in s.ready && s.ready == [s.ready[0]] + s.ready[1..];
  }

  lemma LinkInAdds(s: Sys, p: Pcb)
    requires Wf(s) && p.pid == s.nextPid && p.state == Ready && p.resume == InUser
    ensures Added(s, LinkIn(s, p)) && LinkIn(s, p).procs[|s.procs|] == p && LinkIn(s, p).log == s.log
  {
    InsertJoins(s.ready, |s.procs|, s.procs + [p]);
  }

  lemma FindCollects(s: Sys)
    requires Inv(s) && IsRunning(s)
    ensures var i := FindZombie(s.procs, s.table, s.current);
      && (i < |s.table| ==> Collected(s, Reap(s, i), i) && Collected(s, BackToUser(Reap(s, i)), i))
      && (i < |s.table| <==> exists c :: ZombieChild(s, s.current, c))
  {
    FindFinds(s, s.current);
    var i := FindZombie(s.procs, s.table, s.current);
    forall k | 0 <= k < i ensures !ZombieChild(s, s.current, s.table[k]) {
      ZombieByPid(s, s.table[k], s.current);
    }
  }

  lemma WaitHasEffect(s: Sys)
    requires Inv(s) && Enabled(s, Wait)
    ensures WaitEffect(s, WaitStep(s))
  {
    FindCollects(s);
    if FindZombie(s.procs, s.table, s.current) == |s.table| {
      BlockCore(s);
      RunFrontSwitches(s.(procs := s.procs[s.current := s.procs[s.current].(state := Blocked, resume := InWait)]));
    }
  }

  lemma ResumeHasEffect(s: Sys)
    requires Inv(s) && Enabled(s, Resume)
    ensures ResumeEffect(s, ResumeStep(s))
  {
    NoLostWakeUp(s);
    FindCollects(s);
  }

  lemma ScheduleHasEffect(s: Sys)
    requires Wf(s)
    ensures ScheduleEffect(s, Schedule(s))
  {
    if IsRunning(s) {
      MakeReadyWf(s, s.current);
      InsertJoins(s.ready, s.current, s.procs);
      RunFrontSwitches(MakeReady(s, s.current));
    } else {
      RunFrontSwitches(s);
    }
  }

  lemma ExitHasEffect(s: Sys, status: int)
    requires Wf(s) && Has(s.procs, s.current)
    ensures ExitEffect(s, ExitStep(s, status), status)
  {
    BecomeZombieWf(s, status);
    var m := s.procs[s.current := s.procs[s.current].(state := Zombie, exitStatus := status)];
    var z, p := BecomeZombie(s, status), s.procs[s.current].parent;
    RunFrontSwitches(z);
    assert Schedule(z) == RunFront(z);
    if Has(m, p) && m[p].state.Blocked? {
      InsertJoins(s.ready, p, m);
      assert Joined(s.ready, z.ready, p, m) && Switched(m[p := m[p].(state := Ready)], z.ready, Schedule(z));
    }
  }

  lemma QuitHasEffect(s: Sys)
    requires Inv(s) && Enabled(s, Quit)
    ensures QuitEffect(s, QuitStep(s))
  {
    QuitCore(s);
    RunFrontSwitches(s.(procs := SetState(s.procs, s.current, State.Exit)));
  }

  lemma CreateHasEffect(s: Sys, step: Step)
    requires Inv(s) && Enabled(s, step) && (step.Create? || step.Fork?)
    ensures Effect(s, step, Apply(s, step))
  {
    match step
    case Create(priority, deadline, timeToRun, alloc, junk) =>
      if alloc.Enough? {
        LinkInAdds(s, NewPcb(junk, s.nextPid, priority, deadline, timeToRun));
      }
    case Fork(alloc, junk) =>
      if alloc.Enough? {
        LinkInAdds(s, ChildPcb(junk, s.nextPid, s.current, s.procs[s.current].priority));
      }
  }

  /** Every step has its effect. */
  lemma StepHasEffect(s: Sys, step: Step)
    requires Inv(s) && Enabled(s, step)
    ensures Effect(s, step, Apply(s, step))
  {
    match step
    case Create(_, _, _, _, _) => CreateHasEffect(s, step);
    case Fork(_, _) => CreateHasEffect(s, step);
    case Wait => WaitHasEffect(s);
    case Resume => ResumeHasEffect(s);
    case Exit(status) => ExitHasEffect(s, status);
    case Yield => ScheduleHasEffect(s);
    case Quit => QuitHasEffect(s);
    case Dispatch => RunFrontSwitches(s);
  }
}
