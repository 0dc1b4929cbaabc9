/** Runs of the kernel in place: every call is a step of the transition system, so a sequence of
    calls is a run of it, and what its waits return is what the log of the run says. */
module KernelRuns {
  import opened Pointers
  import opened ProcessQueue
  import opened Lifecycle
  import opened LifecycleSafety
  import opened LifecycleHistory
  import K = Kernel

  /** The pids and statuses that successful waits were given, in order. */
  function Handouts(log: seq<Event>): seq<(int, int)> {
    if log == [] then [] else
      var e := log[|log| - 1];
      Handouts(log[..|log| - 1]) + if e.Reaped? then [(e.pid, e.status)] else []
  }

  lemma HandoutsMore(log: seq<Event>, e: Event)
    ensures Handouts(log + [e]) == Handouts(log) + if e.Reaped? then [(e.pid, e.status)] else []
  {
    assert (log + [e])[..|log|] == log;
  }

  /** A step other than a wait logs no reap. */
  lemma OtherSteps(s: Sys, step: Step)
    requires Inv(s) && Enabled(s, step) && !step.Wait? && !step.Resume?
    ensures Handouts(Apply(s, step).log) == Handouts(s.log)
  {
    match step
    case Create(_, _, _, _, _) =>
    case Fork(alloc, junk) =>
      if alloc.Enough? {
        HandoutsMore(s.log, Forked(s.current, |s.procs|));
      }
    case Exit(status) =>
      HandoutsMore(s.log, Exited(s.current, status));
      BecomeZombieWf(s, status);
      ScheduleLogsNothing(BecomeZombie(s, status));
    case Yield => ScheduleLogsNothing(s);
    case Quit => ScheduleLogsNothing(s.(procs := SetState(s.procs, s.current, State.Exit)));
    case Dispatch => ScheduleLogsNothing(s);
  }

  lemma ScheduleLogsNothing(s: Sys)
    requires Wf(s)
    ensures Schedule(s).log == s.log
  {
  }

  /** Any call does in place what the step does to the system. */
  method Perform(k: K.Kernel, step: Step) returns (out: seq<(int, int)>)
    requires k.Valid() && Enabled(k.Abs(), step)
    modifies k, k.mem, k.readyQueue
    ensures k.Valid() && Next(old(k.Abs()), step, k.Abs())
    ensures Handouts(k.log) == Handouts(old(k.log)) + out
  {
    ghost var s := k.Abs();
    out := [];
    if step.Wait? {
      out := PerformWait(k);
    } else if step.Resume? {
      var pid, status := k.WaitResumed();
      out := [(pid, status)];
      ghost var c :| k.log == s.log + [Reaped(s.current, c, pid, status)];
      HandoutsMore(s.log, Reaped(s.current, c, pid, status));
    } else {
      OtherSteps(s, step);
      PerformOther(k, step);
    }
  }

  method PerformWait(k: K.Kernel) returns (out: seq<(int, int)>)
    requires k.Valid() && Enabled(k.Abs(), Step.Wait)
    modifies k, k.mem, k.readyQueue
    ensures k.Valid() && Next(old(k.Abs()), Step.Wait, k.Abs())
    ensures Handouts(k.log) == Handouts(old(k.log)) + out
  {
    ghost var s := k.Abs();
    out := [];
    var done, pid, status := k.Wait();
    if done {
      out := [(pid, status)];
      ghost var c :| k.log == s.log + [Reaped(s.current, c, pid, status)];
      HandoutsMore(s.log, Reaped(s.current, c, pid, status));
    }
  }

  method PerformOther(k: K.Kernel, step: Step)
    requires k.Valid() && Enabled(k.Abs(), step) && !step.Wait? && !step.Resume?
    modifies k, k.mem, k.readyQueue
    ensures k.Valid() && Next(old(k.Abs()), step, k.Abs())
  {
    match step {
      case Create(priority, deadline, timeToRun, alloc, junk) =>
        var _ := k.CreateProcess(priority, deadline, timeToRun, alloc, junk);
      case Fork(alloc, junk) =>
        var _ := k.Fork(alloc, junk);
      case Exit(status) => k.Exit(status);
      case Yield => k.Yield();
      case Quit => k.Quit();
      case Dispatch => k.Dispatch();
    }
  }

  ghost predicate IsReaped(log: seq<Event>, pid: int) {
    exists i :: 0 <= i < |log| && log[i].Reaped? && log[i].pid == pid
  }

  /** Every pid handed out is that of some reap in the log. */
  lemma {:induction false} HandoutLogged(log: seq<Event>, j: nat)
    requires j < |Handouts(log)|
    ensures IsReaped(log, Handouts(log)[j].0)
  {
    var front, e := log[..|log| - 1], log[|log| - 1];
    if j < |Handouts(front)| {
      HandoutLogged(front, j);
      var i :| 0 <= i < |front| && front[i].Reaped? && front[i].pid == Handouts(front)[j].0;
      assert log[i] == front[i];
    } else {
      assert e.Reaped? && Handouts(log)[j] == (e.pid, e.status);
    }
  }

  lemma {:induction false} HandoutsDistinct(log: seq<Event>)
    requires forall i, j :: 0 <= i < j < |log| && log[i].Reaped? && log[j].Reaped? ==> log[i].pid != log[j].pid
    ensures forall a, b :: 0 <= a < b < |Handouts(log)| ==> Handouts(log)[a].0 != Handouts(log)[b].0
  {
    if log != [] {
      var front := log[..|log| - 1];
      HandoutsDistinct(front);
      forall a | 0 <= a < |Handouts(front)| && log[|log| - 1].Reaped?
        ensures Handouts(front)[a].0 != log[|log| - 1].pid
      {
        HandoutLogged(front, a);
        var i :| 0 <= i < |front| && front[i].Reaped? && front[i].pid == Handouts(front)[a].0;
        assert log[i] == front[i];
      }
    }
  }

  /** The kernel has done the first `i` steps of a run, and its waits have returned `out`.  The
      invariant of the system follows: see RunInv. */
  ghost predicate InRun(k: K.Kernel, steps: seq<Step>, run: seq<Sys>, i: nat, out: seq<(int, int)>)
    reads k, k.mem, k.readyQueue
  {
    IsRun(run, steps) && i <= |steps| && k.Linked() && k.Abs() == run[i] && out == Handouts(run[i].log)
  }

  /** One step of a run. */
  method Advance(k: K.Kernel, steps: seq<Step>, ghost run: seq<Sys>, i: nat, out0: seq<(int, int)>)
    returns (out: seq<(int, int)>)
    requires InRun(k, steps, run, i, out0) && i < |steps|
    modifies k, k.mem, k.readyQueue
    ensures InRun(k, steps, run, i + 1, out)
  {
    RunInv(run, steps, i);
    assert NextAt(run, steps, i);
    var o := Perform(k, steps[i]);
    out := out0 + o;
  }

  method AdvanceAll(k: K.Kernel, steps: seq<Step>, ghost run: seq<Sys>) returns (out: seq<(int, int)>)
    requires InRun(k, steps, run, 0, [])
    modifies k, k.mem, k.readyQueue
    ensures InRun(k, steps, run, |steps|, out)
  {
    out := [];
    for i := 0 to |steps|
      invariant InRun(k, steps, run, i, out)
    {
      out := Advance(k, steps, run, i, out);
    }
  }

  method Booted() returns (k: K.Kernel)
    ensures fresh(k) && fresh(k.mem) && fresh(k.readyQueue) && k.Linked() && k.Abs() == Boot()
  {
    k := new K.Kernel();
  }

  /** Every run of the system is a run of the kernel in place: after each call the kernel is in the
      next state of the run, and its waits return what the log says. */
  method Replay(steps: seq<Step>, ghost run: seq<Sys>) returns (k: K.Kernel, out: seq<(int, int)>)
    requires IsRun(run, steps)
    ensures InRun(k, steps, run, |steps|, out)
  {
    k := Booted();
    out := AdvanceAll(k, steps, run);
  }

  /** In every run no two waits return the same pid. */
  lemma NoPidTwice(run: seq<Sys>, steps: seq<Step>, i: nat)
    requires IsRun(run, steps) && i < |run|
    ensures var out := Handouts(run[i].log); forall a, b :: 0 <= a < b < |out| ==> out[a].0 != out[b].0
  {
    DistinctPidsReaped(run, steps, i);
    HandoutsDistinct(run[i].log);
  }

  lemma DistinctPidsReaped(run: seq<Sys>, steps: seq<Step>, k: nat)
    requires IsRun(run, steps) && k < |run|
    ensures var log := run[k].log;
      forall i, j :: 0 <= i < j < |log| && log[i].Reaped? && log[j].Reaped? ==> log[i].pid != log[j].pid
  {
    var log := run[k].log;
    forall i, j | 0 <= i < j < |log| && log[i].Reaped? && log[j].Reaped? ensures log[i].pid != log[j].pid {
      ReapedOnce(run, steps, k, i, j);
    }
  }

  // ---------- A run in which a wait blocks ----------

  /** The process that the kernel starts with, and its child. */
  function First(junk: Pcb, state: State, resume: Resume): Pcb {
    NewPcb(junk, 1, 0, 0, 0).(state := state, resume := resume, isNewChild := false)
  }

  function Child(junk: Pcb): Pcb {
    ChildPcb(junk, 2, 0, 0)
  }

  function Dead(junk: Pcb): Pcb {
    Child(junk).(state := Zombie, isNewChild := false, exitStatus := 7)
  }

  lemma Started(junk: Pcb)
    ensures Next(Boot(), Create(0, 0, 0, Enough, junk), Sys([NewPcb(junk, 1, 0, 0, 0)], [0], [0], NIL, 2, true, []))
  {
  }

  lemma Dispatched(junk: Pcb)
    ensures Next(Sys([NewPcb(junk, 1, 0, 0, 0)], [0], [0], NIL, 2, true, []), Dispatch,
                 Sys([First(junk, Running, InUser)], [], [0], 0, 2, false, []))
  {
  }

  lemma Parented(junk: Pcb)
    ensures Next(Sys([First(junk, Running, InUser)], [], [0], 0, 2, false, []), Step.Fork(Enough, junk),
                 Sys([First(junk, Running, InUser), Child(junk)], [1], [1, 0], 0, 3, false, [Forked(0, 1)]))
  {
  }

  /** The parent waits before its child has exited. */
  lemma Waits(junk: Pcb)
    ensures Next(Sys([First(junk, Running, InUser), Child(junk)], [1], [1, 0], 0, 3, false, [Forked(0, 1)]), Wait,
                 Sys([First(junk, Blocked, InWait), Child(junk).(state := Running, isNewChild := false)],
                     [], [1, 0], 1, 3, false, [Forked(0, 1)]))
  {
  }

  /** The exit of the child wakes the parent up. */
  lemma Exits(junk: Pcb)
    ensures Next(Sys([First(junk, Blocked, InWait), Child(junk).(state := Running, isNewChild := false)],
                     [], [1, 0], 1, 3, false, [Forked(0, 1)]), Step.Exit(7),
                 Sys([First(junk, Running, InWait), Dead(junk)], [], [1, 0], 0, 3, false, [Forked(0, 1), Exited(1, 7)]))
  {
  }

  lemma Resumes(junk: Pcb)
    ensures Next(Sys([First(junk, Running, InWait), Dead(junk)], [], [1, 0], 0, 3, false, [Forked(0, 1), Exited(1, 7)]), Resume,
                 Sys([First(junk, Running, InUser), Dead(junk)], [], [0], 0, 3, false,
                     [Forked(0, 1), Exited(1, 7), Reaped(0, 1, 2, 7)]))
  {
  }

  function ResumeSteps(junk: Pcb): seq<Step> {
    [Create(0, 0, 0, Enough, junk), Dispatch, Step.Fork(Enough, junk), Wait, Step.Exit(7), Resume]
  }

  function ResumeState(junk: Pcb, i: nat): Sys {
    match i
    case 0 => Boot()
    case 1 => Sys([NewPcb(junk, 1, 0, 0, 0)], [0], [0], NIL, 2, true, [])
    case 2 => Sys([First(junk, Running, InUser)], [], [0], 0, 2, false, [])
    case 3 => Sys([First(junk, Running, InUser), Child(junk)], [1], [1, 0], 0, 3, false, [Forked(0, 1)])
    case 4 => Sys([First(junk, Blocked, InWait), Child(junk).(state := Running, isNewChild := false)],
                  [], [1, 0], 1, 3, false, [Forked(0, 1)])
    case 5 => Sys([First(junk, Running, InWait), Dead(junk)], [], [1, 0], 0, 3, false, [Forked(0, 1), Exited(1, 7)])
    case _ => Sys([First(junk, Running, InUser), Dead(junk)], [], [0], 0, 3, false,
                  [Forked(0, 1), Exited(1, 7), Reaped(0, 1, 2, 7)])
  }

  lemma ResumeStep(junk: Pcb, i: nat)
    requires i < 6
    ensures Next(ResumeState(junk, i), ResumeSteps(junk)[i], ResumeState(junk, i + 1))
  {
    match i
    case 0 => Started(junk);
    case 1 => Dispatched(junk);
    case 2 => Parented(junk);
    case 3 => Waits(junk);
    case 4 => Exits(junk);
    case _ => Resumes(junk);
  }

  /** A run in which a wait blocks, is woken up by the exit of the child and reaps it. */
  lemma ResumeHappens(junk: Pcb) returns (run: seq<Sys>)
    ensures IsRun(run, ResumeSteps(junk)) && forall i :: 0 <= i < 7 ==> run[i] == ResumeState(junk, i)
  {
    run := seq(7, i requires 0 <= i < 7 => ResumeState(junk, i));
    forall i | 0 <= i < 6 ensures NextAt(run, ResumeSteps(junk), i) {
      ResumeStep(junk, i);
    }
  }

  /** In it, the parent has been blocked, and its wait is given pid and status of the child. */
  lemma ResumeHandsOut(junk: Pcb)
    ensures ResumeState(junk, 4).procs[0].state.Blocked?
    ensures Handouts(ResumeState(junk, 6).log) == [(2, 7)]
  {
    HandoutsMore([], Forked(0, 1));
    HandoutsMore([Forked(0, 1)], Exited(1, 7));
    HandoutsMore([Forked(0, 1), Exited(1, 7)], Reaped(0, 1, 2, 7));
    assert [Forked(0, 1), Exited(1, 7)] + [Reaped(0, 1, 2, 7)] == ResumeState(junk, 6).log;
  }
}
