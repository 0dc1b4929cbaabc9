/** Exactly-once reaping in every run of the process lifecycle. */
module LifecycleHistory {
  import opened Pointers
  import opened ProcessQueue
  import opened Lifecycle
  import opened LifecycleSafety
  import S = StableQueue

  /** The log knows of `c` what its PCB knows. */
  ghost predicate ForkInv(s: Sys) {
    && (forall i :: 0 <= i < |s.log| && s.log[i].Forked? ==>
          Has(s.procs, s.log[i].child) && s.procs[s.log[i].child].parent == s.log[i].parent && s.log[i].parent != NIL)
    && (forall c :: Has(s.procs, c) && s.procs[c].parent != NIL ==> Forked(s.procs[c].parent, c) in s.log)
    && (forall i, j :: 0 <= i < j < |s.log| && s.log[i].Forked? && s.log[j].Forked? ==> s.log[i].child != s.log[j].child)
  }

  ghost predicate ExitInv(s: Sys) {
    && (forall i :: 0 <= i < |s.log| && s.log[i].Exited? ==> Ended(s, s.log[i].child, s.log[i].status))
    && (forall c :: Has(s.procs, c) && s.procs[c].state.Zombie? ==> Exited(c, s.procs[c].exitStatus) in s.log)
  }

  ghost predicate Ended(s: Sys, c: Ptr, status: int) {
    Has(s.procs, c) && s.procs[c].state.Zombie? && s.procs[c].exitStatus == status
  }

  /** Every reaped process is reaped once, by its parent, with the pid it had and the status that
      it had passed to exit before. */
  ghost predicate ReapedInv(s: Sys) {
    && (forall i :: 0 <= i < |s.log| && s.log[i].Reaped? ==>
          var e := s.log[i];
          && Ended(s, e.child, e.status) && e.child !in s.table
          && s.procs[e.child].parent == e.parent && s.procs[e.child].pid == e.pid)
    && (forall c :: Has(s.procs, c) && c !in s.table ==>
          Reaped(s.procs[c].parent, c, s.procs[c].pid, s.procs[c].exitStatus) in s.log)
    && (forall i, j :: 0 <= i < j < |s.log| && s.log[i].Reaped? && s.log[j].Reaped? ==> s.log[i].child != s.log[j].child)
  }

  /** A reaped process had been forked by the process that reaps it, and had exited. */
  ghost predicate ForkExitReap(log: seq<Event>) {
    forall j :: 0 <= j < |log| && log[j].Reaped? ==>
      Exited(log[j].child, log[j].status) in log[..j] && Forked(log[j].parent, log[j].child) in log[..j]
  }

  lemma ForkExitReapMore(log: seq<Event>, e: Event)
    requires ForkExitReap(log)
    requires e.Reaped? ==> Exited(e.child, e.status) in log && Forked(e.parent, e.child) in log
    ensures ForkExitReap(log + [e])
  {
    PrefixKept(log, [e]);
    assert (log + [e])[..|log|] == log;
  }

  ghost predicate LogInv(s: Sys) {
    ForkInv(s) && ExitInv(s) && ReapedInv(s) && ForkExitReap(s.log)
  }

  /** The parts of a PCB that the log is about. */
  ghost predicate SameForLog(a: Pcb, b: Pcb) {
    && a.parent == b.parent && a.pid == b.pid && (a.state.Zombie? <==> b.state.Zombie?)
    && (a.state.Zombie? ==> a.exitStatus == b.exitStatus)
  }

  lemma LogSame(s: Sys, s': Sys)
    requires LogInv(s) && s'.log == s.log && s'.table == s.table && |s'.procs| == |s.procs|
    requires forall p :: Has(s.procs, p) ==> SameForLog(s.procs[p], s'.procs[p])
    ensures LogInv(s')
  {
  }

  lemma ScheduleLog(s: Sys)
    requires Core(s) && LogInv(s)
    ensures LogInv(Schedule(s))
  {
    var t := if IsRunning(s) then MakeReady(s, s.current) else s;
    if IsRunning(s) {
      MakeReadyWf(s, s.current);
    }
    LogSame(s, t);
    assert t.ready != [] ==> t.ready[0] in t.ready;
    if t.ready != [] && t.ready[0] != s.current {
      S.InsertElements(s.ready, s.current, PriorityOf(s.procs));
      assert s.procs[t.ready[0]].state.Ready?;
    }
    LogSame(t, RunFront(t));
  }

  /** A new PCB that is no zombie and whose parent, if any, is logged by `fork`. */
  lemma LinkInFork(s: Sys, p: Pcb, fork: seq<Event>)
    requires ForkInv(s) && Wf(s)
    requires fork == if p.parent == NIL then [] else [Forked(p.parent, |s.procs|)]
    ensures ForkInv(LinkIn(s, p).(log := s.log + fork))
  {
    var s' := LinkIn(s, p).(log := s.log + fork);
    forall c | Has(s'.procs, c) && s'.procs[c].parent != NIL ensures Forked(s'.procs[c].parent, c) in s'.log {
      if c == |s.procs| {
        assert s'.log[|s.log|] == Forked(p.parent, c);
      }
    }
  }

  lemma LinkInExit(s: Sys, p: Pcb, fork: seq<Event>)
    requires ExitInv(s) && p.state.Ready?
    requires fork == if p.parent == NIL then [] else [Forked(p.parent, |s.procs|)]
    ensures ExitInv(LinkIn(s, p).(log := s.log + fork))
  {
  }

  lemma LinkInReaped(s: Sys, p: Pcb, fork: seq<Event>)
    requires ReapedInv(s) && p.state.Ready?
    requires fork == if p.parent == NIL then [] else [Forked(p.parent, |s.procs|)]
    ensures ReapedInv(LinkIn(s, p).(log := s.log + fork))
  {
    var s' := LinkIn(s, p).(log := s.log + fork);
    forall c | Has(s'.procs, c) && c !in s'.table
      ensures Reaped(s'.procs[c].parent, c, s'.procs[c].pid, s'.procs[c].exitStatus) in s'.log
    {
      assert s'.table == [|s.procs|] + s.table;
    }
  }

  /** A longer log keeps its beginnings. */
  lemma PrefixKept(log: seq<Event>, more: seq<Event>)
    ensures forall j :: 0 <= j <= |log| ==> (log + more)[..j] == log[..j]
  {
  }

  lemma LinkInLog(s: Sys, p: Pcb, fork: seq<Event>)
    requires LogInv(s) && Wf(s) && p.state.Ready?
    requires fork == if p.parent == NIL then [] else [Forked(p.parent, |s.procs|)]
    ensures LogInv(LinkIn(s, p).(log := s.log + fork))
  {
    LinkInFork(s, p, fork);
    LinkInExit(s, p, fork);
    LinkInReaped(s, p, fork);
    if p.parent != NIL {
      ForkExitReapMore(s.log, Forked(p.parent, |s.procs|));
    } else {
      assert s.log + fork == s.log;
    }
  }

  // ---------- Exit ----------

  /** The running process is a zombie now, and the log says so; nothing else is different. */
  ghost predicate Died(s: Sys, z: Sys, status: int) {
    && IsRunning(s) && |z.procs| == |s.procs| && z.table == s.table
    && z.log == s.log + [Exited(s.current, status)]
    && (forall p :: Has(s.procs, p) && p != s.current ==> z.procs[p] == s.procs[p])
    && z.procs[s.current] == s.procs[s.current].(exitStatus := status, state := Zombie)
  }

  lemma DiedFork(s: Sys, z: Sys, status: int)
    requires ForkInv(s) && Died(s, z, status)
    ensures ForkInv(z)
  {
  }

  lemma DiedExit(s: Sys, z: Sys, status: int)
    requires ExitInv(s) && Died(s, z, status)
    ensures ExitInv(z)
  {
    assert z.log[|s.log|] == Exited(s.current, status);
  }

  lemma DiedReaped(s: Sys, z: Sys, status: int)
    requires ReapedInv(s) && TableInv(s) && Died(s, z, status)
    ensures ReapedInv(z)
  {
  }

  lemma ExitStepLog(s: Sys, status: int)
    requires Inv(s) && LogInv(s) && Enabled(s, Step.Exit(status))
    ensures LogInv(ExitStep(s, status))
  {
    var c := s.current;
    var z := s.(procs := s.procs[c := s.procs[c].(exitStatus := status, state := Zombie)], log := s.log + [Exited(c, status)]);
    DiedFork(s, z, status);
    DiedExit(s, z, status);
    DiedReaped(s, z, status);
    ForkExitReapMore(s.log, Exited(c, status));
    BecomeZombieWf(s, status);
    BecomeZombieCore(s, status);
    LogSame(z, BecomeZombie(s, status));
    ScheduleLog(BecomeZombie(s, status));
  }

  // ---------- Wait ----------

  lemma ReapFork(s: Sys, i: nat)
    requires ForkInv(s) && Has(s.procs, s.current) && i < |s.table| && Has(s.procs, s.table[i])
    ensures ForkInv(BackToUser(Reap(s, i)))
  {
  }

  lemma ReapExit(s: Sys, i: nat)
    requires ExitInv(s) && IsRunning(s) && i < |s.table| && Has(s.procs, s.table[i])
    ensures ExitInv(BackToUser(Reap(s, i)))
  {
  }

  lemma ReapReaped(s: Sys, i: nat)
    requires ExitInv(s) && ReapedInv(s) && IsRunning(s) && S.Distinct(s.table)
    requires i < |s.table| && ZombieChild(s, s.current, s.table[i])
    ensures ReapedInv(BackToUser(Reap(s, i)))
  {
    var s' := BackToUser(Reap(s, i));
    var c := s.table[i];
    RemoveAt(s.table, i);
    ReapedMore(s, s', c);
  }

  /** The zombie `c` has left the table, and the log says so; nothing else is different. */
  lemma ReapedMore(s: Sys, s': Sys, c: Ptr)
    requires ExitInv(s) && ReapedInv(s) && ZombieChild(s, s.current, c)
    requires |s'.procs| == |s.procs| && forall p :: Has(s.procs, p) ==> s'.procs[p] == s.procs[p].(resume := s'.procs[p].resume)
    requires forall p :: p in s'.table <==> p in s.table && p != c
    requires s'.log == s.log + [Reaped(s.current, c, s.procs[c].pid, s.procs[c].exitStatus)]
    ensures ReapedInv(s')
  {
    var e := Reaped(s.current, c, s.procs[c].pid, s.procs[c].exitStatus);
    assert s'.log[|s.log|] == e;
  }

  lemma ReapLog(s: Sys, i: nat)
    requires Inv(s) && LogInv(s) && IsRunning(s) && i < |s.table| && ZombieChild(s, s.current, s.table[i])
    ensures LogInv(BackToUser(Reap(s, i)))
  {
    ReapFork(s, i);
    ReapExit(s, i);
    ReapReaped(s, i);
    var c := s.table[i];
    ForkExitReapMore(s.log, Reaped(s.current, c, s.procs[c].pid, s.procs[c].exitStatus));
  }

  lemma WaitStepLog(s: Sys)
    requires Inv(s) && LogInv(s) && Enabled(s, Wait)
    ensures LogInv(WaitStep(s))
  {
    FindFinds(s, s.current);
    var i := FindZombie(s.procs, s.table, s.current);
    if i < |s.table| {
      ReapLog(s, i);
      assert BackToUser(Reap(s, i)) == Reap(s, i);
    } else {
      var t := s.(procs := s.procs[s.current := s.procs[s.current].(state := Blocked, resume := InWait)]);
      LogSame(s, t);
      BlockCore(s);
      ScheduleLog(t);
    }
  }

  // ---------- Every step ----------

  lemma StepLog(s: Sys, step: Step)
    requires Inv(s) && LogInv(s) && Enabled(s, step)
    ensures LogInv(Apply(s, step))
  {
    match step
    case Create(priority, deadline, timeToRun, alloc, junk) =>
      if alloc.Enough? {
        var p := NewPcb(junk, s.nextPid, priority, deadline, timeToRun);
        LinkInLog(s, p, []);
        assert LinkIn(s, p).(log := s.log + []) == LinkIn(s, p);
      } else {
        LogSame(s, CreateStep(s, step));
      }
    case Fork(alloc, junk) =>
      if alloc.Enough? {
        LinkInLog(s, ChildPcb(junk, s.nextPid, s.current, s.procs[s.current].priority), [Forked(s.current, |s.procs|)]);
      } else {
        LogSame(s, ForkStep(s, alloc, junk));
      }
    case Wait => WaitStepLog(s);
    case Resume =>
      NoLostWakeUp(s);
      ReapLog(s, FindZombie(s.procs, s.table, s.current));
    case Exit(status) => ExitStepLog(s, status);
    case Yield => ScheduleLog(s);
    case Quit =>
      var t := s.(procs := SetState(s.procs, s.current, State.Exit));
      LogSame(s, t);
      QuitCore(s);
      ScheduleLog(t);
    case Dispatch => ScheduleLog(s);
  }

  /** In every run, at every step boundary, the log is right. */
  lemma {:induction false} RunLog(run: seq<Sys>, steps: seq<Step>, i: nat)
    requires IsRun(run, steps) && i < |run|
    ensures LogInv(run[i])
  {
    if i == 0 {
      assert forall p :: !Has(Boot().procs, p);
    } else {
      RunLog(run, steps, i - 1);
      RunInv(run, steps, i - 1);
      assert NextAt(run, steps, i - 1);
      StepLog(run[i - 1], steps[i - 1]);
    }
  }

  // ---------- Counting ----------

  ghost function Forks(s: Sys, p: Ptr): set<int> {
    set i | 0 <= i < |s.log| && s.log[i].Forked? && s.log[i].parent == p
  }

  ghost function Reaps(s: Sys, p: Ptr): set<int> {
    set i | 0 <= i < |s.log| && s.log[i].Reaped? && s.log[i].parent == p
  }

  ghost function Kids(s: Sys, p: Ptr): set<Ptr> {
    set c | 0 <= c < |s.procs| && s.procs[c].parent == p
  }

  ghost function Zombies(s: Sys, p: Ptr): set<Ptr> {
    set c | 0 <= c < |s.procs| && s.procs[c].parent == p && c in s.table && s.procs[c].state.Zombie?
  }

  ghost function Others(s: Sys, p: Ptr): set<Ptr> {
    set c | 0 <= c < |s.procs| && s.procs[c].parent == p && c in s.table && !s.procs[c].state.Zombie?
  }

  ghost function Gone(s: Sys, p: Ptr): set<Ptr> {
    set c | 0 <= c < |s.procs| && s.procs[c].parent == p && c !in s.table
  }

  /** Sets of the same size: `f` maps `a` one to one onto `b`. */
  lemma {:induction false} OneToOne<A, B>(a: set<A>, b: set<B>, f: A -> B)
    requires forall i :: i in a ==> f(i) in b
    requires forall i, j :: i in a && j in a && f(i) == f(j) ==> i == j
    requires forall c :: c in b ==> exists i :: i in a && f(i) == c
    ensures |a| == |b|
  {
    if a != {} {
      var i :| i in a;
      forall c | c in b - {f(i)} ensures exists j :: j in a - {i} && f(j) == c {
        var j :| j in a && f(j) == c;
        assert j in a - {i};
      }
      OneToOne(a - {i}, b - {f(i)}, f);
    } else {
      assert b == {};
    }
  }

  /** Which process event `i` is about. */
  function Whose(log: seq<Event>): int -> Ptr {
    i => if 0 <= i < |log| then log[i].child else NIL
  }

  lemma ForksAreKids(s: Sys, p: Ptr)
    requires ForkInv(s) && p != NIL
    ensures |Forks(s, p)| == |Kids(s, p)|
  {
    forall c | c in Kids(s, p) ensures exists i :: i in Forks(s, p) && Whose(s.log)(i) == c {
      var i :| 0 <= i < |s.log| && s.log[i] == Forked(p, c);
      assert i in Forks(s, p) && Whose(s.log)(i) == c;
    }
    OneToOne(Forks(s, p), Kids(s, p), Whose(s.log));
  }

  lemma ReapsAreGone(s: Sys, p: Ptr)
    requires ReapedInv(s)
    ensures |Reaps(s, p)| == |Gone(s, p)|
  {
    forall c | c in Gone(s, p) ensures exists i :: i in Reaps(s, p) && Whose(s.log)(i) == c {
      var i :| 0 <= i < |s.log| && s.log[i] == Reaped(p, c, s.procs[c].pid, s.procs[c].exitStatus);
      assert i in Reaps(s, p) && Whose(s.log)(i) == c;
    }
    OneToOne(Reaps(s, p), Gone(s, p), Whose(s.log));
  }

  /** In every run: forks of a process = children that its waits returned + zombies that still wait
      for it + children that have not called exit. */
  lemma ReapingBalance(run: seq<Sys>, steps: seq<Step>, i: nat, p: Ptr)
    requires IsRun(run, steps) && i < |run| && p != NIL
    ensures var s := run[i]; |Forks(s, p)| == |Reaps(s, p)| + |Zombies(s, p)| + |Others(s, p)|
  {
    var s := run[i];
    RunLog(run, steps, i);
    Balance(s, p);
  }

  lemma Balance(s: Sys, p: Ptr)
    requires ForkInv(s) && ReapedInv(s) && p != NIL
    ensures |Forks(s, p)| == |Reaps(s, p)| + |Zombies(s, p)| + |Others(s, p)|
  {
    ForksAreKids(s, p);
    ReapsAreGone(s, p);
    KidsSplit(s, p);
  }

  lemma KidsSplit(s: Sys, p: Ptr)
    ensures |Kids(s, p)| == |Gone(s, p)| + |Zombies(s, p)| + |Others(s, p)|
  {
    var g, z, o := Gone(s, p), Zombies(s, p), Others(s, p);
    assert Kids(s, p) == (g + z) + o;
    assert g !! z && (g + z) !! o;
  }

  /** What event `a` of the log hands on: pid and status of a child that was forked and has exited. */
  ghost predicate ReapedRight(s: Sys, a: nat)
    requires a < |s.log| && s.log[a].Reaped?
  {
    var e := s.log[a];
    && Has(s.procs, e.child) && s.procs[e.child].pid == e.pid
    && Forked(e.parent, e.child) in s.log[..a] && Exited(e.child, e.status) in s.log[..a]
  }

  /** In every run: two successful waits return different pids, and each returns the pid of a child
      that the waiting process had forked, with the status that this child had passed to exit. */
  lemma ReapedOnce(run: seq<Sys>, steps: seq<Step>, i: nat, a: nat, b: nat)
    requires IsRun(run, steps) && i < |run|
    requires a < b < |run[i].log| && run[i].log[a].Reaped? && run[i].log[b].Reaped?
    ensures run[i].log[a].pid != run[i].log[b].pid
    ensures ReapedRight(run[i], a) && ReapedRight(run[i], b)
  {
    RunLog(run, steps, i);
    RunInv(run, steps, i);
  }
}
