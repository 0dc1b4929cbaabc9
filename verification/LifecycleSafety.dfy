/** What every run of the process lifecycle keeps. */
module LifecycleSafety {
  import opened Pointers
  import opened ProcessQueue
  import opened Lifecycle
  import S = StableQueue

  ghost predicate Live(s: Sys, p: Ptr) {
    p in s.table && Has(s.procs, p)
  }

  /** `c` is an unreaped zombie child of `p`. */
  ghost predicate ZombieChild(s: Sys, p: Ptr, c: Ptr) {
    Live(s, c) && s.procs[c].parent == p && s.procs[c].state.Zombie?
  }

  ghost predicate DistinctPids(m: Pcbs) {
    forall p, q :: Has(m, p) && Has(m, q) && p != q ==> m[p].pid != m[q].pid
  }

  /** The ready queue holds exactly the READY processes, each once, sorted by priority. */
  ghost predicate QueueInv(s: Sys) {
    && S.Distinct(s.ready) && S.Sorted(s.ready, PriorityOf(s.procs))
    && forall p :: p in s.ready <==> (Has(s.procs, p) && s.procs[p].state.Ready?)
  }

  /** The table holds each PCB at most once, and whatever has left it is a reaped zombie. */
  ghost predicate TableInv(s: Sys) {
    && S.Distinct(s.table) && DistinctPids(s.procs)
    && (forall p :: Has(s.procs, p) ==> s.procs[p].pid < s.nextPid)
    && (forall p :: Has(s.procs, p) && p !in s.table ==> s.procs[p].state.Zombie?)
  }

  /** No lost wake-up: a blocked process has no zombie child, and a process woken up inside
      wait_syscall has one.  Only processes inside wait_syscall are blocked. */
  ghost predicate WaitInv(s: Sys) {
    && (forall p, c :: ZombieChild(s, p, c) ==> !(Has(s.procs, p) && s.procs[p].state.Blocked?))
    && (forall p :: Has(s.procs, p) && s.procs[p].state.Blocked? ==> s.procs[p].resume.InWait?)
    && (forall p :: Has(s.procs, p) && s.procs[p].resume.InWait? ==>
          s.procs[p].state.Blocked?
          || ((s.procs[p].state.Ready? || s.procs[p].state.Running?) && exists c :: ZombieChild(s, p, c)))
  }

  /** Everything but who runs. */
  ghost predicate Core(s: Sys) {
    && Wf(s) && QueueInv(s) && TableInv(s) && WaitInv(s)
    && (forall p :: Has(s.procs, p) && s.procs[p].state.Running? ==> p == s.current)
    && (forall p :: Has(s.procs, p) ==> !s.procs[p].state.New?)
  }

  /** At most one process is RUNNING, and it is the current one; in cli_loop none is. */
  ghost predicate Inv(s: Sys) {
    Core(s) && (IsRunning(s) <==> !s.idle)
  }

  // ---------- Steps keep the invariant ----------

  lemma SortedSame(q: seq<Ptr>, key: Ptr -> int, key': Ptr -> int)
    requires S.Sorted(q, key) && forall p :: p in q ==> key'(p) == key(p)
    ensures S.Sorted(q, key')
  {
    forall i, j | 0 <= i < j < |q| ensures key'(q[i]) <= key'(q[j]) {
      var a, b := q[i], q[j];
      assert a in q && b in q;
      assert key(a) <= key(b) && key'(a) == key(a) && key'(b) == key(b);
    }
  }

  /** `p` is runnable in both states, or is the same in both. */
  ghost predicate SameForWait(a: Pcb, b: Pcb) {
    && a.resume == b.resume
    && (a.state == b.state || ((a.state.Ready? || a.state.Running?) && (b.state.Ready? || b.state.Running?)))
  }

  /** `WaitInv` depends on who is blocked, who is in wait_syscall and who are the zombies. */
  lemma WaitKept(s: Sys, s': Sys)
    requires WaitInv(s)
    requires forall q, c :: ZombieChild(s', q, c) <==> ZombieChild(s, q, c)
    requires forall q :: Has(s'.procs, q) ==>
      (Has(s.procs, q) && SameForWait(s.procs[q], s'.procs[q]))
      || (s'.procs[q].resume.InUser? && !s'.procs[q].state.Blocked?)
    ensures WaitInv(s')
  {
    forall q | Has(s'.procs, q) && s'.procs[q].resume.InWait? && !s'.procs[q].state.Blocked?
      ensures (s'.procs[q].state.Ready? || s'.procs[q].state.Running?) && exists c :: ZombieChild(s', q, c)
    {
      var c :| ZombieChild(s, q, c);
      assert ZombieChild(s', q, c);
    }
  }

  /** `WaitInv`, except that process `p` may have been woken up late. */
  ghost predicate WaitInvBut(s: Sys, p: Ptr) {
    && (forall q, c :: ZombieChild(s, q, c) && q != p ==> !(Has(s.procs, q) && s.procs[q].state.Blocked?))
    && (forall q :: Has(s.procs, q) && s.procs[q].state.Blocked? ==> s.procs[q].resume.InWait?)
    && (forall q :: Has(s.procs, q) && s.procs[q].resume.InWait? && q != p ==>
          s.procs[q].state.Blocked?
          || ((s.procs[q].state.Ready? || s.procs[q].state.Running?) && exists c :: ZombieChild(s, q, c)))
  }

  lemma MakeReadyQueue(s: Sys, p: Ptr)
    requires Wf(s) && QueueInv(s) && Has(s.procs, p) && !s.procs[p].state.Ready?
    ensures QueueInv(MakeReady(s, p))
  {
    var key := PriorityOf(s.procs);
    var s' := MakeReady(s, p);
    S.InsertElements(s.ready, p, key);
    S.InsertSorted(s.ready, p, key);
    S.InsertDistinct(s.ready, p, key);
    SortedSame(s'.ready, key, PriorityOf(s'.procs));
  }

  lemma MakeReadyWait(s: Sys, p: Ptr)
    requires Has(s.procs, p) && !s.procs[p].state.Zombie? && WaitInvBut(s, p)
    requires s.procs[p].resume.InWait? ==> exists c :: ZombieChild(s, p, c)
    ensures WaitInv(MakeReady(s, p))
  {
    var s' := MakeReady(s, p);
    assert forall q, c :: ZombieChild(s', q, c) <==> ZombieChild(s, q, c);
  }

  lemma MakeReadyCore(s: Sys, p: Ptr)
    requires Wf(s) && QueueInv(s) && TableInv(s) && WaitInvBut(s, p)
    requires Live(s, p) && !s.procs[p].state.Ready? && !s.procs[p].state.Zombie?
    requires s.procs[p].resume.InWait? ==> exists c :: ZombieChild(s, p, c)
    requires forall q :: Has(s.procs, q) && s.procs[q].state.Running? ==> q == s.current
    requires forall q :: Has(s.procs, q) ==> !s.procs[q].state.New?
    ensures Core(MakeReady(s, p))
  {
    MakeReadyWf(s, p);
    MakeReadyQueue(s, p);
    MakeReadyWait(s, p);
  }

  lemma RunFrontInv(s: Sys)
    requires Core(s) && !IsRunning(s)
    ensures Inv(RunFront(s))
  {
    RunFrontQueue(s);
    RunFrontWait(s);
  }

  lemma RunFrontQueue(s: Sys)
    requires Wf(s) && QueueInv(s)
    ensures QueueInv(RunFront(s)) && Wf(RunFront(s))
  {
    var s' := RunFront(s);
    if s.ready != [] {
      RestQueue(s.ready);
      RestSorted(s.ready, PriorityOf(s.procs));
      assert s.ready[0] in s.ready;
      SortedSame(s'.ready, PriorityOf(s.procs), PriorityOf(s'.procs));
    }
  }

  lemma RestSorted(q: seq<Ptr>, key: Ptr -> int)
    requires q != [] && S.Sorted(q, key) && S.Distinct(q)
    ensures S.Sorted(q[1..], key) && S.Distinct(q[1..])
  {
  }

  lemma RunFrontWait(s: Sys)
    requires Wf(s) && QueueInv(s) && WaitInv(s)
    ensures WaitInv(RunFront(s))
  {
    var s' := RunFront(s);
    assert s.ready != [] ==> s.ready[0] in s.ready;
    assert forall q, c :: ZombieChild(s', q, c) <==> ZombieChild(s, q, c);
    WaitKept(s, s');
  }

  /** Dropping the head of a sequence without repetitions drops one element. */
  lemma RestQueue(q: seq<Ptr>)
    requires q != [] && S.Distinct(q)
    ensures forall p :: p in q[1..] <==> p in q && p != q[0]
  {
    assert q == [q[0]] + q[1..];
  }

  lemma ScheduleInv(s: Sys)
    requires Core(s)
    ensures Inv(Schedule(s))
  {
    if IsRunning(s) {
      MakeReadyCore(s, s.current);
      RunFrontInv(MakeReady(s, s.current));
    } else {
      RunFrontInv(s);
    }
  }

  lemma LinkInInv(s: Sys, p: Pcb)
    requires Inv(s) && p.pid == s.nextPid && p.state.Ready? && p.resume.InUser?
    requires p.parent == NIL || Has(s.procs, p.parent)
    ensures Inv(LinkIn(s, p))
  {
    LinkInQueue(s, p);
    LinkInTable(s, p);
    var s' := LinkIn(s, p);
    assert forall q, z :: ZombieChild(s', q, z) <==> ZombieChild(s, q, z);
    WaitKept(s, s');
  }

  lemma LinkInQueue(s: Sys, p: Pcb)
    requires Wf(s) && QueueInv(s) && p.state.Ready?
    requires p.parent == NIL || Has(s.procs, p.parent)
    ensures QueueInv(LinkIn(s, p)) && Wf(LinkIn(s, p))
  {
    var s' := LinkIn(s, p);
    var c, key := |s.procs|, PriorityOf(s'.procs);
    SortedSame(s.ready, PriorityOf(s.procs), key);
    S.InsertElements(s.ready, c, key);
    S.InsertSorted(s.ready, c, key);
    S.InsertDistinct(s.ready, c, key);
  }

  lemma LinkInTable(s: Sys, p: Pcb)
    requires Wf(s) && TableInv(s) && p.pid == s.nextPid
    ensures TableInv(LinkIn(s, p))
  {
    var c, t := |s.procs|, LinkIn(s, p).table;
    forall i, j | 0 <= i < j < |t| ensures t[i] != t[j] {
      assert t[j] == s.table[j - 1] && t[j] in s.table;
    }
  }

  /** The invariant does not look at the log, and pids may be skipped. */
  lemma InvIgnores(s: Sys, s': Sys)
    requires Inv(s) && s' == s.(log := s'.log, nextPid := s'.nextPid) && s.nextPid <= s'.nextPid
    ensures Inv(s')
  {
    assert forall q, z :: ZombieChild(s', q, z) <==> ZombieChild(s, q, z);
    WaitKept(s, s');
  }

  /** Comparing the pids of parents is comparing parents, so the search finds the zombie children. */
  lemma ZombieByPid(s: Sys, c: Ptr, p: Ptr)
    requires Wf(s) && TableInv(s) && Has(s.procs, p) && c in s.table
    ensures IsZombieOf(s.procs, c, p) <==> ZombieChild(s, p, c)
  {
  }

  /** find_zombie_child fails iff there is no zombie child. */
  lemma FindFinds(s: Sys, p: Ptr)
    requires Wf(s) && TableInv(s) && Has(s.procs, p)
    ensures var i := FindZombie(s.procs, s.table, p);
      && (i < |s.table| ==> ZombieChild(s, p, s.table[i]))
      && (i == |s.table| ==> forall c :: !ZombieChild(s, p, c))
  {
    var i := FindZombie(s.procs, s.table, p);
    if i < |s.table| {
      ZombieByPid(s, s.table[i], p);
    } else {
      forall c ensures !ZombieChild(s, p, c) {
        if c in s.table {
          ZombieByPid(s, c, p);
        }
      }
    }
  }

  lemma RemoveAt(t: seq<Ptr>, i: nat)
    requires S.Distinct(t) && i < |t|
    ensures S.Distinct(t[..i] + t[i + 1..])
    ensures forall p :: p in t[..i] + t[i + 1..] <==> p in t && p != t[i]
  {
    var r := t[..i] + t[i + 1..];
    forall p | p in t && p != t[i] ensures p in r {
      var k :| 0 <= k < |t| && t[k] == p;
      assert p == r[if k < i then k else k - 1];
    }
    forall a, b | 0 <= a < b < |r| ensures r[a] != r[b] {
      assert r[a] == t[if a < i then a else a + 1] && r[b] == t[if b < i then b else b + 1];
    }
  }

  /** Reaping takes one zombie of the running process out; the process goes on in its own code. */
  lemma ReapInv(s: Sys, i: nat)
    requires Inv(s) && IsRunning(s) && i < |s.table| && ZombieChild(s, s.current, s.table[i])
    ensures Inv(BackToUser(Reap(s, i)))
  {
    var s' := BackToUser(Reap(s, i));
    var c := s.table[i];
    ReapTable(s, i);
    RemoveAt(s.table, i);
    assert forall q, z :: ZombieChild(s', q, z) <==> ZombieChild(s, q, z) && z != c;
    ReapWait(s, s', c);
  }

  lemma ReapTable(s: Sys, i: nat)
    requires Wf(s) && QueueInv(s) && TableInv(s) && Has(s.procs, s.current) && i < |s.table|
    requires Has(s.procs, s.table[i]) && s.procs[s.table[i]].state.Zombie?
    ensures var s' := BackToUser(Reap(s, i)); Wf(s') && QueueInv(s') && TableInv(s')
  {
    var s' := BackToUser(Reap(s, i));
    RemoveAt(s.table, i);
    SortedSame(s.ready, PriorityOf(s.procs), PriorityOf(s'.procs));
  }

  lemma ReapWait(s: Sys, s': Sys, c: Ptr)
    requires WaitInv(s) && Has(s.procs, s.current) && ZombieChild(s, s.current, c)
    requires s'.procs == s.procs[s.current := s.procs[s.current].(resume := InUser)]
    requires s.procs[s.current].state.Running?
    requires forall q, z :: ZombieChild(s', q, z) <==> ZombieChild(s, q, z) && z != c
    ensures WaitInv(s')
  {
    forall q | Has(s'.procs, q) && s'.procs[q].resume.InWait? && !s'.procs[q].state.Blocked?
      ensures (s'.procs[q].state.Ready? || s'.procs[q].state.Running?) && exists z :: ZombieChild(s', q, z)
    {
      var z :| ZombieChild(s, q, z);
      assert ZombieChild(s', q, z);
    }
  }

  /** The running process stops running, in a way that leaves the others alone. */
  lemma StopCore(s: Sys, s': Sys, p: Pcb)
    requires Inv(s) && IsRunning(s) && s' == s.(procs := s.procs[s.current := p], log := s'.log)
    requires var o := s.procs[s.current]; p.pid == o.pid && p.priority == o.priority && p.parent == o.parent
    requires !p.state.Running? && !p.state.Ready? && !p.state.New?
    ensures Wf(s') && QueueInv(s') && TableInv(s')
    ensures forall q :: Has(s'.procs, q) ==> !s'.procs[q].state.New? && !s'.procs[q].state.Running?
    ensures s.current in s.table
  {
    SortedSame(s.ready, PriorityOf(s.procs), PriorityOf(s'.procs));
  }

  lemma BlockInv(s: Sys)
    requires Inv(s) && IsRunning(s) && forall c :: !ZombieChild(s, s.current, c)
    ensures Inv(Schedule(s.(procs := s.procs[s.current := s.procs[s.current].(state := Blocked, resume := InWait)])))
  {
    BlockCore(s);
    ScheduleInv(s.(procs := s.procs[s.current := s.procs[s.current].(state := Blocked, resume := InWait)]));
  }

  lemma BlockCore(s: Sys)
    requires Inv(s) && IsRunning(s) && forall c :: !ZombieChild(s, s.current, c)
    ensures Core(s.(procs := s.procs[s.current := s.procs[s.current].(state := Blocked, resume := InWait)]))
  {
    var p := s.procs[s.current].(state := Blocked, resume := InWait);
    var s' := s.(procs := s.procs[s.current := p]);
    StopCore(s, s', p);
    assert forall q, z :: ZombieChild(s', q, z) <==> ZombieChild(s, q, z);
    BlockWait(s, s');
  }

  lemma BlockWait(s: Sys, s': Sys)
    requires WaitInv(s) && Has(s.procs, s.current) && forall c :: !ZombieChild(s, s.current, c)
    requires s'.procs == s.procs[s.current := s.procs[s.current].(state := Blocked, resume := InWait)]
    requires forall q, z :: ZombieChild(s', q, z) <==> ZombieChild(s, q, z)
    ensures WaitInv(s')
  {
    forall q | Has(s'.procs, q) && s'.procs[q].resume.InWait? && !s'.procs[q].state.Blocked?
      ensures (s'.procs[q].state.Ready? || s'.procs[q].state.Running?) && exists z :: ZombieChild(s', q, z)
    {
      var z :| ZombieChild(s, q, z);
      assert ZombieChild(s', q, z);
    }
  }

  lemma WaitStepInv(s: Sys)
    requires Inv(s) && Enabled(s, Wait)
    ensures Inv(WaitStep(s))
  {
    FindFinds(s, s.current);
    var i := FindZombie(s.procs, s.table, s.current);
    if i < |s.table| {
      ReapInv(s, i);
      assert BackToUser(Reap(s, i)) == Reap(s, i);
    } else {
      BlockInv(s);
    }
  }

  /** The second search of wait_syscall never fails: its last `return -1` is unreachable. */
  lemma NoLostWakeUp(s: Sys)
    requires Inv(s) && Enabled(s, Resume)
    ensures FindZombie(s.procs, s.table, s.current) < |s.table|
    ensures ZombieChild(s, s.current, s.table[FindZombie(s.procs, s.table, s.current)])
  {
    FindFinds(s, s.current);
  }

  lemma QuitStepInv(s: Sys)
    requires Inv(s) && Enabled(s, Quit)
    ensures Inv(QuitStep(s))
  {
    QuitCore(s);
    ScheduleInv(s.(procs := SetState(s.procs, s.current, State.Exit)));
  }

  lemma QuitCore(s: Sys)
    requires Inv(s) && Enabled(s, Quit)
    ensures Core(s.(procs := SetState(s.procs, s.current, State.Exit)))
  {
    var p := s.procs[s.current].(state := State.Exit);
    var s' := s.(procs := s.procs[s.current := p]);
    StopCore(s, s', p);
    assert forall q, z :: ZombieChild(s', q, z) <==> ZombieChild(s, q, z);
    WaitKept(s, s');
  }

  lemma ExitStepInv(s: Sys, status: int)
    requires Inv(s) && Enabled(s, Step.Exit(status))
    ensures Inv(ExitStep(s, status))
  {
    BecomeZombieWf(s, status);
    BecomeZombieCore(s, status);
    ScheduleInv(BecomeZombie(s, status));
  }

  lemma BecomeZombieCore(s: Sys, status: int)
    requires Inv(s) && Enabled(s, Step.Exit(status))
    ensures Core(BecomeZombie(s, status))
  {
    var c := s.current;
    var p := s.procs[c].(exitStatus := status, state := Zombie);
    var z := s.(procs := s.procs[c := p], log := s.log + [Exited(c, status)]);
    StopCore(s, z, p);
    assert forall q, x :: ZombieChild(z, q, x) <==> ZombieChild(s, q, x) || (x == c && q == p.parent);
    ZombieWait(s, z);
    if p.parent != NIL && z.procs[p.parent].state.Blocked? {
      assert ZombieChild(z, p.parent, c);
      MakeReadyCore(z, p.parent);
    }
  }

  lemma ZombieWait(s: Sys, z: Sys)
    requires Wf(s) && WaitInv(s) && Has(s.procs, s.current) && s.procs[s.current].resume.InUser?
    requires |z.procs| == |s.procs|
    requires forall q :: Has(s.procs, q) && q != s.current ==> z.procs[q] == s.procs[q]
    requires z.procs[s.current].state.Zombie? && z.procs[s.current].resume.InUser?
    requires forall q, x :: ZombieChild(z, q, x) <==> ZombieChild(s, q, x) || (x == s.current && q == s.procs[s.current].parent)
    ensures WaitInvBut(z, s.procs[s.current].parent)
    ensures !(Has(z.procs, s.procs[s.current].parent) && z.procs[s.procs[s.current].parent].state.Blocked?) ==> WaitInv(z)
  {
    forall q | Has(z.procs, q) && z.procs[q].resume.InWait? && !z.procs[q].state.Blocked?
      ensures (z.procs[q].state.Ready? || z.procs[q].state.Running?) && exists x :: ZombieChild(z, q, x)
    {
      var x :| ZombieChild(s, q, x);
      assert ZombieChild(z, q, x);
    }
  }

  /** Every step keeps the invariant. */
  lemma StepInv(s: Sys, step: Step)
    requires Inv(s) && Enabled(s, step)
    ensures Inv(Apply(s, step))
  {
    match step
    case Create(priority, deadline, timeToRun, alloc, junk) =>
      if alloc.Enough? {
        LinkInInv(s, NewPcb(junk, s.nextPid, priority, deadline, timeToRun));
      } else {
        InvIgnores(s, CreateStep(s, step));
      }
    case Fork(alloc, junk) =>
      if alloc.Enough? {
        var child := ChildPcb(junk, s.nextPid, s.current, s.procs[s.current].priority);
        LinkInInv(s, child);
        InvIgnores(LinkIn(s, child), ForkStep(s, alloc, junk));
      } else {
        InvIgnores(s, ForkStep(s, alloc, junk));
      }
    case Wait => WaitStepInv(s);
    case Resume =>
      NoLostWakeUp(s);
      ReapInv(s, FindZombie(s.procs, s.table, s.current));
    case Exit(status) => ExitStepInv(s, status);
    case Yield => ScheduleInv(s);
    case Quit => QuitStepInv(s);
    case Dispatch => ScheduleInv(s);
  }

  // ---------- Runs ----------

  /** `run` is a run of the system from its start: state i+1 comes from state i by step i. */
  ghost predicate IsRun(run: seq<Sys>, steps: seq<Step>) {
    && |run| == |steps| + 1 && run[0] == Boot()
    && forall i :: 0 <= i < |steps| ==> NextAt(run, steps, i)
  }

  ghost predicate NextAt(run: seq<Sys>, steps: seq<Step>, i: nat)
    requires i < |steps| && |run| == |steps| + 1
  {
    Next(run[i], steps[i], run[i + 1])
  }

  ghost predicate Next(s: Sys, step: Step, s': Sys) {
    Wf(s) && Enabled(s, step) && s' == Apply(s, step)
  }

  lemma BootInv()
    ensures Inv(Boot())
  {
    NothingThere(Boot());
  }

  lemma NothingThere(s: Sys)
    requires s.procs == [] && s.ready == [] && s.table == [] && s.current == NIL && s.idle
    ensures Inv(s)
  {
    assert forall p :: !Has(s.procs, p);
    assert Wf(s) && QueueInv(s) && TableInv(s);
  }

  /** The invariant holds at every step boundary of every run. */
  lemma {:induction false} RunInv(run: seq<Sys>, steps: seq<Step>, i: nat)
    requires IsRun(run, steps) && i < |run|
    ensures Inv(run[i])
  {
    if i == 0 {
      BootInv();
    } else {
      RunInv(run, steps, i - 1);
      assert NextAt(run, steps, i - 1);
      StepInv(run[i - 1], steps[i - 1]);
    }
  }

  /** In every run, a process that goes on inside wait_syscall finds a zombie child of its own, and
      no process is blocked while it has one. */
  lemma WaitNeverFails(run: seq<Sys>, steps: seq<Step>, i: nat)
    requires IsRun(run, steps) && i < |run|
    ensures forall p, c :: ZombieChild(run[i], p, c) ==> !(Has(run[i].procs, p) && run[i].procs[p].state.Blocked?)
    ensures i < |steps| && steps[i].Resume? ==>
      var s := run[i];
      && Wf(s) && Has(s.procs, s.current)
      && FindZombie(s.procs, s.table, s.current) < |s.table|
      && ZombieChild(s, s.current, s.table[FindZombie(s.procs, s.table, s.current)])
  {
    RunInv(run, steps, i);
    if i < |steps| && steps[i].Resume? {
      assert NextAt(run, steps, i);
      NoLostWakeUp(run[i]);
    }
  }

  // ---------- Processes that quit ----------

  ghost predicate HasQuit(s: Sys, p: Ptr) {
    Has(s.procs, p) && s.procs[p].state == State.Exit
  }

  lemma ScheduleKeepsQuit(s: Sys, p: Ptr)
    requires Core(s) && HasQuit(s, p)
    ensures HasQuit(Schedule(s), p)
  {
    var t := if IsRunning(s) then MakeReady(s, s.current) else s;
    if IsRunning(s) {
      MakeReadyCore(s, s.current);
    }
    assert t.ready != [] ==> t.ready[0] in t.ready;
  }

  lemma StepKeepsQuit(s: Sys, step: Step, p: Ptr)
    requires Inv(s) && Enabled(s, step) && HasQuit(s, p)
    ensures HasQuit(Apply(s, step), p)
  {
    match step
    case Wait =>
      FindFinds(s, s.current);
      if FindZombie(s.procs, s.table, s.current) == |s.table| {
        BlockCore(s);
        ScheduleKeepsQuit(s.(procs := s.procs[s.current := s.procs[s.current].(state := Blocked, resume := InWait)]), p);
      }
    case Exit(status) =>
      BecomeZombieWf(s, status);
      BecomeZombieCore(s, status);
      ScheduleKeepsQuit(BecomeZombie(s, status), p);
    case Yield => ScheduleKeepsQuit(s, p);
    case Quit =>
      QuitCore(s);
      ScheduleKeepsQuit(s.(procs := SetState(s.procs, s.current, State.Exit)), p);
    case Dispatch => ScheduleKeepsQuit(s, p);
    case _ =>
  }

  /** In every run, a process that yields in STATE_EXIT is never queued, run or reaped again. */
  lemma {:induction false} QuitForEver(run: seq<Sys>, steps: seq<Step>, a: nat, b: nat, p: Ptr)
    requires IsRun(run, steps) && a <= b < |run| && HasQuit(run[a], p)
    ensures HasQuit(run[b], p) && p !in run[b].ready && p in run[b].table
    ensures IsRunning(run[b]) ==> run[b].current != p
    decreases b
  {
    RunInv(run, steps, b);
    if a < b {
      QuitForEver(run, steps, a, b - 1, p);
      RunInv(run, steps, b - 1);
      assert NextAt(run, steps, b - 1);
      StepKeepsQuit(run[b - 1], steps[b - 1], p);
    }
  }
}
