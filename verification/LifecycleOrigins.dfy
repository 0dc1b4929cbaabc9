/** Who runs next, and where the events and the states of a run come from. */
module LifecycleOrigins {
  import opened Pointers
  import opened ProcessQueue
  import opened Lifecycle
  import opened LifecycleSafety
  import opened LifecycleHistory
  import opened LifecycleWaiting
  import opened LifecycleEffects
  import S = StableQueue

  // ---------- Who runs next ----------

  /** A yield loses nobody: the same processes are running or ready afterwards. */
  lemma YieldLosesNobody(s: Sys)
    requires Inv(s) && Enabled(s, Yield)
    ensures var t := Apply(s, Yield);
      && !t.idle && multiset([t.current] + t.ready) == multiset([s.current] + s.ready)
      && Has(t.procs, s.current) && (t.procs[s.current].state.Ready? || t.procs[s.current].state.Running?)
  {
    ScheduleHasEffect(s);
    YieldKeepsAll(s, Apply(s, Yield));
  }

  lemma YieldKeepsAll(s: Sys, t: Sys)
    requires YieldEffect(s, t)
    ensures !t.idle && multiset([t.current] + t.ready) == multiset([s.current] + s.ready)
    ensures Has(t.procs, s.current) && (t.procs[s.current].state.Ready? || t.procs[s.current].state.Running?)
  {
    var q :| Joined(s.ready, q, s.current, s.procs)
             && Switched(s.procs[s.current := s.procs[s.current].(state := Ready)], q, t);
    JoinedElements(s.ready, q, s.current, s.procs);
    assert multiset([s.current] + s.ready) == multiset(s.ready) + multiset{s.current};
  }

  lemma JoinedElements(q: seq<Ptr>, q': seq<Ptr>, x: Ptr, m: Pcbs)
    requires Joined(q, q', x, m)
    ensures |q'| == |q| + 1 && multiset(q') == multiset(q) + multiset{x}
  {
    var i :| JoinedAt(q, q', x, m, i);
    assert q == q[..i] + q[i..];
  }

  /** The step gives up the processor, or is called to hand it out. */
  ghost predicate HandsOver(s: Sys, step: Step) {
    step.Yield? || step.Quit? || step.Exit? || step.Dispatch? || (step.Wait? && forall c :: !ZombieChild(s, s.current, c))
  }

  /** Nobody who is ready is more urgent than the one who runs. */
  ghost predicate MostUrgent(t: Sys) {
    && Has(t.procs, t.current)
    && forall p :: p in t.ready ==> Has(t.procs, p) && t.procs[t.current].priority <= t.procs[p].priority
  }

  lemma FrontIsMostUrgent(s: Sys)
    requires Wf(s) && QueueInv(s) && s.ready != []
    ensures MostUrgent(RunFront(s)) && !RunFront(s).idle
  {
    var t := RunFront(s);
    assert s.ready[0] in s.ready;
    forall p | p in t.ready ensures Has(t.procs, p) && t.procs[t.current].priority <= t.procs[p].priority {
      var k :| 0 <= k < |t.ready| && t.ready[k] == p;
      assert s.ready[k + 1] == p && p in s.ready;
      var key := PriorityOf(s.procs);
      var a := s.ready[0];
      assert key(a) <= key(p) && key(a) == s.procs[a].priority && key(p) == s.procs[p].priority;
    }
  }

  lemma ScheduleMostUrgent(s: Sys)
    requires Core(s)
    ensures Schedule(s).idle || MostUrgent(Schedule(s))
  {
    var z := if IsRunning(s) then MakeReady(s, s.current) else s;
    if IsRunning(s) {
      MakeReadyWf(s, s.current);
      MakeReadyQueue(s, s.current);
    }
    if z.ready != [] {
      FrontIsMostUrgent(z);
    }
  }

  /** Whenever the processor is handed over, the most urgent ready process gets it. */
  lemma MostUrgentRuns(s: Sys, step: Step)
    requires Inv(s) && Enabled(s, step) && HandsOver(s, step)
    ensures Apply(s, step).idle || MostUrgent(Apply(s, step))
  {
    match step
    case Wait =>
      FindFinds(s, s.current);
      BlockCore(s);
      ScheduleMostUrgent(s.(procs := s.procs[s.current := s.procs[s.current].(state := Blocked, resume := InWait)]));
    case Exit(status) =>
      BecomeZombieWf(s, status);
      BecomeZombieCore(s, status);
      ScheduleMostUrgent(BecomeZombie(s, status));
    case Yield => ScheduleMostUrgent(s);
    case Quit =>
      QuitCore(s);
      ScheduleMostUrgent(s.(procs := SetState(s.procs, s.current, State.Exit)));
    case Dispatch => ScheduleMostUrgent(s);
    case _ =>
  }

  /** A process that is more urgent than all others runs on when it yields. */
  lemma UrgentRunsOn(s: Sys)
    requires Inv(s) && Enabled(s, Yield)
    requires forall p :: p in s.ready ==> s.procs[s.current].priority < s.procs[p].priority
    ensures var t := Apply(s, Yield); !t.idle && t.current == s.current && t.ready == s.ready
  {
    var t := Apply(s, Yield);
    ScheduleHasEffect(s);
    var q :| Joined(s.ready, q, s.current, s.procs)
             && Switched(s.procs[s.current := s.procs[s.current].(state := Ready)], q, t);
    JoinsFirst(s.ready, q, s.current, s.procs);
    SameFront(t.current, t.ready, s.current, s.ready);
  }

  lemma JoinsFirst(q: seq<Ptr>, q': seq<Ptr>, x: Ptr, m: Pcbs)
    requires Joined(q, q', x, m) && Has(m, x)
    requires forall p :: p in q && Has(m, p) ==> m[x].priority < m[p].priority
    ensures q' == [x] + q
  {
    var i :| JoinedAt(q, q', x, m, i);
    assert forall k :: 0 <= k < |q| ==> q[k] in q;
  }

  lemma SameFront(a: Ptr, s: seq<Ptr>, b: Ptr, t: seq<Ptr>)
    requires [a] + s == [b] + t
    ensures a == b && s == t
  {
    assert ([a] + s)[0] == ([b] + t)[0] && ([a] + s)[1..] == s && ([b] + t)[1..] == t;
  }

  // ---------- Where events come from ----------

  /** The event is recorded by that step, in state `s`. */
  ghost predicate RecordedBy(s: Sys, step: Step, e: Event) {
    match e
    case Forked(p, c) => step.Fork? && step.alloc.Enough? && s.current == p && c == |s.procs|
    case Exited(c, status) => step == Step.Exit(status) && s.current == c
    case Reaped(p, c, _, _) => (step.Wait? || step.Resume?) && s.current == p && ZombieChild(s, p, c)
  }

  lemma StepRecords(s: Sys, step: Step)
    requires Inv(s) && Enabled(s, step)
    ensures var t := Apply(s, step);
      t.log == s.log || (|t.log| == |s.log| + 1 && t.log[..|s.log|] == s.log && RecordedBy(s, step, t.log[|s.log|]))
  {
    StepHasEffect(s, step);
    match step
    case Wait =>
      if exists c :: ZombieChild(s, s.current, c) {
        var i: nat :| Collected(s, Apply(s, step), i);
      }
    case Resume =>
      var i: nat :| Collected(s, Apply(s, step), i);
    case _ =>
  }

  /** Some earlier step of the run recorded the event. */
  ghost predicate HasCause(run: seq<Sys>, steps: seq<Step>, b: nat, e: Event)
    requires |run| == |steps| + 1 && b < |run|
  {
    exists k :: 0 <= k < b && RecordedBy(run[k], steps[k], e)
  }

  /** In every run every fork, exit and reap in the record is that of a step of the process concerned,
      an exit with the status that the step was given. */
  lemma {:induction false} EventHasCause(run: seq<Sys>, steps: seq<Step>, b: nat, j: nat)
    requires IsRun(run, steps) && b < |run| && j < |run[b].log|
    ensures HasCause(run, steps, b, run[b].log[j])
  {
    assert b > 0;
    var s, t := run[b - 1], run[b];
    NewEvent(run, steps, b - 1);
    if j < |s.log| {
      EventHasCause(run, steps, b - 1, j);
      assert t.log[j] == t.log[..|s.log|][j];
      CauseStays(run, steps, b - 1, s.log[j]);
    } else {
      CauseNow(run, steps, b - 1, t.log[j]);
    }
  }

  lemma NewEvent(run: seq<Sys>, steps: seq<Step>, k: nat)
    requires IsRun(run, steps) && k < |steps|
    ensures var (s, t) := (run[k], run[k + 1]);
      t.log == s.log || (|t.log| == |s.log| + 1 && t.log[..|s.log|] == s.log && RecordedBy(s, steps[k], t.log[|s.log|]))
  {
    RunInv(run, steps, k);
    assert NextAt(run, steps, k);
    StepRecords(run[k], steps[k]);
  }

  lemma CauseStays(run: seq<Sys>, steps: seq<Step>, b: nat, e: Event)
    requires |run| == |steps| + 1 && b < |steps| && HasCause(run, steps, b, e)
    ensures HasCause(run, steps, b + 1, e)
  {
    var k :| 0 <= k < b && RecordedBy(run[k], steps[k], e);
  }

  lemma CauseNow(run: seq<Sys>, steps: seq<Step>, b: nat, e: Event)
    requires |run| == |steps| + 1 && b < |steps| && RecordedBy(run[b], steps[b], e)
    ensures HasCause(run, steps, b + 1, e)
  {
  }

  /** In every run the status that a wait returns is the one that the child itself passed to exit. */
  lemma StatusIsPassedOn(run: seq<Sys>, steps: seq<Step>, b: nat, j: nat)
    requires IsRun(run, steps) && b < |run| && j < |run[b].log| && run[b].log[j].Reaped?
    ensures var e := run[b].log[j];
      exists k :: 0 <= k < b && steps[k] == Step.Exit(e.status) && run[k].current == e.child
  {
    var log := run[b].log;
    RunLog(run, steps, b);
    var x := Exited(log[j].child, log[j].status);
    assert x in log[..j];
    var i :| 0 <= i < j && log[i] == x;
    EventHasCause(run, steps, b, i);
    var k :| 0 <= k < b && RecordedBy(run[k], steps[k], x);
  }

  // ---------- Pids ----------

  /** The step asks for a pid, and gets it even if there is no memory for a stack. */
  predicate TakesPid(step: Step) {
    step.Create? || (step.Fork? && !step.alloc.NoPcb?)
  }

  function PidsTaken(steps: seq<Step>): nat {
    if steps == [] then 0
    else PidsTaken(steps[..|steps| - 1]) + if TakesPid(steps[|steps| - 1]) then 1 else 0
  }

  /** In every run pids are handed out from 1 on without a gap, one to each step that asks. */
  lemma {:induction false} PidCounter(run: seq<Sys>, steps: seq<Step>, b: nat)
    requires IsRun(run, steps) && b < |run|
    ensures run[b].nextPid == 1 + PidsTaken(steps[..b])
  {
    if b > 0 {
      PidCounter(run, steps, b - 1);
      assert steps[..b][..b - 1] == steps[..b - 1];
      RunInv(run, steps, b - 1);
      assert NextAt(run, steps, b - 1);
      StepPids(run[b - 1], steps[b - 1]);
    }
  }

  lemma StepPids(s: Sys, step: Step)
    requires Inv(s) && Enabled(s, step)
    ensures Apply(s, step).nextPid == s.nextPid + if TakesPid(step) then 1 else 0
  {
    StepHasEffect(s, step);
  }

  // ---------- Where states come from ----------

  lemma ExitQuitsNot(s: Sys, t: Sys, status: int, p: Ptr)
    requires ExitEffect(s, t, status) && HasQuit(t, p)
    ensures HasQuit(s, p)
  {
  }

  lemma StepQuits(s: Sys, step: Step, p: Ptr)
    requires Inv(s) && Enabled(s, step) && HasQuit(Apply(s, step), p)
    ensures HasQuit(s, p) || (step.Quit? && s.current == p)
  {
    StepHasEffect(s, step);
    match step
    case Exit(status) => ExitQuitsNot(s, Apply(s, step), status, p);
    case _ =>
  }

  /** In every run a process is in STATE_EXIT only after it has quit itself. */
  lemma {:induction false} QuitBySelf(run: seq<Sys>, steps: seq<Step>, b: nat, p: Ptr)
    requires IsRun(run, steps) && b < |run| && HasQuit(run[b], p)
    ensures exists k :: 0 <= k < b && steps[k].Quit? && run[k].current == p
  {
    assert b > 0;
    RunInv(run, steps, b - 1);
    assert NextAt(run, steps, b - 1);
    StepQuits(run[b - 1], steps[b - 1], p);
    if HasQuit(run[b - 1], p) {
      QuitBySelf(run, steps, b - 1, p);
    }
  }

  /** In every run a child has the priority of its parent. */
  lemma ChildrenInherit(run: seq<Sys>, steps: seq<Step>, b: nat, j: nat)
    requires IsRun(run, steps) && b < |run| && j < |run[b].log| && run[b].log[j].Forked?
    ensures var e := run[b].log[j];
      && Has(run[b].procs, e.parent) && Has(run[b].procs, e.child)
      && run[b].procs[e.child].priority == run[b].procs[e.parent].priority
  {
    var e := run[b].log[j];
    EventHasCause(run, steps, b, j);
    var k :| 0 <= k < b && RecordedBy(run[k], steps[k], e);
    ForkedAt(run, steps, b, k, e.parent, e.child);
  }

  lemma ForkedAt(run: seq<Sys>, steps: seq<Step>, b: nat, k: nat, p: Ptr, c: Ptr)
    requires IsRun(run, steps) && k < b < |run|
    requires RecordedBy(run[k], steps[k], Forked(p, c))
    ensures Has(run[b].procs, p) && Has(run[b].procs, c) && run[b].procs[c].priority == run[b].procs[p].priority
  {
    RunInv(run, steps, k);
    assert NextAt(run, steps, k);
    StepHasEffect(run[k], steps[k]);
    SamePriority(run, steps, k + 1, b, p);
    SamePriority(run, steps, k + 1, b, c);
  }

  lemma SamePriority(run: seq<Sys>, steps: seq<Step>, a: nat, b: nat, q: Ptr)
    requires IsRun(run, steps) && a <= b < |run| && Has(run[a].procs, q)
    ensures Has(run[b].procs, q) && run[b].procs[q].priority == run[a].procs[q].priority
  {
    PriorityFixed(run, steps, a, b, q);
  }
}
