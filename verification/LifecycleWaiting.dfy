/** Bounded waiting: how soon a READY process runs. */
module LifecycleWaiting {
  import opened Pointers
  import opened ProcessQueue
  import opened Lifecycle
  import opened LifecycleSafety
  import S = StableQueue

  ghost function Priority(s: Sys, p: Ptr): int {
    PriorityOf(s.procs)(p)
  }

  /** Whether the step calls schedule. */
  ghost predicate Schedules(s: Sys, step: Step)
    requires Wf(s) && Enabled(s, step)
  {
    match step
    case Create(_, _, _, _, _) => false
    case Fork(_, _) => false
    case Resume => false
    case Wait => FindZombie(s.procs, s.table, s.current) == |s.table|
    case _ => true
  }

  /** Whoever the step enqueues has no higher priority, that is no smaller number, than `bound`. */
  ghost predicate NoOvertaking(s: Sys, step: Step, bound: int)
    requires Wf(s) && Enabled(s, step)
  {
    match step
    case Create(priority, _, _, alloc, _) => alloc.Enough? ==> bound <= priority
    case Fork(alloc, _) => alloc.Enough? ==> bound <= s.procs[s.current].priority
    case Yield => bound <= s.procs[s.current].priority
    case Exit(_) =>
      var p := s.procs[s.current].parent;
      p != NIL && s.procs[p].state.Blocked? ==> bound <= s.procs[p].priority
    case _ => true
  }

  /** A newcomer that is no more urgent than the one at `i` leaves it where it is. */
  lemma InsertedBehind(q: seq<Ptr>, x: Ptr, key: Ptr -> int, i: nat)
    requires S.Sorted(q, key) && i < |q| && key(q[i]) <= key(x)
    ensures i < |S.Insert(q, x, key)| && S.Insert(q, x, key)[i] == q[i]
  {
    var j := S.InsertPosition(q, x, key);
  }

  /** A call of schedule moves everyone in the queue up by one, and the front runs. */
  lemma ScheduleMovesUp(s: Sys, i: nat)
    requires Core(s) && i < |s.ready|
    requires IsRunning(s) ==> Priority(s, s.ready[i]) <= Priority(s, s.current)
    ensures var (t, q) := (Schedule(s), s.ready[i]);
      if i == 0 then t.current == q && IsRunning(t) && !t.idle else i - 1 < |t.ready| && t.ready[i - 1] == q
  {
    assert s.ready[i] in s.ready;
    if IsRunning(s) {
      InsertedBehind(s.ready, s.current, PriorityOf(s.procs), i);
      assert MakeReady(s, s.current).ready[0] in MakeReady(s, s.current).ready;
      MakeReadyWf(s, s.current);
    }
  }

  /** Where a READY process stands after a step that lets nobody overtake it. */
  lemma StepMoves(s: Sys, step: Step, i: nat)
    requires Inv(s) && Enabled(s, step) && i < |s.ready|
    requires NoOvertaking(s, step, Priority(s, s.ready[i]))
    ensures var (t, q) := (Apply(s, step), s.ready[i]);
      if !Schedules(s, step) then i < |t.ready| && t.ready[i] == q
      else if i == 0 then t.current == q && IsRunning(t) && !t.idle
      else i - 1 < |t.ready| && t.ready[i - 1] == q
  {
    var q := s.ready[i];
    assert q in s.ready;
    match step
    case Create(priority, deadline, timeToRun, alloc, junk) =>
      if alloc.Enough? {
        LinkInMoves(s, NewPcb(junk, s.nextPid, priority, deadline, timeToRun), i);
      }
    case Fork(alloc, junk) =>
      if alloc.Enough? {
        LinkInMoves(s, ChildPcb(junk, s.nextPid, s.current, s.procs[s.current].priority), i);
      }
    case Resume =>
    case Wait =>
      FindFinds(s, s.current);
      if Schedules(s, step) {
        BlockCore(s);
        ScheduleMovesUp(s.(procs := s.procs[s.current := s.procs[s.current].(state := Blocked, resume := InWait)]), i);
      }
    case Exit(status) => ExitMoves(s, status, i);
    case Yield => ScheduleMovesUp(s, i);
    case Quit =>
      QuitCore(s);
      ScheduleMovesUp(s.(procs := SetState(s.procs, s.current, State.Exit)), i);
    case Dispatch => ScheduleMovesUp(s, i);
  }

  lemma LinkInMoves(s: Sys, p: Pcb, i: nat)
    requires Inv(s) && i < |s.ready| && Priority(s, s.ready[i]) <= p.priority
    ensures i < |LinkIn(s, p).ready| && LinkIn(s, p).ready[i] == s.ready[i]
  {
    var key := PriorityOf(s.procs + [p]);
    assert s.ready[i] in s.ready;
    SortedSame(s.ready, PriorityOf(s.procs), key);
    InsertedBehind(s.ready, |s.procs|, key, i);
  }

  lemma ExitMoves(s: Sys, status: int, i: nat)
    requires Inv(s) && Enabled(s, Step.Exit(status)) && i < |s.ready|
    requires NoOvertaking(s, Step.Exit(status), Priority(s, s.ready[i]))
    ensures var (t, q) := (ExitStep(s, status), s.ready[i]);
      if i == 0 then t.current == q && IsRunning(t) && !t.idle else i - 1 < |t.ready| && t.ready[i - 1] == q
  {
    BecomeZombieWf(s, status);
    BecomeZombieCore(s, status);
    var m := s.procs[s.current := s.procs[s.current].(exitStatus := status, state := Zombie)];
    var p := m[s.current].parent;
    assert s.ready[i] in s.ready;
    SortedSame(s.ready, PriorityOf(s.procs), PriorityOf(m));
    if p != NIL && m[p].state.Blocked? {
      InsertedBehind(s.ready, p, PriorityOf(m), i);
    }
    ScheduleMovesUp(BecomeZombie(s, status), i);
  }

  // ---------- Runs ----------

  /** Step `k` calls schedule. */
  ghost predicate CallsSchedule(run: seq<Sys>, steps: seq<Step>, k: nat)
    requires IsRun(run, steps) && k < |steps|
  {
    assert NextAt(run, steps, k);
    Schedules(run[k], steps[k])
  }

  /** How many of the steps from `a` to `b` call schedule. */
  ghost function Count(run: seq<Sys>, steps: seq<Step>, a: nat, b: nat): nat
    requires IsRun(run, steps) && a <= b <= |steps|
  {
    if a == b then 0 else Count(run, steps, a, b - 1) + if CallsSchedule(run, steps, b - 1) then 1 else 0
  }

  /** Step `k` enqueues nobody with a higher priority than `bound`. */
  ghost predicate Unhurried(run: seq<Sys>, steps: seq<Step>, k: nat, bound: int)
    requires IsRun(run, steps) && k < |steps|
  {
    assert NextAt(run, steps, k);
    NoOvertaking(run[k], steps[k], bound)
  }

  ghost predicate Undisturbed(run: seq<Sys>, steps: seq<Step>, a: nat, b: nat, bound: int)
    requires IsRun(run, steps) && a <= b <= |steps|
  {
    forall k :: a <= k < b ==> Unhurried(run, steps, k, bound)
  }

  /** Priorities never change. */
  lemma {:induction false} PriorityFixed(run: seq<Sys>, steps: seq<Step>, a: nat, b: nat, q: Ptr)
    requires IsRun(run, steps) && a <= b < |run| && Has(run[a].procs, q)
    ensures Has(run[b].procs, q) && Priority(run[b], q) == Priority(run[a], q)
    decreases b
  {
    if a < b {
      PriorityFixed(run, steps, a, b - 1, q);
      RunInv(run, steps, b - 1);
      assert NextAt(run, steps, b - 1);
      StepPriority(run[b - 1], steps[b - 1], q);
    }
  }

  lemma StepPriority(s: Sys, step: Step, q: Ptr)
    requires Inv(s) && Enabled(s, step) && Has(s.procs, q)
    ensures Has(Apply(s, step).procs, q) && Priority(Apply(s, step), q) == Priority(s, q)
  {
    match step
    case Wait =>
      FindFinds(s, s.current);
      if Schedules(s, step) {
        BlockCore(s);
        SchedulePriority(s.(procs := s.procs[s.current := s.procs[s.current].(state := Blocked, resume := InWait)]), q);
      }
    case Exit(status) =>
      BecomeZombieWf(s, status);
      SchedulePriority(BecomeZombie(s, status), q);
    case Yield => SchedulePriority(s, q);
    case Quit =>
      QuitCore(s);
      SchedulePriority(s.(procs := SetState(s.procs, s.current, State.Exit)), q);
    case Dispatch => SchedulePriority(s, q);
    case _ =>
  }

  lemma SchedulePriority(s: Sys, q: Ptr)
    requires Wf(s) && Has(s.procs, q)
    ensures Has(Schedule(s).procs, q) && Priority(Schedule(s), q) == Priority(s, q)
  {
    var t := if IsRunning(s) then MakeReady(s, s.current) else s;
    if IsRunning(s) {
      MakeReadyWf(s, s.current);
    }
    assert t.ready != [] ==> t.ready[0] in t.ready;
  }

  /** Where the process at position `i` is after a step. */
  ghost predicate Moved(s: Sys, schedules: bool, t: Sys, i: nat)
    requires i < |s.ready|
  {
    var q := s.ready[i];
    if !schedules then i < |t.ready| && t.ready[i] == q
    else if i == 0 then t.current == q && IsRunning(t) && !t.idle
    else i - 1 < |t.ready| && t.ready[i - 1] == q
  }

  /** One step of a run. */
  lemma RunStep(run: seq<Sys>, steps: seq<Step>, a: nat, k: nat, q: Ptr, i: nat)
    requires IsRun(run, steps) && a <= k < |steps| && Has(run[a].procs, q)
    requires i < |run[k].ready| && run[k].ready[i] == q
    requires Unhurried(run, steps, k, Priority(run[a], q))
    ensures Moved(run[k], CallsSchedule(run, steps, k), run[k + 1], i)
  {
    RunInv(run, steps, k);
    PriorityFixed(run, steps, a, k, q);
    assert NextAt(run, steps, k);
    StepMoves(run[k], steps[k], i);
  }

  /** `q` waits at position `i`. */
  ghost predicate Stands(s: Sys, q: Ptr, i: nat) {
    i < |s.ready| && s.ready[i] == q
  }

  lemma StandsStep(run: seq<Sys>, steps: seq<Step>, a: nat, k: nat, q: Ptr, i: nat)
    requires IsRun(run, steps) && a <= k < |steps| && Has(run[a].procs, q) && Stands(run[k], q, i)
    requires Unhurried(run, steps, k, Priority(run[a], q))
    ensures !CallsSchedule(run, steps, k) ==> Stands(run[k + 1], q, i)
    ensures CallsSchedule(run, steps, k) && i > 0 ==> Stands(run[k + 1], q, i - 1)
  {
    RunStep(run, steps, a, k, q, i);
  }

  /** After `k` calls of schedule a process has moved up by exactly `k` places. */
  lemma {:induction false} MovesUp(run: seq<Sys>, steps: seq<Step>, a: nat, b: nat, q: Ptr, i: nat)
    requires IsRun(run, steps) && a <= b <= |steps| && Has(run[a].procs, q) && Stands(run[a], q, i)
    requires Undisturbed(run, steps, a, b, Priority(run[a], q))
    requires Count(run, steps, a, b) <= i
    ensures Stands(run[b], q, i - Count(run, steps, a, b))
    decreases b
  {
    if a < b {
      Front(run, steps, a, b - 1, Priority(run[a], q));
      MovesUp(run, steps, a, b - 1, q, i);
      StandsStep(run, steps, a, b - 1, q, i - Count(run, steps, a, b - 1));
    }
  }

  lemma Front(run: seq<Sys>, steps: seq<Step>, a: nat, b: nat, bound: int)
    requires IsRun(run, steps) && a <= b < |steps| && Undisturbed(run, steps, a, b + 1, bound)
    ensures Undisturbed(run, steps, a, b, bound) && Unhurried(run, steps, b, bound)
  {
  }

  /** A process at position `i` runs at the (i+1)-th call of schedule. */
  lemma BoundedWaiting(run: seq<Sys>, steps: seq<Step>, a: nat, b: nat, q: Ptr, i: nat)
    requires IsRun(run, steps) && a <= b < |steps| && Has(run[a].procs, q) && Stands(run[a], q, i)
    requires Undisturbed(run, steps, a, b + 1, Priority(run[a], q))
    requires Count(run, steps, a, b) == i && CallsSchedule(run, steps, b)
    ensures run[b + 1].current == q && IsRunning(run[b + 1]) && !run[b + 1].idle
  {
    Front(run, steps, a, b, Priority(run[a], q));
    MovesUp(run, steps, a, b, q, i);
    RunStep(run, steps, a, b, q, 0);
  }

  // ---------- Round robin ----------

  /** The running process and those that wait, in the order of their turns. */
  ghost function Ring(s: Sys): seq<Ptr> {
    [s.current] + s.ready
  }

  /** Everybody has the same priority. */
  ghost predicate Peers(s: Sys) {
    Inv(s) && !s.idle && forall p :: p in s.ready ==> s.procs[p].priority == s.procs[s.current].priority
  }

  /** Among peers, a yield passes the turn on. */
  lemma YieldRotates(s: Sys)
    requires Peers(s)
    ensures Peers(Schedule(s)) && Ring(Schedule(s)) == Ring(s)[1..] + [Ring(s)[0]]
  {
    JoinsLast(s);
    MakeReadyWf(s, s.current);
    ScheduleInv(s);
    SamePriorities(s, Schedule(s));
    RingTurns(s.current, s.ready);
  }

  /** Among peers, a process that becomes ready goes to the end. */
  lemma JoinsLast(s: Sys)
    requires Peers(s)
    ensures MakeReady(s, s.current).ready == s.ready + [s.current]
  {
    var key := PriorityOf(s.procs);
    forall k | 0 <= k < |s.ready| ensures key(s.ready[k]) <= key(s.current) {
      assert s.ready[k] in s.ready;
    }
    S.InsertAt(s.ready, s.current, key, |s.ready|);
  }

  lemma SamePriorities(s: Sys, t: Sys)
    requires Peers(s) && t == Schedule(s) && Inv(t)
    requires MakeReady(s, s.current).ready == s.ready + [s.current]
    ensures Peers(t) && t.current == (s.ready + [s.current])[0] && t.ready == (s.ready + [s.current])[1..]
  {
    MakeReadyWf(s, s.current);
    forall p | Has(s.procs, p) ensures Has(t.procs, p) && t.procs[p].priority == s.procs[p].priority {
      SchedulePriority(s, p);
    }
    forall p | p in s.ready + [s.current] ensures Has(s.procs, p) && s.procs[p].priority == s.procs[s.current].priority {
    }
    assert t.current in s.ready + [s.current];
    assert forall p :: p in t.ready ==> p in s.ready + [s.current];
  }

  lemma RingTurns(c: Ptr, r: seq<Ptr>)
    ensures [(r + [c])[0]] + (r + [c])[1..] == ([c] + r)[1..] + [([c] + r)[0]]
  {
  }

  /** The state after `k` yields. */
  ghost function Yields(s: Sys, k: nat): (t: Sys)
    requires Peers(s)
    ensures Peers(t)
  {
    if k == 0 then s else
      YieldRotates(Yields(s, k - 1));
      Schedule(Yields(s, k - 1))
  }

  /** Peers that only yield run round-robin: after `k` yields the ring has turned by `k`, so each
      process runs once in every round. */
  lemma {:induction false} RoundRobin(s: Sys, k: nat)
    requires Peers(s) && k <= |Ring(s)|
    ensures Ring(Yields(s, k)) == Ring(s)[k..] + Ring(s)[..k]
    ensures k < |Ring(s)| ==> Yields(s, k).current == Ring(s)[k]
  {
    if k > 0 {
      RoundRobin(s, k - 1);
      YieldRotates(Yields(s, k - 1));
      RotateOnce(Ring(s), k);
    }
  }

  lemma RotateOnce(r: seq<Ptr>, k: nat)
    requires 0 < k <= |r|
    ensures var t := r[k - 1..] + r[..k - 1]; t[1..] + [t[0]] == r[k..] + r[..k]
  {
    assert r[k - 1..] + r[..k - 1] == [r[k - 1]] + (r[k..] + r[..k - 1]);
    assert r[..k] == r[..k - 1] + [r[k - 1]];
  }
}
