/** First come, first served: in every run, the ready queue is ordered by priority and then by
    arrival. */
module LifecycleFifo {
  import opened Pointers
  import opened ProcessQueue
  import opened Lifecycle
  import opened LifecycleSafety
  import opened LifecycleWaiting
  import S = StableQueue

  /** What a step does to the ready queue `q`: somebody who is not in it may come, at the end of
      everybody at least as urgent, and then the front may leave. */
  ghost predicate QueueStep(q: seq<Ptr>, q': seq<Ptr>, key: Ptr -> int) {
    || S.Left(q, q')
    || exists x :: x !in q && S.Left(S.Insert(q, x, key), q')
  }

  lemma ScheduleQueue(s: Sys)
    requires Core(s)
    ensures QueueStep(s.ready, Schedule(s).ready, PriorityOf(Schedule(s).procs))
  {
    if IsRunning(s) {
      MakeReadyWf(s, s.current);
      SameKeys(s, Schedule(s), s.current);
    }
  }

  /** Where an insertion goes depends only on the priorities of those that are there. */
  lemma SameKeys(s: Sys, t: Sys, x: Ptr)
    requires Wf(s) && Has(s.procs, x) && |s.procs| <= |t.procs|
    requires forall p :: Has(s.procs, p) ==> t.procs[p].priority == s.procs[p].priority
    ensures S.Insert(s.ready, x, PriorityOf(t.procs)) == S.Insert(s.ready, x, PriorityOf(s.procs))
  {
    S.InsertSameKeys(s.ready, x, PriorityOf(s.procs), PriorityOf(t.procs));
  }

  lemma LinkInStep(s: Sys, p: Pcb)
    requires Wf(s)
    ensures QueueStep(s.ready, LinkIn(s, p).ready, PriorityOf(LinkIn(s, p).procs))
  {
    assert |s.procs| !in s.ready;
    assert S.Left(S.Insert(s.ready, |s.procs|, PriorityOf(LinkIn(s, p).procs)), LinkIn(s, p).ready);
  }

  lemma BlockStep(s: Sys)
    requires Inv(s) && Enabled(s, Wait)
    ensures QueueStep(s.ready, WaitStep(s).ready, PriorityOf(WaitStep(s).procs))
  {
    FindFinds(s, s.current);
    if FindZombie(s.procs, s.table, s.current) == |s.table| {
      BlockCore(s);
      ScheduleQueue(s.(procs := s.procs[s.current := s.procs[s.current].(state := Blocked, resume := InWait)]));
    }
  }

  lemma ExitQueue(s: Sys, status: int)
    requires Inv(s) && Enabled(s, Step.Exit(status))
    ensures QueueStep(s.ready, ExitStep(s, status).ready, PriorityOf(ExitStep(s, status).procs))
  {
    BecomeZombieWf(s, status);
    var z, t := BecomeZombie(s, status), ExitStep(s, status);
    assert S.Left(z.ready, t.ready);
    if z.ready != s.ready {
      var p := s.procs[s.current].parent;
      var m := s.procs[s.current := s.procs[s.current].(exitStatus := status, state := Zombie)];
      assert z.ready == S.Insert(s.ready, p, PriorityOf(m));
      SchedulePriorities(z);
      SameKeys(s.(procs := m), t, p);
    }
  }

  lemma SchedulePriorities(s: Sys)
    requires Wf(s)
    ensures |Schedule(s).procs| == |s.procs|
    ensures forall p :: Has(s.procs, p) ==> Schedule(s).procs[p].priority == s.procs[p].priority
  {
    forall p | Has(s.procs, p) ensures Schedule(s).procs[p].priority == s.procs[p].priority {
      SchedulePriority(s, p);
    }
    if IsRunning(s) {
      MakeReadyWf(s, s.current);
    }
  }

  lemma StepQueue(s: Sys, step: Step)
    requires Inv(s) && Enabled(s, step)
    ensures var t := Apply(s, step); QueueStep(s.ready, t.ready, PriorityOf(t.procs))
  {
    match step
    case Create(priority, deadline, timeToRun, alloc, junk) =>
      if alloc.Enough? {
        LinkInStep(s, NewPcb(junk, s.nextPid, priority, deadline, timeToRun));
      }
    case Fork(alloc, junk) =>
      if alloc.Enough? {
        LinkInStep(s, ChildPcb(junk, s.nextPid, s.current, s.procs[s.current].priority));
      }
    case Wait => BlockStep(s);
    case Resume =>
    case Exit(status) => ExitQueue(s, status);
    case Yield => ScheduleQueue(s);
    case Quit =>
      QuitCore(s);
      ScheduleQueue(s.(procs := SetState(s.procs, s.current, State.Exit)));
    case Dispatch => ScheduleQueue(s);
  }

  // ---------- Runs ----------

  /** The last state up to state `b` in which `p` was not in the ready queue, or -1. */
  ghost function LastAbsent(run: seq<Sys>, b: nat, p: Ptr): int
    requires b < |run|
  {
    if p !in run[b].ready then b else if b == 0 then -1 else LastAbsent(run, b - 1, p)
  }

  /** When `p` came into the ready queue of state `b`. */
  ghost function Arrival(run: seq<Sys>, b: nat): Ptr -> int
    requires b < |run|
  {
    p => LastAbsent(run, b, p)
  }

  lemma {:induction false} ArrivedBefore(run: seq<Sys>, b: nat, p: Ptr)
    requires b < |run|
    ensures LastAbsent(run, b, p) <= b && (p in run[b].ready ==> LastAbsent(run, b, p) < b)
  {
    if b > 0 {
      ArrivedBefore(run, b - 1, p);
    }
  }

  lemma CameFifo(q: seq<Ptr>, x: Ptr, key: Ptr -> int, was: Ptr -> int, arr: Ptr -> int)
    requires S.Fifo(q, key, was) && x !in q
    requires forall y :: y in q ==> arr(y) == was(y) && was(y) < arr(x)
    ensures S.Fifo(S.Insert(q, x, key), key, arr)
  {
    forall y | y in q ensures arr(y) == was(y) && arr(y) < arr(x) {
    }
    S.FifoSame(q, key, was, arr);
    S.FifoKept(q, x, key, arr);
  }

  /** Order by priority and arrival survives one step, when newcomers arrive at time `now`. */
  lemma FifoStep(q: seq<Ptr>, q': seq<Ptr>, key: Ptr -> int, key': Ptr -> int, was: Ptr -> int, arr: Ptr -> int, now: int)
    requires S.Fifo(q, key, was) && QueueStep(q, q', key')
    requires forall y :: y in q ==> key'(y) == key(y) && was(y) < now
    requires forall y :: y in q' ==> arr(y) == if y in q then was(y) else now
    ensures S.Fifo(q', key', arr)
  {
    SameFifo(q, key, key', was);
    if S.Left(q, q') {
      forall y | y in q' && y in q ensures arr(y) == was(y) {
      }
      S.FifoLeft(q, q', key', was, arr);
    } else {
      var x :| x !in q && S.Left(S.Insert(q, x, key'), q');
      var mid := (y: Ptr) => if y == x then now else was(y);
      S.InsertElements(q, x, key');
      CameFifo(q, x, key', was, mid);
      S.FifoLeft(S.Insert(q, x, key'), q', key', mid, arr);
    }
  }

  lemma SameFifo(q: seq<Ptr>, key: Ptr -> int, key': Ptr -> int, was: Ptr -> int)
    requires S.Fifo(q, key, was) && forall y :: y in q ==> key'(y) == key(y)
    ensures S.Fifo(q, key', was)
  {
    forall i, j | 0 <= i < j < |q|
      ensures key'(q[i]) < key'(q[j]) || (key'(q[i]) == key'(q[j]) && was(q[i]) < was(q[j]))
    {
      var a, b := q[i], q[j];
      assert a in q && b in q;
      assert key'(a) == key(a) && key'(b) == key(b);
    }
  }

  /** In every run, at every step boundary, the ready queue is ordered by priority and, among equal
      priorities, by arrival. */
  lemma {:induction false} ReadyIsFifo(run: seq<Sys>, steps: seq<Step>, b: nat)
    requires IsRun(run, steps) && b < |run|
    ensures S.Fifo(run[b].ready, PriorityOf(run[b].procs), Arrival(run, b))
  {
    if b > 0 {
      var s, t := run[b - 1], run[b];
      ReadyIsFifo(run, steps, b - 1);
      RunInv(run, steps, b - 1);
      assert NextAt(run, steps, b - 1);
      StepQueue(s, steps[b - 1]);
      forall y | y in s.ready ensures PriorityOf(t.procs)(y) == PriorityOf(s.procs)(y) && Arrival(run, b - 1)(y) < b - 1 {
        StepPriority(s, steps[b - 1], y);
        ArrivedBefore(run, b - 1, y);
      }
      FifoStep(s.ready, t.ready, PriorityOf(s.procs), PriorityOf(t.procs), Arrival(run, b - 1), Arrival(run, b), b - 1);
    }
  }
}
