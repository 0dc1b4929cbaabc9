/** The linked-list run queues of process/process.c: enqueue_process, its EDF and SJF variants,
    and dequeue_process. */
module ProcessQueue {
  import opened Pointers
  import S = StableQueue

  /** The STATE_ constants of process/process.h. */
  datatype State = Ready | Running | Blocked | New | Exit | Zombie

  /** Where a process goes on when it is scheduled: in its own code, or in wait_syscall behind the
      call of yield_syscall.  This stands for the saved stack. */
  datatype Resume = InUser | InWait

  /** struct PCB. */
  datatype Pcb = Pcb(
    pid: nat, state: State, priority: int, deadline: int, timeToRun: int,
    next: Ptr, nextInTable: Ptr, parent: Ptr,
    exitStatus: int, isNewChild: bool, resume: Resume)

  type Pcbs = seq<Pcb>

  predicate Has(m: Pcbs, p: Ptr) {
    0 <= p < |m|
  }

  function PriorityOf(m: Pcbs): Ptr -> int {
    p => if Has(m, p) then m[p].priority else 0
  }

  function DeadlineOf(m: Pcbs): Ptr -> int {
    p => if Has(m, p) then m[p].deadline else 0
  }

  function TimeToRunOf(m: Pcbs): Ptr -> int {
    p => if Has(m, p) then m[p].timeToRun else 0
  }

  /** What follows position `i` of `s`. */
  function NextIn(s: seq<Ptr>, i: nat): Ptr {
    if i + 1 < |s| then s[i + 1] else NIL
  }

  /** `front` and `rear` are the ends of a null-terminated, acyclic list of the PCBs `s`. */
  ghost predicate IsQueue(m: Pcbs, front: Ptr, rear: Ptr, s: seq<Ptr>) {
    && S.Distinct(s)
    && (forall i :: 0 <= i < |s| ==> Has(m, s[i]) && m[s[i]].next == NextIn(s, i))
    && front == (if s == [] then NIL else s[0])
    && rear == (if s == [] then NIL else s[|s| - 1])
  }

  /** Only `next` links differ. */
  ghost predicate SameButNext(m: Pcbs, m': Pcbs) {
    |m'| == |m| && forall p :: Has(m, p) ==> m'[p] == m[p].(next := m'[p].next)
  }

  lemma PushFront(m: Pcbs, front: Ptr, rear: Ptr, s: seq<Ptr>, p: Ptr)
    requires IsQueue(m, front, rear, s) && Has(m, p) && p !in s
    ensures IsQueue(m[p := m[p].(next := front)], p, if s == [] then p else rear, [p] + s)
  {
  }

  /** From `m` to `m'`, `p` was linked in behind `s[i]`. */
  ghost predicate LinkedBehind(m: Pcbs, m': Pcbs, s: seq<Ptr>, p: Ptr, i: nat)
    requires i < |s|
  {
    && SameButNext(m, m') && Has(m, p)
    && m'[p].next == NextIn(s, i)
    && (Has(m, s[i]) ==> m'[s[i]].next == p)
    && forall x :: Has(m, x) && x != p && x != s[i] ==> m'[x] == m[x]
  }

  lemma LinkBehindAt(m: Pcbs, m': Pcbs, front: Ptr, rear: Ptr, s: seq<Ptr>, p: Ptr, i: nat, a: nat)
    requires IsQueue(m, front, rear, s) && p !in s && i < |s| && LinkedBehind(m, m', s, p, i)
    requires a <= |s|
    ensures var r := s[..i + 1] + [p] + s[i + 1..]; Has(m', r[a]) && m'[r[a]].next == NextIn(r, a)
  {
    var r := s[..i + 1] + [p] + s[i + 1..];
    if a == i + 1 {
      assert r[a] == p;
    } else {
      var k := if a <= i then a else a - 1;
      assert r[a] == s[k];
      assert k != i ==> s[k] != s[i];
      assert k != i && k + 1 < |s| ==> r[a + 1] == s[k + 1];
    }
  }

  /** `p` is linked in behind position `i`. */
  lemma LinkBehind(m: Pcbs, m': Pcbs, front: Ptr, rear: Ptr, s: seq<Ptr>, p: Ptr, i: nat)
    requires IsQueue(m, front, rear, s) && p !in s && i < |s| && LinkedBehind(m, m', s, p, i)
    ensures IsQueue(m', front, if i + 1 == |s| then p else rear, s[..i + 1] + [p] + s[i + 1..])
  {
    var r := s[..i + 1] + [p] + s[i + 1..];
    S.DistinctWith(s, p, i + 1);
    forall a | 0 <= a < |r| ensures Has(m', r[a]) && m'[r[a]].next == NextIn(r, a) {
      LinkBehindAt(m, m', front, rear, s, p, i, a);
    }
  }

  /** Where a process goes by its priority. */
  lemma PriorityPlace(m: Pcbs, s: seq<Ptr>, p: Ptr)
    requires Has(m, p) && forall k :: 0 <= k < |s| ==> Has(m, s[k])
    ensures exists i :: 0 <= i <= |s| && S.Insert(s, p, PriorityOf(m)) == s[..i] + [p] + s[i..] &&
                        (forall k :: 0 <= k < i ==> m[s[k]].priority <= m[p].priority) &&
                        (i < |s| ==> m[p].priority < m[s[i]].priority)
  {
    var i := S.InsertPosition(s, p, PriorityOf(m));
    assert forall k :: 0 <= k < i ==> PriorityOf(m)(s[k]) <= PriorityOf(m)(p);
  }

  /** Where a process goes by its deadline. */
  lemma DeadlinePlace(m: Pcbs, s: seq<Ptr>, p: Ptr)
    requires Has(m, p) && forall k :: 0 <= k < |s| ==> Has(m, s[k])
    ensures exists i :: 0 <= i <= |s| && S.Insert(s, p, DeadlineOf(m)) == s[..i] + [p] + s[i..] &&
                        (forall k :: 0 <= k < i ==> m[s[k]].deadline <= m[p].deadline) &&
                        (i < |s| ==> m[p].deadline < m[s[i]].deadline)
  {
    var i := S.InsertPosition(s, p, DeadlineOf(m));
    assert forall k :: 0 <= k < i ==> DeadlineOf(m)(s[k]) <= DeadlineOf(m)(p);
  }

  /** Where a process goes by its time_to_run. */
  lemma TimeToRunPlace(m: Pcbs, s: seq<Ptr>, p: Ptr)
    requires Has(m, p) && forall k :: 0 <= k < |s| ==> Has(m, s[k])
    ensures exists i :: 0 <= i <= |s| && S.Insert(s, p, TimeToRunOf(m)) == s[..i] + [p] + s[i..] &&
                        (forall k :: 0 <= k < i ==> m[s[k]].timeToRun <= m[p].timeToRun) &&
                        (i < |s| ==> m[p].timeToRun < m[s[i]].timeToRun)
  {
    var i := S.InsertPosition(s, p, TimeToRunOf(m));
    assert forall k :: 0 <= k < i ==> TimeToRunOf(m)(s[k]) <= TimeToRunOf(m)(p);
  }

  /** The PCBs in memory. */
  class PcbMemory {
    var pcb: Pcbs

    constructor (pcb: Pcbs)
      ensures this.pcb == pcb
    {
      this.pcb := pcb;
    }
  }

  /** struct ProcessQueue; `contents` is what the list holds. */
  class ProcessQueue {
    var front: Ptr
    var rear: Ptr
    ghost var contents: seq<Ptr>

    /** initialize_queue */
    constructor ()
      ensures front == NIL && rear == NIL && contents == []
      ensures forall m :: IsQueue(m, front, rear, contents)
    {
      front, rear, contents := NIL, NIL, [];
    }

    ghost predicate Valid(mem: PcbMemory)
      reads this, mem
    {
      IsQueue(mem.pcb, front, rear, contents)
    }

    /** The first two cases of all enqueue functions: the list is empty, or `process` goes before
        the front. */
    method LinkFront(mem: PcbMemory, process: Ptr)
      requires Valid(mem) && Has(mem.pcb, process) && process !in contents
      modifies this, mem
      ensures Valid(mem) && SameButNext(old(mem.pcb), mem.pcb)
      ensures contents == [process] + old(contents)
    {
      PushFront(mem.pcb, front, rear, contents, process);
      mem.pcb := mem.pcb[process := mem.pcb[process].(next := front)];
      if front == NIL {
        rear := process;
      }
      front := process;
      contents := [process] + contents;
    }

    /** The end of all enqueue functions: `process` is linked in behind `current`. */
    method LinkAfter(mem: PcbMemory, process: Ptr, current: Ptr, ghost i: nat)
      requires Valid(mem) && Has(mem.pcb, process) && process !in contents
      requires i < |contents| && contents[i] == current
      modifies this, mem
      ensures Valid(mem) && SameButNext(old(mem.pcb), mem.pcb)
      ensures contents == old(contents[..i + 1]) + [process] + old(contents[i + 1..])
    {
      mem.pcb := mem.pcb[process := mem.pcb[process].(next := mem.pcb[current].next)];
      mem.pcb := mem.pcb[current := mem.pcb[current].(next := process)];
      LinkBehind(old(mem.pcb), mem.pcb, front, rear, contents, process, i);
      if mem.pcb[process].next == NIL {
        rear := process;
      }
      contents := contents[..i + 1] + [process] + contents[i + 1..];
    }

    /** enqueue_process: by priority, where a smaller number goes first. */
    method Enqueue(mem: PcbMemory, process: Ptr)
      requires Valid(mem) && Has(mem.pcb, process) && process !in contents
      modifies this, mem
      ensures Valid(mem) && SameButNext(old(mem.pcb), mem.pcb)
      ensures contents == S.Insert(old(contents), process, PriorityOf(old(mem.pcb)))
    {
      if front == NIL || mem.pcb[process].priority < mem.pcb[front].priority {
        LinkFront(mem, process);
        return;
      }
      var current := front;
      ghost var i := 0;
      while mem.pcb[current].next != NIL && mem.pcb[mem.pcb[current].next].priority <= mem.pcb[process].priority
        invariant i < |contents| && current == contents[i]
        invariant forall k :: 0 <= k <= i ==> mem.pcb[contents[k]].priority <= mem.pcb[process].priority
        decreases |contents| - i
      {
        current := mem.pcb[current].next;
        i := i + 1;
      }
      S.InsertAt(contents, process, PriorityOf(mem.pcb), i + 1);
      LinkAfter(mem, process, current, i);
    }

    /** enqueue_process_edf: by deadline. */
    method EnqueueEdf(mem: PcbMemory, process: Ptr)
      requires Valid(mem) && Has(mem.pcb, process) && process !in contents
      modifies this, mem
      ensures Valid(mem) && SameButNext(old(mem.pcb), mem.pcb)
      ensures contents == S.Insert(old(contents), process, DeadlineOf(old(mem.pcb)))
    {
      if front == NIL || mem.pcb[process].deadline < mem.pcb[front].deadline {
        LinkFront(mem, process);
        return;
      }
      var current := front;
      ghost var i := 0;
      while mem.pcb[current].next != NIL && mem.pcb[mem.pcb[current].next].deadline <= mem.pcb[process].deadline
        invariant i < |contents| && current == contents[i]
        invariant forall k :: 0 <= k <= i ==> mem.pcb[contents[k]].deadline <= mem.pcb[process].deadline
        decreases |contents| - i
      {
        current := mem.pcb[current].next;
        i := i + 1;
      }
      S.InsertAt(contents, process, DeadlineOf(mem.pcb), i + 1);
      LinkAfter(mem, process, current, i);
    }

    /** enqueue_process_sjf: by time_to_run. */
    method EnqueueSjf(mem: PcbMemory, process: Ptr)
      requires Valid(mem) && Has(mem.pcb, process) && process !in contents
      modifies this, mem
      ensures Valid(mem) && SameButNext(old(mem.pcb), mem.pcb)
      ensures contents == S.Insert(old(contents), process, TimeToRunOf(old(mem.pcb)))
    {
      if front == NIL || mem.pcb[process].timeToRun < mem.pcb[front].timeToRun {
        LinkFront(mem, process);
        return;
      }
      var current := front;
      ghost var i := 0;
      while mem.pcb[current].next != NIL && mem.pcb[mem.pcb[current].next].timeToRun <= mem.pcb[process].timeToRun
        invariant i < |contents| && current == contents[i]
        invariant forall k :: 0 <= k <= i ==> mem.pcb[contents[k]].timeToRun <= mem.pcb[process].timeToRun
        decreases |contents| - i
      {
        current := mem.pcb[current].next;
        i := i + 1;
      }
      S.InsertAt(contents, process, TimeToRunOf(mem.pcb), i + 1);
      LinkAfter(mem, process, current, i);
    }

    /** dequeue_process: the front leaves, with its link cleared. */
    method Dequeue(mem: PcbMemory) returns (process: Ptr)
      requires Valid(mem)
      modifies this, mem
      ensures Valid(mem) && SameButNext(old(mem.pcb), mem.pcb)
      ensures old(contents) == [] ==> process == NIL && contents == []
      ensures old(contents) != [] ==>
        && process == old(contents)[0] && contents == old(contents)[1..]
        && Has(mem.pcb, process) && mem.pcb[process].next == NIL
    {
      if front == NIL {
        return NIL;
      }
      process := front;
      front := mem.pcb[front].next;
      if front == NIL {
        rear := NIL;
      }
      mem.pcb := mem.pcb[process := mem.pcb[process].(next := NIL)];
      contents := contents[1..];
    }
  }
}
