/** The fast run queue refines the simple one: on any operations, the CFS tree of cfs_enqueue and
    cfs_dequeue_min returns the same processes as the sorted list of enqueue_process and
    dequeue_process. */
module RunQueues {
  import opened Pointers
  import opened ProcessQueue
  import S = StableQueue
  import Cfs

  type Op = S.Op<Ptr>

  /** The operations name PCBs that exist. */
  ghost predicate Within(ops: seq<Op>, size: nat) {
    forall i :: 0 <= i < |ops| && ops[i].Enqueue? ==> 0 <= ops[i].x < size
  }

  lemma {:induction false} RunSameKeys(s: seq<Ptr>, ops: seq<Op>, key: Ptr -> int, key': Ptr -> int)
    requires forall x :: key'(x) == key(x)
    ensures S.Run(s, ops, key') == S.Run(s, ops, key)
    ensures S.Output(s, ops, key', NIL) == S.Output(s, ops, key, NIL)
    decreases |ops|
  {
    if ops != [] {
      RunSameKeys(s, ops[..|ops| - 1], key, key');
      if ops[|ops| - 1].Enqueue? {
        S.InsertSameKeys(S.Run(s, ops[..|ops| - 1], key), ops[|ops| - 1].x, key, key');
      }
    }
  }

  /** One more operation. */
  lemma RunStep(s: seq<Ptr>, ops: seq<Op>, i: nat, key: Ptr -> int)
    requires i < |ops|
    ensures var r := S.Run(s, ops[..i], key);
      && S.Run(s, ops[..i + 1], key) == (if ops[i].Enqueue? then S.Insert(r, ops[i].x, key) else if r == [] then [] else r[1..])
      && S.Output(s, ops[..i + 1], key, NIL) == S.Output(s, ops[..i], key, NIL)
         + (if ops[i].Enqueue? then [] else if r == [] then [NIL] else [r[0]])
  {
    var t := ops[..i + 1];
    assert t[..|t| - 1] == ops[..i];
  }

  method ReplayTree(q: Cfs.RunQueue, ops: seq<Op>) returns (out: seq<Ptr>)
    requires q.Valid() && Within(ops, |q.vruntime|) && S.Legal(q.Contents(), ops, q.Key())
    modifies q, q.root
    ensures q.Valid() && q.Contents() == S.Run(old(q.Contents()), ops, q.Key())
    ensures out == S.Output(old(q.Contents()), ops, q.Key(), NIL)
  {
    out := [];
    ghost var s, key := q.Contents(), q.Key();
    for i := 0 to |ops|
      invariant q.Valid() && q.Contents() == S.Run(s, ops[..i], key)
      invariant out == S.Output(s, ops[..i], key, NIL)
    {
      RunStep(s, ops, i, key);
      match ops[i] {
        case Enqueue(p) =>
          ghost var steps := q.Enqueue(p);
        case DequeueMin =>
          var p;
          ghost var steps;
          p, steps := q.DequeueMin();
          out := out + [p];
      }
    }
    assert ops[..|ops|] == ops;
  }

  /** One operation on the list; `m` is any earlier memory, since the priorities never change. */
  method StepList(q: ProcessQueue, mem: PcbMemory, op: Op, ghost m: Pcbs) returns (out: seq<Ptr>)
    requires q.Valid(mem) && SameButNext(m, mem.pcb)
    requires op.Enqueue? ==> Has(m, op.x) && op.x !in q.contents
    modifies q, mem
    ensures q.Valid(mem) && SameButNext(m, mem.pcb)
    ensures var s := old(q.contents);
      && q.contents == (if op.Enqueue? then S.Insert(s, op.x, PriorityOf(m)) else if s == [] then [] else s[1..])
      && out == (if op.Enqueue? then [] else if s == [] then [NIL] else [s[0]])
  {
    out := [];
    match op {
      case Enqueue(p) =>
        S.InsertSameKeys(q.contents, p, PriorityOf(m), PriorityOf(mem.pcb));
        q.Enqueue(mem, p);
      case DequeueMin =>
        var p := q.Dequeue(mem);
        out := [p];
    }
  }

  method ReplayList(q: ProcessQueue, mem: PcbMemory, ops: seq<Op>) returns (out: seq<Ptr>)
    requires q.Valid(mem) && Within(ops, |mem.pcb|) && S.Legal(q.contents, ops, PriorityOf(mem.pcb))
    modifies q, mem
    ensures q.Valid(mem) && q.contents == S.Run(old(q.contents), ops, PriorityOf(old(mem.pcb)))
    ensures out == S.Output(old(q.contents), ops, PriorityOf(old(mem.pcb)), NIL)
  {
    out := [];
    ghost var s, m := q.contents, mem.pcb;
    for i := 0 to |ops|
      invariant q.Valid(mem) && SameButNext(m, mem.pcb)
      invariant q.contents == S.Run(s, ops[..i], PriorityOf(m))
      invariant out == S.Output(s, ops[..i], PriorityOf(m), NIL)
    {
      RunStep(s, ops, i, PriorityOf(m));
      var o := StepList(q, mem, ops[i], m);
      out := out + o;
    }
    assert ops[..|ops|] == ops;
  }

  /** Starting empty, with vruntimes as priorities, both queues return the same processes. */
  method ReplayBoth(tree: Cfs.RunQueue, list: ProcessQueue, mem: PcbMemory, ops: seq<Op>)
    returns (fromTree: seq<Ptr>, fromList: seq<Ptr>)
    requires tree.Valid() && tree.Contents() == [] && list.Valid(mem) && list.contents == []
    requires |mem.pcb| == |tree.vruntime|
    requires forall p :: Has(mem.pcb, p) ==> mem.pcb[p].priority == tree.vruntime[p]
    requires Within(ops, |mem.pcb|) && S.Legal([], ops, tree.Key())
    modifies tree, tree.root, list, mem
    ensures fromTree == fromList
    ensures tree.Contents() == list.contents && S.Sorted(list.contents, tree.Key())
  {
    ghost var key := PriorityOf(mem.pcb);
    forall i | 0 <= i < |ops| && ops[i].Enqueue? ensures ops[i].x !in S.Run([], ops[..i], key) {
      RunSameKeys([], ops[..i], tree.Key(), key);
    }
    RunSameKeys([], ops, tree.Key(), key);
    fromTree := ReplayTree(tree, ops);
    fromList := ReplayList(list, mem, ops);
  }
}
