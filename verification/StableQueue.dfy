/** A stable priority queue as a sequence: what both run queues of process/process.c compute.

    The head has the smallest key, and equal keys leave in the order they arrived. */
module StableQueue {

  /** `x` goes after every element whose key is at most its own, and before the first larger one. */
  function Insert<T>(s: seq<T>, x: T, key: T -> int): seq<T> {
    if s == [] then [x]
    else if key(x) < key(s[0]) then [x] + s
    else [s[0]] + Insert(s[1..], x, key)
  }

  ghost predicate Sorted<T>(s: seq<T>, key: T -> int) {
    forall i, j :: 0 <= i < j < |s| ==> key(s[i]) <= key(s[j])
  }

  ghost predicate Distinct<T>(s: seq<T>) {
    forall i, j :: 0 <= i < j < |s| ==> s[i] != s[j]
  }

  /** Where the insertion happens: position `i` ends a run of keys not above that of `x`. */
  lemma {:induction false} InsertAt<T>(s: seq<T>, x: T, key: T -> int, i: nat)
    requires i <= |s|
    requires forall k :: 0 <= k < i ==> key(s[k]) <= key(x)
    requires i < |s| ==> key(x) < key(s[i])
    ensures Insert(s, x, key) == s[..i] + [x] + s[i..]
  {
    if i > 0 {
      InsertAt(s[1..], x, key, i - 1);
      assert s[..i] == [s[0]] + s[1..][..i - 1];
      assert s[i..] == s[1..][i - 1..];
    } else if s != [] {
      assert s[..0] + [x] + s[0..] == [x] + s;
    }
  }

  lemma InsertBetween<T>(a: seq<T>, x: T, b: seq<T>, key: T -> int)
    requires forall y :: y in a ==> key(y) <= key(x)
    requires forall y :: y in b ==> key(x) < key(y)
    ensures Insert(a + [] + b, x, key) == a + [x] + b
  {
    var s := a + [] + b;
    assert s[..|a|] == a && s[|a|..] == b;
    InsertAt(s, x, key, |a|);
  }

  /** Every sequence has such a position. */
  lemma {:induction false} InsertPosition<T>(s: seq<T>, x: T, key: T -> int) returns (i: nat)
    ensures i <= |s| && Insert(s, x, key) == s[..i] + [x] + s[i..]
    ensures forall k :: 0 <= k < i ==> key(s[k]) <= key(x)
    ensures i < |s| ==> key(x) < key(s[i])
  {
    i := 0;
    while i < |s| && key(s[i]) <= key(x)
      invariant i <= |s|
      invariant forall k :: 0 <= k < i ==> key(s[k]) <= key(x)
    {
      i := i + 1;
    }
    InsertAt(s, x, key, i);
  }

  /** Exactly `x` is new. */
  lemma {:induction false} InsertElements<T>(s: seq<T>, x: T, key: T -> int)
    ensures |Insert(s, x, key)| == |s| + 1
    ensures multiset(Insert(s, x, key)) == multiset(s) + multiset{x}
    ensures forall y :: y in Insert(s, x, key) <==> y == x || y in s
  {
    if s != [] {
      assert s == [s[0]] + s[1..];
      InsertElements(s[1..], x, key);
    }
  }

  lemma InsertSorted<T>(s: seq<T>, x: T, key: T -> int)
    requires Sorted(s, key)
    ensures Sorted(Insert(s, x, key), key)
  {
    var i := InsertPosition(s, x, key);
  }

  lemma InsertDistinct<T>(s: seq<T>, x: T, key: T -> int)
    requires Distinct(s) && x !in s
    ensures Distinct(Insert(s, x, key))
  {
    var i := InsertPosition(s, x, key);
    DistinctWith(s, x, i);
  }

  lemma DistinctWith<T>(s: seq<T>, x: T, i: nat)
    requires Distinct(s) && x !in s && i <= |s|
    ensures Distinct(s[..i] + [x] + s[i..])
  {
    var r := s[..i] + [x] + s[i..];
    forall a, b | 0 <= a < b < |r| ensures r[a] != r[b] {
      assert a < i ==> r[a] == s[a];
      assert a > i ==> r[a] == s[a - 1];
      assert b < i ==> r[b] == s[b];
      assert b > i ==> r[b] == s[b - 1];
    }
  }

  /** Only the keys of the elements matter. */
  lemma {:induction false} InsertSameKeys<T>(s: seq<T>, x: T, key: T -> int, key': T -> int)
    requires key'(x) == key(x) && forall y :: y in s ==> key'(y) == key(y)
    ensures Insert(s, x, key') == Insert(s, x, key)
  {
    if s != [] {
      InsertSameKeys(s[1..], x, key, key');
    }
  }

  /** First come, first served: `s` is ordered by key and then by arrival. */
  ghost predicate Fifo<T>(s: seq<T>, key: T -> int, arrival: T -> int) {
    forall i, j :: 0 <= i < j < |s| ==>
      key(s[i]) < key(s[j]) || (key(s[i]) == key(s[j]) && arrival(s[i]) < arrival(s[j]))
  }

  /** A latecomer keeps the order by key and arrival; taking the head does too. */
  lemma FifoKept<T>(s: seq<T>, x: T, key: T -> int, arrival: T -> int)
    requires Fifo(s, key, arrival) && forall y :: y in s ==> arrival(y) < arrival(x)
    ensures Fifo(Insert(s, x, key), key, arrival)
    ensures s != [] ==> Fifo(s[1..], key, arrival)
  {
    var i := InsertPosition(s, x, key);
    var r := Insert(s, x, key);
    forall a, b | 0 <= a < b < |r|
      ensures key(r[a]) < key(r[b]) || (key(r[a]) == key(r[b]) && arrival(r[a]) < arrival(r[b]))
    {
      if a == i {
        assert r[b] == s[b - 1];
      } else if b == i {
        assert r[a] == s[a];
      }
    }
  }

  /** A queue whose head may have left. */
  ghost predicate Left<T>(s: seq<T>, s': seq<T>) {
    s' == s || (s != [] && s' == s[1..])
  }

  lemma FifoLeft<T>(s: seq<T>, s': seq<T>, key: T -> int, was: T -> int, arrival: T -> int)
    requires Fifo(s, key, was) && Left(s, s') && forall y :: y in s' && y in s ==> arrival(y) == was(y)
    ensures Fifo(s', key, arrival)
  {
    if s' != s {
      FifoRest(s, key, was);
    }
    forall y | y in s' ensures arrival(y) == was(y) {
    }
    FifoSame(s', key, was, arrival);
  }

  lemma FifoRest<T>(s: seq<T>, key: T -> int, arrival: T -> int)
    requires Fifo(s, key, arrival) && s != []
    ensures Fifo(s[1..], key, arrival) && forall y :: y in s[1..] ==> y in s
  {
    assert forall i :: 0 <= i < |s| - 1 ==> s[1..][i] == s[i + 1];
  }

  // ---------- Runs ----------

  datatype Op<T> = Enqueue(x: T) | DequeueMin

  /** The contents after the operations `ops`. */
  function Run<T>(s: seq<T>, ops: seq<Op<T>>, key: T -> int): seq<T>
    decreases |ops|
  {
    if ops == [] then s else
      var r := Run(s, ops[..|ops| - 1], key);
      match ops[|ops| - 1]
      case Enqueue(x) => Insert(r, x, key)
      case DequeueMin => if r == [] then [] else r[1..]
  }

  /** What the dequeues among `ops` return, in order; an empty queue returns `none`. */
  function Output<T>(s: seq<T>, ops: seq<Op<T>>, key: T -> int, none: T): seq<T>
    decreases |ops|
  {
    if ops == [] then [] else
      var o := Output(s, ops[..|ops| - 1], key, none);
      var r := Run(s, ops[..|ops| - 1], key);
      match ops[|ops| - 1]
      case Enqueue(_) => o
      case DequeueMin => o + [if r == [] then none else r[0]]
  }

  /** An element is enqueued only while it is not in the queue. */
  ghost predicate Legal<T>(s: seq<T>, ops: seq<Op<T>>, key: T -> int) {
    forall i :: 0 <= i < |ops| && ops[i].Enqueue? ==> ops[i].x !in Run(s, ops[..i], key)
  }

  /** In every legal run from the empty queue the contents stay sorted and distinct, so what
      leaves has the smallest key. */
  lemma {:induction false} RunSorted<T>(s: seq<T>, ops: seq<Op<T>>, key: T -> int)
    requires Sorted(s, key) && Distinct(s) && Legal(s, ops, key)
    ensures Sorted(Run(s, ops, key), key) && Distinct(Run(s, ops, key))
    decreases |ops|
  {
    if ops != [] {
      var front := ops[..|ops| - 1];
      LegalFront(s, ops, key);
      RunSorted(s, front, key);
      if ops[|ops| - 1].Enqueue? {
        InsertSorted(Run(s, front, key), ops[|ops| - 1].x, key);
        InsertDistinct(Run(s, front, key), ops[|ops| - 1].x, key);
      }
    }
  }

  lemma LegalFront<T>(s: seq<T>, ops: seq<Op<T>>, key: T -> int)
    requires Legal(s, ops, key) && ops != []
    ensures Legal(s, ops[..|ops| - 1], key)
  {
    var front := ops[..|ops| - 1];
    forall i | 0 <= i < |front| && front[i].Enqueue? ensures front[i].x !in Run(s, front[..i], key) {
      assert front[..i] == ops[..i];
    }
  }

  /** When `x` was last enqueued in the run `ops`; -1 if never. */
  function LastEnqueue<T(==)>(ops: seq<Op<T>>, x: T): int
    decreases |ops|
  {
    if ops == [] then -1
    else if ops[|ops| - 1] == Enqueue(x) then |ops| - 1
    else LastEnqueue(ops[..|ops| - 1], x)
  }

  function Arrival<T(==)>(ops: seq<Op<T>>): T -> int {
    x => LastEnqueue(ops, x)
  }

  lemma {:induction false} ArrivalBound<T>(ops: seq<Op<T>>, x: T)
    ensures -1 <= LastEnqueue(ops, x) < |ops|
    decreases |ops|
  {
    if ops != [] {
      ArrivalBound(ops[..|ops| - 1], x);
    }
  }

  lemma FifoSame<T>(s: seq<T>, key: T -> int, arrival: T -> int, arrival': T -> int)
    requires Fifo(s, key, arrival) && forall y :: y in s ==> arrival'(y) == arrival(y)
    ensures Fifo(s, key, arrival')
  {
  }

  /** In every legal run from the empty queue, equal keys wait in the order they arrived. */
  lemma {:induction false} RunFifo<T>(ops: seq<Op<T>>, key: T -> int)
    requires Legal([], ops, key)
    ensures Fifo(Run([], ops, key), key, Arrival(ops))
    decreases |ops|
  {
    if ops != [] {
      var front := ops[..|ops| - 1];
      var r := Run([], front, key);
      LegalFront([], ops, key);
      RunFifo(front, key);
      match ops[|ops| - 1]
      case Enqueue(x) =>
        FifoSame(r, key, Arrival(front), Arrival(ops));
        forall y | y in r ensures Arrival(ops)(y) < Arrival(ops)(x) {
          ArrivalBound(front, y);
        }
        FifoKept(r, x, key, Arrival(ops));
      case DequeueMin =>
        FifoSame(r, key, Arrival(front), Arrival(ops));
    }
  }
}
