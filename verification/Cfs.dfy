/** The CFS run queue (cfs_enqueue and cfs_dequeue_min in process/process.c): a red-black tree
    ordered by vruntime that behaves as a stable priority queue. */
module Cfs {
  import opened Pointers
  import opened RbShape
  import opened RbTree
  import S = StableQueue

  /** The vruntime of each PCB, as a key. */
  function KeyOf(vruntime: seq<nat>): Ptr -> int {
    p => if 0 <= p < |vruntime| then vruntime[p] else 0
  }

  /** Where a process goes by its vruntime. */
  lemma VruntimePlace(vruntime: seq<nat>, s: seq<Ptr>, p: Ptr)
    requires 0 <= p < |vruntime| && forall k :: 0 <= k < |s| ==> 0 <= s[k] < |vruntime|
    ensures exists i :: 0 <= i <= |s| && S.Insert(s, p, KeyOf(vruntime)) == s[..i] + [p] + s[i..] &&
                        (forall k :: 0 <= k < i ==> vruntime[s[k]] <= vruntime[p]) &&
                        (i < |s| ==> vruntime[p] < vruntime[s[i]])
  {
    var i := S.InsertPosition(s, p, KeyOf(vruntime));
    assert forall k :: 0 <= k < i ==> KeyOf(vruntime)(s[k]) <= KeyOf(vruntime)(p);
  }

  /** In a sorted sequence, what is left of `n` is not above it and what is right is not below. */
  lemma SplitSorted(a: seq<Ptr>, l: seq<Ptr>, n: Ptr, r: seq<Ptr>, b: seq<Ptr>, key: Ptr -> int)
    requires S.Sorted(a + (l + [n] + r) + b, key)
    ensures forall x :: x in l ==> key(x) <= key(n)
    ensures forall x :: x in r ==> key(n) <= key(x)
  {
    var s := a + (l + [n] + r) + b;
    var k := |a| + |l|;
    assert s[k] == n;
    forall x | x in l ensures key(x) <= key(n) {
      var i :| 0 <= i < |l| && l[i] == x;
      assert s[|a| + i] == x;
    }
    forall x | x in r ensures key(n) <= key(x) {
      var i :| 0 <= i < |r| && r[i] == x;
      assert s[k + 1 + i] == x;
    }
  }

  class RunQueue {
    const root: RbRoot
    const vruntime: seq<nat>
    ghost var shape: Tree

    ghost predicate Valid()
      reads this, root
    {
      && |root.pool| == |vruntime|
      && Rep(shape, NIL, root.pool) && root.rbNode == RootOf(shape) && RedBlack(shape)
      && S.Sorted(InOrder(shape), Key())
    }

    /** The queued PCBs, as an in-order walk of the tree meets them. */
    ghost function Contents(): seq<Ptr>
      reads this
    {
      InOrder(shape)
    }

    function Key(): Ptr -> int {
      KeyOf(vruntime)
    }

    constructor (vruntime: seq<nat>)
      ensures Valid() && Contents() == [] && this.vruntime == vruntime && fresh(root)
    {
      root := new RbRoot(|vruntime|);
      this.vruntime := vruntime;
      shape := Leaf;
    }

    /** What the descent of cfs_enqueue knows at `c`, `t`: `p` belongs between what lies before
        and what lies after. */
    ghost predicate Between(p: Ptr, c: Ctx, t: Tree)
      reads this
    {
      && Plug(c, t) == shape
      && (forall x :: x in Before(c) ==> Key()(x) <= Key()(p))
      && (forall x :: x in After(c) ==> Key()(p) < Key()(x))
    }

    lemma DescendStep(p: Ptr, c: Ctx, t: Tree)
      requires Valid() && t.Node? && Between(p, c, t)
      ensures Key()(p) < Key()(t.n) ==> Between(p, Frame(c, InLeft, t.n, t.red, t.r), t.l)
      ensures Key()(p) >= Key()(t.n) ==> Between(p, Frame(c, InRight, t.n, t.red, t.l), t.r)
    {
      Focus(c, t, root.pool, root.rbNode);
      SplitSorted(Before(c), InOrder(t.l), t.n, InOrder(t.r), After(c), Key());
    }

    /** The loop of cfs_enqueue: down to the null link where `p` belongs. */
    method FindLink(p: Ptr) returns (parent: Ptr, onLeft: bool, ghost c: Ctx, ghost steps: nat)
      requires Valid() && 0 <= p < |vruntime|
      ensures At(c, Leaf, root.pool, root.rbNode) && Between(p, c, Leaf)
      ensures parent == Par(c) && (c.Frame? ==> onLeft == (c.side == InLeft))
      ensures steps == Depth(c)
    {
      steps := 0;
      ghost var t := shape;
      c := Top;
      parent, onLeft := NIL, false;
      var link := root.rbNode;
      Focus(c, t, root.pool, root.rbNode);
      Around(c, t, root.pool, root.rbNode);
      while link != NIL
        invariant At(c, t, root.pool, root.rbNode) && Between(p, c, t)
        invariant link == RootOf(t) && RootCell(t, Par(c), root.pool)
        invariant parent == Par(c) && (c.Frame? ==> onLeft == (c.side == InLeft))
        invariant steps == Depth(c)
        decreases t
      {
        var q := link;
        steps := steps + 1;
        DescendStep(p, c, t);
        parent := link;
        if vruntime[p] < vruntime[q] {
          onLeft := true;
          link := root.pool[q].left;
          c, t := Frame(c, InLeft, t.n, t.red, t.r), t.l;
        } else {
          onLeft := false;
          link := root.pool[q].right;
          c, t := Frame(c, InRight, t.n, t.red, t.l), t.r;
        }
        FocusStep(c, t, root.pool, root.rbNode);
        Around(c, t, root.pool, root.rbNode);
      }
    }

    /** cfs_enqueue: `p` goes after every PCB whose vruntime is at most its own.  The descent takes
        at most 2 log2(n + 1) steps. */
    method Enqueue(p: Ptr) returns (ghost steps: nat)
      requires Valid() && 0 <= p < |vruntime| && p !in Contents()
      modifies this, root
      ensures Valid()
      ensures Contents() == S.Insert(old(Contents()), p, Key())
      ensures var m := |old(Contents())| + 1; Pow2(steps) <= m * m
    {
      var parent, onLeft;
      ghost var c;
      parent, onLeft, c, steps := FindLink(p);
      StepsBound(c);
      InsertedOrder(p, c);
      Link(p, parent, onLeft, c);
      S.InsertSorted(old(Contents()), p, Key());
    }

    /** The last two calls of cfs_enqueue: rb_link_node and rb_insert_color. */
    method Link(p: Ptr, parent: Ptr, onLeft: bool, ghost c: Ctx)
      requires Valid() && 0 <= p < |vruntime| && p !in Contents()
      requires At(c, Leaf, root.pool, root.rbNode) && Plug(c, Leaf) == shape
      requires parent == Par(c) && (c.Frame? ==> onLeft == (c.side == InLeft))
      modifies this, root
      ensures |root.pool| == |vruntime|
      ensures Rep(shape, NIL, root.pool) && root.rbNode == RootOf(shape) && RedBlack(shape)
      ensures Contents() == InOrder(Plug(c, Node(Leaf, p, true, Leaf)))
    {
      NotInside(p, c);
      ghost var h := UnplugRb(c, Leaf);
      root.LinkNode(p, parent, onLeft, c);
      shape := root.InsertColor(p, c, Node(Leaf, p, true, Leaf), h);
    }

    lemma StepsBound(c: Ctx)
      requires Valid() && Plug(c, Leaf) == shape
      ensures var m := |Contents()| + 1; Pow2(Depth(c)) <= m * m
    {
      DepthBound(c, Leaf);
      WalkBound(Depth(c));
    }

    lemma NotInside(p: Ptr, c: Ctx)
      requires Plug(c, Leaf) == shape && p !in Contents()
      ensures p !in NodesC(c)
    {
      Focus(c, Leaf, [], NIL);
      OrderedNodes(shape);
    }

    lemma InsertedOrder(p: Ptr, c: Ctx)
      requires Valid() && Between(p, c, Leaf)
      ensures InOrder(Plug(c, Node(Leaf, p, true, Leaf))) == S.Insert(Contents(), p, Key())
    {
      Focus(c, Leaf, [], NIL);
      Focus(c, Node(Leaf, p, true, Leaf), [], NIL);
      assert InOrder(Node(Leaf, p, true, Leaf)) == [p];
      S.InsertBetween(Before(c), p, After(c), Key());
    }

    /** cfs_dequeue_min: the first PCB in order leaves.  The walk of rb_first is as short. */
    method DequeueMin() returns (p: Ptr, ghost steps: nat)
      requires Valid()
      modifies this, root
      ensures Valid()
      ensures old(Contents()) == [] ==> p == NIL && Contents() == []
      ensures old(Contents()) != [] ==> p == old(Contents())[0] && Contents() == old(Contents())[1..]
      ensures var m := |old(Contents())| + 1; Pow2(steps) <= m * m
    {
      p, steps := root.First(shape);
      WalkBound(steps);
      if p == NIL {
        return;
      }
      HeadIsMin();
      shape := root.Erase(p, shape);
    }

    lemma WalkBound(steps: nat)
      requires Valid() && steps <= Height(shape)
      ensures var m := |Contents()| + 1; Pow2(steps) <= m * m
    {
      Pow2Mono(steps, Height(shape));
      HeightIsLogarithmic(shape);
    }

    lemma HeadIsMin()
      requires shape.Node?
      ensures Contents() != [] && Contents()[0] == Min(shape).n && Min(shape).n in Nodes(shape)
      ensures Delete(Contents(), Contents()[0]) == Contents()[1..]
    {
      MinOrder(shape);
    }
  }
}
