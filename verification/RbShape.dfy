/** The shape of a red-black tree with parent pointers (process/rbtree.h, process/rbtree.c).

    Nodes live in a pool: a pointer is an index into the pool, and NIL is the null pointer.  A
    tree in the pool is described by an algebraic `Tree` whose labels are the nodes themselves.
    The fix-up loops of process/rbtree.c walk up and down with parent pointers, so their position
    is described by a zipper: the subtree in focus and the `Ctx` above it.  `Rep` and `RepC` say
    that the links and colours in the pool are those of the shape. */
module RbShape {
  import opened Pointers

  /** struct rb_node. */
  datatype Cell = Cell(left: Ptr, right: Ptr, parent: Ptr, red: bool)

  type Pool = seq<Cell>

  datatype Tree = Leaf | Node(l: Tree, n: Ptr, red: bool, r: Tree)

  /** Which child link of its parent a subtree hangs from. */
  datatype Side = InLeft | InRight

  /** A tree with a hole; the innermost frame comes first. */
  datatype Ctx = Top | Frame(up: Ctx, side: Side, n: Ptr, red: bool, sib: Tree)

  function Other(s: Side): Side {
    if s == InLeft then InRight else InLeft
  }

  /** The tree at `n` whose `s` child is `x` and whose other child is `y`. */
  function Mk(s: Side, x: Tree, n: Ptr, red: bool, y: Tree): Tree {
    if s == InLeft then Node(x, n, red, y) else Node(y, n, red, x)
  }

  ghost function Plug(c: Ctx, t: Tree): Tree
    decreases c
  {
    match c
    case Top => t
    case Frame(up, s, n, red, sib) => Plug(up, Mk(s, t, n, red, sib))
  }

  ghost function Nodes(t: Tree): set<Ptr> {
    match t
    case Leaf => {}
    case Node(l, n, _, r) => Nodes(l) + {n} + Nodes(r)
  }

  ghost function NodesC(c: Ctx): set<Ptr> {
    match c
    case Top => {}
    case Frame(up, _, n, _, sib) => NodesC(up) + {n} + Nodes(sib)
  }

  ghost function InOrder(t: Tree): seq<Ptr> {
    match t
    case Leaf => []
    case Node(l, n, _, r) => InOrder(l) + [n] + InOrder(r)
  }

  /** What an in-order walk meets before the hole of `c`. */
  ghost function Before(c: Ctx): seq<Ptr> {
    match c
    case Top => []
    case Frame(up, InLeft, _, _, _) => Before(up)
    case Frame(up, InRight, n, _, sib) => Before(up) + InOrder(sib) + [n]
  }

  /** What an in-order walk meets after the hole of `c`. */
  ghost function After(c: Ctx): seq<Ptr> {
    match c
    case Top => []
    case Frame(up, InLeft, n, _, sib) => [n] + InOrder(sib) + After(up)
    case Frame(up, InRight, _, _, _) => After(up)
  }

  ghost function Depth(c: Ctx): nat {
    if c.Top? then 0 else 1 + Depth(c.up)
  }

  // ---------- The shape in the pool ----------

  /** The pointer that refers to the root of `t`. */
  function RootOf(t: Tree): Ptr {
    if t.Leaf? then NIL else t.n
  }

  /** The parent of whatever is in the hole of `c`. */
  function Par(c: Ctx): Ptr {
    if c.Top? then NIL else c.n
  }

  predicate Has(q: Pool, n: Ptr) {
    0 <= n < |q|
  }

  /** A cell whose `s` child is `x` and whose other child is `y`. */
  function MkCell(s: Side, x: Ptr, par: Ptr, red: bool, y: Ptr): Cell {
    if s == InLeft then Cell(x, y, par, red) else Cell(y, x, par, red)
  }

  /** The pool holds `t`, and its root has parent `par`. */
  ghost predicate Rep(t: Tree, par: Ptr, q: Pool) {
    match t
    case Leaf => true
    case Node(l, n, red, r) =>
      && Has(q, n) && q[n] == Cell(RootOf(l), RootOf(r), par, red)
      && n !in Nodes(l) && n !in Nodes(r) && Nodes(l) !! Nodes(r)
      && Rep(l, n, q) && Rep(r, n, q)
  }

  /** The pool holds `c`, whose hole is filled by `hole` and whose topmost pointer is `top`. */
  ghost predicate RepC(c: Ctx, hole: Ptr, q: Pool, top: Ptr) {
    match c
    case Top => hole == top
    case Frame(up, s, n, red, sib) =>
      && Has(q, n) && q[n] == MkCell(s, hole, Par(up), red, RootOf(sib))
      && n !in NodesC(up) && n !in Nodes(sib) && Nodes(sib) !! NodesC(up)
      && Rep(sib, n, q) && RepC(up, n, q, top)
  }

  /** The pool holds `Plug(c, t)`, seen from the hole of `c`. */
  ghost predicate At(c: Ctx, t: Tree, q: Pool, top: Ptr) {
    RepC(c, RootOf(t), q, top) && Rep(t, Par(c), q) && NodesC(c) !! Nodes(t)
  }

  /** What a tree says does not depend on other nodes. */
  lemma {:induction false} RepFrame(t: Tree, par: Ptr, q: Pool, q': Pool)
    requires Rep(t, par, q) && |q'| == |q|
    requires forall n :: n in Nodes(t) && Has(q, n) ==> q'[n] == q[n]
    ensures Rep(t, par, q')
  {
    if t.Node? {
      assert t.n in Nodes(t);
      RepFrame(t.l, t.n, q, q');
      RepFrame(t.r, t.n, q, q');
    }
  }

  lemma {:induction false} RepCFrame(c: Ctx, hole: Ptr, q: Pool, q': Pool, top: Ptr)
    requires RepC(c, hole, q, top) && |q'| == |q|
    requires forall n :: n in NodesC(c) && Has(q, n) ==> q'[n] == q[n]
    ensures RepC(c, hole, q', top)
  {
    if c.Frame? {
      assert c.n in NodesC(c);
      RepFrame(c.sib, c.n, q, q');
      RepCFrame(c.up, c.n, q, q', top);
    }
  }

  /** The links of `n` lead to nodes of the tree that lead back. */
  ghost predicate LinkedBothWays(q: Pool, nodes: set<Ptr>, n: Ptr) {
    && Has(q, n)
    && (q[n].left != NIL ==> q[n].left in nodes && Has(q, q[n].left) && q[q[n].left].parent == n)
    && (q[n].right != NIL ==> q[n].right in nodes && Has(q, q[n].right) && q[q[n].right].parent == n)
  }

  ghost predicate ChildOfParent(q: Pool, nodes: set<Ptr>, n: Ptr) {
    && Has(q, n) && q[n].parent in nodes && Has(q, q[n].parent)
    && (q[q[n].parent].left == n || q[q[n].parent].right == n)
  }

  /** In a tree in the pool every parent link matches a child link, and conversely. */
  lemma {:induction false} LinksAgree(t: Tree, par: Ptr, q: Pool)
    requires Rep(t, par, q)
    ensures forall n :: n in Nodes(t) ==> LinkedBothWays(q, Nodes(t), n)
    ensures forall n :: n in Nodes(t) && n != RootOf(t) ==> ChildOfParent(q, Nodes(t), n)
    ensures t.Node? ==> q[t.n].parent == par
  {
    if t.Node? {
      LinksAgree(t.l, t.n, q);
      LinksAgree(t.r, t.n, q);
      forall n | n in Nodes(t) ensures LinkedBothWays(q, Nodes(t), n) {
        if n in Nodes(t.l) {
          assert LinkedBothWays(q, Nodes(t.l), n);
        } else if n in Nodes(t.r) {
          assert LinkedBothWays(q, Nodes(t.r), n);
        }
      }
      forall n | n in Nodes(t) && n != t.n ensures ChildOfParent(q, Nodes(t), n) {
        if n in Nodes(t.l) && n != RootOf(t.l) {
          assert ChildOfParent(q, Nodes(t.l), n);
        } else if n in Nodes(t.r) && n != RootOf(t.r) {
          assert ChildOfParent(q, Nodes(t.r), n);
        }
      }
    }
  }

  /** The links at the root of a subtree. */
  ghost predicate RootCell(t: Tree, par: Ptr, q: Pool) {
    if t.Leaf? then RootOf(t) == NIL else
      RootOf(t) != NIL && Has(q, t.n) && q[t.n] == Cell(RootOf(t.l), RootOf(t.r), par, t.red)
  }

  /** What the fix-up loops can read around the focus: the node, its parent and its sibling. */
  lemma Around(c: Ctx, t: Tree, q: Pool, top: Ptr)
    requires At(c, t, q, top)
    ensures RootCell(t, Par(c), q) && (c.Top? <==> Par(c) == NIL)
    ensures c.Top? ==> top == RootOf(t)
    ensures c.Frame? ==> Has(q, c.n) && q[c.n] == MkCell(c.side, RootOf(t), Par(c.up), c.red, RootOf(c.sib))
    ensures c.Frame? ==> RootCell(c.sib, c.n, q)
    ensures c.Frame? && (t.Node? || c.sib.Node?) ==> (q[c.n].left == RootOf(t) <==> c.side == InLeft)
  {
  }

  /** `Rep`, unfolded once for a node whose sides are not known. */
  lemma RepMk(s: Side, x: Tree, n: Ptr, red: bool, y: Tree, par: Ptr, q: Pool)
    ensures Nodes(Mk(s, x, n, red, y)) == Nodes(x) + {n} + Nodes(y)
    ensures Rep(Mk(s, x, n, red, y), par, q) <==>
      && Has(q, n) && q[n] == MkCell(s, RootOf(x), par, red, RootOf(y))
      && n !in Nodes(x) && n !in Nodes(y) && Nodes(x) !! Nodes(y) && Rep(x, n, q) && Rep(y, n, q)
  {
  }

  /** Moving the focus one level up loses nothing and assumes nothing. */
  lemma FocusStep(c: Ctx, t: Tree, q: Pool, top: Ptr)
    requires c.Frame?
    ensures At(c, t, q, top) <==> At(c.up, Mk(c.side, t, c.n, c.red, c.sib), q, top)
  {
    RepMk(c.side, t, c.n, c.red, c.sib, Par(c.up), q);
  }

  /** Moving the focus to the sibling. */
  lemma FocusAcross(c: Ctx, t: Tree, q: Pool, top: Ptr)
    requires c.Frame?
    ensures At(c, t, q, top) <==> At(Frame(c.up, Other(c.side), c.n, c.red, t), c.sib, q, top)
  {
    FocusStep(c, t, q, top);
    FocusStep(Frame(c.up, Other(c.side), c.n, c.red, t), c.sib, q, top);
  }

  lemma FocusStepOrder(c: Ctx, t: Tree)
    requires c.Frame?
    ensures NodesC(c) + Nodes(t) == NodesC(c.up) + Nodes(Mk(c.side, t, c.n, c.red, c.sib))
    ensures Before(c) + InOrder(t) + After(c)
         == Before(c.up) + InOrder(Mk(c.side, t, c.n, c.red, c.sib)) + After(c.up)
  {
    var b, x, n, y, a := Before(c.up), InOrder(t), [c.n], InOrder(c.sib), After(c.up);
    if c.side == InLeft {
      assert b + x + (n + y + a) == b + (x + n + y) + a;
    } else {
      assert (b + y + n) + x + a == b + (y + n + x) + a;
    }
  }

  /** A tree in the heap is the same thing seen from any position in it. */
  lemma {:induction false} Focus(c: Ctx, t: Tree, q: Pool, top: Ptr)
    ensures At(c, t, q, top) <==> Rep(Plug(c, t), NIL, q) && top == RootOf(Plug(c, t))
    ensures NodesC(c) + Nodes(t) == Nodes(Plug(c, t))
    ensures Before(c) + InOrder(t) + After(c) == InOrder(Plug(c, t))
    decreases c
  {
    if c.Frame? {
      FocusStep(c, t, q, top);
      FocusStepOrder(c, t);
      Focus(c.up, Mk(c.side, t, c.n, c.red, c.sib), q, top);
    }
  }

  /** Every node of a tree has a position. */
  lemma {:induction false} Locate(c: Ctx, t: Tree, n: Ptr) returns (d: Ctx, s: Tree)
    requires n in Nodes(t)
    ensures s.Node? && s.n == n && Plug(d, s) == Plug(c, t)
    decreases t
  {
    if n in Nodes(t.l) {
      d, s := Locate(Frame(c, InLeft, t.n, t.red, t.r), t.l, n);
    } else if n in Nodes(t.r) {
      d, s := Locate(Frame(c, InRight, t.n, t.red, t.l), t.r, n);
    } else {
      d, s := c, t;
    }
  }

  // ---------- Red-black balance ----------

  predicate IsRed(t: Tree) {
    t.Node? && t.red
  }

  function Under(red: bool, h: int): int {
    if red then h else h - 1
  }

  /** No red node has a red child and every path to a leaf meets exactly `h` black nodes. */
  ghost predicate Rb(t: Tree, h: int) {
    match t
    case Leaf => h == 0
    case Node(l, _, red, r) =>
      && (red ==> !IsRed(l) && !IsRed(r))
      && Rb(l, Under(red, h)) && Rb(r, Under(red, h))
  }

  /** Like `Rb`, except that a red root may have red children. */
  ghost predicate RbBelow(t: Tree, h: int) {
    match t
    case Leaf => h == 0
    case Node(l, _, red, r) =>
      && (!red ==> Rb(t, h))
      && Rb(l, Under(red, h)) && Rb(r, Under(red, h))
  }

  /** Filling the hole with a black-rooted `Rb(_, h)` tree gives a red-black tree with a black root. */
  ghost predicate RbCtx(c: Ctx, h: int) {
    match c
    case Top => true
    case Frame(up, _, _, red, sib) =>
      && Rb(sib, h)
      && (red ==> !IsRed(sib) && up.Frame? && !up.red)
      && RbCtx(up, if red then h else h + 1)
  }

  /** The black height of a red-black tree. */
  function BlackHeight(t: Tree): nat {
    if t.Leaf? then 0 else BlackHeight(t.l) + if t.red then 0 else 1
  }

  /** A whole tree is in order: balanced and with a black root. */
  ghost predicate RedBlack(t: Tree) {
    !IsRed(t) && Rb(t, BlackHeight(t))
  }

  lemma {:induction false} RbHeight(t: Tree, h: int)
    requires Rb(t, h)
    ensures h == BlackHeight(t)
  {
    if t.Node? {
      RbHeight(t.l, Under(t.red, h));
    }
  }

  /** A hole of a red-black tree filled with the right height gives a red-black tree. */
  lemma {:induction false} PlugRb(c: Ctx, t: Tree, h: int)
    requires RbCtx(c, h) && Rb(t, h)
    requires IsRed(t) ==> c.Frame? && !c.red
    ensures RedBlack(Plug(c, t))
    decreases c
  {
    if c.Frame? {
      PlugRb(c.up, Mk(c.side, t, c.n, c.red, c.sib), if c.red then h else h + 1);
    } else {
      RbHeight(t, h);
    }
  }

  /** Every position of a red-black tree has a height. */
  lemma {:induction false} UnplugRb(c: Ctx, t: Tree) returns (h: int)
    requires RedBlack(Plug(c, t))
    ensures RbCtx(c, h) && Rb(t, h)
    ensures IsRed(t) ==> c.Frame? && !c.red
    decreases c
  {
    if c.Top? {
      h := BlackHeight(t);
    } else {
      var g := UnplugRb(c.up, Mk(c.side, t, c.n, c.red, c.sib));
      h := Under(c.red, g);
    }
  }

  // ---------- Size and height ----------

  function Pow2(n: nat): nat {
    if n == 0 then 1 else 2 * Pow2(n - 1)
  }

  function Max(a: int, b: int): int {
    if a < b then b else a
  }

  function Height(t: Tree): nat {
    if t.Leaf? then 0 else 1 + Max(Height(t.l), Height(t.r))
  }

  lemma {:induction false} Pow2Add(a: nat, b: nat)
    ensures Pow2(a + b) == Pow2(a) * Pow2(b)
  {
    if a > 0 {
      Pow2Add(a - 1, b);
      assert Pow2(a + b) == 2 * (Pow2(a - 1) * Pow2(b));
    }
  }

  lemma {:induction false} Pow2Mono(a: nat, b: nat)
    requires a <= b
    ensures Pow2(a) <= Pow2(b)
    decreases b
  {
    if a < b {
      Pow2Mono(a, b - 1);
    }
  }

  /** A tree of black height h holds at least 2^h - 1 nodes. */
  lemma {:induction false} BlackHeightBoundsSize(t: Tree, h: nat)
    requires Rb(t, h)
    ensures Pow2(h) <= |InOrder(t)| + 1
  {
    if t.Node? {
      RbHeight(t, h);
      BlackHeightBoundsSize(t.l, Under(t.red, h));
      BlackHeightBoundsSize(t.r, Under(t.red, h));
    }
  }

  lemma {:induction false} HeightBound(t: Tree, h: nat)
    requires Rb(t, h)
    ensures Height(t) <= 2 * h + if IsRed(t) then 1 else 0
  {
    if t.Node? {
      RbHeight(t, h);
      HeightBound(t.l, Under(t.red, h));
      HeightBound(t.r, Under(t.red, h));
    }
  }

  /** The height of a tree with n nodes is at most 2 log2(n + 1). */
  lemma HeightIsLogarithmic(t: Tree)
    requires RedBlack(t)
    ensures Pow2(Height(t)) <= (|InOrder(t)| + 1) * (|InOrder(t)| + 1)
  {
    var h, m := BlackHeight(t), |InOrder(t)| + 1;
    HeightBound(t, h);
    Pow2Mono(Height(t), h + h);
    Pow2Add(h, h);
    BlackHeightBoundsSize(t, h);
    MulMono(Pow2(h), m);
  }

  lemma MulMono(a: nat, b: nat)
    requires a <= b
    ensures a * a <= b * b
  {
  }

  /** No position lies deeper than the tree is high. */
  lemma {:induction false} DepthBound(c: Ctx, t: Tree)
    ensures Depth(c) + Height(t) <= Height(Plug(c, t))
    decreases c
  {
    if c.Frame? {
      DepthBound(c.up, Mk(c.side, t, c.n, c.red, c.sib));
    }
  }
}
