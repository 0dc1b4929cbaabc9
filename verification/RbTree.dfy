/** Red-black insertion and deletion fix-up in place (process/rbtree.c).

    `c` and `t` parameters are ghost: they name the position of `node` in the tree. */
module RbTree {
  import opened Pointers
  import opened RbShape

  /** The child of `x` on side `s`, as a cell and as a tree. */
  function Child(x: Cell, s: Side): Ptr {
    if s == InLeft then x.left else x.right
  }

  function SetChild(x: Cell, s: Side, p: Ptr): Cell {
    if s == InLeft then x.(left := p) else x.(right := p)
  }

  function Sub(t: Tree, s: Side): Tree
    requires t.Node?
  {
    if s == InLeft then t.l else t.r
  }

  predicate CanRotate(t: Tree, s: Side) {
    t.Node? && Sub(t, Other(s)).Node?
  }

  /** The root of `t` moves down to side `s`: a left rotation when `s` is InLeft. */
  function Rotate(t: Tree, s: Side): Tree
    requires CanRotate(t, s)
  {
    var u := Sub(t, Other(s));
    Mk(s, Mk(s, Sub(t, s), t.n, t.red, Sub(u, s)), u.n, u.red, Sub(u, Other(s)))
  }

  lemma RotationKeepsOrder(t: Tree, s: Side)
    requires CanRotate(t, s)
    ensures InOrder(Rotate(t, s)) == InOrder(t) && Nodes(Rotate(t, s)) == Nodes(t)
  {
    var u := Sub(t, Other(s));
    var p, q, r := InOrder(Sub(t, s)), InOrder(Sub(u, s)), InOrder(Sub(u, Other(s)));
    if s == InLeft {
      assert p + [t.n] + (q + [u.n] + r) == (p + [t.n] + q) + [u.n] + r;
    } else {
      assert (r + [u.n] + q) + [t.n] + p == r + [u.n] + (q + [t.n] + p);
    }
  }

  /** Replacing a subtree by one with the same in-order sequence. */
  lemma PlugSame(c: Ctx, t: Tree, t': Tree)
    requires InOrder(t') == InOrder(t) && Nodes(t') == Nodes(t)
    ensures InOrder(Plug(c, t')) == InOrder(Plug(c, t)) && Nodes(Plug(c, t')) == Nodes(Plug(c, t))
  {
    Focus(c, t, [], NIL);
    Focus(c, t', [], NIL);
  }

  /** The root of `t` has got a new parent; nothing else in `t` has changed. */
  lemma Adopted(t: Tree, p: Ptr, p': Ptr, q: Pool, q': Pool)
    requires Rep(t, p, q) && |q'| == |q|
    requires forall n :: n in Nodes(t) && n != RootOf(t) && Has(q, n) ==> q'[n] == q[n]
    requires t.Node? ==> q'[t.n] == Cell(RootOf(t.l), RootOf(t.r), p', t.red)
    ensures Rep(t, p', q')
  {
    if t.Node? {
      RepFrame(t.l, t.n, q, q');
      RepFrame(t.r, t.n, q, q');
    }
  }

  /** The hole of `c` has got a new filling; nothing else in `c` has changed. */
  lemma Hung(c: Ctx, hole: Ptr, hole': Ptr, q: Pool, q': Pool, top: Ptr)
    requires RepC(c, hole, q, top) && |q'| == |q|
    requires forall n :: n in NodesC(c) && n != Par(c) && Has(q, n) ==> q'[n] == q[n]
    requires c.Frame? ==> q'[c.n] == MkCell(c.side, hole', Par(c.up), c.red, RootOf(c.sib))
    ensures RepC(c, hole', q', if c.Top? then hole' else top)
  {
    if c.Frame? {
      RepFrame(c.sib, c.n, q, q');
      RepCFrame(c.up, c.n, q, q', top);
    }
  }

  /** What the pointers of a rotation at `x` must be: null or four different nodes. */
  ghost predicate Rotatable(x: Ptr, s: Side, q: Pool) {
    && Has(q, x)
    && var (y, p) := (Child(q[x], Other(s)), q[x].parent);
    && Has(q, y) && y != x
    && (var b := Child(q[y], s); b != NIL ==> Has(q, b) && b != x && b != y && b != p)
    && (p != NIL ==> Has(q, p) && p != x && p != y && (q[p].left == x <==> q[p].right != x))
  }

  /** `q'` is `q` after a rotation at `x` towards `s` rewrote the links of `x`, its child `y`,
      that child's child `b` and the parent `p` of `x`. */
  ghost predicate Rotated(x: Ptr, s: Side, q: Pool, q': Pool)
    requires Rotatable(x, s, q)
  {
    var (y, p) := (Child(q[x], Other(s)), q[x].parent);
    var b := Child(q[y], s);
    && |q'| == |q|
    && q'[x] == SetChild(q[x], Other(s), b).(parent := y)
    && q'[y] == SetChild(q[y], s, x).(parent := p)
    && (b != NIL ==> q'[b] == q[b].(parent := x))
    && (p != NIL ==> q'[p] == if q[p].left == x then q[p].(left := y) else q[p].(right := y))
    && forall n :: Has(q, n) && n != x && n != y && n != b && n != p ==> q'[n] == q[n]
  }

  lemma TreeRotatable(c: Ctx, t: Tree, s: Side, q: Pool, top: Ptr)
    requires CanRotate(t, s) && At(c, t, q, top)
    ensures Rotatable(t.n, s, q)
  {
    var u := Sub(t, Other(s));
    assert Rep(u, t.n, q) && Rep(Sub(u, s), u.n, q);
  }

  /** A rotation has three subtrees and two nodes, all apart. */
  lemma RotationParts(t: Tree, par: Ptr, s: Side, q: Pool)
    requires CanRotate(t, s) && Rep(t, par, q)
    ensures var u := Sub(t, Other(s));
      var (a, b, d) := (Sub(t, s), Sub(u, s), Sub(u, Other(s)));
      && Has(q, t.n) && q[t.n] == MkCell(s, RootOf(a), par, t.red, u.n)
      && Has(q, u.n) && q[u.n] == MkCell(s, RootOf(b), t.n, u.red, RootOf(d))
      && Rep(a, t.n, q) && Rep(b, u.n, q) && Rep(d, u.n, q)
      && t.n != u.n && {t.n, u.n} !! Nodes(a) && {t.n, u.n} !! Nodes(b) && {t.n, u.n} !! Nodes(d)
      && Nodes(a) !! Nodes(b) && Nodes(a) !! Nodes(d) && Nodes(b) !! Nodes(d)
      && Nodes(t) == Nodes(a) + Nodes(b) + Nodes(d) + {t.n, u.n}
  {
    assert Rep(Sub(t, Other(s)), t.n, q);
  }

  lemma RotatedTree(t: Tree, par: Ptr, s: Side, q: Pool, q': Pool)
    requires CanRotate(t, s) && Rep(t, par, q) && (par != NIL ==> par !in Nodes(t))
    requires Rotatable(t.n, s, q) && Rotated(t.n, s, q, q')
    ensures Rep(Rotate(t, s), par, q')
  {
    var u := Sub(t, Other(s));
    var a, b, d := Sub(t, s), Sub(u, s), Sub(u, Other(s));
    RotationParts(t, par, s, q);
    RepFrame(a, t.n, q, q');
    RepFrame(d, u.n, q, q');
    Adopted(b, u.n, t.n, q, q');
    RepMk(s, a, t.n, t.red, b, u.n, q');
    RepMk(s, Mk(s, a, t.n, t.red, b), u.n, u.red, d, par, q');
  }

  lemma RotatedAt(c: Ctx, t: Tree, s: Side, q: Pool, q': Pool, top: Ptr)
    requires CanRotate(t, s) && At(c, t, q, top)
    requires Rotatable(t.n, s, q) && Rotated(t.n, s, q, q')
    ensures At(c, Rotate(t, s), q', if c.Top? then Sub(t, Other(s)).n else top)
  {
    RotationKeepsOrder(t, s);
    RotatedTree(t, Par(c), s, q, q');
    var u := Sub(t, Other(s));
    assert Rep(u, t.n, q) && Rep(Sub(u, s), u.n, q);
    Hung(c, t.n, u.n, q, q', top);
  }

  /** Two rotations in opposite directions cancel: every link in the pool is what it was. */
  lemma RotateBack(c: Ctx, t: Tree, s: Side, q: Pool, q1: Pool, q2: Pool, top: Ptr)
    requires CanRotate(t, s) && At(c, t, q, top)
    requires Rotatable(t.n, s, q) && Rotated(t.n, s, q, q1)
    ensures var u := Sub(t, Other(s)).n;
      Rotatable(u, Other(s), q1) && (Rotated(u, Other(s), q1, q2) ==> q2 == q)
  {
    var u := Sub(t, Other(s));
    RotatedAt(c, t, s, q, q1, top);
    TreeRotatable(c, Rotate(t, s), Other(s), q1, if c.Top? then u.n else top);
    RotationParts(t, Par(c), s, q);
    if Rotated(u.n, Other(s), q1, q2) {
      forall n | Has(q, n) ensures q2[n] == q[n] {
        BackAt(c, t, s, q, q1, q2, top, n);
      }
    }
  }

  lemma BackAt(c: Ctx, t: Tree, s: Side, q: Pool, q1: Pool, q2: Pool, top: Ptr, n: Ptr)
    requires CanRotate(t, s) && At(c, t, q, top) && Has(q, n)
    requires Rotatable(t.n, s, q) && Rotated(t.n, s, q, q1)
    requires var u := Sub(t, Other(s)).n; Rotatable(u, Other(s), q1) && Rotated(u, Other(s), q1, q2)
    ensures q2[n] == q[n]
  {
    RotationParts(t, Par(c), s, q);
    RepRoot(Sub(Sub(t, Other(s)), s), Sub(t, Other(s)).n, q);
    Around(c, t, q, top);
  }

  function Painted(t: Tree, red: bool): Tree
    requires t.Node?
  {
    Node(t.l, t.n, red, t.r)
  }

  lemma PaintedAt(c: Ctx, t: Tree, red: bool, q: Pool, q': Pool, top: Ptr)
    requires t.Node? && At(c, t, q, top)
    requires Has(q, t.n) && q' == q[t.n := q[t.n].(red := red)]
    ensures At(c, Painted(t, red), q', top)
    ensures InOrder(Plug(c, Painted(t, red))) == InOrder(Plug(c, t))
  {
    RepFrame(t.l, t.n, q, q');
    RepFrame(t.r, t.n, q, q');
    RepCFrame(c, t.n, q, q', top);
    PlugSame(c, t, Painted(t, red));
  }

  // ---------- Insertion ----------

  /** The tree has a red node `t` too many at `c`: all is well, except that the parent of `t` may
      be red too. */
  ghost predicate RedAt(c: Ctx, t: Tree, h: int) {
    IsRed(t) && Rb(t, h) && RbCtx(c, h)
  }

  lemma RbMk(s: Side, x: Tree, n: Ptr, red: bool, y: Tree, h: int)
    ensures Rb(Mk(s, x, n, red, y), h) <==>
      (red ==> !IsRed(x) && !IsRed(y)) && Rb(x, Under(red, h)) && Rb(y, Under(red, h))
  {
  }

  lemma RecolouredRb(c: Ctx, t: Tree, h: int)
    requires RedAt(c, t, h) && c.Frame? && c.red && IsRed(c.up.sib)
    ensures var g := c.up;
      RedAt(g.up, Mk(g.side, Mk(c.side, t, c.n, false, c.sib), g.n, true, Painted(g.sib, false)), h + 1)
  {
    var g := c.up;
    assert RbCtx(g, h);
    RbMk(c.side, t, c.n, false, c.sib, h + 1);
    RbMk(g.side, Mk(c.side, t, c.n, false, c.sib), g.n, true, Painted(g.sib, false), h + 1);
  }

  /** The red node, its red parent and its black grandparent in line: what the last rotation gives. */
  lemma InsertedRb(c: Ctx, t: Tree, h: int)
    requires RedAt(c, t, h) && c.Frame? && c.red && !IsRed(c.up.sib)
    ensures var g := c.up;
      RedAt(Frame(g.up, g.side, c.n, false, Mk(g.side, c.sib, g.n, true, g.sib)), t, h)
  {
    var g := c.up;
    assert RbCtx(g, h);
    RbMk(g.side, c.sib, g.n, true, g.sib, h);
  }

  /** The red node on the inner side: what the first rotation gives. */
  lemma StraightenedRb(c: Ctx, t: Tree, h: int)
    requires RedAt(c, t, h) && c.Frame? && c.red
    ensures RedAt(Frame(c.up, Other(c.side), t.n, true, Sub(t, Other(c.side))), Mk(Other(c.side), c.sib, c.n, true, Sub(t, c.side)), h)
  {
    RbMk(Other(c.side), c.sib, c.n, true, Sub(t, c.side), h);
  }

  /** Painting the root of a whole tree black. */
  function Blackened(t: Tree): Tree {
    if t.Leaf? then t else Painted(t, false)
  }

  /** The loop ends with a red node whose parent is not red: the root is black once painted. */
  lemma BlackenedRb(c: Ctx, t: Tree, h: int)
    requires RedAt(c, t, h) && (c.Frame? ==> !c.red)
    ensures RedBlack(Blackened(Plug(c, t)))
  {
    if c.Top? {
      RbHeight(Painted(t, false), h + 1);
    } else {
      PlugRb(c, t, h);
    }
  }

  /** A red parent has a black parent, and the pointers around are as the shape says. */
  lemma Family(c: Ctx, t: Tree, h: int, q: Pool, top: Ptr)
    requires At(c, t, q, top) && RedAt(c, t, h) && c.Frame? && c.red
    ensures c.up.Frame? && !c.up.red
    ensures Has(q, c.n) && q[c.n].parent == c.up.n && Has(q, c.up.n)
    ensures q[c.up.n].left == c.n <==> c.up.side == InLeft
    ensures Child(q[c.up.n], Other(c.up.side)) == RootOf(c.up.sib)
    ensures RootCell(c.up.sib, c.up.n, q)
  {
    Around(c, t, q, top);
    FocusStep(c, t, q, top);
    Around(c.up, Mk(c.side, t, c.n, true, c.sib), q, top);
  }

  // ---------- Deletion ----------

  /** One black node is missing on every path through `t`, whose root may need painting black. */
  ghost predicate LackAt(c: Ctx, t: Tree, h: int) {
    RbBelow(t, h) && RbCtx(c, h + 1)
  }

  /** The near and the far nephew of the focus of `c`. */
  function Near(c: Ctx): Tree
    requires c.Frame? && c.sib.Node?
  {
    Sub(c.sib, c.side)
  }

  function Far(c: Ctx): Tree
    requires c.Frame? && c.sib.Node?
  {
    Sub(c.sib, Other(c.side))
  }

  /** A node that lacks a black node has a sibling. */
  lemma SiblingExists(c: Ctx, t: Tree, h: int)
    requires LackAt(c, t, h) && c.Frame? && !IsRed(t)
    ensures c.sib.Node? && Rb(t, h) && h >= 0
  {
    RbHeight(t, h);
  }

  ghost function AfterRedSibling(c: Ctx): Ctx
    requires c.Frame? && c.sib.Node?
  {
    Frame(Frame(c.up, c.side, c.sib.n, false, Far(c)), c.side, c.n, true, Near(c))
  }

  lemma RedSiblingRb(c: Ctx, t: Tree, h: int)
    requires LackAt(c, t, h) && c.Frame? && IsRed(c.sib)
    ensures LackAt(AfterRedSibling(c), t, h) && !IsRed(Near(c))
  {
  }

  ghost function AfterBlackNephews(c: Ctx, t: Tree): Tree
    requires c.Frame? && c.sib.Node?
  {
    Mk(c.side, t, c.n, c.red, Painted(c.sib, true))
  }

  lemma BlackNephewsRb(c: Ctx, t: Tree, h: int)
    requires LackAt(c, t, h) && c.Frame? && !IsRed(t)
    requires c.sib.Node? && !c.sib.red && !IsRed(Near(c)) && !IsRed(Far(c))
    ensures LackAt(c.up, AfterBlackNephews(c, t), if c.red then h else h + 1)
  {
    var y := Painted(c.sib, true);
    assert Rb(y, h);
    RbMk(c.side, t, c.n, c.red, y, if c.red then h else h + 1);
  }

  ghost function AfterNearRed(c: Ctx): Ctx
    requires c.Frame? && c.sib.Node? && Near(c).Node?
  {
    var (s, near) := (c.side, Near(c));
    Frame(c.up, s, c.n, c.red,
          Mk(s, Sub(near, s), near.n, false, Mk(s, Sub(near, Other(s)), c.sib.n, true, Far(c))))
  }

  lemma NearRedRb(c: Ctx, t: Tree, h: int)
    requires LackAt(c, t, h) && c.Frame?
    requires c.sib.Node? && !c.sib.red && IsRed(Near(c)) && !IsRed(Far(c))
    ensures LackAt(AfterNearRed(c), t, h)
  {
    var (s, near) := (c.side, Near(c));
    assert Rb(near, h) && Rb(Far(c), h);
    var y := Mk(s, Sub(near, Other(s)), c.sib.n, true, Far(c));
    RbMk(s, Sub(near, Other(s)), c.sib.n, true, Far(c), h);
    RbMk(s, Sub(near, s), near.n, false, y, h + 1);
  }

  ghost function AfterFarRed(c: Ctx, t: Tree): Tree
    requires c.Frame? && c.sib.Node? && Far(c).Node?
  {
    Mk(c.side, Mk(c.side, t, c.n, false, Near(c)), c.sib.n, c.red, Painted(Far(c), false))
  }

  lemma FarRedRb(c: Ctx, t: Tree, h: int)
    requires LackAt(c, t, h) && c.Frame? && !IsRed(t)
    requires c.sib.Node? && !c.sib.red && IsRed(Far(c))
    ensures RedBlack(Plug(c.up, AfterFarRed(c, t)))
  {
    var (s, far) := (c.side, Painted(Far(c), false));
    SiblingExists(c, t, h);
    assert Rb(Near(c), h) && Rb(Far(c), h);
    var x := Mk(s, t, c.n, false, Near(c));
    RbMk(s, t, c.n, false, Near(c), h + 1);
    var k := if c.red then h + 1 else h + 2;
    RbMk(s, x, c.sib.n, c.red, far, k);
    PlugRb(c.up, AfterFarRed(c, t), k);
  }

  /** The pointers to the nephews, and the colours found there. */
  lemma NephewPointers(c: Ctx, t: Tree, q: Pool, top: Ptr)
    requires At(c, t, q, top) && c.Frame? && c.sib.Node?
    ensures RootCell(c.sib, c.n, q) && RootCell(c.sib.l, c.sib.n, q) && RootCell(c.sib.r, c.sib.n, q)
  {
    RepRoot(c.sib, c.n, q);
    RepRoot(c.sib.l, c.sib.n, q);
    RepRoot(c.sib.r, c.sib.n, q);
  }

  lemma RepRoot(t: Tree, par: Ptr, q: Pool)
    requires Rep(t, par, q)
    ensures RootCell(t, par, q)
    ensures t.Node? ==> Rep(t.l, t.n, q) && Rep(t.r, t.n, q)
  {
  }

  /** The top pointer refers to the outermost frame. */
  lemma {:induction false} TopInContext(c: Ctx, hole: Ptr, q: Pool, top: Ptr)
    requires RepC(c, hole, q, top) && c.Frame?
    ensures top in NodesC(c) && Has(q, top)
    decreases c
  {
    if c.up.Frame? {
      TopInContext(c.up, c.n, q, top);
    }
  }

  lemma TopInside(c: Ctx, t: Tree, q: Pool, top: Ptr)
    requires At(c, t, q, top)
    ensures RootOf(t) == top <==> c.Top?
  {
    if c.Frame? {
      TopInContext(c, RootOf(t), q, top);
    }
  }

  /** When the loop ends, painting the child black supplies the missing black node. */
  lemma LackEnds(c: Ctx, t: Tree, h: int)
    requires LackAt(c, t, h) && (c.Top? || IsRed(t))
    ensures RedBlack(Plug(c, Blackened(t)))
  {
    var k := if IsRed(t) then h + 1 else h;
    assert Rb(Blackened(t), k);
    if c.Top? {
      RbHeight(Blackened(t), k);
    } else {
      PlugRb(c, Blackened(t), k);
    }
  }

  // ---------- Taking a node out ----------

  /** `s` without the first occurrence of `x`. */
  function Delete<T(==)>(s: seq<T>, x: T): seq<T> {
    if s == [] then [] else if s[0] == x then s[1..] else [s[0]] + Delete(s[1..], x)
  }

  lemma {:induction false} DeleteAt<T>(a: seq<T>, x: T, b: seq<T>)
    requires x !in a
    ensures Delete(a + [x] + b, x) == a + b
  {
    var s := a + [x] + b;
    if a == [] {
      assert s[1..] == b;
    } else {
      assert s[1..] == a[1..] + [x] + b;
      DeleteAt(a[1..], x, b);
      assert [a[0]] + (a[1..] + b) == a + b;
    }
  }

  lemma DeleteWithin<T>(a: seq<T>, l: seq<T>, x: T, r: seq<T>, b: seq<T>)
    requires x !in a && x !in l
    ensures Delete(a + (l + [x] + r) + b, x) == a + (l + r) + b
  {
    assert a + (l + [x] + r) + b == (a + l) + [x] + (r + b);
    DeleteAt(a + l, x, r + b);
    assert (a + l) + (r + b) == a + (l + r) + b;
  }

  lemma {:induction false} OrderedNodes(t: Tree)
    ensures forall n :: n in Nodes(t) <==> n in InOrder(t)
  {
    if t.Node? {
      OrderedNodes(t.l);
      OrderedNodes(t.r);
    }
  }

  lemma {:induction false} OrderedNodesC(c: Ctx)
    ensures forall n :: n in Before(c) || n in After(c) ==> n in NodesC(c)
  {
    if c.Frame? {
      OrderedNodes(c.sib);
      OrderedNodesC(c.up);
    }
  }

  /** Replacing the node in focus by its two subtrees, joined by `j`, deletes exactly that node. */
  lemma DeletedAt(c: Ctx, t: Tree, j: Tree, q: Pool, top: Ptr)
    requires t.Node? && At(c, t, q, top) && InOrder(j) == InOrder(t.l) + InOrder(t.r)
    ensures InOrder(Plug(c, j)) == Delete(InOrder(Plug(c, t)), t.n)
  {
    Focus(c, t, q, top);
    Focus(c, j, q, top);
    OrderedNodes(t.l);
    OrderedNodesC(c);
    DeleteWithin(Before(c), InOrder(t.l), t.n, InOrder(t.r), After(c));
  }

  lemma OnlyChildOrder(c: Ctx, t: Tree, q: Pool, top: Ptr)
    requires t.Node? && At(c, t, q, top) && (t.l.Leaf? || t.r.Leaf?)
    ensures InOrder(Plug(c, if t.l.Leaf? then t.r else t.l)) == Delete(InOrder(Plug(c, t)), t.n)
  {
    assert [] + InOrder(t.r) == InOrder(t.r) && InOrder(t.l) + [] == InOrder(t.l);
    DeletedAt(c, t, if t.l.Leaf? then t.r else t.l, q, top);
  }

  function Min(t: Tree): (m: Tree)
    requires t.Node?
    ensures m.Node? && m.l.Leaf?
  {
    if t.l.Leaf? then t else Min(t.l)
  }

  function DelMin(t: Tree): Tree
    requires t.Node?
  {
    if t.l.Leaf? then t.r else Node(DelMin(t.l), t.n, t.red, t.r)
  }

  /** The position of the minimum of `t` when `t` hangs in `c`. */
  function MinCtx(t: Tree, c: Ctx): Ctx
    requires t.Node?
    decreases t
  {
    if t.l.Leaf? then c else MinCtx(t.l, Frame(c, InLeft, t.n, t.red, t.r))
  }

  lemma {:induction false} MinOrder(t: Tree)
    requires t.Node?
    ensures Min(t).n in Nodes(t)
    ensures InOrder(t) == [Min(t).n] + InOrder(DelMin(t))
  {
    if t.l.Node? {
      MinOrder(t.l);
    }
  }

  lemma {:induction false} MinPosition(t: Tree, c: Ctx)
    requires t.Node?
    ensures Plug(MinCtx(t, c), Min(t)) == Plug(c, t)
    ensures Plug(MinCtx(t, c), Min(t).r) == Plug(c, DelMin(t))
    ensures MinCtx(t, c) == c || (MinCtx(t, c).Frame? && MinCtx(t, c).n in Nodes(t))
    decreases t
  {
    if t.l.Node? {
      MinPosition(t.l, Frame(c, InLeft, t.n, t.red, t.r));
    }
  }

  lemma {:induction false} MinRb(t: Tree, c: Ctx, h: int) returns (g: int)
    requires t.Node? && Rb(t, h) && RbCtx(c, h) && (t.red ==> c.Frame? && !c.red)
    ensures Rb(Min(t), g) && RbCtx(MinCtx(t, c), g)
    decreases t
  {
    g := h;
    if t.l.Node? {
      g := MinRb(t.l, Frame(c, InLeft, t.n, t.red, t.r), Under(t.red, h));
    }
  }

  /** Taking node `x` with one child `y` out of `c` leaves a lack iff `x` was black. */
  lemma TakenOutRb(c: Ctx, x: Tree, y: Tree, h: int)
    requires x.Node? && Rb(x, h) && RbCtx(c, h) && (y == x.l || y == x.r)
    ensures x.red ==> RedBlack(Plug(c, y))
    ensures !x.red ==> LackAt(c, y, h - 1)
  {
    if x.red {
      PlugRb(c, y, h);
    }
  }

  /** The parent of the minimum of `t`, when `t` has parent `par`. */
  function MinPar(t: Tree, par: Ptr): Ptr
    requires t.Node?
  {
    if t.l.Leaf? then par else MinPar(t.l, t.n)
  }

  lemma {:induction false} MinCell(t: Tree, par: Ptr, q: Pool)
    requires t.Node? && Rep(t, par, q)
    ensures var m := Min(t);
      && Has(q, m.n) && q[m.n] == Cell(NIL, RootOf(m.r), MinPar(t, par), m.red)
      && RootCell(m.r, m.n, q) && Nodes(m.r) <= Nodes(t)
    ensures t.l.Node? ==> MinPar(t, par) in Nodes(DelMin(t)) && Has(q, MinPar(t, par))
    ensures Nodes(DelMin(t)) == Nodes(t) - {Min(t).n} && Min(t).n in Nodes(t)
  {
    RepRoot(t, par, q);
    if t.l.Node? {
      MinCell(t.l, t.n, q);
    } else {
      RepRoot(t.r, t.n, q);
    }
  }

  /** The right child of the minimum is another node than the parent of the minimum. */
  lemma {:induction false} MinChildStays(t: Tree, par: Ptr, q: Pool)
    requires t.Node? && t.l.Node? && Rep(t, par, q)
    ensures MinPar(t, par) !in Nodes(Min(t).r) && Nodes(Min(t).r) <= Nodes(DelMin(t))
  {
    RepRoot(t, par, q);
    MinCell(t.l, t.n, q);
    if t.l.l.Node? {
      MinChildStays(t.l, t.n, q);
    }
  }

  lemma {:induction false} MinCtxPar(t: Tree, c: Ctx)
    requires t.Node?
    ensures Par(MinCtx(t, c)) == MinPar(t, Par(c))
    decreases t
  {
    if t.l.Node? {
      MinCtxPar(t.l, Frame(c, InLeft, t.n, t.red, t.r));
    }
  }

  /** Unhooking the minimum below the root: its parent adopts its right child. */
  lemma {:induction false} MinUnhooked(t: Tree, par: Ptr, q: Pool, q': Pool)
    requires t.Node? && t.l.Node? && Rep(t, par, q) && |q'| == |q|
    requires var (p, y) := (MinPar(t, par), Min(t).r);
      && Has(q, p) && q'[p] == q[p].(left := RootOf(y))
      && (y.Node? ==> Has(q, y.n) && q'[y.n] == q[y.n].(parent := p))
      && forall n :: n in Nodes(t) && n != p && n != RootOf(y) && Has(q, n) ==> q'[n] == q[n]
    ensures Rep(DelMin(t), par, q')
  {
    RepRoot(t, par, q);
    MinCell(t.l, t.n, q);
    RepFrame(t.r, t.n, q, q');
    if t.l.l.Leaf? {
      RepRoot(t.l, t.n, q);
      Adopted(t.l.r, t.l.n, t.n, q, q');
    } else {
      MinUnhooked(t.l, t.n, q, q');
    }
  }

  /** Taking `x` out from above its only child `y`. */
  lemma TakenOut(c: Ctx, x: Tree, y: Tree, q: Pool, q': Pool, top: Ptr)
    requires x.Node? && At(c, x, q, top) && |q'| == |q|
    requires (y == x.l && x.r.Leaf?) || (y == x.r && x.l.Leaf?)
    requires y.Node? ==> Has(q, y.n) && q'[y.n] == q[y.n].(parent := Par(c))
    requires c.Frame? ==> q'[c.n] == MkCell(c.side, RootOf(y), Par(c.up), c.red, RootOf(c.sib))
    requires forall n :: Has(q, n) && n != RootOf(y) && n != Par(c) ==> q'[n] == q[n]
    ensures At(c, y, q', if c.Top? then RootOf(y) else top)
  {
    RepRoot(x, Par(c), q);
    Adopted(y, x.n, Par(c), q, q');
    Hung(c, x.n, RootOf(y), q, q', top);
  }

  /** The pointers to the children of a node. */
  lemma ChildCells(t: Tree, par: Ptr, q: Pool)
    requires t.Node? && Rep(t, par, q)
    ensures RootCell(t.l, t.n, q) && RootCell(t.r, t.n, q)
  {
    RepRoot(t.l, t.n, q);
    RepRoot(t.r, t.n, q);
  }

  /** The nodes of `c`, the root of `t` and its two subtrees are all apart. */
  ghost predicate Apart(c: Ctx, t: Tree) {
    t.Node? ==>
      && NodesC(c) !! Nodes(t) && Nodes(t.l) !! Nodes(t.r)
      && t.n !in Nodes(t.l) && t.n !in Nodes(t.r)
  }

  /** `node` has taken the place of the root of `t`, whose right subtree has lost its minimum. */
  ghost function Succeeded(t: Tree): Tree
    requires t.Node? && t.r.Node?
  {
    Node(t.l, Min(t.r).n, t.red, DelMin(t.r))
  }

  lemma SucceededShape(c: Ctx, t: Tree, q: Pool, top: Ptr, q': Pool, top': Ptr)
    requires t.Node? && t.r.Node? && At(c, t, q, top)
    requires var m := Min(t.r);
      && RepC(c, m.n, q', top') && Rep(t.l, m.n, q') && Rep(DelMin(t.r), m.n, q')
      && Has(q', m.n) && q'[m.n] == Cell(RootOf(t.l), RootOf(DelMin(t.r)), Par(c), t.red)
    ensures At(MinCtx(t.r, Frame(c, InRight, Min(t.r).n, t.red, t.l)), Min(t.r).r, q', top')
  {
    var m := Min(t.r);
    RepRoot(t, Par(c), q);
    MinCell(t.r, t.n, q);
    assert At(c, Succeeded(t), q', top');
    var base := Frame(c, InRight, m.n, t.red, t.l);
    MinPosition(t.r, base);
    Focus(c, Succeeded(t), q', top');
    Focus(MinCtx(t.r, base), m.r, q', top');
  }

  lemma SucceededOrder(c: Ctx, t: Tree, q: Pool, top: Ptr)
    requires t.Node? && t.r.Node? && At(c, t, q, top)
    ensures InOrder(Plug(MinCtx(t.r, Frame(c, InRight, Min(t.r).n, t.red, t.l)), Min(t.r).r))
         == Delete(InOrder(Plug(c, t)), t.n)
  {
    var m := Min(t.r);
    MinPosition(t.r, Frame(c, InRight, m.n, t.red, t.l));
    MinOrder(t.r);
    assert InOrder(t.l) + [m.n] + InOrder(DelMin(t.r)) == InOrder(t.l) + ([m.n] + InOrder(DelMin(t.r)));
    DeletedAt(c, t, Succeeded(t), q, top);
  }

  lemma SucceededRb(c: Ctx, t: Tree, h: int) returns (g: int)
    requires t.Node? && t.r.Node? && Rb(t, h) && RbCtx(c, h) && (t.red ==> c.Frame? && !c.red)
    ensures var (m, e) := (Min(t.r), MinCtx(t.r, Frame(c, InRight, Min(t.r).n, t.red, t.l)));
      && (m.red ==> RedBlack(Plug(e, m.r)))
      && (!m.red ==> LackAt(e, m.r, g))
  {
    var m := Min(t.r);
    var base := Frame(c, InRight, m.n, t.red, t.l);
    var k := Under(t.red, h);
    assert RbCtx(base, k);
    g := MinRb(t.r, base, k);
    TakenOutRb(MinCtx(t.r, base), m, m.r, g);
    g := g - 1;
  }

  /** struct rb_root and the pool of nodes. */
  class RbRoot {
    var rbNode: Ptr
    var pool: Pool

    constructor (size: nat)
      ensures rbNode == NIL && |pool| == size
    {
      rbNode := NIL;
      pool := seq(size, _ => Cell(NIL, NIL, NIL, false));
    }

    /** rb_link_node: `node` becomes a red leaf at a null link, which is the root pointer or the
        `onLeft` link of `parent`. */
    method LinkNode(node: Ptr, parent: Ptr, onLeft: bool, ghost c: Ctx)
      requires At(c, Leaf, pool, rbNode)
      requires Has(pool, node) && node !in NodesC(c)
      requires parent == Par(c) && (c.Frame? ==> onLeft == (c.side == InLeft))
      modifies this
      ensures |pool| == |old(pool)|
      ensures At(c, Node(Leaf, node, true, Leaf), pool, rbNode)
    {
      Around(c, Leaf, pool, rbNode);
      pool := pool[node := Cell(NIL, NIL, parent, true)];
      if parent == NIL {
        rbNode := node;
      } else if onLeft {
        pool := pool[parent := pool[parent].(left := node)];
      } else {
        pool := pool[parent := pool[parent].(right := node)];
      }
      Hung(c, NIL, node, old(pool), pool, old(rbNode));
    }

    /** rb_rotate_left, as stores. */
    method RotateLeft(node: Ptr)
      requires Rotatable(node, InLeft, pool)
      modifies this
      ensures Rotated(node, InLeft, old(pool), pool)
      ensures rbNode == if old(pool[node]).parent == NIL then old(pool[node]).right else old(rbNode)
    {
      var right := pool[node].right;
      var parent := pool[node].parent;
      pool := pool[node := pool[node].(right := pool[right].left)];
      if pool[node].right != NIL {
        pool := pool[pool[right].left := pool[pool[right].left].(parent := node)];
      }
      pool := pool[right := pool[right].(left := node)];
      pool := pool[node := pool[node].(parent := right)];
      pool := pool[right := pool[right].(parent := parent)];
      if parent != NIL {
        if pool[parent].left == node {
          pool := pool[parent := pool[parent].(left := right)];
        } else {
          pool := pool[parent := pool[parent].(right := right)];
        }
      } else {
        rbNode := right;
      }
    }

    /** rb_rotate_left, on the tree. */
    method RotateLeftAt(node: Ptr, ghost c: Ctx, ghost t: Tree)
      requires CanRotate(t, InLeft) && t.n == node
      requires At(c, t, pool, rbNode)
      modifies this
      ensures |pool| == |old(pool)|
      ensures At(c, Rotate(t, InLeft), pool, rbNode)
      ensures InOrder(Plug(c, Rotate(t, InLeft))) == InOrder(Plug(c, t))
    {
      TreeRotatable(c, t, InLeft, pool, rbNode);
      RotateLeft(node);
      RotatedAt(c, t, InLeft, old(pool), pool, old(rbNode));
      RotationKeepsOrder(t, InLeft);
      PlugSame(c, t, Rotate(t, InLeft));
    }

    /** rb_rotate_right, as stores. */
    method RotateRight(node: Ptr)
      requires Rotatable(node, InRight, pool)
      modifies this
      ensures Rotated(node, InRight, old(pool), pool)
      ensures rbNode == if old(pool[node]).parent == NIL then old(pool[node]).left else old(rbNode)
    {
      var left := pool[node].left;
      var parent := pool[node].parent;
      pool := pool[node := pool[node].(left := pool[left].right)];
      if pool[node].left != NIL {
        pool := pool[pool[left].right := pool[pool[left].right].(parent := node)];
      }
      pool := pool[left := pool[left].(right := node)];
      pool := pool[node := pool[node].(parent := left)];
      pool := pool[left := pool[left].(parent := parent)];
      if parent != NIL {
        if pool[parent].right == node {
          pool := pool[parent := pool[parent].(right := left)];
        } else {
          pool := pool[parent := pool[parent].(left := left)];
        }
      } else {
        rbNode := left;
      }
    }

    /** rb_rotate_right, on the tree. */
    method RotateRightAt(node: Ptr, ghost c: Ctx, ghost t: Tree)
      requires CanRotate(t, InRight) && t.n == node
      requires At(c, t, pool, rbNode)
      modifies this
      ensures |pool| == |old(pool)|
      ensures At(c, Rotate(t, InRight), pool, rbNode)
      ensures InOrder(Plug(c, Rotate(t, InRight))) == InOrder(Plug(c, t))
    {
      TreeRotatable(c, t, InRight, pool, rbNode);
      RotateRight(node);
      RotatedAt(c, t, InRight, old(pool), pool, old(rbNode));
      RotationKeepsOrder(t, InRight);
      PlugSame(c, t, Rotate(t, InRight));
    }

    /** The node gets the given colour. */
    method Paint(node: Ptr, red: bool, ghost c: Ctx, ghost t: Tree)
      requires t.Node? && t.n == node
      requires At(c, t, pool, rbNode)
      modifies `pool
      ensures |pool| == |old(pool)|
      ensures At(c, Painted(t, red), pool, rbNode)
      ensures InOrder(Plug(c, Painted(t, red))) == InOrder(Plug(c, t))
    {
      pool := pool[node := pool[node].(red := red)];
      PaintedAt(c, t, red, old(pool), pool, rbNode);
    }

    /** The uncle is red: recolour, and the grandparent is the red node to look at next. */
    method Recolour(parent: Ptr, uncle: Ptr, gparent: Ptr, ghost c: Ctx, ghost t: Tree, ghost h: int)
      returns (ghost d: Ctx, ghost u: Tree)
      requires At(c, t, pool, rbNode) && RedAt(c, t, h)
      requires c.Frame? && c.red && c.n == parent && c.up.Frame? && c.up.n == gparent
      requires IsRed(c.up.sib) && c.up.sib.n == uncle
      modifies `pool
      ensures |pool| == |old(pool)|
      ensures At(d, u, pool, rbNode) && RedAt(d, u, h + 1)
      ensures d == c.up.up && u.n == gparent
      ensures InOrder(Plug(d, u)) == InOrder(Plug(c, t))
    {
      ghost var g := c.up;
      ghost var pt := Mk(c.side, t, parent, true, c.sib);
      FocusStep(c, t, pool, rbNode);
      FocusAcross(g, pt, pool, rbNode);
      Paint(uncle, false, Frame(g.up, Other(g.side), gparent, g.red, pt), g.sib);
      g := g.(sib := Painted(g.sib, false));
      FocusAcross(g, pt, pool, rbNode);
      Paint(parent, false, g, pt);
      pt := Painted(pt, false);
      FocusStep(g, pt, pool, rbNode);
      u := Mk(g.side, pt, gparent, g.red, g.sib);
      Paint(gparent, true, g.up, u);
      u := Painted(u, true);
      d := g.up;
      RecolouredRb(c, t, h);
    }

    /** `node` is the inner grandchild: rotate it into its parent's place. */
    method StraightenLeft(node: Ptr, parent: Ptr, ghost c0: Ctx, ghost t0: Tree, ghost h: int)
      returns (ghost c: Ctx, ghost t: Tree)
      requires At(c0, t0, pool, rbNode) && RedAt(c0, t0, h) && t0.n == node
      requires c0.Frame? && c0.red && c0.n == parent && c0.side == InRight
      modifies this
      ensures |pool| == |old(pool)|
      ensures At(c, t, pool, rbNode) && RedAt(c, t, h) && t.n == parent
      ensures c.Frame? && c.red && c.n == node && c.up == c0.up && c.side == InLeft
      ensures InOrder(Plug(c, t)) == InOrder(Plug(c0, t0))
    {
      FocusStep(c0, t0, pool, rbNode);
      RotateLeftAt(parent, c0.up, Mk(c0.side, t0, c0.n, true, c0.sib));
      StraightenedRb(c0, t0, h);
      c, t := Frame(c0.up, InLeft, t0.n, true, t0.r), Mk(InLeft, c0.sib, c0.n, true, t0.l);
      FocusStep(c, t, pool, rbNode);
    }

    /** The uncle is black and the parent is a left child: one or two rotations, and the tree is
        in order. */
    method InsertUnderLeft(node0: Ptr, parent0: Ptr, gparent: Ptr, ghost c0: Ctx, ghost t0: Tree, ghost h: int)
      returns (node: Ptr, ghost c: Ctx, ghost t: Tree)
      requires At(c0, t0, pool, rbNode) && RedAt(c0, t0, h) && t0.n == node0
      requires c0.Frame? && c0.red && c0.n == parent0 && c0.up.Frame? && c0.up.n == gparent
      requires c0.up.side == InLeft && !IsRed(c0.up.sib)
      modifies this
      ensures |pool| == |old(pool)|
      ensures At(c, t, pool, rbNode) && RedAt(c, t, h) && t.n == node
      ensures c.Frame? && !c.red && c.up == c0.up.up
      ensures InOrder(Plug(c, t)) == InOrder(Plug(c0, t0))
    {
      var parent := parent0;
      node, c, t := node0, c0, t0;
      if pool[parent].right == node {
        c, t := StraightenLeft(node, parent, c, t, h);
        parent, node := node, parent;
      }
      ghost var g := c.up;
      ghost var pt := Mk(InLeft, t, parent, true, c.sib);
      FocusStep(c, t, pool, rbNode);
      Paint(parent, false, g, pt);
      pt := Painted(pt, false);
      FocusStep(g, pt, pool, rbNode);
      ghost var gt := Mk(InLeft, pt, gparent, false, g.sib);
      Paint(gparent, true, g.up, gt);
      RotateRightAt(gparent, g.up, Painted(gt, true));
      InsertedRb(c, t, h);
      c := Frame(g.up, InLeft, parent, false, Mk(InLeft, c.sib, gparent, true, g.sib));
      FocusStep(c, t, pool, rbNode);
    }

    /** `node` is the inner grandchild: rotate it into its parent's place. */
    method StraightenRight(node: Ptr, parent: Ptr, ghost c0: Ctx, ghost t0: Tree, ghost h: int)
      returns (ghost c: Ctx, ghost t: Tree)
      requires At(c0, t0, pool, rbNode) && RedAt(c0, t0, h) && t0.n == node
      requires c0.Frame? && c0.red && c0.n == parent && c0.side == InLeft
      modifies this
      ensures |pool| == |old(pool)|
      ensures At(c, t, pool, rbNode) && RedAt(c, t, h) && t.n == parent
      ensures c.Frame? && c.red && c.n == node && c.up == c0.up && c.side == InRight
      ensures InOrder(Plug(c, t)) == InOrder(Plug(c0, t0))
    {
      FocusStep(c0, t0, pool, rbNode);
      RotateRightAt(parent, c0.up, Mk(c0.side, t0, c0.n, true, c0.sib));
      StraightenedRb(c0, t0, h);
      c, t := Frame(c0.up, InRight, t0.n, true, t0.l), Mk(InRight, c0.sib, c0.n, true, t0.r);
      FocusStep(c, t, pool, rbNode);
    }

    /** The mirror image of InsertUnderLeft. */
    method InsertUnderRight(node0: Ptr, parent0: Ptr, gparent: Ptr, ghost c0: Ctx, ghost t0: Tree, ghost h: int)
      returns (node: Ptr, ghost c: Ctx, ghost t: Tree)
      requires At(c0, t0, pool, rbNode) && RedAt(c0, t0, h) && t0.n == node0
      requires c0.Frame? && c0.red && c0.n == parent0 && c0.up.Frame? && c0.up.n == gparent
      requires c0.up.side == InRight && !IsRed(c0.up.sib)
      modifies this
      ensures |pool| == |old(pool)|
      ensures At(c, t, pool, rbNode) && RedAt(c, t, h) && t.n == node
      ensures c.Frame? && !c.red && c.up == c0.up.up
      ensures InOrder(Plug(c, t)) == InOrder(Plug(c0, t0))
    {
      var parent := parent0;
      node, c, t := node0, c0, t0;
      if pool[parent].left == node {
        c, t := StraightenRight(node, parent, c, t, h);
        parent, node := node, parent;
      }
      ghost var g := c.up;
      ghost var pt := Mk(InRight, t, parent, true, c.sib);
      FocusStep(c, t, pool, rbNode);
      Paint(parent, false, g, pt);
      pt := Painted(pt, false);
      FocusStep(g, pt, pool, rbNode);
      ghost var gt := Mk(InRight, pt, gparent, false, g.sib);
      Paint(gparent, true, g.up, gt);
      RotateLeftAt(gparent, g.up, Painted(gt, true));
      InsertedRb(c, t, h);
      c := Frame(g.up, InRight, parent, false, Mk(InRight, c.sib, gparent, true, g.sib));
      FocusStep(c, t, pool, rbNode);
    }

    /** The body of the loop of rb_insert_color: `node` and `parent` are red. */
    method InsertStep(node0: Ptr, parent: Ptr, ghost c0: Ctx, ghost t0: Tree, ghost h0: int)
      returns (node: Ptr, ghost c: Ctx, ghost t: Tree, ghost h: int)
      requires At(c0, t0, pool, rbNode) && RedAt(c0, t0, h0) && t0.n == node0
      requires c0.Frame? && c0.red && c0.n == parent
      modifies this
      ensures |pool| == |old(pool)|
      ensures At(c, t, pool, rbNode) && RedAt(c, t, h) && t.n == node
      ensures Depth(c) < Depth(c0)
      ensures InOrder(Plug(c, t)) == InOrder(Plug(c0, t0))
    {
      Family(c0, t0, h0, pool, rbNode);
      h := h0;
      var gparent := pool[parent].parent;
      if parent == pool[gparent].left {
        var uncle := pool[gparent].right;
        if uncle != NIL && pool[uncle].red {
          c, t := Recolour(parent, uncle, gparent, c0, t0, h);
          node, h := gparent, h + 1;
        } else {
          node, c, t := InsertUnderLeft(node0, parent, gparent, c0, t0, h);
        }
      } else {
        var uncle := pool[gparent].left;
        if uncle != NIL && pool[uncle].red {
          c, t := Recolour(parent, uncle, gparent, c0, t0, h);
          node, h := gparent, h + 1;
        } else {
          node, c, t := InsertUnderRight(node0, parent, gparent, c0, t0, h);
        }
      }
      assert Depth(c0) == Depth(c0.up.up) + 2;
    }

    /** rb_insert_color: `node` has just been linked in at `c0`.  The in-order sequence stays, and
        the tree is a red-black tree again. */
    method InsertColor(node0: Ptr, ghost c0: Ctx, ghost t0: Tree, ghost h0: int) returns (ghost tree: Tree)
      requires At(c0, t0, pool, rbNode) && RedAt(c0, t0, h0) && t0.n == node0
      modifies this
      ensures |pool| == |old(pool)|
      ensures Rep(tree, NIL, pool) && rbNode == RootOf(tree) && RedBlack(tree)
      ensures InOrder(tree) == InOrder(Plug(c0, t0))
    {
      var node := node0;
      ghost var c, t, h := c0, t0, h0;
      Around(c, t, pool, rbNode);
      var parent := pool[node].parent;
      while parent != NIL && pool[parent].red
        invariant |pool| == |old(pool)|
        invariant At(c, t, pool, rbNode) && RedAt(c, t, h) && t.n == node
        invariant parent == Par(c) && (parent != NIL ==> Has(pool, parent) && pool[parent].red == c.red)
        invariant InOrder(Plug(c, t)) == InOrder(Plug(c0, t0))
        decreases Depth(c)
      {
        node, c, t, h := InsertStep(node, parent, c, t, h);
        Around(c, t, pool, rbNode);
        parent := pool[node].parent;
      }
      Focus(c, t, pool, rbNode);
      BlackenedRb(c, t, h);
      Paint(rbNode, false, Top, Plug(c, t));
      tree := Blackened(Plug(c, t));
    }

    /** The sibling of the left child is red: rotate, and it has a black sibling. */
    method RedSiblingLeft(parent: Ptr, sibling0: Ptr, ghost c: Ctx, ghost t: Tree, ghost h: int) returns (sibling: Ptr)
      requires At(c, t, pool, rbNode) && LackAt(c, t, h)
      requires c.Frame? && c.n == parent && c.side == InLeft && IsRed(c.sib) && c.sib.n == sibling0
      modifies this
      ensures |pool| == |old(pool)|
      ensures At(AfterRedSibling(c), t, pool, rbNode)
      ensures sibling == RootOf(Near(c))
      ensures InOrder(Plug(AfterRedSibling(c), t)) == InOrder(Plug(c, t))
    {
      FocusAcross(c, t, pool, rbNode);
      Paint(sibling0, false, Frame(c.up, Other(c.side), c.n, c.red, t), c.sib);
      ghost var d := c.(sib := Painted(c.sib, false));
      FocusAcross(d, t, pool, rbNode);
      FocusStep(d, t, pool, rbNode);
      ghost var u := Mk(c.side, t, c.n, c.red, d.sib);
      Paint(parent, true, c.up, u);
      RotateLeftAt(parent, c.up, Painted(u, true));
      ghost var e := AfterRedSibling(c);
      FocusStep(e.up, Mk(e.side, t, e.n, true, e.sib), pool, rbNode);
      FocusStep(e, t, pool, rbNode);
      Around(e, t, pool, rbNode);
      sibling := pool[parent].right;
    }

    /** The near nephew of the left child is red and the far one is not: rotate, and the far
        one is red. */
    method NearRedLeft(parent: Ptr, sibling0: Ptr, ghost c: Ctx, ghost t: Tree) returns (sibling: Ptr)
      requires At(c, t, pool, rbNode)
      requires c.Frame? && c.n == parent && c.side == InLeft && c.sib.Node? && c.sib.n == sibling0
      requires IsRed(Near(c))
      modifies this
      ensures |pool| == |old(pool)|
      ensures At(AfterNearRed(c), t, pool, rbNode)
      ensures sibling == Near(c).n
      ensures InOrder(Plug(AfterNearRed(c), t)) == InOrder(Plug(c, t))
    {
      ghost var (s, near, far) := (c.side, Near(c), Far(c));
      ghost var d := Frame(c.up, Other(s), c.n, c.red, t);
      ghost var e := Frame(d, s, c.sib.n, c.sib.red, far);
      FocusAcross(c, t, pool, rbNode);
      FocusStep(e, near, pool, rbNode);
      Around(e, near, pool, rbNode);
      if pool[sibling0].left != NIL {
        Paint(pool[sibling0].left, false, e, near);
      }
      ghost var v := Mk(s, Painted(near, false), c.sib.n, c.sib.red, far);
      FocusStep(e, Painted(near, false), pool, rbNode);
      Paint(sibling0, true, d, v);
      RotateRightAt(sibling0, d, Painted(v, true));
      ghost var f := AfterNearRed(c);
      FocusAcross(f, t, pool, rbNode);
      Around(f, t, pool, rbNode);
      sibling := pool[parent].right;
    }

    /** The far nephew of the left child is red: a last rotation, and the tree is in order. */
    method FarRedLeft(parent: Ptr, sibling: Ptr, ghost c: Ctx, ghost t: Tree)
      requires At(c, t, pool, rbNode)
      requires c.Frame? && c.n == parent && c.side == InLeft && c.sib.Node? && c.sib.n == sibling
      requires IsRed(Far(c))
      modifies this
      ensures |pool| == |old(pool)|
      ensures At(c.up, AfterFarRed(c, t), pool, rbNode)
      ensures InOrder(Plug(c.up, AfterFarRed(c, t))) == InOrder(Plug(c, t))
    {
      ghost var (s, near, far) := (c.side, Near(c), Far(c));
      Around(c, t, pool, rbNode);
      FocusAcross(c, t, pool, rbNode);
      Paint(sibling, pool[parent].red, Frame(c.up, Other(s), c.n, c.red, t), c.sib);
      ghost var d := c.(sib := Painted(c.sib, c.red));
      FocusAcross(d, t, pool, rbNode);
      FocusStep(d, t, pool, rbNode);
      Paint(parent, false, c.up, Mk(s, t, c.n, c.red, d.sib));
      d := d.(red := false);
      FocusStep(d, t, pool, rbNode);
      PaintFarLeft(sibling, d, t);
      d := d.(sib := Mk(s, near, sibling, c.red, Painted(far, false)));
      FocusStep(d, t, pool, rbNode);
      RotateLeftAt(parent, c.up, Mk(s, t, c.n, false, d.sib));
    }

    method PaintFarLeft(sibling: Ptr, ghost c: Ctx, ghost t: Tree)
      requires At(c, t, pool, rbNode)
      requires c.Frame? && c.side == InLeft && c.sib.Node? && c.sib.n == sibling && IsRed(Far(c))
      modifies this
      ensures |pool| == |old(pool)|
      ensures var d := c.(sib := Mk(c.side, Near(c), sibling, c.sib.red, Painted(Far(c), false)));
        At(d, t, pool, rbNode) && InOrder(Plug(d, t)) == InOrder(Plug(c, t))
    {
      ghost var (s, far) := (c.side, Far(c));
      ghost var e := Frame(Frame(c.up, Other(s), c.n, c.red, t), Other(s), sibling, c.sib.red, Near(c));
      FocusAcross(c, t, pool, rbNode);
      FocusStep(e, far, pool, rbNode);
      Around(e, far, pool, rbNode);
      if pool[sibling].right != NIL {
        Paint(pool[sibling].right, false, e, far);
      }
      FocusStep(e, Painted(far, false), pool, rbNode);
      ghost var d := c.(sib := Mk(s, Near(c), sibling, c.sib.red, Painted(far, false)));
      FocusAcross(d, t, pool, rbNode);
    }

    /** The sibling of the right child is red: rotate, and it has a black sibling. */
    method RedSiblingRight(parent: Ptr, sibling0: Ptr, ghost c: Ctx, ghost t: Tree, ghost h: int) returns (sibling: Ptr)
      requires At(c, t, pool, rbNode) && LackAt(c, t, h)
      requires c.Frame? && c.n == parent && c.side == InRight && IsRed(c.sib) && c.sib.n == sibling0
      modifies this
      ensures |pool| == |old(pool)|
      ensures At(AfterRedSibling(c), t, pool, rbNode)
      ensures sibling == RootOf(Near(c))
      ensures InOrder(Plug(AfterRedSibling(c), t)) == InOrder(Plug(c, t))
    {
      FocusAcross(c, t, pool, rbNode);
      Paint(sibling0, false, Frame(c.up, Other(c.side), c.n, c.red, t), c.sib);
      ghost var d := c.(sib := Painted(c.sib, false));
      FocusAcross(d, t, pool, rbNode);
      FocusStep(d, t, pool, rbNode);
      ghost var u := Mk(c.side, t, c.n, c.red, d.sib);
      Paint(parent, true, c.up, u);
      RotateRightAt(parent, c.up, Painted(u, true));
      ghost var e := AfterRedSibling(c);
      FocusStep(e.up, Mk(e.side, t, e.n, true, e.sib), pool, rbNode);
      FocusStep(e, t, pool, rbNode);
      Around(e, t, pool, rbNode);
      sibling := pool[parent].left;
    }

    /** The near nephew of the right child is red and the far one is not: rotate, and the far
        one is red. */
    method NearRedRight(parent: Ptr, sibling0: Ptr, ghost c: Ctx, ghost t: Tree) returns (sibling: Ptr)
      requires At(c, t, pool, rbNode)
      requires c.Frame? && c.n == parent && c.side == InRight && c.sib.Node? && c.sib.n == sibling0
      requires IsRed(Near(c))
      modifies this
      ensures |pool| == |old(pool)|
      ensures At(AfterNearRed(c), t, pool, rbNode)
      ensures sibling == Near(c).n
      ensures InOrder(Plug(AfterNearRed(c), t)) == InOrder(Plug(c, t))
    {
      ghost var (s, near, far) := (c.side, Near(c), Far(c));
      ghost var d := Frame(c.up, Other(s), c.n, c.red, t);
      ghost var e := Frame(d, s, c.sib.n, c.sib.red, far);
      FocusAcross(c, t, pool, rbNode);
      FocusStep(e, near, pool, rbNode);
      Around(e, near, pool, rbNode);
      if pool[sibling0].right != NIL {
        Paint(pool[sibling0].right, false, e, near);
      }
      ghost var v := Mk(s, Painted(near, false), c.sib.n, c.sib.red, far);
      FocusStep(e, Painted(near, false), pool, rbNode);
      Paint(sibling0, true, d, v);
      RotateLeftAt(sibling0, d, Painted(v, true));
      ghost var f := AfterNearRed(c);
      FocusAcross(f, t, pool, rbNode);
      Around(f, t, pool, rbNode);
      sibling := pool[parent].left;
    }

    /** The far nephew of the right child is red: a last rotation, and the tree is in order. */
    method FarRedRight(parent: Ptr, sibling: Ptr, ghost c: Ctx, ghost t: Tree)
      requires At(c, t, pool, rbNode)
      requires c.Frame? && c.n == parent && c.side == InRight && c.sib.Node? && c.sib.n == sibling
      requires IsRed(Far(c))
      modifies this
      ensures |pool| == |old(pool)|
      ensures At(c.up, AfterFarRed(c, t), pool, rbNode)
      ensures InOrder(Plug(c.up, AfterFarRed(c, t))) == InOrder(Plug(c, t))
    {
      ghost var (s, near, far) := (c.side, Near(c), Far(c));
      Around(c, t, pool, rbNode);
      FocusAcross(c, t, pool, rbNode);
      Paint(sibling, pool[parent].red, Frame(c.up, Other(s), c.n, c.red, t), c.sib);
      ghost var d := c.(sib := Painted(c.sib, c.red));
      FocusAcross(d, t, pool, rbNode);
      FocusStep(d, t, pool, rbNode);
      Paint(parent, false, c.up, Mk(s, t, c.n, c.red, d.sib));
      d := d.(red := false);
      FocusStep(d, t, pool, rbNode);
      PaintFarRight(sibling, d, t);
      d := d.(sib := Mk(s, near, sibling, c.red, Painted(far, false)));
      FocusStep(d, t, pool, rbNode);
      RotateRightAt(parent, c.up, Mk(s, t, c.n, false, d.sib));
    }

    method PaintFarRight(sibling: Ptr, ghost c: Ctx, ghost t: Tree)
      requires At(c, t, pool, rbNode)
      requires c.Frame? && c.side == InRight && c.sib.Node? && c.sib.n == sibling && IsRed(Far(c))
      modifies this
      ensures |pool| == |old(pool)|
      ensures var d := c.(sib := Mk(c.side, Near(c), sibling, c.sib.red, Painted(Far(c), false)));
        At(d, t, pool, rbNode) && InOrder(Plug(d, t)) == InOrder(Plug(c, t))
    {
      ghost var (s, far) := (c.side, Far(c));
      ghost var e := Frame(Frame(c.up, Other(s), c.n, c.red, t), Other(s), sibling, c.sib.red, Near(c));
      FocusAcross(c, t, pool, rbNode);
      FocusStep(e, far, pool, rbNode);
      Around(e, far, pool, rbNode);
      if pool[sibling].left != NIL {
        Paint(pool[sibling].left, false, e, far);
      }
      FocusStep(e, Painted(far, false), pool, rbNode);
      ghost var d := c.(sib := Mk(s, Near(c), sibling, c.sib.red, Painted(far, false)));
      FocusAcross(d, t, pool, rbNode);
    }

    /** Both nephews are black: the sibling turns red, and the parent is the next to look at. */
    method BlackNephews(parent0: Ptr, sibling: Ptr, ghost c: Ctx, ghost t: Tree, ghost h: int)
      returns (child: Ptr, parent: Ptr)
      requires At(c, t, pool, rbNode) && c.Frame? && c.n == parent0 && c.sib.Node? && c.sib.n == sibling
      modifies `pool
      ensures |pool| == |old(pool)|
      ensures At(c.up, AfterBlackNephews(c, t), pool, rbNode)
      ensures child == c.n && parent == Par(c.up)
      ensures InOrder(Plug(c.up, AfterBlackNephews(c, t))) == InOrder(Plug(c, t))
    {
      FocusAcross(c, t, pool, rbNode);
      Paint(sibling, true, Frame(c.up, Other(c.side), c.n, c.red, t), c.sib);
      ghost var d := c.(sib := Painted(c.sib, true));
      FocusAcross(d, t, pool, rbNode);
      FocusStep(d, t, pool, rbNode);
      Around(c.up, AfterBlackNephews(c, t), pool, rbNode);
      child := parent0;
      parent := pool[child].parent;
    }

    /** A nephew of the left child is red: one or two rotations, and the tree is in order. */
    method RedNephewLeft(parent: Ptr, sibling0: Ptr, ghost c0: Ctx, ghost t: Tree, ghost h: int)
      returns (ghost tree: Tree)
      requires At(c0, t, pool, rbNode) && LackAt(c0, t, h) && !IsRed(t)
      requires c0.Frame? && c0.n == parent && c0.side == InLeft
      requires c0.sib.Node? && c0.sib.n == sibling0 && !c0.sib.red && (IsRed(Near(c0)) || IsRed(Far(c0)))
      modifies this
      ensures |pool| == |old(pool)|
      ensures At(Top, tree, pool, rbNode) && RedBlack(tree)
      ensures InOrder(tree) == InOrder(Plug(c0, t))
    {
      ghost var c := c0;
      var sibling := sibling0;
      NephewPointers(c, t, pool, rbNode);
      if pool[sibling].right == NIL || !pool[pool[sibling].right].red {
        NearRedRb(c, t, h);
        sibling := NearRedLeft(parent, sibling, c, t);
        c := AfterNearRed(c);
      }
      FarRedRb(c, t, h);
      FarRedLeft(parent, sibling, c, t);
      Focus(c.up, AfterFarRed(c, t), pool, rbNode);
      tree := Plug(c.up, AfterFarRed(c, t));
    }

    /** The erase fix-up of a left child whose sibling is black. */
    method EraseBlackSiblingLeft(parent0: Ptr, sibling0: Ptr, ghost c0: Ctx, ghost t0: Tree, ghost h0: int)
      returns (child: Ptr, parent: Ptr, ghost c: Ctx, ghost t: Tree, ghost h: int)
      requires At(c0, t0, pool, rbNode) && LackAt(c0, t0, h0) && !IsRed(t0)
      requires c0.Frame? && c0.n == parent0 && c0.side == InLeft
      requires c0.sib.Node? && c0.sib.n == sibling0 && !c0.sib.red
      modifies this
      ensures |pool| == |old(pool)|
      ensures At(c, t, pool, rbNode) && LackAt(c, t, h) && child == RootOf(t)
      ensures c.Frame? ==> parent == c.n
      ensures c.Top? || (c == c0.up && (c0.red ==> IsRed(t)))
      ensures InOrder(Plug(c, t)) == InOrder(Plug(c0, t0))
    {
      parent, c, t, h := parent0, c0, t0, h0;
      var sibling := sibling0;
      NephewPointers(c, t, pool, rbNode);
      if (pool[sibling].left == NIL || !pool[pool[sibling].left].red) &&
         (pool[sibling].right == NIL || !pool[pool[sibling].right].red)
      {
        BlackNephewsRb(c, t, h);
        child, parent := BlackNephews(parent, sibling, c, t, h);
        c, t, h := c.up, AfterBlackNephews(c, t), if c.red then h else h + 1;
      } else {
        t := RedNephewLeft(parent, sibling, c, t, h);
        c, h := Top, BlackHeight(t);
        child := rbNode;
      }
    }

    /** The body of the loop of the erase fix-up, for a left child. */
    method EraseStepLeft(parent0: Ptr, ghost c0: Ctx, ghost t0: Tree, ghost h0: int)
      returns (child: Ptr, parent: Ptr, ghost c: Ctx, ghost t: Tree, ghost h: int)
      requires At(c0, t0, pool, rbNode) && LackAt(c0, t0, h0) && !IsRed(t0)
      requires c0.Frame? && c0.n == parent0 && c0.side == InLeft
      modifies this
      ensures |pool| == |old(pool)|
      ensures At(c, t, pool, rbNode) && LackAt(c, t, h) && child == RootOf(t)
      ensures c.Frame? ==> parent == c.n
      ensures c.Top? || Depth(c) < Depth(c0) || (Depth(c) == Depth(c0) && IsRed(t))
      ensures InOrder(Plug(c, t)) == InOrder(Plug(c0, t0))
    {
      ghost var d := c0;
      SiblingExists(c0, t0, h0);
      Around(c0, t0, pool, rbNode);
      var sibling := pool[parent0].right;
      if pool[sibling].red {
        RedSiblingRb(c0, t0, h0);
        sibling := RedSiblingLeft(parent0, sibling, c0, t0, h0);
        d := AfterRedSibling(c0);
        SiblingExists(d, t0, h0);
      }
      child, parent, c, t, h := EraseBlackSiblingLeft(parent0, sibling, d, t0, h0);
    }

    /** A nephew of the right child is red: one or two rotations, and the tree is in order. */
    method RedNephewRight(parent: Ptr, sibling0: Ptr, ghost c0: Ctx, ghost t: Tree, ghost h: int)
      returns (ghost tree: Tree)
      requires At(c0, t, pool, rbNode) && LackAt(c0, t, h) && !IsRed(t)
      requires c0.Frame? && c0.n == parent && c0.side == InRight
      requires c0.sib.Node? && c0.sib.n == sibling0 && !c0.sib.red && (IsRed(Near(c0)) || IsRed(Far(c0)))
      modifies this
      ensures |pool| == |old(pool)|
      ensures At(Top, tree, pool, rbNode) && RedBlack(tree)
      ensures InOrder(tree) == InOrder(Plug(c0, t))
    {
      ghost var c := c0;
      var sibling := sibling0;
      NephewPointers(c, t, pool, rbNode);
      if pool[sibling].left == NIL || !pool[pool[sibling].left].red {
        NearRedRb(c, t, h);
        sibling := NearRedRight(parent, sibling, c, t);
        c := AfterNearRed(c);
      }
      FarRedRb(c, t, h);
      FarRedRight(parent, sibling, c, t);
      Focus(c.up, AfterFarRed(c, t), pool, rbNode);
      tree := Plug(c.up, AfterFarRed(c, t));
    }

    /** The erase fix-up of a right child whose sibling is black. */
    method EraseBlackSiblingRight(parent0: Ptr, sibling0: Ptr, ghost c0: Ctx, ghost t0: Tree, ghost h0: int)
      returns (child: Ptr, parent: Ptr, ghost c: Ctx, ghost t: Tree, ghost h: int)
      requires At(c0, t0, pool, rbNode) && LackAt(c0, t0, h0) && !IsRed(t0)
      requires c0.Frame? && c0.n == parent0 && c0.side == InRight
      requires c0.sib.Node? && c0.sib.n == sibling0 && !c0.sib.red
      modifies this
      ensures |pool| == |old(pool)|
      ensures At(c, t, pool, rbNode) && LackAt(c, t, h) && child == RootOf(t)
      ensures c.Frame? ==> parent == c.n
      ensures c.Top? || (c == c0.up && (c0.red ==> IsRed(t)))
      ensures InOrder(Plug(c, t)) == InOrder(Plug(c0, t0))
    {
      parent, c, t, h := parent0, c0, t0, h0;
      var sibling := sibling0;
      NephewPointers(c, t, pool, rbNode);
      if (pool[sibling].left == NIL || !pool[pool[sibling].left].red) &&
         (pool[sibling].right == NIL || !pool[pool[sibling].right].red)
      {
        BlackNephewsRb(c, t, h);
        child, parent := BlackNephews(parent, sibling, c, t, h);
        c, t, h := c.up, AfterBlackNephews(c, t), if c.red then h else h + 1;
      } else {
        t := RedNephewRight(parent, sibling, c, t, h);
        c, h := Top, BlackHeight(t);
        child := rbNode;
      }
    }

    /** The body of the loop of the erase fix-up, for a right child. */
    method EraseStepRight(parent0: Ptr, ghost c0: Ctx, ghost t0: Tree, ghost h0: int)
      returns (child: Ptr, parent: Ptr, ghost c: Ctx, ghost t: Tree, ghost h: int)
      requires At(c0, t0, pool, rbNode) && LackAt(c0, t0, h0) && !IsRed(t0)
      requires c0.Frame? && c0.n == parent0 && c0.side == InRight
      modifies this
      ensures |pool| == |old(pool)|
      ensures At(c, t, pool, rbNode) && LackAt(c, t, h) && child == RootOf(t)
      ensures c.Frame? ==> parent == c.n
      ensures c.Top? || Depth(c) < Depth(c0) || (Depth(c) == Depth(c0) && IsRed(t))
      ensures InOrder(Plug(c, t)) == InOrder(Plug(c0, t0))
    {
      ghost var d := c0;
      SiblingExists(c0, t0, h0);
      Around(c0, t0, pool, rbNode);
      var sibling := pool[parent0].left;
      if pool[sibling].red {
        RedSiblingRb(c0, t0, h0);
        sibling := RedSiblingRight(parent0, sibling, c0, t0, h0);
        d := AfterRedSibling(c0);
        SiblingExists(d, t0, h0);
      }
      child, parent, c, t, h := EraseBlackSiblingRight(parent0, sibling, d, t0, h0);
    }

    /** The colour fix-up of rb_erase (from the label color_fixup on): one black node is missing
        on the paths through `child0`, which may be null.  The in-order sequence stays, and the
        tree is a red-black tree again. */
    method EraseColor(child0: Ptr, parent0: Ptr, ghost c0: Ctx, ghost t0: Tree, ghost h0: int)
      returns (ghost tree: Tree)
      requires At(c0, t0, pool, rbNode) && LackAt(c0, t0, h0)
      requires child0 == RootOf(t0) && (c0.Frame? ==> parent0 == c0.n)
      modifies this
      ensures |pool| == |old(pool)|
      ensures Rep(tree, NIL, pool) && rbNode == RootOf(tree) && RedBlack(tree)
      ensures InOrder(tree) == InOrder(Plug(c0, t0))
    {
      var child, parent := child0, parent0;
      ghost var c, t, h := c0, t0, h0;
      Around(c, t, pool, rbNode);
      while child != rbNode && (child == NIL || !pool[child].red)
        invariant |pool| == |old(pool)|
        invariant At(c, t, pool, rbNode) && LackAt(c, t, h) && child == RootOf(t) && RootCell(t, Par(c), pool)
        invariant c.Frame? ==> parent == c.n
        invariant InOrder(Plug(c, t)) == InOrder(Plug(c0, t0))
        decreases Depth(c) + if IsRed(t) then 0 else 1
      {
        Around(c, t, pool, rbNode);
        SiblingExists(c, t, h);
        if pool[parent].left == child {
          child, parent, c, t, h := EraseStepLeft(parent, c, t, h);
        } else {
          child, parent, c, t, h := EraseStepRight(parent, c, t, h);
        }
        Around(c, t, pool, rbNode);
      }
      TopInside(c, t, pool, rbNode);
      Focus(c, t, pool, rbNode);
      if child != NIL {
        Paint(child, false, c, t);
      }
      LackEnds(c, t, h);
      Focus(c, Blackened(t), pool, rbNode);
      tree := Plug(c, Blackened(t));
    }

    /** The loop of rb_first, from any node down. */
    method Leftmost(start: Ptr, ghost par: Ptr, ghost t: Tree) returns (node: Ptr, ghost steps: nat)
      requires t.Node? && t.n == start && Rep(t, par, pool)
      ensures node == Min(t).n
      ensures steps < Height(t)
    {
      node := start;
      steps := 0;
      ghost var u, p := t, par;
      RepRoot(u, p, pool);
      while pool[node].left != NIL
        invariant u.Node? && u.n == node && Rep(u, p, pool) && RootCell(u, p, pool)
        invariant Min(u) == Min(t)
        invariant steps + Height(u) <= Height(t)
        decreases u
      {
        node := pool[node].left;
        steps := steps + 1;
        RepRoot(u, p, pool);
        u, p := u.l, u.n;
        RepRoot(u, p, pool);
      }
      RepRoot(u, p, pool);
    }

    /** A node without a left or without a right child is taken out. */
    method TakeOut(node: Ptr, child: Ptr, ghost c: Ctx, ghost t: Tree)
      returns (parent: Ptr, color: bool, ghost y: Tree)
      requires t.Node? && t.n == node && At(c, t, pool, rbNode)
      requires if t.l.Leaf? then child == RootOf(t.r) else t.r.Leaf? && child == RootOf(t.l)
      modifies this
      ensures |pool| == |old(pool)|
      ensures y == (if t.l.Leaf? then t.r else t.l) && At(c, y, pool, rbNode)
      ensures child == RootOf(y) && parent == Par(c) && color == t.red
    {
      Around(c, t, pool, rbNode);
      y := if t.l.Leaf? then t.r else t.l;
      RepRoot(t, Par(c), pool);
      RepRoot(y, t.n, pool);
      parent := pool[node].parent;
      color := pool[node].red;
      if child != NIL {
        pool := pool[child := pool[child].(parent := parent)];
      }
      if parent != NIL {
        if pool[parent].left == node {
          pool := pool[parent := pool[parent].(left := child)];
        } else {
          pool := pool[parent := pool[parent].(right := child)];
        }
      } else {
        rbNode := child;
      }
      TakenOut(c, t, y, old(pool), pool, old(rbNode));
    }

    /** The parent of `old0`, or the root pointer, refers to `node` instead. */
    method PutInPlace(old0: Ptr, node: Ptr, ghost c: Ctx, ghost t: Tree)
      requires t.Node? && t.n == old0 && At(c, t, pool, rbNode)
      modifies this
      ensures |pool| == |old(pool)| && RepC(c, node, pool, rbNode)
      ensures Rep(t.l, old0, pool) && Rep(t.r, old0, pool)
      ensures forall n :: Has(pool, n) && n != Par(c) ==> pool[n] == old(pool)[n]
    {
      Around(c, t, pool, rbNode);
      RepRoot(t, Par(c), pool);
      if pool[old0].parent != NIL {
        if pool[pool[old0].parent].left == old0 {
          pool := pool[pool[old0].parent := pool[pool[old0].parent].(left := node)];
        } else {
          pool := pool[pool[old0].parent := pool[pool[old0].parent].(right := node)];
        }
      } else {
        rbNode := node;
      }
      Hung(c, old0, node, old(pool), pool, old(rbNode));
      RepFrame(t.l, old0, old(pool), pool);
      RepFrame(t.r, old0, old(pool), pool);
    }

    /** The minimum below the root of `t` is unhooked: its parent adopts its right child. */
    method UnhookMin(child: Ptr, parent: Ptr, ghost t: Tree, ghost par: Ptr)
      requires t.Node? && t.l.Node? && Rep(t, par, pool)
      requires child == RootOf(Min(t).r) && parent == MinPar(t, par)
      modifies `pool
      ensures |pool| == |old(pool)| && Rep(DelMin(t), par, pool)
      ensures forall n :: Has(pool, n) && n !in Nodes(DelMin(t)) ==> pool[n] == old(pool)[n]
    {
      MinCell(t, par, pool);
      MinOrder(t);
      MinChildStays(t, par, pool);
      if child != NIL {
        pool := pool[child := pool[child].(parent := parent)];
      }
      pool := pool[parent := pool[parent].(left := child)];
      MinUnhooked(t, par, old(pool), pool);
    }

    /** The root of a subtree gets a new parent. */
    method SetParent(child: Ptr, parent: Ptr, ghost t: Tree, ghost par: Ptr)
      requires t.Node? && t.n == child && Rep(t, par, pool)
      modifies `pool
      ensures |pool| == |old(pool)| && Rep(t, parent, pool)
      ensures forall n :: Has(pool, n) && n != child ==> pool[n] == old(pool)[n]
      ensures pool[child] == old(pool)[child].(parent := parent)
    {
      RepRoot(t, par, pool);
      pool := pool[child := pool[child].(parent := parent)];
      Adopted(t, par, parent, old(pool), pool);
    }

    /** The minimum `node` of the right subtree of `old0` gets what remains of that subtree. */
    method TakeRight(old0: Ptr, node: Ptr, child: Ptr, parent0: Ptr, ghost r: Tree) returns (parent: Ptr)
      requires r.Node? && Rep(r, old0, pool) && Has(pool, old0) && old0 !in Nodes(r) && pool[old0].right == r.n
      requires node == Min(r).n && child == RootOf(Min(r).r) && parent0 == MinPar(r, old0)
      modifies `pool
      ensures |pool| == |old(pool)| && Rep(DelMin(r), node, pool)
      ensures Has(pool, node) && pool[node].right == RootOf(DelMin(r))
      ensures parent == MinPar(r, node)
      ensures forall n :: Has(pool, n) && n !in Nodes(r) ==> pool[n] == old(pool)[n]
    {
      MinCell(r, old0, pool);
      RepRoot(r, old0, pool);
      parent := parent0;
      if parent == old0 {
        parent := node;
      } else {
        UnhookMin(child, parent, r, old0);
        ghost var q := pool;
        pool := pool[node := pool[node].(right := pool[old0].right)];
        RepFrame(DelMin(r), old0, q, pool);
        SetParent(pool[old0].right, node, DelMin(r), old0);
      }
    }

    /** `node` gets the other links and the colour of `old0`. */
    method TakeRest(old0: Ptr, node: Ptr, ghost l: Tree)
      requires Has(pool, old0) && Has(pool, node) && old0 != node
      requires l.Node? && Rep(l, old0, pool) && pool[old0].left == l.n && old0 !in Nodes(l) && node !in Nodes(l)
      modifies `pool
      ensures |pool| == |old(pool)| && Rep(l, node, pool)
      ensures var o := old(pool)[old0];
        pool[node] == Cell(o.left, old(pool)[node].right, o.parent, o.red)
      ensures forall n :: Has(pool, n) && n != l.n && n != node ==> pool[n] == old(pool)[n]
    {
      pool := pool[node := pool[node].(parent := pool[old0].parent)];
      pool := pool[node := pool[node].(red := pool[old0].red)];
      pool := pool[node := pool[node].(left := pool[old0].left)];
      RepFrame(l, old0, old(pool), pool);
      SetParent(pool[old0].left, node, l, old0);
    }

    /** `node` gets all the links of `old0`, and its right subtree loses its minimum. */
    method TakeLinks(old0: Ptr, node: Ptr, child: Ptr, parent0: Ptr, ghost c: Ctx, ghost t: Tree) returns (parent: Ptr)
      requires t.Node? && t.n == old0 && t.l.Node? && t.r.Node? && Apart(c, t)
      requires Rep(t.l, old0, pool) && Rep(t.r, old0, pool) && RepC(c, node, pool, rbNode)
      requires Has(pool, old0) && pool[old0] == Cell(t.l.n, t.r.n, Par(c), t.red)
      requires node == Min(t.r).n && child == RootOf(Min(t.r).r) && parent0 == MinPar(t.r, old0)
      modifies `pool
      ensures |pool| == |old(pool)|
      ensures Rep(DelMin(t.r), node, pool) && Rep(t.l, node, pool) && RepC(c, node, pool, rbNode)
      ensures Has(pool, node) && pool[node] == Cell(t.l.n, RootOf(DelMin(t.r)), Par(c), t.red)
      ensures parent == MinPar(t.r, node)
    {
      MinCell(t.r, old0, pool);
      ghost var q1 := pool;
      parent := TakeRight(old0, node, child, parent0, t.r);
      ghost var q2 := pool;
      RepFrame(t.l, old0, q1, q2);
      TakeRest(old0, node, t.l);
      RepFrame(DelMin(t.r), node, q2, pool);
      RepCFrame(c, node, q1, pool, rbNode);
    }

    /** A node with two children is replaced by its successor, up to color_fixup. */
    method Succeed(old0: Ptr, ghost c: Ctx, ghost t: Tree) returns (child: Ptr, parent: Ptr, color: bool)
      requires t.Node? && t.n == old0 && t.l.Node? && t.r.Node? && At(c, t, pool, rbNode)
      modifies this
      ensures |pool| == |old(pool)|
      ensures var (m, e) := (Min(t.r), MinCtx(t.r, Frame(c, InRight, Min(t.r).n, t.red, t.l)));
        && At(e, m.r, pool, rbNode)
        && child == RootOf(m.r) && parent == Par(e) && color == m.red
    {
      Around(c, t, pool, rbNode);
      RepRoot(t, Par(c), pool);
      MinCell(t.r, old0, pool);
      var node;
      ghost var steps;
      node, steps := Leftmost(pool[old0].right, old0, t.r);
      PutInPlace(old0, node, c, t);
      child := pool[node].right;
      parent := pool[node].parent;
      color := pool[node].red;
      parent := TakeLinks(old0, node, child, parent, c, t);
      SucceededShape(c, t, old(pool), old(rbNode), pool, rbNode);
      MinCtxPar(t.r, Frame(c, InRight, node, t.red, t.l));
    }

    /** rb_erase: the in-order sequence loses exactly `node0`, and the tree stays a red-black tree. */
    method Erase(node0: Ptr, ghost tree0: Tree) returns (ghost tree: Tree)
      requires Rep(tree0, NIL, pool) && rbNode == RootOf(tree0) && RedBlack(tree0)
      requires node0 in Nodes(tree0)
      modifies this
      ensures |pool| == |old(pool)|
      ensures Rep(tree, NIL, pool) && rbNode == RootOf(tree) && RedBlack(tree)
      ensures InOrder(tree) == Delete(InOrder(tree0), node0)
    {
      ghost var c, t := Locate(Top, tree0, node0);
      ghost var h := UnplugRb(c, t);
      Focus(c, t, pool, rbNode);
      Around(c, t, pool, rbNode);
      ChildCells(t, Par(c), pool);
      ghost var e, u, g;
      var child, parent, color;
      if pool[node0].left == NIL || pool[node0].right == NIL {
        child := if pool[node0].left == NIL then pool[node0].right else pool[node0].left;
        OnlyChildOrder(c, t, pool, rbNode);
        parent, color, u := TakeOut(node0, child, c, t);
        TakenOutRb(c, t, u, h);
        e, g := c, h - 1;
      } else {
        SucceededOrder(c, t, pool, rbNode);
        g := SucceededRb(c, t, h);
        child, parent, color := Succeed(node0, c, t);
        e, u := MinCtx(t.r, Frame(c, InRight, Min(t.r).n, t.red, t.l)), Min(t.r).r;
      }
      if !color {
        tree := EraseColor(child, parent, e, u, g);
      } else {
        Focus(e, u, pool, rbNode);
        tree := Plug(e, u);
      }
    }

    /** rb_first: the leftmost node, or null. */
    method First(ghost tree: Tree) returns (node: Ptr, ghost steps: nat)
      requires Rep(tree, NIL, pool) && rbNode == RootOf(tree)
      ensures node == if tree.Leaf? then NIL else Min(tree).n
      ensures tree.Node? ==> node != NIL
      ensures steps <= Height(tree)
    {
      node := rbNode;
      steps := 0;
      RepRoot(tree, NIL, pool);
      if node != NIL {
        node, steps := Leftmost(node, NIL, tree);
        MinCell(tree, NIL, pool);
      }
    }
  }
}
