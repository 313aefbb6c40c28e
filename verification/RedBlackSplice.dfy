/**
 Taking a node with two children out of a red-black tree: its successor takes its place.
 Shapes are renamed, `o` to `y`, and the linked nodes follow.
 */
module RedBlackSplice {
  import opened RedBlackShape
  import opened RedBlackHeight

  // ---------- finding a node in a shape ----------

  lemma {:induction false} Locus(t: Tree, k: Ctx, e: Node) returns (k': Ctx, t': Tree)
    requires e in Nodes(t)
    ensures t'.Br? && t'.n == e && Plug(k', t') == Plug(k, t)
  {
    if t.n == e {
      k', t' := k, t;
    } else if e in Nodes(t.left) {
      k', t' := Locus(t.left, Up(L, k, t.n, t.c, t.right), e);
    } else {
      k', t' := Locus(t.right, Up(R, k, t.n, t.c, t.left), e);
    }
  }

  // ---------- renaming a node ----------

  function Ren(o: Node, y: Node, x: Node?): Node? {
    if x == o then y else x
  }

  function RenTree(o: Node, y: Node, t: Tree): Tree {
    match t
    case Leaf => Leaf
    case Br(l, n, c, r) => Br(RenTree(o, y, l), Ren(o, y, n), c, RenTree(o, y, r))
  }

  function RenCtx(o: Node, y: Node, k: Ctx): Ctx {
    match k
    case Top => Top
    case Up(s, up, n, c, sib) => Up(s, RenCtx(o, y, up), Ren(o, y, n), c, RenTree(o, y, sib))
  }

  lemma {:induction false} RenDepth(o: Node, y: Node, k: Ctx)
    ensures Depth(RenCtx(o, y, k)) == Depth(k)
  {
    if k.Up? {
      RenDepth(o, y, k.up);
    }
  }

  lemma {:induction false} RenNodes(o: Node, y: Node, t: Tree)
    ensures Nodes(RenTree(o, y, t)) == Nodes(t) - {o} + (if o in Nodes(t) then {y} else {})
    ensures o !in Nodes(t) ==> RenTree(o, y, t) == t
  {
    if t.Br? {
      RenNodes(o, y, t.left);
      RenNodes(o, y, t.right);
    }
  }

  lemma {:induction false} RenPlug(o: Node, y: Node, k: Ctx, t: Tree)
    ensures RenTree(o, y, Plug(k, t)) == Plug(RenCtx(o, y, k), RenTree(o, y, t))
  {
    if k.Up? {
      RenPlug(o, y, k.up, Mk(k.s, t, k.n, k.c, k.sib));
    }
  }

  lemma {:induction false} RenRB(o: Node, y: Node, t: Tree, h: nat)
    ensures RB(RenTree(o, y, t), h) <==> RB(t, h)
    ensures RedTop(RenTree(o, y, t)) <==> RedTop(t)
  {
    if t.Br? {
      if t.c.Red? {
        RenRB(o, y, t.left, h);
        RenRB(o, y, t.right, h);
      } else if h > 0 {
        RenRB(o, y, t.left, h - 1);
        RenRB(o, y, t.right, h - 1);
      }
    }
  }

  lemma {:induction false} RenCtxRB(o: Node, y: Node, k: Ctx, h: nat)
    ensures CtxRB(RenCtx(o, y, k), h) <==> CtxRB(k, h)
  {
    if k.Up? {
      RenRB(o, y, k.sib, h);
      RenCtxRB(o, y, k.up, if k.c.Black? then h + 1 else h);
    }
  }

  /** `n` is on the same side of `o` and of `y`. */
  ghost predicate SameSide(n: Node, o: Node, y: Node) {
    (n.key < o.key ==> n.key < y.key) && (o.key < n.key ==> y.key < n.key)
  }

  lemma {:induction false} RenBst(o: Node, y: Node, t: Tree)
    requires Bst(t) && forall n <- Nodes(t) :: SameSide(n, o, y)
    ensures Bst(RenTree(o, y, t))
  {
    if t.Br? {
      RenBst(o, y, t.left);
      RenBst(o, y, t.right);
      RenNodes(o, y, t.left);
      RenNodes(o, y, t.right);
      assert forall n <- Nodes(t.left) + Nodes(t.right) :: n in Nodes(t);
      assert t.n in Nodes(t);
    }
  }

  /** Nodes around a hole do not tell apart two nodes inside it. */
  lemma {:induction false} CtxSameSide(k: Ctx, a: set<Node>, o: Node, y: Node)
    requires CtxBst(k, a) && {o, y} <= a
    ensures forall n <- CtxNodes(k) :: SameSide(n, o, y)
  {
    if k.Up? {
      CtxSameSide(k.up, a + {k.n} + Nodes(k.sib), o, y);
    }
  }

  // ---------- the successor ----------

  /** From `o`, which has a left child, down to the hole: once right, then always left. */
  ghost predicate Leftmost(k: Ctx, o: Node) {
    k.Up? && (if k.n == o then k.s.R? && k.sib.Br? else k.s.L? && Leftmost(k.up, o))
  }

  lemma {:induction false} LeftmostLeft(k: Ctx, o: Node)
    requires CtxLinked(k) && Leftmost(k, o)
    ensures o.left != null
  {
    if k.n != o {
      LeftmostLeft(k.up, o);
    }
  }

  /** With `y` in such a hole, every other node is on the same side of `o` and `y`. */
  lemma {:induction false} LeftmostSame(k: Ctx, a: set<Node>, o: Node, y: Node)
    requires CtxBst(k, a) && y in a && Leftmost(k, o)
    ensures o.key < y.key && o in CtxNodes(k)
    ensures forall n <- CtxNodes(k) :: SameSide(n, o, y)
  {
    var b := a + {k.n} + Nodes(k.sib);
    if k.n == o {
      CtxSameSide(k.up, b, o, y);
    } else {
      LeftmostSame(k.up, b, o, y);
    }
  }

  // ---------- the linked nodes ----------

  /** What linking a tree means for each of its nodes. */
  ghost predicate LocallyLinked(t: Tree)
    reads Nodes(t)
  {
    forall n <- Nodes(t) ::
      && (n.left != null ==> n.left in Nodes(t) && n.left.parent == n && n.left != n.right)
      && (n.right != null ==> n.right in Nodes(t) && n.right.parent == n)
      && (n != Root(t) ==> n.parent != null && n.parent in Nodes(t) && (n.parent.left == n || n.parent.right == n))
      && (n != Root(t) ==> n.parent != n.left && n.parent != n.right && n.parent != n)
      && n != n.left && n != n.right
  }

  lemma {:induction false} LinkedLocally(t: Tree)
    requires Linked(t) && Bst(t)
    ensures LocallyLinked(t)
  {
    if t.Br? {
      LinkedLocally(t.left);
      LinkedLocally(t.right);
      assert t.left.Br? ==> t.left.n in Nodes(t.left);
      assert t.right.Br? ==> t.right.n in Nodes(t.right);
    }
  }

  datatype Renaming = Renaming(o: Node, y: Node, t: Tree) {
    /** Every pointer to `o` now points to `y`, and `y` has the fields `o` had. */
    twostate predicate Done()
      reads o, y, Nodes(t)
    {
      old(allocated(Nodes(t))) && forall n <- Nodes(t) :: At(n)
    }

    twostate predicate At(n: Node)
      reads n, y
    {
      var m: Node := Ren(o, y, n);
      && m.color == old(n.color)
      && m.left == Ren(o, y, old(n.left)) && m.right == Ren(o, y, old(n.right)) && m.parent == Ren(o, y, old(n.parent))
    }

    twostate lemma {:induction false} Relinked()
      requires old(Linked(t)) && y !in Nodes(t) && Done()
      ensures Linked(RenTree(o, y, t))
      decreases t
    {
      if t.Br? {
        Renaming(o, y, t.left).Relinked();
        Renaming(o, y, t.right).Relinked();
        assert t.n in Nodes(t);
        assert t.left.Br? ==> t.left.n in Nodes(t);
        assert t.right.Br? ==> t.right.n in Nodes(t);
      }
    }
  }

  /** `y` takes the place of `o`, whose children are `l` and `r` and whose parent is `p`. */
  datatype Takeover = Takeover(o: Node, y: Node, l: Node, r: Node?, p: Node?) {
    twostate predicate Taken()
      reads o, y, l, Opt(r), Opt(p)
    {
      && y.left == l && y.right == r && y.parent == p && y.color == old(o.color)
      && l.parent == y && l.left == old(l.left) && l.right == old(l.right) && l.color == old(l.color)
      && (r != null ==> r.parent == y && r.left == old(r.left) && r.right == old(r.right) && r.color == old(r.color))
      && (p != null ==> RelinkedChild(p, o, y))
    }
  }

  datatype Takes = Takes(u: Takeover, t: Tree) {
    twostate lemma Done()
      requires old(LocallyLinked(t)) && u.o in Nodes(t) && u.y !in Nodes(t) && old(allocated(Nodes(t)))
      requires Root(t) != null && old(Root(t).parent) == null
      requires u.l == old(u.o.left) && u.r == old(u.o.right) && u.p == old(u.o.parent) && u.Taken()
      requires forall n <- Nodes(t) :: n == u.l || n == u.r || n == u.p || unchanged(n)
      ensures Renaming(u.o, u.y, t).Done()
    {
      forall n | n in Nodes(t) ensures Renaming(u.o, u.y, t).At(n) {
        TakesAt(u, t, n).Done();
      }
    }

    twostate lemma Relinked()
      requires old(Linked(t)) && old(LocallyLinked(t)) && u.o in Nodes(t) && u.y !in Nodes(t)
      requires old(allocated(Nodes(t)))
      requires Root(t) != null && old(Root(t).parent) == null
      requires u.l == old(u.o.left) && u.r == old(u.o.right) && u.p == old(u.o.parent) && u.Taken()
      requires forall n <- Nodes(t) :: n == u.l || n == u.r || n == u.p || unchanged(n)
      ensures Linked(RenTree(u.o, u.y, t))
    {
      Done();
      Renaming(u.o, u.y, t).Relinked();
    }
  }

  /** The takeover seen from one node of the tree. */
  datatype TakesAt = TakesAt(u: Takeover, t: Tree, n: Node) {
    twostate lemma Done()
      requires old(LocallyLinked(t)) && u.o in Nodes(t) && u.y !in Nodes(t) && old(allocated(Nodes(t))) && n in Nodes(t)
      requires Root(t) != null && old(Root(t).parent) == null
      requires u.l == old(u.o.left) && u.r == old(u.o.right) && u.p == old(u.o.parent) && u.Taken()
      requires n == u.l || n == u.r || n == u.p || unchanged(n)
      ensures Renaming(u.o, u.y, t).At(n)
    {
      assert u.o != u.l && u.o != u.r && u.o != u.p;
    }
  }

  /** The child pointer of `p` that was `x` is now `y`. */
  twostate predicate RelinkedChild(p: Node, x: Node, y: Node?)
    reads p
  {
    && p.parent == old(p.parent) && p.color == old(p.color)
    && p.left == (if old(p.left) == x then y else old(p.left))
    && p.right == (if old(p.left) == x then old(p.right) else y)
  }
}
