/**
 The red-black tree macros: rotation, insertion and removal with their fix-up loops.
 A branch that the macros write twice, once per side, is written once here with the
 side as a parameter.
 */
module RedBlackTree {
  import opened RedBlackShape
  import opened RedBlackHeight
  import opened RedBlackSplice

  class RBTree {
    var root: Node?
    ghost var tree: Tree

    ghost predicate Valid()
      reads this, Nodes(tree)
    {
      && root == Root(tree) && (root != null ==> root.parent == null)
      && Linked(tree) && Bst(tree) && RedBlack(tree)
    }

    constructor ()
      ensures Valid() && tree == Leaf && root == null
    {
      root := null;
      tree := Leaf;
      new;
      assert RB(Leaf, 0);
    }

    /** RB_ROTATE_LEFT for s == L, RB_ROTATE_RIGHT for s == R: `x` goes below its child. */
    method RotateLinks(x: Node, s: Side) returns (y: Node)
      requires x.Child(s.Other()) != null
      requires Distinct4(x, x.Child(s.Other()), x.Child(s.Other()).Child(s), x.parent)
      modifies this`root, x, x.Child(s.Other()), Opt(x.Child(s.Other()).Child(s)), Opt(x.parent)
      ensures y == old(x.Child(s.Other()))
      ensures Rotated(x, s, y, old(y.Child(s)), old(x.parent))
      ensures root == if old(x.parent) == null then y else old(root)
    {
      y := x.Child(s.Other());
      x.SetChild(s.Other(), y.Child(s));
      if y.Child(s) != null {
        y.Child(s).parent := x;
      }
      y.parent := x.parent;
      if y.parent != null {
        if x == x.parent.left {
          x.parent.left := y;
        } else {
          x.parent.right := y;
        }
      } else {
        root := y;
      }
      y.SetChild(s, x);
      x.parent := y;
    }

    /** What a rotation does to the shape of the tree. */
    method Rotate(ghost r: Site, x: Node, s: Side) returns (y: Node)
      requires x == r.x && s == r.s && r.Low() && r.Apart() && root == RootOf(r.k, x)
      modifies this`root, x, r.y, Opt(Root(r.b)), Opt(Above1(r.k))
      ensures y == r.y && root == RootOf(r.k, y)
      ensures r.High()
      ensures x.color == old(x.color) && y.color == old(y.color)
    {
      assert r.b.Br? ==> r.b.n in Nodes(r.b);
      y := RotateLinks(x, s);
      r.RotateSubtrees();
      r.RotateCtx();
    }

    method Paint(n: Node, col: Color, ghost k: Ctx, ghost t: Tree)
      requires t.Br? && t.n == n && Around(k, t)
      modifies n`color
      ensures Around(k, t.(c := col)) && Nodes(t.(c := col)) == Nodes(t)
    {
      CtxApart(k, Nodes(t));
      n.color := col;
    }

    /** Paints the child of the focus on side `s`. */
    method PaintChild(n: Node, col: Color, ghost k: Ctx, ghost s: Side, ghost near: Tree, ghost up: Node,
        ghost c: Color, ghost far: Tree)
      requires near.Br? && near.n == n && Around(k, Mk(s, near, up, c, far))
      modifies n`color
      ensures Around(k, Mk(s, near.(c := col), up, c, far))
      ensures Nodes(Mk(s, near.(c := col), up, c, far)) == Nodes(Mk(s, near, up, c, far))
    {
      Refocus(k, s, near, up, c, far);
      Paint(n, col, Up(s, k, up, c, far), near);
      Refocus(k, s, near.(c := col), up, c, far);
      MkFacts(s, near, up, c, far);
      MkFacts(s, near.(c := col), up, c, far);
    }

    /** A rotation, on a tree split at `x`. */
    method RotateAt(x: Node, s: Side, ghost k: Ctx, ghost a: Tree, ghost cx: Color, ghost b: Tree, ghost y: Node,
        ghost cy: Color, ghost c: Tree)
      returns (top: Node)
      requires Around(k, Mk(s, a, x, cx, Mk(s, b, y, cy, c))) && root == RootOf(k, x)
      modifies this`root, CtxNodes(k), Nodes(Mk(s, a, x, cx, Mk(s, b, y, cy, c)))
      ensures top == y && root == RootOf(k, y)
      ensures Around(k, Mk(s, Mk(s, a, x, cx, b), y, cy, c))
      ensures Nodes(Mk(s, Mk(s, a, x, cx, b), y, cy, c)) == Nodes(Mk(s, a, x, cx, Mk(s, b, y, cy, c)))
    {
      ghost var r := Site(k, s, a, x, b, y, c);
      SiteLow(r, cx, cy);
      SiteApart(r);
      OrderedLow(k, s, a, x, cx, b, y, cy, c);
      assert b.Br? ==> b.n in Nodes(b);
      top := Rotate(r, x, s);
      SiteHigh(r);
      OrderedHigh(k, s, a, x, cx, b, y, cy, c);
    }

    /** RB_SET_BLACKRED on parent and grandparent. */
    method SetBlackRed(black: Node, red: Node, s: Side, ghost r: Side, ghost up: Ctx, ghost t: Tree,
        ghost c: Color, ghost sib: Tree, ghost d: Color, ghost u: Tree)
      requires Around(Up(r, Up(s, up, red, d, u), black, c, sib), t)
      modifies black`color, red`color
      ensures Around(up, Mk(s, Mk(r, t, black, Black, sib), red, Red, u))
      ensures CtxNodes(up) + Nodes(Mk(s, Mk(r, t, black, Black, sib), red, Red, u))
        == CtxNodes(Up(r, Up(s, up, red, d, u), black, c, sib)) + Nodes(t)
    {
      ghost var near := Mk(r, t, black, c, sib);
      Refocus(Up(s, up, red, d, u), r, t, black, c, sib);
      Refocus(up, s, near, red, d, u);
      PaintChild(black, Black, up, s, near, red, d, u);
      Paint(red, Red, up, Mk(s, near.(c := Black), red, d, u));
    }

    /** Red uncle: parent and uncle turn black, the grandparent red. */
    method InsertRecolor(parent: Node, gparent: Node, uncle: Node, s: Side, ghost r: Side, ghost up: Ctx,
        ghost t: Tree, ghost sib: Tree, ghost u: Tree)
      requires Around(Up(r, Up(s, up, gparent, Black, u), parent, Red, sib), t) && u.Br? && u.n == uncle
      modifies parent`color, gparent`color, uncle`color
      ensures Around(up, Mk(s, Mk(r, t, parent, Black, sib), gparent, Red, u.(c := Black)))
      ensures CtxNodes(up) + Nodes(Mk(s, Mk(r, t, parent, Black, sib), gparent, Red, u.(c := Black)))
        == CtxNodes(Up(r, Up(s, up, gparent, Black, u), parent, Red, sib)) + Nodes(t)
    {
      ghost var near := Mk(r, t, parent, Red, sib);
      Refocus(Up(s, up, gparent, Black, u), r, t, parent, Red, sib);
      Refocus(up, s, near, gparent, Black, u);
      PaintChild(uncle, Black, up, s.Other(), u, gparent, Black, near);
      Refocus(up, s, near, gparent, Black, u.(c := Black));
      Refocus(Up(s, up, gparent, Black, u.(c := Black)), r, t, parent, Red, sib);
      SetBlackRed(parent, gparent, s, r, up, t, Red, sib, Black, u.(c := Black));
    }

    /** The node is an inner grandchild: a rotation makes it an outer one. */
    method InsertStraighten(elm: Node, parent: Node, s: Side, ghost k: Ctx, ghost sib: Tree, ghost near: Tree,
        ghost far: Tree)
      requires root == RootOf(k, parent)
      requires Around(Up(s.Other(), k, parent, Red, sib), Mk(s, near, elm, Red, far))
      modifies this`root, CtxNodes(k), {parent}, Nodes(sib), Nodes(Mk(s, near, elm, Red, far))
      ensures root == RootOf(k, elm)
      ensures Around(Up(s, k, elm, Red, far), Mk(s, sib, parent, Red, near))
    {
      Refocus(k, s.Other(), Mk(s, near, elm, Red, far), parent, Red, sib);
      var top := RotateAt(parent, s, k, sib, Red, near, elm, Red, far);
      Refocus(k, s, Mk(s, sib, parent, Red, near), elm, Red, far);
    }

    /** The node is an outer grandchild: recolouring and one rotation end the fix-up. */
    method InsertLift(parent: Node, gparent: Node, s: Side, ghost up: Ctx, ghost t: Tree, ghost sib: Tree,
        ghost u: Tree)
      requires root == RootOf(up, gparent)
      requires Around(Up(s, Up(s, up, gparent, Black, u), parent, Red, sib), t)
      modifies this`root, CtxNodes(Up(s, Up(s, up, gparent, Black, u), parent, Red, sib)), Nodes(t)
      ensures root == RootOf(up, parent)
      ensures Around(Up(s, up, parent, Black, Mk(s, sib, gparent, Red, u)), t)
    {
      SetBlackRed(parent, gparent, s, s, up, t, Red, sib, Black, u);
      var top := RotateAt(gparent, s.Other(), up, u, Red, sib, parent, Black, t);
      Refocus(up, s, t, parent, Black, Mk(s, sib, gparent, Red, u));
    }

    /** The insertion fix-up: everything is valid but perhaps the red `elm` below a red parent. */
    ghost predicate Inserting(k: Ctx, t: Tree, h: nat, elm: Node)
      reads this, CtxNodes(k), Nodes(t)
    {
      root == RootOf(k, elm) && t.Br? && t.n == elm && t.c.Red? && Around(k, t) && RB(t, h) && CtxRB(k, h)
    }

    /** The last line of RB_INSERT_COLOR. */
    method BlackenRoot(ghost k: Ctx, ghost t: Tree, ghost h: nat)
      requires Around(k, t) && root == RootOf(k, Root(t)) && root != null
      requires RB(t, h) && CtxRB(k, h) && !(RedTop(t) && k.Up? && k.c.Red?)
      modifies this, CtxNodes(k), Nodes(t)
      ensures Valid() && Nodes(tree) == CtxNodes(k) + Nodes(t)
    {
      ghost var whole := Plug(k, t);
      PlugLinked(k, t);
      PlugNodes(k, t);
      PlugBst(k, t);
      ghost var g := PlugRB(k, t, h);
      Paint(root, Black, Top, whole);
      tree := whole.(c := Black);
      assert RB(tree, if RedTop(whole) then g + 1 else g);
    }

    /** Black uncle: one or two rotations, after which the parent is black. */
    method InsertRotate(elm0: Node, parent0: Node, gparent: Node, s: Side, ghost r: Side, ghost up: Ctx,
        ghost t: Tree, ghost sib: Tree, ghost u: Tree)
      returns (elm: Node)
      requires root == RootOf(up, gparent) && t.Br? && t.c.Red? && t.n == elm0
      requires Around(Up(r, Up(s, up, gparent, Black, u), parent0, Red, sib), t)
      modifies this`root, CtxNodes(Up(r, Up(s, up, gparent, Black, u), parent0, Red, sib)), Nodes(t)
      ensures elm == InsertedTree(s, r, parent0, t, sib).n
      ensures root == RootOf(InsertedCtx(s, r, up, gparent, parent0, t, sib, u), elm)
      ensures Around(InsertedCtx(s, r, up, gparent, parent0, t, sib, u), InsertedTree(s, r, parent0, t, sib))
    {
      Kin(Up(r, Up(s, up, gparent, Black, u), parent0, Red, sib), t);
      if parent0.Child(s.Other()) == elm0 {
        InsertInner(elm0, parent0, gparent, s, up, t, sib, u);
        elm := parent0;
      } else {
        InsertLift(parent0, gparent, s, up, t, sib, u);
        elm := elm0;
      }
    }

    /** An inner grandchild is made an outer one first. */
    method InsertInner(elm: Node, parent: Node, gparent: Node, s: Side, ghost up: Ctx, ghost t: Tree, ghost sib: Tree,
        ghost u: Tree)
      requires root == RootOf(up, gparent) && t.Br? && t.c.Red? && t.n == elm
      requires Around(Up(s.Other(), Up(s, up, gparent, Black, u), parent, Red, sib), t)
      modifies this`root, CtxNodes(Up(s.Other(), Up(s, up, gparent, Black, u), parent, Red, sib)), Nodes(t)
      ensures root == RootOf(up, elm)
      ensures Around(Up(s, up, elm, Black, Mk(s, Near(s.Other(), t), gparent, Red, u)),
        Mk(s, sib, parent, Red, Near(s, t)))
    {
      InsertStraighten(elm, parent, s, Up(s, up, gparent, Black, u), sib, Near(s, t), Near(s.Other(), t));
      InsertLift(elm, gparent, s, up, Mk(s, sib, parent, Red, Near(s, t)), Near(s.Other(), t), u);
    }

    /** Above a red parent there is a black grandparent. */
    lemma RedParent(k: Ctx, t: Tree, h: nat, elm: Node)
      requires Inserting(k, t, h, elm) && k.Up? && k.c.Red?
      ensures k.up.Up? && k.up.c.Black? && root == RootOf(k.up.up, k.up.n)
      ensures elm.parent == k.n && k.n.parent == k.up.n && (k.n == k.up.n.left <==> k.up.s.L?)
      ensures k.up.n.Child(k.up.s.Other()) == Root(k.up.sib)
      ensures k.up.sib.Br? ==> k.up.sib.n.color == k.up.sib.c
    {
      Kin(k, t);
      Refocus(k.up, k.s, t, k.n, Red, k.sib);
      Kin(k.up, Mk(k.s, t, k.n, Red, k.sib));
      assert root == RootOf(k.up, k.n);
    }

    /** One round of the loop of RB_INSERT_COLOR, below a red uncle. */
    method InsertRoundRed(elm: Node, parent: Node, gparent: Node, uncle: Node, s: Side, ghost r: Side,
        ghost up: Ctx, ghost t: Tree, ghost sib: Tree, ghost u: Tree, ghost h: nat)
      returns (ghost t': Tree)
      requires Inserting(Up(r, Up(s, up, gparent, Black, u), parent, Red, sib), t, h, elm)
      requires RedTop(u) && u.n == uncle && root == RootOf(up, gparent)
      modifies parent`color, gparent`color, uncle`color
      ensures Inserting(up, t', h + 1, gparent)
      ensures CtxNodes(up) + Nodes(t') == CtxNodes(Up(r, Up(s, up, gparent, Black, u), parent, Red, sib)) + Nodes(t)
    {
      InsertRecolor(parent, gparent, uncle, s, r, up, t, sib, u);
      RecoloredRB(s, r, up, gparent, parent, t, sib, u, h);
      t' := Mk(s, Mk(r, t, parent, Black, sib), gparent, Red, u.(c := Black));
    }

    /** One round of the loop of RB_INSERT_COLOR, below a black uncle. */
    method InsertRoundBlack(elm0: Node, parent: Node, gparent: Node, s: Side, ghost r: Side, ghost up: Ctx,
        ghost t: Tree, ghost sib: Tree, ghost u: Tree, ghost h: nat)
      returns (elm: Node, ghost k': Ctx, ghost t': Tree)
      requires Inserting(Up(r, Up(s, up, gparent, Black, u), parent, Red, sib), t, h, elm0)
      requires !RedTop(u) && root == RootOf(up, gparent)
      modifies this`root, CtxNodes(Up(r, Up(s, up, gparent, Black, u), parent, Red, sib)), Nodes(t)
      ensures Inserting(k', t', h, elm) && k'.Up? && k'.c.Black?
      ensures CtxNodes(k') + Nodes(t') == CtxNodes(Up(r, Up(s, up, gparent, Black, u), parent, Red, sib)) + Nodes(t)
    {
      elm := InsertRotate(elm0, parent, gparent, s, r, up, t, sib, u);
      InsertedRB(s, r, up, gparent, parent, t, sib, u, h);
      InsertedNodes(s, r, up, gparent, parent, t, sib, u);
      k', t' := InsertedCtx(s, r, up, gparent, parent, t, sib, u), InsertedTree(s, r, parent, t, sib);
    }

    /** One round of the loop of RB_INSERT_COLOR. */
    method InsertRound(elm0: Node, ghost k0: Ctx, ghost t0: Tree, ghost h0: nat)
      returns (elm: Node, ghost k: Ctx, ghost t: Tree, ghost h: nat)
      requires Inserting(k0, t0, h0, elm0) && k0.Up? && k0.c.Red?
      modifies this`root, CtxNodes(k0), Nodes(t0)
      ensures Inserting(k, t, h, elm)
      ensures CtxNodes(k) + Nodes(t) == CtxNodes(k0) + Nodes(t0)
      ensures Depth(k0) >= 2 && (k.Up? && k.c.Red? ==> k == k0.up.up)
    {
      ghost var sib, up, u, r := k0.sib, k0.up.up, k0.up.sib, k0.s;
      RedParent(k0, t0, h0, elm0);
      var parent: Node := elm0.parent;
      var gparent: Node := parent.parent;
      var s := if parent == gparent.left then L else R;
      assert k0 == Up(r, Up(s, up, gparent, Black, u), parent, Red, sib);
      var tmp := gparent.Child(s.Other());
      if tmp != null && tmp.color == Red {
        t := InsertRoundRed(elm0, parent, gparent, tmp, s, r, up, t0, sib, u, h0);
        elm, k, h := gparent, up, h0 + 1;
      } else {
        elm, k, t := InsertRoundBlack(elm0, parent, gparent, s, r, up, t0, sib, u, h0);
        h := h0;
      }
    }

    /** RB_INSERT_COLOR: every round goes up two levels, or is the last one. */
    method InsertColor(elm0: Node, ghost k0: Ctx, ghost t0: Tree, ghost h0: nat) returns (ghost rounds: nat)
      requires Inserting(k0, t0, h0, elm0)
      modifies this, CtxNodes(k0), Nodes(t0)
      ensures Valid() && Nodes(tree) == CtxNodes(k0) + Nodes(t0)
      ensures 2 * rounds <= Depth(k0)
    {
      var elm: Node := elm0;
      ghost var k, t, h := k0, t0, h0;
      rounds := 0;
      Kin(k, t);
      while elm.parent != null && elm.parent.color == Red
        invariant Inserting(k, t, h, elm)
        invariant elm.parent == Above1(k) && (k.Up? ==> k.n.color == k.c)
        invariant CtxNodes(k) + Nodes(t) == CtxNodes(k0) + Nodes(t0)
        invariant 2 * rounds + (if k.Up? && k.c.Red? then Depth(k) else 0) <= Depth(k0)
        decreases if k.Up? && k.c.Red? then 1 else 0, k
      {
        rounds := rounds + 1;
        elm, k, t, h := InsertRound(elm, k, t, h);
        Kin(k, t);
      }
      BlackenRoot(k, t, h);
    }

    /** RB_SET and the pointer from the parent: `elm` becomes a red leaf in the hole. */
    method Attach(elm: Node, parent: Node?, s: Side, ghost k: Ctx)
      requires Around(k, Leaf) && CtxBst(k, {elm}) && parent == Above1(k) && (k.Up? ==> k.s == s)
      requires root == RootOf(k, null)
      modifies this`root, elm, Opt(parent)
      ensures Around(k, Br(Leaf, elm, Red, Leaf)) && root == RootOf(k, elm)
    {
      CtxApart(k, {elm});
      CtxBstMono(k, {elm}, {});
      ghost var inside := k.Up? ==> k.n in CtxNodes(k);
      elm.parent := parent;
      elm.left, elm.right := null, null;
      elm.color := Red;
      if parent != null {
        if s.L? {
          parent.left := elm;
        } else {
          parent.right := elm;
        }
      } else {
        root := elm;
      }
      CtxFrame(k);
      assert Nodes(Br(Leaf, elm, Red, Leaf)) == {elm};
    }

    /** One step of the descent. */
    lemma StepDown(k: Ctx, t: Tree, s: Side, elm: Node, tmp: Node)
      requires Around(k, t) && CtxBst(k, Nodes(t) + {elm}) && t.Br? && t.n == tmp && root == RootOf(k, tmp)
      requires if s.L? then elm.key < tmp.key else tmp.key < elm.key
      ensures var k', t' := DownCtx(s, k, t), Near(s, t);
        Around(k', t') && CtxBst(k', Nodes(t') + {elm}) && tmp.Child(s) == Root(t') && root == RootOf(k', tmp.Child(s))
        && Plug(k', t') == Plug(k, t) && Above1(k') == tmp && k'.s == s && Depth(k') == Depth(k) + 1
    {
      Descend(s, k, t, elm);
    }

    /** The descent of RB_INSERT: the node with the key of `elm`, or the place where it belongs. */
    method Locate(elm: Node) returns (found: Node?, parent: Node?, comp: int, ghost k: Ctx, ghost steps: nat)
      requires Valid()
      ensures Valid()
      ensures Depth(k) <= steps <= Height(tree)
      ensures found != null ==> found in Nodes(tree) && Cmp(elm, found) == 0
      ensures found == null ==> Plug(k, Leaf) == tree && CtxNodes(k) == Nodes(tree) && parent == Above1(k)
      ensures found == null ==> root == RootOf(k, null)
      ensures found == null ==> Around(k, Leaf) && CtxBst(k, {elm}) && (k.Up? ==> (comp < 0 <==> k.s.L?))
    {
      var tmp := root;
      found, parent, comp := null, null, 0;
      k, steps := Top, 0;
      ghost var t := tree;
      while tmp != null
        invariant steps == Depth(k)
        invariant tmp == Root(t) && parent == Above1(k) && Plug(k, t) == tree
        invariant root == RootOf(k, tmp) && Valid()
        invariant Around(k, t) && CtxBst(k, Nodes(t) + {elm})
        invariant k.Up? ==> (comp < 0 <==> k.s.L?)
        decreases t
      {
        parent := tmp;
        comp := Cmp(elm, parent);
        steps := steps + 1;
        if comp < 0 {
          tmp := tmp.left;
          StepDown(k, t, L, elm, parent);
          k, t := DownCtx(L, k, t), t.left;
        } else if comp > 0 {
          tmp := tmp.right;
          StepDown(k, t, R, elm, parent);
          k, t := DownCtx(R, k, t), t.right;
        } else {
          PlugNodes(k, t);
          DepthHeight(k, t);
          found := tmp;
          return;
        }
      }
      assert t == Leaf && Nodes(t) + {elm} == {elm};
      PlugNodes(k, t);
      DepthHeight(k, t);
    }

    /** RB_INSERT: adds `elm`, or returns the node that already has its key. */
    method Insert(elm: Node) returns (r: Node?, ghost steps: nat, ghost rounds: nat)
      requires Valid()
      modifies this, Nodes(tree), elm
      ensures Valid()
      ensures r == null ==> Nodes(tree) == old(Nodes(tree)) + {elm}
      ensures r == null ==> forall n <- old(Nodes(tree)) :: n.key != elm.key
      ensures r != null ==> r in old(Nodes(tree)) && Cmp(elm, r) == 0 && tree == old(tree) && root == old(root)
      ensures r != null ==> unchanged(elm) && forall n <- old(Nodes(tree)) :: old(allocated(n)) ==> unchanged(n)
      ensures Few(steps, |old(Nodes(tree))|) && 2 * rounds <= steps
    {
      var parent, comp;
      ghost var k;
      rounds := 0;
      r, parent, comp, k, steps := Locate(elm);
      FewSteps(tree, steps);
      if r == null {
        rounds := InsertAt(elm, parent, if comp < 0 then L else R, k);
      }
    }

    /** Hangs `elm` into the hole of the tree and fixes the colours. */
    method InsertAt(elm: Node, parent: Node?, s: Side, ghost k: Ctx) returns (ghost rounds: nat)
      requires Valid() && Plug(k, Leaf) == tree && CtxNodes(k) == Nodes(tree) && parent == Above1(k)
      requires root == RootOf(k, null) && Around(k, Leaf) && CtxBst(k, {elm}) && (k.Up? ==> k.s == s)
      modifies this, Nodes(tree), elm
      ensures Valid() && Nodes(tree) == old(Nodes(tree)) + {elm} && 2 * rounds <= Depth(k)
      ensures forall n <- old(Nodes(tree)) :: n.key != elm.key
    {
      SearchEnd(k, elm);
      ghost var g: nat :| RB(tree, g);
      ghost var h := UnplugRB(k, Leaf, g);
      Attach(elm, parent, s, k);
      assert Nodes(Br(Leaf, elm, Red, Leaf)) == {elm};
      rounds := InsertColor(elm, k, Br(Leaf, elm, Red, Leaf), 0);
    }

    /** Red sibling: a rotation gives `t` a black sibling and a red parent. */
    method RemoveRedSibling(parent: Node, w: Node, s: Side, ghost up: Ctx, ghost t: Tree, ghost cp: Color,
        ghost wa: Tree, ghost wb: Tree)
      requires root == RootOf(up, parent)
      requires Around(Up(s, up, parent, cp, Mk(s, wa, w, Red, wb)), t)
      modifies this`root, CtxNodes(Up(s, up, parent, cp, Mk(s, wa, w, Red, wb))), Nodes(t)
      ensures root == RootOf(up, w)
      ensures Around(Up(s, Up(s, up, w, Black, wb), parent, Red, wa), t)
    {
      ghost var sib := Mk(s, wa, w, Red, wb);
      Refocus(up, s, t, parent, cp, sib);
      Refocus(up, s.Other(), sib, parent, cp, t);
      Refocus(Up(s.Other(), up, parent, cp, t), s, wa, w, Red, wb);
      SetBlackRed(w, parent, s.Other(), s, up, wa, Red, wb, cp, t);
      var top := RotateAt(parent, s, up, t, Red, wa, w, Black, wb);
      Refocus(up, s, Mk(s, t, parent, Red, wa), w, Black, wb);
      Refocus(Up(s, up, w, Black, wb), s, t, parent, Red, wa);
    }

    /** Only the inner nephew is red: a rotation makes the outer one red. */
    method RemoveInnerNephew(w: Node, a: Node, s: Side, ghost k: Ctx, ghost x: Tree, ghost y: Tree, ghost wb: Tree)
      requires root == RootOf(k, w)
      requires Around(k, Mk(s, Mk(s, x, a, Red, y), w, Black, wb))
      modifies this`root, CtxNodes(k), Nodes(Mk(s, Mk(s, x, a, Red, y), w, Black, wb))
      ensures root == RootOf(k, a)
      ensures Around(k, Mk(s, x, a, Black, Mk(s, y, w, Red, wb)))
      ensures Nodes(Mk(s, x, a, Black, Mk(s, y, w, Red, wb))) == Nodes(Mk(s, Mk(s, x, a, Red, y), w, Black, wb))
    {
      Refocus(k, s, Mk(s, x, a, Red, y), w, Black, wb);
      Refocus(Up(s, k, w, Black, wb), s, x, a, Red, y);
      SetBlackRed(a, w, s, s, k, x, Red, y, Black, wb);
      MkFacts(s, Mk(s, x, a, Red, y), w, Black, wb);
      MkFacts(s, Mk(s, x, a, Black, y), w, Red, wb);
      MkFacts(s, x, a, Red, y);
      MkFacts(s, x, a, Black, y);
      var top := RotateAt(w, s.Other(), k, wb, Red, y, a, Black, x);
    }

    /** The colours before the last rotation: `w` takes the parent's, parent and `b` turn black. */
    method RemoveOuterPaint(parent: Node, w: Node, b: Node, ghost s: Side, ghost up: Ctx, ghost t: Tree,
        ghost cp: Color, ghost wa: Tree, ghost wb: Tree)
      requires wb.Br? && wb.n == b && parent.color == cp
      requires Around(Up(s, up, parent, cp, Mk(s, wa, w, Black, wb)), t)
      modifies w`color, parent`color, b`color
      ensures Around(up, Mk(s, t, parent, Black, Mk(s, wa, w, cp, wb.(c := Black))))
    {
      ghost var sib := Mk(s, wa, w, Black, wb);
      Refocus(up, s, t, parent, cp, sib);
      PaintChild(w, parent.color, up, s.Other(), sib, parent, cp, t);
      sib := Mk(s, wa, w, cp, wb);
      Paint(parent, Black, up, Mk(s, t, parent, cp, sib));
      Refocus(up, s.Other(), sib, parent, Black, t);
      PaintChild(b, Black, Up(s.Other(), up, parent, Black, t), s.Other(), wb, w, cp, wa);
      Refocus(up, s.Other(), Mk(s, wa, w, cp, wb.(c := Black)), parent, Black, t);
    }

    /** The outer nephew is red: recolouring and a rotation at the parent finish. */
    method RemoveOuterNephew(parent: Node, w: Node, b: Node, s: Side, ghost up: Ctx, ghost t: Tree,
        ghost cp: Color, ghost wa: Tree, ghost wb: Tree)
      requires root == RootOf(up, parent) && wb.Br? && wb.n == b && parent.color == cp
      requires Around(Up(s, up, parent, cp, Mk(s, wa, w, Black, wb)), t)
      modifies this`root, CtxNodes(Up(s, up, parent, cp, Mk(s, wa, w, Black, wb))), Nodes(t)
      ensures root == RootOf(up, w)
      ensures Around(up, Mk(s, Mk(s, t, parent, Black, wa), w, cp, wb.(c := Black)))
      ensures CtxNodes(up) + Nodes(Mk(s, Mk(s, t, parent, Black, wa), w, cp, wb.(c := Black)))
        == CtxNodes(Up(s, up, parent, cp, Mk(s, wa, w, Black, wb))) + Nodes(t)
    {
      OuterNodes(s, up, t, parent, cp, wa, w, wb);
      RemoveOuterPaint(parent, w, b, s, up, t, cp, wa, wb);
      var top := RotateAt(parent, s, up, t, Black, wa, w, cp, wb.(c := Black));
    }

    /** The removal fix-up: `t` has black height `h` where its context expects one more. */
    ghost predicate Removing(k: Ctx, t: Tree, h: nat, elm: Node?)
      reads this, CtxNodes(k), Nodes(t)
    {
      root == RootOf(k, elm) && elm == Root(t) && Around(k, t) && AlmostRB(t, h) && CtxRB(k, h + 1)
    }

    /** Black sibling and black nephews: the sibling turns red and the focus moves up. */
    method RemoveBlackNephews(parent: Node, w: Node, ghost s: Side, ghost up: Ctx, ghost t: Tree, ghost cp: Color,
        ghost wa: Tree, ghost wb: Tree, ghost h: nat)
      returns (ghost t': Tree, ghost h': nat)
      requires Removing(Up(s, up, parent, cp, Mk(s, wa, w, Black, wb)), t, h, Root(t))
      requires !RedTop(t) && !RedTop(wa) && !RedTop(wb) && root == RootOf(up, parent)
      modifies w`color
      ensures Removing(up, t', h', parent) && t'.c == cp
      ensures CtxNodes(up) + Nodes(t') == CtxNodes(Up(s, up, parent, cp, Mk(s, wa, w, Black, wb))) + Nodes(t)
    {
      ghost var sib := Mk(s, wa, w, Black, wb);
      t', h' := BlackNephewsReady(parent, w, s, up, t, cp, wa, wb, h);
      RedSibling(w, s, sib, up, parent, cp, t, t', h');
    }

    /** The sibling of the focus turns red. */
    method RedSibling(w: Node, ghost s: Side, ghost sib: Tree, ghost up: Ctx, ghost parent: Node, ghost cp: Color,
        ghost t: Tree, ghost t': Tree, ghost h': nat)
      requires sib.Br? && sib.n == w && Around(up, Mk(s.Other(), sib, parent, cp, t)) && root == RootOf(up, parent)
      requires t' == Mk(s, t, parent, cp, sib.(c := Red)) && AlmostRB(t', h') && CtxRB(up, h' + 1)
      modifies w`color
      ensures Removing(up, t', h', parent) && Nodes(t') == Nodes(Mk(s, t, parent, cp, sib))
    {
      PaintChild(w, Red, up, s.Other(), sib, parent, cp, t);
      assert Mk(s.Other(), sib.(c := Red), parent, cp, t) == Mk(s, t, parent, cp, sib.(c := Red));
      assert Mk(s.Other(), sib, parent, cp, t) == Mk(s, t, parent, cp, sib);
    }

    /** The parent seen from the sibling's side. */
    lemma SiblingInFocus(up: Ctx, s: Side, t: Tree, parent: Node, cp: Color, sib: Tree)
      requires Around(Up(s, up, parent, cp, sib), t)
      ensures Around(up, Mk(s.Other(), sib, parent, cp, t))
      ensures CtxNodes(up) + Nodes(Mk(s, t, parent, cp, sib)) == CtxNodes(Up(s, up, parent, cp, sib)) + Nodes(t)
    {
      Refocus(up, s, t, parent, cp, sib);
      assert Mk(s.Other(), sib, parent, cp, t) == Mk(s, t, parent, cp, sib);
    }

    lemma BlackNephewsReady(parent: Node, w: Node, s: Side, up: Ctx, t: Tree, cp: Color, wa: Tree, wb: Tree, h: nat)
      returns (t': Tree, h': nat)
      requires Removing(Up(s, up, parent, cp, Mk(s, wa, w, Black, wb)), t, h, Root(t))
      requires !RedTop(t) && !RedTop(wa) && !RedTop(wb)
      ensures var sib := Mk(s, wa, w, Black, wb);
        t' == Mk(s, t, parent, cp, sib.(c := Red)) && Around(up, Mk(s.Other(), sib, parent, cp, t))
        && CtxNodes(up) + Nodes(Mk(s, t, parent, cp, sib)) == CtxNodes(Up(s, up, parent, cp, sib)) + Nodes(t)
      ensures Root(t') == parent && t'.c == cp && AlmostRB(t', h') && CtxRB(up, h' + 1)
    {
      var sib := Mk(s, wa, w, Black, wb);
      SiblingInFocus(up, s, t, parent, cp, sib);
      BlackNephewsRB(s, up, t, parent, cp, wa, w, wb, h);
      t' := Mk(s, t, parent, cp, Mk(s, wa, w, Red, wb));
      h' := if cp.Black? then h + 1 else h;
    }

    /** With only the inner nephew red, the outer one is made red first. */
    method RemoveInner(parent: Node, w: Node, a: Node, s: Side, ghost up: Ctx, ghost t: Tree, ghost cp: Color,
        ghost x: Tree, ghost y: Tree, ghost wb: Tree, ghost h: nat)
      requires Removing(Up(s, up, parent, cp, Mk(s, Mk(s, x, a, Red, y), w, Black, wb)), t, h, Root(t))
      requires !RedTop(wb) && root == RootOf(up, parent)
      modifies this`root, CtxNodes(Up(s, up, parent, cp, Mk(s, Mk(s, x, a, Red, y), w, Black, wb))), Nodes(t)
      ensures Removing(Up(s, up, parent, cp, Mk(s, x, a, Black, Mk(s, y, w, Red, wb))), t, h, Root(t))
      ensures root == RootOf(up, parent)
      ensures CtxNodes(Up(s, up, parent, cp, Mk(s, x, a, Black, Mk(s, y, w, Red, wb))))
        == CtxNodes(Up(s, up, parent, cp, Mk(s, Mk(s, x, a, Red, y), w, Black, wb)))
    {
      ghost var sib := Mk(s, Mk(s, x, a, Red, y), w, Black, wb);
      Refocus(up, s, t, parent, cp, sib);
      Refocus(up, s.Other(), sib, parent, cp, t);
      RemoveInnerNephew(w, a, s, Up(s.Other(), up, parent, cp, t), x, y, wb);
      sib := Mk(s, x, a, Black, Mk(s, y, w, Red, wb));
      Refocus(up, s.Other(), sib, parent, cp, t);
      Refocus(up, s, t, parent, cp, sib);
      InnerNephewRB(s, up, parent, cp, x, a, y, w, wb, h);
    }

    /** With the outer nephew red, one rotation at the parent makes the whole tree red-black. */
    method RemoveOuter(parent: Node, w: Node, b: Node, s: Side, ghost up: Ctx, ghost t: Tree, ghost cp: Color,
        ghost wa: Tree, ghost wb: Tree, ghost h: nat)
      returns (ghost t': Tree, ghost h': nat)
      requires Removing(Up(s, up, parent, cp, Mk(s, wa, w, Black, wb)), t, h, Root(t))
      requires !RedTop(t) && RedTop(wb) && wb.n == b && root == RootOf(up, parent)
      modifies this`root, CtxNodes(Up(s, up, parent, cp, Mk(s, wa, w, Black, wb))), Nodes(t)
      ensures root == RootOf(up, w) && t'.Br? && t'.n == w
      ensures Around(up, t') && RB(t', h') && CtxRB(up, h') && !(RedTop(t') && up.Up? && up.c.Red?)
      ensures CtxNodes(up) + Nodes(t') == CtxNodes(Up(s, up, parent, cp, Mk(s, wa, w, Black, wb))) + Nodes(t)
    {
      OuterNephewRB(s, up, t, parent, cp, wa, w, wb, h);
      RemoveOuterNephew(parent, w, b, s, up, t, cp, wa, wb);
      t' := Mk(s, Mk(s, t, parent, Black, wa), w, cp, wb.(c := Black));
      h' := if cp.Black? then h + 2 else h + 1;
    }

    /** The first step of a round below a red sibling: afterwards the sibling is black. */
    method RemoveRed(parent: Node, w: Node, s: Side, ghost up: Ctx, ghost t: Tree, ghost cp: Color,
        ghost wa: Tree, ghost wb: Tree, ghost h: nat)
      requires Removing(Up(s, up, parent, cp, Mk(s, wa, w, Red, wb)), t, h, Root(t)) && root == RootOf(up, parent)
      modifies this`root, CtxNodes(Up(s, up, parent, cp, Mk(s, wa, w, Red, wb))), Nodes(t)
      ensures Removing(Up(s, Up(s, up, w, Black, wb), parent, Red, wa), t, h, Root(t))
      ensures root == RootOf(Up(s, up, w, Black, wb), parent) && wa.Br? && wa.c.Black?
      ensures CtxNodes(Up(s, Up(s, up, w, Black, wb), parent, Red, wa))
        == CtxNodes(Up(s, up, parent, cp, Mk(s, wa, w, Red, wb)))
    {
      RedSiblingRB(s, up, parent, cp, wa, w, wb, h);
      RemoveRedSibling(parent, w, s, up, t, cp, wa, wb);
      MkFacts(s, wa, w, Red, wb);
    }

    /** What the code reads at the parent of the node in focus. */
    lemma RemoveKin(k: Ctx, t: Tree, h: nat, elm: Node?)
      requires Removing(k, t, h, elm) && k.Up? && !RedTop(t)
      ensures k.n.Child(k.s) == elm && k.n.color == k.c && (k.n.left == elm <==> k.s.L?)
      ensures k.sib.Br? && k.n.Child(k.s.Other()) == k.sib.n && k.sib.n.color == k.sib.c
      ensures root == RootOf(k.up, k.n) && k.n.parent == Above1(k.up)
    {
      Kin(k, t);
    }

    /** What the code reads at the sibling. */
    lemma SiblingKin(k: Ctx, t: Tree)
      requires Around(k, t) && k.Up? && k.sib.Br?
      ensures k.n.Child(k.s.Other()) == k.sib.n && k.sib.n.left == Root(k.sib.left)
      ensures k.sib.n.right == Root(k.sib.right)
      ensures k.sib.left.Br? ==> k.sib.left.n.color == k.sib.left.c
      ensures k.sib.right.Br? ==> k.sib.right.n.color == k.sib.right.c
    {
      assert Linked(k.sib);
      assert Linked(k.sib.left) && Linked(k.sib.right);
    }

    /** A black sibling with a red nephew: the last round. */
    method RemoveRedNephew(parent: Node, w0: Node, s: Side, ghost k: Ctx, ghost t: Tree, ghost h: nat)
      returns (ghost t': Tree, ghost h': nat)
      requires Removing(k, t, h, Root(t)) && !RedTop(t) && k.Up? && k.s == s && k.n == parent && k.sib.Br?
      requires k.sib.n == w0 && k.sib.c.Black?
      requires RedTop(k.sib.left) || RedTop(k.sib.right)
      requires root == RootOf(k.up, parent)
      modifies this`root, CtxNodes(k), Nodes(t)
      ensures t'.Br? && root == RootOf(k.up, t'.n)
      ensures Around(k.up, t') && RB(t', h') && CtxRB(k.up, h') && !(RedTop(t') && k.up.Up? && k.up.c.Red?)
      ensures CtxNodes(k.up) + Nodes(t') == CtxNodes(k) + Nodes(t)
    {
      SiblingKin(k, t);
      var w := w0;
      ghost var wa, wb, up, cp := Near(s, k.sib), Near(s.Other(), k.sib), k.up, k.c;
      assert k == Up(s, up, parent, cp, Mk(s, wa, w, Black, wb));
      var far := w.Child(s.Other());
      if far == null || far.color == Black {
        var a: Node := w.Child(s);
        ghost var x, y := Near(s, wa), Near(s.Other(), wa);
        assert wa == Mk(s, x, a, Red, y);
        RemoveInner(parent, w, a, s, up, t, cp, x, y, wb, h);
        wa, wb := x, Mk(s, y, w, Red, wb);
        SiblingKin(Up(s, up, parent, cp, Mk(s, wa, a, Black, wb)), t);
        w := parent.Child(s.Other());
        far := w.Child(s.Other());
      }
      t', h' := RemoveOuter(parent, w, far, s, up, t, cp, wa, wb, h);
    }

    /** Plugging a finished context gives a finished tree. */
    lemma Whole(k: Ctx, t: Tree, h: nat) returns (g: nat)
      requires Around(k, t) && RB(t, h) && CtxRB(k, h) && !(RedTop(t) && k.Up? && k.c.Red?)
      ensures Around(Top, Plug(k, t)) && RB(Plug(k, t), g) && Root(Plug(k, t)) == RootOf(k, Root(t))
      ensures Nodes(Plug(k, t)) == CtxNodes(k) + Nodes(t) && CtxNodes(Top) + Nodes(Plug(k, t)) == CtxNodes(k) + Nodes(t)
      ensures RedTop(Plug(k, t)) ==> k.Top?
    {
      PlugLinked(k, t);
      PlugNodes(k, t);
      PlugBst(k, t);
      g := PlugRB(k, t, h);
    }

    /** The part of a round of RB_REMOVE_COLOR that starts with a black sibling `tmp`;
        `done` is its break. */
    method RemoveBlackSibling(parent0: Node, tmp: Node, s: Side, ghost k0: Ctx, ghost t0: Tree, ghost h0: nat)
      returns (done: bool, elm: Node?, parent: Node?, ghost k: Ctx, ghost t: Tree, ghost h: nat)
      requires Removing(k0, t0, h0, Root(t0)) && !RedTop(t0) && k0.Up? && k0.s == s && k0.n == parent0
      requires k0.sib.Br? && k0.sib.n == tmp && k0.sib.c.Black? && root == RootOf(k0.up, parent0)
      modifies this`root, CtxNodes(k0), Nodes(t0)
      ensures Removing(k, t, h, elm) && parent == Above1(k)
      ensures CtxNodes(k) + Nodes(t) == CtxNodes(k0) + Nodes(t0)
      ensures done ==> elm == root && k.Top?
      ensures !done ==> k == k0.up && (RedTop(t) <==> k0.c.Red?)
    {
      SiblingKin(k0, t0);
      ghost var sib, cp, up := k0.sib, k0.c, k0.up;
      assert sib == Mk(s, Near(s, sib), tmp, Black, Near(s.Other(), sib));
      assert k0 == Up(s, up, parent0, cp, Mk(s, Near(s, sib), tmp, Black, Near(s.Other(), sib)));
      if (tmp.left == null || tmp.left.color == Black) && (tmp.right == null || tmp.right.color == Black) {
        t, h := RemoveBlackNephews(parent0, tmp, s, up, t0, cp, Near(s, sib), Near(s.Other(), sib), h0);
        done, elm, k := false, parent0, up;
        Kin(k, t);
        parent := elm.parent;
      } else {
        t, h := RemoveRedNephew(parent0, tmp, s, k0, t0, h0);
        ghost var g := Whole(up, t, h);
        done, elm, parent, k, t, h := true, root, null, Top, Plug(up, t), g;
      }
    }

    /** One round of the loop of RB_REMOVE_COLOR. */
    method RemoveRound(elm0: Node?, parent0: Node, ghost k0: Ctx, ghost t0: Tree, ghost h0: nat)
      returns (done: bool, elm: Node?, parent: Node?, ghost k: Ctx, ghost t: Tree, ghost h: nat)
      requires Removing(k0, t0, h0, elm0) && !RedTop(t0) && k0.Up? && k0.n == parent0
      modifies this`root, CtxNodes(k0), Nodes(t0)
      ensures Removing(k, t, h, elm) && parent == Above1(k)
      ensures CtxNodes(k) + Nodes(t) == CtxNodes(k0) + Nodes(t0)
      ensures done ==> elm == root && k.Top?
      ensures !done ==> RedTop(t) || k == k0.up
    {
      RemoveKin(k0, t0, h0, elm0);
      var s := if parent0.left == elm0 then L else R;
      var tmp: Node := parent0.Child(s.Other());
      k := k0;
      if tmp.color == Red {
        ghost var wa, wb := Near(s, k.sib), Near(s.Other(), k.sib);
        assert k == Up(s, k.up, parent0, k.c, Mk(s, wa, tmp, Red, wb));
        RemoveRed(parent0, tmp, s, k.up, t0, k.c, wa, wb, h0);
        k := Up(s, Up(s, k.up, tmp, Black, wb), parent0, Red, wa);
        RemoveKin(k, t0, h0, elm0);
        tmp := parent0.Child(s.Other());
      }
      done, elm, parent, k, t, h := RemoveBlackSibling(parent0, tmp, s, k, t0, h0);
    }

    /** The test at the head of the loop of RB_REMOVE_COLOR: it stops at a red node or at the root. */
    lemma RemoveStop(k: Ctx, t: Tree, h: nat, elm: Node?)
      requires Removing(k, t, h, elm)
      ensures elm == root <==> k.Top?
      ensures elm != null ==> elm.color == t.c
    {
      Kin(k, t);
      RootInCtx(k, elm);
      CtxApart(k, Nodes(t));
      assert t.Br? ==> t.n in Nodes(t);
    }

    /** RB_REMOVE_COLOR: every round goes up one level, or is the last one. */
    method RemoveColor(parent0: Node?, elm0: Node?, ghost k0: Ctx, ghost t0: Tree, ghost h0: nat)
      returns (ghost rounds: nat)
      requires Removing(k0, t0, h0, elm0) && parent0 == Above1(k0)
      modifies this, CtxNodes(k0), Nodes(t0)
      ensures Valid() && Nodes(tree) == CtxNodes(k0) + Nodes(t0)
      ensures rounds <= Depth(k0)
    {
      var elm, parent := elm0, parent0;
      ghost var k, t, h := k0, t0, h0;
      rounds := 0;
      RemoveStop(k, t, h, elm);
      while (elm == null || elm.color == Black) && elm != root
        invariant Removing(k, t, h, elm) && parent == Above1(k)
        invariant elm == root <==> k.Top?
        invariant elm != null ==> elm.color == t.c
        invariant CtxNodes(k) + Nodes(t) == CtxNodes(k0) + Nodes(t0)
        invariant rounds + (if RedTop(t) then 0 else Depth(k)) <= Depth(k0)
        decreases if RedTop(t) then 0 else 1, k
      {
        var done;
        rounds := rounds + 1;
        done, elm, parent, k, t, h := RemoveRound(elm, parent, k, t, h);
        RemoveStop(k, t, h, elm);
        if done {
          break;
        }
      }
      FinishRemove(elm, k, t, h);
    }

    /** The last lines of RB_REMOVE_COLOR. */
    method FinishRemove(elm: Node?, ghost k: Ctx, ghost t: Tree, ghost h: nat)
      requires Removing(k, t, h, elm) && (k.Top? || RedTop(t))
      modifies this`tree, Nodes(t)
      ensures Valid() && Nodes(tree) == CtxNodes(k) + Nodes(t)
    {
      if elm != null {
        Paint(elm, Black, k, t);
        ghost var t' := t.(c := Black);
        ghost var g := Whole(k, t', if RedTop(t) then h + 1 else h);
        tree := Plug(k, t');
        assert Linked(tree) && Bst(tree) && RB(tree, g) && !RedTop(tree);
      } else {
        tree := Leaf;
        assert RB(Leaf, 0);
      }
    }

    /** Hangs `child` where `elm` hung. */
    method SpliceLinks(elm: Node, child: Node?, parent: Node?)
      requires child != null ==> child != parent
      modifies this`root, Opt(child), Opt(parent)
      ensures child != null ==> child.parent == parent && child.left == old(child.left)
      ensures child != null ==> child.right == old(child.right) && child.color == old(child.color)
      ensures parent != null ==> RelinkedChild(parent, elm, child)
      ensures root == if parent == null then child else old(root)
    {
      if child != null {
        child.parent := parent;
      }
      if parent != null {
        if parent.left == elm {
          parent.left := child;
        } else {
          parent.right := child;
        }
      } else {
        root := child;
      }
    }

    /** The subtree that stays is apart from the context and from the node that goes. */
    lemma SpliceReady(k: Ctx, t: Tree, c: Tree)
      requires Around(k, t) && t.Br? && ((t.left == Leaf && t.right == c) || (t.right == Leaf && t.left == c))
      ensures Linked(c) && Bst(c) && CtxBst(k, {}) && CtxBst(k, Nodes(c)) && Nodes(c) !! CtxNodes(k)
      ensures t.n !in CtxNodes(k) && t.n !in Nodes(c)
      ensures (c.Br? ==> c.n in Nodes(c)) && (k.Up? ==> k.n in CtxNodes(k))
    {
      CtxApart(k, Nodes(t));
      CtxBstMono(k, Nodes(t), {});
      CtxBstMono(k, Nodes(t), Nodes(c));
    }

    /** Unlinks `elm`, which has at most the one subtree `c`, by hanging `child` in its place. */
    method Splice(elm: Node, child: Node?, parent: Node?, ghost k: Ctx, ghost t: Tree, ghost c: Tree)
      requires Around(k, t) && t.Br? && t.n == elm && root == RootOf(k, elm)
      requires (t.left == Leaf && t.right == c) || (t.right == Leaf && t.left == c)
      requires child == Root(c) && parent == Above1(k)
      modifies this`root, Opt(child), Opt(parent)
      ensures Around(k, c) && root == RootOf(k, child)
    {
      SpliceReady(k, t, c);
      Kin(k, t);
      SpliceAt(elm, child, parent, k, c);
    }

    /** The links, from what they rest on. */
    method SpliceAt(elm: Node, child: Node?, parent: Node?, ghost k: Ctx, ghost c: Tree)
      requires Linked(c) && Bst(c) && CtxLinked(k) && CtxBst(k, {}) && Nodes(c) !! CtxNodes(k)
      requires elm !in CtxNodes(k) && elm !in Nodes(c) && (c.Br? ==> c.n in Nodes(c)) && (k.Up? ==> k.n in CtxNodes(k))
      requires k.Up? ==> k.n.Child(k.s) == elm && k.n.Child(k.s.Other()) != elm
      requires root == RootOf(k, elm) && child == Root(c) && parent == Above1(k)
      modifies this`root, Opt(child), Opt(parent)
      ensures Linked(c) && CtxLinked(k) && Joined(k, c) && root == RootOf(k, child)
    {
      SpliceLinks(elm, child, parent);
      LinkedFrame(c);
      CtxFrame(k);
    }

    /** `y` takes over the fields of `o`, and the pointers to `o` that the code redirects. */
    method TakeLinks(o: Node, y: Node)
      requires o.left != null && y != o && y !in Opt(o.left) + Opt(o.right) + Opt(o.parent)
      requires o !in Opt(o.left) + Opt(o.right) + Opt(o.parent)
      requires o.left != o.right && Opt(o.parent) !! Opt(o.left) + Opt(o.right)
      modifies this`root, y, o.left, Opt(o.right), Opt(o.parent)
      ensures Takeover(o, y, old(o.left), old(o.right), old(o.parent)).Taken()
      ensures root == if old(o.parent) == null then y else old(root)
    {
      y.left, y.right, y.parent, y.color := o.left, o.right, o.parent, o.color;
      if o.parent != null {
        if o.parent.left == o {
          o.parent.left := y;
        } else {
          o.parent.right := y;
        }
      } else {
        root := y;
      }
      o.left.parent := y;
      if o.right != null {
        o.right.parent := y;
      }
    }

    /** A node and the nodes it points to are different nodes of the tree. */
    lemma Neighbours(t: Tree, o: Node, y: Node)
      requires LocallyLinked(t) && t.Br? && t.n in Nodes(t) && t.n.parent == null
      requires o in Nodes(t) && y !in Nodes(t) && o.left != null
      ensures y != o && y !in Opt(o.left) + Opt(o.right) + Opt(o.parent)
      ensures o !in Opt(o.left) + Opt(o.right) + Opt(o.parent)
      ensures o.left != o.right && Opt(o.parent) !! Opt(o.left) + Opt(o.right)
      ensures Opt(o.left) + Opt(o.right) + Opt(o.parent) <= Nodes(t)
    {
      assert o != t.n ==> o.parent != null;
    }

    /** `y`, already unlinked, takes the place of `o` in the tree. */
    method TakePlace(o: Node, y: Node, ghost t: Tree)
      requires Linked(t) && Bst(t) && root == Root(t) && (root != null ==> root.parent == null)
      requires o in Nodes(t) && y !in Nodes(t) && o.left != null
      modifies this`root, y, Nodes(t)
      ensures Linked(RenTree(o, y, t)) && root == Root(RenTree(o, y, t)) && root != null && root.parent == null
    {
      LinkedLocally(t);
      assert t.n in Nodes(t);
      Neighbours(t, o, y);
      ghost var u := Takeover(o, y, o.left, o.right, o.parent);
      TakeLinks(o, y);
      Takes(u, t).Relinked();
    }

    /** The end of RB_REMOVE: fix the colours if the node that left its place was black. */
    method RemoveFix(color: Color, parent: Node?, child: Node?, ghost k: Ctx, ghost c: Tree, ghost h: nat)
      returns (ghost rounds: nat)
      requires root == RootOf(k, child) && Around(k, c) && child == Root(c) && parent == Above1(k)
      requires RB(c, h) && CtxRB(k, if color.Black? then h + 1 else h) && (color.Red? ==> !RedTop(c))
      modifies this, CtxNodes(k), Nodes(c)
      ensures Valid() && Nodes(tree) == CtxNodes(k) + Nodes(c) && rounds <= Depth(k)
    {
      rounds := 0;
      if color == Black {
        rounds := RemoveColor(parent, child, k, c, h);
      } else {
        ghost var g := Whole(k, c, h);
        tree := Plug(k, c);
        assert RB(tree, g) && !RedTop(tree);
      }
    }

    /** RB_REMOVE of a node with a missing child. */
    method RemoveSimple(elm: Node, child: Node?, ghost k: Ctx, ghost t: Tree, ghost c: Tree, ghost h: nat)
      returns (ghost rounds: nat)
      requires Around(k, t) && t.Br? && t.n == elm && root == RootOf(k, elm)
      requires (t.left == Leaf && t.right == c) || (t.right == Leaf && t.left == c)
      requires child == Root(c) && RB(t, h) && CtxRB(k, h)
      modifies this, CtxNodes(k), Nodes(t)
      ensures Valid() && Nodes(tree) == CtxNodes(k) + Nodes(c) && rounds <= Depth(k)
    {
      Kin(k, t);
      var parent := elm.parent;
      var color := elm.color;
      assert k.Up? ==> k.n in CtxNodes(k);
      assert c.Br? ==> c.n in Nodes(c);
      Splice(elm, child, parent, k, t, c);
      rounds := RemoveFix(color, parent, child, k, c, if color.Black? then h - 1 else h);
    }

    /** The leftmost node below the right child of `o`. */
    method Successor(o: Node, ghost k: Ctx, ghost t: Tree) returns (y: Node, ghost k': Ctx, ghost t': Tree)
      requires Around(k, t) && t.Br? && t.n == o && t.left.Br? && t.right.Br? && root == RootOf(k, o)
      ensures Around(k', t') && t'.Br? && t'.n == y && t'.left == Leaf && Leftmost(k', o)
      ensures Plug(k', t') == Plug(k, t) && root == RootOf(k', y)
    {
      Refocus(k, R, t.right, o, t.c, t.left);
      k', t' := Up(R, k, o, t.c, t.left), t.right;
      y := o.right;
      while y.left != null
        invariant Around(k', t') && t'.Br? && t'.n == y && Leftmost(k', o) && o !in Nodes(t')
        invariant Plug(k', t') == Plug(k, t) && root == RootOf(k', y)
        decreases t'
      {
        Refocus(k', L, t'.left, t'.n, t'.c, t'.right);
        y := y.left;
        k', t' := Up(L, k', t'.n, t'.c, t'.right), t'.left;
      }
    }

    /** After the successor `y` was unlinked from below `o`, `y` replaces `o`. */
    method Substitute(o: Node, y: Node, ghost k: Ctx, ghost c: Tree)
      requires Around(k, c) && root == RootOf(k, Root(c)) && Leftmost(k, o)
      requires y !in CtxNodes(k) + Nodes(c) && CtxBst(k, Nodes(c) + {y}) && Above(y, Nodes(c))
      modifies this`root, y, CtxNodes(k), Nodes(c)
      ensures Around(RenCtx(o, y, k), c) && root == RootOf(RenCtx(o, y, k), Root(c))
      ensures CtxNodes(RenCtx(o, y, k)) + Nodes(c) == CtxNodes(k) + Nodes(c) - {o} + {y}
    {
      ghost var whole := Plug(k, c);
      PlugLinked(k, c);
      PlugNodes(k, c);
      PlugBst(k, c);
      LeftmostSame(k, Nodes(c) + {y}, o, y);
      LeftmostLeft(k, o);
      TakePlace(o, y, whole);
      RenBst(o, y, whole);
      RenNodes(o, y, whole);
      RenNodes(o, y, c);
      RenPlug(o, y, k, c);
      UnplugLinked(RenCtx(o, y, k), c);
      PlugBst(RenCtx(o, y, k), c);
      PlugNodes(RenCtx(o, y, k), c);
    }

    /** The successor `y` of `o` is spliced out and takes the place of `o`. */
    method SwapSuccessor(o: Node, y: Node, child: Node?, parent: Node?, ghost k: Ctx, ghost t: Tree)
      requires Around(k, t) && t.Br? && t.n == y && t.left == Leaf && Leftmost(k, o) && root == RootOf(k, y)
      requires child == Root(t.right) && parent == Above1(k)
      modifies this`root, CtxNodes(k), Nodes(t)
      ensures root == RootOf(RenCtx(o, y, k), child) && Around(RenCtx(o, y, k), t.right)
      ensures CtxNodes(RenCtx(o, y, k)) + Nodes(t.right) == CtxNodes(k) + Nodes(t) - {o}
    {
      ghost var c := t.right;
      SuccessorApart(o, k, t);
      Splice(y, child, parent, k, t, c);
      Substitute(o, y, k, c);
      Exchanged(CtxNodes(k), Nodes(c), o, y);
    }

    lemma Exchanged(a: set<Node>, b: set<Node>, o: Node, y: Node)
      requires o != y
      ensures a + b - {o} + {y} == a + (b + {y}) - {o}
    {
    }

    lemma SuccessorApart(o: Node, k: Ctx, t: Tree)
      requires Around(k, t) && t.Br? && t.left == Leaf && Leftmost(k, o)
      ensures Nodes(t) == Nodes(t.right) + {t.n} && t.n !in CtxNodes(k) && t.n !in Nodes(t.right)
      ensures Above(t.n, Nodes(t.right))
      ensures Nodes(t.right) !! CtxNodes(k) && CtxBst(k, Nodes(t.right) + {t.n})
      ensures k.Up? && k.n in CtxNodes(k) && o != t.n
    {
      CtxApart(k, Nodes(t));
      LeftmostSame(k, Nodes(t), o, t.n);
      assert Nodes(t) == Nodes(t.right) + {t.n};
    }

    /** The same, with the fix-up. */
    method RemoveSuccessor(o: Node, y: Node, ghost k: Ctx, ghost t: Tree, ghost h: nat) returns (ghost rounds: nat)
      requires Around(k, t) && t.Br? && t.n == y && t.left == Leaf && Leftmost(k, o) && root == RootOf(k, y)
      requires RB(t, h) && CtxRB(k, h)
      modifies this, CtxNodes(k), Nodes(t)
      ensures Valid() && Nodes(tree) == CtxNodes(k) + Nodes(t) - {o} && rounds <= Depth(k)
    {
      Kin(k, t);
      var child := y.right;
      var parent := y.parent;
      var color := y.color;
      SwapSuccessor(o, y, child, parent, k, t);
      if parent == o {
        parent := y;
      }
      RenCtxRB(o, y, k, h);
      RenDepth(o, y, k);
      rounds := RemoveFix(color, parent, child, RenCtx(o, y, k), t.right, if color.Black? then h - 1 else h);
    }

    /** RB_REMOVE of a node with two children. */
    method RemoveDouble(o: Node, ghost k: Ctx, ghost t: Tree, ghost g: nat) returns (ghost rounds: nat)
      requires Around(k, t) && t.Br? && t.n == o && t.left.Br? && t.right.Br? && root == RootOf(k, o)
      requires RB(Plug(k, t), g) && !RedTop(Plug(k, t))
      modifies this, CtxNodes(k), Nodes(t)
      ensures Valid() && Nodes(tree) == CtxNodes(k) + Nodes(t) - {o} && rounds <= Height(Plug(k, t))
    {
      ghost var k1, t1;
      var y;
      y, k1, t1 := Successor(o, k, t);
      ghost var h := UnplugRB(k1, t1, g);
      PlugNodes(k, t);
      PlugNodes(k1, t1);
      DepthHeight(k1, t1);
      rounds := RemoveSuccessor(o, y, k1, t1, h);
    }

    /** RB_REMOVE; `rounds` counts those of the fix-up. */
    method Remove(elm: Node) returns (old_: Node, ghost rounds: nat)
      requires Valid() && elm in Nodes(tree)
      modifies this, Nodes(tree)
      ensures Valid() && Nodes(tree) == old(Nodes(tree)) - {elm} && old_ == elm
      ensures Few(rounds, |old(Nodes(tree))|)
    {
      old_ := elm;
      ghost var k, t := Locus(tree, Top, elm);
      UnplugLinked(k, t);
      PlugBst(k, t);
      PlugNodes(k, t);
      ghost var g: nat :| RB(tree, g);
      ghost var before := tree;
      rounds := RemoveSplit(elm, k, t, g);
      FewSteps(before, rounds);
    }

    method RemoveSplit(elm: Node, ghost k: Ctx, ghost t: Tree, ghost g: nat) returns (ghost rounds: nat)
      requires Around(k, t) && t.Br? && t.n == elm && root == RootOf(k, elm)
      requires RB(Plug(k, t), g) && !RedTop(Plug(k, t))
      modifies this, CtxNodes(k), Nodes(t)
      ensures Valid() && Nodes(tree) == CtxNodes(k) + Nodes(t) - {elm} && rounds <= Height(Plug(k, t))
    {
      CtxApart(k, Nodes(t));
      DepthHeight(k, t);
      ghost var h := UnplugRB(k, t, g);
      if elm.left == null {
        rounds := RemoveSimple(elm, elm.right, k, t, t.right, h);
      } else if elm.right == null {
        rounds := RemoveSimple(elm, elm.left, k, t, t.left, h);
      } else {
        rounds := RemoveDouble(elm, k, t, g);
      }
    }
  }

  /** A place to rotate at: `x` and its child `y`, the subtrees around them and the context. */
  datatype Site = Site(k: Ctx, s: Side, a: Tree, x: Node, b: Tree, y: Node, c: Tree) {
    /** The links with `y` below `x`, on the side opposite to `s`. */
    ghost predicate Low()
      reads x, y, Nodes(a), Nodes(b), Nodes(c), CtxNodes(k)
    {
      && x.Child(s.Other()) == y && y.parent == x && Hangs(x, s, a) && Hangs(y, s, b) && Hangs(y, s.Other(), c)
      && Linked(a) && Linked(b) && Linked(c) && CtxLinked(k)
      && x.parent == Above1(k) && (k.Up? ==> k.n in CtxNodes(k) && k.n.Child(k.s) == x)
    }

    /** The links with `x` below `y`, on side `s`. */
    ghost predicate High()
      reads x, y, Nodes(a), Nodes(b), Nodes(c), CtxNodes(k)
    {
      && y.Child(s) == x && x.parent == y && Hangs(x, s, a) && Hangs(x, s.Other(), b) && Hangs(y, s.Other(), c)
      && Linked(a) && Linked(b) && Linked(c) && CtxLinked(k)
      && y.parent == Above1(k) && (k.Up? ==> k.n in CtxNodes(k) && k.n.Child(k.s) == y)
    }

    /** No node occurs twice. */
    ghost predicate Apart() {
      && Bst(a) && Bst(b) && Bst(c) && CtxBst(k, {})
      && x != y && x !in CtxNodes(k) && y !in CtxNodes(k)
      && x !in Nodes(a) && x !in Nodes(b) && x !in Nodes(c)
      && y !in Nodes(a) && y !in Nodes(b) && y !in Nodes(c)
      && Nodes(a) !! Nodes(b) && Nodes(b) !! Nodes(c)
      && Nodes(a) !! CtxNodes(k) && Nodes(b) !! CtxNodes(k) && Nodes(c) !! CtxNodes(k)
      && (k.Up? ==> k.n in CtxNodes(k))
    }

    /** Nothing changed but the links a rotation changes. */
    twostate predicate Changed()
      requires Root(b) != null ==> Root(b) in Nodes(b)
      requires k.Up? ==> k.n in CtxNodes(k)
      reads x, y, Nodes(a), Nodes(b), Nodes(c), CtxNodes(k)
    {
      && old(allocated(Nodes(a))) && old(allocated(Nodes(b))) && old(allocated(Nodes(c))) && old(allocated(CtxNodes(k)))
      && Rotated(x, s, y, Root(b), Above1(k))
      && (forall n <- Nodes(a) :: unchanged(n)) && (forall n <- Nodes(c) :: unchanged(n))
      && (forall n <- Nodes(b) :: n == Root(b) || unchanged(n))
      && (forall n <- CtxNodes(k) :: n == Above1(k) || unchanged(n))
    }

    twostate lemma RotateSubtrees()
      requires old(Low()) && Apart() && Changed()
      ensures Linked(a) && Linked(b) && Linked(c)
    {
      assert b.Br? ==> b.n in Nodes(b);
      LinkedFrame(a);
      LinkedFrame(b);
      LinkedFrame(c);
    }

    twostate lemma RotateCtx()
      requires old(Low()) && Apart() && Changed()
      ensures CtxLinked(k)
    {
      CtxFrame(k);
    }
  }

  ghost predicate Distinct4(x: Node, y: Node, b: Node?, p: Node?) {
    x != y && b != x && b != y && p != x && p != y && (b != null ==> b != p)
  }

  /** What a rotation did to the four nodes it touched; `b` tops the middle subtree. */
  twostate predicate Rotated(x: Node, s: Side, y: Node, b: Node?, p: Node?)
    reads x, y, Opt(b), Opt(p)
  {
    && x.parent == y && x.Child(s) == old(x.Child(s)) && x.Child(s.Other()) == b && x.color == old(x.color)
    && y.parent == p && y.Child(s) == x && y.Child(s.Other()) == old(y.Child(s.Other())) && y.color == old(y.color)
    && (b != null ==> b.parent == x && b.left == old(b.left) && b.right == old(b.right) && b.color == old(b.color))
    && (p != null ==> RelinkedChild(p, x, y))
  }

  lemma SiteLow(r: Site, cx: Color, cy: Color)
    requires Around(r.k, Mk(r.s, r.a, r.x, cx, Mk(r.s, r.b, r.y, cy, r.c)))
    ensures r.Low() && Ordered(r.k, r.s, r.a, r.x, r.b, r.y, r.c)
    ensures r.x.color == cx && r.y.color == cy
  {
    OrderedLow(r.k, r.s, r.a, r.x, cx, r.b, r.y, cy, r.c);
    LinkedMk(r.s, r.b, r.y, cy, r.c);
    LinkedMk(r.s, r.a, r.x, cx, Mk(r.s, r.b, r.y, cy, r.c));
    assert r.k.Up? ==> r.k.n in CtxNodes(r.k);
  }

  lemma SiteHigh(r: Site)
    requires r.High() && Ordered(r.k, r.s, r.a, r.x, r.b, r.y, r.c)
    ensures Around(r.k, Mk(r.s, Mk(r.s, r.a, r.x, r.x.color, r.b), r.y, r.y.color, r.c))
  {
    OrderedHigh(r.k, r.s, r.a, r.x, r.x.color, r.b, r.y, r.y.color, r.c);
  }

  lemma SiteApart(r: Site)
    requires Ordered(r.k, r.s, r.a, r.x, r.b, r.y, r.c)
    ensures r.Apart()
  {
    var all := Nodes(r.a) + {r.x} + Nodes(r.b) + {r.y} + Nodes(r.c);
    CtxApart(r.k, all);
    CtxBstMono(r.k, all, {});
  }
}
