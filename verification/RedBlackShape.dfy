/**
 The shapes a red-black tree takes: values that mirror the linked nodes.

 `Tree` is a whole (sub)tree, `Ctx` is a tree with one hole, seen from the hole upwards.
 The fix-up loops of the tree walk towards the root, so their state is a pair of a
 `Ctx` and the `Tree` in its hole.  Everything about colours and keys is proved here on
 values; `Is` and `CtxIs` say that the linked nodes have a given shape.
 */
module RedBlackShape {
  datatype Color = Black | Red

  datatype Side = L | R {
    function Other(): Side { if L? then R else L }
  }

  /** The fields of RB_ENTRY; `key` is what the comparison looks at. */
  class Node {
    var left: Node?
    var right: Node?
    var parent: Node?
    var color: Color
    const key: int

    constructor (k: int)
      ensures key == k
    {
      key := k;
      left, right, parent, color := null, null, null, Red;
    }

    function Child(s: Side): Node?
      reads this
    {
      if s.L? then left else right
    }

    method SetChild(s: Side, x: Node?)
      modifies this
      ensures Child(s) == x && Child(s.Other()) == old(Child(s.Other()))
      ensures parent == old(parent) && color == old(color)
    {
      if s.L? { left := x; } else { right := x; }
    }
  }

  /** Negative, zero or positive, as the comparison handed to the macros. */
  function Cmp(a: Node, b: Node): int {
    a.key - b.key
  }

  datatype Tree = Leaf | Br(left: Tree, n: Node, c: Color, right: Tree)

  datatype Ctx = Top | Up(s: Side, up: Ctx, n: Node, c: Color, sib: Tree)

  /** The node `n` with the subtree `near` on side `s`. */
  function Mk(s: Side, near: Tree, n: Node, c: Color, far: Tree): Tree {
    if s.L? then Br(near, n, c, far) else Br(far, n, c, near)
  }

  function Plug(k: Ctx, t: Tree): Tree {
    match k
    case Top => t
    case Up(s, up, n, c, sib) => Plug(up, Mk(s, t, n, c, sib))
  }

  ghost function Nodes(t: Tree): set<Node> {
    match t
    case Leaf => {}
    case Br(l, n, _, r) => Nodes(l) + {n} + Nodes(r)
  }

  ghost function CtxNodes(k: Ctx): set<Node> {
    match k
    case Top => {}
    case Up(_, up, n, _, sib) => CtxNodes(up) + {n} + Nodes(sib)
  }

  lemma {:induction false} PlugNodes(k: Ctx, t: Tree)
    ensures Nodes(Plug(k, t)) == CtxNodes(k) + Nodes(t)
  {
    match k
    case Top =>
    case Up(s, up, n, c, sib) => PlugNodes(up, Mk(s, t, n, c, sib));
  }

  // ---------- keys ----------

  ghost predicate Below(a: set<Node>, n: Node) { forall m <- a :: m.key < n.key }

  ghost predicate Above(n: Node, a: set<Node>) { forall m <- a :: n.key < m.key }

  /** Strict search order, so in particular no node and no key occurs twice. */
  ghost predicate Bst(t: Tree) {
    match t
    case Leaf => true
    case Br(l, n, _, r) => Bst(l) && Bst(r) && Below(Nodes(l), n) && Above(n, Nodes(r))
  }

  ghost predicate Sep(s: Side, a: set<Node>, n: Node, b: set<Node>) {
    if s.L? then Below(a, n) && Above(n, b) else Below(b, n) && Above(n, a)
  }

  /** The context is in search order around a hole filled with the nodes `a`. */
  ghost predicate CtxBst(k: Ctx, a: set<Node>) {
    match k
    case Top => true
    case Up(s, up, n, _, sib) => Bst(sib) && Sep(s, a, n, Nodes(sib)) && CtxBst(up, a + {n} + Nodes(sib))
  }

  /** Mk by its parts, whatever the side. */
  lemma MkFacts(s: Side, near: Tree, n: Node, c: Color, far: Tree)
    ensures Nodes(Mk(s, near, n, c, far)) == Nodes(near) + {n} + Nodes(far)
    ensures Bst(Mk(s, near, n, c, far)) <==> Bst(near) && Bst(far) && Sep(s, Nodes(near), n, Nodes(far))
  {
  }

  lemma {:induction false} PlugBst(k: Ctx, t: Tree)
    ensures Bst(Plug(k, t)) <==> Bst(t) && CtxBst(k, Nodes(t))
  {
    match k
    case Top =>
    case Up(s, up, n, c, sib) =>
      PlugBst(up, Mk(s, t, n, c, sib));
      assert Nodes(Mk(s, t, n, c, sib)) == Nodes(t) + {n} + Nodes(sib);
  }

  lemma {:induction false} CtxBstMono(k: Ctx, a: set<Node>, b: set<Node>)
    requires CtxBst(k, a) && b <= a
    ensures CtxBst(k, b)
  {
    match k
    case Top =>
    case Up(s, up, n, c, sib) => CtxBstMono(up, a + {n} + Nodes(sib), b + {n} + Nodes(sib));
  }

  lemma {:induction false} CtxApart(k: Ctx, a: set<Node>)
    requires CtxBst(k, a)
    ensures a !! CtxNodes(k)
  {
    match k
    case Top =>
    case Up(s, up, n, c, sib) => CtxApart(up, a + {n} + Nodes(sib));
  }

  // ---------- rotations ----------

  /** The search order of the pieces around a rotation of `x` with its child `y`. */
  ghost predicate Ordered(k: Ctx, s: Side, a: Tree, x: Node, b: Tree, y: Node, c: Tree) {
    && Bst(a) && Bst(b) && Bst(c)
    && Sep(s, Nodes(a), x, Nodes(b) + {y} + Nodes(c))
    && Sep(s, Nodes(a) + {x} + Nodes(b), y, Nodes(c))
    && CtxBst(k, Nodes(a) + {x} + Nodes(b) + {y} + Nodes(c))
  }

  lemma OrderedLow(k: Ctx, s: Side, a: Tree, x: Node, cx: Color, b: Tree, y: Node, cy: Color, c: Tree)
    ensures Ordered(k, s, a, x, b, y, c) <==>
            Bst(Mk(s, a, x, cx, Mk(s, b, y, cy, c))) && CtxBst(k, Nodes(Mk(s, a, x, cx, Mk(s, b, y, cy, c))))
    ensures Nodes(Mk(s, a, x, cx, Mk(s, b, y, cy, c))) == Nodes(a) + {x} + Nodes(b) + {y} + Nodes(c)
  {
    MkFacts(s, b, y, cy, c);
    MkFacts(s, a, x, cx, Mk(s, b, y, cy, c));
    assert Nodes(Mk(s, b, y, cy, c)) == Nodes(b) + {y} + Nodes(c);
    assert Nodes(a) + {x} + (Nodes(b) + {y} + Nodes(c)) == Nodes(a) + {x} + Nodes(b) + {y} + Nodes(c);
  }

  lemma OrderedHigh(k: Ctx, s: Side, a: Tree, x: Node, cx: Color, b: Tree, y: Node, cy: Color, c: Tree)
    ensures Ordered(k, s, a, x, b, y, c) <==>
            Bst(Mk(s, Mk(s, a, x, cx, b), y, cy, c)) && CtxBst(k, Nodes(Mk(s, Mk(s, a, x, cx, b), y, cy, c)))
    ensures Nodes(Mk(s, Mk(s, a, x, cx, b), y, cy, c)) == Nodes(a) + {x} + Nodes(b) + {y} + Nodes(c)
  {
    MkFacts(s, a, x, cx, b);
    MkFacts(s, Mk(s, a, x, cx, b), y, cy, c);
    assert x in Nodes(Mk(s, a, x, cx, b));
  }

  /** Where a search ends, no node of the context has the key searched for. */
  lemma {:induction false} SearchEnd(k: Ctx, e: Node)
    requires CtxBst(k, {e})
    ensures forall n <- CtxNodes(k) :: n.key != e.key
  {
    match k
    case Top =>
    case Up(s, up, n, _, sib) =>
      CtxBstMono(up, {e} + {n} + Nodes(sib), {e});
      SearchEnd(up, e);
  }

  // ---------- colours ----------

  predicate RedTop(t: Tree) { t.Br? && t.c.Red? }

  /** Red-black with black height `h`: no red node with a red child, equal black heights. */
  ghost predicate RB(t: Tree, h: nat) {
    match t
    case Leaf => h == 0
    case Br(l, _, Black, r) => h > 0 && RB(l, h - 1) && RB(r, h - 1)
    case Br(l, _, Red, r) => RB(l, h) && RB(r, h) && !RedTop(l) && !RedTop(r)
  }

  /** Red-black up to a red root whose child may be red. */
  ghost predicate AlmostRB(t: Tree, h: nat) {
    if RedTop(t) then RB(t.left, h) && RB(t.right, h) else RB(t, h)
  }

  predicate BlackUp(k: Ctx) { k.Up? && k.c.Black? }

  /** The context is red-black around a hole of black height `h`; its own root is black. */
  ghost predicate CtxRB(k: Ctx, h: nat) {
    match k
    case Top => true
    case Up(_, up, _, Black, sib) => RB(sib, h) && CtxRB(up, h + 1)
    case Up(_, up, _, Red, sib) => RB(sib, h) && !RedTop(sib) && BlackUp(up) && CtxRB(up, h)
  }

  /** A red-black tree: `RB` for some black height, and a black root. */
  ghost predicate RedBlack(t: Tree) {
    !RedTop(t) && exists h: nat :: RB(t, h)
  }

  lemma {:induction false} PlugRB(k: Ctx, t: Tree, h: nat) returns (g: nat)
    requires RB(t, h) && CtxRB(k, h)
    requires RedTop(t) ==> !(k.Up? && k.c.Red?)
    ensures RB(Plug(k, t), g)
    ensures k.Up? ==> !RedTop(Plug(k, t))
    ensures k.Top? ==> g == h
  {
    match k
    case Top => g := h;
    case Up(s, up, n, c, sib) =>
      g := PlugRB(up, Mk(s, t, n, c, sib), if c.Black? then h + 1 else h);
  }

  /** Taking a red-black tree apart gives back a red-black context and subtree. */
  lemma {:induction false} UnplugRB(k: Ctx, t: Tree, g: nat) returns (h: nat)
    requires RB(Plug(k, t), g)
    requires !RedTop(Plug(k, t))
    ensures RB(t, h) && CtxRB(k, h)
    ensures RedTop(t) ==> BlackUp(k)
  {
    match k
    case Top => h := g;
    case Up(s, up, n, c, sib) =>
      var h' := UnplugRB(up, Mk(s, t, n, c, sib), g);
      h := if c.Black? then h' - 1 else h';
  }

  // ---------- insertion with a black uncle ----------

  function Near(s: Side, t: Tree): Tree
    requires t.Br?
  {
    if s.L? then t.left else t.right
  }

  /** The subtree in focus after the rotations, for a red `t` below a red `p`. */
  function InsertedTree(s: Side, r: Side, p: Node, t: Tree, sib: Tree): Tree
    requires t.Br?
  {
    if r == s then t else Mk(s, sib, p, Red, Near(s, t))
  }

  /** The context around it: the new parent is black. */
  function InsertedCtx(s: Side, r: Side, up: Ctx, g: Node, p: Node, t: Tree, sib: Tree, u: Tree): Ctx
    requires t.Br?
  {
    if r == s then Up(s, up, p, Black, Mk(s, sib, g, Red, u))
    else Up(s, up, t.n, Black, Mk(s, Near(s.Other(), t), g, Red, u))
  }

  lemma InsertedRB(s: Side, r: Side, up: Ctx, g: Node, p: Node, t: Tree, sib: Tree, u: Tree, h: nat)
    requires RedTop(t) && RB(t, h) && CtxRB(Up(r, Up(s, up, g, Black, u), p, Red, sib), h) && !RedTop(u)
    ensures RedTop(InsertedTree(s, r, p, t, sib)) && RB(InsertedTree(s, r, p, t, sib), h)
    ensures CtxRB(InsertedCtx(s, r, up, g, p, t, sib, u), h)
  {
    assert CtxRB(Up(s, up, g, Black, u), h);
  }

  lemma RecoloredRB(s: Side, r: Side, up: Ctx, g: Node, p: Node, t: Tree, sib: Tree, u: Tree, h: nat)
    requires RB(t, h) && CtxRB(Up(r, Up(s, up, g, Black, u), p, Red, sib), h) && RedTop(u)
    ensures RB(Mk(s, Mk(r, t, p, Black, sib), g, Red, u.(c := Black)), h + 1) && CtxRB(up, h + 1)
  {
    assert CtxRB(Up(s, up, g, Black, u), h);
    assert RB(Mk(r, t, p, Black, sib), h + 1) && RB(u.(c := Black), h + 1);
  }

  lemma InsertedNodes(s: Side, r: Side, up: Ctx, g: Node, p: Node, t: Tree, sib: Tree, u: Tree)
    requires t.Br?
    ensures CtxNodes(InsertedCtx(s, r, up, g, p, t, sib, u)) + Nodes(InsertedTree(s, r, p, t, sib))
         == CtxNodes(Up(r, Up(s, up, g, Black, u), p, Red, sib)) + Nodes(t)
  {
  }

  // ---------- removal: `t` is one black node short, `w` tops its sibling ----------

  lemma RedSiblingRB(s: Side, up: Ctx, p: Node, cp: Color, wa: Tree, w: Node, wb: Tree, h: nat)
    requires CtxRB(Up(s, up, p, cp, Mk(s, wa, w, Red, wb)), h + 1)
    ensures cp.Black? && wa.Br? && wa.c.Black?
    ensures CtxRB(Up(s, Up(s, up, w, Black, wb), p, Red, wa), h + 1)
  {
    assert RB(wa, h + 1) && RB(wb, h + 1);
    assert CtxRB(Up(s, up, w, Black, wb), h + 1);
  }

  lemma BlackNephewsRB(s: Side, up: Ctx, t: Tree, p: Node, cp: Color, wa: Tree, w: Node, wb: Tree, h: nat)
    requires RB(t, h) && CtxRB(Up(s, up, p, cp, Mk(s, wa, w, Black, wb)), h + 1) && !RedTop(wa) && !RedTop(wb)
    ensures var g := if cp.Black? then h + 1 else h;
            AlmostRB(Mk(s, t, p, cp, Mk(s, wa, w, Red, wb)), g) && CtxRB(up, g + 1)
  {
    assert RB(Mk(s, wa, w, Red, wb), h);
  }

  lemma InnerNephewRB(s: Side, up: Ctx, p: Node, cp: Color, x: Tree, a: Node, y: Tree, w: Node, wb: Tree, h: nat)
    requires CtxRB(Up(s, up, p, cp, Mk(s, Mk(s, x, a, Red, y), w, Black, wb)), h + 1) && !RedTop(wb)
    ensures CtxRB(Up(s, up, p, cp, Mk(s, x, a, Black, Mk(s, y, w, Red, wb))), h + 1)
  {
    assert RB(Mk(s, x, a, Red, y), h) && RB(wb, h);
    assert RB(Mk(s, y, w, Red, wb), h);
  }

  lemma OuterNephewRB(s: Side, up: Ctx, t: Tree, p: Node, cp: Color, wa: Tree, w: Node, wb: Tree, h: nat)
    requires RB(t, h) && !RedTop(t) && CtxRB(Up(s, up, p, cp, Mk(s, wa, w, Black, wb)), h + 1) && RedTop(wb)
    ensures var g := if cp.Black? then h + 2 else h + 1;
            RB(Mk(s, Mk(s, t, p, Black, wa), w, cp, wb.(c := Black)), g) && CtxRB(up, g)
    ensures cp.Red? ==> BlackUp(up)
  {
    assert RB(Mk(s, t, p, Black, wa), h + 1);
    assert RB(wb, h);
    assert RB(wb.(c := Black), h + 1);
  }

  lemma OuterNodes(s: Side, up: Ctx, t: Tree, p: Node, cp: Color, wa: Tree, w: Node, wb: Tree)
    requires wb.Br?
    ensures CtxNodes(up) + Nodes(Mk(s, t, p, Black, Mk(s, wa, w, cp, wb.(c := Black))))
         == CtxNodes(Up(s, up, p, cp, Mk(s, wa, w, Black, wb))) + Nodes(t)
    ensures {p, w, wb.n} <= CtxNodes(Up(s, up, p, cp, Mk(s, wa, w, Black, wb)))
  {
    assert Nodes(wb.(c := Black)) == Nodes(wb);
    MkFacts(s, wa, w, cp, wb.(c := Black));
    MkFacts(s, wa, w, Black, wb);
    MkFacts(s, t, p, Black, Mk(s, wa, w, cp, wb.(c := Black)));
  }

  // ---------- heap ----------

  ghost function Root(t: Tree): Node? {
    if t.Br? then t.n else null
  }

  ghost function Opt(x: Node?): set<Node> {
    if x == null then {} else {x}
  }

  /** The node above the hole. */
  ghost function Above1(k: Ctx): Node? {
    if k.Up? then k.n else null
  }

  /** `c` hangs below `n` on side `s`. */
  ghost predicate Hangs(n: Node, s: Side, c: Tree)
    reads n, Nodes(c)
  {
    n.Child(s) == Root(c) && (c.Br? ==> c.n.parent == n)
  }

  /** The nodes are linked as in `t`; the topmost node's parent is left open. */
  ghost predicate Linked(t: Tree)
    reads Nodes(t)
  {
    match t
    case Leaf => true
    case Br(l, n, c, r) => n.color == c && Hangs(n, L, l) && Hangs(n, R, r) && Linked(l) && Linked(r)
  }

  /** The nodes are linked as in `k`; what hangs in the hole is left open. */
  ghost predicate CtxLinked(k: Ctx)
    reads CtxNodes(k)
  {
    match k
    case Top => true
    case Up(s, up, n, c, sib) =>
      && n.color == c && n.parent == Above1(up) && Hangs(n, s.Other(), sib) && Linked(sib) && CtxLinked(up)
      && (up.Up? ==> up.n in CtxNodes(up) && up.n.Child(up.s) == n)
  }

  lemma LinkedMk(s: Side, near: Tree, n: Node, c: Color, far: Tree)
    ensures Linked(Mk(s, near, n, c, far)) <==>
            n.color == c && Hangs(n, s, near) && Hangs(n, s.Other(), far) && Linked(near) && Linked(far)
    ensures Root(Mk(s, near, n, c, far)) == n
  {
  }

  /** `t` hangs in the hole of `k`. */
  ghost predicate Joined(k: Ctx, t: Tree)
    reads CtxNodes(k), Nodes(t)
  {
    (k.Up? ==> k.n.Child(k.s) == Root(t)) && (t.Br? ==> t.n.parent == Above1(k))
  }

  /** The topmost node once `x` is in the hole. */
  ghost function RootOf(k: Ctx, x: Node?): (r: Node?)
    ensures x != null ==> r != null
  {
    match k
    case Top => x
    case Up(_, up, n, _, _) => RootOf(up, n)
  }

  lemma {:induction false} RootInCtx(k: Ctx, x: Node?)
    ensures k.Up? ==> RootOf(k, x) in CtxNodes(k)
  {
    match k
    case Top =>
    case Up(_, up, n, _, _) => RootInCtx(up, n);
  }

  /** The whole tree, split into a context and a subtree. */
  ghost predicate Split(k: Ctx, t: Tree)
    reads CtxNodes(k), Nodes(t)
  {
    Linked(t) && CtxLinked(k) && Joined(k, t)
  }

  /** A split tree in search order. */
  ghost predicate Around(k: Ctx, t: Tree)
    reads CtxNodes(k), Nodes(t)
  {
    Split(k, t) && Bst(t) && CtxBst(k, Nodes(t))
  }

  /** Moving the focus down to a child, or up to the parent. */
  lemma Refocus(k: Ctx, s: Side, near: Tree, n: Node, c: Color, far: Tree)
    ensures Around(k, Mk(s, near, n, c, far)) <==> Around(Up(s, k, n, c, far), near)
    ensures CtxNodes(k) + Nodes(Mk(s, near, n, c, far)) == CtxNodes(Up(s, k, n, c, far)) + Nodes(near)
  {
    MkFacts(s, near, n, c, far);
    assert k.Up? ==> k.n in CtxNodes(k);
  }

  /** The node in focus, its parent and its sibling, as the code reads them. */
  lemma Kin(k: Ctx, t: Tree)
    requires Around(k, t)
    ensures t.Br? ==> t.n.parent == Above1(k) && t.n.color == t.c
    ensures k.Up? ==> k.n.color == k.c && k.n.Child(k.s) == Root(t) && k.n.Child(k.s.Other()) == Root(k.sib)
    ensures k.Up? ==> k.n.parent == Above1(k.up)
    ensures k.Up? && t.Br? ==> t.n != Root(k.sib)
    ensures k.Up? && k.sib.Br? ==> k.sib.n.color == k.sib.c
  {
    if k.Up? && k.sib.Br? {
      assert k.sib.n in Nodes(k.sib);
      assert t.Br? ==> t.n in Nodes(t);
    }
  }

  /** The context and focus one step down on side `s`. */
  function DownCtx(s: Side, k: Ctx, t: Tree): Ctx
    requires t.Br?
  {
    Up(s, k, t.n, t.c, Near(s.Other(), t))
  }

  /** A search for the key of `e` keeps its place in the search order. */
  lemma Descend(s: Side, k: Ctx, t: Tree, e: Node)
    requires t.Br? && Around(k, t) && CtxBst(k, Nodes(t) + {e})
    requires if s.L? then e.key < t.n.key else t.n.key < e.key
    ensures Around(DownCtx(s, k, t), Near(s, t)) && CtxBst(DownCtx(s, k, t), Nodes(Near(s, t)) + {e})
    ensures Plug(DownCtx(s, k, t), Near(s, t)) == Plug(k, t)
  {
    assert t == Mk(s, Near(s, t), t.n, t.c, Near(s.Other(), t));
    Refocus(k, s, Near(s, t), t.n, t.c, Near(s.Other(), t));
    assert Nodes(t) + {e} == Nodes(Near(s, t)) + {e} + {t.n} + Nodes(Near(s.Other(), t));
  }

  lemma {:induction false} PlugLinked(k: Ctx, t: Tree)
    requires Split(k, t)
    ensures Linked(Plug(k, t)) && Root(Plug(k, t)) == RootOf(k, Root(t))
    ensures Root(Plug(k, t)) != null ==> Root(Plug(k, t)).parent == null
  {
    match k
    case Top =>
    case Up(s, up, n, c, sib) => PlugLinked(up, Mk(s, t, n, c, sib));
  }

  lemma {:induction false} UnplugLinked(k: Ctx, t: Tree)
    requires Linked(Plug(k, t))
    requires Root(Plug(k, t)) != null ==> Root(Plug(k, t)).parent == null
    ensures Split(k, t) && Root(Plug(k, t)) == RootOf(k, Root(t))
  {
    match k
    case Top =>
    case Up(s, up, n, c, sib) => UnplugLinked(up, Mk(s, t, n, c, sib));
  }

  /** A subtree stays linked when only its topmost parent pointer changes. */
  twostate lemma LinkedFrame(t: Tree)
    requires old(Linked(t)) && Bst(t) && old(allocated(Nodes(t)))
    requires t.Br? ==> t.n.left == old(t.n.left) && t.n.right == old(t.n.right) && t.n.color == old(t.n.color)
    requires forall n <- Nodes(t) :: n == t.n || unchanged(n)
    ensures Linked(t)
  {
    if t.Br? {
      assert t.left.Br? ==> t.left.n in Nodes(t.left);
      assert t.right.Br? ==> t.right.n in Nodes(t.right);
      LinkedFrame(t.left);
      LinkedFrame(t.right);
    }
  }

  /** A context stays linked when only the pointer to its hole changes. */
  twostate lemma CtxFrame(k: Ctx)
    requires old(CtxLinked(k)) && CtxBst(k, {}) && old(allocated(CtxNodes(k)))
    requires k.Up? ==> k.n.parent == old(k.n.parent) && k.n.Child(k.s.Other()) == old(k.n.Child(k.s.Other()))
    requires k.Up? ==> k.n.color == old(k.n.color)
    requires forall n <- CtxNodes(k) :: (k.Up? && n == k.n) || unchanged(n)
    ensures CtxLinked(k)
  {
    if k.Up? {
      CtxApart(k.up, {} + {k.n} + Nodes(k.sib));
      CtxBstMono(k.up, {} + {k.n} + Nodes(k.sib), {});
      assert k.up.Up? ==> k.up.n in CtxNodes(k.up);
      assert k.sib.Br? ==> k.sib.n in Nodes(k.sib);
      LinkedFrame(k.sib);
      CtxFrame(k.up);
    }
  }
}
