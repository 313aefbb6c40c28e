/**
 Shapes for the top-down splay: the part of the tree not yet split, and the two spines
 that collect what was split off to its left and right.
 */
module SplayShape {
  datatype Side = L | R {
    function Other(): Side { if L? then R else L }
  }

  /** The fields of SPLAY_ENTRY; `key` is what the comparison looks at. */
  class Node {
    var left: Node?
    var right: Node?
    const key: int

    constructor (k: int)
      ensures key == k && left == null && right == null
    {
      key := k;
      left, right := null, null;
    }

    function Child(s: Side): Node?
      reads this
    {
      if s.L? then left else right
    }
  }

  function Cmp(a: Node, b: Node): int {
    a.key - b.key
  }

  datatype Tree = Leaf | Br(left: Tree, n: Node, right: Tree)

  /** A chain of nodes below a header, innermost last; each carries a subtree. */
  datatype Spine = Header | Link(up: Spine, n: Node, sub: Tree)

  function Mk(s: Side, near: Tree, n: Node, far: Tree): Tree {
    if s.L? then Br(near, n, far) else Br(far, n, near)
  }

  function Near(s: Side, t: Tree): Tree
    requires t.Br?
  {
    if s.L? then t.left else t.right
  }

  /** The tree a spine becomes when `t` is hung from its last node, on side `s`. */
  function Close(s: Side, sp: Spine, t: Tree): Tree {
    match sp
    case Header => t
    case Link(up, n, sub) => Close(s, up, Mk(s, t, n, sub))
  }

  ghost function Nodes(t: Tree): set<Node> {
    match t
    case Leaf => {}
    case Br(l, n, r) => Nodes(l) + {n} + Nodes(r)
  }

  ghost function SpineNodes(sp: Spine): set<Node> {
    match sp
    case Header => {}
    case Link(up, n, sub) => SpineNodes(up) + {n} + Nodes(sub)
  }

  function Size(t: Tree): nat {
    match t
    case Leaf => 0
    case Br(l, _, r) => Size(l) + 1 + Size(r)
  }

  // ---------- search order ----------

  ghost predicate Below(a: set<Node>, k: int) { forall m <- a :: m.key < k }

  ghost predicate Above(k: int, a: set<Node>) { forall m <- a :: k < m.key }

  /** `a` is on side `s` of the key `k`. */
  ghost predicate On(s: Side, a: set<Node>, k: int) {
    if s.L? then Below(a, k) else Above(k, a)
  }

  ghost predicate Bst(t: Tree) {
    match t
    case Leaf => true
    case Br(l, n, r) => Bst(l) && Bst(r) && Below(Nodes(l), n.key) && Above(n.key, Nodes(r))
  }

  /** The spine is in order around `a`, which lies on side `s` of it. */
  ghost predicate SpineBst(s: Side, sp: Spine, a: set<Node>) {
    match sp
    case Header => true
    case Link(up, n, sub) =>
      Bst(sub) && On(s, a, n.key) && On(s.Other(), Nodes(sub), n.key) && SpineBst(s, up, a + {n} + Nodes(sub))
  }

  lemma MkFacts(s: Side, near: Tree, n: Node, far: Tree)
    ensures Nodes(Mk(s, near, n, far)) == Nodes(near) + {n} + Nodes(far)
    ensures Bst(Mk(s, near, n, far))
      <==> Bst(near) && Bst(far) && On(s, Nodes(near), n.key) && On(s.Other(), Nodes(far), n.key)
    ensures Size(Mk(s, near, n, far)) == Size(near) + 1 + Size(far)
  {
  }

  lemma {:induction false} CloseNodes(s: Side, sp: Spine, t: Tree)
    ensures Nodes(Close(s, sp, t)) == SpineNodes(sp) + Nodes(t)
  {
    if sp.Link? {
      CloseNodes(s, sp.up, Mk(s, t, sp.n, sp.sub));
    }
  }

  lemma {:induction false} CloseBst(s: Side, sp: Spine, t: Tree)
    ensures Bst(Close(s, sp, t)) <==> Bst(t) && SpineBst(s, sp, Nodes(t))
  {
    if sp.Link? {
      MkFacts(s, t, sp.n, sp.sub);
      CloseBst(s, sp.up, Mk(s, t, sp.n, sp.sub));
    }
  }

  lemma {:induction false} SpineMono(s: Side, sp: Spine, a: set<Node>, b: set<Node>)
    requires SpineBst(s, sp, a) && b <= a
    ensures SpineBst(s, sp, b)
  {
    if sp.Link? {
      SpineMono(s, sp.up, a + {sp.n} + Nodes(sp.sub), b + {sp.n} + Nodes(sp.sub));
    }
  }

  /** Everything on the spine is on the far side of every node of `a`. */
  lemma {:induction false} SpineApart(s: Side, sp: Spine, a: set<Node>, x: Node)
    requires SpineBst(s, sp, a) && x in a
    ensures On(s.Other(), SpineNodes(sp), x.key)
  {
    if sp.Link? {
      SpineApart(s, sp.up, a + {sp.n} + Nodes(sp.sub), x);
      SpineApart(s, sp.up, a + {sp.n} + Nodes(sp.sub), sp.n);
    }
  }

  // ---------- in-order sequence ----------

  ghost function InOrder(t: Tree): seq<Node> {
    match t
    case Leaf => []
    case Br(l, n, r) => InOrder(l) + [n] + InOrder(r)
  }

  ghost predicate Increasing(s: seq<Node>) {
    forall i, j | 0 <= i < j < |s| :: s[i].key < s[j].key
  }

  lemma {:induction false} InOrderSorted(t: Tree)
    requires Bst(t)
    ensures Increasing(InOrder(t))
    ensures forall i | 0 <= i < |InOrder(t)| :: InOrder(t)[i] in Nodes(t)
    ensures forall m <- Nodes(t) :: m in InOrder(t)
  {
    if t.Br? {
      InOrderSorted(t.left);
      InOrderSorted(t.right);
    }
  }

  lemma {:induction false} IncreasingUnique(a: seq<Node>, b: seq<Node>)
    requires Increasing(a) && Increasing(b)
    requires forall i | 0 <= i < |a| :: a[i] in b
    requires forall i | 0 <= i < |b| :: b[i] in a
    ensures a == b
  {
    assert a != [] ==> a[0] in b;
    assert b != [] ==> b[0] in a;
    if a != [] && b != [] {
      assert a[0] == b[0];
      forall i | 0 <= i < |a| - 1 ensures a[1..][i] in b[1..] {
        assert a[i + 1] in b && a[i + 1] != b[0];
      }
      forall i | 0 <= i < |b| - 1 ensures b[1..][i] in a[1..] {
        assert b[i + 1] in a && b[i + 1] != a[0];
      }
      IncreasingUnique(a[1..], b[1..]);
    }
  }

  /** The search order fixes the in-order sequence: only the shape is left to choose. */
  lemma InOrderUnique(t: Tree, u: Tree)
    requires Bst(t) && Bst(u) && Nodes(t) == Nodes(u)
    ensures InOrder(t) == InOrder(u)
  {
    InOrderSorted(t);
    InOrderSorted(u);
    IncreasingUnique(InOrder(t), InOrder(u));
  }

  // ---------- heap ----------

  ghost function Root(t: Tree): Node? {
    if t.Br? then t.n else null
  }

  ghost predicate TreeLinked(t: Tree)
    reads Nodes(t)
  {
    match t
    case Leaf => true
    case Br(l, n, r) => n.left == Root(l) && n.right == Root(r) && TreeLinked(l) && TreeLinked(r)
  }

  lemma LinkedMk(s: Side, near: Tree, n: Node, far: Tree)
    ensures TreeLinked(Mk(s, near, n, far))
      <==> n.Child(s) == Root(near) && n.Child(s.Other()) == Root(far) && TreeLinked(near) && TreeLinked(far)
    ensures Root(Mk(s, near, n, far)) == n
  {
  }

  twostate lemma TreeFrame(t: Tree)
    requires old(TreeLinked(t)) && old(allocated(Nodes(t))) && forall n <- Nodes(t) :: unchanged(n)
    ensures TreeLinked(t)
  {
  }

  function Last(sp: Spine, header: Node): Node {
    if sp.Link? then sp.n else header
  }

  /** A spine hanging from `header` on side `s`; the last node's pointer on that side is open. */
  datatype Chain = Chain(s: Side, sp: Spine, header: Node) {
    ghost predicate Linked()
      reads header, SpineNodes(sp)
      decreases sp
    {
      match sp
      case Header => true
      case Link(up, n, sub) =>
        && n.Child(s.Other()) == Root(sub) && TreeLinked(sub) && Chain(s, up, header).Linked()
        && Last(up, header) in {header} + SpineNodes(up) && Last(up, header).Child(s) == n
    }

    /** Only the open pointer of the last node may have changed. */
    twostate lemma {:induction false} Frame()
      requires old(Linked()) && SpineBst(s, sp, {}) && header !in SpineNodes(sp) && old(allocated(SpineNodes(sp)))
      requires sp.Link? ==> sp.n.Child(s.Other()) == old(sp.n.Child(s.Other()))
      requires sp.Link? ==> header.Child(s) == old(header.Child(s))
      requires forall n <- SpineNodes(sp) :: n == Last(sp, header) || unchanged(n)
      ensures Linked()
      decreases sp
    {
      if sp.Link? {
        SpineApart(s, sp.up, {} + {sp.n} + Nodes(sp.sub), sp.n);
        SpineMono(s, sp.up, {} + {sp.n} + Nodes(sp.sub), {});
        assert sp.up.Link? ==> sp.up.n in SpineNodes(sp.up);
        Chain(s, sp.up, header).Frame();
      }
    }

    /** Hanging `t` from the open pointer closes the chain into a tree. */
    lemma {:induction false} Closed(t: Tree)
      requires Linked() && TreeLinked(t) && Last(sp, header).Child(s) == Root(t)
      ensures TreeLinked(Close(s, sp, t)) && header.Child(s) == Root(Close(s, sp, t))
      decreases sp
    {
      if sp.Link? {
        LinkedMk(s, t, sp.n, sp.sub);
        Chain(s, sp.up, header).Closed(Mk(s, t, sp.n, sp.sub));
      }
    }
  }
}
