/**
 The macros that only read a red-black tree.
 */
module RedBlackQuery {
  import opened RedBlackShape
  import opened RedBlackHeight
  import opened RedBlackSplice
  import opened RedBlackTree

  // ---------- lookups ----------

  /** RB_FIND; `steps` counts the comparisons. */
  method Find(head: RBTree, elm: Node) returns (r: Node?, ghost steps: nat)
    requires head.Valid()
    ensures r != null ==> r in Nodes(head.tree) && r.key == elm.key
    ensures r == null ==> forall n <- Nodes(head.tree) :: n.key != elm.key
    ensures Few(steps, |Nodes(head.tree)|)
  {
    var tmp := head.root;
    ghost var t := head.tree;
    steps := 0;
    while tmp != null
      invariant tmp == Root(t) && Linked(t) && Bst(t) && Nodes(t) <= Nodes(head.tree)
      invariant forall n <- Nodes(head.tree) :: n.key == elm.key ==> n in Nodes(t)
      invariant steps + Height(t) <= Height(head.tree)
      decreases t
    {
      var comp := Cmp(elm, tmp);
      steps := steps + 1;
      if comp < 0 {
        tmp := tmp.left;
        t := t.left;
      } else if comp > 0 {
        tmp := tmp.right;
        t := t.right;
      } else {
        r := tmp;
        FewSteps(head.tree, steps);
        return;
      }
    }
    FewSteps(head.tree, steps);
    r := null;
  }

  /** `res` is the best candidate outside the subtree `t` still to be searched. */
  ghost predicate Candidate(all: set<Node>, t: Tree, res: Node?, elm: Node) {
    && Nodes(t) <= all
    && (res != null ==> res in all && elm.key <= res.key && Below(Nodes(t), res))
    && forall n <- all :: elm.key <= n.key ==> n in Nodes(t) || (res != null && res.key <= n.key)
  }

  lemma CandidateStep(all: set<Node>, t: Tree, res: Node?, elm: Node)
    requires Candidate(all, t, res, elm) && t.Br? && Bst(t)
    ensures elm.key < t.n.key ==> Candidate(all, t.left, t.n, elm)
    ensures t.n.key < elm.key ==> Candidate(all, t.right, res, elm)
    ensures t.n.key == elm.key ==> Candidate(all, Leaf, t.n, elm)
  {
    assert t.n in Nodes(t);
  }

  /** RB_NFIND: the least node not below the key searched for. */
  method NFind(head: RBTree, elm: Node) returns (r: Node?, ghost steps: nat)
    requires head.Valid()
    ensures r != null ==> r in Nodes(head.tree) && elm.key <= r.key
    ensures forall n <- Nodes(head.tree) :: elm.key <= n.key ==> r != null && r.key <= n.key
    ensures Few(steps, |Nodes(head.tree)|)
  {
    ghost var all := Nodes(head.tree);
    r, steps := NFindFrom(head.root, elm, head.tree, all);
    FewSteps(head.tree, steps);
  }

  method NFindFrom(root: Node?, elm: Node, ghost t0: Tree, ghost all: set<Node>) returns (r: Node?, ghost steps: nat)
    requires root == Root(t0) && Linked(t0) && Bst(t0) && Candidate(all, t0, null, elm)
    ensures Candidate(all, Leaf, r, elm) && steps <= Height(t0)
  {
    var tmp := root;
    var res: Node? := null;
    ghost var t := t0;
    steps := 0;
    while tmp != null
      invariant tmp == Root(t) && Linked(t) && Bst(t) && Candidate(all, t, res, elm)
      invariant steps + Height(t) <= Height(t0)
      decreases t
    {
      var comp := Cmp(elm, tmp);
      steps := steps + 1;
      CandidateStep(all, t, res, elm);
      if comp < 0 {
        res := tmp;
        tmp := tmp.left;
        t := t.left;
      } else if comp > 0 {
        tmp := tmp.right;
        t := t.right;
      } else {
        return tmp, steps;
      }
    }
    r := res;
  }

  // ---------- traversal ----------

  /** `a` comes before `b` when going towards side `s`. */
  predicate Before(s: Side, a: Node, b: Node) {
    if s.R? then a.key < b.key else b.key < a.key
  }

  /** `r` is the first node after `x` going towards side `s`, or null if there is none. */
  ghost predicate Adjacent(s: Side, t: Tree, x: Node, r: Node?) {
    if r == null then forall n <- Nodes(t) :: !Before(s, x, n)
    else r in Nodes(t) && Before(s, x, r) && forall n <- Nodes(t) :: Before(s, x, n) ==> n == r || Before(s, r, n)
  }

  /** RB_MINMAX: the outermost node on side `s`. */
  method MinMax(head: RBTree, val: int) returns (parent: Node?)
    requires head.Valid()
    ensures parent == null <==> Nodes(head.tree) == {}
    ensures parent != null ==> parent in Nodes(head.tree)
    ensures parent != null ==> forall n <- Nodes(head.tree) ::
      if val < 0 then parent.key <= n.key else n.key <= parent.key
    ensures head.Valid()
  {
    var tmp := head.root;
    parent := null;
    ghost var t := head.tree;
    while tmp != null
      invariant tmp == Root(t) && Linked(t) && Bst(t) && Nodes(t) <= Nodes(head.tree)
      invariant parent == null ==> t == head.tree
      invariant parent != null ==> parent in Nodes(head.tree)
      invariant parent != null ==> forall n <- Nodes(head.tree) ::
        n in Nodes(t) || (if val < 0 then parent.key <= n.key else n.key <= parent.key)
      invariant parent != null ==> forall n <- Nodes(t) :: if val < 0 then n.key < parent.key else parent.key < n.key
      decreases t
    {
      parent := tmp;
      if val < 0 {
        tmp := tmp.left;
        t := t.left;
      } else {
        tmp := tmp.right;
        t := t.right;
      }
    }
    assert head.tree.Br? ==> head.tree.n in Nodes(head.tree);
  }

  /** The innermost node of the subtree on side `s` of `x`. */
  method Inner(x: Node, s: Side, ghost k: Ctx, ghost t: Tree) returns (r: Node, ghost steps: nat)
    requires Around(k, t) && t.Br? && t.n == x && Near(s, t).Br?
    ensures Adjacent(s, Plug(k, t), x, r) && steps <= Height(t)
  {
    steps := 0;
    ghost var d, all := Near(s, t), Nodes(Near(s, t));
    assert Linked(d) && d.n in Nodes(d);
    r := x.Child(s);
    while r.Child(s.Other()) != null
      invariant d.Br? && r == d.n && Linked(d) && Bst(d) && Nodes(d) <= all && r in Nodes(d)
      invariant steps + Height(d) <= Height(t)
      invariant forall n <- all :: n in Nodes(d) || Before(s, r, n)
      decreases d
    {
      d := Near(s.Other(), d);
      r := r.Child(s.Other());
      steps := steps + 1;
    }
    InnerAdjacent(s, k, t, r);
  }

  lemma InnerAdjacent(s: Side, k: Ctx, t: Tree, r: Node)
    requires Bst(t) && CtxBst(k, Nodes(t)) && t.Br? && r in Nodes(Near(s, t))
    requires forall n <- Nodes(Near(s, t)) :: n == r || Before(s, r, n)
    ensures Adjacent(s, Plug(k, t), t.n, r)
  {
    PlugNodes(k, t);
    CtxSameSide(k, Nodes(t), t.n, r);
    CtxSameSide(k, Nodes(t), r, t.n);
  }

  /** The first ancestor of which `x` is not on side `s`. */
  method Outer(x: Node, s: Side, ghost k0: Ctx, ghost t0: Tree) returns (r: Node?, ghost steps: nat)
    requires Around(k0, t0) && t0.Br? && t0.n == x && Near(s, t0) == Leaf
    ensures Adjacent(s, Plug(k0, t0), x, r) && steps <= Depth(k0)
  {
    r, steps := x, 0;
    ghost var k, t := k0, t0;
    Kin(k, t);
    while r.parent != null && r == r.parent.Child(s)
      invariant Around(k, t) && Plug(k, t) == Plug(k0, t0) && t.Br? && t.n == r && x in Nodes(t)
      invariant r.parent == Above1(k) && (k.Up? ==> (r == r.parent.Child(s) <==> k.s == s))
      invariant forall n <- Nodes(t) :: !Before(s, x, n)
      invariant steps + Depth(k) == Depth(k0)
      decreases k
    {
      steps := steps + 1;
      ghost var up := Mk(k.s, t, k.n, k.c, k.sib);
      Refocus(k.up, k.s, t, k.n, k.c, k.sib);
      MkFacts(k.s, t, k.n, k.c, k.sib);
      r := r.parent;
      t, k := up, k.up;
      Kin(k, t);
    }
    OuterAdjacent(s, k, t, x);
    r := r.parent;
  }

  lemma OuterAdjacent(s: Side, k: Ctx, t: Tree, x: Node)
    requires Bst(t) && CtxBst(k, Nodes(t)) && x in Nodes(t) && forall n <- Nodes(t) :: !Before(s, x, n)
    requires k.Up? ==> k.s != s
    ensures Adjacent(s, Plug(k, t), x, Above1(k))
  {
    PlugNodes(k, t);
    if k.Up? {
      CtxSameSide(k.up, Nodes(t) + {k.n} + Nodes(k.sib), x, k.n);
    }
  }

  /** RB_NEXT for s == R, RB_PREV for s == L. */
  method Walk(head: RBTree, elm: Node, s: Side) returns (r: Node?, ghost steps: nat)
    requires head.Valid() && elm in Nodes(head.tree)
    ensures head.Valid()
    ensures Adjacent(s, head.tree, elm, r) && Few(steps, |Nodes(head.tree)|)
  {
    ghost var k, t := Locus(head.tree, Top, elm);
    UnplugLinked(k, t);
    PlugBst(k, t);
    assert allocated(Nodes(head.tree));
    DepthHeight(k, t);
    if elm.Child(s) != null {
      r, steps := Inner(elm, s, k, t);
    } else {
      r, steps := Outer(elm, s, k, t);
    }
    FewSteps(head.tree, steps);
  }

  /** RB_PREV undoes RB_NEXT and the other way round. */
  lemma AdjacentInverse(s: Side, t: Tree, x: Node, r: Node)
    requires x in Nodes(t) && Bst(t)
    requires Adjacent(s, t, x, r)
    ensures Adjacent(s.Other(), t, r, x)
  {
    forall n <- Nodes(t) | Before(s.Other(), r, n)
      ensures n == x || Before(s.Other(), x, n)
    {
      if n.key == x.key {
        KeyUnique(t, n, x);
      }
    }
  }

  lemma {:induction false} KeyUnique(t: Tree, a: Node, b: Node)
    requires Bst(t) && a in Nodes(t) && b in Nodes(t) && a.key == b.key
    ensures a == b
  {
    if a in Nodes(t.left) && b in Nodes(t.left) {
      KeyUnique(t.left, a, b);
    } else if a in Nodes(t.right) && b in Nodes(t.right) {
      KeyUnique(t.right, a, b);
    }
  }

  // ---------- RB_FOREACH ----------

  ghost function InOrder(t: Tree): seq<Node> {
    match t
    case Leaf => []
    case Br(l, n, _, r) => InOrder(l) + [n] + InOrder(r)
  }

  lemma {:induction false} InOrderNodes(t: Tree)
    ensures forall i | 0 <= i < |InOrder(t)| :: InOrder(t)[i] in Nodes(t)
    ensures forall n <- Nodes(t) :: n in InOrder(t)
  {
    if t.Br? {
      InOrderNodes(t.left);
      InOrderNodes(t.right);
    }
  }

  lemma {:induction false} InOrderSorted(t: Tree)
    requires Bst(t)
    ensures forall i, j :: 0 <= i < j < |InOrder(t)| ==> InOrder(t)[i].key < InOrder(t)[j].key
  {
    if t.Br? {
      InOrderSorted(t.left);
      InOrderSorted(t.right);
      InOrderNodes(t.left);
      InOrderNodes(t.right);
    }
  }

  /** The next node towards larger keys is the next one in order, and likewise backwards. */
  lemma AdjacentInOrder(t: Tree, i: nat, s: Side, r: Node?)
    requires Bst(t) && i < |InOrder(t)| && Adjacent(s, t, InOrder(t)[i], r)
    ensures s.R? ==> r == if i + 1 < |InOrder(t)| then InOrder(t)[i + 1] else null
    ensures s.L? ==> r == if i > 0 then InOrder(t)[i - 1] else null
  {
    InOrderNodes(t);
    InOrderSorted(t);
    var all := InOrder(t);
    assert i + 1 < |all| ==> all[i + 1] in Nodes(t);
    assert i > 0 ==> all[i - 1] in Nodes(t);
    assert r != null ==> r in all;
    Beside(all, i, s, r);
  }

  /** The first node of a rising list towards side `s` of the one at `i`. */
  lemma Beside(all: seq<Node>, i: nat, s: Side, r: Node?)
    requires i < |all| && forall a, b | 0 <= a < b < |all| :: all[a].key < all[b].key
    requires r == null && s.R? && i + 1 < |all| ==> !Before(s, all[i], all[i + 1])
    requires r == null && s.L? && i > 0 ==> !Before(s, all[i], all[i - 1])
    requires r != null ==> r in all && Before(s, all[i], r)
    requires r != null && s.R? && i + 1 < |all| ==> all[i + 1] == r || Before(s, r, all[i + 1])
    requires r != null && s.L? && i > 0 ==> all[i - 1] == r || Before(s, r, all[i - 1])
    ensures s.R? ==> r == if i + 1 < |all| then all[i + 1] else null
    ensures s.L? ==> r == if i > 0 then all[i - 1] else null
  {
    if r != null {
      var j :| 0 <= j < |all| && all[j] == r;
    }
  }

  /** From the node at `i` of the in-order list to the one beside it. */
  method WalkInOrder(head: RBTree, x: Node, s: Side, ghost i: nat) returns (y: Node?)
    requires head.Valid() && i < |InOrder(head.tree)| && x == InOrder(head.tree)[i]
    ensures head.Valid()
    ensures s.R? ==> y == if i + 1 < |InOrder(head.tree)| then InOrder(head.tree)[i + 1] else null
    ensures s.L? ==> y == if i > 0 then InOrder(head.tree)[i - 1] else null
  {
    InOrderNodes(head.tree);
    ghost var steps;
    y, steps := Walk(head, x, s);
    AdjacentInOrder(head.tree, i, s, y);
  }

  /** RB_FOREACH visits every node once, in increasing order. */
  method ForEach(head: RBTree) returns (visited: seq<Node>)
    requires head.Valid()
    ensures visited == InOrder(head.tree)
  {
    var x := MinMax(head, -1);
    ghost var all := InOrder(head.tree);
    Ends(head.tree, -1, x);
    visited := [];
    while x != null
      invariant head.Valid() && |visited| <= |all| && visited == all[..|visited|]
      invariant x == if |visited| < |all| then all[|visited|] else null
      decreases |all| - |visited|
    {
      var y := WalkInOrder(head, x, R, |visited|);
      visited := visited + [x];
      x := y;
    }
  }

  /** RB_FOREACH_REVERSE visits every node once, in decreasing order. */
  method ForEachReverse(head: RBTree) returns (visited: seq<Node>)
    requires head.Valid()
    ensures |visited| == |InOrder(head.tree)|
    ensures forall i :: 0 <= i < |visited| ==> visited[i] == InOrder(head.tree)[|visited| - 1 - i]
  {
    var x := MinMax(head, 1);
    ghost var all := InOrder(head.tree);
    Ends(head.tree, 1, x);
    visited := [];
    while x != null
      invariant head.Valid() && |visited| <= |all|
      invariant forall i :: 0 <= i < |visited| ==> visited[i] == all[|all| - 1 - i]
      invariant x == if |visited| < |all| then all[|all| - 1 - |visited|] else null
      decreases |all| - |visited|
    {
      var y := WalkInOrder(head, x, L, |all| - 1 - |visited|);
      visited := visited + [x];
      x := y;
    }
  }

  /** The outermost nodes are the ends of the order. */
  lemma Ends(t: Tree, val: int, x: Node?)
    requires Bst(t) && (x == null <==> Nodes(t) == {})
    requires x != null ==> x in Nodes(t) && forall n <- Nodes(t) :: if val < 0 then x.key <= n.key else n.key <= x.key
    ensures x == null <==> InOrder(t) == []
    ensures x != null ==> x == InOrder(t)[if val < 0 then 0 else |InOrder(t)| - 1]
  {
    InOrderNodes(t);
    InOrderSorted(t);
    var all := InOrder(t);
    if x != null {
      assert all[0] in Nodes(t) && all[|all| - 1] in Nodes(t);
    }
  }
}
