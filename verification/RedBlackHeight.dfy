/**
 The height of a red-black tree, which bounds what its operations do.
 */
module RedBlackHeight {
  import opened Bits
  import opened RedBlackShape

  function Max(a: nat, b: nat): nat { if a < b then b else a }

  function Height(t: Tree): nat {
    match t
    case Leaf => 0
    case Br(l, _, _, r) => 1 + Max(Height(l), Height(r))
  }

  /** A tree of black height `h` is at most `2h` high (one more under a red root) and holds at least `2^h - 1` nodes. */
  lemma {:induction false} BlackHeight(t: Tree, h: nat)
    requires RB(t, h) && Bst(t)
    ensures Height(t) <= 2 * h + (if RedTop(t) then 1 else 0)
    ensures Pow2(h) <= |Nodes(t)| + 1
  {
    if t.Br? {
      var g := if t.c.Black? then h - 1 else h;
      BlackHeight(t.left, g);
      BlackHeight(t.right, g);
      NodeCount(t);
    }
  }

  lemma NodeCount(t: Tree)
    requires Bst(t) && t.Br?
    ensures |Nodes(t)| == |Nodes(t.left)| + |Nodes(t.right)| + 1
  {
    assert t.n !in Nodes(t.left) && t.n !in Nodes(t.right);
    assert forall m | m in Nodes(t.left) :: m !in Nodes(t.right);
    Disjoint(Nodes(t.left), Nodes(t.right), t.n);
  }

  lemma Disjoint(a: set<Node>, b: set<Node>, n: Node)
    requires (forall m | m in a :: m !in b) && n !in a && n !in b
    ensures |a + b + {n}| == |a| + |b| + 1
  {
    assert a !! b;
    assert |a + b| == |a| + |b|;
  }

  /** For `count` nodes, at most twice the whole part of lg(count + 1) steps. */
  ghost predicate Few(steps: nat, count: nat) {
    exists h: nat :: steps <= 2 * h && Pow2(h) <= count + 1
  }

  lemma FewSteps(t: Tree, steps: nat)
    requires RedBlack(t) && Bst(t) && steps <= Height(t)
    ensures Few(steps, |Nodes(t)|)
  {
    var h: nat :| RB(t, h);
    BlackHeight(t, h);
  }

  /** The height is at most 2 lg(n + 1). */
  lemma HeightBound(t: Tree)
    requires RedBlack(t) && Bst(t)
    ensures Few(Height(t), |Nodes(t)|) && Pow2(Height(t)) <= (|Nodes(t)| + 1) * (|Nodes(t)| + 1)
  {
    FewSteps(t, Height(t));
    var n := |Nodes(t)| + 1;
    var h: nat :| Height(t) <= 2 * h && Pow2(h) <= n;
    DoubleHeight(Height(t), h, n);
  }

  lemma DoubleHeight(height: nat, h: nat, n: nat)
    requires height <= 2 * h && Pow2(h) <= n
    ensures Pow2(height) <= n * n
  {
    Pow2Mono(height, h + h);
    Pow2Add(h, h);
    Square(Pow2(h), n);
  }

  lemma Square(a: nat, b: nat)
    requires a <= b
    ensures a * a <= b * b
  {
    assert a * a <= a * b <= b * b;
  }

  /** How far below the root the hole of a context is. */
  function Depth(k: Ctx): nat {
    match k
    case Top => 0
    case Up(_, up, _, _, _) => 1 + Depth(up)
  }

  lemma {:induction false} DepthHeight(k: Ctx, t: Tree)
    ensures Depth(k) + Height(t) <= Height(Plug(k, t))
  {
    match k
    case Top =>
    case Up(s, up, n, c, sib) => DepthHeight(up, Mk(s, t, n, c, sib));
  }
}
