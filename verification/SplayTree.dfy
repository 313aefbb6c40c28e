/**
 The splay tree macros.  The two halves of each loop, for the left and the right side,
 are written once with the side as a parameter.
 */
module SplayTree {
  import opened SplayShape

  /** A tree in the middle of a splay: `t` is still to be split, the chains hang from `header`. */
  datatype Cut = Cut(s: Side, t: Tree, sp: Spine, osp: Spine, header: Node) {
    /** The same cut, seen from the other side. */
    function Flip(): Cut { Cut(s.Other(), t, osp, sp, header) }

    ghost function All(): set<Node> { Nodes(t) + SpineNodes(sp) + SpineNodes(osp) }

    ghost predicate Ordered() {
      && t.Br? && Bst(t) && header !in All()
      && SpineBst(s, sp, Nodes(t)) && SpineBst(s.Other(), osp, Nodes(t))
    }

    ghost predicate Linked()
      reads header, All()
    {
      && TreeLinked(t) && Chain(s, sp, header).Linked() && Chain(s.Other(), osp, header).Linked()
    }

    /** The cut after the root, with its subtree `far`, joined the chain of side `s`. */
    ghost function Pushed(near: Tree, x: Node, far: Tree): Cut {
      Cut(s, near, Link(sp, x, far), osp, header)
    }

    lemma Push(near: Tree, x: Node, far: Tree)
      requires Ordered() && t == Mk(s, near, x, far) && near.Br?
      ensures Pushed(near, x, far).Ordered() && Pushed(near, x, far).All() == All()
      ensures x in Nodes(t) && Nodes(near) + Nodes(far) <= Nodes(t) && x !in Nodes(near) + Nodes(far)
    {
      MkFacts(s, near, x, far);
      SpineMono(s.Other(), osp, Nodes(t), Nodes(near));
      assert Nodes(near) + {x} + Nodes(far) == Nodes(t);
    }

    /** The last node of the chain is not in the tree, nor in the other chain. */
    lemma Separate(near: Tree, x: Node, far: Tree)
      requires Ordered() && Linked() && t == Mk(s, near, x, far)
      ensures var last := Last(sp, header);
        x != last && last !in Nodes(near) && last !in Nodes(far) && last !in SpineNodes(osp)
      ensures x !in SpineNodes(sp) && x !in SpineNodes(osp) && Last(sp, header) in {header} + SpineNodes(sp)
      ensures x.Child(s) == Root(near) && x.Child(s.Other()) == Root(far) && TreeLinked(near) && TreeLinked(far)
    {
      Apart();
      MkFacts(s, near, x, far);
      LinkedMk(s, near, x, far);
    }

    lemma Child()
      requires Ordered() && Linked()
      ensures t == Mk(s, Near(s, t), t.n, Near(s.Other(), t)) && t.n.Child(s) == Root(Near(s, t))
      ensures t.n in Nodes(t) && (Near(s, t).Br? ==> Near(s, t).n in Nodes(t))
      ensures Near(s, t).Br? ==> Near(s, t) == Mk(s, Near(s, Near(s, t)), Near(s, t).n, Near(s.Other(), Near(s, t)))
    {
    }

    /** Closing the chain of side `s` with the root's other subtree. */
    twostate lemma CloseSide()
      requires old(Linked()) && Ordered() && old(allocated(SpineNodes(sp))) && old(allocated(Nodes(t)))
      requires sp.Link? ==> sp.n.Child(s.Other()) == old(sp.n.Child(s.Other()))
      requires sp.Link? ==> header.Child(s) == old(header.Child(s))
      requires forall n <- SpineNodes(sp) :: n == Last(sp, header) || unchanged(n)
      requires forall n <- Nodes(t) :: n == t.n || unchanged(n)
      requires Last(sp, header).Child(s) == Root(Near(s.Other(), t))
      ensures TreeLinked(Close(s, sp, Near(s.Other(), t)))
      ensures header.Child(s) == Root(Close(s, sp, Near(s.Other(), t)))
    {
      Apart();
      Chain(s, sp, header).Frame();
      TreeFrame(Near(s.Other(), t));
      Chain(s, sp, header).Closed(Near(s.Other(), t));
    }

    lemma FlipSame()
      requires Ordered() && Linked()
      ensures Flip().Ordered() && Flip().Linked()
    {
      assert Flip().All() == All();
    }

    lemma WholeSplayed(key: int)
      requires s.L? && t.Br? && Above(key, SpineNodes(sp)) && Below(SpineNodes(osp), key)
      requires key < t.n.key ==> t.left == Leaf
      requires t.n.key < key ==> t.right == Leaf
      ensures Splayed(Whole(), key)
    {
      CloseNodes(R, osp, t.left);
      CloseNodes(L, sp, t.right);
    }

    /** The tree the cut is put together to. */
    ghost function Whole(): Tree
      requires t.Br?
    {
      Br(Close(R, osp, t.left), t.n, Close(L, sp, t.right))
    }

    lemma WholeBst()
      requires s.L? && Ordered()
      ensures Bst(Whole()) && Nodes(Whole()) == All()
    {
      SpineApart(L, sp, Nodes(t), t.n);
      SpineApart(R, osp, Nodes(t), t.n);
      SpineMono(L, sp, Nodes(t), Nodes(t.right));
      SpineMono(R, osp, Nodes(t), Nodes(t.left));
      CloseBst(R, osp, t.left);
      CloseBst(L, sp, t.right);
      CloseNodes(R, osp, t.left);
      CloseNodes(L, sp, t.right);
    }

    lemma Ends()
      requires s.L? && Ordered() && Linked()
      ensures t.n.left == Root(t.left) && t.n.right == Root(t.right) && TreeLinked(t.left) && TreeLinked(t.right)
      ensures Last(osp, header) in All() + {header} && Last(sp, header) in All() + {header} && t.n in All()
      ensures t.n != Last(osp, header) && t.n != Last(sp, header) && t.n != header
      ensures Last(osp, header) != Last(sp, header) || Last(osp, header) == header
      ensures Last(osp, header) !in SpineNodes(sp) && Last(sp, header) !in SpineNodes(osp)
      ensures Last(osp, header) !in Nodes(t) && Last(sp, header) !in Nodes(t) && header !in Nodes(t)
      ensures t.n !in Nodes(t.left) && t.n !in Nodes(t.right) && t.n !in SpineNodes(sp) && t.n !in SpineNodes(osp)
      ensures Nodes(t.left) <= Nodes(t) && Nodes(t.right) <= Nodes(t)
    {
      Apart();
    }

    /** The cut after a rotation at the root. */
    ghost function Turned(a: Tree, y: Node, b: Tree, x: Node, c: Tree): Cut {
      Cut(s, Mk(s, a, y, Mk(s.Other(), c, x, b)), sp, osp, header)
    }

    lemma Turn(a: Tree, y: Node, b: Tree, x: Node, c: Tree)
      requires Ordered() && t == Mk(s, Mk(s, a, y, b), x, c)
      ensures Turned(a, y, b, x, c).Ordered() && Turned(a, y, b, x, c).All() == All()
      ensures Size(Turned(a, y, b, x, c).t) == Size(t)
    {
      RotateOrdered(s, a, y, b, x, c);
    }

    /** The links of the tree and of its two topmost nodes. */
    lemma Unfold(a: Tree, y: Node, b: Tree, x: Node, c: Tree)
      requires Ordered() && Linked() && t == Mk(s, Mk(s, a, y, b), x, c)
      ensures x.Child(s) == y && x.Child(s.Other()) == Root(c) && y.Child(s) == Root(a) && y.Child(s.Other()) == Root(b)
      ensures TreeLinked(a) && TreeLinked(b) && TreeLinked(c) && {x, y} <= Nodes(t)
      ensures x != y && x !in Nodes(a) && x !in Nodes(b) && x !in Nodes(c) && y !in Nodes(a) && y !in Nodes(b)
      ensures y !in Nodes(c)
    {
      RotateOrdered(s, a, y, b, x, c);
      LinkedMk(s, Mk(s, a, y, b), x, c);
      LinkedMk(s, a, y, b);
    }

    lemma Fold(a: Tree, y: Node, b: Tree, x: Node, c: Tree)
      requires y.Child(s) == Root(a) && y.Child(s.Other()) == x && x.Child(s.Other()) == Root(c)
      requires x.Child(s) == Root(b)
      requires TreeLinked(a) && TreeLinked(b) && TreeLinked(c)
      ensures TreeLinked(Turned(a, y, b, x, c).t)
    {
      LinkedMk(s.Other(), c, x, b);
      LinkedMk(s, a, y, Mk(s.Other(), c, x, b));
    }

    /** Both chains stay linked when at most the open pointer on side `s` changes. */
    twostate lemma ChainsFrame()
      requires old(Chain(s, sp, header).Linked() && Chain(s.Other(), osp, header).Linked()) && Ordered()
      requires old(allocated(SpineNodes(sp))) && old(allocated(SpineNodes(osp)))
      requires forall n <- SpineNodes(sp) :: n == Last(sp, header) || unchanged(n)
      requires forall n <- SpineNodes(osp) :: unchanged(n)
      requires Last(sp, header).Child(s.Other()) == old(Last(sp, header).Child(s.Other()))
      requires sp.Link? ==> unchanged(header)
      ensures Chain(s, sp, header).Linked() && Chain(s.Other(), osp, header).Linked()
    {
      Apart();
      Chain(s, sp, header).Frame();
      Chain(s.Other(), osp, header).Frame();
    }

    /** The two chains and the tree have no node in common. */
    lemma Apart()
      requires Ordered()
      ensures Nodes(t) !! SpineNodes(sp) && Nodes(t) !! SpineNodes(osp) && SpineNodes(sp) !! SpineNodes(osp)
      ensures SpineBst(s, sp, {}) && SpineBst(s.Other(), osp, {})
      ensures t.n in Nodes(t) && (sp.Link? ==> sp.n in SpineNodes(sp)) && (osp.Link? ==> osp.n in SpineNodes(osp))
    {
      forall x <- Nodes(t) ensures x !in SpineNodes(sp) && x !in SpineNodes(osp) {
        SpineApart(s, sp, Nodes(t), x);
        SpineApart(s.Other(), osp, Nodes(t), x);
      }
      SpineApart(s, sp, Nodes(t), t.n);
      SpineApart(s.Other(), osp, Nodes(t), t.n);
      SpineMono(s, sp, Nodes(t), {});
      SpineMono(s.Other(), osp, Nodes(t), {});
    }
  }

  class SplayTree {
    var root: Node?
    ghost var tree: Tree

    ghost predicate Valid()
      reads this, Nodes(tree)
    {
      root == Root(tree) && TreeLinked(tree) && Bst(tree)
    }

    /** SPLAY_INIT */
    constructor ()
      ensures Valid() && tree == Leaf
    {
      root := null;
      tree := Leaf;
    }

    /** SPLAY_ROTATE_RIGHT for s == L, SPLAY_ROTATE_LEFT for s == R. */
    method Rotate(tmp: Node, s: Side, ghost a: Tree, ghost b: Tree, ghost c: Tree, ghost x: Node)
      requires root == x && x.Child(s) == tmp && x.Child(s.Other()) == Root(c) && x != tmp
      requires tmp.Child(s) == Root(a) && tmp.Child(s.Other()) == Root(b) && TreeLinked(a) && TreeLinked(b)
      requires TreeLinked(c)
      requires x !in Nodes(a) && x !in Nodes(b) && x !in Nodes(c) && tmp !in Nodes(a) && tmp !in Nodes(b)
      requires tmp !in Nodes(c)
      modifies this`root, tmp, x
      ensures root == tmp && tmp.Child(s) == Root(a) && tmp.Child(s.Other()) == x
      ensures x.Child(s.Other()) == Root(c) && x.Child(s) == Root(b) && TreeLinked(a) && TreeLinked(b) && TreeLinked(c)
    {
      if s.L? {
        root.left := tmp.right;
        tmp.right := root;
      } else {
        root.right := tmp.left;
        tmp.left := root;
      }
      root := tmp;
    }

    /** The rotation on the tree still to be split. */
    method RotateRoot(tmp: Node, s: Side, ghost cut: Cut, ghost a: Tree, ghost b: Tree, ghost c: Tree, ghost x: Node)
      requires cut.s == s && cut.t == Mk(s, Mk(s, a, tmp, b), x, c) && root == x
      requires cut.Ordered() && cut.Linked()
      modifies this`root, tmp, x
      ensures cut.Turned(a, tmp, b, x, c).Linked() && root == tmp
    {
      cut.Apart();
      cut.Unfold(a, tmp, b, x, c);
      RotateAt(tmp, s, cut, a, b, c, x);
      cut.Fold(a, tmp, b, x, c);
    }

    /** The rotation leaves the chains alone. */
    method RotateAt(tmp: Node, s: Side, ghost cut: Cut, ghost a: Tree, ghost b: Tree, ghost c: Tree, ghost x: Node)
      requires root == x && x.Child(s) == tmp && x.Child(s.Other()) == Root(c) && x != tmp
      requires tmp.Child(s) == Root(a) && tmp.Child(s.Other()) == Root(b)
      requires TreeLinked(a) && TreeLinked(b) && TreeLinked(c) && x !in Nodes(a) && x !in Nodes(b) && x !in Nodes(c)
      requires tmp !in Nodes(a) && tmp !in Nodes(b) && tmp !in Nodes(c)
      requires cut.Ordered() && cut.header !in {x, tmp}
      requires {x, tmp} !! SpineNodes(cut.sp) && {x, tmp} !! SpineNodes(cut.osp)
      requires Chain(cut.s, cut.sp, cut.header).Linked() && Chain(cut.s.Other(), cut.osp, cut.header).Linked()
      modifies this`root, tmp, x
      ensures root == tmp && tmp.Child(s) == Root(a) && tmp.Child(s.Other()) == x
      ensures x.Child(s.Other()) == Root(c) && x.Child(s) == Root(b) && TreeLinked(a) && TreeLinked(b) && TreeLinked(c)
      ensures Chain(cut.s, cut.sp, cut.header).Linked() && Chain(cut.s.Other(), cut.osp, cut.header).Linked()
    {
      cut.Apart();
      Rotate(tmp, s, a, b, c, x);
      cut.ChainsFrame();
    }

    /** SPLAY_LINKLEFT for s == L, SPLAY_LINKRIGHT for s == R. */
    method Link(last: Node, s: Side) returns (last': Node)
      requires root != null && root != last
      modifies this`root, last
      ensures last' == old(root) && root == old(root.Child(s))
      ensures last.Child(s) == old(root) && last.Child(s.Other()) == old(last.Child(s.Other()))
    {
      if s.L? {
        last.left := root;
        last' := root;
        root := root.left;
      } else {
        last.right := root;
        last' := root;
        root := root.right;
      }
    }

    /** The root, with its subtree `far`, joins the chain ending in `last`. */
    method LinkRoot(last: Node, s: Side, ghost cut: Cut, ghost near: Tree, ghost x: Node,
        ghost far: Tree) returns (last': Node)
      requires cut.s == s && cut.t == Mk(s, near, x, far) && near.Br? && root == x
      requires cut.Ordered() && cut.Linked() && last == Last(cut.sp, cut.header)
      modifies this`root, last
      ensures cut.Pushed(near, x, far).Linked() && last' == x && root == Root(near)
    {
      cut.Separate(near, x, far);
      last' := LinkAt(last, s, cut, near, x, far);
    }

    /** The links, from what they rest on. */
    method LinkAt(last: Node, s: Side, ghost cut: Cut, ghost near: Tree, ghost x: Node, ghost far: Tree)
      returns (last': Node)
      requires cut.s == s && cut.Ordered() && cut.t == Mk(s, near, x, far) && root == x
      requires last == Last(cut.sp, cut.header)
      requires x != last && last !in Nodes(near) && last !in Nodes(far) && last !in SpineNodes(cut.osp)
      requires x !in SpineNodes(cut.sp) && x !in SpineNodes(cut.osp) && last in {cut.header} + SpineNodes(cut.sp)
      requires x.Child(s) == Root(near) && x.Child(s.Other()) == Root(far) && TreeLinked(near) && TreeLinked(far)
      requires Chain(s, cut.sp, cut.header).Linked() && Chain(s.Other(), cut.osp, cut.header).Linked()
      modifies this`root, last
      ensures last' == x && root == Root(near) && TreeLinked(near)
      ensures Chain(s, cut.Pushed(near, x, far).sp, cut.header).Linked()
      ensures Chain(s.Other(), cut.osp, cut.header).Linked()
    {
      last' := Link(last, s);
      cut.ChainsFrame();
      TreeFrame(near);
      TreeFrame(far);
    }

    /** One round of a splay towards side `s`, where `tmp` is the root's child on that side.
        `rotate` is the test that the target lies beyond `tmp`; `stop` is the break. */
    method Toward(s: Side, tmp: Node, rotate: bool, last: Node, ghost cut: Cut, ghost key: int)
      returns (stop: bool, last': Node, ghost cut': Cut)
      requires cut.s == s && cut.Ordered() && cut.Linked() && last == Last(cut.sp, cut.header)
      requires root == cut.t.n && cut.t.n.Child(s) == tmp
      modifies this`root, cut.All(), cut.header
      ensures cut'.s == s && cut'.osp == cut.osp && cut'.header == cut.header && cut'.All() == cut.All()
      ensures cut'.Ordered() && cut'.Linked() && last' == Last(cut'.sp, cut'.header) && root == cut'.t.n
      ensures if stop then cut'.sp == cut.sp && Near(s, cut'.t) == Leaf else Size(cut'.t) < Size(cut.t)
      ensures Beyond(s, key, cut.t.n) && (rotate ==> Beyond(s, key, tmp)) && On(s.Other(), SpineNodes(cut.sp), key) ==>
        On(s.Other(), SpineNodes(cut'.sp), key) && (stop ==> Beyond(s, key, cut'.t.n))
    {
      ghost var x, near, far := cut.t.n, Near(s, cut.t), Near(s.Other(), cut.t);
      cut' := cut;
      cut.Child();
      if rotate {
        ghost var a, b := Near(s, near), Near(s.Other(), near);
        RotateRoot(tmp, s, cut, a, b, far, x);
        cut.Turn(a, tmp, b, x, far);
        cut' := cut.Turned(a, tmp, b, x, far);
        cut'.Child();
        if root.Child(s) == null {
          return true, last, cut';
        }
        x, near, far := tmp, a, Mk(s.Other(), far, x, b);
      }
      MkFacts(s, near, x, far);
      last' := LinkRoot(last, s, cut', near, x, far);
      cut'.Push(near, x, far);
      cut' := cut'.Pushed(near, x, far);
      stop := false;
    }

    /** The four assignments of SPLAY_ASSEMBLE. */
    method Assemble(node: Node, left: Node, right: Node)
      requires root != null && root != left && root != right && root != node
      requires left != right || left == node
      modifies root, node, left, right
      ensures left.right == old(root.left) && right.left == old(root.right)
      ensures root.left == node.right && root.right == node.left
      ensures left != node ==> left.left == old(left.left) && node.right == old(node.right)
      ensures right != node ==> right.right == old(right.right) && node.left == old(node.left)
    {
      left.right := root.left;
      right.left := root.right;
      root.left := node.right;
      root.right := node.left;
    }

    /** SPLAY_ASSEMBLE on linked chains. */
    method AssembleLinked(node: Node, left: Node, right: Node, ghost cut: Cut)
      requires cut.s.L? && cut.header == node && cut.Ordered() && cut.Linked() && root == cut.t.n
      requires left == Last(cut.osp, node) && right == Last(cut.sp, node)
      modifies root, node, left, right
      ensures TreeLinked(cut.Whole())
    {
      cut.Ends();
      cut.FlipSame();
      Assemble(node, left, right);
      cut.CloseSide();
      cut.Flip().CloseSide();
    }

    /** SPLAY_ASSEMBLE: both chains become the subtrees of the root. */
    method Reassemble(node: Node, left: Node, right: Node, ghost cut: Cut)
      requires cut.s.L? && cut.header == node && cut.Ordered() && cut.Linked() && root == cut.t.n
      requires left == Last(cut.osp, node) && right == Last(cut.sp, node)
      modifies this`tree, cut.All(), node
      ensures Valid() && tree == cut.Whole() && Nodes(tree) == cut.All()
    {
      cut.Ends();
      AssembleLinked(node, left, right, cut);
      cut.WholeBst();
      tree := cut.Whole();
    }

    /** The loop of SPLAY: what it has split off, and the pointers to the ends of the two chains. */
    ghost predicate Splaying(cut: Cut, node: Node, left: Node, right: Node, key: int)
      reads this, cut.header, cut.All()
    {
      && cut.s.L? && cut.header == node && cut.Ordered() && cut.Linked() && root == cut.t.n
      && left == Last(cut.osp, node) && right == Last(cut.sp, node)
      && Above(key, SpineNodes(cut.sp)) && Below(SpineNodes(cut.osp), key)
    }

    /** One round of SPLAY when the key lies on side `s` of the root. */
    method SplayRound(elm: Node, s: Side, node: Node, left0: Node, right0: Node, ghost cut0: Cut)
      returns (stop: bool, left: Node, right: Node, ghost cut: Cut)
      requires Splaying(cut0, node, left0, right0, elm.key) && Beyond(s, elm.key, cut0.t.n)
      modifies this`root, cut0.All(), node
      ensures Splaying(cut, node, left, right, elm.key) && cut.All() == cut0.All()
      ensures if stop then Near(s, cut.t) == Leaf && Beyond(s, elm.key, cut.t.n) else Size(cut.t) < Size(cut0.t)
    {
      left, right, cut := left0, right0, cut0;
      if s.L? {
        cut.Child();
        var tmp := root.left;
        if tmp == null {
          return true, left, right, cut;
        }
        stop, right, cut := Toward(L, tmp, Cmp(elm, tmp) < 0, right, cut, elm.key);
      } else {
        cut.FlipSame();
        cut := cut.Flip();
        cut.Child();
        var tmp := root.right;
        if tmp == null {
          return true, left, right, cut.Flip();
        }
        stop, left, cut := Toward(R, tmp, Cmp(elm, tmp) > 0, left, cut, elm.key);
        cut.FlipSame();
        cut := cut.Flip();
      }
    }

    /** SPLAY: the node with the key of `elm`, or a neighbour of the key, becomes the root. */
    method Splay(elm: Node)
      requires Valid() && root != null
      modifies this, Nodes(tree)
      ensures Valid() && Nodes(tree) == old(Nodes(tree)) && Splayed(tree, elm.key)
      ensures InOrder(tree) == old(InOrder(tree))
    {
      assert allocated(Nodes(tree));
      var node := new Node(0);
      var left, right := node, node;
      ghost var cut := Cut(L, tree, Header, Header, node);
      ghost var before, all := tree, Nodes(tree);
      var comp := Cmp(elm, root);
      while comp != 0
        invariant Splaying(cut, node, left, right, elm.key) && cut.All() == all
        invariant comp == Cmp(elm, root)
        decreases Size(cut.t)
      {
        var stop;
        stop, left, right, cut := SplayRound(elm, if comp < 0 then L else R, node, left, right, cut);
        if stop {
          break;
        }
        comp := Cmp(elm, root);
      }
      Reassemble(node, left, right, cut);
      cut.WholeSplayed(elm.key);
      InOrderUnique(before, tree);
    }

    /** SPLAY_FIND */
    method Find(elm: Node) returns (r: Node?)
      requires Valid()
      modifies this, Nodes(tree)
      ensures Valid() && Nodes(tree) == old(Nodes(tree))
      ensures r != null ==> r in Nodes(tree) && r.key == elm.key && root == r
      ensures r == null ==> forall m <- Nodes(tree) :: m.key != elm.key
    {
      if root == null {
        return null;
      }
      Splay(elm);
      SplayedNearest(tree, elm.key);
      if Cmp(elm, root) == 0 {
        return root;
      }
      return null;
    }

    method InsertLinks(elm: Node, s: Side)
      requires root != null && elm != root
      modifies this`root, elm, root
      ensures root == elm && elm.Child(s) == old(root.Child(s)) && elm.Child(s.Other()) == old(root)
      ensures old(root).Child(s) == null && old(root).Child(s.Other()) == old(root.Child(s.Other()))
    {
      if s.L? {
        elm.left := root.left;
        elm.right := root;
        root.left := null;
      } else {
        elm.right := root.right;
        elm.left := root;
        root.right := null;
      }
      root := elm;
    }

    /** The new root `elm` takes the tree apart at the key of `elm`. */
    method InsertRoot(elm: Node, s: Side)
      requires Valid() && root != null && elm !in Nodes(tree) && Splayed(tree, elm.key) && Beyond(s, elm.key, root)
      modifies this, elm, root
      ensures Valid() && Nodes(tree) == old(Nodes(tree)) + {elm}
    {
      InsertedShape(tree, elm, s);
      ghost var t, t' := tree, Inserted(tree, elm, s);
      assert allocated(Nodes(t.left)) && allocated(Nodes(t.right));
      InsertLinks(elm, s);
      assert TreeLinked(t.left) && TreeLinked(t.right);
      assert TreeLinked(if s.L? then Br(Leaf, t.n, t.right) else Br(t.left, t.n, Leaf));
      tree := t';
    }

    /** SPLAY_INSERT: adds `elm`, or returns the node that already has its key. */
    method Insert(elm: Node) returns (r: Node?)
      requires Valid()
      modifies this, Nodes(tree), elm
      ensures Valid()
      ensures r == null ==> Nodes(tree) == old(Nodes(tree)) + {elm}
      ensures r == null ==> forall m <- old(Nodes(tree)) :: m.key != elm.key
      ensures r != null ==> Nodes(tree) == old(Nodes(tree)) && r in Nodes(tree) && r.key == elm.key
    {
      if root == null {
        elm.left, elm.right := null, null;
        root := elm;
        tree := Br(Leaf, elm, Leaf);
      } else {
        Splay(elm);
        SplayedNearest(tree, elm.key);
        assert tree.n in Nodes(tree);
        var comp := Cmp(elm, root);
        if comp < 0 {
          InsertRoot(elm, L);
        } else if comp > 0 {
          InsertRoot(elm, R);
        } else {
          return root;
        }
      }
      return null;
    }

    /** The root is dropped: its left subtree, splayed to its maximum, takes the right one. */
    method RemoveRoot(elm: Node)
      requires Valid() && root != null && root.key == elm.key
      modifies this, Nodes(tree)
      ensures Valid() && Nodes(tree) == old(Nodes(tree)) - {old(root)}
    {
      ghost var l, x, r := tree.left, tree.n, tree.right;
      if root.left == null {
        root := root.right;
        tree := r;
      } else {
        var tmp := root.right;
        root := root.left;
        tree := l;
        assert allocated(Nodes(r)) && allocated(Nodes(l));
        label before:
        Splay(elm);
        TreeFrame@before(r);
        Rejoin(tmp, r, elm.key);
      }
    }

    /** The maximum of the left subtree has no right child, so the right subtree can hang there. */
    method Rejoin(tmp: Node?, ghost r: Tree, ghost key: int)
      requires Valid() && Splayed(tree, key) && Below(Nodes(tree), key)
      requires TreeLinked(r) && Bst(r) && tmp == Root(r) && Above(key, Nodes(r))
      modifies this`tree, root
      ensures Valid() && Nodes(tree) == old(Nodes(tree)) + Nodes(r)
    {
      assert tree.n in Nodes(tree);
      assert Nodes(tree.right) == {};
      NonEmpty(tree.right);
      root.right := tmp;
      tree := Br(tree.left, tree.n, r);
    }

    /** SPLAY_REMOVE: takes the node with the key of `elm` out, if there is one. */
    method Remove(elm: Node) returns (r: Node?, ghost gone: Node)
      requires Valid()
      modifies this, Nodes(tree)
      ensures Valid()
      ensures r != null ==> r == elm && gone in old(Nodes(tree)) && gone.key == elm.key
      ensures r != null ==> Nodes(tree) == old(Nodes(tree)) - {gone}
      ensures r == null ==> Nodes(tree) == old(Nodes(tree)) && forall m <- Nodes(tree) :: m.key != elm.key
    {
      gone := elm;
      if root == null {
        return null, gone;
      }
      Splay(elm);
      SplayedNearest(tree, elm.key);
      assert tree.n in Nodes(tree);
      if Cmp(elm, root) == 0 {
        gone := root;
        RemoveRoot(elm);
        return elm, gone;
      }
      return null, gone;
    }

    /** The loop of SPLAY_MINMAX towards side `s`: nothing was split off on the other side. */
    ghost predicate Outermost(s: Side, cut: Cut, node: Node, left: Node, right: Node)
      reads this, cut.header, cut.All()
    {
      && cut.s == s && cut.header == node && cut.Ordered() && cut.Linked() && root == cut.t.n && cut.osp == Header
      && (if s.L? then left == node && right == Last(cut.sp, node) else right == node && left == Last(cut.sp, node))
    }

    /** One round of SPLAY_MINMAX. */
    method MinMaxRound(s: Side, node: Node, left0: Node, right0: Node, ghost cut0: Cut)
      returns (stop: bool, left: Node, right: Node, ghost cut: Cut)
      requires Outermost(s, cut0, node, left0, right0)
      modifies this`root, cut0.All(), node
      ensures Outermost(s, cut, node, left, right) && cut.All() == cut0.All()
      ensures if stop then Near(s, cut.t) == Leaf else Size(cut.t) < Size(cut0.t)
    {
      left, right, cut := left0, right0, cut0;
      cut.Child();
      var tmp := root.Child(s);
      if tmp == null {
        return true, left, right, cut;
      }
      var last;
      stop, last, cut := Toward(s, tmp, true, if s.L? then right else left, cut, 0);
      if s.L? {
        right := last;
      } else {
        left := last;
      }
    }

    /** SPLAY_MINMAX: the outermost node on side `s` becomes the root. */
    method MinMax(s: Side)
      requires Valid() && root != null
      modifies this, Nodes(tree)
      ensures Valid() && Nodes(tree) == old(Nodes(tree)) && tree.Br? && Near(s, tree) == Leaf
    {
      assert allocated(Nodes(tree));
      var node := new Node(0);
      var left, right := node, node;
      ghost var cut := Cut(s, tree, Header, Header, node);
      ghost var all := Nodes(tree);
      while true
        invariant Outermost(s, cut, node, left, right) && cut.All() == all
        decreases Size(cut.t)
      {
        var stop;
        stop, left, right, cut := MinMaxRound(s, node, left, right, cut);
        if stop {
          break;
        }
      }
      if s.R? {
        cut.FlipSame();
        cut := cut.Flip();
      }
      Reassemble(node, left, right, cut);
    }

    /** SPLAY_MIN and SPLAY_MAX */
    method MinOrMax(s: Side) returns (r: Node?)
      requires Valid()
      modifies this, Nodes(tree)
      ensures Valid() && Nodes(tree) == old(Nodes(tree))
      ensures r == null <==> Nodes(tree) == {}
      ensures r != null ==> r in Nodes(tree) && forall m <- Nodes(tree) :: m == r || Beyond(s, r.key, m)
    {
      if root == null {
        return null;
      }
      MinMax(s);
      assert tree.n in Nodes(tree);
      r := root;
    }

    /** SPLAY_NEXT: the node after `elm`. */
    method Next(elm: Node) returns (r: Node?)
      requires Valid() && elm in Nodes(tree)
      modifies this, Nodes(tree)
      ensures Valid() && Nodes(tree) == old(Nodes(tree))
      ensures r == null ==> forall m <- Nodes(tree) :: m.key <= elm.key
      ensures r != null ==> r in Nodes(tree) && elm.key < r.key && forall m <- Nodes(tree) ::
        elm.key < m.key ==> r.key <= m.key
    {
      Splay(elm);
      SplayedNearest(tree, elm.key);
      assert tree.n in Nodes(tree);
      KeyUnique(tree, elm, tree.n);
      assert tree.right.Br? ==> tree.right.n in Nodes(tree.right);
      r := elm;
      if r.right != null {
        r := r.right;
        ghost var t := tree.right;
        while r.left != null
          invariant Valid() && t.Br? && r == t.n && TreeLinked(t) && Bst(t) && r in Nodes(t)
          invariant Nodes(t) <= Nodes(tree.right)
          invariant forall m <- Nodes(tree.right) :: m in Nodes(t) || r.key < m.key
          decreases t
        {
          t := t.left;
          r := r.left;
        }
      } else {
        r := null;
      }
    }

    /** SPLAY_FOREACH visits every node once, in increasing order. */
    method ForEach() returns (visited: seq<Node>)
      requires Valid()
      modifies this, Nodes(tree)
      ensures Valid() && Nodes(tree) == old(Nodes(tree))
      ensures visited == old(InOrder(tree))
    {
      ghost var t, order := tree, InOrder(tree);
      var x := MinOrMax(L);
      visited := [];
      FirstInOrder(t, x);
      assert order[..0] == [];
      while x != null
        invariant Valid() && Nodes(tree) == Nodes(t)
        invariant |visited| <= |order| && visited == order[..|visited|]
        invariant x == if |visited| < |order| then order[|visited|] else null
        decreases |order| - |visited|
      {
        var y := After(x, t, order, |visited|);
        OneMore(order, |visited|);
        visited := visited + [x];
        x := y;
      }
      assert order[..|order|] == order;
    }

    /** The node after the one at place `i` of the order. */
    method After(x: Node, ghost t: Tree, ghost order: seq<Node>, ghost i: nat) returns (y: Node?)
      requires Valid() && Bst(t) && Nodes(tree) == Nodes(t) && order == InOrder(t) && i < |order| && x == order[i]
      modifies this, Nodes(tree)
      ensures Valid() && Nodes(tree) == Nodes(t)
      ensures y == if i + 1 < |order| then order[i + 1] else null
    {
      InOrderSorted(t);
      y := Next(x);
      NextInOrder(t, i, y);
    }
  }

  lemma OneMore(s: seq<Node>, i: nat)
    requires i < |s|
    ensures s[..i] + [s[i]] == s[..i + 1]
  {
  }

  lemma FirstInOrder(t: Tree, x: Node?)
    requires Bst(t) && (x == null <==> Nodes(t) == {})
    requires x != null ==> x in Nodes(t) && forall m <- Nodes(t) :: m == x || x.key < m.key
    ensures x == if InOrder(t) == [] then null else InOrder(t)[0]
  {
    InOrderSorted(t);
  }

  lemma NextInOrder(t: Tree, i: nat, y: Node?)
    requires Bst(t) && i < |InOrder(t)|
    requires y == null ==> forall m <- Nodes(t) :: m.key <= InOrder(t)[i].key
    requires y != null ==> y in Nodes(t) && InOrder(t)[i].key < y.key
    requires y != null ==> forall m <- Nodes(t) :: InOrder(t)[i].key < m.key ==> y.key <= m.key
    ensures y == if i + 1 < |InOrder(t)| then InOrder(t)[i + 1] else null
  {
    InOrderSorted(t);
    var s := InOrder(t);
    assert i + 1 < |s| ==> s[i + 1] in Nodes(t);
    assert y != null ==> y in s;
    NextInList(s, i, y);
  }

  lemma NextInList(s: seq<Node>, i: nat, y: Node?)
    requires Increasing(s) && i < |s| && (y == null && i + 1 < |s| ==> s[i + 1].key <= s[i].key)
    requires y != null ==> y in s && s[i].key < y.key && (i + 1 < |s| ==> y.key <= s[i + 1].key)
    ensures y == if i + 1 < |s| then s[i + 1] else null
  {
    if y != null {
      var j :| 0 <= j < |s| && s[j] == y;
      NextAfter(s, i, j);
    }
  }

  /** Among increasing nodes the one after `i` is the only one above it and at most all others above it. */
  lemma NextAfter(s: seq<Node>, i: nat, j: nat)
    requires Increasing(s) && i < |s| && j < |s| && s[i].key < s[j].key
    requires i + 1 < |s| ==> s[j].key <= s[i + 1].key
    ensures j == i + 1
  {
  }

  lemma NonEmpty(t: Tree)
    ensures t.Br? ==> Nodes(t) != {}
  {
    assert t.Br? ==> t.n in Nodes(t);
  }

  /** The root moves to side `s` of `e` together with its subtree there. */
  function Inserted(t: Tree, e: Node, s: Side): Tree
    requires t.Br?
  {
    if s.L? then Br(t.left, e, Br(Leaf, t.n, t.right)) else Br(Br(t.left, t.n, Leaf), e, t.right)
  }

  lemma InsertedShape(t: Tree, e: Node, s: Side)
    requires Bst(t) && Splayed(t, e.key) && Beyond(s, e.key, t.n)
    ensures Bst(Inserted(t, e, s)) && Nodes(Inserted(t, e, s)) == Nodes(t) + {e}
    ensures t.n in Nodes(t) && t.n !in Nodes(t.left) && t.n !in Nodes(t.right)
    ensures Nodes(t.left) <= Nodes(t) && Nodes(t.right) <= Nodes(t)
  {
    if s.L? {
      InsertedLeft(t, e);
    } else {
      InsertedRight(t, e);
    }
  }

  lemma InsertedLeft(t: Tree, e: Node)
    requires t.Br? && Bst(t) && Below(Nodes(t.left), e.key) && e.key < t.n.key
    ensures Bst(Br(t.left, e, Br(Leaf, t.n, t.right)))
  {
    var low := Br(Leaf, t.n, t.right);
    assert Nodes(low) == {t.n} + Nodes(t.right);
    assert Bst(low) && Above(e.key, Nodes(low));
  }

  lemma InsertedRight(t: Tree, e: Node)
    requires t.Br? && Bst(t) && Above(e.key, Nodes(t.right)) && t.n.key < e.key
    ensures Bst(Br(Br(t.left, t.n, Leaf), e, t.right))
  {
    var low := Br(t.left, t.n, Leaf);
    assert Nodes(low) == Nodes(t.left) + {t.n};
    assert Bst(low) && Below(Nodes(low), e.key);
  }

  lemma {:induction false} KeyUnique(t: Tree, a: Node, b: Node)
    requires Bst(t) && a in Nodes(t) && b in Nodes(t) && a.key == b.key
    ensures a == b
  {
    if a in Nodes(t.left) && b in Nodes(t.left) {
      KeyUnique(t.left, a, b);
    } else if a in Nodes(t.right) && b in Nodes(t.right) {
      KeyUnique(t.right, a, b);
    }
  }

  /** `t` has the key at its root, or its root is the nearest node on one side of the key. */
  ghost predicate Splayed(t: Tree, key: int) {
    && t.Br?
    && (key < t.n.key ==> Below(Nodes(t.left), key))
    && (t.n.key < key ==> Above(key, Nodes(t.right)))
  }

  /** What `Splayed` says about every node of the tree. */
  lemma SplayedNearest(t: Tree, key: int)
    requires Splayed(t, key) && Bst(t)
    ensures (exists m <- Nodes(t) :: m.key == key) <==> t.n.key == key
    ensures key < t.n.key ==> forall m <- Nodes(t) :: key <= m.key ==> t.n.key <= m.key
    ensures t.n.key < key ==> forall m <- Nodes(t) :: m.key <= key ==> m.key <= t.n.key
  {
    assert t.n in Nodes(t);
  }

  /** The key is on side `s` of `n`. */
  predicate Beyond(s: Side, key: int, n: Node) {
    if s.L? then key < n.key else n.key < key
  }

  lemma RotateOrdered(s: Side, a: Tree, y: Node, b: Tree, x: Node, c: Tree)
    requires Bst(Mk(s, Mk(s, a, y, b), x, c))
    ensures Bst(Mk(s, a, y, Mk(s.Other(), c, x, b)))
    ensures Nodes(Mk(s, a, y, Mk(s.Other(), c, x, b))) == Nodes(Mk(s, Mk(s, a, y, b), x, c))
    ensures Size(Mk(s, a, y, Mk(s.Other(), c, x, b))) == Size(Mk(s, Mk(s, a, y, b), x, c))
    ensures x != y && x !in Nodes(a) && x !in Nodes(b) && x !in Nodes(c) && y !in Nodes(a) && y !in Nodes(b)
    ensures y !in Nodes(c)
    ensures {x, y} <= Nodes(Mk(s, Mk(s, a, y, b), x, c))
  {
    var low := Mk(s, a, y, b);
    MkFacts(s, a, y, b);
    MkFacts(s, low, x, c);
    assert y in Nodes(low);
    MkFacts(s.Other(), c, x, b);
    MkFacts(s, a, y, Mk(s.Other(), c, x, b));
  }
}
