/**
Taking one node out of the tree: the three cases of deletion, and carrying the loss of height upwards.

In contracts `P(..) == true` means P(..): compared with `true`, a predicate is passed on as a whole instead of being
taken apart at every call.
 */
module AvlRemoval {
  import opened AvlShape
  import opened AvlRotations
  import opened AvlSteps

  // ---- the loss of height

  /** After a removal: either the loss is absorbed, or sub is one lower than its surroundings expect, or sub is out of
      balance by two and has kept its height. At the root any height is expected. */
  ghost predicate Shrunk(absorbed: bool, ctx: Path, sub: Tree) {
    sub.Fork? &&
    if absorbed then
      Avl(sub) && PathAvl(ctx, Height(sub))
    else
      && NearlyAvl(sub)
      && (ctx.Top?
          || (sub.bal == 0 && PathAvl(ctx, Height(sub) + 1))
          || ((sub.bal == 2 || sub.bal == -2) && PathAvl(ctx, Height(sub))))
  }

  /** When the subtree in the hole has become one lower, the parent absorbs that exactly if it was even before. */
  lemma ShrinkStep(ctx: Path, sub: Tree)
    requires !ctx.Top? && Avl(sub) && PathAvl(ctx, Height(sub) + 1)
    ensures Shrunk(ctx.bal == 0, Outer(ctx), Raised(ctx, sub, 1))
  {
    hide Height, Avl;
    var t := Raised(ctx, sub, 1);
    ForkAvl(t.left, t.node, t.bal, t.right);
  }

  /** Rebalancing absorbs the loss exactly if the heavier child was even. */
  lemma ShrunkRebalanced(ctx: Path, sub: Tree)
    requires Shrunk(false, ctx, sub) && (sub.bal == 2 || sub.bal == -2)
    ensures CanRebalance(sub) && Rebalanced(sub).Fork?
    ensures var heavy := if sub.bal == -2 then sub.left else sub.right;
      heavy.Fork? && Shrunk(heavy.bal == 0, ctx, Rebalanced(sub)) &&
      (heavy.bal != 0 ==> -1 <= Rebalanced(sub).bal <= 1)
  {
    RebalancedIsAvl(sub);
    hide Height, Rebalanced, PathAvl, CanRebalance;
  }

  lemma ShrunkAtRoot(absorbed: bool, ctx: Path, sub: Tree)
    requires Shrunk(absorbed, ctx, sub) && (absorbed || -1 <= sub.bal <= 1)
    ensures ctx.Top? ==> Avl(sub) && PathAvl(ctx, Height(sub))
    ensures !absorbed && !ctx.Top? ==> Avl(sub) && PathAvl(ctx, Height(sub) + 1)
  {}

  lemma AbsorbedStep(ctx: Path, sub: Tree)
    requires !ctx.Top? && Shrunk(true, ctx, sub)
    ensures Shrunk(true, Outer(ctx), Raised(ctx, sub, 0))
  {}

  /** The children seen in memory. */
  lemma AtChildren(ctx: Path, t: Tree, c: Node)
    requires At(ctx, t, c) && t.Fork?
    ensures t.left.Fork? <==> c.left != null
    ensures t.right.Fork? <==> c.right != null
    ensures c.left != null ==> c.left.balance == t.left.bal
    ensures c.right != null ==> c.right.balance == t.right.bal
  {
    assert Links(t.left, c.left, c) && Links(t.right, c.right, c);
  }

  lemma AtSides(ctx: Path, t: Tree, c: Node)
    requires At(ctx, t, c) && t.Fork?
    ensures Links(t.left, c.left, c) && Links(t.right, c.right, c) && Apart(t.left) && Apart(t.right)
    ensures c !in Nodes(t.left) + Nodes(t.right) && Nodes(t.left) !! Nodes(t.right)
    ensures Nodes(t) == Nodes(t.left) + {c} + Nodes(t.right) && Nodes(t) !! PathNodes(ctx)
    ensures forall x :: x in Nodes(t) ==> allocated(x)
  {
    TreeAllocated(t);
    ForkContent(t.left, c, t.bal, t.right);
    ForkLinks(t.left, c, t.bal, t.right, c.parent);
  }

  lemma ShrunkBalance(absorbed: bool, ctx: Path, sub: Tree)
    requires Shrunk(absorbed, ctx, sub)
    ensures sub.Fork? && -2 <= sub.bal <= 2
  {}

  lemma WholePath(t: Tree)
    ensures Nodes(t) == Nodes(t) + PathNodes(Top) && InOrder(t) == Before(Top) + InOrder(t) + After(Top)
  {}

  /** The loop of deletion: carries the loss of height upwards and ends at the root. */
  method AbsorbLoss(c0: Node, absorbed0: bool, ghost ctx0: Path, ghost sub0: Tree) returns (c: Node, ghost t: Tree)
    requires At(ctx0, sub0, c0) && Shrunk(absorbed0, ctx0, sub0)
    modifies Nodes(sub0) + PathNodes(ctx0)
    ensures At(Top, t, c) && Avl(t) && t.Fork?
    ensures Nodes(t) == Nodes(sub0) + PathNodes(ctx0)
    ensures InOrder(t) == Before(ctx0) + InOrder(sub0) + After(ctx0)
  {
    hide At, Nodes, PathNodes, InOrder, Before, After, Height, Avl, PathAvl, Rebalanced, Raised, Shrunk;
    c, t := c0, sub0;
    ghost var ctx := ctx0;
    var run, absorbed := true, absorbed0;
    ShrunkBalance(absorbed, ctx, t);
    while run
      invariant At(ctx, t, c) && t.Fork? && Shrunk(absorbed, ctx, t)
      invariant Nodes(t) + PathNodes(ctx) == Nodes(sub0) + PathNodes(ctx0)
      invariant Before(ctx) + InOrder(t) + After(ctx) == Before(ctx0) + InOrder(sub0) + After(ctx0)
      invariant !run ==> ctx.Top? && Avl(t)
      decreases run, ctx, !absorbed && (c.balance > 1 || c.balance < -1)
    {
      AtRoot(ctx, t, c);
      if absorbed {
        if c.parent == null {
          ShrunkAtRoot(absorbed, ctx, t);
          run := false;
        } else {
          AtParent(ctx, t, c);
          AbsorbedStep(ctx, t);
          RaisedContent(ctx, t, 0);
          c := c.parent;
          ctx, t := Outer(ctx), Raised(ctx, t, 0);
        }
      } else if c.balance > 1 || c.balance < -1 {
        ShrunkBalance(absorbed, ctx, t);
        ShrunkRebalanced(ctx, t);
        RotationsKeepContent(t);
        AtChildren(ctx, t, c);
        if c.balance > 1 && c.right != null {
          if c.right.balance == 0 {
            absorbed := true;
          }
        }
        if c.balance < -1 && c.left != null {
          if c.left.balance == 0 {
            absorbed := true;
          }
        }
        c, t := Rebalance(c, ctx, t);
        AtRoot(ctx, t, c);
      } else {
        ShrunkAtRoot(absorbed, ctx, t);
        if c.parent == null {
          run := false;
        } else {
          ShrinkStep(ctx, t);
          RaisedContent(ctx, t, 1);
          AtParent(ctx, t, c);
          AtRoot(Outer(ctx), Raised(ctx, t, 0), c.parent);
          if c.parent.balance == 0 {
            absorbed := true;
          }
          c, ctx, t := Climb(c, 1, ctx, t);
          AtRoot(ctx, t, c);
        }
      }
    }
    WholePath(t);
  }

  // ---- the three cases

  predicate Cleared(n: Node)
    reads n
  {
    n.parent == null && n.left == null && n.right == null && n.balance == 0
  }

  method FreeNode(n: Node)
    modifies n
    ensures Cleared(n)
  {
    n.parent := null;
    n.left := null;
    n.right := null;
    n.balance := 0;
  }

  /** Below p, l takes the place of n, and the balance of p moves away from that side. */
  method HandDown(p: Node, n: Node, l: Node?)
    requires p.left == n || p.right == n
    modifies p
    ensures p.parent == old(p.parent)
    ensures if old(p.left) == n then p.left == l && p.right == old(p.right) && p.balance == old(p.balance) + 1
            else p.left == old(p.left) && p.right == l && p.balance == old(p.balance) - 1
  {
    if p.left == n {
      p.left := l;
      p.balance := p.balance + 1;
    } else if p.right == n {
      p.right := l;
      p.balance := p.balance - 1;
    }
  }

  /** A node without right child, not the root: its left child takes its place below the parent. */
  method RemoveWithoutRight(n: Node, ghost ctx: Path, ghost sub: Tree)
    returns (c: Node, absorbed: bool, ghost ctx': Path, ghost sub': Tree)
    requires At(ctx, sub, n) && sub.Fork? && sub.right.Leaf? && !ctx.Top?
    modifies Nodes(sub) + PathNodes(ctx)
    ensures ctx' == Outer(ctx) && sub' == Raised(ctx, sub.left, 1) && absorbed == (ctx.bal == 0)
    ensures At(ctx', sub', c) && Cleared(n)
  {
    hide *;
    ghost var p := ParentView(ctx, sub, n);
    c := n.parent;
    AtSides(ctx, sub, n);
    RootInNodes(sub.left, n.left, n);
    absorbed := c.balance == 0;
    var l := n.left;
    HandDown(c, n, l);
    Adopt(l, c, sub.left, n);
    FreeNode(n);
    ctx', sub' := Outer(ctx), Raised(ctx, sub.left, 1);
    ParentAgain(ctx, sub.left, 1, c);
  }

  lemma TakeOverLinks(n: Node, c: Node, f: Node?, sub: Tree)
    requires Apart(sub) && Links(sub, n, f) && sub.Fork? && sub.right.Fork? && sub.right.left.Leaf? && c == n.right
    ensures var Fork(l, n', b, Fork(_, c', cb, r)) := sub;
      && n' == n && c' == c && n != c && n.parent == f && n.balance == b && c.balance == cb
      && Links(l, n.left, n) && Links(r, c.right, c) && Apart(l)
      && n !in Nodes(l) + Nodes(r) && c !in Nodes(l) + Nodes(r) && Nodes(l) !! Nodes(r)
      && Nodes(sub) == Nodes(l) + Nodes(r) + {n, c}
    ensures forall x :: x in Nodes(sub) ==> allocated(x)
  {
    var Fork(l, _, b, Fork(_, _, cb, r)) := sub;
    ForkLinks(l, n, b, sub.right, f);
    ForkLinks(Leaf, c, cb, r, n);
    ForkContent(Leaf, c, cb, r);
    ForkContent(l, n, b, sub.right);
    TreeAllocated(sub);
  }

  /** The links and the balance of n pass to its right child c, which has no left child. */
  method TakeOver(n: Node, c: Node, ghost f: Node?, ghost sub: Tree) returns (ghost sub': Tree)
    requires Apart(sub) && Links(sub, n, f) && sub.Fork? && sub.right.Fork? && sub.right.left.Leaf? && c == n.right
    modifies Nodes(sub)
    ensures sub' == Fork(sub.left, sub.right.node, sub.bal - 1, sub.right.right) && Links(sub', c, f) && Cleared(n)
  {
    hide *;
    ghost var Fork(l, _, b, Fork(_, _, cb, r)) := sub;
    TakeOverLinks(n, c, f, sub);
    RootInNodes(l, n.left, n);
    sub' := Fork(l, c, b - 1, r);
    c.parent := n.parent;
    SetLeft(c, n.left, l, n);
    c.balance := n.balance;
    FreeNode(n);
    c.balance := c.balance - 1;
    ForkLinks(l, c, b - 1, r, f);
  }

  lemma TakeOverContent(sub: Tree)
    requires sub.Fork? && sub.right.Fork? && sub.right.left.Leaf? && Apart(sub)
    ensures var t := Fork(sub.left, sub.right.node, sub.bal - 1, sub.right.right);
      Apart(t) && Nodes(t) + {sub.node} == Nodes(sub) && sub.node !in Nodes(t)
  {
    var Fork(l, n, b, Fork(m, c, cb, r)) := sub;
    ForkContent(m, c, cb, r);
    ForkContent(l, n, b, sub.right);
    ForkContent(l, c, b - 1, r);
  }

  /** A node whose right child has no left child: the right child takes its place and its balance, less one. */
  method ReplaceByRight(n: Node, ghost ctx: Path, ghost sub: Tree)
    returns (c: Node, absorbed: bool, ghost sub': Tree)
    requires At(ctx, sub, n) && sub.Fork? && sub.right.Fork? && sub.right.left.Leaf?
    modifies Nodes(sub) + PathNodes(ctx)
    ensures sub' == Raised(InRight(sub.left, sub.right.node, sub.bal, ctx), sub.right.right, 1)
    ensures absorbed == (!ctx.Top? && sub.bal == 0)
    ensures At(ctx, sub', c) && Cleared(n)
  {
    hide Links, Apart, PathApart, Nodes, PathNodes;
    AtRoot(ctx, sub, n);
    AtChildren(ctx, sub, n);
    AboveInPath(ctx);
    TakeOverContent(sub);
    TreeAllocated(sub);
    PathAllocated(ctx);
    c := n.right;
    var f := n.parent;
    absorbed := false;
    if f != null {
      if n.balance == 0 {
        absorbed := true;
      }
      ReplaceChild(f, n, c, ctx);
    }
    hide PathLinks;
    sub' := TakeOver(n, c, f, sub);
  }

  /** The hole is reached from the top by going left only. */
  ghost predicate AllLeft(c: Path) {
    c.Top? || (c.InLeft? && AllLeft(c.up))
  }

  lemma {:induction false} NothingBefore(c: Path)
    requires AllLeft(c)
    ensures Before(c) == []
  {
    if !c.Top? { NothingBefore(c.up); }
  }

  /** The topmost step of a way, and the rest below it. */
  lemma {:induction false} SplitTop(c: Path, p: Node?) returns (d: Path, top: Path)
    requires AllLeft(c) && !c.Top?
    ensures c == Append(d, top) && top.InLeft? && top.up.Top? && RootOf(c, p) == top.node
  {
    if c.up.Top? {
      d, top := Top, c;
    } else {
      d, top := SplitTop(c.up, c.node);
      d := InLeft(d, c.node, c.bal, c.right);
    }
  }

  lemma {:induction false} RootOfAny(c: Path, p: Node?, p': Node?)
    requires !c.Top?
    ensures RootOf(c, p) == RootOf(c, p') && RootOf(c, p) != null && RootOf(c, p) in PathNodes(c)
    ensures c.node in PathNodes(c) && Above(c, null) == c.node
    decreases c
  {
    match c {
      case InLeft(up, n, _, _) => if !up.Top? { RootOfAny(up, n, n); }
      case InRight(_, n, _, up) => if !up.Top? { RootOfAny(up, n, n); }
    }
  }

  /** Hangs the left side of n on s. The left child is dereferenced without a test; the tree has one. */
  method TakeLeft(s: Node, n: Node, ghost l: Tree)
    requires Links(l, n.left, n) == true && l.Fork? && Apart(l) && s !in Nodes(l) && s != n
    modifies s`left, Just(n.left)`parent
    ensures s.left == n.left && Links(l, s.left, s)
  {
    s.left := n.left;
    s.left.parent := s;
  }

  /** Puts s above the topmost node q of a way. */
  method Rebase(q: Node, s: Node, ghost c: Path, ghost p: Node?, ghost base: Node)
    requires AllLeft(c) && !c.Top? && PathApart(c) && PathLinks(c, p, base) == true && q == RootOf(c, p)
    modifies q`parent
    ensures PathLinks(c, p, s)
  {
    ghost var d, top := SplitTop(c, p);
    AppendNodes(d, top);
    AppendLinks(d, top, p, base);
    PathStep(top, RootOf(d, p), base);
    hide PathLinks, PathApart, PathNodes;
    q.parent := s;
    PathStep(top, RootOf(d, p), s);
    AppendLinks(d, top, p, s);
  }

  /** Takes s, whose left side is empty, out of the hole at c: its right side moves up. */
  method SpliceOut(c: Node, s: Node, ghost ctx: Path, ghost r: Tree, ghost base: Node)
    requires ctx.InLeft? && ctx.node == c && PathLinks(ctx, s, base) == true && PathApart(ctx)
    requires Links(r, s.right, s) == true && Apart(r) && Nodes(r) !! PathNodes(ctx) && s !in PathNodes(ctx)
    modifies c`left, Just(s.right)`parent
    ensures PathLinks(ctx, s.right, base) && Links(r, s.right, c) && c.left == s.right
  {
    PathStep(ctx, s, base);
    RootInNodes(r, s.right, s);
    TreeAllocated(ctx.right);
    PathAllocated(ctx.up);
    hide PathLinks, PathApart, PathNodes, Links;
    SetLeft(c, s.right, r, s);
    PathStep(ctx, s.right, base);
  }

  /** The balance of n and its place below its parent pass to s; n is cleared. */
  method TakePlace(s: Node, n: Node, ghost ctx: Path, ghost l: Tree, ghost b: int)
    requires PathApart(ctx) && PathLinks(ctx, n, null) == true && n.parent == Above(ctx, null) && n.balance == b
    requires n !in PathNodes(ctx) && s !in PathNodes(ctx) && n != s
    requires Links(l, s.left, s) == true && n !in Nodes(l) && s !in Nodes(l) && Nodes(l) !! PathNodes(ctx)
    modifies {s, n} + PathNodes(ctx)
    ensures PathLinks(InRight(l, s, b, ctx), s.right, null) && Cleared(n)
    ensures s.left == old(s.left) && s.right == old(s.right)
  {
    AboveInPath(ctx);
    PathAllocated(ctx);
    TreeAllocated(l);
    hide PathApart, PathNodes, Links;
    s.balance := n.balance;
    s.parent := n.parent;
    ReplaceChild(n.parent, n, s, ctx);
    FreeNode(n);
    PathStep(InRight(l, s, b, ctx), s.right, null);
  }

  /** The way down to s ends at c; s gives up its place to its right side r and takes over both sides of n. */
  method TakeSides(n: Node, c: Node, s: Node, ghost ctx: Path, ghost l: Tree, ghost b: int, ghost way: Path,
                   ghost r: Tree)
    requires way.InLeft? && way.node == c && AllLeft(way) && l.Fork?
    requires PathLinks(way, s, n) == true && PathLinks(InRight(l, n, b, ctx), RootOf(way, s), null) == true
    requires PathApart(way) && PathApart(InRight(l, n, b, ctx)) && PathNodes(way) !! PathNodes(InRight(l, n, b, ctx))
    requires Apart(r) && s !in Nodes(r) && Links(r, s.right, s) == true
    requires Nodes(r) + {s} !! PathNodes(way) + PathNodes(InRight(l, n, b, ctx))
    modifies s, c`left, Just(s.right)`parent, Just(n.left)`parent, Just(n.right)`parent
    ensures PathLinks(way, old(s.right), s) && s.right == RootOf(way, old(s.right))
    ensures c.left == old(s.right) && Links(r, c.left, c)
    ensures s.left == old(n.left) && Links(l, s.left, s) && PathLinks(ctx, n, null)
    ensures n.parent == old(n.parent) && n.balance == old(n.balance)
  {
    hide *;
    var q, p := n.right, s.right;
    ViewFromTop(n, ctx, l, b, way, s);
    RootOfAny(way, s, p);
    RootInNodes(r, p, s);
    PathAllocated(way);
    TreeAllocated(r);
    TakeLeft(s, n, l);
    SpliceOut(c, s, way, r, n);
    TakeRight(q, s, c, n, way, p, l, r, ctx);
  }

  /** Hangs the way, with its topmost node q, on the right of s. */
  method TakeRight(q: Node, s: Node, c: Node, ghost n: Node, ghost way: Path, ghost p: Node?, ghost l: Tree,
                   ghost r: Tree, ghost ctx: Path)
    requires AllLeft(way) && way.InLeft? && PathApart(way) && PathLinks(way, p, n) == true && q == RootOf(way, p)
    requires q in PathNodes(way) && c in PathNodes(way)
    requires {s} !! PathNodes(way) + PathNodes(ctx) + Nodes(l) + Nodes(r)
    requires PathNodes(way) !! PathNodes(ctx) + Nodes(l) + Nodes(r)
    requires Links(l, s.left, s) == true && Links(r, c.left, c) == true && PathLinks(ctx, n, null) == true
    modifies s`right, q`parent
    ensures s.right == q && PathLinks(way, p, s)
    ensures Links(l, s.left, s) && Links(r, c.left, c) && PathLinks(ctx, n, null)
  {
    PathAllocated(ctx);
    TreeAllocated(l);
    TreeAllocated(r);
    hide *;
    s.right := q;
    Rebase(q, s, way, p, n);
  }

  /** What memory shows around n above the way to its successor. */
  lemma ViewFromTop(n: Node, ctx: Path, l: Tree, b: int, way: Path, s: Node)
    requires PathLinks(InRight(l, n, b, ctx), RootOf(way, s), null) == true && PathApart(InRight(l, n, b, ctx))
      && l.Fork?
    ensures n.right == RootOf(way, s) && n.parent == Above(ctx, null) && n.balance == b && PathLinks(ctx, n, null)
    ensures Links(l, n.left, n) && n.left != null && n.left in Nodes(l)
    ensures PathNodes(InRight(l, n, b, ctx)) == PathNodes(ctx) + {n} + Nodes(l)
    ensures n !in PathNodes(ctx) && n !in Nodes(l) && Nodes(l) !! PathNodes(ctx) && Apart(l) && PathApart(ctx)
    ensures forall x :: x in PathNodes(ctx) ==> allocated(x)
    ensures forall x :: x in Nodes(l) ==> allocated(x)
  {
    PathStep(InRight(l, n, b, ctx), RootOf(way, s), null);
    RootInNodes(l, n.left, n);
    PathAllocated(ctx);
    TreeAllocated(l);
  }

  /** The successor s takes the place of n, and its right side r takes the place of s below c. */
  method PromoteSuccessor(n: Node, c: Node, s: Node, ghost ctx: Path, ghost l: Tree, ghost b: int, ghost way: Path,
                          ghost sb: int, ghost r: Tree)
    requires way.InLeft? && way.node == c && AllLeft(way) && l.Fork?
    requires At(Append(way, InRight(l, n, b, ctx)), Fork(Leaf, s, sb, r), s)
    modifies Nodes(r) + {s} + PathNodes(way) + PathNodes(InRight(l, n, b, ctx))
    ensures At(Append(way, InRight(l, s, b, ctx)), r, c.left) == true && Cleared(n)
  {
    hide *;
    SuccessorView(n, s, ctx, l, b, way, sb, r);
    ViewFromTop(n, ctx, l, b, way, s);
    TakeSides(n, c, s, ctx, l, b, way, r);
    TakePlace(s, n, ctx, l, b);
    AtPromoted(s, c.left, ctx, l, b, way, r);
  }

  /** What memory shows between n and its successor s. */
  lemma SuccessorView(n: Node, s: Node, ctx: Path, l: Tree, b: int, way: Path, sb: int, r: Tree)
    requires !way.Top? && At(Append(way, InRight(l, n, b, ctx)), Fork(Leaf, s, sb, r), s)
    ensures PathLinks(way, s, n) && PathLinks(InRight(l, n, b, ctx), RootOf(way, s), null)
    ensures PathApart(way) && PathApart(InRight(l, n, b, ctx)) && PathNodes(way) !! PathNodes(InRight(l, n, b, ctx))
    ensures Apart(r) && s !in Nodes(r) && Links(r, s.right, s)
    ensures Nodes(r) + {s} !! PathNodes(way) + PathNodes(InRight(l, n, b, ctx))
    ensures RootOf(way, s) == RootOf(way, s.right) && RootOf(way, s) in PathNodes(way)
    ensures Separate(Append(way, InRight(l, s, b, ctx)), r) == true
    ensures way.node in PathNodes(way) && Above(way, null) == way.node && (s.right != null ==> s.right in Nodes(r))
    ensures forall x :: x in PathNodes(way) ==> allocated(x)
    ensures forall x :: x in Nodes(r) ==> allocated(x)
  {
    hide Links, PathLinks, Nodes, PathNodes, Apart, PathApart, Append, RootOf;
    AppendLinks(way, InRight(l, n, b, ctx), s, null);
    AppendNodes(way, InRight(l, n, b, ctx));
    RootOfAny(way, s, s.right);
    ForkLinks(Leaf, s, sb, r, Above(Append(way, InRight(l, n, b, ctx)), null));
    ForkContent(Leaf, s, sb, r);
    RootInNodes(r, s.right, s);
    PathAllocated(way);
    TreeAllocated(r);
    PathStep(InRight(l, n, b, ctx), null, null);
    SeparatePromoted(s, ctx, l, b, way, r);
  }

  lemma AtPromoted(s: Node, p: Node?, ctx: Path, l: Tree, b: int, way: Path, r: Tree)
    requires !way.Top? && PathLinks(way, p, s) == true && PathLinks(InRight(l, s, b, ctx), s.right, null) == true
    requires s.right == RootOf(way, p) && Links(r, p, Above(way, null)) == true
    requires Separate(Append(way, InRight(l, s, b, ctx)), r) == true
    ensures At(Append(way, InRight(l, s, b, ctx)), r, p) == true
  {
    AppendLinks(way, InRight(l, s, b, ctx), p, null);
    hide Links, PathLinks, Nodes, PathNodes, Apart, PathApart, Append, RootOf;
  }

  lemma SeparatePromoted(s: Node, ctx: Path, l: Tree, b: int, way: Path, r: Tree)
    requires Apart(r) && PathApart(way) && PathApart(ctx) && Apart(l)
    requires Nodes(l) !! PathNodes(ctx) && s !in PathNodes(ctx) && s !in Nodes(l)
    requires Nodes(r) + PathNodes(way) !! PathNodes(ctx) + {s} + Nodes(l) && Nodes(r) !! PathNodes(way)
    ensures Separate(Append(way, InRight(l, s, b, ctx)), r)
  {
    AppendNodes(way, InRight(l, s, b, ctx));
    PathStep(InRight(l, s, b, ctx), null, null);
    hide Nodes, PathNodes, Apart, PathApart, Append;
  }

  /** The left side of c has become one lower. */
  method LowerLeft(c: Node, ghost ctx: Path, ghost r: Tree) returns (absorbed: bool)
    requires ctx.InLeft? && ctx.node == c && At(ctx, r, c.left)
    modifies c`balance
    ensures absorbed == (ctx.bal == 0) && At(Outer(ctx), Raised(ctx, r, 1), c)
  {
    hide Links, PathLinks, Apart, PathApart, Nodes, PathNodes;
    PathStep(ctx, c.left, null);
    PathAllocated(ctx);
    TreeAllocated(r);
    ghost var t := Raised(ctx, r, 1);
    ForkContent(t.left, c, t.bal, t.right);
    absorbed := false;
    if c.balance == 0 {
      absorbed := true;
    }
    c.balance := c.balance + 1;
    ForkLinks(t.left, c, t.bal, t.right, Above(Outer(ctx), null));
  }

  lemma AtLeftChild(ctx: Path, t: Tree, c: Node)
    requires At(ctx, t, c) && t.Fork? && t.left.Fork?
    ensures c == t.node && c.left != null && At(InLeft(ctx, c, t.bal, t.right), t.left, c.left)
  {
    ForkContent(t.left, c, t.bal, t.right);
    RootInNodes(t.left, c.left, c);
  }

  lemma AtRightChild(ctx: Path, t: Tree, c: Node)
    requires At(ctx, t, c) && t.Fork? && t.right.Fork?
    ensures c == t.node && c.right != null && At(InRight(t.left, c, t.bal, ctx), t.right, c.right)
  {
    ForkContent(t.left, c, t.bal, t.right);
    RootInNodes(t.right, c.right, c);
  }

  lemma PlugTop(t: Tree)
    ensures Plug(Top, t) == t
  {}

  lemma PlugLeft(c: Path, t: Tree)
    requires t.Fork?
    ensures Plug(InLeft(c, t.node, t.bal, t.right), t.left) == Plug(c, t)
  {}

  /** A node whose right child has a left child: the leftmost node s of the right side takes its place. */
  method ReplaceBySuccessor(n: Node, ghost ctx: Path, ghost sub: Tree)
    returns (c: Node, absorbed: bool, ghost s: Node, ghost sb: int, ghost way: Path, ghost r: Tree)
    requires At(ctx, sub, n) && sub.Fork? && sub.left.Fork? && sub.right.Fork? && sub.right.left.Fork?
    modifies Nodes(sub) + PathNodes(ctx)
    ensures way.InLeft? && AllLeft(way) && absorbed == (way.bal == 0)
    ensures Plug(way, Fork(Leaf, s, sb, r)) == sub.right
    ensures var ctx' := Append(way, InRight(sub.left, s, sub.bal, ctx));
      !ctx'.Top? && At(Outer(ctx'), Raised(ctx', r, 1), c)
    ensures Cleared(n)
  {
    hide Nodes, PathNodes, Plug;
    assert Apart(sub);
    hide At;
    AtRightChild(ctx, sub, n);
    c := n.right;
    ghost var t, base := sub.right, InRight(sub.left, n, sub.bal, ctx);
    way := Top;
    PlugTop(t);
    AtLeftChild(base, t, c);
    var m: Node := c.left;
    while true
      invariant t.Fork? && t.left.Fork? && AllLeft(way) && Plug(way, t) == sub.right
      invariant At(Append(way, base), t, c) && c == t.node && m == c.left
      invariant At(InLeft(Append(way, base), c, t.bal, t.right), t.left, m)
      decreases t
    {
      AtChildren(InLeft(Append(way, base), c, t.bal, t.right), t.left, m);
      PlugLeft(way, t);
      if m.left == null {
        break;
      }
      way, t := InLeft(way, c, t.bal, t.right), t.left;
      c := m;
      AtLeftChild(Append(way, base), t, c);
      m := c.left;
    }
    way := InLeft(way, c, t.bal, t.right);
    s, sb, r := m, t.left.bal, t.left.right;
    AtRoot(Append(way, base), t.left, m);
    PlugNodes(way, t.left);
    ForkContent(Leaf, m, t.left.bal, r);
    ForkContent(sub.left, n, sub.bal, sub.right);
    PathStep(base, null, null);
    PathStep(way, null, null);
    PromoteSuccessor(n, c, m, ctx, sub.left, sub.bal, way, t.left.bal, r);
    absorbed := LowerLeft(c, Append(way, InRight(sub.left, m, sub.bal, ctx)), r);
  }

  // ---- what a removal leaves

  /** The state before the upward loop: everything but n is still there, in order, and one subtree may be lower. */
  ghost predicate Removal(ctx: Path, sub: Tree, absorbed: bool, ctx': Path, sub': Tree)
    requires sub.Fork?
  {
    && Shrunk(absorbed, ctx', sub')
    && Nodes(sub') + PathNodes(ctx') == Nodes(sub.left) + Nodes(sub.right) + PathNodes(ctx)
    && Before(ctx') + InOrder(sub') + After(ctx')
       == (Before(ctx) + InOrder(sub.left)) + (InOrder(sub.right) + After(ctx))
  }

  lemma RemovalNodes(ctx: Path, sub: Tree, absorbed: bool, ctx': Path, sub': Tree)
    requires sub.Fork? && Removal(ctx, sub, absorbed, ctx', sub')
    ensures Nodes(sub') + PathNodes(ctx') == Nodes(sub.left) + Nodes(sub.right) + PathNodes(ctx)
  {}

  lemma RemovedWithoutRight(ctx: Path, sub: Tree)
    requires !ctx.Top? && sub.Fork? && sub.right.Leaf? && Avl(sub) && PathAvl(ctx, Height(sub))
    ensures Removal(ctx, sub, ctx.bal == 0, Outer(ctx), Raised(ctx, sub.left, 1))
  {
    hide Shrunk, Raised, PathAvl, Avl, Before, After, PathNodes, Height;
    ForkAvl(sub.left, sub.node, sub.bal, sub.right);
    EmptyHeight(sub.right);
    ShrinkStep(ctx, sub.left);
    RaisedContent(ctx, sub.left, 1);
    assert InOrder(sub.right) + After(ctx) == After(ctx);
  }

  lemma ReplacedByRight(ctx: Path, sub: Tree)
    requires sub.Fork? && sub.right.Fork? && sub.right.left.Leaf? && Avl(sub) && PathAvl(ctx, Height(sub))
    ensures Removal(ctx, sub, !ctx.Top? && sub.bal == 0, ctx,
                    Raised(InRight(sub.left, sub.right.node, sub.bal, ctx), sub.right.right, 1))
  {
    ReplacedByRightAvl(ctx, sub);
    var Fork(l, n, b, Fork(_, c, cb, r)) := sub;
    hide Shrunk, PathAvl, Avl, Height, Nodes, PathNodes, InOrder, Before, After;
    EmptyContent();
    ForkContent(Leaf, c, cb, r);
    ForkContent(l, c, b - 1, r);
    RightInOrder(Before(ctx), InOrder(l), c, InOrder(r), After(ctx));
  }

  lemma RightInOrder(u: seq<Node>, l: seq<Node>, c: Node, r: seq<Node>, v: seq<Node>)
    ensures u + (l + [c] + r) + v == (u + l) + (([] + [c] + r) + v)
  {}

  lemma ReplacedByRightAvl(ctx: Path, sub: Tree)
    requires sub.Fork? && sub.right.Fork? && sub.right.left.Leaf? && Avl(sub) && PathAvl(ctx, Height(sub))
    ensures Shrunk(!ctx.Top? && sub.bal == 0, ctx,
                   Raised(InRight(sub.left, sub.right.node, sub.bal, ctx), sub.right.right, 1))
  {
    var Fork(l, n, b, Fork(m, c, cb, r)) := sub;
    ForkAvl(l, n, b, sub.right);
    ForkAvl(m, c, cb, r);
    EmptyHeight(m);
    ShrinkStep(InRight(l, c, b, ctx), r);
  }

  lemma ReplacedBySuccessor(ctx: Path, sub: Tree, way: Path, s: Node, sb: int, r: Tree)
    requires sub.Fork? && way.InLeft? && AllLeft(way) && Plug(way, Fork(Leaf, s, sb, r)) == sub.right
    requires Avl(Plug(ctx, sub))
    ensures var ctx' := Append(way, InRight(sub.left, s, sub.bal, ctx));
      Removal(ctx, sub, way.bal == 0, Outer(ctx'), Raised(ctx', r, 1))
  {
    hide Shrunk, PathAvl, Avl, Height, AllLeft, Plug, Nodes, PathNodes, InOrder, Before, After, Raised, Append, Outer;
    SuccessorAvl(ctx, sub, way, s, sb, r);
    var base := InRight(sub.left, s, sub.bal, ctx);
    var t, ctx' := Fork(Leaf, s, sb, r), Append(way, base);
    EmptyContent();
    RaisedContent(ctx', r, 1);
    AppendNodes(way, base);
    AppendInOrder(way, base);
    NothingBefore(way);
    PlugNodes(way, t);
    PlugInOrder(way, t);
    ForkContent(Leaf, s, sb, r);
    PathStep(base, null, null);
    BeforeRight(sub.left, s, sub.bal, ctx);
    SuccessorInOrder(Before(ctx), InOrder(sub.left), s, InOrder(r), After(way), After(ctx));
  }

  lemma BeforeRight(l: Tree, n: Node, b: int, ctx: Path)
    ensures Before(InRight(l, n, b, ctx)) == Before(ctx) + (InOrder(l) + [n])
    ensures After(InRight(l, n, b, ctx)) == After(ctx)
  {}

  lemma SuccessorAvl(ctx: Path, sub: Tree, way: Path, s: Node, sb: int, r: Tree)
    requires sub.Fork? && way.InLeft? && Plug(way, Fork(Leaf, s, sb, r)) == sub.right && Avl(Plug(ctx, sub))
    ensures var ctx' := Append(way, InRight(sub.left, s, sub.bal, ctx));
      Shrunk(way.bal == 0, Outer(ctx'), Raised(ctx', r, 1))
  {
    var Fork(l, n, b, _) := sub;
    var t, base := Fork(Leaf, s, sb, r), InRight(l, n, b, ctx);
    PlugAppend(way, base, t);
    PathAvlPlug(Append(way, base), t);
    RenameKeepsAvl(way, l, n, s, b, ctx, Height(t));
    EmptyHeight(Leaf);
    ForkAvl(Leaf, s, sb, r);
    ShrinkStep(Append(way, InRight(l, s, b, ctx)), r);
  }

  lemma SuccessorInOrder(u: seq<Node>, l: seq<Node>, s: Node, r: seq<Node>, w: seq<Node>, v: seq<Node>)
    ensures (u + (l + [s]) + []) + r + (w + v) == (u + l) + (([] + ([] + [s] + r) + w) + v)
  {}

  /** The left child that case three dereferences exists. */
  lemma LeftExists(sub: Tree)
    requires sub.Fork? && Avl(sub) && sub.right.Fork? && sub.right.left.Fork?
    ensures sub.left.Fork?
  {
    EmptyHeight(sub.left);
    EmptyHeight(sub.right.left);
  }
}
