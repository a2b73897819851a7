/**
The steps insertion and deletion are made of: search order, moving between a node and its parent, linking a new leaf,
and carrying a change of height upwards.

In contracts `P(..) == true` means P(..): compared with `true`, a predicate is passed on as a whole instead of being
taken apart at every call.
 */
module AvlSteps {
  import opened AvlShape
  import opened AvlRotations

  // ---- search order

  ghost predicate Ordered(s: seq<Node>) {
    forall i, j :: 0 <= i < j < |s| ==> s[i].key < s[j].key
  }

  ghost predicate AllBelow(s: seq<Node>, k: int) {
    forall i :: 0 <= i < |s| ==> s[i].key < k
  }

  ghost predicate AllAbove(s: seq<Node>, k: int) {
    forall i :: 0 <= i < |s| ==> s[i].key > k
  }

  /** The sequence with n added in front of the first larger key. */
  ghost function Inserted(s: seq<Node>, n: Node): seq<Node> {
    if s == [] || n.key < s[0].key then [n] + s else [s[0]] + Inserted(s[1..], n)
  }

  /** The sequence without n. */
  ghost function Removed(s: seq<Node>, n: Node): seq<Node> {
    if s == [] then [] else if s[0] == n then s[1..] else [s[0]] + Removed(s[1..], n)
  }

  lemma {:induction false} InsertedBetween(a: seq<Node>, n: Node, b: seq<Node>)
    requires AllBelow(a, n.key) && AllAbove(b, n.key)
    ensures Inserted(a + b, n) == a + [n] + b
  {
    if a == [] {
      assert a + b == b && a + [n] + b == [n] + b;
    } else {
      assert (a + b)[1..] == a[1..] + b;
      InsertedBetween(a[1..], n, b);
      assert a + [n] + b == [a[0]] + (a[1..] + [n] + b);
    }
  }

  lemma {:induction false} RemovedBetween(a: seq<Node>, n: Node, b: seq<Node>)
    requires n !in a
    ensures Removed(a + [n] + b, n) == a + b
  {
    var s := a + [n] + b;
    if a == [] {
      assert s[0] == n && s[1..] == b;
    } else {
      assert s[0] == a[0] && s[1..] == a[1..] + [n] + b;
      RemovedBetween(a[1..], n, b);
    }
  }

  lemma OrderedWithInserted(a: seq<Node>, n: Node, b: seq<Node>)
    requires Ordered(a + b) && AllBelow(a, n.key) && AllAbove(b, n.key)
    ensures Ordered(a + [n] + b)
  {
    var s, t := a + [n] + b, a + b;
    forall i, j | 0 <= i < j < |s| ensures s[i].key < s[j].key {
      var i', j' := if i < |a| then i else i - 1, if j < |a| then j else j - 1;
      assert i < |a| ==> s[i] == t[i'];
      assert i > |a| ==> s[i] == t[i'];
      assert j < |a| ==> s[j] == t[j'];
      assert j > |a| ==> s[j] == t[j'];
    }
  }

  lemma OrderedWithoutMiddle(a: seq<Node>, n: Node, b: seq<Node>)
    requires Ordered(a + [n] + b)
    ensures Ordered(a + b) && AllBelow(a, n.key) && AllAbove(b, n.key)
  {
    var s, t := a + [n] + b, a + b;
    assert s[|a|] == n;
    forall i | 0 <= i < |a| ensures a[i].key < n.key { assert s[i] == a[i]; }
    forall i | 0 <= i < |b| ensures b[i].key > n.key { assert s[|a| + 1 + i] == b[i]; }
    forall i, j | 0 <= i < j < |t| ensures t[i].key < t[j].key {
      var i', j' := if i < |a| then i else i + 1, if j < |a| then j else j + 1;
      assert t[i] == s[i'] && t[j] == s[j'];
    }
  }

  // ---- one step towards the root

  /** The subtree one node further up, with d added to (left) or subtracted from (right) the stored balance there. */
  ghost function Raised(ctx: Path, sub: Tree, d: int): (t: Tree)
    requires !ctx.Top?
    ensures t.Fork? && Above(ctx, null) == t.node && t.bal == (if ctx.InLeft? then ctx.bal + d else ctx.bal - d)
  {
    match ctx
    case InLeft(_, n, b, r) => Fork(sub, n, b + d, r)
    case InRight(l, n, b, _) => Fork(l, n, b - d, sub)
  }

  ghost function Outer(ctx: Path): Path
    requires !ctx.Top?
  {
    match ctx
    case InLeft(up, _, _, _) => up
    case InRight(_, _, _, up) => up
  }

  /** The side of ctx's innermost node that the hole is not on. */
  ghost function Sibling(ctx: Path): Tree
    requires !ctx.Top?
  {
    match ctx
    case InLeft(_, _, _, r) => r
    case InRight(l, _, _, _) => l
  }

  /** What memory shows around the parent of c. */
  lemma ParentView(ctx: Path, sub: Tree, c: Node) returns (p: Node)
    requires At(ctx, sub, c) && sub.Fork? && !ctx.Top?
    ensures p == c.parent && p == ctx.node && p.balance == ctx.bal && p.parent == Above(Outer(ctx), null)
    ensures c == sub.node && PathLinks(Outer(ctx), p, null)
    ensures if ctx.InLeft? then p.left == c && Links(Sibling(ctx), p.right, p)
            else p.left != c && p.right == c && Links(Sibling(ctx), p.left, p)
    ensures PathApart(ctx) && Apart(sub) && p in PathNodes(ctx) && c in Nodes(sub)
    ensures {p} + Nodes(Sibling(ctx)) + PathNodes(Outer(ctx)) == PathNodes(ctx) && PathNodes(ctx) !! Nodes(sub)
    ensures p !in Nodes(Sibling(ctx)) && p !in PathNodes(Outer(ctx))
    ensures forall x :: x in PathNodes(ctx) + Nodes(sub) ==> allocated(x)
    ensures forall x :: x in Nodes(Sibling(ctx)) ==> allocated(x)
    ensures forall x :: x in PathNodes(Outer(ctx)) ==> allocated(x)
  {
    PathStep(ctx, c, null);
    PathAllocated(ctx);
    TreeAllocated(sub);
    p := c.parent;
    if ctx.InRight? { RootInNodes(ctx.left, p.left, p); }
  }

  /** The parent with its new child t and its new balance is a subtree again. */
  lemma ParentAgain(ctx: Path, t: Tree, d: int, p: Node)
    requires !ctx.Top? && p == ctx.node && PathApart(ctx) && Apart(t) && Nodes(t) !! PathNodes(ctx)
    requires p.parent == Above(Outer(ctx), null) && PathLinks(Outer(ctx), p, null) == true
    requires p.balance == if ctx.InLeft? then ctx.bal + d else ctx.bal - d
    requires Links(t, if ctx.InLeft? then p.left else p.right, p) == true
    requires Links(Sibling(ctx), if ctx.InLeft? then p.right else p.left, p) == true
    ensures At(Outer(ctx), Raised(ctx, t, d), p)
  {
    PathStep(ctx, null, null);
    var u := Raised(ctx, t, d);
    ForkContent(u.left, p, u.bal, u.right);
    ForkLinks(u.left, p, u.bal, u.right, p.parent);
  }

  /** Moves from c to its parent, adding d to the parent's balance if c is its left child and subtracting d if it is the
      right one. */
  method Climb(c: Node, d: int, ghost ctx: Path, ghost sub: Tree)
    returns (p: Node, ghost ctx': Path, ghost sub': Tree)
    requires At(ctx, sub, c) && sub.Fork? && !ctx.Top?
    modifies PathNodes(ctx)
    ensures At(ctx', sub', p) && ctx' == Outer(ctx) && sub' == Raised(ctx, sub, d)
  {
    hide *;
    ghost var view := ParentView(ctx, sub, c);
    AtInParent(ctx, sub, c);
    p := c.parent;
    if p.left == c {
      p.balance := p.balance + d;
    } else {
      p.balance := p.balance - d;
    }
    ctx', sub' := Outer(ctx), Raised(ctx, sub, d);
    ParentAgain(ctx, sub, d, p);
  }

  lemma AtInParent(ctx: Path, sub: Tree, c: Node)
    requires At(ctx, sub, c) && sub.Fork? && !ctx.Top?
    ensures if ctx.InLeft? then Links(sub, ctx.node.left, ctx.node) else Links(sub, ctx.node.right, ctx.node)
  {}

  /** What memory shows at the root of a subtree: whether there is a parent, and the stored balance. */
  lemma AtRoot(c: Path, t: Tree, p: Node?)
    requires At(c, t, p) && t.Fork?
    ensures p == t.node && p.parent == Above(c, null) && p.balance == t.bal
    ensures p.parent == null <==> c.Top?
    ensures c.Top? ==> forall h :: PathAvl(c, h)
  {}

  /** A subtree that has grown by one passes its growth on, absorbs it, or must be rebalanced and then absorbs it. */
  lemma GrowthStep(ctx: Path, sub: Tree)
    requires !ctx.Top? && Avl(sub) && sub.Fork? && PathAvl(ctx, Height(sub) - 1)
    requires sub.bal != 0 || Height(sub) == 1
    ensures var t, up := Raised(ctx, sub, -1), Outer(ctx);
      && NearlyAvl(t)
      && (t.bal == 0 ==> Avl(t) && PathAvl(up, Height(t)))
      && (t.bal == 1 || t.bal == -1 ==> Avl(t) && PathAvl(up, Height(t) - 1))
      && (t.bal == 2 || t.bal == -2 ==>
            CanRebalance(t) && Rebalanced(t).Fork? && Avl(Rebalanced(t)) && PathAvl(up, Height(Rebalanced(t))))
  {
    hide Height, Avl, CanRebalance;
    var t := Raised(ctx, sub, -1);
    ForkAvl(t.left, t.node, t.bal, t.right);
    if t.bal == 2 || t.bal == -2 {
      RebalancedIsAvl(t);
    }
  }

  lemma RaisedContent(ctx: Path, sub: Tree, d: int)
    requires !ctx.Top?
    ensures Nodes(Raised(ctx, sub, d)) + PathNodes(Outer(ctx)) == Nodes(sub) + PathNodes(ctx)
    ensures Before(Outer(ctx)) + InOrder(Raised(ctx, sub, d)) + After(Outer(ctx))
         == Before(ctx) + InOrder(sub) + After(ctx)
  {
    match ctx {
      case InLeft(up, n, b, r) => Regroup(Before(up), InOrder(sub), [n], InOrder(r), After(up));
      case InRight(l, n, b, up) => Regroup(Before(up), InOrder(l), [n], InOrder(sub), After(up));
    }
  }

  /** Going up without touching a balance. */
  lemma AtParent(ctx: Path, sub: Tree, c: Node)
    requires At(ctx, sub, c) && !ctx.Top? && sub.Fork?
    ensures c.parent != null && At(Outer(ctx), Raised(ctx, sub, 0), c.parent)
  {
    var t := Raised(ctx, sub, 0);
    ForkContent(t.left, t.node, t.bal, t.right);
  }

  lemma WholeTree(t: Tree, p: Node?)
    requires Apart(t) && Links(t, p, null) && p != null
    ensures At(Top, t, p) && t.Fork? && Before(Top) == [] && After(Top) == []
  {}

  /** A subtree with root c opens into its two sides; the key of c and of everything outside it stay where they were. */
  lemma OpenFork(ctx: Path, sub: Tree, c: Node, k: int)
    requires At(ctx, sub, c) && sub.Fork? && Ordered(InOrder(Plug(ctx, sub)))
    requires AllBelow(Before(ctx), k) && AllAbove(After(ctx), k)
    ensures c == sub.node
    ensures var Fork(l, _, b, r) := sub;
      && At(InLeft(ctx, c, b, r), l, c.left) && At(InRight(l, c, b, ctx), r, c.right)
      && (c.left == null <==> l.Leaf?) && (c.right == null <==> r.Leaf?)
      && (c.key < k ==> AllBelow(Before(InRight(l, c, b, ctx)), k) && AllAbove(After(InRight(l, c, b, ctx)), k))
      && (c.key > k ==> AllBelow(Before(InLeft(ctx, c, b, r)), k) && AllAbove(After(InLeft(ctx, c, b, r)), k))
    ensures c in InOrder(Plug(ctx, sub))
  {
    var Fork(l, _, b, r) := sub;
    ForkContent(l, c, b, r);
    ForkLinks(l, c, b, r, Above(ctx, null));
    RootInNodes(l, c.left, c);
    RootInNodes(r, c.right, c);
    OpenForkKeys(ctx, sub, k);
  }

  lemma OpenForkKeys(ctx: Path, sub: Tree, k: int)
    requires sub.Fork? && Ordered(InOrder(Plug(ctx, sub)))
    requires AllBelow(Before(ctx), k) && AllAbove(After(ctx), k)
    ensures var Fork(l, c, b, r) := sub;
      && (c.key < k ==> AllBelow(Before(InRight(l, c, b, ctx)), k))
      && (c.key > k ==> AllAbove(After(InLeft(ctx, c, b, r)), k))
    ensures sub.node in InOrder(Plug(ctx, sub))
  {
    var Fork(l, c, b, r) := sub;
    PlugInOrder(ctx, sub);
    KeysAround(Before(ctx), InOrder(l), c, InOrder(r), After(ctx), k);
  }

  lemma KeysAround(u: seq<Node>, l: seq<Node>, c: Node, r: seq<Node>, v: seq<Node>, k: int)
    requires Ordered(u + (l + [c] + r) + v) && AllBelow(u, k) && AllAbove(v, k)
    ensures c.key < k ==> AllBelow(u + (l + [c]), k)
    ensures c.key > k ==> AllAbove([c] + r + v, k)
    ensures c in u + (l + [c] + r) + v
  {
    var s := u + (l + [c] + r) + v;
    var m := |u| + |l|;
    assert s[m] == c;
    forall i | 0 <= i < m ensures s[i].key < c.key {}
    forall i | 0 <= i < |u + (l + [c])| ensures (u + (l + [c]))[i] == s[i] {}
    forall i | 0 <= i < |[c] + r + v| ensures ([c] + r + v)[i] == s[m + i] {}
  }

  /** The balances fit a new leaf below c, before and after the parent's balance is evened out. */
  lemma NewLeafFits(ctx: Path, sub: Tree)
    requires sub.Fork? && Avl(Plug(ctx, sub))
    ensures var Fork(l, c, b, r) := sub;
      && (r.Leaf? ==> PathAvl(InRight(l, c, b, ctx), 0) && (b == -1 ==> PathAvl(InRight(l, c, 0, ctx), 1)))
      && (l.Leaf? ==> PathAvl(InLeft(ctx, c, b, r), 0) && (b == 1 ==> PathAvl(InLeft(ctx, c, 0, r), 1)))
  {
    PathAvlPlug(ctx, sub);
  }

  /** Links n as the right child of c, which has none. */
  method AttachRight(c: Node, n: Node, ghost ctx: Path, ghost sub: Tree) returns (absorbed: bool, ghost ctx': Path)
    requires sub.Fork? && At(InRight(sub.left, c, sub.bal, ctx), Leaf, null)
    requires n !in PathNodes(InRight(sub.left, c, sub.bal, ctx))
    requires n.parent == null && n.left == null && n.right == null && n.balance == 0
    modifies c, n
    ensures ctx' == InRight(sub.left, c, if absorbed then 0 else sub.bal, ctx) && absorbed == (sub.bal == -1)
    ensures At(ctx', Fork(Leaf, n, 0, Leaf), n)
  {
    PathStep(InRight(sub.left, c, sub.bal, ctx), null, null);
    absorbed := c.balance + 1 == 0;
    c.right := n;
    n.parent := c;
    if c.balance + 1 == 0 {
      c.balance := c.balance + 1;
    }
    ctx' := InRight(sub.left, c, c.balance, ctx);
    PathStep(ctx', n, null);
    assert PathLinks(ctx', n, null);
    assert Separate(ctx', Fork(Leaf, n, 0, Leaf));
  }

  /** Links n as the left child of c, which has none. */
  method AttachLeft(c: Node, n: Node, ghost ctx: Path, ghost sub: Tree) returns (absorbed: bool, ghost ctx': Path)
    requires sub.Fork? && At(InLeft(ctx, c, sub.bal, sub.right), Leaf, null)
    requires n !in PathNodes(InLeft(ctx, c, sub.bal, sub.right))
    requires n.parent == null && n.left == null && n.right == null && n.balance == 0
    modifies c, n
    ensures ctx' == InLeft(ctx, c, if absorbed then 0 else sub.bal, sub.right) && absorbed == (sub.bal == 1)
    ensures At(ctx', Fork(Leaf, n, 0, Leaf), n)
  {
    PathStep(InLeft(ctx, c, sub.bal, sub.right), null, null);
    absorbed := c.balance - 1 == 0;
    c.left := n;
    n.parent := c;
    if c.balance - 1 == 0 {
      c.balance := c.balance - 1;
    }
    ctx' := InLeft(ctx, c, c.balance, sub.right);
    PathStep(ctx', n, null);
    assert PathLinks(ctx', n, null);
    assert Separate(ctx', Fork(Leaf, n, 0, Leaf));
  }

  /** The contents split at the place of a new leaf. */
  lemma ContentsAtPlace(ctx: Path, sub: Tree)
    requires sub.Fork?
    ensures var Fork(l, c, b, r) := sub;
      && (r.Leaf? ==> forall b' :: var p := InRight(l, c, b', ctx);
                        Before(p) + After(p) == InOrder(Plug(ctx, sub)) && PathNodes(p) == Nodes(Plug(ctx, sub)))
      && (l.Leaf? ==> forall b' :: var p := InLeft(ctx, c, b', r);
                        Before(p) + After(p) == InOrder(Plug(ctx, sub)) && PathNodes(p) == Nodes(Plug(ctx, sub)))
  {
    hide *;
    var Fork(l, c, b, r) := sub;
    PlugInOrder(ctx, sub);
    PlugNodes(ctx, sub);
    ForkContent(l, c, b, r);
    EmptyContent();
    PlaceContent(ctx, l, c, r);
    Regroup(Before(ctx), InOrder(l), [c], InOrder(r), After(ctx));
    if r.Leaf? { assert InOrder(l) + [c] + [] == InOrder(l) + [c]; }
    if l.Leaf? { assert [] + [c] + InOrder(r) == [c] + InOrder(r); }
  }

  lemma EmptyContent()
    ensures Nodes(Leaf) == {} && InOrder(Leaf) == []
  {}

  lemma PlaceContent(ctx: Path, l: Tree, c: Node, r: Tree)
    ensures forall b :: var p := InRight(l, c, b, ctx);
      && Before(p) == Before(ctx) + (InOrder(l) + [c]) && After(p) == After(ctx)
      && PathNodes(p) == PathNodes(ctx) + {c} + Nodes(l)
    ensures forall b :: var p := InLeft(ctx, c, b, r);
      && Before(p) == Before(ctx) && After(p) == ([c] + InOrder(r)) + After(ctx)
      && PathNodes(p) == PathNodes(ctx) + {c} + Nodes(r)
  {}

  lemma SingleLeaf(n: Node)
    ensures var t := Fork(Leaf, n, 0, Leaf);
      Avl(t) && Height(t) == 1 && InOrder(t) == [n] && Nodes(t) == {n} && Apart(t)
  {
    ForkContent(Leaf, n, 0, Leaf);
  }

  /** What a subtree and its surroundings make together. */
  lemma WholeContent(ctx: Path, sub: Tree)
    requires Avl(sub) && PathAvl(ctx, Height(sub))
    ensures var t := Plug(ctx, sub);
      && Avl(t) && Nodes(t) == Nodes(sub) + PathNodes(ctx)
      && InOrder(t) == Before(ctx) + InOrder(sub) + After(ctx)
  {
    PathAvlPlug(ctx, sub);
    PlugNodes(ctx, sub);
    PlugInOrder(ctx, sub);
  }

  lemma WholeAt(t: Tree, p: Node)
    requires At(Top, t, p)
    ensures Apart(t) && Links(t, p, null)
  {}

  lemma SamePlace(ctx: Path, b: int)
    requires !ctx.Top?
    ensures Before(ctx.(bal := b)) == Before(ctx) && After(ctx.(bal := b)) == After(ctx)
  {}

  lemma NodeInTree(ctx: Path, sub: Tree)
    requires sub.Fork?
    ensures sub.node in Nodes(Plug(ctx, sub))
  {
    PlugNodes(ctx, sub);
  }

  lemma NotPresent(a: seq<Node>, b: seq<Node>, k: int)
    requires AllBelow(a, k) && AllAbove(b, k)
    ensures forall m :: m in a + b ==> m.key != k
  {}

  /** The second loop of insertion: carries the growth of sub upwards until some subtree absorbs it. */
  method AbsorbGrowth(c0: Node, ghost ctx0: Path, ghost sub0: Tree)
    returns (c: Node, ghost ctx: Path, ghost sub: Tree)
    requires At(ctx0, sub0, c0) && Avl(sub0) && sub0.Fork? && PathAvl(ctx0, Height(sub0) - 1)
    requires sub0.bal != 0 || Height(sub0) == 1
    modifies Nodes(sub0) + PathNodes(ctx0)
    ensures At(ctx, sub, c) && sub.Fork? && Avl(sub) && PathAvl(ctx, Height(sub))
    ensures Nodes(sub) + PathNodes(ctx) == Nodes(sub0) + PathNodes(ctx0)
    ensures Before(ctx) + InOrder(sub) + After(ctx) == Before(ctx0) + InOrder(sub0) + After(ctx0)
  {
    hide At, Nodes, PathNodes, InOrder, Before, After, Height, Avl, PathAvl, Rebalanced, Raised;
    c, ctx, sub := c0, ctx0, sub0;
    var run := true;
    while run
      invariant At(ctx, sub, c) && Avl(sub) && sub.Fork?
      invariant Nodes(sub) + PathNodes(ctx) == Nodes(sub0) + PathNodes(ctx0)
      invariant Before(ctx) + InOrder(sub) + After(ctx) == Before(ctx0) + InOrder(sub0) + After(ctx0)
      invariant run ==> PathAvl(ctx, Height(sub) - 1) && (sub.bal != 0 || Height(sub) == 1)
      invariant !run ==> PathAvl(ctx, Height(sub))
      decreases run, ctx
    {
      AtRoot(ctx, sub, c);
      if c.parent == null {
        run := false;
      } else {
        GrowthStep(ctx, sub);
        RaisedContent(ctx, sub, -1);
        c, ctx, sub := Climb(c, -1, ctx, sub);
        AtRoot(ctx, sub, c);
        if c.balance == 0 {
          run := false;
        } else if c.balance > 1 || c.balance < -1 {
          RotationsKeepContent(sub);
          c, sub := Rebalance(c, ctx, sub);
          run := false;
        }
      }
    }
  }

  /** Follows parent links to the root. */
  method ClimbToRoot(c0: Node, ghost ctx0: Path, ghost sub0: Tree) returns (c: Node, ghost t: Tree)
    requires At(ctx0, sub0, c0) && sub0.Fork?
    ensures t == Plug(ctx0, sub0) && At(Top, t, c)
  {
    hide At;
    c := c0;
    ghost var ctx := ctx0;
    t := sub0;
    AtRoot(ctx, t, c);
    while c.parent != null
      invariant At(ctx, t, c) && t.Fork? && Plug(ctx, t) == Plug(ctx0, sub0)
      invariant c.parent == null <==> ctx.Top?
      decreases ctx
    {
      AtParent(ctx, t, c);
      c := c.parent;
      ctx, t := Outer(ctx), Raised(ctx, t, 0);
      AtRoot(ctx, t, c);
    }
  }

  // ---- height against size

  function Fib(n: nat): nat {
    if n < 2 then n else Fib(n - 1) + Fib(n - 2)
  }

  lemma {:induction false} FibMonotone(m: nat, n: nat)
    requires m <= n
    ensures Fib(m) <= Fib(n)
  {
    if m < n { FibMonotone(m, n - 1); }
  }

  /** A balanced tree of height h holds at least Fib(h + 2) - 1 nodes. */
  lemma {:induction false} HeightBound(t: Tree)
    requires Avl(t)
    ensures Fib(Height(t) + 2) <= |InOrder(t)| + 1
  {
    hide *;
    if t.Leaf? {
      EmptyBound();
    } else {
      var Fork(l, n, b, r) := t;
      ForkAvl(l, n, b, r);
      ForkContent(l, n, b, r);
      HeightBound(l);
      HeightBound(r);
      FibOfSides(Height(l), Height(r));
    }
  }

  lemma EmptyBound()
    ensures Fib(Height(Leaf) + 2) == 1 && InOrder(Leaf) == []
  {}

  /** The higher side is one lower than the whole, the other at most two lower. */
  lemma FibOfSides(hl: nat, hr: nat)
    requires -1 <= hr - hl <= 1
    ensures Fib(1 + Max(hl, hr) + 2) <= Fib(hl + 2) + Fib(hr + 2)
  {
    var h := 1 + Max(hl, hr);
    FibMonotone(h, hl + 2);
    FibMonotone(h, hr + 2);
    assert Fib(h + 2) == Fib(h + 1) + Fib(h);
  }
}
